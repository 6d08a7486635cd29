/** The single-threaded run of `main`: index the reference transcripts by
    chromosome, bucket the reads by chromosome, process every bucket whose
    chromosome the reference knows, and write the batches one after the other. */
module Driver {
  import opened Records
  import opened Text
  import opened Grouping
  import opened Annotate
  import opened Report

  // ---------------------------------------------------------------- reference

  /** `gpd.value('chrom')`, the chromosome of the record's range. */
  function ChromOf(g: Gpd): string
  {
    g.range.chr
  }

  function Parsed(lib: Library, lines: seq<string>): (gs: seq<Gpd>)
    ensures |gs| == |lines|
    ensures forall i :: 0 <= i < |lines| ==> gs[i] == lib.parse(lines[i])
  {
    seq(|lines|, i requires 0 <= i < |lines| => lib.parse(lines[i]))
  }

  /** The reference index `txome` built from the reference lines. */
  function Index(lib: Library, rinf: seq<string>): map<string, seq<Transcript>>
  {
    GroupBy(Numbering(Parsed(lib, rinf)), ChromOf)
  }

  /** The reference loop of `main`: count the lines from 1, parse each,
      attach the count as payload and append it to its chromosome's list. */
  method BuildIndex(lib: Library, rinf: seq<string>) returns (txome: map<string, seq<Transcript>>)
    ensures txome == Index(lib, rinf)
  {
    ghost var tagged := Numbering(Parsed(lib, rinf));
    txome := map[];
    var z := 0;
    while z < |rinf|
      invariant 0 <= z <= |rinf|
      invariant txome == GroupBy(tagged[..z], ChromOf)
    {
      var line := rinf[z];
      z := z + 1;
      var gpd := lib.parse(line);
      var r := Numbered(gpd, z);
      NumberingPrefix(Parsed(lib, rinf), z - 1);
      GroupByAppend(tagged[..z - 1], r, ChromOf);
      // a new chromosome starts with an empty list
      var list: seq<Transcript> := [];
      if ChromOf(gpd) in txome {
        list := txome[ChromOf(gpd)];
      }
      txome := txome[ChromOf(gpd) := list + [r]];
    }
    assert tagged[..z] == tagged;
  }

  /** The reference index: a chromosome has a list exactly when some reference
      line is on it; line i (numbered i + 1) is in its own chromosome's list and
      in no other; every entry carries the number of the line it was parsed
      from; and every list keeps reference input order. */
  lemma IndexByReferenceLine(lib: Library, rinf: seq<string>)
    ensures var txome := Index(lib, rinf);
      && (forall c :: c in txome <==> exists i :: 0 <= i < |rinf| && ChromOf(lib.parse(rinf[i])) == c)
      && (forall i, c :: 0 <= i < |rinf| && c in txome ==>
            (Numbered(lib.parse(rinf[i]), i + 1) in txome[c] <==> ChromOf(lib.parse(rinf[i])) == c))
      && (forall c, t :: c in txome && t in txome[c] ==>
            1 <= t.z <= |rinf| && t.item == lib.parse(rinf[t.z - 1]) && ChromOf(t.item) == c)
      && (forall c :: c in txome ==> Increasing(txome[c]))
  {
    var gs := Parsed(lib, rinf);
    GroupKeys(gs, ChromOf);
    GroupMembership(gs, ChromOf);
    GroupEntries(gs, ChromOf);
    GroupOrder(gs, ChromOf);
  }

  // -------------------------------------------------------------------- reads

  /** The buckets `chroms` and the order in which the dictionary yields its keys. */
  datatype Buckets = Buckets(chroms: map<string, seq<Numbered<string>>>, order: seq<string>)

  /** A read line the chromosome pattern does not match: `m.group(1)` on no
      match raises and ends the run. `z` is the line's number. */
  datatype Fault = NoChromosomeField(z: nat)

  /** The bucket key of a read line (its third column). */
  function ReadChrom(line: string): string
  {
    match ThirdField(line)
    case Some(c) => c
    case None => ""
  }

  function ChromKeys(lines: seq<string>): (ks: seq<string>)
    ensures |ks| == |lines|
    ensures forall i :: 0 <= i < |lines| ==> ks[i] == ReadChrom(lines[i])
  {
    seq(|lines|, i requires 0 <= i < |lines| => ReadChrom(lines[i]))
  }

  /** The index of the first read line the pattern does not match, or the
      number of lines if it matches them all. */
  function FirstUnmatched(lines: seq<string>): (k: nat)
    ensures k <= |lines|
    ensures forall j :: 0 <= j < k ==> ThirdField(lines[j]).Some?
    ensures k < |lines| ==> ThirdField(lines[k]).None?
  {
    if lines == [] || ThirdField(lines[0]).None? then 0
    else 1 + FirstUnmatched(lines[1..])
  }

  /** What the read loop of `main` ends with. */
  function Bucketing(inf: seq<string>): Result<Buckets, Fault>
  {
    var k := FirstUnmatched(inf);
    if k < |inf| then Failure(NoChromosomeField(k + 1))
    else Success(Buckets(GroupBy(Numbering(inf), ReadChrom), FirstSeen(ChromKeys(inf))))
  }

  /** The read loop of `main`: count the lines from 1, take the chromosome
      from the third column, and append `[line, z]` to its bucket, creating
      the bucket on first sight. */
  method BucketReads(inf: seq<string>) returns (r: Result<Buckets, Fault>)
    ensures r == Bucketing(inf)
  {
    ghost var tagged := Numbering(inf);
    ghost var keys := ChromKeys(inf);
    var chroms: map<string, seq<Numbered<string>>> := map[];
    var order: seq<string> := [];
    var z := 0;
    while z < |inf|
      invariant 0 <= z <= |inf|
      invariant z <= FirstUnmatched(inf)
      invariant chroms == GroupBy(tagged[..z], ReadChrom)
      invariant order == FirstSeen(keys[..z])
      invariant forall c :: c in order <==> c in chroms
    {
      var line := inf[z];
      z := z + 1;
      var m := ThirdField(line);
      if m.None? {
        assert FirstUnmatched(inf) == z - 1;
        return Failure(NoChromosomeField(z));
      }
      var chrom := m.value;
      MatchedLine(inf, z - 1);
      BucketStep(inf, z - 1, chroms, order);
      // a new chromosome starts with an empty bucket and joins the key order
      var bucket: seq<Numbered<string>> := [];
      if chrom in chroms {
        bucket := chroms[chrom];
      } else {
        order := order + [chrom];
      }
      chroms := chroms[chrom := bucket + [Numbered(line, z)]];
    }
    assert tagged[..z] == tagged;
    assert keys[..z] == keys;
    return Success(Buckets(chroms, order));
  }

  /** A matched line past the matched prefix extends it. */
  lemma MatchedLine(inf: seq<string>, i: nat)
    requires i <= FirstUnmatched(inf) && i < |inf| && ThirdField(inf[i]).Some?
    ensures i + 1 <= FirstUnmatched(inf)
  {
  }

  /** One turn of the read loop: the dictionary gains line i (numbered i + 1)
      in the bucket of its third column, and the key order gains that column
      if it is new. */
  lemma BucketStep(inf: seq<string>, i: nat, chroms: map<string, seq<Numbered<string>>>, order: seq<string>)
    requires i < |inf| && ThirdField(inf[i]).Some?
    requires chroms == GroupBy(Numbering(inf)[..i], ReadChrom)
    requires order == FirstSeen(ChromKeys(inf)[..i])
    requires forall c :: c in order <==> c in chroms
    ensures var chrom := ThirdField(inf[i]).value;
      && GroupBy(Numbering(inf)[..i + 1], ReadChrom)
         == chroms[chrom := (if chrom in chroms then chroms[chrom] else []) + [Numbered(inf[i], i + 1)]]
      && FirstSeen(ChromKeys(inf)[..i + 1]) == if chrom in chroms then order else order + [chrom]
  {
    NumberingPrefix(inf, i);
    GroupByAppend(Numbering(inf)[..i], Numbered(inf[i], i + 1), ReadChrom);
    OrderStep(ChromKeys(inf), i);
  }

  /** The key order after one more key. */
  lemma OrderStep(keys: seq<string>, i: nat)
    requires i < |keys|
    ensures FirstSeen(keys[..i + 1])
         == if keys[i] in FirstSeen(keys[..i]) then FirstSeen(keys[..i]) else FirstSeen(keys[..i]) + [keys[i]]
  {
    assert keys[..i + 1][..i] == keys[..i];
  }

  /** Reading fails exactly when some read line has no non-empty third
      column, and then names the first such line by its line number. */
  lemma BucketingFails(inf: seq<string>)
    ensures Bucketing(inf).Failure? <==> exists i :: 0 <= i < |inf| && ThirdField(inf[i]).None?
    ensures Bucketing(inf).Failure? ==>
      var z := Bucketing(inf).error.z;
      1 <= z <= |inf| && ThirdField(inf[z - 1]).None?
      && forall j :: 0 <= j < z - 1 ==> ThirdField(inf[j]).Some?
  {
    var k := FirstUnmatched(inf);
    if k < |inf| {
      assert ThirdField(inf[k]).None?;
    }
  }

  /** After a successful read, every read is in exactly one bucket, the one
      of its third column, as `[line, z]` with `z` its line number. */
  lemma BucketsByThirdColumn(inf: seq<string>)
    requires Bucketing(inf).Success?
    ensures var chroms := Bucketing(inf).value.chroms;
      && (forall i :: 0 <= i < |inf| ==> ThirdField(inf[i]).Some? && ThirdField(inf[i]).value in chroms)
      && (forall i, c :: 0 <= i < |inf| && c in chroms ==>
            (Numbered(inf[i], i + 1) in chroms[c] <==> ThirdField(inf[i]) == Some(c)))
  {
    var chroms := GroupBy(Numbering(inf), ReadChrom);
    assert Bucketing(inf).value.chroms == chroms;
    assert forall i :: 0 <= i < |inf| ==> ThirdField(inf[i]).Some? && ThirdField(inf[i]).value in chroms by {
      GroupKeys(inf, ReadChrom);
    }
    GroupMembership(inf, ReadChrom);
  }

  /** After a successful read, every bucket entry is a read line tagged with
      its own line number and carrying the bucket's chromosome, and every
      bucket keeps input order: its line numbers strictly increase. */
  lemma BucketEntries(inf: seq<string>)
    requires Bucketing(inf).Success?
    ensures var chroms := Bucketing(inf).value.chroms;
      && (forall c, n :: c in chroms && n in chroms[c] ==>
            1 <= n.z <= |inf| && inf[n.z - 1] == n.item && ThirdField(n.item) == Some(c))
      && (forall c :: c in chroms ==> Increasing(chroms[c]))
  {
    var chroms := GroupBy(Numbering(inf), ReadChrom);
    assert Bucketing(inf).value.chroms == chroms;
    assert forall c :: c in chroms ==> Increasing(chroms[c]) by {
      GroupOrder(inf, ReadChrom);
    }
    assert forall c, n: Numbered<string> :: c in chroms && n in chroms[c] ==>
        1 <= n.z <= |inf| && inf[n.z - 1] == n.item && ReadChrom(n.item) == c by {
      GroupEntries(inf, ReadChrom);
    }
    forall c, n: Numbered<string> | c in chroms && n in chroms[c] ensures ThirdField(n.item) == Some(c) {
      assert ThirdField(inf[n.z - 1]).Some?;
    }
  }

  /** After a successful read, the key order lists every bucket exactly once. */
  lemma BucketOrder(inf: seq<string>)
    requires Bucketing(inf).Success?
    ensures var b := Bucketing(inf).value;
      && (forall c :: c in b.order <==> c in b.chroms)
      && (forall i, j :: 0 <= i < j < |b.order| ==> b.order[i] != b.order[j])
  {
    var chroms := GroupBy(Numbering(inf), ReadChrom);
    var keys := ChromKeys(inf);
    assert Bucketing(inf).value == Buckets(chroms, FirstSeen(keys));
    forall c | c in keys ensures c in chroms {
      var i :| 0 <= i < |inf| && keys[i] == c;
      GroupMembership(inf, ReadChrom);
    }
    forall c | c in chroms ensures c in keys {
      GroupKeys(inf, ReadChrom);
      var i :| 0 <= i < |inf| && ReadChrom(inf[i]) == c;
      assert keys[i] == c;
    }
  }

  // ----------------------------------------------------------------- dispatch

  /** The single-threaded stand-in for an asynchronous result. */
  datatype Queue = Queue(val: seq<string>) {
    /** `get()` hands back the value it was built with. */
    function Get(): (r: seq<string>)
      ensures r == val
    {
      val
    }
  }

  /** The batch of the bucket of `chrom`, processed against the one-entry
      index `{chrom: txome[chrom]}`. */
  function BucketLines(lib: Library, chroms: map<string, seq<Numbered<string>>>, chrom: string,
                       txome: map<string, seq<Transcript>>): seq<string>
    requires chrom in chroms && chrom in txome
  {
    FormatBatch(lib, chroms[chrom], map[chrom := txome[chrom]])
  }

  /** Annotating against the one-entry index `{chrom: txome[chrom]}` gives the
      same result as against the whole index for a read whose parsed
      chromosome is `chrom`, and no result for any other read. So a read
      whose third column differs from its parsed chromosome gets no line. */
  lemma RestrictedIndex(lib: Library, read: Gpd, txome: map<string, seq<Transcript>>, chrom: string)
    requires chrom in txome
    ensures Annotation(lib, read, map[chrom := txome[chrom]])
         == if read.range.chr == chrom then Annotation(lib, read, txome) else None
  {
  }

  /** The lines one submitted chromosome contributes: its batch when the
      reference knows it, nothing otherwise. */
  function Submitted(lib: Library, chroms: map<string, seq<Numbered<string>>>, chrom: string,
                     txome: map<string, seq<Transcript>>): seq<string>
  {
    if chrom in txome && chrom in chroms then BucketLines(lib, chroms, chrom, txome) else []
  }

  /** The output of the dispatch loop: the batches of the buckets, in the
      order the buckets are submitted, skipping chromosomes absent from the
      reference. */
  function Assemble(lib: Library, chroms: map<string, seq<Numbered<string>>>, order: seq<string>,
                    txome: map<string, seq<Transcript>>): seq<string>
  {
    ConcatMap(order, c => Submitted(lib, chroms, c, txome))
  }

  lemma AssembleLast(lib: Library, chroms: map<string, seq<Numbered<string>>>, order: seq<string>,
                     txome: map<string, seq<Transcript>>)
    requires order != []
    ensures Assemble(lib, chroms, order, txome)
         == Assemble(lib, chroms, order[..|order| - 1], txome) + Submitted(lib, chroms, order[|order| - 1], txome)
  {
  }

  /** Each submitted chromosome contributes exactly its own batch, between
      the output of the chromosomes submitted before it and after it. */
  lemma AssembleSplit(lib: Library, chroms: map<string, seq<Numbered<string>>>, order: seq<string>,
                      txome: map<string, seq<Transcript>>, i: nat)
    requires i < |order|
    ensures Assemble(lib, chroms, order, txome)
         == Assemble(lib, chroms, order[..i], txome) + Submitted(lib, chroms, order[i], txome)
            + Assemble(lib, chroms, order[i + 1..], txome)
  {
    ConcatMapSplit(order, i, c => Submitted(lib, chroms, c, txome));
  }

  /** The values of the queued results, one after the other. */
  function Drain(results: seq<Queue>): seq<string>
  {
    if results == [] then [] else Drain(results[..|results| - 1]) + results[|results| - 1].Get()
  }

  /** The dispatch loop of `main` on one thread: submit the bucket of every
      chromosome the reference knows, then write the results. */
  method Dispatch(lib: Library, chroms: map<string, seq<Numbered<string>>>, order: seq<string>,
                  txome: map<string, seq<Transcript>>) returns (out: seq<string>)
    requires forall c :: c in order ==> c in chroms
    ensures out == Assemble(lib, chroms, order, txome)
  {
    var results: seq<Queue> := [];
    var i := 0;
    while i < |order|
      invariant 0 <= i <= |order|
      invariant Drain(results) == Assemble(lib, chroms, order[..i], txome)
    {
      var chrom := order[i];
      assert order[..i + 1][..i] == order[..i];
      AssembleLast(lib, chroms, order[..i + 1], txome);
      i := i + 1;
      if chrom !in txome {
        continue;
      }
      var v := DoBuffer(lib, chroms[chrom], map[chrom := txome[chrom]]);
      assert (results + [Queue(v)])[..|results|] == results;
      results := results + [Queue(v)];
    }
    assert order[..i] == order;
    out := WriteResults(results);
  }

  /** The loop that writes every line of every queued result in turn. */
  method WriteResults(results: seq<Queue>) returns (out: seq<string>)
    ensures out == Drain(results)
  {
    out := [];
    var k := 0;
    while k < |results|
      invariant 0 <= k <= |results|
      invariant out == Drain(results[..k])
    {
      var res := results[k].Get();
      var j := 0;
      while j < |res|
        invariant 0 <= j <= |res|
        invariant out == Drain(results[..k]) + res[..j]
      {
        out := out + [res[j]];
        j := j + 1;
        assert res[..j] == res[..j - 1] + [res[j - 1]];
      }
      assert res[..j] == res;
      assert results[..k + 1][..k] == results[..k];
      k := k + 1;
    }
    assert results[..k] == results;
  }

  /** The output is the concatenation of the batches in submission order:
      submitting `o1` then `o2` writes the lines of `o1` and then those of `o2`,
      with no re-sorting by line number. */
  lemma AssembleInSubmissionOrder(lib: Library, chroms: map<string, seq<Numbered<string>>>,
                                  o1: seq<string>, o2: seq<string>, txome: map<string, seq<Transcript>>)
    ensures Assemble(lib, chroms, o1 + o2, txome)
         == Assemble(lib, chroms, o1, txome) + Assemble(lib, chroms, o2, txome)
  {
    ConcatMapAppend(o1, o2, c => Submitted(lib, chroms, c, txome));
  }

  /** A bucket whose chromosome the reference does not know is never
      processed: whatever it holds, the output is the same. */
  lemma {:induction false} UnknownChromosomeIgnored(lib: Library, chroms: map<string, seq<Numbered<string>>>,
                                                    order: seq<string>, txome: map<string, seq<Transcript>>,
                                                    chrom: string, other: seq<Numbered<string>>)
    requires chrom !in txome
    ensures Assemble(lib, chroms[chrom := other], order, txome) == Assemble(lib, chroms, order, txome)
  {
    if order != [] {
      UnknownChromosomeIgnored(lib, chroms, order[..|order| - 1], txome, chrom, other);
      AssembleLast(lib, chroms[chrom := other], order, txome);
      AssembleLast(lib, chroms, order, txome);
    }
  }

  // --------------------------------------------------------------------- main

  /** The output of a single-threaded run, or the fault that ends it. */
  function Pipeline(lib: Library, rinf: seq<string>, inf: seq<string>): Result<seq<string>, Fault>
  {
    match Bucketing(inf)
    case Failure(f) => Failure(f)
    case Success(b) => Success(Assemble(lib, b.chroms, b.order, Index(lib, rinf)))
  }

  /** `main` with one thread, from the reference and read lines to the
      output lines. */
  method Run(lib: Library, rinf: seq<string>, inf: seq<string>) returns (r: Result<seq<string>, Fault>)
    ensures r == Pipeline(lib, rinf, inf)
  {
    var txome := BuildIndex(lib, rinf);
    var buckets := BucketReads(inf);
    if buckets.Failure? {
      return Failure(buckets.error);
    }
    BucketOrder(inf);
    var out := Dispatch(lib, buckets.value.chroms, buckets.value.order, txome);
    return Success(out);
  }
}
