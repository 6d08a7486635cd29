/** One chromosome's batch of output lines (`do_buffer`): each buffered read
    that gets an annotation becomes one 15-field tab-separated line. */
module Report {
  import opened Records
  import opened Text
  import opened Ranking
  import opened Grouping
  import opened Annotate

  /** Column 5: the match type. */
  function MatchType(full: bool): string
  {
    if full then "full" else "partial"
  }

  /** The 15 columns written for read number `z` (parsed as `read`) matched to
      the candidate `v`. */
  function Fields(lib: Library, z: nat, read: Gpd, v: Candidate): seq<string>
  {
    [ IntToString(z),
      read.geneName,
      v.tx.item.geneName,
      v.tx.item.transcriptName,
      MatchType(v.full),
      IntToString(v.ecnt),
      IntToString(v.econsec),
      IntToString(v.readExons),
      IntToString(v.txExons),
      IntToString(v.osize),
      IntToString(v.readLen),
      IntToString(v.txLen),
      lib.rangeString(read.range),
      lib.rangeString(v.tx.item.range),
      IntToString(v.tx.z) ]
  }

  /** The output line: the columns joined by tabs, then a newline. */
  function FormatLine(lib: Library, z: nat, read: Gpd, v: Candidate): string
  {
    JoinTabs(Fields(lib, z, read, v)) + "\n"
  }

  /** The names and range strings carry no tab. */
  predicate TabFreeText(lib: Library, read: Gpd, v: Candidate)
  {
    && '\t' !in read.geneName
    && '\t' !in v.tx.item.geneName
    && '\t' !in v.tx.item.transcriptName
    && '\t' !in lib.rangeString(read.range)
    && '\t' !in lib.rangeString(v.tx.item.range)
  }

  lemma FieldsTabFree(lib: Library, z: nat, read: Gpd, v: Candidate)
    requires TabFreeText(lib, read, v)
    ensures forall f :: f in Fields(lib, z, read, v) ==> '\t' !in f
  {
    var fs := Fields(lib, z, read, v);
    forall k | 0 <= k < |fs| ensures '\t' !in fs[k] {
    }
  }

  /** An output line ends in a newline; when the names and range strings
      carry no tab, the text before it splits into exactly 15 columns, the
      first is the read's line number, the fifth is "full" if the candidate
      is full and "partial" otherwise, and the last is the transcript's
      reference line number. */
  lemma {:induction false} FormatLineColumns(lib: Library, z: nat, read: Gpd, v: Candidate)
    requires TabFreeText(lib, read, v)
    ensures var line := FormatLine(lib, z, read, v);
      && |line| >= 1 && line[|line| - 1] == '\n'
      && var cols := SplitTabs(line[..|line| - 1]);
      && |cols| == 15
      && cols[0] == IntToString(z)
      && (v.full ==> cols[4] == "full")
      && (!v.full ==> cols[4] == "partial")
      && cols[14] == IntToString(v.tx.z)
  {
    var fs := Fields(lib, z, read, v);
    var line := FormatLine(lib, z, read, v);
    assert SplitTabs(line[..|line| - 1]) == fs by {
      assert line[..|line| - 1] == JoinTabs(fs);
      FieldsTabFree(lib, z, read, v);
      SplitJoin(fs);
    }
  }

  /** The line one buffered `[line, z]` entry contributes: its formatted
      annotation, or nothing when it has none. */
  function EntryLines(lib: Library, b: Numbered<string>, txome: map<string, seq<Transcript>>): seq<string>
  {
    var gpd := lib.parse(b.item);
    match Annotation(lib, gpd, txome)
    case None => []
    case Some(v) => [FormatLine(lib, b.z, gpd, v)]
  }

  /** The lines `do_buffer` returns for `buffer`, in buffer order. */
  function FormatBatch(lib: Library, buffer: seq<Numbered<string>>, txome: map<string, seq<Transcript>>): seq<string>
  {
    ConcatMap(buffer, b => EntryLines(lib, b, txome))
  }

  /** The batch of a buffer is the batch of its first part followed by the
      batch of the rest: lines come out in buffer order and each read
      contributes independently of the others. */
  lemma FormatBatchConcat(lib: Library, b1: seq<Numbered<string>>, b2: seq<Numbered<string>>,
                          txome: map<string, seq<Transcript>>)
    ensures FormatBatch(lib, b1 + b2, txome) == FormatBatch(lib, b1, txome) + FormatBatch(lib, b2, txome)
  {
    ConcatMapAppend(b1, b2, b => EntryLines(lib, b, txome));
  }

  /** Each buffered read contributes exactly its own lines, between the
      batches of the reads before it and after it. */
  lemma FormatBatchSplit(lib: Library, buffer: seq<Numbered<string>>, txome: map<string, seq<Transcript>>, i: nat)
    requires i < |buffer|
    ensures FormatBatch(lib, buffer, txome)
         == FormatBatch(lib, buffer[..i], txome) + EntryLines(lib, buffer[i], txome)
            + FormatBatch(lib, buffer[i + 1..], txome)
  {
    ConcatMapSplit(buffer, i, b => EntryLines(lib, b, txome));
  }

  /** `line` is the formatted annotation of the buffered read `b`. */
  predicate IsLineOf(lib: Library, b: Numbered<string>, txome: map<string, seq<Transcript>>, line: string)
  {
    var gpd := lib.parse(b.item);
    Annotation(lib, gpd, txome).Some?
    && line == FormatLine(lib, b.z, gpd, Annotation(lib, gpd, txome).value)
  }

  /** At most one line per buffered read, and every line is the formatted
      annotation of some buffered read that has one. */
  lemma {:induction false} FormatBatchLines(lib: Library, buffer: seq<Numbered<string>>, txome: map<string, seq<Transcript>>)
    ensures |FormatBatch(lib, buffer, txome)| <= |buffer|
    ensures forall line :: line in FormatBatch(lib, buffer, txome) ==>
      exists i :: 0 <= i < |buffer| && IsLineOf(lib, buffer[i], txome, line)
  {
    if buffer != [] {
      var init := buffer[..|buffer| - 1];
      FormatBatchLines(lib, init, txome);
      forall line | line in FormatBatch(lib, buffer, txome)
        ensures exists i :: 0 <= i < |buffer| && IsLineOf(lib, buffer[i], txome, line)
      {
        if line in FormatBatch(lib, init, txome) {
          var i :| 0 <= i < |init| && IsLineOf(lib, init[i], txome, line);
          assert buffer[i] == init[i];
        } else {
          assert IsLineOf(lib, buffer[|buffer| - 1], txome, line);
        }
      }
    }
  }

  /** Every buffered read whose annotation is not None emits its line. */
  lemma FormatBatchEmits(lib: Library, buffer: seq<Numbered<string>>, txome: map<string, seq<Transcript>>,
                         i: nat, line: string)
    requires i < |buffer| && IsLineOf(lib, buffer[i], txome, line)
    ensures line in FormatBatch(lib, buffer, txome)
  {
    FormatBatchSplit(lib, buffer, txome, i);
    assert EntryLines(lib, buffer[i], txome) == [line];
  }

  /** `do_buffer`: the loop over the buffered `[line, z]` entries that parses
      each line, annotates it and appends the formatted line when there is an
      annotation. */
  method DoBuffer(lib: Library, buffer: seq<Numbered<string>>, txome: map<string, seq<Transcript>>)
    returns (results: seq<string>)
    ensures results == FormatBatch(lib, buffer, txome)
  {
    results := [];
    var i := 0;
    while i < |buffer|
      invariant 0 <= i <= |buffer|
      invariant results == FormatBatch(lib, buffer[..i], txome)
    {
      var z := buffer[i].z;
      var line := buffer[i].item;
      var gpd := lib.parse(line);
      var v := AnnotateLine(lib, gpd, txome);
      ConcatMapPrefix(buffer, i, b => EntryLines(lib, b, txome));
      i := i + 1;
      if v.None? {
        continue;
      }
      results := results + [FormatLine(lib, z, gpd, v.value)];
    }
    assert buffer[..i] == buffer;
  }
}
