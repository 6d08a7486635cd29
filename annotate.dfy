/** Choosing the transcript a read is assigned to (`annotate_line`): the
    overlap pre-filter, the single- or multi-exon scoring of each candidate,
    and the pick of the best one. */
module Annotate {
  import opened Records
  import opened Ranking

  /** Single-exon mode: the transcript or the read has exactly one exon. */
  predicate SingleExonMode(read: Gpd, tx: Gpd)
  {
    ExonCount(tx) == 1 || ExonCount(read) == 1
  }

  /** The thresholds `exon_overlap` is called with in each mode. */
  function ModeThresholds(read: Gpd, tx: Gpd): Thresholds
  {
    if SingleExonMode(read, tx) then SingleParams else MultiParams
  }

  /** The candidate entry for one transcript, or `None` when the exon overlap
      is false and the transcript is skipped. */
  function Score(lib: Library, read: Gpd, t: Transcript): Option<Candidate>
  {
    var single := SingleExonMode(read, t.item);
    var eo := lib.exonOverlap(read, t.item, ModeThresholds(read, t.item));
    if !eo.matched then None
    else
      Some(Candidate(
        !single && eo.fullOverlap,
        !single && eo.subset,
        eo.matchCount,
        if single then 1 else eo.consecutive,
        ExonCount(read),
        ExonCount(t.item),
        lib.overlapSize(read, t.item),
        lib.length(read),
        lib.length(t.item),
        t))
  }

  /** The two scoring modes. A transcript or read with one exon is scored with
      `single_minover=100, single_frac=0.5` and its entry is neither full nor
      subset and has `econsec` 1; otherwise the multi-exon thresholds
      `multi_minover=10, multi_endfrac=0, multi_midfrac=0.8, multi_consec=False`
      apply and full, subset and `econsec` come from the overlap. In both modes
      the transcript is kept exactly when the overlap is true, and the entry
      carries the match count, overlap size, lengths and exon counts. */
  lemma ScoreModes(lib: Library, read: Gpd, t: Transcript)
    ensures var single := ExonCount(t.item) == 1 || ExonCount(read) == 1;
      var eo := lib.exonOverlap(read, t.item,
        if single then SingleExon(100, 0.5) else MultiExon(10, 0.0, 0.8, false));
      var r := Score(lib, read, t);
      && (r.Some? <==> eo.matched)
      && (r.Some? ==>
            && r.value.tx == t
            && r.value.ecnt == eo.matchCount
            && r.value.osize == lib.overlapSize(read, t.item)
            && r.value.readExons == ExonCount(read)
            && r.value.txExons == ExonCount(t.item)
            && r.value.readLen == lib.length(read)
            && r.value.txLen == lib.length(t.item))
      && (r.Some? && single ==> !r.value.full && !r.value.subset && r.value.econsec == 1)
      && (r.Some? && !single ==>
            && r.value.full == eo.fullOverlap
            && r.value.subset == eo.subset
            && r.value.econsec == eo.consecutive)
  {
  }

  /** `[x.get_payload() for x in txs if x.overlaps(v)]`: the transcripts whose
      range overlaps the read's, in list order. */
  function Overlapping(lib: Library, read: Gpd, txs: seq<Transcript>): (r: seq<Transcript>)
    ensures |r| <= |txs|
  {
    if txs == [] then []
    else
      var last := txs[|txs| - 1];
      Overlapping(lib, read, txs[..|txs| - 1])
        + if lib.overlaps(last.item.range, read.range) then [last] else []
  }

  /** The pre-filter keeps exactly the listed transcripts that overlap the read. */
  lemma {:induction false} OverlappingMembers(lib: Library, read: Gpd, txs: seq<Transcript>)
    ensures forall t :: t in Overlapping(lib, read, txs) <==> t in txs && lib.overlaps(t.item.range, read.range)
  {
    if txs != [] {
      var init := txs[..|txs| - 1];
      OverlappingMembers(lib, read, init);
      assert txs == init + [txs[|txs| - 1]];
    }
  }

  /** The candidate entries built from `possible`, in order. */
  function Candidates(lib: Library, read: Gpd, possible: seq<Transcript>): (cs: seq<Candidate>)
    ensures |cs| <= |possible|
  {
    if possible == [] then []
    else
      Candidates(lib, read, possible[..|possible| - 1])
        + match Score(lib, read, possible[|possible| - 1]) case Some(c) => [c] case None => []
  }

  /** Every candidate is the entry of a transcript of `possible` whose exon
      overlap is true, every such transcript contributes its entry, and there
      is none exactly when every exon overlap is false. */
  lemma {:induction false} CandidatesScored(lib: Library, read: Gpd, possible: seq<Transcript>)
    ensures var cs := Candidates(lib, read, possible);
      && (forall c :: c in cs ==> c.tx in possible && Score(lib, read, c.tx) == Some(c))
      && (forall t :: t in possible && Score(lib, read, t).Some? ==> Score(lib, read, t).value in cs)
      && (cs == [] <==> forall t :: t in possible ==> Score(lib, read, t).None?)
  {
    if possible != [] {
      var init := possible[..|possible| - 1];
      CandidatesScored(lib, read, init);
      assert possible == init + [possible[|possible| - 1]];
    }
  }

  /** The pre-filter keeps list order: the transcripts kept before the k-th
      one are exactly those kept from the part of the list before it. */
  lemma {:induction false} OverlappingInOrder(lib: Library, read: Gpd, txs: seq<Transcript>, k: nat)
    requires k < |Overlapping(lib, read, txs)|
    ensures exists j ::
              && 0 <= j < |txs| && txs[j] == Overlapping(lib, read, txs)[k]
              && Overlapping(lib, read, txs[..j]) == Overlapping(lib, read, txs)[..k]
  {
    var init := txs[..|txs| - 1];
    var before := Overlapping(lib, read, init);
    if k < |before| {
      OverlappingInOrder(lib, read, init, k);
      var j :| 0 <= j < |init| && init[j] == before[k] && Overlapping(lib, read, init[..j]) == before[..k];
      assert init[..j] == txs[..j];
    } else {
      assert txs[..|txs| - 1] == init;
    }
  }

  /** Candidates keep the order of `possible`: the entries before the k-th
      one are exactly those built from the transcripts before its own. */
  lemma {:induction false} CandidatesInOrder(lib: Library, read: Gpd, possible: seq<Transcript>, k: nat)
    requires k < |Candidates(lib, read, possible)|
    ensures exists j ::
              && 0 <= j < |possible| && possible[j] == Candidates(lib, read, possible)[k].tx
              && Candidates(lib, read, possible[..j]) == Candidates(lib, read, possible)[..k]
  {
    var init := possible[..|possible| - 1];
    var before := Candidates(lib, read, init);
    if k < |before| {
      CandidatesInOrder(lib, read, init, k);
      var j :| 0 <= j < |init| && init[j] == before[k].tx && Candidates(lib, read, init[..j]) == before[..k];
      assert init[..j] == possible[..j];
    } else {
      assert possible[..|possible| - 1] == init;
    }
  }

  lemma CandidatesStep(lib: Library, read: Gpd, possible: seq<Transcript>, i: nat)
    requires i < |possible|
    ensures Candidates(lib, read, possible[..i + 1])
         == Candidates(lib, read, possible[..i])
            + match Score(lib, read, possible[i]) case Some(c) => [c] case None => []
  {
    assert possible[..i + 1][..i] == possible[..i];
  }

  /** What `annotate_line` returns for a read against the index `txome`. */
  function Annotation(lib: Library, read: Gpd, txome: map<string, seq<Transcript>>): Option<Candidate>
  {
    if read.range.chr !in txome then None
    else
      var possible := Overlapping(lib, read, txome[read.range.chr]);
      if |possible| == 0 then None
      else
        var candidates := Candidates(lib, read, possible);
        if |candidates| == 0 then None
        else Some(StableSort(candidates)[0])
  }

  /** `annotate_line` gives no result exactly when the read's chromosome is not
      indexed, no indexed transcript overlaps the read, or every overlapping
      transcript fails the exon overlap. */
  lemma {:induction false} AnnotationNone(lib: Library, read: Gpd, txome: map<string, seq<Transcript>>)
    ensures var chr := read.range.chr;
      Annotation(lib, read, txome).None? <==>
        || chr !in txome
        || (forall t :: t in txome[chr] ==> !lib.overlaps(t.item.range, read.range))
        || (forall t :: t in txome[chr] && lib.overlaps(t.item.range, read.range) ==>
              !lib.exonOverlap(read, t.item, ModeThresholds(read, t.item)).matched)
  {
    var chr := read.range.chr;
    if chr in txome {
      var possible := Overlapping(lib, read, txome[chr]);
      OverlappingMembers(lib, read, txome[chr]);
      CandidatesScored(lib, read, possible);
      if possible != [] {
        assert possible[0] in possible;
      }
    }
  }

  /** When `annotate_line` gives a result, it is the entry of a transcript
      listed for the read's chromosome whose range overlaps the read, and it is
      the first of the candidates that no candidate beats on the key. */
  lemma {:induction false} AnnotationBest(lib: Library, read: Gpd, txome: map<string, seq<Transcript>>)
    requires Annotation(lib, read, txome).Some?
    ensures var chr := read.range.chr;
      var best := Annotation(lib, read, txome).value;
      var cs := Candidates(lib, read, Overlapping(lib, read, txome[chr]));
      && chr in txome
      && best.tx in txome[chr]
      && lib.overlaps(best.tx.item.range, read.range)
      && Score(lib, read, best.tx) == Some(best)
      && IsEarliestBest(cs, best)
  {
    var chr := read.range.chr;
    var cs := Candidates(lib, read, Overlapping(lib, read, txome[chr]));
    OverlappingMembers(lib, read, txome[chr]);
    CandidatesScored(lib, read, Overlapping(lib, read, txome[chr]));
    SortHeadIsEarliestBest(cs);
    var k := BestIndex(cs);
    var best := Annotation(lib, read, txome).value;
    assert cs[k] == best;
    assert cs[k] in cs;
    assert IsEarliestBest(cs, best) by {
      assert 0 <= k < |cs| && cs[k] == best;
    }
  }

  /** A listed transcript that overlaps the read and passes the exon overlap
      contributes its entry to the candidates. */
  lemma ScoredIsCandidate(lib: Library, read: Gpd, txs: seq<Transcript>, t: Transcript)
    requires t in txs && lib.overlaps(t.item.range, read.range) && Score(lib, read, t).Some?
    ensures Score(lib, read, t).value in Candidates(lib, read, Overlapping(lib, read, txs))
  {
    OverlappingMembers(lib, read, txs);
    CandidatesScored(lib, read, Overlapping(lib, read, txs));
  }

  /** No transcript listed for the read's chromosome that overlaps the read
      and passes the exon overlap has an entry that beats the result. */
  lemma {:induction false} AnnotationUnbeaten(lib: Library, read: Gpd, txome: map<string, seq<Transcript>>)
    requires Annotation(lib, read, txome).Some?
    ensures var chr := read.range.chr;
      var best := Annotation(lib, read, txome).value;
      && chr in txome
      && forall t :: t in txome[chr] && lib.overlaps(t.item.range, read.range) && Score(lib, read, t).Some?
           ==> !Better(Score(lib, read, t).value, best)
  {
    var txs := txome[read.range.chr];
    var cs := Candidates(lib, read, Overlapping(lib, read, txs));
    SortHeadIsEarliestBest(cs);
    var k := BestIndex(cs);
    assert forall c :: c in cs ==> !Better(c, cs[k]) by {
      forall c | c in cs ensures !Better(c, cs[k]) {
        var j :| 0 <= j < |cs| && cs[j] == c;
      }
    }
    forall t | t in txs && lib.overlaps(t.item.range, read.range) && Score(lib, read, t).Some?
      ensures !Better(Score(lib, read, t).value, cs[k])
    {
      ScoredIsCandidate(lib, read, txs, t);
    }
  }

  /** The k-th candidate built from the overlapping transcripts of `txs` has
      a position j in `txs`; every transcript before it that overlaps the read
      and passes the exon overlap has its entry among the first k candidates. */
  lemma {:induction false} CandidatePosition(lib: Library, read: Gpd, txs: seq<Transcript>, k: nat)
    returns (j: nat)
    requires k < |Candidates(lib, read, Overlapping(lib, read, txs))|
    ensures var cs := Candidates(lib, read, Overlapping(lib, read, txs));
      && j < |txs| && txs[j] == cs[k].tx
      && forall i :: 0 <= i < j && lib.overlaps(txs[i].item.range, read.range) && Score(lib, read, txs[i]).Some?
           ==> Score(lib, read, txs[i]).value in cs[..k]
  {
    var ov := Overlapping(lib, read, txs);
    var cs := Candidates(lib, read, ov);
    CandidatesInOrder(lib, read, ov, k);
    var j1 :| 0 <= j1 < |ov| && ov[j1] == cs[k].tx && Candidates(lib, read, ov[..j1]) == cs[..k];
    OverlappingInOrder(lib, read, txs, j1);
    j :| 0 <= j < |txs| && txs[j] == ov[j1] && Overlapping(lib, read, txs[..j]) == ov[..j1];
    forall i | 0 <= i < j && lib.overlaps(txs[i].item.range, read.range) && Score(lib, read, txs[i]).Some?
      ensures Score(lib, read, txs[i]).value in cs[..k]
    {
      assert txs[i] == txs[..j][i];
      ScoredIsCandidate(lib, read, txs[..j], txs[i]);
    }
  }

  /** Ties go to the earliest transcript of the reference list: the result's
      transcript has a position in the list before which every transcript
      that overlaps the read and passes the exon overlap is beaten by it. */
  lemma {:induction false} AnnotationEarliest(lib: Library, read: Gpd, txome: map<string, seq<Transcript>>)
    requires Annotation(lib, read, txome).Some?
    ensures var chr := read.range.chr;
      var best := Annotation(lib, read, txome).value;
      && chr in txome
      && exists j ::
           && 0 <= j < |txome[chr]| && txome[chr][j] == best.tx
           && forall i :: 0 <= i < j && lib.overlaps(txome[chr][i].item.range, read.range)
                && Score(lib, read, txome[chr][i]).Some?
                ==> Better(best, Score(lib, read, txome[chr][i]).value)
  {
    var txs := txome[read.range.chr];
    var cs := Candidates(lib, read, Overlapping(lib, read, txs));
    SortHeadIsEarliestBest(cs);
    var k := BestIndex(cs);
    var j := CandidatePosition(lib, read, txs, k);
    forall i | 0 <= i < j && lib.overlaps(txs[i].item.range, read.range) && Score(lib, read, txs[i]).Some?
      ensures Better(cs[k], Score(lib, read, txs[i]).value)
    {
      var m :| 0 <= m < k && cs[m] == Score(lib, read, txs[i]).value;
    }
  }

  /** One turn of the loop of `annotate_line`: the per-transcript `full`,
      `subset` and `econsec` variables, the `exon_overlap` call with the
      thresholds of the mode, and the candidate entry when it is true. */
  method ScoreTranscript(lib: Library, gpd: Gpd, tx: Transcript) returns (r: Option<Candidate>)
    ensures r == Score(lib, gpd, tx)
  {
    var eo: ExonOverlap;
    var full := false;
    var subset := false;
    var econsec := 1;
    if ExonCount(tx.item) == 1 || ExonCount(gpd) == 1 {
      eo := lib.exonOverlap(gpd, tx.item, SingleParams);
    } else {
      eo := lib.exonOverlap(gpd, tx.item, MultiParams);
      if eo.fullOverlap {
        full := true;
      }
      if eo.subset {
        subset := true;
      }
      if eo.matched {
        econsec := eo.consecutive;
      }
    }
    if !eo.matched {
      return None;
    }
    var ecnt := eo.matchCount;
    var osize := lib.overlapSize(gpd, tx.item);
    return Some(Candidate(full, subset, ecnt, econsec, ExonCount(gpd),
      ExonCount(tx.item), osize, lib.length(gpd), lib.length(tx.item), tx));
  }

  /** `annotate_line`: the loop over the overlapping transcripts, then the
      first element of the sorted candidates. */
  method AnnotateLine(lib: Library, gpd: Gpd, txome: map<string, seq<Transcript>>)
    returns (r: Option<Candidate>)
    ensures r == Annotation(lib, gpd, txome)
  {
    var v := gpd.range;
    if v.chr !in txome {
      return None;
    }
    var possible := Overlapping(lib, gpd, txome[v.chr]);
    var candidates: seq<Candidate> := [];
    if |possible| == 0 {
      return None;
    }
    var i := 0;
    while i < |possible|
      invariant 0 <= i <= |possible|
      invariant candidates == Candidates(lib, gpd, possible[..i])
    {
      var c := ScoreTranscript(lib, gpd, possible[i]);
      CandidatesStep(lib, gpd, possible, i);
      if c.Some? {
        candidates := candidates + [c.value];
      }
      i := i + 1;
    }
    assert possible[..i] == possible;
    if |candidates| == 0 {
      return None;
    }
    var bests := StableSort(candidates);
    return Some(bests[0]);
  }
}
