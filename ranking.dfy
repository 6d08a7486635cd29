/** Ranking the scored candidates of one read: the five-part sort key, the
    stable sort `sorted` performs, and the candidate it puts first. */
module Ranking {
  import opened Records

  /** One entry of `candidates`:
      `[full, subset, ecnt, econsec, read exons, tx exons, osize, read_len, tx_len, tx]`. */
  datatype Candidate = Candidate(
    full: bool,
    subset: bool,
    ecnt: int,
    econsec: int,
    readExons: nat,
    txExons: nat,
    osize: int,
    readLen: Positive,
    txLen: Positive,
    tx: Transcript)

  function Min(x: real, y: real): real
  {
    if x <= y then x else y
  }

  /** The fifth key: `min(osize / read_len, osize / tx_len)`. */
  function Fraction(c: Candidate): real
  {
    Min(c.osize as real / c.readLen as real, c.osize as real / c.txLen as real)
  }

  /** `a` sorts strictly before `b` under the key
      `(-full, -subset, -econsec, -ecnt, -fraction)`: the key compares `full`,
      then `subset`, then `econsec`, then `ecnt`, then the fraction, larger first. */
  predicate Better(a: Candidate, b: Candidate)
  {
    if a.full != b.full then a.full
    else if a.subset != b.subset then a.subset
    else if a.econsec != b.econsec then a.econsec > b.econsec
    else if a.ecnt != b.ecnt then a.ecnt > b.ecnt
    else Fraction(a) > Fraction(b)
  }

  /** Neither is better: the two keys are equal. */
  predicate SameKey(a: Candidate, b: Candidate)
  {
    a.full == b.full && a.subset == b.subset && a.econsec == b.econsec
    && a.ecnt == b.ecnt && Fraction(a) == Fraction(b)
  }

  /** The key order is a strict weak order: irreflexive, asymmetric, and two
      candidates that neither beats have equal keys; if `a` beats `c`, every `b`
      is beaten by `a` or beats `c`. */
  lemma KeyOrder(a: Candidate, b: Candidate, c: Candidate)
    ensures !Better(a, a)
    ensures Better(a, b) ==> !Better(b, a)
    ensures !Better(a, b) && !Better(b, a) <==> SameKey(a, b)
    ensures Better(a, c) ==> Better(a, b) || Better(b, c)
  {
  }

  /** No element is beaten by a later one. */
  ghost predicate SortedByKey(cs: seq<Candidate>)
  {
    forall i, j :: 0 <= i < j < |cs| ==> !Better(cs[j], cs[i])
  }

  /** Putting in front an element that nothing after it beats keeps the order. */
  lemma SortedCons(h: Candidate, rest: seq<Candidate>)
    requires SortedByKey(rest)
    requires forall y :: y in rest ==> !Better(y, h)
    ensures SortedByKey([h] + rest)
  {
    var r := [h] + rest;
    forall i, j | 0 <= i < j < |r| ensures !Better(r[j], r[i]) {
      assert r[j] == rest[j - 1];
      if i > 0 {
        assert r[i] == rest[i - 1];
      }
    }
  }

  /** Nothing in a sorted sequence beats its first element. */
  lemma HeadUnbeaten(s: seq<Candidate>)
    requires SortedByKey(s) && s != []
    ensures forall y :: y in s ==> !Better(y, s[0])
  {
    forall y | y in s ensures !Better(y, s[0]) {
      KeyOrder(y, y, y);
    }
  }

  /** An element `x` that beats nothing in front of it, inserted behind `h`
      into the rest of a sorted sequence, leaves it sorted with `x` added. */
  lemma InsertBehind(x: Candidate, s: seq<Candidate>, rest: seq<Candidate>)
    requires SortedByKey(s) && s != [] && Better(s[0], x)
    requires SortedByKey(rest) && multiset(rest) == multiset(s[1..]) + multiset{x}
    ensures multiset([s[0]] + rest) == multiset(s) + multiset{x}
    ensures SortedByKey([s[0]] + rest)
  {
    assert s == [s[0]] + s[1..];
    forall y | y in rest ensures !Better(y, s[0]) {
      assert y in multiset(rest);
      KeyOrder(s[0], x, y);
    }
    SortedCons(s[0], rest);
  }

  /** An element the head of a sorted sequence does not beat may go in front. */
  lemma InsertInFront(x: Candidate, s: seq<Candidate>)
    requires SortedByKey(s) && s != [] && !Better(s[0], x)
    ensures SortedByKey([x] + s)
  {
    HeadUnbeaten(s);
    forall y | y in s ensures !Better(y, x) {
      KeyOrder(y, s[0], x);
    }
    SortedCons(x, s);
  }

  /** Inserting `x` in front of the first element it is not beaten by. */
  function Insert(x: Candidate, s: seq<Candidate>): (r: seq<Candidate>)
    requires SortedByKey(s)
    ensures multiset(r) == multiset(s) + multiset{x}
    ensures SortedByKey(r)
  {
    if s == [] then [x]
    else if Better(s[0], x) then
      var rest := Insert(x, s[1..]);
      InsertBehind(x, s, rest);
      [s[0]] + rest
    else
      InsertInFront(x, s);
      [x] + s
  }

  /** Python's `sorted` on the key: stable, so of two elements with equal keys
      the earlier one comes first. */
  function StableSort(cs: seq<Candidate>): (r: seq<Candidate>)
    ensures multiset(r) == multiset(cs)
    ensures SortedByKey(r)
  {
    if cs == [] then []
    else
      assert cs == [cs[0]] + cs[1..];
      Insert(cs[0], StableSort(cs[1..]))
  }

  /** `best` is a candidate no candidate beats, and it beats every candidate
      before it: the first element a stable sort on the key puts in front. */
  ghost predicate IsEarliestBest(cs: seq<Candidate>, best: Candidate)
  {
    exists k :: 0 <= k < |cs| && cs[k] == best
      && (forall j :: 0 <= j < |cs| ==> !Better(cs[j], best))
      && (forall j :: 0 <= j < k ==> Better(best, cs[j]))
  }

  /** The index of the first candidate that no candidate beats. */
  function BestIndex(cs: seq<Candidate>): (k: nat)
    requires |cs| > 0
    ensures k < |cs|
    ensures forall j :: 0 <= j < |cs| ==> !Better(cs[j], cs[k])
    ensures forall j :: 0 <= j < k ==> Better(cs[k], cs[j])
  {
    if |cs| == 1 then 0
    else
      var k := BestIndex(cs[1..]) + 1;
      assert forall j :: 1 <= j < |cs| ==> cs[j] == cs[1..][j - 1];
      if Better(cs[k], cs[0]) then
        KeyOrder(cs[k], cs[0], cs[0]);
        k
      else
        assert forall j :: 1 <= j < |cs| ==> !Better(cs[j], cs[0]) by {
          forall j | 1 <= j < |cs| ensures !Better(cs[j], cs[0]) {
            KeyOrder(cs[j], cs[k], cs[0]);
          }
        }
        0
  }

  /** The first element of the stable sort is the earliest candidate that no
      other candidate beats: ties go to the candidate met first. */
  lemma {:induction false} SortHeadIsEarliestBest(cs: seq<Candidate>)
    requires |cs| > 0
    ensures |StableSort(cs)| == |cs|
    ensures StableSort(cs)[0] == cs[BestIndex(cs)]
  {
    assert |multiset(StableSort(cs))| == |cs|;
    if |cs| > 1 {
      var rest := StableSort(cs[1..]);
      SortHeadIsEarliestBest(cs[1..]);
      assert rest[0] == cs[BestIndex(cs[1..]) + 1];
    }
  }

  /** Reordering the candidates can change which candidate is picked only
      among candidates with equal keys: the key of the pick is the same for
      every order of the same candidates. */
  lemma {:induction false} PickKeyOrderIndependent(cs: seq<Candidate>, ds: seq<Candidate>)
    requires |cs| > 0 && multiset(cs) == multiset(ds)
    ensures |StableSort(cs)| == |cs| && |StableSort(ds)| == |ds|
    ensures SameKey(StableSort(cs)[0], StableSort(ds)[0])
  {
    assert |ds| == |cs| by {
      assert |multiset(ds)| == |multiset(cs)|;
    }
    SortHeadIsEarliestBest(cs);
    SortHeadIsEarliestBest(ds);
    var b, d := cs[BestIndex(cs)], ds[BestIndex(ds)];
    assert d in multiset(cs) && b in multiset(ds);
    KeyOrder(b, d, b);
  }

  /** The sort is stable: of two candidates with equal keys the first stays
      first, so swapping them changes the pick. */
  lemma TiesGoToFirst(a: Candidate, b: Candidate)
    requires SameKey(a, b)
    ensures StableSort([a, b]) == [a, b]
    ensures StableSort([b, a]) == [b, a]
  {
    assert [a, b][1..] == [b] && [b, a][1..] == [a];
  }
}
