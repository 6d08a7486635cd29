/** Numbering input lines from 1 and grouping them into per-chromosome lists
    that keep input order: the shape shared by the reference index (`txome`)
    and the read buckets (`chroms`). */
module Grouping {
  import opened Records

  /** Each element tagged with its 1-based position. */
  function Numbering<T>(xs: seq<T>): (ns: seq<Numbered<T>>)
    ensures |ns| == |xs|
    ensures forall i :: 0 <= i < |xs| ==> ns[i] == Numbered(xs[i], i + 1)
  {
    seq(|xs|, i requires 0 <= i < |xs| => Numbered(xs[i], i + 1))
  }

  lemma NumberingPrefix<T>(xs: seq<T>, i: nat)
    requires i < |xs|
    ensures Numbering(xs)[..i + 1] == Numbering(xs)[..i] + [Numbered(xs[i], i + 1)]
  {
  }

  /** The entries whose key is `c`, in their original order: one
      per-chromosome list. */
  function Column<T(==,!new)>(ns: seq<Numbered<T>>, key: T -> string, c: string): (col: seq<Numbered<T>>)
    ensures |col| <= |ns|
    ensures forall n :: n in col <==> n in ns && key(n.item) == c
  {
    if ns == [] then []
    else
      var last := ns[|ns| - 1];
      Column(ns[..|ns| - 1], key, c) + if key(last.item) == c then [last] else []
  }

  /** The keys that occur in `ns`. */
  function Keys<T(==,!new)>(ns: seq<Numbered<T>>, key: T -> string): set<string>
  {
    set n | n in ns :: key(n.item)
  }

  /** The dictionary built by appending each entry to the list of its key. */
  function GroupBy<T(==,!new)>(ns: seq<Numbered<T>>, key: T -> string): (m: map<string, seq<Numbered<T>>>)
    ensures m.Keys == Keys(ns, key)
  {
    map c | c in Keys(ns, key) :: Column(ns, key, c)
  }

  lemma {:induction false} ColumnOfAbsentKey<T(!new)>(ns: seq<Numbered<T>>, key: T -> string, c: string)
    requires c !in Keys(ns, key)
    ensures Column(ns, key, c) == []
  {
    if ns != [] {
      var init := ns[..|ns| - 1];
      assert ns[|ns| - 1] in ns;
      assert Keys(init, key) <= Keys(ns, key) by {
        forall x | x in init ensures x in ns { }
      }
      ColumnOfAbsentKey(init, key, c);
    }
  }

  lemma ColumnAppend<T(!new)>(ns: seq<Numbered<T>>, n: Numbered<T>, key: T -> string, d: string)
    ensures Column(ns + [n], key, d) == Column(ns, key, d) + if key(n.item) == d then [n] else []
  {
    assert (ns + [n])[..|ns|] == ns;
  }

  /** Appending one entry extends its own key's list (creating it if needed)
      and leaves every other list alone. */
  lemma {:induction false} GroupByAppend<T(!new)>(ns: seq<Numbered<T>>, n: Numbered<T>, key: T -> string)
    ensures var m := GroupBy(ns, key);
      var c := key(n.item);
      GroupBy(ns + [n], key) == m[c := (if c in m then m[c] else []) + [n]]
  {
    var m := GroupBy(ns, key);
    var c := key(n.item);
    var m' := GroupBy(ns + [n], key);
    var expected := m[c := (if c in m then m[c] else []) + [n]];
    assert Keys(ns + [n], key) == Keys(ns, key) + {c} by {
      forall x | x in ns + [n] ensures x in ns || x == n { }
    }
    assert m'.Keys == expected.Keys;
    forall d | d in m'
      ensures m'[d] == expected[d]
    {
      ColumnAppend(ns, n, key, d);
      if d == c && c !in m {
        ColumnOfAbsentKey(ns, key, c);
      }
    }
  }

  /** Entries whose line numbers strictly increase. */
  ghost predicate Increasing<T>(ns: seq<Numbered<T>>)
  {
    forall i, j :: 0 <= i < j < |ns| ==> ns[i].z < ns[j].z
  }

  lemma {:induction false} ColumnIncreasing<T(!new)>(ns: seq<Numbered<T>>, key: T -> string, c: string)
    requires Increasing(ns)
    ensures Increasing(Column(ns, key, c))
  {
    if ns != [] {
      var init := ns[..|ns| - 1];
      var last := ns[|ns| - 1];
      ColumnIncreasing(init, key, c);
      var col := Column(init, key, c);
      forall n | n in col ensures n.z < last.z {
        var i :| 0 <= i < |init| && init[i] == n;
      }
    }
  }

  /** A key has a list exactly when some line has that key. */
  lemma {:induction false} GroupKeys<T(!new)>(xs: seq<T>, key: T -> string)
    ensures var m := GroupBy(Numbering(xs), key);
      forall c :: c in m <==> exists i :: 0 <= i < |xs| && key(xs[i]) == c
  {
    var ns := Numbering(xs);
    var m := GroupBy(ns, key);
    forall c ensures c in m <==> exists i :: 0 <= i < |xs| && key(xs[i]) == c {
      if c in m {
        var n :| n in ns && key(n.item) == c;
        var i :| 0 <= i < |ns| && ns[i] == n;
      }
      if exists i :: 0 <= i < |xs| && key(xs[i]) == c {
        var i :| 0 <= i < |xs| && key(xs[i]) == c;
        assert ns[i] in ns;
      }
    }
  }

  /** Line i (numbered i + 1) is in the list of its own key and in no other. */
  lemma {:induction false} GroupMembership<T(!new)>(xs: seq<T>, key: T -> string)
    ensures var m := GroupBy(Numbering(xs), key);
      forall i, c :: 0 <= i < |xs| && c in m ==>
        (Numbered(xs[i], i + 1) in m[c] <==> key(xs[i]) == c)
  {
    var ns := Numbering(xs);
    forall i, c | 0 <= i < |xs| && c in GroupBy(ns, key)
      ensures Numbered(xs[i], i + 1) in GroupBy(ns, key)[c] <==> key(xs[i]) == c
    {
      assert ns[i] in ns;
    }
  }

  /** Every entry of a list is tagged with its 1-based line number. */
  lemma {:induction false} GroupEntries<T(!new)>(xs: seq<T>, key: T -> string)
    ensures var m := GroupBy(Numbering(xs), key);
      forall c, n: Numbered<T> :: c in m && n in m[c] ==>
        1 <= n.z <= |xs| && xs[n.z - 1] == n.item && key(n.item) == c
  {
    var ns := Numbering(xs);
    forall c, n: Numbered<T> | c in GroupBy(ns, key) && n in GroupBy(ns, key)[c]
      ensures 1 <= n.z <= |xs| && xs[n.z - 1] == n.item && key(n.item) == c
    {
      var i :| 0 <= i < |ns| && ns[i] == n;
    }
  }

  /** Every list keeps input order: its line numbers strictly increase. */
  lemma {:induction false} GroupOrder<T(!new)>(xs: seq<T>, key: T -> string)
    ensures var m := GroupBy(Numbering(xs), key);
      forall c :: c in m ==> Increasing(m[c])
  {
    var ns := Numbering(xs);
    forall c | c in GroupBy(ns, key) ensures Increasing(GroupBy(ns, key)[c]) {
      ColumnIncreasing(ns, key, c);
    }
  }

  /** The keys of `ks` in order of first appearance: the iteration order of a
      dictionary that gains its keys in that order. */
  function FirstSeen(ks: seq<string>): (order: seq<string>)
    ensures forall k :: k in order <==> k in ks
    ensures forall i, j :: 0 <= i < j < |order| ==> order[i] != order[j]
  {
    if ks == [] then []
    else
      var before := FirstSeen(ks[..|ks| - 1]);
      var k := ks[|ks| - 1];
      assert ks == ks[..|ks| - 1] + [k];
      if k in before then before else before + [k]
  }

  /** The lists `f` gives for the elements of `xs`, joined in order. */
  function ConcatMap<T, U>(xs: seq<T>, f: T -> seq<U>): seq<U>
  {
    if xs == [] then [] else ConcatMap(xs[..|xs| - 1], f) + f(xs[|xs| - 1])
  }

  lemma ConcatMapPrefix<T, U>(xs: seq<T>, i: nat, f: T -> seq<U>)
    requires i < |xs|
    ensures ConcatMap(xs[..i + 1], f) == ConcatMap(xs[..i], f) + f(xs[i])
  {
    assert xs[..i + 1][..i] == xs[..i];
  }

  /** Mapping a concatenation concatenates the results: each element
      contributes independently of the others, in order. */
  lemma {:induction false} ConcatMapAppend<T, U>(xs: seq<T>, ys: seq<T>, f: T -> seq<U>)
    ensures ConcatMap(xs + ys, f) == ConcatMap(xs, f) + ConcatMap(ys, f)
  {
    if ys == [] {
      assert xs + ys == xs;
    } else {
      var ys' := ys[..|ys| - 1];
      assert (xs + ys)[..|xs + ys| - 1] == xs + ys';
      ConcatMapAppend(xs, ys', f);
    }
  }

  /** Element i contributes exactly `f(xs[i])`, between the results of the
      elements before it and after it. */
  lemma ConcatMapSplit<T, U>(xs: seq<T>, i: nat, f: T -> seq<U>)
    requires i < |xs|
    ensures ConcatMap(xs, f) == ConcatMap(xs[..i], f) + f(xs[i]) + ConcatMap(xs[i + 1..], f)
  {
    assert xs == xs[..i + 1] + xs[i + 1..];
    ConcatMapAppend(xs[..i + 1], xs[i + 1..], f);
    ConcatMapPrefix(xs, i, f);
  }
}
