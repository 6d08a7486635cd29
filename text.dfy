/** Tab-separated text: splitting and joining fields, the chromosome pattern
    applied to each read line, and decimal rendering of integers (`str`). */
module Text {
  import opened Records

  /** `s.split('\t')`: the fields between tabs; there is always at least one. */
  function SplitTabs(s: string): (fs: seq<string>)
    ensures |fs| >= 1
    ensures forall f :: f in fs ==> '\t' !in f
  {
    if s == [] then [""]
    else if s[0] == '\t' then [""] + SplitTabs(s[1..])
    else
      var rest := SplitTabs(s[1..]);
      [[s[0]] + rest[0]] + rest[1..]
  }

  /** `'\t'.join(fs)` */
  function JoinTabs(fs: seq<string>): string
  {
    if |fs| == 0 then ""
    else if |fs| == 1 then fs[0]
    else fs[0] + "\t" + JoinTabs(fs[1..])
  }

  lemma {:induction false} SplitNoTab(a: string)
    requires '\t' !in a
    ensures SplitTabs(a) == [a]
  {
    if a != [] {
      SplitNoTab(a[1..]);
      assert [a[0]] + a[1..] == a;
    }
  }

  lemma {:induction false} SplitAfterField(a: string, rest: string)
    requires '\t' !in a
    ensures SplitTabs(a + "\t" + rest) == [a] + SplitTabs(rest)
  {
    if a == [] {
      assert a + "\t" + rest == ['\t'] + rest;
      assert (['\t'] + rest)[1..] == rest;
    } else {
      var s := a + "\t" + rest;
      assert s[0] == a[0] && s[1..] == a[1..] + "\t" + rest;
      SplitAfterField(a[1..], rest);
      assert [a[0]] + a[1..] == a;
    }
  }

  /** Splitting a joined record gives back its fields, provided none holds a tab. */
  lemma {:induction false} SplitJoin(fs: seq<string>)
    requires |fs| >= 1
    requires forall f :: f in fs ==> '\t' !in f
    ensures SplitTabs(JoinTabs(fs)) == fs
  {
    if |fs| == 1 {
      SplitNoTab(fs[0]);
    } else {
      assert fs[0] in fs;
      assert forall f :: f in fs[1..] ==> f in fs;
      SplitJoin(fs[1..]);
      SplitAfterField(fs[0], JoinTabs(fs[1..]));
      assert [fs[0]] + fs[1..] == fs;
    }
  }

  /** Joining the fields of a line gives back the line. */
  lemma {:induction false} JoinSplit(s: string)
    ensures JoinTabs(SplitTabs(s)) == s
  {
    if s == [] {
    } else if s[0] == '\t' {
      JoinSplit(s[1..]);
      assert [""] + SplitTabs(s[1..]) == SplitTabs(s);
      assert "" + "\t" + s[1..] == s;
    } else {
      JoinSplit(s[1..]);
      var rest := SplitTabs(s[1..]);
      if |rest| == 1 {
        assert [s[0]] + rest[0] == s;
      } else {
        assert JoinTabs(rest) == rest[0] + "\t" + JoinTabs(rest[1..]);
        var fs := [[s[0]] + rest[0]] + rest[1..];
        assert fs[1..] == rest[1..];
        assert JoinTabs(fs) == [s[0]] + (rest[0] + "\t" + JoinTabs(rest[1..]));
      }
    }
  }

  /** The index of the first tab at or after `from`, or `|s|` if there is none. */
  function TabIndex(s: string, from: nat): (k: nat)
    requires from <= |s|
    ensures from <= k <= |s|
    ensures k < |s| ==> s[k] == '\t'
    ensures forall j :: from <= j < k ==> s[j] != '\t'
    decreases |s| - from
  {
    if from == |s| || s[from] == '\t' then from else TabIndex(s, from + 1)
  }

  /** `re.match('[^\t]*\t[^\t]*\t([^\t]+)', line).group(1)`: the longest run of
      non-tab characters right after the second tab, which must not be empty;
      `None` when the pattern does not match. */
  function ThirdField(line: string): Option<string>
  {
    var a := TabIndex(line, 0);
    if a == |line| then None
    else
      var b := TabIndex(line, a + 1);
      if b == |line| then None
      else
        var c := TabIndex(line, b + 1);
        if c == b + 1 then None else Some(line[b + 1..c])
  }

  /** The fields of `s` are its text up to the first tab, then the fields of the rest. */
  lemma {:induction false} SplitAtTab(s: string, from: nat)
    requires from <= |s|
    requires forall j :: 0 <= j < from ==> s[j] != '\t'
    ensures var k := TabIndex(s, from);
      if k == |s| then SplitTabs(s) == [s]
      else SplitTabs(s) == [s[..k]] + SplitTabs(s[k + 1..])
  {
    var k := TabIndex(s, from);
    if k == |s| {
      SplitNoTab(s);
    } else {
      assert '\t' !in s[..k];
      assert s == s[..k] + "\t" + s[k + 1..];
      SplitAfterField(s[..k], s[k + 1..]);
    }
  }

  lemma TabIndexShift(s: string, d: nat, from: nat)
    requires d <= from <= |s|
    ensures TabIndex(s, from) - d == TabIndex(s[d..], from - d)
    decreases |s| - from
  {
    if from < |s| && s[from] != '\t' {
      TabIndexShift(s, d, from + 1);
    }
  }

  /** The fields of `s[p..]`: its text up to the next tab, then the fields after it. */
  lemma {:induction false} SplitFrom(s: string, p: nat)
    requires p <= |s|
    ensures var k := TabIndex(s, p);
      if k == |s| then SplitTabs(s[p..]) == [s[p..]]
      else SplitTabs(s[p..]) == [s[p..k]] + SplitTabs(s[k + 1..])
  {
    var k := TabIndex(s, p);
    TabIndexShift(s, p, p);
    SplitAtTab(s[p..], 0);
    if k < |s| {
      assert s[p..][..k - p] == s[p..k];
      assert s[p..][k - p + 1..] == s[k + 1..];
    }
  }

  /** A line with tabs at `a` and `b` and no tab between them or before `a`
      has as third field the text from `b` up to `c`, the next tab or the end. */
  lemma {:induction false} ThirdBetween(line: string, a: nat, b: nat, c: nat)
    requires a < b < |line| && b < c <= |line|
    requires line[a] == '\t' && line[b] == '\t' && (c < |line| ==> line[c] == '\t')
    requires '\t' !in line[..a] && '\t' !in line[a + 1..b] && '\t' !in line[b + 1..c]
    ensures |SplitTabs(line)| >= 3 && SplitTabs(line)[2] == line[b + 1..c]
  {
    var tail := line[b + 1..];
    var rest := SplitTabs(tail);
    assert rest[0] == line[b + 1..c] by {
      if c == |line| {
        assert tail == line[b + 1..c];
        SplitNoTab(tail);
      } else {
        assert tail == line[b + 1..c] + "\t" + line[c + 1..];
        SplitAfterField(line[b + 1..c], line[c + 1..]);
      }
    }
    assert SplitTabs(line[a + 1..]) == [line[a + 1..b]] + rest by {
      assert line[a + 1..] == line[a + 1..b] + "\t" + tail;
      SplitAfterField(line[a + 1..b], tail);
    }
    assert SplitTabs(line) == [line[..a]] + SplitTabs(line[a + 1..]) by {
      assert line == line[..a] + "\t" + line[a + 1..];
      SplitAfterField(line[..a], line[a + 1..]);
    }
  }

  /** With two tabs in the line, its third field runs from the second tab to the next. */
  lemma ThirdColumnBounds(line: string)
    requires TabIndex(line, 0) < |line|
    requires TabIndex(line, TabIndex(line, 0) + 1) < |line|
    ensures var b := TabIndex(line, TabIndex(line, 0) + 1);
      |SplitTabs(line)| >= 3 && SplitTabs(line)[2] == line[b + 1..TabIndex(line, b + 1)]
  {
    var a := TabIndex(line, 0);
    var b := TabIndex(line, a + 1);
    var c := TabIndex(line, b + 1);
    ThirdBetween(line, a, b, c);
  }

  /** With fewer than two tabs, the line has fewer than three fields. */
  lemma {:induction false} FewColumns(line: string)
    requires TabIndex(line, 0) == |line| || TabIndex(line, TabIndex(line, 0) + 1) == |line|
    ensures |SplitTabs(line)| < 3
  {
    var a := TabIndex(line, 0);
    SplitFrom(line, 0);
    assert line[0..] == line;
    if a < |line| {
      SplitFrom(line, a + 1);
    }
  }

  /** The pattern matches exactly when the line has at least three tab-separated
      fields and the third is not empty; the group is that third field. */
  lemma {:induction false} ThirdFieldIsThirdColumn(line: string)
    ensures var fs := SplitTabs(line);
      ThirdField(line) == if |fs| >= 3 && fs[2] != "" then Some(fs[2]) else None
  {
    var a := TabIndex(line, 0);
    if a == |line| || TabIndex(line, a + 1) == |line| {
      FewColumns(line);
    } else {
      ThirdColumnBounds(line);
    }
  }

  function Digit(d: nat): char
    requires d < 10
  {
    "0123456789"[d]
  }

  /** `str(n)` for n >= 0: decimal digits, most significant first. */
  function NatToString(n: nat): (s: string)
    ensures |s| >= 1
    ensures forall ch :: ch in s ==> '0' <= ch <= '9'
  {
    if n < 10 then [Digit(n)] else NatToString(n / 10) + [Digit(n % 10)]
  }

  /** `str(n)`: a minus sign for negative numbers, then the digits. */
  function IntToString(n: int): (s: string)
    ensures |s| >= 1
    ensures '\t' !in s && '\n' !in s
  {
    if n < 0 then "-" + NatToString(-n) else NatToString(n)
  }

  /** The number a string of decimal digits denotes. */
  function DigitsValue(s: string): int
  {
    if s == [] then 0
    else DigitsValue(s[..|s| - 1]) * 10 + (s[|s| - 1] as int - '0' as int)
  }

  /** `str` is inverted by reading the digits back, and it has no leading
      zero: the first digit is `0` only for the number 0 itself. */
  lemma {:induction false} NatToStringValue(n: nat)
    ensures DigitsValue(NatToString(n)) == n
    ensures NatToString(n)[0] == '0' <==> n == 0
  {
    var s := NatToString(n);
    if n >= 10 {
      NatToStringValue(n / 10);
      assert s[..|s| - 1] == NatToString(n / 10);
      assert s[0] == NatToString(n / 10)[0];
    }
  }
}
