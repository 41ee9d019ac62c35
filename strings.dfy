/** The parts of Go's `strings` package that the NUMA scans use, over `seq<char>`. */
module GoStrings {

  /** `strings.HasPrefix`. */
  predicate HasPrefix(s: string, prefix: string)
  {
    |prefix| <= |s| && s[..|prefix|] == prefix
  }

  /** `strings.Contains`: `sub` occurs somewhere in `s`. */
  predicate Contains(s: string, sub: string)
  {
    HasPrefix(s, sub) || (|s| > 0 && Contains(s[1..], sub))
  }

  /** The index of the first `c` in `s`, or `|s|` when there is none. */
  function IndexOf(s: string, c: char): (k: nat)
    ensures k <= |s|
    ensures k < |s| ==> s[k] == c
    ensures c !in s[..k]
    ensures k == |s| <==> c !in s
  {
    if s == [] then 0
    else if s[0] == c then 0
    else
      assert s[1..][..IndexOf(s[1..], c)] == s[1..1 + IndexOf(s[1..], c)];
      assert s[..1 + IndexOf(s[1..], c)] == [s[0]] + s[1..][..IndexOf(s[1..], c)];
      1 + IndexOf(s[1..], c)
  }

  /** `strings.Join` with a one-character separator. */
  function Join(parts: seq<string>, sep: char): string
    requires |parts| >= 1
  {
    if |parts| == 1 then parts[0] else parts[0] + [sep] + Join(parts[1..], sep)
  }

  /** `strings.Split` with a one-character separator: the pieces between separators,
      so that joining them back gives `s`; there is a second piece exactly when `sep` occurs. */
  function Split(s: string, sep: char): (parts: seq<string>)
    ensures |parts| >= 1
    ensures Join(parts, sep) == s
    ensures forall i | 0 <= i < |parts| :: sep !in parts[i]
    ensures sep in s <==> |parts| > 1
  {
    if s == [] then [[]]
    else
      var rest := Split(s[1..], sep);
      if s[0] == sep then
        [[]] + rest
      else
        var parts := [[s[0]] + rest[0]] + rest[1..];
        assert parts[1..] == rest[1..];
        assert |rest| > 1 ==> Join(parts, sep) == [s[0]] + (rest[0] + [sep] + Join(rest[1..], sep));
        parts
  }

  /** Splitting undoes joining pieces that hold no separator. */
  lemma {:induction false} SplitJoin(parts: seq<string>, sep: char)
    requires |parts| >= 1
    requires forall i | 0 <= i < |parts| :: sep !in parts[i]
    ensures Split(Join(parts, sep), sep) == parts
  {
    var s := Join(parts, sep);
    if |parts| == 1 {
      SplitNoSeparator(parts[0], sep);
    } else {
      SplitJoin(parts[1..], sep);
      SplitPrefix(parts[0], sep, Join(parts[1..], sep));
    }
  }

  /** A text without the separator is one piece. */
  lemma {:induction false} SplitNoSeparator(s: string, sep: char)
    requires sep !in s
    ensures Split(s, sep) == [s]
  {
  }

  /** Splitting `a + [sep] + b`, with no separator in `a`, gives `a` and then the pieces of `b`. */
  lemma {:induction false} SplitPrefix(a: string, sep: char, b: string)
    requires sep !in a
    ensures Split(a + [sep] + b, sep) == [a] + Split(b, sep)
  {
    if a == [] {
      assert a + [sep] + b == [sep] + b;
      assert ([sep] + b)[1..] == b;
    } else {
      var s := a + [sep] + b;
      assert s[1..] == a[1..] + [sep] + b;
      SplitPrefix(a[1..], sep, b);
      assert [a[0]] + a[1..] == a;
    }
  }

  /** The second piece of a split is the text after the first separator, up to the next one
      or to the end. */
  lemma {:induction false} SplitSecondPiece(s: string, sep: char)
    requires sep in s
    ensures Split(s, sep)[1] == UpTo(After(s, sep), sep)
  {
    var k := IndexOf(s, sep);
    var after := After(s, sep);
    assert s == s[..k] + [sep] + after;
    SplitPrefix(s[..k], sep, after);
    assert Split(s, sep)[1] == Split(after, sep)[0];
    SplitFirstPiece(after, sep);
  }

  /** The first piece of a split is the text before the first separator. */
  lemma {:induction false} SplitFirstPiece(s: string, sep: char)
    ensures Split(s, sep)[0] == UpTo(s, sep)
  {
    var m := IndexOf(s, sep);
    if m == |s| {
      SplitNoSeparator(s, sep);
      assert s[..m] == s;
    } else {
      assert s == s[..m] + [sep] + s[m + 1..];
      SplitPrefix(s[..m], sep, s[m + 1..]);
    }
  }

  /** The text before the first `c` (all of `s` when there is none). */
  function UpTo(s: string, c: char): string
  {
    s[..IndexOf(s, c)]
  }

  /** The text after the first `c`. */
  function After(s: string, c: char): string
    requires c in s
  {
    s[IndexOf(s, c) + 1..]
  }

  /** `strings.TrimLeft` with a cutset: drops the leading characters that are in `cut`. */
  function TrimLeft(s: string, cut: set<char>): (r: string)
    ensures |r| <= |s| && r == s[|s| - |r|..]
    ensures forall i | 0 <= i < |s| - |r| :: s[i] in cut
    ensures r == [] || r[0] !in cut
  {
    if s != [] && s[0] in cut then TrimLeft(s[1..], cut) else s
  }

  /** `strings.TrimRight` with a cutset: drops the trailing characters that are in `cut`. */
  function TrimRight(s: string, cut: set<char>): (r: string)
    ensures |r| <= |s| && r == s[..|r|]
    ensures forall i | |r| <= i < |s| :: s[i] in cut
    ensures r == [] || r[|r| - 1] !in cut
  {
    if s != [] && s[|s| - 1] in cut then TrimRight(s[..|s| - 1], cut) else s
  }

  /** `strings.Trim` with a cutset: `s` without its leading and trailing characters from `cut`. */
  function Trim(s: string, cut: set<char>): (r: string)
    ensures r == [] || (r[0] !in cut && r[|r| - 1] !in cut)
    ensures TrimmedAt(s, cut, |s| - |TrimLeft(s, cut)|, r)
  {
    TrimInfix(s, cut);
    TrimRight(TrimLeft(s, cut), cut)
  }

  lemma TrimInfix(s: string, cut: set<char>)
    ensures TrimmedAt(s, cut, |s| - |TrimLeft(s, cut)|, TrimRight(TrimLeft(s, cut), cut))
  {
    TrimmedBothEnds(s, cut, TrimLeft(s, cut), TrimRight(TrimLeft(s, cut), cut));
  }

  /** Dropping a prefix from `cut` and then a suffix from `cut` leaves an infix of `s`. */
  lemma TrimmedBothEnds(s: string, cut: set<char>, l: string, r: string)
    requires |l| <= |s| && l == s[|s| - |l|..] && forall i | 0 <= i < |s| - |l| :: s[i] in cut
    requires |r| <= |l| && r == l[..|r|] && forall i | |r| <= i < |l| :: l[i] in cut
    ensures TrimmedAt(s, cut, |s| - |l|, r)
  {
    var k := |s| - |l|;
    assert r == s[k..k + |r|];
    forall i | k + |r| <= i < |s|
      ensures s[i] in cut
    {
      assert s[i] == l[i - k];
    }
  }

  /** `r` is `s` with `k` leading and some trailing characters from `cut` removed. */
  predicate TrimmedAt(s: string, cut: set<char>, k: nat, r: string)
  {
    && k + |r| <= |s|
    && r == s[k..k + |r|]
    && (forall i | 0 <= i < k :: s[i] in cut)
    && (forall i | k + |r| <= i < |s| :: s[i] in cut)
  }

  /** The characters Go's `unicode.IsSpace` accepts. */
  const Whitespace: set<char> :=
    { '\t', '\n', '\U{000B}', '\U{000C}', '\r', ' ', '\U{0085}', '\U{00A0}', '\U{1680}',
      '\U{2000}', '\U{2001}', '\U{2002}', '\U{2003}', '\U{2004}', '\U{2005}', '\U{2006}',
      '\U{2007}', '\U{2008}', '\U{2009}', '\U{200A}', '\U{2028}', '\U{2029}', '\U{202F}',
      '\U{205F}', '\U{3000}' }

  /** `strings.TrimSpace`. */
  function TrimSpace(s: string): string
  {
    Trim(s, Whitespace)
  }

  /** `strings.Replace(s, string(c), "", 1)`: deletes the first `c` and keeps every other one. */
  function RemoveFirst(s: string, c: char): (r: string)
    ensures c !in s ==> r == s
    ensures c in s ==> r == s[..IndexOf(s, c)] + s[IndexOf(s, c) + 1..]
  {
    if s == [] then []
    else if s[0] == c then s[1..]
    else
      ConsSlices(s, IndexOf(s[1..], c));
      [s[0]] + RemoveFirst(s[1..], c)
  }

  /** Slicing a sequence by index `k + 1` is slicing its tail by `k`. */
  lemma ConsSlices(s: string, k: nat)
    requires 0 < |s| && k < |s|
    ensures s[..k + 1] == [s[0]] + s[1..][..k]
    ensures s[k + 1..] == s[1..][k..]
  {
  }
}
