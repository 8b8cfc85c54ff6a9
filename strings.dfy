/**
  The handful of Python `str` operations the resolvers and the orchestrator are
  built from: `split`, `split(sep, 2)`, `strip`, `startswith`, `endswith`, `lower`,
  slicing with negative indices, and the comparison `sorted` uses.
 */
module Strings {

  /** Index of the first `c` in `s`, or `|s|` when there is none. */
  function FirstIndex(s: string, c: char): (i: nat)
    ensures i <= |s|
    ensures i < |s| ==> s[i] == c
    ensures forall j :: 0 <= j < i ==> s[j] != c
  {
    if s == [] then 0
    else if s[0] == c then 0
    else 1 + FirstIndex(s[1..], c)
  }

  /** `s.split(c)`: never empty, and no part contains the separator. */
  function Split(s: string, c: char): (parts: seq<string>)
    ensures |parts| >= 1
    ensures forall k :: 0 <= k < |parts| ==> c !in parts[k]
    decreases |s|
  {
    var i := FirstIndex(s, c);
    if i == |s| then [s] else [s[..i]] + Split(s[i + 1..], c)
  }

  /** `c.join(parts)` */
  function Join(parts: seq<string>, c: char): string {
    if |parts| == 0 then ""
    else if |parts| == 1 then parts[0]
    else parts[0] + [c] + Join(parts[1..], c)
  }

  /** Splitting and joining again gives back the string. */
  lemma {:induction false} JoinSplit(s: string, c: char)
    ensures Join(Split(s, c), c) == s
    decreases |s|
  {
    var i := FirstIndex(s, c);
    if i < |s| {
      JoinSplit(s[i + 1..], c);
      assert s == s[..i] + [c] + s[i + 1..];
    }
  }

  /** A separator-free part followed by the separator splits at that separator. */
  lemma SplitAtFirst(a: string, b: string, c: char)
    requires c !in a
    ensures Split(a + [c] + b, c) == [a] + Split(b, c)
  {
    var s := a + [c] + b;
    assert s[|a|] == c;
    assert forall j :: 0 <= j < |a| ==> s[j] == a[j];
    assert FirstIndex(s, c) == |a|;
    assert s[..|a|] == a && s[|a| + 1..] == b;
  }

  /** Joining separator-free parts and splitting again gives back the parts. */
  lemma {:induction false} SplitJoin(parts: seq<string>, c: char)
    requires |parts| >= 1
    requires forall k :: 0 <= k < |parts| ==> c !in parts[k]
    ensures Split(Join(parts, c), c) == parts
  {
    if |parts| == 1 {
      assert FirstIndex(parts[0], c) == |parts[0]|;
    } else {
      SplitJoin(parts[1..], c);
      SplitAtFirst(parts[0], Join(parts[1..], c), c);
    }
  }

  /** `s.split(c, 2)`: at most two separators are consumed, the rest stays whole. */
  function SplitMax2(s: string, c: char): (parts: seq<string>)
    ensures 1 <= |parts| <= 3
  {
    var i := FirstIndex(s, c);
    if i == |s| then [s]
    else
      var rest := s[i + 1..];
      var j := FirstIndex(rest, c);
      if j == |rest| then [s[..i], rest]
      else [s[..i], rest[..j], rest[j + 1..]]
  }

  /** `split(c, 2)` is the full split with everything after the second separator joined back. */
  lemma {:induction false} SplitMax2AgreesWithSplit(s: string, c: char)
    ensures var p := Split(s, c);
            SplitMax2(s, c) == if |p| <= 2 then p else [p[0], p[1], Join(p[2..], c)]
  {
    var i := FirstIndex(s, c);
    if i == |s| {
      assert Split(s, c) == [s];
    } else if FirstIndex(s[i + 1..], c) == |s[i + 1..]| {
      SplitOnce(s, c, i);
    } else {
      var j := FirstIndex(s[i + 1..], c);
      SplitTwice(s, c, i, j);
      assert SplitMax2(s, c) == [s[..i], s[i + 1..][..j], s[i + 1..][j + 1..]];
    }
  }

  /** A split at the first separator. */
  lemma SplitAt(s: string, c: char)
    requires FirstIndex(s, c) < |s|
    ensures Split(s, c) == [s[..FirstIndex(s, c)]] + Split(s[FirstIndex(s, c) + 1..], c)
  {
  }

  lemma TwoHeads<T>(a: T, b: T, r: seq<T>)
    ensures var p := [a] + ([b] + r);
            |p| == |r| + 2 && p[0] == a && p[1] == b && p[2..] == r
  {
    var p := [a] + ([b] + r);
    assert p[2..] == r;
  }

  lemma SplitOnce(s: string, c: char, i: nat)
    requires i == FirstIndex(s, c) < |s|
    requires FirstIndex(s[i + 1..], c) == |s[i + 1..]|
    ensures Split(s, c) == [s[..i], s[i + 1..]] == SplitMax2(s, c)
  {
    var rest := s[i + 1..];
    assert Split(s, c) == [s[..i]] + Split(rest, c);
    assert Split(rest, c) == [rest];
  }

  lemma SplitTwice(s: string, c: char, i: nat, j: nat)
    requires i == FirstIndex(s, c) < |s|
    requires j == FirstIndex(s[i + 1..], c) < |s[i + 1..]|
    ensures var p := Split(s, c);
            |p| > 2 && p[0] == s[..i] && p[1] == s[i + 1..][..j] && Join(p[2..], c) == s[i + 1..][j + 1..]
  {
    var rest := s[i + 1..];
    var tail := rest[j + 1..];
    var r := Split(tail, c);
    SplitAt(s, c);
    assert Split(s, c) == [s[..i]] + Split(rest, c);
    SplitAt(rest, c);
    assert Split(rest, c) == [rest[..j]] + r;
    TwoHeads(s[..i], rest[..j], r);
    JoinSplit(tail, c);
  }

  /** `s.startswith(p)` */
  predicate StartsWith(s: string, p: string) {
    p <= s
  }

  /** `s.endswith(p)` */
  predicate EndsWith(s: string, p: string) {
    |p| <= |s| && s[|s| - |p|..] == p
  }

  /** Number of leading characters of `s` that belong to `cs`. */
  function LeadCount(s: string, cs: set<char>): (n: nat)
    ensures n <= |s|
    ensures forall j :: 0 <= j < n ==> s[j] in cs
    ensures n < |s| ==> s[n] !in cs
  {
    if s != [] && s[0] in cs then 1 + LeadCount(s[1..], cs) else 0
  }

  /** Number of trailing characters of `s` that belong to `cs`. */
  function TrailCount(s: string, cs: set<char>): (n: nat)
    ensures n <= |s|
    ensures forall j :: |s| - n <= j < |s| ==> s[j] in cs
    ensures n < |s| ==> s[|s| - 1 - n] !in cs
  {
    if s != [] && s[|s| - 1] in cs then 1 + TrailCount(s[..|s| - 1], cs) else 0
  }

  /** `s.strip(cs)`: drop the leading, then the trailing characters that belong to `cs`. */
  function Strip(s: string, cs: set<char>): string {
    var rest := s[LeadCount(s, cs)..];
    rest[..|rest| - TrailCount(rest, cs)]
  }

  /**
    What `strip` leaves: a contiguous piece of `s` that neither starts nor ends with a
    stripped character, with only stripped characters around it.
   */
  lemma StripIsTrimmedMiddle(s: string, cs: set<char>)
    ensures var r := Strip(s, cs);
            var lo := LeadCount(s, cs);
            && (r != [] ==> r[0] !in cs && r[|r| - 1] !in cs)
            && lo + |r| <= |s| && s[lo..lo + |r|] == r
            && (forall j :: 0 <= j < lo ==> s[j] in cs)
            && (forall j :: lo + |r| <= j < |s| ==> s[j] in cs)
  {
    var lo := LeadCount(s, cs);
    var rest := s[lo..];
    var r := Strip(s, cs);
    assert forall j :: lo + |r| <= j < |s| ==> s[j] == rest[j - lo];
  }

  /** A string that neither starts nor ends with a stripped character is left as it is. */
  lemma StripUnchanged(s: string, cs: set<char>)
    requires s != [] ==> s[0] !in cs && s[|s| - 1] !in cs
    ensures Strip(s, cs) == s
  {
    assert LeadCount(s, cs) == 0;
    assert s[0..] == s;
  }

  /** The characters `str.strip()` removes when called without an argument (`str.isspace`). */
  const Whitespace: set<char> :=
    {'\t', '\n', '\U{0B}', '\U{0C}', '\r', '\U{1C}', '\U{1D}', '\U{1E}', '\U{1F}', ' ',
     '\U{85}', '\U{A0}', '\U{1680}', '\U{2000}', '\U{2001}', '\U{2002}', '\U{2003}',
     '\U{2004}', '\U{2005}', '\U{2006}', '\U{2007}', '\U{2008}', '\U{2009}', '\U{200A}',
     '\U{2028}', '\U{2029}', '\U{202F}', '\U{205F}', '\U{3000}'}

  /** `c.lower()` on the ASCII range. */
  function LowerChar(c: char): char {
    if 'A' <= c <= 'Z' then (c as int - 'A' as int + 'a' as int) as char else c
  }

  /** `s.lower()` restricted to ASCII letters. */
  function Lower(s: string): (r: string)
    ensures |r| == |s|
    ensures forall j :: 0 <= j < |s| ==> r[j] == LowerChar(s[j])
  {
    if s == [] then [] else Lower(s[..|s| - 1]) + [LowerChar(s[|s| - 1])]
  }

  /** A string without an upper-case ASCII letter is its own lower-case form. */
  lemma LowerUnchanged(s: string)
    requires forall j :: 0 <= j < |s| ==> !('A' <= s[j] <= 'Z')
    ensures Lower(s) == s
  {
  }

  /** Lowering twice is lowering once. */
  lemma LowerIdempotent(s: string)
    ensures Lower(Lower(s)) == Lower(s)
  {
    LowerUnchanged(Lower(s));
  }

  /** Lowering maps a character that is not stripped by `strip()` to one that is not either. */
  lemma LowerCharKeepsNonSpace(c: char)
    requires c !in Whitespace
    ensures LowerChar(c) !in Whitespace
  {
  }

  /** Python's reading of a slice bound: negative counts from the end, then clamp to `[0, n]`. */
  function SliceBound(i: int, n: nat): (b: nat)
    ensures b <= n
  {
    if i < 0 then (if n + i < 0 then 0 else n + i)
    else if i > n then n else i
  }

  /** `s[lo:hi]` */
  function PySlice(s: string, lo: int, hi: int): string {
    var a := SliceBound(lo, |s|);
    var b := SliceBound(hi, |s|);
    if a < b then s[a..b] else ""
  }

  /** `s[lo:-m]` with both bounds in range drops `lo` characters from the front and `m` from the end. */
  lemma PySliceDropsEnds(s: string, lo: nat, m: nat)
    requires 0 < m && lo + m <= |s|
    ensures PySlice(s, lo, -(m as int)) == s[lo..|s| - m]
    ensures |PySlice(s, lo, -(m as int))| == |s| - lo - m
  {
  }

  /** Python's `<` on `str`: lexicographic by code point, a proper prefix being smaller. */
  predicate LexLess(a: string, b: string) {
    if a == [] then b != []
    else if b == [] then false
    else if a[0] != b[0] then a[0] < b[0]
    else LexLess(a[1..], b[1..])
  }

  lemma {:induction false} LexLessIrreflexive(a: string)
    ensures !LexLess(a, a)
  {
    if a != [] { LexLessIrreflexive(a[1..]); }
  }

  lemma {:induction false} LexLessTotal(a: string, b: string)
    ensures a == b || LexLess(a, b) || LexLess(b, a)
  {
    if a != [] && b != [] && a[0] == b[0] {
      LexLessTotal(a[1..], b[1..]);
      if a[1..] == b[1..] { assert a == [a[0]] + a[1..] && b == [b[0]] + b[1..]; }
    }
  }

  lemma {:induction false} LexLessAsymmetric(a: string, b: string)
    ensures LexLess(a, b) ==> !LexLess(b, a)
  {
    if a != [] && b != [] && a[0] == b[0] { LexLessAsymmetric(a[1..], b[1..]); }
  }

  lemma {:induction false} LexLessTransitive(a: string, b: string, c: string)
    requires LexLess(a, b) && LexLess(b, c)
    ensures LexLess(a, c)
  {
    if a != [] && a[0] == b[0] && b[0] == c[0] {
      LexLessTransitive(a[1..], b[1..], c[1..]);
    }
  }
}
