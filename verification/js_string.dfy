/**
 * The JavaScript string operations the application relies on, over
 * `seq<char>`: `startsWith`, `endsWith`, `indexOf`, `lastIndexOf`,
 * `split` with a one-character separator and `trim`, plus the
 * truthiness of a string and `Array.prototype.indexOf`.
 */
module JsString {
  import opened Wrappers

  /** `s.startsWith(prefix)` */
  predicate StartsWith(s: string, prefix: string) {
    |prefix| <= |s| && s[..|prefix|] == prefix
  }

  /** `s.endsWith(suffix)` */
  predicate EndsWith(s: string, suffix: string) {
    |suffix| <= |s| && s[|s| - |suffix|..] == suffix
  }

  /** JavaScript truthiness of a possibly missing string: present and not empty. */
  predicate Truthy(p: Option<string>) {
    p.Some? && p.value != ""
  }

  /** `a.indexOf(x)` on an array: the first position holding `x`, or -1. */
  function ArrayIndexOf<T(==)>(a: seq<T>, x: T): (r: int)
    ensures -1 <= r < |a|
    ensures r < 0 <==> x !in a
    ensures r >= 0 ==> a[r] == x && x !in a[..r]
  {
    if |a| == 0 then -1
    else if a[0] == x then 0
    else
      var k := ArrayIndexOf(a[1..], x);
      if k < 0 then -1
      else
        assert a[..k + 1] == [a[0]] + a[1..][..k];
        k + 1
  }

  /** `s.indexOf(c)`: the first position holding `c`, or -1. */
  function IndexOf(s: string, c: char): (r: int)
    ensures -1 <= r < |s|
    ensures r < 0 <==> c !in s
    ensures r >= 0 ==> s[r] == c && c !in s[..r]
  {
    if |s| == 0 then -1
    else if s[0] == c then 0
    else
      var k := IndexOf(s[1..], c);
      if k < 0 then -1
      else
        assert s[..k + 1] == [s[0]] + s[1..][..k];
        k + 1
  }

  /** The last position before `end` holding `c`, or -1. */
  function LastBefore(s: string, c: char, end: nat): (r: int)
    requires end <= |s|
    ensures -1 <= r < end
    ensures r >= 0 ==> s[r] == c
    ensures forall i :: r < i < end ==> s[i] != c
    decreases end
  {
    if end == 0 then -1
    else if s[end - 1] == c then end - 1
    else LastBefore(s, c, end - 1)
  }

  /** `s.lastIndexOf(c)`: the last position holding `c`, or -1. */
  function LastIndexOf(s: string, c: char): (r: int)
    ensures -1 <= r < |s|
    ensures r < 0 <==> c !in s
    ensures r >= 0 ==> s[r] == c && c !in s[r + 1..]
  {
    LastBeforeTail(s, c, LastBefore(s, c, |s|));
    LastBefore(s, c, |s|)
  }

  /** No `c` follows a position after which no character is `c`. */
  lemma LastBeforeTail(s: string, c: char, r: int)
    requires -1 <= r < |s|
    requires forall i :: r < i < |s| ==> s[i] != c
    ensures c !in s[r + 1..]
  {
    var tail := s[r + 1..];
    forall i | 0 <= i < |tail| ensures tail[i] != c {
      assert tail[i] == s[r + 1 + i];
    }
  }

  /** A prefix one longer is the prefix and the next element. */
  lemma PrefixSnoc<T>(s: seq<T>, m: nat)
    requires m < |s|
    ensures s[..m] + [s[m]] == s[..m + 1]
  {
  }

  /** Joins `parts` with `sep` between neighbours (`parts.join(sep)`). */
  function Join(parts: seq<string>, sep: char): string
  {
    if |parts| == 0 then ""
    else if |parts| == 1 then parts[0]
    else parts[0] + [sep] + Join(parts[1..], sep)
  }

  /**
   * `s.split(sep)` for a one-character separator: the maximal pieces
   * between separators. There is always at least one piece, none of them
   * holds the separator, and joining them back gives `s`.
   */
  function Split(s: string, sep: char): (parts: seq<string>)
    ensures |parts| >= 1
    ensures forall i :: 0 <= i < |parts| ==> sep !in parts[i]
    ensures Join(parts, sep) == s
    decreases |s|
  {
    var k := IndexOf(s, sep);
    if k < 0 then [s]
    else
      var rest := Split(s[k + 1..], sep);
      SplitStep(s, sep, k, rest);
      [s[..k]] + rest
  }

  /** One step of `Split`: the piece before the first separator, then the rest's pieces. */
  lemma SplitStep(s: string, sep: char, k: nat, rest: seq<string>)
    requires k < |s| && s[k] == sep && sep !in s[..k]
    requires |rest| >= 1
    requires forall i :: 0 <= i < |rest| ==> sep !in rest[i]
    requires Join(rest, sep) == s[k + 1..]
    ensures forall i :: 0 <= i < |rest| + 1 ==> sep !in ([s[..k]] + rest)[i]
    ensures Join([s[..k]] + rest, sep) == s
  {
    var parts := [s[..k]] + rest;
    assert parts[1..] == rest;
    assert s == s[..k] + [sep] + s[k + 1..];
  }

  /** The first `c` in `a + [c] + b` is the one after `a` when `a` has none. */
  lemma {:induction false} IndexOfAfter(a: string, c: char, b: string)
    requires c !in a
    ensures IndexOf(a + [c] + b, c) == |a|
  {
    if a != [] {
      assert (a + [c] + b)[1..] == a[1..] + [c] + b;
      IndexOfAfter(a[1..], c, b);
    }
  }

  /** The last `c` in `a + [c] + b` is the one after `a` when `b` has none. */
  lemma {:induction false} LastIndexOfBefore(a: string, c: char, b: string)
    requires c !in b
    ensures LastIndexOf(a + [c] + b, c) == |a|
  {
    if b != [] {
      var s := a + [c] + b;
      assert s[..|s| - 1] == a + [c] + b[..|b| - 1];
      LastIndexOfBefore(a, c, b[..|b| - 1]);
    }
  }

  /** Splitting a join of separator-free pieces gives the pieces back. */
  lemma {:induction false} SplitJoin(parts: seq<string>, sep: char)
    requires |parts| >= 1
    requires forall i :: 0 <= i < |parts| ==> sep !in parts[i]
    ensures Split(Join(parts, sep), sep) == parts
  {
    if |parts| > 1 {
      var tail := Join(parts[1..], sep);
      var s := parts[0] + [sep] + tail;
      assert Join(parts, sep) == s;
      IndexOfAfter(parts[0], sep, tail);
      assert s[..|parts[0]|] == parts[0];
      assert s[|parts[0]| + 1..] == tail;
      assert forall i :: 0 <= i < |parts| - 1 ==> parts[1..][i] == parts[i + 1];
      SplitJoin(parts[1..], sep);
      assert Split(s, sep) == [parts[0]] + Split(tail, sep);
      assert parts == [parts[0]] + parts[1..];
    }
  }

  /** A string without the separator splits into itself alone. */
  lemma SplitWhole(s: string, sep: char)
    requires sep !in s
    ensures Split(s, sep) == [s]
  {
  }

  /** The first piece is everything before the first separator. */
  lemma SplitFirstPiece(a: string, sep: char, b: string)
    requires sep !in a
    ensures Split(a + [sep] + b, sep)[0] == a
  {
    IndexOfAfter(a, sep, b);
    assert (a + [sep] + b)[..|a|] == a;
  }

  /**
   * The characters `String.prototype.trim` removes: the ECMAScript
   * WhiteSpace (tab, vertical tab, form feed, space, no-break space,
   * zero-width no-break space and the Unicode Zs category) and
   * LineTerminator (LF, CR, line and paragraph separator) code points.
   */
  predicate IsJsSpace(c: char) {
    || c == '\t' || c == '\n' || c == '\U{000B}' || c == '\U{000C}' || c == '\r'
    || c == ' ' || c == '\U{00A0}' || c == '\U{1680}'
    || ('\U{2000}' <= c <= '\U{200A}')
    || c == '\U{2028}' || c == '\U{2029}' || c == '\U{202F}' || c == '\U{205F}'
    || c == '\U{3000}' || c == '\U{FEFF}'
  }

  /** The index of the first character at or after `from` that is not white space (`|s|` if none). */
  function SpaceEnd(s: string, from: nat): (n: nat)
    requires from <= |s|
    ensures from <= n <= |s|
    ensures forall i :: from <= i < n ==> IsJsSpace(s[i])
    ensures n == |s| || !IsJsSpace(s[n])
    decreases |s| - from
  {
    if from < |s| && IsJsSpace(s[from]) then SpaceEnd(s, from + 1) else from
  }

  /** The index just after the last character before `end` that is not white space, but not below `lo`. */
  function SpaceStart(s: string, lo: nat, end: nat): (n: nat)
    requires lo <= end <= |s|
    ensures lo <= n <= end
    ensures forall i :: n <= i < end ==> IsJsSpace(s[i])
    ensures n == lo || !IsJsSpace(s[n - 1])
    decreases end
  {
    if end > lo && IsJsSpace(s[end - 1]) then SpaceStart(s, lo, end - 1) else end
  }

  /**
   * `r` is the slice of `s` starting at `a`, and every character of `s`
   * outside that slice is white space.
   */
  ghost predicate SpaceAround(s: string, r: string, a: int) {
    && 0 <= a <= |s| - |r|
    && s[a..a + |r|] == r
    && (forall i :: 0 <= i < a ==> IsJsSpace(s[i]))
    && (forall i :: a + |r| <= i < |s| ==> IsJsSpace(s[i]))
  }

  /**
   * `s.trim()`: a slice of `s` with only white space outside it and no
   * white space at either of its ends.
   */
  function Trim(s: string): (r: string)
    ensures r == [] || (!IsJsSpace(r[0]) && !IsJsSpace(r[|r| - 1]))
    ensures exists a :: SpaceAround(s, r, a)
  {
    var a := SpaceEnd(s, 0);
    var b := SpaceStart(s, a, |s|);
    assert SpaceAround(s, s[a..b], a);
    s[a..b]
  }

  /** A string with no white space at its ends is left as it is by `trim`. */
  lemma TrimKeepsClean(s: string)
    requires s == [] || (!IsJsSpace(s[0]) && !IsJsSpace(s[|s| - 1]))
    ensures Trim(s) == s
  {
  }

  /** `trim` removes exactly the white space around a text with no white space at its ends. */
  lemma TrimPadded(before: string, core: string, after: string)
    requires forall i :: 0 <= i < |before| ==> IsJsSpace(before[i])
    requires forall i :: 0 <= i < |after| ==> IsJsSpace(after[i])
    requires core != [] && !IsJsSpace(core[0]) && !IsJsSpace(core[|core| - 1])
    ensures Trim(before + core + after) == core
  {
    var s := before + core + after;
    var lo := |before|;
    var hi := |before| + |core|;
    assert s[lo] == core[0] && s[hi - 1] == core[|core| - 1];
    var a := SpaceEnd(s, 0);
    assert a == lo;
    var b := SpaceStart(s, a, |s|);
    assert b == hi;
    assert s[lo..hi] == core;
  }

  /** Trimming twice is trimming once. */
  lemma TrimIdempotent(s: string)
    ensures Trim(Trim(s)) == Trim(s)
  {
    TrimKeepsClean(Trim(s));
  }
}
