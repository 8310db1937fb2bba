/**
 * The string operations of Rust's `str` that the server relies on: `find`, `split`,
 * `split_once`/`splitn(2, _)`, `trim`, `replace` of one character, `ends_with`, and the
 * decimal rendering of integers used by `to_string` and `{}` formatting.
 */
module Text {
  import opened Wrappers

  /** `s.find(p)`: the index of the first character of `s` satisfying `p`. */
  function FindFirst(s: string, p: char -> bool): (r: Option<nat>)
    ensures r.Some? ==> r.value < |s| && p(s[r.value])
    ensures r.Some? ==> forall j :: 0 <= j < r.value ==> !p(s[j])
    ensures r.None? <==> forall j :: 0 <= j < |s| ==> !p(s[j])
  {
    if |s| == 0 then None
    else if p(s[0]) then Some(0)
    else
      match FindFirst(s[1..], p)
      case None =>
        assert forall j :: 1 <= j < |s| ==> s[j] == s[1..][j - 1];
        None
      case Some(i) =>
        assert forall j :: 1 <= j < i + 1 ==> s[j] == s[1..][j - 1];
        Some(i + 1)
  }

  /** The first search hit is determined by the text before it. */
  lemma FindFirstAt(a: string, c: char, b: string, p: char -> bool)
    requires forall j :: 0 <= j < |a| ==> !p(a[j])
    requires p(c)
    ensures FindFirst(a + [c] + b, p) == Some(|a|)
  {
    var s := a + [c] + b;
    assert s[|a|] == c;
    assert forall j :: 0 <= j < |a| ==> s[j] == a[j];
  }

  /** `s.find(c)` for a single character. */
  function IndexOf(s: string, c: char): (r: Option<nat>)
    ensures r.Some? ==> r.value < |s| && s[r.value] == c && c !in s[..r.value]
    ensures r.None? <==> c !in s
  {
    if |s| == 0 then None
    else if s[0] == c then Some(0)
    else
      match IndexOf(s[1..], c)
      case None => None
      case Some(i) =>
        assert s[..i + 1] == [s[0]] + s[1..][..i];
        Some(i + 1)
  }

  /** The first occurrence is determined by the text before it. */
  lemma IndexOfAt(a: string, c: char, b: string)
    requires c !in a
    ensures IndexOf(a + [c] + b, c) == Some(|a|)
  {
    var s := a + [c] + b;
    assert s[|a|] == c && s[..|a|] == a;
  }

  /** `s.split_once(c)`, which is also `s.splitn(2, c)` when `c` occurs. */
  function SplitOnce(s: string, c: char): (r: Option<(string, string)>)
    ensures r.None? <==> c !in s
    ensures r.Some? ==> s == r.value.0 + [c] + r.value.1 && c !in r.value.0
  {
    match IndexOf(s, c)
    case None => None
    case Some(i) =>
      assert s == s[..i] + [c] + s[i + 1..];
      Some((s[..i], s[i + 1..]))
  }

  /** The split is at the first occurrence: any decomposition around a first `c` is the one found. */
  lemma SplitOnceAt(a: string, c: char, b: string)
    requires c !in a
    ensures SplitOnce(a + [c] + b, c) == Some((a, b))
  {
    var s := a + [c] + b;
    IndexOfAt(a, c, b);
    assert s[..|a|] == a && s[|a| + 1..] == b;
  }

  /** The pieces joined back with the separator. */
  function Join(ps: seq<string>, sep: char): string
  {
    if |ps| == 0 then []
    else if |ps| == 1 then ps[0]
    else ps[0] + [sep] + Join(ps[1..], sep)
  }

  /** `s.split(sep)`: never empty, and no piece holds the separator. */
  function Split(s: string, sep: char): (r: seq<string>)
    ensures |r| >= 1
    ensures forall i :: 0 <= i < |r| ==> sep !in r[i]
    decreases |s|
  {
    match SplitOnce(s, sep)
    case None => [s]
    case Some((a, b)) => [a] + Split(b, sep)
  }

  /** The pieces of a split join back to the text: nothing is lost or added. */
  lemma {:induction false} JoinSplit(s: string, sep: char)
    ensures Join(Split(s, sep), sep) == s
    decreases |s|
  {
    match SplitOnce(s, sep)
    case None =>
    case Some((a, b)) =>
      var rest := Split(b, sep);
      JoinSplit(b, sep);
      assert Split(s, sep) == [a] + rest;
      assert ([a] + rest)[1..] == rest;
  }

  /** Splitting undoes joining separator-free pieces, so `split` has exactly one answer. */
  lemma {:induction false} SplitJoin(ps: seq<string>, sep: char)
    requires |ps| >= 1
    requires forall i :: 0 <= i < |ps| ==> sep !in ps[i]
    ensures Split(Join(ps, sep), sep) == ps
    decreases |ps|
  {
    if |ps| == 1 {
      assert Join(ps, sep) == ps[0];
      assert SplitOnce(ps[0], sep) == None;
    } else {
      var tail := Join(ps[1..], sep);
      assert Join(ps, sep) == ps[0] + [sep] + tail;
      SplitJoin(ps[1..], sep);
      SplitOnceAt(ps[0], sep, tail);
      assert Split(Join(ps, sep), sep) == [ps[0]] + Split(tail, sep);
      assert [ps[0]] + ps[1..] == ps;
    }
  }

  /** The Unicode White_Space property, which is what Rust's `str::trim` removes. */
  predicate IsWhitespace(c: char)
  {
    || ('\U{0009}' <= c <= '\U{000D}') || c == ' ' || c == '\U{0085}' || c == '\U{00A0}'
    || c == '\U{1680}' || ('\U{2000}' <= c <= '\U{200A}') || c == '\U{2028}' || c == '\U{2029}'
    || c == '\U{202F}' || c == '\U{205F}' || c == '\U{3000}'
  }

  /** The number of whitespace characters at the start of `s`. */
  function LeadingWhitespace(s: string): (n: nat)
    ensures n <= |s|
    ensures forall i :: 0 <= i < n ==> IsWhitespace(s[i])
    ensures n < |s| ==> !IsWhitespace(s[n])
  {
    if |s| == 0 || !IsWhitespace(s[0]) then 0
    else
      var n := LeadingWhitespace(s[1..]);
      assert forall i :: 1 <= i < n + 1 ==> s[i] == s[1..][i - 1];
      n + 1
  }

  /** The number of whitespace characters at the end of `s`. */
  function TrailingWhitespace(s: string): (n: nat)
    ensures n <= |s|
    ensures forall i :: |s| - n <= i < |s| ==> IsWhitespace(s[i])
    ensures n < |s| ==> !IsWhitespace(s[|s| - 1 - n])
  {
    if |s| == 0 || !IsWhitespace(s[|s| - 1]) then 0
    else
      var t := s[..|s| - 1];
      var n := TrailingWhitespace(t);
      assert forall i :: 0 <= i < |t| ==> s[i] == t[i];
      n + 1
  }

  /** `r` is the slice of `s` at `i`, and everything of `s` before and after it is whitespace. */
  predicate StrippedAt(s: string, r: string, i: int)
  {
    && 0 <= i <= |s| - |r|
    && r == s[i..i + |r|]
    && (forall k :: 0 <= k < i ==> IsWhitespace(s[k]))
    && (forall k :: i + |r| <= k < |s| ==> IsWhitespace(s[k]))
  }

  /**
   * `s.trim()`: `s` without its leading and trailing whitespace. The result is a slice of `s`
   * surrounded by whitespace only, and does not itself start or end with whitespace.
   */
  function Trim(s: string): (r: string)
    ensures |r| <= |s|
    ensures StrippedAt(s, r, LeadingWhitespace(s))
    ensures r == [] || (!IsWhitespace(r[0]) && !IsWhitespace(r[|r| - 1]))
  {
    var i := LeadingWhitespace(s);
    var n := TrailingWhitespace(s[i..]);
    TrimSlice(s, i, n);
    TrimEnds(s, i, n);
    s[i..|s| - n]
  }

  /** The slice between the leading and the trailing whitespace is surrounded by whitespace only. */
  lemma TrimSlice(s: string, i: nat, n: nat)
    requires i == LeadingWhitespace(s) && n == TrailingWhitespace(s[i..])
    ensures i <= |s| - n
    ensures StrippedAt(s, s[i..|s| - n], i)
  {
    TrailingInSuffix(s, i);
    var r := s[i..|s| - n];
    assert i + |r| == |s| - n;
  }

  /** The trailing whitespace of a suffix of `s` is whitespace at the end of `s`. */
  lemma TrailingInSuffix(s: string, i: nat)
    requires i <= |s|
    ensures forall k :: |s| - TrailingWhitespace(s[i..]) <= k < |s| ==> IsWhitespace(s[k])
  {
    var t := s[i..];
    var n := TrailingWhitespace(t);
    forall k | |s| - n <= k < |s|
      ensures IsWhitespace(s[k])
    {
      assert s[k] == t[k - i];
    }
  }

  /** The slice between the leading and the trailing whitespace neither starts nor ends with whitespace. */
  lemma TrimEnds(s: string, i: nat, n: nat)
    requires i == LeadingWhitespace(s) && n == TrailingWhitespace(s[i..])
    ensures i <= |s| - n
    ensures i < |s| - n ==> !IsWhitespace(s[i]) && !IsWhitespace(s[|s| - n - 1])
  {
    var t := s[i..];
    if i < |s| - n {
      assert s[|s| - n - 1] == t[|t| - 1 - n];
    }
  }

  /** Only one slice of `s` is surrounded by whitespace and neither starts nor ends with it: the trimmed text. */
  lemma TrimUnique(s: string, r: string, i: int)
    requires StrippedAt(s, r, i)
    requires r == [] || (!IsWhitespace(r[0]) && !IsWhitespace(r[|r| - 1]))
    ensures r == Trim(s)
  {
  }

  /** Text without whitespace is left untouched by `trim`. */
  lemma TrimNoWhitespace(s: string)
    requires forall i :: 0 <= i < |s| ==> !IsWhitespace(s[i])
    ensures Trim(s) == s
  {
    assert LeadingWhitespace(s) == 0;
    assert s[0..] == s;
    assert TrailingWhitespace(s) == 0;
  }

  /** `s.replace(a, [b])`: every `a` becomes `b`, every other character stays. */
  function Replace(s: string, a: char, b: char): (r: string)
    ensures |r| == |s|
    ensures forall i :: 0 <= i < |s| ==> r[i] == if s[i] == a then b else s[i]
  {
    if |s| == 0 then []
    else [if s[0] == a then b else s[0]] + Replace(s[1..], a, b)
  }

  /** `s.starts_with(t)`. */
  predicate StartsWith<T(==)>(s: seq<T>, t: seq<T>)
  {
    |t| <= |s| && s[..|t|] == t
  }

  /** `s.ends_with(t)`. */
  predicate EndsWith<T(==)>(s: seq<T>, t: seq<T>)
  {
    |t| <= |s| && s[|s| - |t|..] == t
  }

  predicate IsDigits(s: string)
  {
    forall i :: 0 <= i < |s| ==> '0' <= s[i] <= '9'
  }

  /** The number a string of decimal digits denotes. */
  function DecimalValue(s: string): nat
    requires IsDigits(s)
  {
    if |s| == 0 then 0
    else 10 * DecimalValue(s[..|s| - 1]) + (s[|s| - 1] as int - '0' as int)
  }

  function Digit(d: nat): (c: char)
    requires d < 10
    ensures '0' <= c <= '9' && c as int - '0' as int == d
  {
    ('0' as int + d) as char
  }

  /** `n.to_string()`: the shortest decimal rendering of `n`. */
  function NatToDecimal(n: nat): (r: string)
    ensures |r| >= 1 && IsDigits(r)
    ensures |r| == 1 || r[0] != '0'
    ensures DecimalValue(r) == n
    decreases n
  {
    if n < 10 then [Digit(n)]
    else
      var prefix := NatToDecimal(n / 10);
      var r := prefix + [Digit(n % 10)];
      assert r[..|r| - 1] == prefix;
      r
  }

  /** A number of three digits is rendered in exactly three characters. */
  lemma {:induction false} DecimalLength(n: nat)
    requires 100 <= n < 1000
    ensures |NatToDecimal(n)| == 3
  {
    assert NatToDecimal(n) == NatToDecimal(n / 10) + [Digit(n % 10)];
    assert NatToDecimal(n / 10) == NatToDecimal(n / 100) + [Digit(n / 10 % 10)];
  }
}
