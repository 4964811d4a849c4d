/** Strings as sequences of Unicode scalar values, and the handful of string
    operations of the source's standard library that the core relies on. */
module Text {
  import opened Base

  /** The format sentinel `§` (U+00A7). */
  const SECTION: char := '\U{A7}'

  function Repeat(s: string, n: nat): (r: string)
    ensures |r| == n * |s|
  {
    if n == 0 then [] else s + Repeat(s, n - 1)
  }

  function Spaces(n: nat): (r: string)
    ensures |r| == n && forall k :: 0 <= k < n ==> r[k] == ' '
  {
    if n == 0 then [] else [' '] + Spaces(n - 1)
  }

  /** Concatenation of a sequence of strings. */
  function Flatten(ss: seq<string>): (r: string)
    ensures ss == [] ==> r == []
  {
    if ss == [] then [] else Flatten(ss[..|ss| - 1]) + ss[|ss| - 1]
  }

  lemma FlattenAppend(ss: seq<string>, s: string)
    ensures Flatten(ss + [s]) == Flatten(ss) + s
  {
    assert (ss + [s])[..|ss|] == ss;
  }

  /** Number of occurrences of `c` in `s`. */
  function Count(s: string, c: char): (n: nat)
    ensures n <= |s|
    ensures n == 0 <==> c !in s
  {
    if s == [] then 0 else (if s[0] == c then 1 else 0) + Count(s[1..], c)
  }

  /** `s` with every occurrence of `c` removed. */
  function Remove(s: string, c: char): string
  {
    if s == [] then [] else (if s[0] == c then [] else [s[0]]) + Remove(s[1..], c)
  }

  /** Removing `c` leaves no `c` and drops exactly its occurrences. */
  lemma {:induction false} RemoveDrops(s: string, c: char)
    ensures c !in Remove(s, c) && |Remove(s, c)| == |s| - Count(s, c)
  {
    if s != [] {
      RemoveDrops(s[1..], c);
    }
  }

  lemma {:induction false} RemoveAppend(s: string, t: string, c: char)
    ensures Remove(s + t, c) == Remove(s, c) + Remove(t, c)
  {
    if s != [] {
      var head := if s[0] == c then [] else [s[0]];
      assert (s + t)[0] == s[0] && (s + t)[1..] == s[1..] + t;
      RemoveAppend(s[1..], t, c);
      assert Remove(s + t, c) == head + (Remove(s[1..], c) + Remove(t, c));
      assert head + (Remove(s[1..], c) + Remove(t, c)) == (head + Remove(s[1..], c)) + Remove(t, c);
    } else {
      assert s + t == t;
    }
  }

  /** Position of the first `c` in `s`. */
  function IndexOfChar(s: string, c: char): (r: Option<nat>)
    ensures r.None? <==> c !in s
    ensures r.Some? ==> r.value < |s| && s[r.value] == c && c !in s[..r.value]
  {
    if s == [] then None
    else if s[0] == c then Some(0)
    else match IndexOfChar(s[1..], c)
      case None => None
      case Some(k) => Some(k + 1)
  }

  /** `str::split` on one character: always at least one piece. */
  function SplitOn(s: string, sep: char): (r: seq<string>)
    ensures |r| >= 1
    ensures forall k :: 0 <= k < |r| ==> sep !in r[k]
    decreases |s|
  {
    match IndexOfChar(s, sep)
    case None => [s]
    case Some(k) => [s[..k]] + SplitOn(s[k + 1..], sep)
  }

  /** `slice::join` with a one-character separator. */
  function Join(ss: seq<string>, sep: char): (r: string)
  {
    if |ss| == 0 then []
    else if |ss| == 1 then ss[0]
    else ss[0] + [sep] + Join(ss[1..], sep)
  }

  lemma {:induction false} SplitCount(s: string, sep: char)
    ensures |SplitOn(s, sep)| == Count(s, sep) + 1
    decreases |s|
  {
    match IndexOfChar(s, sep)
    case None =>
    case Some(k) =>
      SplitCount(s[k + 1..], sep);
      CountSplit(s, k, sep);
  }

  lemma {:induction false} CountSplit(s: string, k: nat, sep: char)
    requires k < |s| && s[k] == sep && sep !in s[..k]
    ensures Count(s, sep) == 1 + Count(s[k + 1..], sep)
  {
    if k > 0 {
      assert s[1..][..k - 1] == s[1..k];
      assert sep !in s[1..][..k - 1];
      CountSplit(s[1..], k - 1, sep);
      assert s[1..][k..] == s[k + 1..];
    }
  }

  /** Splitting reverses joining when no piece holds the separator. */
  lemma {:induction false} SplitJoin(ss: seq<string>, sep: char)
    requires |ss| >= 1 && forall k :: 0 <= k < |ss| ==> sep !in ss[k]
    ensures SplitOn(Join(ss, sep), sep) == ss
  {
    if |ss| == 1 {
      assert IndexOfChar(ss[0], sep).None?;
    } else {
      var j := Join(ss, sep);
      var rest := Join(ss[1..], sep);
      assert j == ss[0] + [sep] + rest;
      IndexAfterPrefix(ss[0], rest, sep);
      assert j[..|ss[0]|] == ss[0];
      assert j[|ss[0]| + 1..] == rest;
      SplitJoin(ss[1..], sep);
    }
  }

  lemma IndexAfterPrefix(p: string, rest: string, sep: char)
    requires sep !in p
    ensures IndexOfChar(p + [sep] + rest, sep) == Some(|p|)
  {
    var s := p + [sep] + rest;
    assert s[..|p|] == p;
    assert s[|p|] == sep;
    assert forall j :: 0 <= j < |p| ==> s[j] == p[j];
  }

  /** `str::lines`: pieces ended by `'\n'`, a `'\r'` just before the `'\n'`
      dropped, and no empty piece after a final `'\n'`. */
  function Lines(s: string): (r: seq<string>)
    ensures s == [] <==> r == []
    ensures forall k :: 0 <= k < |r| ==> '\n' !in r[k]
    decreases |s|
  {
    if s == [] then []
    else match IndexOfChar(s, '\n')
      case None => [s]
      case Some(k) =>
        var line := if k > 0 && s[k - 1] == '\r' then s[..k - 1] else s[..k];
        [line] + Lines(s[k + 1..])
  }

  /** `pat` occurs in `s` at position `j`. */
  predicate MatchAt(s: string, pat: string, j: int)
  {
    0 <= j && j + |pat| <= |s| && s[j..j + |pat|] == pat
  }

  /** Position of the first occurrence of `pat` in `s`, searching from `from`. */
  function FindFrom(s: string, pat: string, from: nat): (r: Option<nat>)
    requires from <= |s|
    ensures r.Some? ==> from <= r.value && MatchAt(s, pat, r.value)
    ensures forall j :: from <= j && (r.None? || j < r.value) ==> !MatchAt(s, pat, j)
    decreases |s| - from
  {
    if from + |pat| > |s| then None
    else if MatchAt(s, pat, from) then Some(from)
    else FindFrom(s, pat, from + 1)
  }

  /** `str::find`: the leftmost occurrence of `pat`, which is also where
      `str::contains` succeeds and where `str::splitn(2, pat)` cuts. */
  function Find(s: string, pat: string): (r: Option<nat>)
    ensures r.Some? ==> MatchAt(s, pat, r.value)
    ensures forall j :: 0 <= j && (r.None? || j < r.value) ==> !MatchAt(s, pat, j)
  {
    FindFrom(s, pat, 0)
  }

  predicate Contains(s: string, pat: string)
  {
    Find(s, pat).Some?
  }

  /** Decimal digits of a natural number, as `format!("{}", n)` writes them. */
  function NatToString(n: nat): (r: string)
    ensures |r| >= 1 && forall k :: 0 <= k < |r| ==> '0' <= r[k] <= '9'
  {
    var d := [(('0' as int) + n % 10) as char];
    if n < 10 then d else NatToString(n / 10) + d
  }

  /** The characters `char::is_whitespace` accepts (Unicode White_Space). */
  predicate IsWhitespace(c: char)
  {
    var n := c as int;
    (0x09 <= n <= 0x0D) || n == 0x20 || n == 0x85 || n == 0xA0 || n == 0x1680
    || (0x2000 <= n <= 0x200A) || n == 0x2028 || n == 0x2029 || n == 0x202F
    || n == 0x205F || n == 0x3000
  }

  /** `s.trim().is_empty()`. */
  predicate AllWhitespace(s: string)
  {
    forall k :: 0 <= k < |s| ==> IsWhitespace(s[k])
  }
}
