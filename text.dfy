/** The string operations of `std::string_view` that the HTTP layer relies on:
    searching forwards and backwards, counting, concatenating and ASCII lower-casing. */
module Text {
  import opened Wrappers

  const CRLF: string := "\r\n"

  /** `pat` occurs in `s` starting at index `i`. */
  predicate OccursAt(s: string, pat: string, i: int) {
    0 <= i && i + |pat| <= |s| && s[i..i + |pat|] == pat
  }

  /** `pat` occurs nowhere in `s`. */
  predicate Free(s: string, pat: string) {
    forall i :: 0 <= i <= |s| ==> !OccursAt(s, pat, i)
  }

  /** `s.find(pat, from)`: the first index at or after `from` where `pat` occurs. */
  function FindFrom(s: string, pat: string, from: nat): (r: Option<nat>)
    ensures r.Some? ==> from <= r.value && OccursAt(s, pat, r.value)
    ensures forall i :: from <= i && (r.None? || i < r.value) ==> !OccursAt(s, pat, i)
    decreases |s| - from
  {
    if from + |pat| > |s| then None
    else if s[from..from + |pat|] == pat then Some(from)
    else FindFrom(s, pat, from + 1)
  }

  /** `s.find(c)`: the first index of `c` in `s`. */
  function FindChar(s: string, c: char): (r: Option<nat>)
    ensures r.Some? ==> r.value < |s| && s[r.value] == c && c !in s[..r.value]
    ensures r.None? ==> c !in s
  {
    if s == [] then None
    else if s[0] == c then Some(0)
    else match FindChar(s[1..], c)
      case None => None
      case Some(i) =>
        assert s[..i + 1] == [s[0]] + s[1..][..i];
        Some(i + 1)
  }

  /** `s.find(c, from)`. */
  function FindCharFrom(s: string, c: char, from: nat): (r: Option<nat>)
    requires from <= |s|
    ensures r.Some? ==> from <= r.value < |s| && s[r.value] == c && c !in s[from..r.value]
    ensures r.None? ==> c !in s[from..]
  {
    match FindChar(s[from..], c)
    case None => None
    case Some(i) =>
      assert s[from..from + i] == s[from..][..i];
      Some(from + i)
  }

  /** `std::min(s.find(c), s.size())`: the first index of `c`, or the length of `s` when
      `c` does not occur. */
  function IndexOrEnd(s: string, c: char): (r: nat)
    ensures r <= |s| && c !in s[..r]
    ensures r < |s| ==> s[r] == c
  {
    match FindChar(s, c)
    case None => assert s[..|s|] == s; |s|
    case Some(i) => i
  }

  /** `s.rfind(c)`: the last index of `c` in `s`. */
  function FindLastChar(s: string, c: char): (r: Option<nat>)
    ensures r.Some? ==> r.value < |s| && s[r.value] == c && c !in s[r.value + 1..]
    ensures r.None? ==> c !in s
  {
    if s == [] then None
    else if s[|s| - 1] == c then Some(|s| - 1)
    else match FindLastChar(s[..|s| - 1], c)
      case None => None
      case Some(i) =>
        assert s[i + 1..] == s[..|s| - 1][i + 1..] + [s[|s| - 1]];
        Some(i)
  }

  /** `std::min(s.find_first_not_of(c), s.size())`: the length of the leading run of `c`. */
  function LeadingRun(s: string, c: char): (r: nat)
    ensures r <= |s|
    ensures forall k :: 0 <= k < r ==> s[k] == c
    ensures r < |s| ==> s[r] != c
  {
    if s == [] || s[0] != c then 0 else 1 + LeadingRun(s[1..], c)
  }

  /** `IndexOrEnd` finds the first occurrence. */
  lemma {:induction false} IndexOrEndAt(s: string, c: char, k: nat)
    requires k < |s| && s[k] == c && c !in s[..k]
    ensures IndexOrEnd(s, c) == k
  {
  }

  /** `FindChar` finds the first occurrence. */
  lemma {:induction false} FindCharAt(s: string, c: char, k: nat)
    requires k < |s| && s[k] == c && c !in s[..k]
    ensures FindChar(s, c) == Some(k)
  {
    assert s[k] in s;
  }

  /** `FindLastChar` finds the last occurrence. */
  lemma {:induction false} FindLastCharAt(s: string, c: char, k: nat)
    requires k < |s| && s[k] == c && c !in s[k + 1..]
    ensures FindLastChar(s, c) == Some(k)
  {
  }

  /** A run of `c` followed by something else is exactly as long as the run. */
  lemma {:induction false} LeadingRunAt(run: string, w: string, c: char)
    requires forall k :: 0 <= k < |run| ==> run[k] == c
    requires w == [] || w[0] != c
    ensures LeadingRun(run + w, c) == |run|
  {
    if run == [] {
      assert run + w == w;
    } else {
      assert (run + w)[0] == c;
      assert (run + w)[1..] == run[1..] + w;
      LeadingRunAt(run[1..], w, c);
    }
  }

  lemma {:induction false} SliceOfSlice(s: string, a: nat, b: nat, c: nat, d: nat)
    requires a <= b <= |s| && c <= d <= b - a
    ensures s[a..b][c..d] == s[a + c..a + d]
  {
    var x, y := s[a..b][c..d], s[a + c..a + d];
    forall k | 0 <= k < |x|
      ensures x[k] == y[k]
    {
    }
  }

  /** A slice holds no occurrence of `pat` when none starts inside it. */
  lemma {:induction false} FreeSlice(s: string, pat: string, a: nat, b: nat)
    requires pat != [] && a <= b <= |s|
    requires forall i :: a <= i < b ==> !OccursAt(s, pat, i)
    ensures Free(s[a..b], pat)
  {
    var t := s[a..b];
    forall j | 0 <= j <= |t|
      ensures !OccursAt(t, pat, j)
    {
      if j + |pat| <= |t| {
        SliceOfSlice(s, a, b, j, j + |pat|);
        assert !OccursAt(s, pat, a + j);
      }
    }
  }

  /** `FindFrom` finds the first occurrence at or after `from`. */
  lemma {:induction false} FindFromAt(s: string, pat: string, from: nat, i: nat)
    requires from <= i && OccursAt(s, pat, i)
    requires forall j :: from <= j < i ==> !OccursAt(s, pat, j)
    ensures FindFrom(s, pat, from) == Some(i)
  {
  }

  /** `FindFrom` finds nothing when no occurrence starts at or after `from`. */
  lemma {:induction false} FindFromNone(s: string, pat: string, from: nat)
    requires forall j :: from <= j <= |s| ==> !OccursAt(s, pat, j)
    ensures FindFrom(s, pat, from) == None
    decreases |s| - from
  {
    if from + |pat| <= |s| {
      assert !OccursAt(s, pat, from);
      FindFromNone(s, pat, from + 1);
    }
  }

  /** `FindFrom` from 0 finds the first occurrence. */
  lemma {:induction false} FindFromFirst(s: string, pat: string, i: nat)
    requires OccursAt(s, pat, i)
    requires forall j :: 0 <= j < i ==> !OccursAt(s, pat, j)
    ensures FindFrom(s, pat, 0) == Some(i)
  {
  }

  /** The first CRLF of `line + CRLF + rest` ends `line` when `line` holds none. */
  lemma {:induction false} FirstCrlfAfter(line: string, rest: string)
    requires Free(line, CRLF)
    ensures FindFrom(line + CRLF + rest, CRLF, 0) == Some(|line|)
  {
    var s := line + CRLF + rest;
    assert s[|line|..|line| + 2] == CRLF;
    forall j | 0 <= j < |line|
      ensures !OccursAt(s, CRLF, j)
    {
      if j + 2 <= |line| {
        assert s[j..j + 2] == line[j..j + 2];
        assert !OccursAt(line, CRLF, j);
      } else {
        assert s[j + 1] == '\r';
      }
    }
    FindFromFirst(s, CRLF, |line|);
  }

  /** The number of occurrences of `c` in `s`. */
  function Count(s: string, c: char): nat {
    if s == [] then 0 else (if s[0] == c then 1 else 0) + Count(s[1..], c)
  }

  lemma {:induction false} CountAppend(a: string, b: string, c: char)
    ensures Count(a + b, c) == Count(a, c) + Count(b, c)
  {
    if a != [] {
      assert (a + b)[1..] == a[1..] + b;
      CountAppend(a[1..], b, c);
    } else {
      assert a + b == b;
    }
  }

  /** The concatenation of a list of strings, as a stream would carry them one after another. */
  function Concat(ss: seq<string>): string {
    if ss == [] then [] else ss[0] + Concat(ss[1..])
  }

  lemma {:induction false} ConcatAppend(xs: seq<string>, ys: seq<string>)
    ensures Concat(xs + ys) == Concat(xs) + Concat(ys)
  {
    if xs == [] {
      assert xs + ys == ys;
    } else {
      assert (xs + ys)[1..] == xs[1..] + ys;
      ConcatAppend(xs[1..], ys);
    }
  }

  /** `std::tolower` in the "C" locale: only 'A'..'Z' change. */
  function LowerChar(c: char): (d: char)
    ensures 'A' <= c <= 'Z' ==> 'a' <= d <= 'z' && d as int - c as int == 'a' as int - 'A' as int
    ensures !('A' <= c <= 'Z') ==> d == c
  {
    if 'A' <= c <= 'Z' then (c as int - 'A' as int + 'a' as int) as char else c
  }

  /** `std::transform(..., std::tolower)` over a whole string. */
  function ToLower(s: string): (r: string)
    ensures |r| == |s|
    ensures forall i :: 0 <= i < |s| ==> r[i] == LowerChar(s[i])
  {
    seq(|s|, i requires 0 <= i < |s| => LowerChar(s[i]))
  }

  /** Two characters that are the same letter in either ASCII case, or the same character. */
  predicate SameIgnoringCase(c: char, d: char) {
    c == d
    || ('A' <= c <= 'Z' && d as int == c as int + ('a' as int - 'A' as int))
    || ('A' <= d <= 'Z' && c as int == d as int + ('a' as int - 'A' as int))
  }

  /** Two strings that differ at most in the ASCII case of their letters. */
  predicate EqualIgnoringCase(a: string, b: string) {
    |a| == |b| && forall i :: 0 <= i < |a| ==> SameIgnoringCase(a[i], b[i])
  }

  /** Two characters lower-case alike exactly when they differ at most in ASCII case. */
  lemma {:induction false} LowerCharCaseInsensitive(c: char, d: char)
    ensures LowerChar(c) == LowerChar(d) <==> SameIgnoringCase(c, d)
  {
  }

  /** Two strings lower-case alike exactly when they differ at most in ASCII case, so a
      comparison of lower-cased names ignores the case of their letters. */
  lemma {:induction false} ToLowerCaseInsensitive(a: string, b: string)
    ensures ToLower(a) == ToLower(b) <==> EqualIgnoringCase(a, b)
  {
    if ToLower(a) == ToLower(b) {
      forall i | 0 <= i < |a|
        ensures SameIgnoringCase(a[i], b[i])
      {
        assert ToLower(a)[i] == ToLower(b)[i];
        LowerCharCaseInsensitive(a[i], b[i]);
      }
    }
    if EqualIgnoringCase(a, b) {
      forall i | 0 <= i < |a|
        ensures ToLower(a)[i] == ToLower(b)[i]
      {
        LowerCharCaseInsensitive(a[i], b[i]);
      }
    }
  }

  /** Lower-casing leaves no upper-case letter, and changes nothing the second time. */
  lemma {:induction false} ToLowerIdempotent(s: string)
    ensures forall i :: 0 <= i < |s| ==> !('A' <= ToLower(s)[i] <= 'Z')
    ensures ToLower(ToLower(s)) == ToLower(s)
  {
  }
}
