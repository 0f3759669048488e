/** Decimal digit strings: their value, the canonical rendering of a number, and the model of
    `std::stoull(s)` (base 10) that the request parser applies to `content-length`. */
module Decimal {
  import opened Wrappers

  /** The largest `unsigned long long` (and `size_t`) value on a 64-bit target. */
  const MaxU64: nat := 0xFFFF_FFFF_FFFF_FFFF

  predicate IsDigit(c: char) {
    '0' <= c <= '9'
  }

  predicate AllDigits(s: string) {
    forall i :: 0 <= i < |s| ==> IsDigit(s[i])
  }

  function DigitValue(c: char): (d: nat)
    requires IsDigit(c)
    ensures d < 10
  {
    c as int - '0' as int
  }

  function DigitChar(d: nat): (c: char)
    requires d < 10
    ensures IsDigit(c) && DigitValue(c) == d
  {
    ('0' as int + d) as char
  }

  /** The number a string of decimal digits denotes, read left to right. */
  function Value(s: string): nat
    requires AllDigits(s)
  {
    if s == [] then 0 else 10 * Value(s[..|s| - 1]) + DigitValue(s[|s| - 1])
  }

  /** The shortest decimal rendering of `n` (no leading zeros). */
  function Show(n: nat): (s: string)
    ensures |s| >= 1 && AllDigits(s)
  {
    if n < 10 then [DigitChar(n)] else Show(n / 10) + [DigitChar(n % 10)]
  }

  /** Reading back a rendered number gives the number. */
  lemma {:induction false} ValueOfShow(n: nat)
    ensures Value(Show(n)) == n
  {
    if n >= 10 {
      var s := Show(n);
      assert s[..|s| - 1] == Show(n / 10);
      ValueOfShow(n / 10);
    }
  }

  /** Distinct numbers have distinct renderings. */
  lemma {:induction false} ShowInjective(m: nat, n: nat)
    requires Show(m) == Show(n)
    ensures m == n
  {
    ValueOfShow(m);
    ValueOfShow(n);
  }

  /** `isspace` in the "C" locale: space, and the controls HT, LF, VT, FF, CR. */
  predicate IsSpace(c: char) {
    c == ' ' || 9 <= c as int <= 13
  }

  /** The length of the leading run of characters satisfying `IsSpace`. */
  function SpaceRun(s: string): (r: nat)
    ensures r <= |s|
    ensures forall k :: 0 <= k < r ==> IsSpace(s[k])
    ensures r < |s| ==> !IsSpace(s[r])
  {
    if s == [] || !IsSpace(s[0]) then 0 else 1 + SpaceRun(s[1..])
  }

  /** The length of the leading run of decimal digits. */
  function DigitRun(s: string): (r: nat)
    ensures r <= |s| && AllDigits(s[..r])
    ensures r < |s| ==> !IsDigit(s[r])
  {
    if s == [] || !IsDigit(s[0]) then 0
    else
      var r := 1 + DigitRun(s[1..]);
      assert s[..r] == [s[0]] + s[1..][..r - 1];
      r
  }

  /** The two exceptions `std::stoull` throws. */
  datatype StoullError =
    | InvalidArgument   // std::invalid_argument: no digits to convert
    | OutOfRange        // std::out_of_range: the magnitude exceeds MaxU64

  /** `std::stoull(s)`, i.e. `strtoull(s, &end, 10)` plus the two checks that turn its failure
      modes into exceptions: leading white space is skipped, one optional sign is accepted, the
      longest run of digits is converted and whatever follows it is ignored; a minus sign negates
      modulo 2^64. */
  function Stoull(s: string): (r: Result<nat, StoullError>)
    ensures r.Ok? ==> r.value <= MaxU64
    ensures r == Err(InvalidArgument) <==> DigitRun(Unsigned(s[SpaceRun(s)..])) == 0
  {
    var t := s[SpaceRun(s)..];
    var u := Unsigned(t);
    var d := u[..DigitRun(u)];
    if d == [] then Err(InvalidArgument)
    else if Value(d) > MaxU64 then Err(OutOfRange)
    else if |t| > 0 && t[0] == '-' && Value(d) > 0 then Ok(MaxU64 + 1 - Value(d))
    else Ok(Value(d))
  }

  /** `t` without its leading sign, if it has one. */
  function Unsigned(t: string): (u: string)
    ensures u == t || (|t| > 0 && (t[0] == '+' || t[0] == '-') && u == t[1..])
  {
    if |t| > 0 && (t[0] == '+' || t[0] == '-') then t[1..] else t
  }

  /** On a plain digit string, `Stoull` is the decimal value, or out of range above MaxU64. */
  lemma {:induction false} StoullOfDigits(d: string)
    requires d != [] && AllDigits(d)
    ensures Stoull(d) == if Value(d) <= MaxU64 then Ok(Value(d)) else Err(OutOfRange)
  {
    assert SpaceRun(d) == 0;
    assert d[0..] == d;
    DigitRunOfDigits(d);
    assert d[..|d|] == d;
  }

  lemma {:induction false} DigitRunOfDigits(d: string)
    requires AllDigits(d)
    ensures DigitRun(d) == |d|
  {
    if d != [] {
      DigitRunOfDigits(d[1..]);
    }
  }

  /** `Stoull` inverts `Show` on the whole range of `unsigned long long`. */
  lemma {:induction false} StoullOfShow(n: nat)
    requires n <= MaxU64
    ensures Stoull(Show(n)) == Ok(n)
  {
    StoullOfDigits(Show(n));
    ValueOfShow(n);
  }
}
