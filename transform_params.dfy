/** The integer query parameters of the image-transform handlers: a decimal fold over the
    characters of a value, and a first-match lookup by name. The fold computes with a 32-bit
    `int` and an 8-bit signed `char`; where the C++ arithmetic would overflow, its behaviour
    is undefined, and the model returns `None`. */
module TransformParams {
  import opened Wrappers
  import opened Decimal
  import opened UriParsing

  const MinInt32: int := -0x8000_0000
  const MaxInt32: int := 0x7FFF_FFFF

  /** The C++ `int`. */
  newtype Int32 = x: int | -0x8000_0000 <= x <= 0x7FFF_FFFF

  predicate InInt32(x: int) {
    MinInt32 <= x <= MaxInt32
  }

  /** The value of a byte read as a signed 8-bit `char`. */
  function CharCode(c: char): (v: int)
    ensures -128 <= v < 128
    ensures 0 <= c as int < 128 ==> v == c as int
  {
    var b := c as int % 256;
    if b < 128 then b else b - 256
  }

  /** One step of `sv_to_int`: `res * 10 + (c - '0')`, or `None` when a product or a sum
      leaves the range of `int`. */
  function ShiftIn(res: int, c: char): (r: Option<int>)
    ensures r.Some? ==> InInt32(r.value) && r.value == 10 * res + (CharCode(c) - '0' as int)
    ensures r.None? <==> !InInt32(10 * res) || !InInt32(10 * res + (CharCode(c) - '0' as int))
  {
    var product := res * 10;
    if !InInt32(product) then None
    else
      var sum := product + (CharCode(c) - '0' as int);
      if !InInt32(sum) then None else Some(sum)
  }

  /** What `sv_to_int` computes: the fold of `ShiftIn` over the characters, from zero. */
  function SvToIntOf(s: string): (r: Option<int>)
    ensures r.Some? ==> InInt32(r.value)
  {
    if s == [] then Some(0)
    else
      match SvToIntOf(s[..|s| - 1])
      case None => None
      case Some(res) => ShiftIn(res, s[|s| - 1])
  }

  /** `sv_to_int`: no check that the characters are digits. */
  method SvToInt(value: string) returns (r: Option<Int32>)
    ensures r.None? <==> SvToIntOf(value).None?
    ensures r.Some? ==> r.value as int == SvToIntOf(value).value
  {
    var res: Int32 := 0;
    for i := 0 to |value|
      invariant SvToIntOf(value[..i]) == Some(res as int)
    {
      assert value[..i + 1][..i] == value[..i];
      var product := res as int * 10;
      if !InInt32(product) {
        NoneSticks(value, i + 1);
        return None;
      }
      var sum := product + (CharCode(value[i]) - '0' as int);
      if !InInt32(sum) {
        NoneSticks(value, i + 1);
        return None;
      }
      res := sum as Int32;
    }
    assert value[..|value|] == value;
    return Some(res);
  }

  /** Once a prefix overflows, the whole string does. */
  lemma {:induction false} NoneSticks(s: string, i: nat)
    requires i <= |s| && SvToIntOf(s[..i]).None?
    ensures SvToIntOf(s).None?
    decreases |s| - i
  {
    if i < |s| {
      assert s[..i + 1][..i] == s[..i];
      NoneSticks(s, i + 1);
    } else {
      assert s[..i] == s;
    }
  }

  // ---------------------------------------------------------------------------------------
  // Properties of the fold

  /** The empty string gives zero, and each further character shifts in one decimal place,
      whether or not it is a digit. */
  lemma {:induction false} SvToIntSteps(s: string, c: char)
    ensures SvToIntOf([]) == Some(0)
    ensures SvToIntOf(s).Some? && InInt32(10 * SvToIntOf(s).value)
            && InInt32(10 * SvToIntOf(s).value + (CharCode(c) - '0' as int))
            ==> SvToIntOf(s + [c]) == Some(10 * SvToIntOf(s).value + (CharCode(c) - '0' as int))
  {
    assert (s + [c])[..|s + [c]| - 1] == s;
  }

  lemma {:induction false} DigitCode(c: char)
    requires IsDigit(c)
    ensures CharCode(c) - '0' as int == DigitValue(c)
  {}

  /** For a string of digits, `sv_to_int` is its decimal value exactly when that value fits
      in an `int`, and overflows otherwise. */
  lemma {:induction false} SvToIntOfDigits(s: string)
    requires AllDigits(s)
    ensures Value(s) <= MaxInt32 ==> SvToIntOf(s) == Some(Value(s))
    ensures Value(s) > MaxInt32 ==> SvToIntOf(s) == None
  {
    if s != [] {
      var init := s[..|s| - 1];
      var c := s[|s| - 1];
      assert AllDigits(init);
      SvToIntOfDigits(init);
      DigitCode(c);
      if Value(init) > MaxInt32 {
        assert Value(s) > MaxInt32;
      }
    }
  }

  // ---------------------------------------------------------------------------------------
  // Lookup by name

  /** The index of the first parameter named `name`, if any. */
  function FirstMatch(params: seq<UriParam>, name: string): (r: Option<nat>)
    ensures r.Some? ==> r.value < |params| && params[r.value].name == name
    ensures forall k :: 0 <= k < |params| && (r.None? || k < r.value) ==> params[k].name != name
  {
    if params == [] then None
    else if params[0].name == name then Some(0)
    else
      match FirstMatch(params[1..], name)
      case None => None
      case Some(k) => Some(k + 1)
  }

  /** What `get_param_int` returns: the first match's value through `sv_to_int`, or the
      default; `None` when that value overflows. */
  function ParamInt(uri: ParsedUri, name: string, defaultVal: Int32): (r: Option<int>)
    ensures r.Some? ==> InInt32(r.value)
    ensures r.None? ==> exists k :: 0 <= k < |uri.params| && uri.params[k].name == name
                                   && SvToIntOf(uri.params[k].value).None?
  {
    match FirstMatch(uri.params, name)
    case None => Some(defaultVal as int)
    case Some(k) => SvToIntOf(uri.params[k].value)
  }

  /** `get_param_int`: scans the parameters in order and returns at the first match. */
  method GetParamInt(uri: ParsedUri, name: string, defaultVal: Int32) returns (r: Option<Int32>)
    ensures r.None? <==> ParamInt(uri, name, defaultVal).None?
    ensures r.Some? ==> r.value as int == ParamInt(uri, name, defaultVal).value
  {
    for i := 0 to |uri.params|
      invariant forall k :: 0 <= k < i ==> uri.params[k].name != name
    {
      var p := uri.params[i];
      if p.name == name {
        r := SvToInt(p.value);
        return;
      }
    }
    return Some(defaultVal);
  }

  /** With no parameter of that name, the default comes back. */
  lemma {:induction false} DefaultWithoutMatch(uri: ParsedUri, name: string, defaultVal: Int32)
    requires forall k :: 0 <= k < |uri.params| ==> uri.params[k].name != name
    ensures ParamInt(uri, name, defaultVal) == Some(defaultVal as int)
  {}

  /** The first parameter of that name decides, and later duplicates are ignored. */
  lemma {:induction false} FirstMatchDecides(ps: seq<UriParam>, qs: seq<UriParam>, name: string)
    requires exists k :: 0 <= k < |ps| && ps[k].name == name
    ensures FirstMatch(ps + qs, name) == FirstMatch(ps, name)
  {
    if ps[0].name != name {
      assert (ps + qs)[1..] == ps[1..] + qs;
      var k :| 0 <= k < |ps| && ps[k].name == name;
      assert ps[1..][k - 1].name == name;
      FirstMatchDecides(ps[1..], qs, name);
    }
  }

  /** Hence the value of a parameter is not changed by parameters appended after it. */
  lemma {:induction false} LaterDuplicatesIgnored(uri: ParsedUri, more: seq<UriParam>, name: string, defaultVal: Int32)
    requires exists k :: 0 <= k < |uri.params| && uri.params[k].name == name
    ensures ParamInt(uri.(params := uri.params + more), name, defaultVal)
            == ParamInt(uri, name, defaultVal)
  {
    FirstMatchDecides(uri.params, more, name);
    var k := FirstMatch(uri.params, name).value;
    assert (uri.params + more)[k] == uri.params[k];
  }
}
