/** The numeric conversions the scan parser applies to captured digit runs:
    Rust's `str::parse` into `u8`/`u16`, and the `f64` detours for signal
    strength and last-seen age, done here in exact integer arithmetic. */
module Numeric {
  import opened Wrappers
  import opened Text

  const U8_MAX: int := 0xFF
  const U16_MAX: int := 0xFFFF
  const I32_MIN: int := -0x8000_0000
  const I32_MAX: int := 0x7FFF_FFFF
  const U64_MAX: int := 0xFFFF_FFFF_FFFF_FFFF

  type u8 = n: int | 0 <= n <= 0xFF
  type u16 = n: int | 0 <= n <= 0xFFFF
  type i32 = n: int | -0x8000_0000 <= n <= 0x7FFF_FFFF
  type u64 = n: int | 0 <= n <= 0xFFFF_FFFF_FFFF_FFFF

  function Pow10(k: nat): (r: nat)
    ensures r >= 1
  {
    if k == 0 then 1 else 10 * Pow10(k - 1)
  }

  function DigitValue(c: char): (v: nat)
    requires IsAsciiDigit(c)
    ensures v <= 9
  {
    c as int - '0' as int
  }

  /** The value of a string of ASCII decimal digits, most significant first
      (the empty string has value 0). */
  function DigitsValue(d: string): (v: nat)
    requires AllDigits(d)
    ensures v < Pow10(|d|)
  {
    if d == [] then 0 else DigitsValue(d[..|d| - 1]) * 10 + DigitValue(d[|d| - 1])
  }

  /** The canonical decimal rendering of `n`: no leading zero except for 0
      itself. */
  function Render(n: nat): (d: string)
    ensures d != [] && AllDigits(d)
    ensures d[0] == '0' ==> n == 0
  {
    var last := ['0' + (n % 10) as char];
    if n < 10 then last
    else
      var front := Render(n / 10);
      assert (front + last)[0] == front[0];
      front + last
  }

  /** Reading back a rendered number gives the number. */
  lemma {:induction false} DigitsValueOfRender(n: nat)
    ensures DigitsValue(Render(n)) == n
  {
    var d := Render(n);
    if n >= 10 {
      DigitsValueOfRender(n / 10);
      assert d[..|d| - 1] == Render(n / 10);
    }
  }

  /** Leading zeros do not change the value: "00042" reads as 42. */
  lemma {:induction false} DigitsValueOfZeroPadded(zeros: nat, d: string)
    requires AllDigits(d)
    ensures AllDigits(seq(zeros, _ => '0') + d)
    ensures DigitsValue(seq(zeros, _ => '0') + d) == DigitsValue(d)
    decreases |d|
  {
    var z := seq(zeros, _ => '0');
    if d == [] {
      assert z + d == z;
      AllZerosValue(z);
    } else {
      assert (z + d)[..|z + d| - 1] == z + d[..|d| - 1];
      DigitsValueOfZeroPadded(zeros, d[..|d| - 1]);
    }
  }

  lemma {:induction false} AllZerosValue(z: string)
    requires forall i :: 0 <= i < |z| ==> z[i] == '0'
    ensures AllDigits(z) && DigitsValue(z) == 0
  {
    if z != [] {
      AllZerosValue(z[..|z| - 1]);
    }
  }

  /** `str::parse::<uN>()` on a non-empty run of ASCII digits: the value when
      it fits below `max`, and the overflow error (`None`) otherwise.  Leading
      zeros are accepted. */
  function ParseUnsigned(d: string, max: nat): (r: Option<nat>)
    requires d != [] && AllDigits(d)
    ensures r.Some? <==> DigitsValue(d) <= max
    ensures r.Some? ==> r.value == DigitsValue(d) && r.value <= max
  {
    var v := DigitsValue(d);
    if v <= max then Some(v) else None
  }

  /** Parsing the rendering of any number succeeds exactly when the number
      fits, and then gives that number back. */
  lemma ParseUnsignedOfRender(n: nat, max: nat)
    ensures ParseUnsigned(Render(n), max) == if n <= max then Some(n) else None
  {
    DigitsValueOfRender(n);
  }

  /** The frequency field: `parse::<u16>().unwrap_or(0)`. */
  function Frequency(d: string): (mhz: u16)
    requires d != [] && AllDigits(d)
    ensures mhz != 0 ==> mhz == DigitsValue(d)
    ensures DigitsValue(d) <= U16_MAX ==> mhz == DigitsValue(d)
    ensures DigitsValue(d) > U16_MAX ==> mhz == 0
  {
    match ParseUnsigned(d, U16_MAX)
    case Some(v) => v
    case None => 0
  }

  /** The channel field: `parse::<u8>().ok()`. */
  function Channel(d: string): (ch: Option<u8>)
    requires d != [] && AllDigits(d)
    ensures ch.Some? <==> DigitsValue(d) <= U8_MAX
    ensures ch.Some? ==> ch.value == DigitsValue(d)
  {
    match ParseUnsigned(d, U8_MAX)
    case Some(v) => Some(v)
    case None => None
  }

  /** A decimal number as the signal pattern captures it: an optional minus
      sign, the whole digits and the (possibly empty) fraction digits. */
  datatype Decimal = Decimal(negative: bool, whole: string, fraction: string) {
    predicate Valid() {
      whole != [] && AllDigits(whole) && AllDigits(fraction)
    }

    /** Magnitude scaled by 10^|fraction|, so that the exact value is
        (-1 if negative) * Scaled() / 10^|fraction|. */
    function Scaled(): nat
      requires Valid()
    {
      DigitsValue(whole) * Pow10(|fraction|) + DigitsValue(fraction)
    }
  }

  /** `t` is the truncation toward zero of the magnitude of `x`. */
  predicate TruncatesTo(x: Decimal, t: nat)
    requires x.Valid()
  {
    t * Pow10(|x.fraction|) <= x.Scaled() < (t + 1) * Pow10(|x.fraction|)
  }

  /** The magnitude of `x` is at least `m`. */
  predicate Reaches(x: Decimal, m: nat)
    requires x.Valid()
  {
    x.Scaled() >= m * Pow10(|x.fraction|)
  }

  /** `parse::<f64>()` followed by `as i32`: truncation toward zero of the
      exact value, saturating at the bounds of `i32`. */
  function TruncateToI32(x: Decimal): (r: i32)
    requires x.Valid()
    ensures !x.negative ==>
      if Reaches(x, I32_MAX) then r == I32_MAX else r >= 0 && TruncatesTo(x, r)
    ensures x.negative ==>
      if Reaches(x, -I32_MIN) then r == I32_MIN else r <= 0 && TruncatesTo(x, -(r as int))
  {
    var w := DigitsValue(x.whole);
    WholeIsTruncation(x, I32_MAX);
    WholeIsTruncation(x, -I32_MIN);
    if x.negative then (if w >= -I32_MIN then I32_MIN else -(w as int))
    else (if w >= I32_MAX then I32_MAX else w)
  }

  /** The whole digits are the truncation of the magnitude, and the
      magnitude reaches `m` exactly when the whole part does. */
  lemma WholeIsTruncation(x: Decimal, m: nat)
    requires x.Valid()
    ensures TruncatesTo(x, DigitsValue(x.whole))
    ensures Reaches(x, m) <==> DigitsValue(x.whole) >= m
  {
    TruncationBounds(DigitsValue(x.whole), DigitsValue(x.fraction), Pow10(|x.fraction|), m);
  }

  /** For 0 <= f < scale: w is the truncation of (w * scale + f) / scale, and
      that value reaches m exactly when w does. */
  lemma TruncationBounds(w: nat, f: nat, scale: nat, m: nat)
    requires f < scale
    ensures w * scale <= w * scale + f < (w + 1) * scale
    ensures w * scale + f >= m * scale <==> w >= m
  {
    assert (w + 1) * scale == w * scale + scale;
    if w >= m {
      MulMonotone(m, w, scale);
    } else {
      MulMonotone(w + 1, m, scale);
    }
  }

  lemma MulMonotone(a: nat, b: nat, c: nat)
    requires a <= b
    ensures a * c <= b * c
  {
    assert b * c == a * c + (b - a) * c;
  }

  /** The last-seen field: the captured count times 1000 (`f64` product, then
      a saturating `as u64`). */
  function AgeMs(d: string): (ms: u64)
    requires d != [] && AllDigits(d)
    ensures DigitsValue(d) <= U64_MAX / 1000 ==> ms % 1000 == 0 && ms / 1000 == DigitsValue(d)
    ensures DigitsValue(d) > U64_MAX / 1000 ==> ms == U64_MAX
  {
    var n := DigitsValue(d);
    if n * 1000 <= U64_MAX then n * 1000 else U64_MAX
  }
}
