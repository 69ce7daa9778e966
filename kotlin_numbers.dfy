/**
 * The number conversions the tactical core performs: `Int.toString()` (and
 * `"$n"` templates), `String.toInt()`, `Float.toInt()`, and the abstract
 * floating-point text conversions `Double.toString()`, `String.toDouble()`
 * and `String.toFloat()`.
 */
module KotlinNumbers {
  import opened KotlinText

  const IntMin: int := -0x8000_0000
  const IntMax: int := 0x7FFF_FFFF

  /** Kotlin `Int`. */
  type int32 = x: int | -0x8000_0000 <= x <= 0x7FFF_FFFF

  predicate IsDigit(c: char) {
    '0' <= c <= '9'
  }

  predicate AllDigits(s: string) {
    forall i :: 0 <= i < |s| ==> IsDigit(s[i])
  }

  function DigitChar(d: nat): (c: char)
    requires d < 10
    ensures IsDigit(c)
  {
    ('0' as int + d) as char
  }

  /** The value of a string of decimal digits, most significant first. */
  function DigitsValue(ds: string): nat
    requires AllDigits(ds)
    decreases |ds|
  {
    if ds == [] then 0
    else DigitsValue(ds[..|ds| - 1]) * 10 + (ds[|ds| - 1] as int - '0' as int)
  }

  /** Decimal rendering of a natural number, no leading zeros. */
  function NatToString(n: nat): (r: string)
    ensures r != [] && AllDigits(r)
    ensures r[0] == '0' ==> n == 0
    decreases n
  {
    if n < 10 then [DigitChar(n)] else NatToString(n / 10) + [DigitChar(n % 10)]
  }

  /** `Int.toString()`: a minus sign for negative values, then the digits. */
  function IntToString(n: int): (r: string)
    ensures r != []
    ensures '|' !in r
    ensures IsDigit(r[|r| - 1])
    ensures n >= 0 ==> AllDigits(r)
    ensures n < 0 ==> r[0] == '-' && AllDigits(r[1..])
  {
    if n < 0 then "-" + NatToString(-n) else NatToString(n)
  }

  /** The characters `toInt` reads as digits: everything after one leading sign. */
  function Unsigned(s: string): string {
    if s != [] && (s[0] == '-' || s[0] == '+') then s[1..] else s
  }

  /** `String.toInt()` (`Integer.parseInt`): an optional `+` or `-`, at least
      one digit, and a value in the 32-bit range; anything else fails. */
  function ToInt(s: string): (r: Option<int32>)
    ensures r.Some? ==> Unsigned(s) != [] && AllDigits(Unsigned(s))
    ensures r.Some? ==> (r.value < 0 ==> s[0] == '-')
    ensures s != [] && AllDigits(s) ==>
      (r.Some? <==> DigitsValue(s) <= IntMax) && (r.Some? ==> r.value == DigitsValue(s))
    ensures |s| > 1 && s[0] == '+' && AllDigits(s[1..]) ==>
      (r.Some? <==> DigitsValue(s[1..]) <= IntMax) && (r.Some? ==> r.value == DigitsValue(s[1..]))
    ensures |s| > 1 && s[0] == '-' && AllDigits(s[1..]) ==>
      (r.Some? <==> DigitsValue(s[1..]) <= -IntMin) && (r.Some? ==> r.value == -(DigitsValue(s[1..]) as int))
  {
    var digits := Unsigned(s);
    if digits == [] || !AllDigits(digits) then None
    else
      var magnitude: int := DigitsValue(digits);
      var v := if s[0] == '-' then -magnitude else magnitude;
      if IntMin <= v <= IntMax then Some(v) else None
  }

  lemma {:induction false} DigitsValueOfNat(n: nat)
    ensures DigitsValue(NatToString(n)) == n
    decreases n
  {
    if n >= 10 {
      var r := NatToString(n);
      DigitsValueOfNat(n / 10);
      assert r[..|r| - 1] == NatToString(n / 10);
    }
  }

  /** `toInt` reads back every value `toString` writes. */
  lemma ToIntOfIntToString(n: int32)
    ensures ToInt(IntToString(n)) == Some(n)
  {
    if n < 0 {
      DigitsValueOfNat(-(n as int));
      assert Unsigned(IntToString(n)) == NatToString(-(n as int));
    } else {
      DigitsValueOfNat(n);
    }
  }

  /** Truncation toward zero of a real number. */
  function Truncate(x: real): int {
    if x >= 0.0 then x.Floor else -((-x).Floor)
  }

  /** `Float.toInt()`: rounds toward zero and saturates at the ends of the `Int` range. */
  function FloatToInt(x: real): (r: int32)
    ensures IntMin as real <= x < IntMax as real + 1.0 ==>
      (x >= 0.0 ==> r as real <= x < r as real + 1.0) && (x < 0.0 ==> r as real - 1.0 < x <= r as real)
    ensures x >= IntMax as real ==> r == IntMax
    ensures x <= IntMin as real ==> r == IntMin
  {
    var t := Truncate(x);
    if t > IntMax then IntMax else if t < IntMin then IntMin else t
  }

  /**
   * The floating-point text conversions, which the model does not spell
   * out: `Double.toString()`, `String.toDouble()` and `String.toFloat()`.
   * The parsers are partial: `None` stands for the NumberFormatException.
   */
  datatype FloatText = FloatText(
    doubleToString: real -> string,
    toDouble: string -> Option<real>,
    toFloat: string -> Option<real>)

  /** `Double.toString()` never writes a `|`: its output is digits, a sign,
      a point, an exponent marker, or the words NaN and Infinity. */
  ghost predicate PipeFree(ft: FloatText) {
    forall x :: '|' !in ft.doubleToString(x)
  }

  /** Every integer of magnitude up to 2^24 is an exact `Float`. */
  const FloatExactBound: int := 0x100_0000

  /** The decimal text of every `Int` parses as a `Float`, and that of an
      integer of magnitude up to 2^24 parses as exactly that integer. */
  ghost predicate ParsesIntegers(ft: FloatText) {
    && (forall n :: IntMin <= n <= IntMax ==> ft.toFloat(IntToString(n)).Some?)
    && (forall n :: -FloatExactBound <= n <= FloatExactBound ==> ft.toFloat(IntToString(n)) == Some(n as real))
  }

  /** `toDouble` reads back what `Double.toString` wrote for the value `x`,
      which the JVM guarantees for every finite `Double`. */
  ghost predicate ReadsBack(ft: FloatText, x: real) {
    ft.toDouble(ft.doubleToString(x)) == Some(x)
  }

  /** The three assumptions can hold together for any two values. */
  lemma FloatTextAssumptionsMeetable(x: real, y: real)
    ensures exists ft :: PipeFree(ft) && ParsesIntegers(ft) && ReadsBack(ft, x) && ReadsBack(ft, y)
  {
    var ft := FloatText(
      v => if v == x then "1" else "2",
      text => if text == "1" then Some(x) else Some(y),
      text => Some(match ToInt(text) case Some(n) => n as real case None => 0.0));
    forall n | IntMin <= n <= IntMax ensures ft.toFloat(IntToString(n)) == Some(n as real) {
      ToIntOfIntToString(n);
    }
    assert PipeFree(ft) && ParsesIntegers(ft) && ReadsBack(ft, x) && ReadsBack(ft, y);
  }
}
