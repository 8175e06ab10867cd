/** Numbers and their text, as lib/cJSON.c prints them. Its doubles are real numbers here. */
module JsonNumber {
  import opened Arith
  import opened Bytes

  const MINUS: Byte := 45
  const PLUS: Byte := 43
  const POINT: Byte := 46
  const INT_MIN := -0x8000_0000
  const INT_MAX := 0x7FFF_FFFF

  /** `valueint`: the number without its fraction, or the nearest `int`. */
  function IntOf(v: real): (n: int)
    ensures INT_MIN <= n <= INT_MAX
    ensures if v > INT_MAX as real then n == INT_MAX else if v < INT_MIN as real then n == INT_MIN
            else Fabs(v - n as real) < 1.0 && Fabs(n as real) <= Fabs(v)
  {
    if v >= INT_MAX as real then INT_MAX else if v <= INT_MIN as real then INT_MIN else Trunc(v)
  }

  function Pow10(k: nat): (r: nat)
    ensures r > 0
  {
    if k == 0 then 1 else 10 * Pow10(k - 1)
  }

  function NatText(n: nat): (t: Data)
    ensures t != [] && forall i :: 0 <= i < |t| ==> 48 <= t[i] <= 57
  {
    if n < 10 then [48 + n] else NatText(n / 10) + [48 + n % 10]
  }

  function IntText(n: int): Data { if n < 0 then [MINUS] + NatText(-n) else NatText(n) }

  /** The last `k` digits. */
  function PaddedText(n: nat, k: nat): (t: Data)
    ensures |t| == k && forall i :: 0 <= i < |t| ==> 48 <= t[i] <= 57
  {
    if k == 0 then [] else PaddedText(n / 10, k - 1) + [48 + n % 10]
  }

  predicate Whole(v: real) { v == v.Floor as real }

  const PRECISION := 15
  const MAX_PLACES := 18
  const SMALLEST := 0.0001

  /** The point moved by `k` places. */
  function Shifted(a: real, k: nat): real
    decreases k
  {
    if k == 0 then a else Shifted(10.0 * a, k - 1)
  }

  /** How many decimal places a number needs, if it is no more than `limit`. */
  function Places(a: real, limit: nat): (r: Option<nat>)
    ensures r.Some? ==> r.value <= limit && Whole(Shifted(a, r.value))
    decreases limit
  {
    if Whole(a) then Some(0)
    else if limit == 0 then None
    else match Places(10.0 * a, limit - 1) case None => None case Some(k) => Some(k + 1)
  }

  /** The digits of a number that needs `k` decimal places, as a whole number. */
  function AllDigits(v: real, k: nat): nat
  {
    ShiftedNonneg(Fabs(v), k);
    Shifted(Fabs(v), k).Floor
  }

  lemma {:induction false} ShiftedNonneg(a: real, k: nat)
    requires a >= 0.0
    ensures Shifted(a, k) >= 0.0
    decreases k
  {
    if k > 0 {
      ShiftedNonneg(10.0 * a, k - 1);
    }
  }

  /** The numbers that fifteen digits and no exponent give exactly. */
  predicate Short(v: real)
  {
    || v == 0.0
    || (Fabs(v) >= SMALLEST && Places(Fabs(v), MAX_PLACES).Some?
        && AllDigits(v, Places(Fabs(v), MAX_PLACES).value) < Pow10(PRECISION))
  }

  /** All but the last `k` digits. */
  function Upper(m: nat, k: nat): nat { if k == 0 then m else Upper(m / 10, k - 1) }

  /** `m`, with its last `k` digits behind the point. */
  function DecimalText(m: nat, k: nat): (t: Data)
    ensures t != []
  {
    NatText(Upper(m, k)) + if k == 0 then [] else [POINT] + PaddedText(m, k)
  }

  /** What `%1.15g` makes of a short number; and `%d`, if it is an `int`. Nothing is said about others. */
  function NumberText(v: real): (t: Data)
    ensures t != []
  {
    match Places(Fabs(v), MAX_PLACES)
    case None => NatText(0)
    case Some(k) => (if v < 0.0 then [MINUS] else []) + DecimalText(AllDigits(v, k), k)
  }

  /** No more digits than the bound needs. */
  lemma {:induction false} NatTextShort(n: nat, k: nat)
    requires n < Pow10(k) && k > 0
    ensures |NatText(n)| <= k
  {
    if n >= 10 {
      NatTextShort(n / 10, k - 1);
    }
  }

  lemma {:induction false} UpperShort(m: nat, k: nat, j: nat)
    requires m < Pow10(j + k)
    ensures Upper(m, k) < Pow10(j)
  {
    if k > 0 {
      UpperShort(m / 10, k - 1, j);
    }
  }

  lemma {:induction false} Pow10Grows(a: nat, b: nat)
    requires a <= b
    ensures Pow10(a) <= Pow10(b)
  {
    if a < b {
      Pow10Grows(a, b - 1);
    }
  }

  /** The number buffer has 26 bytes. */
  lemma NumberTextShort(v: real)
    requires Short(v)
    ensures |NumberText(v)| <= 21
  {
    hide DecimalText, AllDigits, Places, Pow10, Short;
    Shortest(v);
    var k := Places(Fabs(v), MAX_PLACES).value;
    DecimalShort(AllDigits(v, k), k);
  }

  lemma Shortest(v: real)
    requires Short(v)
    ensures Places(Fabs(v), MAX_PLACES).Some? && AllDigits(v, Places(Fabs(v), MAX_PLACES).value) < Pow10(PRECISION)
  {
    hide Pow10;
    if v == 0.0 {
      assert Places(Fabs(v), MAX_PLACES) == Some(0) && AllDigits(v, 0) == 0;
    }
  }

  lemma DecimalShort(m: nat, k: nat)
    requires m < Pow10(PRECISION) && k <= MAX_PLACES
    ensures |DecimalText(m, k)| <= 20
  {
    hide NatText, PaddedText, Pow10, Upper;
    if k < PRECISION {
      UpperShort(m, k, PRECISION - k);
      NatTextShort(Upper(m, k), PRECISION - k);
    } else {
      Pow10Grows(PRECISION, k);
      UpperShort(m, k, 0);
      OneDigit(Upper(m, k));
    }
  }

  lemma OneDigit(n: nat)
    requires n < Pow10(0)
    ensures |NatText(n)| == 1
  {
  }

  /** An `int` is printed as one. */
  lemma IntIsNumber(v: real)
    requires v == IntOf(v) as real
    ensures NumberText(v) == IntText(IntOf(v)) && Short(v)
  {
    hide NatText;
    assert Places(Fabs(v), MAX_PLACES) == Some(0);
    assert AllDigits(v, 0) == Abs(IntOf(v));
    assert Pow10(4) == 10000 && Pow10(10) == 10000000000;
    Pow10Grows(10, PRECISION);
    assert DecimalText(AllDigits(v, 0), 0) == NatText(AllDigits(v, 0));
  }

  /** A number from its digits. */
  lemma FromDigits(v: real, k: nat)
    requires Places(Fabs(v), MAX_PLACES) == Some(k)
    ensures AllDigits(v, k) as real / Pow10(k) as real == Fabs(v)
  {
    hide Pow10, Places, Shifted;
    ShiftedIs(Fabs(v), k);
    Back(Fabs(v), Pow10(k) as real, AllDigits(v, k) as real);
  }

  lemma {:induction false} ShiftedIs(a: real, k: nat)
    ensures Shifted(a, k) == a * Pow10(k) as real
    decreases k
  {
    if k > 0 {
      ShiftedIs(10.0 * a, k - 1);
      Regroup(a, Pow10(k - 1) as real);
    }
  }

  lemma Regroup(a: real, b: real)
    ensures 10.0 * a * b == a * (10.0 * b)
  {
  }

  lemma Back(a: real, b: real, n: real)
    requires b > 0.0 && n == a * b
    ensures n / b == a
  {
  }
}
