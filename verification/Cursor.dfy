/** The pagination cursor: a timestamp that travels as a binary64 number, and a UUID, joined by a colon. */
module Cursor {
  import opened Text
  import opened Wrappers

  /******* binary64 (sections 3.4 and 4.3.1 of IEEE 754-2019, finite values) *******/

  function Pow2(n: nat): (p: real)
    ensures p >= 1.0
  {
    if n == 0 then 1.0 else 2.0 * Pow2(n - 1)
  }

  function PowZ(e: int): (p: real)
    ensures p > 0.0
    decreases if e < 0 then -e else e
  {
    if e == 0 then 1.0 else if e > 0 then 2.0 * PowZ(e - 1) else PowZ(e + 1) / 2.0
  }

  /** The exponent of a value at least 1. */
  function LargeExponent(x: real): (e: nat)
    requires x >= 1.0
    decreases x.Floor
  {
    if x < 2.0 then 0 else 1 + LargeExponent(x / 2.0)
  }

  /** The exponent of a value below 1, stopping at the subnormal range. */
  function SmallExponent(x: real, k: int): (e: int)
    requires 1 <= k <= 1022
    ensures e <= -1
    decreases 1022 - k
  {
    if k == 1022 || x * Pow2(k) >= 1.0 then -k else SmallExponent(x, k + 1)
  }

  function Exponent(x: real): int
    requires x > 0.0
  {
    if x >= 1.0 then LargeExponent(x) else SmallExponent(x, 1)
  }

  /** The nearest integer, ties to even. */
  function RoundHalfEven(y: real): int {
    var low := y.Floor;
    var rest := y - low as real;
    if rest < 0.5 || (rest == 0.5 && low % 2 == 0) then low else low + 1
  }

  /** `x` rounded to a whole number of units; `up` is the inverse of the unit `down`. */
  function Quantize(x: real, up: real, down: real): real {
    RoundHalfEven(x * up) as real * down
  }

  /** Rounding a real number to binary64. */
  function Float(x: real): real
    decreases x < 0.0
  {
    if x == 0.0 then 0.0
    else if x < 0.0 then -Float(-x)
    else Quantize(x, PowZ(52 - Exponent(x)), PowZ(Exponent(x) - 52))
  }

  lemma RoundHalfEvenError(y: real)
    ensures -0.5 <= RoundHalfEven(y) as real - y <= 0.5
  {}

  /** The integer it gives is the nearest one, and of two that are equally near the even one. */
  lemma RoundsToNearestEven(y: real, n: int)
    ensures RoundHalfEven(y) == n <==>
            -0.5 <= n as real - y <= 0.5 && ((n as real - y == 0.5 || n as real - y == -0.5) ==> n % 2 == 0)
  {}

  lemma RoundsTo(y: real, n: int)
    requires -0.5 < n as real - y < 0.5
    ensures RoundHalfEven(y) == n
  {}

  lemma {:induction false} PowZIsPow2(n: nat)
    ensures PowZ(n) == Pow2(n)
  {
    if n > 0 { PowZIsPow2(n - 1); }
  }

  lemma {:induction false} PowZMonotone(a: int, b: int)
    requires a <= b
    ensures PowZ(a) <= PowZ(b)
    decreases b - a
  {
    if a < b { PowZMonotone(a, b - 1); }
  }

  lemma {:induction false} PowZInverse(m: int, n: int)
    requires m + n == 0
    ensures PowZ(m) * PowZ(n) == 1.0
    decreases if n < 0 then -n else n
  {
    if n > 0 {
      PowZInverse(m + 1, n - 1);
      HalfTimesDouble(PowZ(m + 1), PowZ(n - 1));
    } else if n < 0 {
      PowZInverse(m - 1, n + 1);
      HalfTimesDouble(PowZ(n + 1), PowZ(m - 1));
    }
  }

  lemma HalfTimesDouble(a: real, b: real)
    ensures (a / 2.0) * (2.0 * b) == a * b && (2.0 * b) * (a / 2.0) == a * b && a * b == b * a
  {}

  lemma {:induction false} LargeExponentBound(x: real, k: nat)
    requires 1.0 <= x < Pow2(k)
    ensures LargeExponent(x) < k
    decreases k
  {
    if x >= 2.0 {
      LargeExponentBound(x / 2.0, k - 1);
    }
  }

  lemma {:induction false} LargeExponentExact(x: real, k: nat)
    requires Pow2(k) <= x < Pow2(k + 1)
    ensures LargeExponent(x) == k
    decreases k
  {
    if k > 0 {
      LargeExponentExact(x / 2.0, k - 1);
    }
  }

  lemma NonNegativeProduct(a: real, b: real)
    requires a >= 0.0 && b >= 0.0
    ensures a * b >= 0.0
  {}

  lemma ScaledError(n: real, x: real, up: real, down: real)
    requires down > 0.0 && up * down == 1.0 && -0.5 <= n - x * up <= 0.5
    ensures -(down / 2.0) <= n * down - x <= down / 2.0
  {
    var y := x * up;
    assert y * down == x * (up * down) == x;
    NonNegativeProduct(n - y + 0.5, down);
    NonNegativeProduct(0.5 - (n - y), down);
    assert (n - y + 0.5) * down == (n * down - x) + down / 2.0;
    assert (0.5 - (n - y)) * down == down / 2.0 - (n * down - x);
  }

  lemma QuantizeError(x: real, up: real, down: real)
    requires down > 0.0 && up * down == 1.0
    ensures -(down / 2.0) <= Quantize(x, up, down) - x <= down / 2.0
  {
    RoundHalfEvenError(x * up);
    ScaledError(RoundHalfEven(x * up) as real, x, up, down);
  }

  lemma QuantizeAt(x: real, e: int)
    ensures -(PowZ(e - 52) / 2.0) <= Quantize(x, PowZ(52 - e), PowZ(e - 52)) - x <= PowZ(e - 52) / 2.0
  {
    PowZInverse(52 - e, e - 52);
    QuantizeError(x, PowZ(52 - e), PowZ(e - 52));
  }

  lemma ExponentBound(x: real, k: nat)
    requires 0.0 < x < Pow2(k) && 1 <= k
    ensures Exponent(x) < k
  {
    if x >= 1.0 { LargeExponentBound(x, k); }
  }

  /** Rounding to binary64 errs by at most half the spacing. */
  lemma FloatError(x: real, k: nat)
    requires 0.0 < x < Pow2(k) && 1 <= k <= 52
    ensures -(PowZ(k - 53) / 2.0) <= Float(x) - x <= PowZ(k - 53) / 2.0
  {
    ExponentBound(x, k);
    QuantizeAt(x, Exponent(x));
    PowZMonotone(Exponent(x) - 52, k - 53);
  }

  lemma TimesInverse(x: real, up: real, down: real)
    requires up > 0.0 && up * down == 1.0
    ensures x * up >= 1.0 <==> x >= down
  {
    if x >= down {
      NonNegativeProduct(x - down, up);
    } else {
      assert (down - x) * up > 0.0;
    }
    assert x * up == (x - down) * up + 1.0;
  }

  lemma ScaledBelowOne(x: real, k: nat, e: int)
    requires k + e == 0
    ensures x * Pow2(k) >= 1.0 <==> x >= PowZ(e)
  {
    PowZIsPow2(k);
    PowZInverse(k, e);
    TimesInverse(x, Pow2(k), PowZ(e));
  }

  lemma {:induction false} SmallExponentExact(x: real, e: int, k: int)
    requires 1 <= k <= -e <= 1022 && PowZ(e) <= x < PowZ(e + 1)
    ensures SmallExponent(x, k) == e
    decreases -e - k
  {
    var down := 0 - k;
    ScaledBelowOne(x, k, down);
    if k < -e {
      PowZMonotone(e + 1, down);
      SmallExponentExact(x, e, k + 1);
    }
  }

  lemma ExponentExact(x: real, e: int)
    requires e >= -1022 && PowZ(e) <= x < PowZ(e + 1)
    ensures Exponent(x) == e
  {
    if e >= 0 {
      PowZMonotone(0, e);
      PowZIsPow2(e);
      PowZIsPow2(e + 1);
      LargeExponentExact(x, e);
    } else {
      PowZMonotone(e + 1, 0);
      SmallExponentExact(x, e, 1);
    }
  }

  lemma QuantizeRounds(x: real, up: real, down: real) returns (n: int)
    ensures Quantize(x, up, down) == n as real * down
    ensures var off := n as real - x * up;
            -0.5 <= off <= 0.5 && (off == 0.5 || off == -0.5 ==> n % 2 == 0)
  {
    n := RoundHalfEven(x * up);
    RoundsToNearestEven(x * up, n);
  }

  lemma FloatIs(x: real, e: int, up: real, down: real)
    requires e >= -1022 && PowZ(e) <= x < PowZ(e + 1) && up == PowZ(52 - e) && down == PowZ(e - 52)
    ensures Float(x) == Quantize(x, up, down)
  {
    ExponentExact(x, e);
  }

  /** For normal numbers: of the numbers with 53 significant bits, the multiples of `unit`, rounding gives the nearest,
      and the even one of two that are equally near. */
  lemma FloatIsNearestEven(x: real, e: int, unit: real, inverse: real) returns (n: int)
    requires e >= -1022 && PowZ(e) <= x < PowZ(e + 1) && unit == PowZ(e - 52) && inverse == PowZ(52 - e)
    ensures Float(x) == n as real * unit
    ensures var off := n as real - x * inverse;
            -0.5 <= off <= 0.5 && (off == 0.5 || off == -0.5 ==> n % 2 == 0)
  {
    FloatIs(x, e, inverse, unit);
    n := QuantizeRounds(x, inverse, unit);
  }

  lemma {:induction false} PowIsInteger(n: nat)
    ensures Pow2(n) == Pow2(n).Floor as real
  {
    if n > 0 {
      PowIsInteger(n - 1);
      assert Pow2(n) == (2 * Pow2(n - 1).Floor) as real;
    }
  }

  lemma Associative(a: real, b: real, c: real)
    ensures (a * b) * c == a * (b * c)
  {}

  lemma RoundsInteger(n: int)
    ensures RoundHalfEven(n as real) == n
  {}

  /** A whole number of units is its own rounding. */
  lemma QuantizeExact(x: real, up: real, down: real, n: int)
    requires x * up == n as real && n as real * down == x
    ensures Quantize(x, up, down) == x
  {
    RoundsInteger(n);
  }

  lemma QuantizeInteger(q: nat, p: nat, down: real)
    requires p as real * down == 1.0
    ensures Quantize(q as real, p as real, down) == q as real
  {
    var n := q * p;
    assert q as real * p as real == n as real;
    Associative(q as real, p as real, down);
    assert n as real * down == q as real * 1.0;
    QuantizeExact(q as real, p as real, down, n);
  }

  lemma IntegerUnits(q: nat, n: nat, down: real)
    requires PowZ(n) * down == 1.0
    ensures Quantize(q as real, PowZ(n), down) == q as real
  {
    PowZIsPow2(n);
    PowIsInteger(n);
    QuantizeInteger(q, Pow2(n).Floor, down);
  }

  lemma IntegerAt(q: nat, e: int)
    requires e <= 52
    ensures Quantize(q as real, PowZ(52 - e), PowZ(e - 52)) == q as real
  {
    PowZInverse(52 - e, e - 52);
    IntegerUnits(q, 52 - e, PowZ(e - 52));
  }

  /** Integers below 2^52 are binary64 values. */
  lemma IntegersAreExact(q: nat, k: nat)
    requires 1 <= q && q as real < Pow2(k) && k <= 52
    ensures Float(q as real) == q as real
  {
    ExponentBound(q as real, k);
    IntegerAt(q, Exponent(q as real));
  }

  /******* datetime.timestamp() and datetime.fromtimestamp() in microseconds since the epoch *******/

  const MICROS: int := 1_000_000

  /** Year 1 to year 9999, in seconds. */
  const MIN_SECONDS: int := -62_135_596_800
  const MAX_SECONDS: int := 253_402_300_800

  /** True division of the microsecond count, correctly rounded. */
  function Timestamp(micros: int): real {
    Float(micros as real / 1_000_000.0)
  }

  /** The integral part is split off exactly, the fraction is scaled in binary64 and rounded half-even. */
  function FromTimestamp(t: real): int {
    var whole := if t >= 0.0 then t.Floor else -((-t).Floor);
    var fraction := t - whole as real;
    whole * MICROS + RoundHalfEven(Float(fraction * 1_000_000.0))
  }

  lemma Pow2Values()
    ensures Pow2(19) == 524_288.0 && Pow2(20) == 1_048_576.0
    ensures Pow2(33) == 8_589_934_592.0 && Pow2(34) == 17_179_869_184.0
    ensures PowZ(19) == 524_288.0
    ensures PowZ(-19) == 1.0 / 524_288.0 && PowZ(-20) == 1.0 / 1_048_576.0 && PowZ(-33) == 1.0 / 8_589_934_592.0
  {
    assert Pow2(8) == 256.0;
    assert Pow2(16) == 65_536.0;
    assert Pow2(19) == 524_288.0;
    assert Pow2(20) == 1_048_576.0;
    assert Pow2(28) == 268_435_456.0;
    assert Pow2(33) == 8_589_934_592.0;
    PowZIsPow2(19);
    assert PowZ(-8) == 1.0 / 256.0;
    assert PowZ(-16) == 1.0 / 65_536.0;
    assert PowZ(-24) == 1.0 / 16_777_216.0;
    assert PowZ(-33) == 1.0 / 8_589_934_592.0;
  }

  /** Scaling the recovered fraction lands close enough to the microsecond count. */
  lemma FractionDecodes(fraction: real, r: nat)
    requires 1 <= r < MICROS
    requires -(1.0 / 2_097_152.0) <= fraction - r as real / 1_000_000.0 <= 1.0 / 2_097_152.0
    ensures RoundHalfEven(Float(fraction * 1_000_000.0)) == r
  {
    var y := fraction * 1_000_000.0;
    assert -0.477 < y - r as real < 0.477;
    Pow2Values();
    FloatError(y, 20);
    assert -0.001 < Float(y) - y < 0.001;
    RoundsTo(Float(y), r);
  }

  lemma WholeSeconds(q: nat)
    requires q < 8_589_934_592
    ensures Float(q as real) == q as real
    ensures FromTimestamp(q as real) == q * MICROS
  {
    Pow2Values();
    if q > 0 { IntegersAreExact(q, 33); }
  }

  /** Below 2^33 seconds the spacing is at most 2^-20 seconds. */
  lemma TimestampError(x: real)
    requires 0.0 < x < 8_589_934_592.0
    ensures -(1.0 / 2_097_152.0) <= Float(x) - x <= 1.0 / 2_097_152.0
  {
    Pow2Values();
    FloatError(x, 33);
  }

  lemma FractionalSeconds(q: nat, r: nat, t: real)
    requires 1 <= r < MICROS
    requires -(1.0 / 2_097_152.0) <= t - (q as real + r as real / 1_000_000.0) <= 1.0 / 2_097_152.0
    ensures t.Floor == q && FromTimestamp(t) == q * MICROS + r
  {
    assert r as real / 1_000_000.0 >= 1.0 / 1_000_000.0;
    assert r as real / 1_000_000.0 <= 999_999.0 / 1_000_000.0;
    assert t.Floor == q;
    FractionDecodes(t - q as real, r);
  }

  /** The instant survives the trip through binary64: every microsecond from the epoch to 2^33 seconds. */
  lemma TimestampRoundTrip(micros: nat)
    requires micros < 8_589_934_592 * MICROS
    ensures FromTimestamp(Timestamp(micros)) == micros
    ensures 0 <= Timestamp(micros).Floor < MAX_SECONDS
  {
    var q, r := micros / MICROS, micros % MICROS;
    var x := micros as real / 1_000_000.0;
    assert x == q as real + r as real / 1_000_000.0;
    if r == 0 {
      WholeSeconds(q);
    } else {
      TimestampError(x);
      FractionalSeconds(q, r, Float(x));
    }
  }

  /** The bound is sharp: the first microsecond after 2^33 seconds comes back as the second one. */
  lemma BoundIsSharp()
    ensures FromTimestamp(Timestamp(8_589_934_592 * MICROS + 1)) == 8_589_934_592 * MICROS + 2
  {
    var x := (8_589_934_592 * MICROS + 1) as real / 1_000_000.0;
    Pow2Values();
    LargeExponentExact(x, 33);
    assert x * PowZ(19) == 4_503_599_627_370_496.0 + 0.524288;
    RoundsTo(x * PowZ(19), 4_503_599_627_370_497);
    var t := Timestamp(8_589_934_592 * MICROS + 1);
    assert t == 8_589_934_592.0 + 1.0 / 524_288.0;
    assert t.Floor == 8_589_934_592;
    var y := (t - 8_589_934_592.0) * 1_000_000.0;
    assert 1.9 < y < 1.91;
    FloatError(y, 20);
    RoundsTo(Float(y), 2);
  }

  /******* UUID text (section 3 of RFC 4122) *******/

  const HEX: string := "0123456789abcdef"

  function HexDigit(c: char): Option<nat> {
    if '0' <= c <= '9' then Some(c as int - '0' as int)
    else if 'a' <= c <= 'f' then Some(c as int - 'a' as int + 10)
    else if 'A' <= c <= 'F' then Some(c as int - 'A' as int + 10)
    else None
  }

  function HexText(n: nat, k: nat): (s: string)
    ensures |s| == k
    ensures forall c <- s :: c in HEX
  {
    if k == 0 then "" else HexText(n / 16, k - 1) + [HEX[n % 16]]
  }

  function HexValue(s: string): Option<nat> {
    if s == "" then Some(0)
    else
      var high, low := HexValue(s[..|s| - 1]), HexDigit(s[|s| - 1]);
      if high.Some? && low.Some? then Some(16 * high.value + low.value) else None
  }

  function Pow16(k: nat): nat {
    if k == 0 then 1 else 16 * Pow16(k - 1)
  }

  lemma HexDigitRoundTrip(d: nat)
    requires d < 16
    ensures HexDigit(HEX[d]) == Some(d)
  {}

  lemma HexValueAppend(s: string, c: char, high: nat, low: nat)
    requires HexValue(s) == Some(high) && HexDigit(c) == Some(low)
    ensures HexValue(s + [c]) == Some(16 * high + low)
  {
    assert (s + [c])[..|s|] == s;
  }

  lemma {:induction false} HexRoundTrip(n: nat, k: nat)
    requires n < Pow16(k)
    ensures HexValue(HexText(n, k)) == Some(n)
  {
    if k > 0 {
      HexRoundTrip(n / 16, k - 1);
      HexDigitRoundTrip(n % 16);
      HexValueAppend(HexText(n / 16, k - 1), HEX[n % 16], n / 16, n % 16);
    }
  }

  /** The 8-4-4-4-12 grouping. */
  function Dash(h: string): string
    requires |h| == 32
  {
    h[..8] + "-" + h[8..12] + "-" + h[12..16] + "-" + h[16..20] + "-" + h[20..]
  }

  function UuidText(id: Uuid): string {
    Dash(HexText(id, 32))
  }

  function Undash(s: string): string {
    if s == "" then "" else (if s[0] == '-' then "" else [s[0]]) + Undash(s[1..])
  }

  function ParseUuid(s: string): Option<Uuid> {
    if |Undash(s)| == 32 then HexValue(Undash(s)) else None
  }

  lemma {:induction false} UndashJoin(a: string, b: string)
    ensures Undash(a + "-" + b) == Undash(a) + Undash(b)
  {
    if a == "" {
      assert a + "-" + b == "-" + b && ("-" + b)[1..] == b;
    } else {
      UndashJoin(a[1..], b);
      assert (a + "-" + b)[0] == a[0] && (a + "-" + b)[1..] == a[1..] + "-" + b;
      var first := if a[0] == '-' then "" else [a[0]];
      assert first + (Undash(a[1..]) + Undash(b)) == (first + Undash(a[1..])) + Undash(b);
    }
  }

  lemma {:induction false} UndashPlain(s: string)
    requires '-' !in s
    ensures Undash(s) == s
  {
    if s != "" { UndashPlain(s[1..]); }
  }

  lemma DashRoundTrip(h: string)
    requires |h| == 32 && '-' !in h
    ensures Undash(Dash(h)) == h
  {
    var a, b, c, d, e := h[..8], h[8..12], h[12..16], h[16..20], h[20..];
    assert h == a + b + c + d + e;
    UndashPlain(a);
    UndashPlain(b);
    UndashPlain(c);
    UndashPlain(d);
    UndashPlain(e);
    UndashJoin(a, b);
    UndashJoin(a + "-" + b, c);
    UndashJoin(a + "-" + b + "-" + c, d);
    UndashJoin(a + "-" + b + "-" + c + "-" + d, e);
  }

  lemma HexIsPlain(n: nat, k: nat)
    ensures '-' !in HexText(n, k) && ':' !in HexText(n, k)
  {
    assert '-' !in HEX && ':' !in HEX;
  }

  lemma DashAddsNoColon(h: string)
    requires |h| == 32 && ':' !in h
    ensures ':' !in Dash(h)
  {}

  lemma ParsedHex(h: string, id: Uuid)
    requires |h| == 32 && '-' !in h && HexValue(h) == Some(id)
    ensures ParseUuid(Dash(h)) == Some(id)
  {
    DashRoundTrip(h);
  }

  lemma HexTextReads(id: Uuid, width: nat, h: string)
    requires width == 32 && id < Pow16(width) && h == HexText(id, width)
    ensures ParseUuid(Dash(h)) == Some(id) && ':' !in Dash(h)
  {
    HexRoundTrip(id, width);
    HexIsPlain(id, width);
    ParsedHex(h, id);
    DashAddsNoColon(h);
  }

  /** The text has 36 characters: digits and letters from a to f, but for the dashes at 8, 13, 18 and 23. */
  lemma UuidTextShape(id: Uuid)
    ensures |UuidText(id)| == 36
    ensures forall k | 0 <= k < 36 ::
              var c := UuidText(id)[k];
              if k == 8 || k == 13 || k == 18 || k == 23 then c == '-' else '0' <= c <= '9' || 'a' <= c <= 'f'
  {
    HexIsLower(HexText(id, 32));
  }

  lemma HexIsLower(h: string)
    requires |h| == 32 && forall c <- h :: c in HEX
    ensures |Dash(h)| == 36
    ensures forall k | 0 <= k < 36 ::
              var c := Dash(h)[k];
              if k == 8 || k == 13 || k == 18 || k == 23 then c == '-' else '0' <= c <= '9' || 'a' <= c <= 'f'
  {
    var d := Dash(h);
    assert forall c <- HEX :: '0' <= c <= '9' || 'a' <= c <= 'f';
    forall k | 0 <= k < 36 ensures if k == 8 || k == 13 || k == 18 || k == 23 then d[k] == '-' else d[k] in HEX {
      assert d[k] == if k < 8 then h[k] else if k == 8 then '-' else if k < 13 then h[k - 1] else if k == 13 then '-'
                     else if k < 18 then h[k - 2] else if k == 18 then '-' else if k < 23 then h[k - 3]
                     else if k == 23 then '-' else h[k - 4];
    }
  }

  lemma UuidRoundTrip(id: Uuid)
    requires id < Pow16(32)
    ensures ParseUuid(UuidText(id)) == Some(id)
    ensures ':' !in UuidText(id)
  {
    HexTextReads(id, 32, HexText(id, 32));
  }

  /** Equal up to the case of hexadecimal digits. */
  predicate SameChar(c: char, d: char) {
    (c == '-' <==> d == '-') && HexDigit(c) == HexDigit(d)
  }

  ghost predicate SameText(s: string, t: string) {
    |s| == |t| && forall k :: 0 <= k < |s| ==> SameChar(s[k], t[k])
  }

  lemma {:induction false} SameUndashed(s: string, t: string)
    requires SameText(s, t)
    ensures SameText(Undash(s), Undash(t))
  {
    if s != "" {
      var a, b := s[1..], t[1..];
      forall k | 0 <= k < |a| ensures SameChar(a[k], b[k]) {
        assert a[k] == s[k + 1] && b[k] == t[k + 1];
      }
      SameUndashed(a, b);
      assert SameChar(s[0], t[0]);
    }
  }

  lemma {:induction false} SameHexValue(s: string, t: string)
    requires SameText(s, t)
    ensures HexValue(s) == HexValue(t)
  {
    if s != "" {
      SameHexValue(s[..|s| - 1], t[..|t| - 1]);
      assert SameChar(s[|s| - 1], t[|t| - 1]);
    }
  }

  lemma UpperIsSame(c: char, d: char)
    requires c == d || ('a' <= d <= 'f' && c as int == d as int - 32)
    ensures SameChar(c, d)
  {}

  /** A UUID reads back from its text in upper case as well, or in both. */
  lemma UuidReadsInAnyCase(id: Uuid, s: string)
    requires id < Pow16(32) && |s| == 36
    requires var text := UuidText(id);
             forall k :: 0 <= k < 36 && k < |text| ==>
               s[k] == text[k] || ('a' <= text[k] <= 'f' && s[k] as int == text[k] as int - 32)
    ensures ParseUuid(s) == Some(id)
  {
    var text := UuidText(id);
    UuidTextShape(id);
    UuidRoundTrip(id);
    forall k | 0 <= k < 36 ensures SameChar(s[k], text[k]) { UpperIsSame(s[k], text[k]); }
    SameUndashed(s, text);
    SameHexValue(Undash(s), Undash(text));
  }

  /******* The cursor *******/

  /** `repr` and `float` of the runtime. */
  datatype FloatText = FloatText(show: real -> string, parse: string -> Option<real>)

  /** The shortest representation reads back as the same number and contains no colon. */
  ghost predicate Faithful(codec: FloatText) {
    forall micros: int ::
      var t := Timestamp(micros);
      codec.parse(codec.show(t)) == Some(t) && ':' !in codec.show(t)
  }

  /** An instant whose timestamp is `t`, if there is one. */
  ghost function SomeInstant(t: real): (micros: int)
    ensures (exists m: int :: Timestamp(m) == t) ==> Timestamp(micros) == t
  {
    if exists m: int :: Timestamp(m) == t then
      var m: int :| Timestamp(m) == t;
      m
    else 0
  }

  lemma InstantIsShown(micros: int, t: real)
    requires t == Timestamp(micros)
    ensures Timestamp(IntValue(IntText(SomeInstant(t)))) == t && ':' !in IntText(SomeInstant(t))
  {
    IntRoundTrip(SomeInstant(t));
  }

  /** There are such representations. */
  lemma SomeCodecIsFaithful()
    ensures exists codec: FloatText :: Faithful(codec)
  {
    var codec := FloatText(t => IntText(SomeInstant(t)), s => Some(Timestamp(IntValue(s))));
    forall micros: int ensures var t := Timestamp(micros);
                               codec.parse(codec.show(t)) == Some(t) && ':' !in codec.show(t) {
      InstantIsShown(micros, Timestamp(micros));
    }
    assert Faithful(codec);
  }

  function Before(s: string, c: char): (r: string)
    ensures |r| <= |s|
  {
    if s == "" || s[0] == c then "" else [s[0]] + Before(s[1..], c)
  }

  lemma {:induction false} BeforeFinds(a: string, c: char, b: string)
    requires c !in a
    ensures Before(a + [c] + b, c) == a && Before(a, c) == a
  {
    if a == "" {
      assert a + [c] + b == [c] + b;
    } else {
      BeforeFinds(a[1..], c, b);
      assert (a + [c] + b)[1..] == a[1..] + [c] + b;
    }
  }

  function Encode(codec: FloatText, micros: int, id: Uuid): string {
    codec.show(Timestamp(micros)) + ":" + UuidText(id)
  }

  /** The first two colon-separated fields, or nothing when either cannot be read. */
  function Decode(codec: FloatText, cursor: string): Option<(int, Uuid)> {
    var first := Before(cursor, ':');
    if |first| == |cursor| then None
    else
      var t, id := codec.parse(first), ParseUuid(Before(cursor[|first| + 1..], ':'));
      if t.Some? && id.Some? && MIN_SECONDS <= t.value.Floor < MAX_SECONDS
      then Some((FromTimestamp(t.value), id.value))
      else None
  }

  /** Which cursors are accepted: those whose first two fields read as a number of seconds between the years 1 and 9999
      and as a UUID; further fields are ignored, and a cursor without a colon is refused. */
  lemma DecodeIff(codec: FloatText, time: string, id: string, more: string)
    requires ':' !in time && ':' !in id && (more == "" || more[0] == ':')
    ensures Decode(codec, time) == None
    ensures var t, key := codec.parse(time), Decode(codec, time + ":" + id + more);
            && (key.Some? <==> t.Some? && ParseUuid(id).Some?
                               && -62_135_596_800.0 <= t.value < 253_402_300_800.0)
            && (key.Some? ==> key.value == (FromTimestamp(t.value), ParseUuid(id).value))
  {
    var cursor := time + ":" + id + more;
    BeforeFinds(time, ':', id + more);
    assert cursor == time + [':'] + (id + more);
    assert cursor[|time| + 1..] == id + more;
    if more == "" {
      BeforeFinds(id, ':', "");
      assert id + more == id;
    } else {
      BeforeFinds(id, ':', more[1..]);
      assert id + more == id + [':'] + more[1..];
    }
  }

  /** A cursor decodes to the key it was made from. */
  lemma CursorRoundTrip(codec: FloatText, micros: nat, id: Uuid)
    requires Faithful(codec)
    requires micros < 8_589_934_592 * MICROS && id < Pow16(32)
    ensures Decode(codec, Encode(codec, micros, id)) == Some((micros, id))
    ensures Encode(codec, micros, id) != ""
  {
    var t, cursor := Timestamp(micros), Encode(codec, micros, id);
    assert codec.parse(codec.show(t)) == Some(t) && ':' !in codec.show(t);
    TimestampRoundTrip(micros);
    UuidRoundTrip(id);
    BeforeFinds(codec.show(t), ':', UuidText(id));
    BeforeFinds(UuidText(id), ':', "");
    assert cursor == codec.show(t) + [':'] + UuidText(id);
    assert cursor[|codec.show(t)| + 1..] == UuidText(id);
  }
}
