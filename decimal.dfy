/**
 * Decimal text of natural numbers, as the bot produces it with BigInt.prototype.toString()
 * and String.prototype.padStart, and reads it back digit by digit.
 */
module Decimal {
  import opened Wrappers

  /** 10^k */
  function Pow10(k: nat): (p: nat)
    ensures p >= 1
    ensures k > 0 ==> p >= 10
  {
    if k == 0 then 1 else 10 * Pow10(k - 1)
  }

  lemma {:induction false} Pow10Add(a: nat, b: nat)
    ensures Pow10(a + b) == Pow10(a) * Pow10(b)
    decreases a
  {
    if a > 0 {
      Pow10Add(a - 1, b);
      assert Pow10(a + b) == 10 * (Pow10(a - 1) * Pow10(b));
    }
  }

  predicate IsDigit(c: char) {
    '0' <= c <= '9'
  }

  predicate AllDigits(s: string) {
    forall i :: 0 <= i < |s| ==> IsDigit(s[i])
  }

  function DigitChar(d: nat): (c: char)
    requires d < 10
    ensures IsDigit(c)
  {
    "0123456789"[d]
  }

  function DigitValue(c: char): (d: nat)
    requires IsDigit(c)
    ensures d < 10
  {
    c as int - '0' as int
  }

  lemma DigitValueOfChar(d: nat)
    requires d < 10
    ensures DigitValue(DigitChar(d)) == d
  {
  }

  /** BigInt.prototype.toString() of a non-negative value: base 10, no leading zeros, "0" for zero. */
  function NatToString(n: nat): (s: string)
    ensures |s| >= 1 && AllDigits(s)
    ensures |s| > 1 ==> s[0] != '0'
    decreases n
  {
    if n < 10 then [DigitChar(n)] else NatToString(n / 10) + [DigitChar(n % 10)]
  }

  /** The value of a string of digits, leading zeros allowed. */
  function ParseDigits(s: string): nat
    requires AllDigits(s)
  {
    if s == [] then 0 else ParseDigits(s[..|s| - 1]) * 10 + DigitValue(s[|s| - 1])
  }

  function Zeros(k: nat): (z: string)
    ensures |z| == k && AllDigits(z)
    ensures forall i :: 0 <= i < k ==> z[i] == '0'
  {
    seq(k, _ => '0')
  }

  /** String.prototype.padStart(target, '0'): left-pad with zeros up to `target` characters. */
  function PadStartZeros(s: string, target: nat): (r: string)
    ensures |r| == if |s| >= target then |s| else target
    ensures r[|r| - |s|..] == s
    ensures forall i :: 0 <= i < |r| - |s| ==> r[i] == '0'
    ensures AllDigits(s) ==> AllDigits(r)
  {
    if |s| >= target then s else Zeros(target - |s|) + s
  }

  /**
   * The last k decimal digits of n, zero-padded to exactly k characters
   * (the digits of n % 10^k).
   */
  function LowDigits(n: nat, k: nat): (s: string)
    ensures |s| == k && AllDigits(s)
  {
    if k == 0 then [] else LowDigits(n / 10, k - 1) + [DigitChar(n % 10)]
  }

  lemma DivPow10Step(n: nat, k: nat)
    ensures n / 10 / Pow10(k) == n / Pow10(k + 1)
    ensures (n / 10) % Pow10(k) * 10 + n % 10 == n % Pow10(k + 1)
  {
    DivTenStep(n, Pow10(k));
  }

  /** Dividing by 10 and then by p is dividing by 10p; the remainders combine digit-wise. */
  lemma DivTenStep(n: nat, p: nat)
    requires p > 0
    ensures n / 10 / p == n / (10 * p)
    ensures (n / 10) % p * 10 + n % 10 == n % (10 * p)
  {
    var q, r := n / 10 / p, (n / 10) % p;
    assert n / 10 == q * p + r && 0 <= r < p;
    assert n == (q * p + r) * 10 + n % 10;
    assert n == q * (10 * p) + (r * 10 + n % 10);
    assert 0 <= r * 10 + n % 10 < 10 * p;
    DivModUnique(n, 10 * p, q, r * 10 + n % 10);
  }

  lemma DivModUnique(n: nat, d: nat, q: nat, r: nat)
    requires d > 0 && n == q * d + r && r < d
    ensures n / d == q && n % d == r
  {
    var q0, r0 := n / d, n % d;
    assert q0 * d + r0 == q * d + r;
    if q0 < q {
      assert (q0 + 1) * d == q0 * d + d;
      MulMonotone(q0 + 1, q, d);
    } else if q0 > q {
      assert (q + 1) * d == q * d + d;
      MulMonotone(q + 1, q0, d);
    }
  }

  lemma MulMonotone(a: nat, b: nat, d: nat)
    requires a <= b
    ensures a * d <= b * d
  {
    assert b * d == a * d + (b - a) * d;
  }

  /** The digits of BigInt.prototype.toString() always read back to the value they came from. */
  lemma {:induction false} ParseNatToString(n: nat)
    ensures ParseDigits(NatToString(n)) == n
    decreases n
  {
    var s := NatToString(n);
    if n < 10 {
      DigitValueOfChar(n);
    } else {
      assert s[..|s| - 1] == NatToString(n / 10);
      ParseNatToString(n / 10);
      DigitValueOfChar(n % 10);
    }
  }

  /** For k >= 1, the text of n has at most k digits exactly when n < 10^k. */
  lemma {:induction false} LengthBound(n: nat, k: nat)
    requires k >= 1
    ensures |NatToString(n)| <= k <==> n < Pow10(k)
    decreases n
  {
    if n >= 10 {
      if k == 1 {
        LengthAtLeastTwo(n);
      } else {
        LengthBound(n / 10, k - 1);
        DivPow10Step(n, k - 1);
      }
    }
  }

  lemma LengthAtLeastTwo(n: nat)
    requires n >= 10
    ensures |NatToString(n)| >= 2
  {
  }

  /** The low k digits of n read back to n mod 10^k. */
  lemma {:induction false} LowDigitsValue(n: nat, k: nat)
    ensures ParseDigits(LowDigits(n, k)) == n % Pow10(k)
  {
    if k > 0 {
      var s := LowDigits(n, k);
      assert s[..|s| - 1] == LowDigits(n / 10, k - 1);
      LowDigitsValue(n / 10, k - 1);
      DigitValueOfChar(n % 10);
      DivPow10Step(n, k - 1);
    }
  }

  /** The low k digits of n depend only on n mod 10^k. */
  lemma {:induction false} LowDigitsOfMod(n: nat, k: nat)
    ensures LowDigits(n, k) == LowDigits(n % Pow10(k), k)
    decreases k
  {
    if k > 0 {
      var m := n % Pow10(k);
      var p := Pow10(k - 1);
      DigitOfMod(n, k);
      LowDigitsOfMod(m / 10, k - 1);
      LowDigitsOfMod(n / 10, k - 1);
      var low := LowDigits(n / 10, k - 1);
      assert LowDigits(m / 10, k - 1) == low;
      assert LowDigits(n, k) == low + [DigitChar(n % 10)];
      assert LowDigits(m, k) == low + [DigitChar(m % 10)];
    }
  }

  lemma ModPow10Twice(n: nat, k: nat)
    requires k > 0
    ensures (n % Pow10(k)) % Pow10(k) == n % Pow10(k)
  {
    DivModUnique(n % Pow10(k), Pow10(k), 0, n % Pow10(k));
  }

  /** Reducing n mod 10^k (k >= 1) keeps the last digit and reduces n / 10 mod 10^(k-1). */
  lemma DigitOfMod(n: nat, k: nat)
    requires k > 0
    ensures (n % Pow10(k)) % 10 == n % 10
    ensures ((n % Pow10(k)) / 10) % Pow10(k - 1) == (n / 10) % Pow10(k - 1)
  {
    var p := Pow10(k - 1);
    DivPow10Step(n, k - 1);
    var m := n % Pow10(k);
    DivPow10Step(m, k - 1);
    // m == ((n / 10) % p) * 10 + n % 10
    DivModUnique(m, 10, (n / 10) % p, n % 10);
    ModPow10TwiceGeneral((n / 10) % p, p);
  }

  lemma ModPow10TwiceGeneral(x: nat, p: nat)
    requires p > 0 && x < p
    ensures x % p == x
  {
    DivModUnique(x, p, 0, x);
  }

  lemma {:induction false} LowDigitsOfZero(k: nat)
    ensures LowDigits(0, k) == Zeros(k)
  {
    if k > 0 {
      LowDigitsOfZero(k - 1);
    }
  }

  /** A number below 10^k (k >= 1) written with exactly k digits is its text left-padded with zeros. */
  lemma {:induction false} LowDigitsPadded(n: nat, k: nat)
    requires k >= 1 && n < Pow10(k)
    ensures LowDigits(n, k) == PadStartZeros(NatToString(n), k)
    decreases k
  {
    if n < 10 {
      LowDigitsOfZero(k - 1);
      assert n / 10 == 0 && n % 10 == n;
      assert LowDigits(n, k) == Zeros(k - 1) + [DigitChar(n)];
      assert NatToString(n) == [DigitChar(n)];
    } else {
      assert k >= 2;
      DivPow10Step(n, k - 1);
      assert n / 10 < Pow10(k - 1);
      LowDigitsPadded(n / 10, k - 1);
      LengthBound(n / 10, k - 1);
      var t := NatToString(n / 10);
      var c := DigitChar(n % 10);
      var z := Zeros(k - 1 - |t|);
      assert |t| <= k - 1;
      assert LowDigits(n / 10, k - 1) == z + t;
      assert NatToString(n) == t + [c];
      assert PadStartZeros(t + [c], k) == z + (t + [c]);
      assert LowDigits(n, k) == (z + t) + [c];
    }
  }

  /**
   * Splitting the text of n >= 10^k after its high part: the high digits are the text of
   * n / 10^k and the remaining k characters are the low digits of n.
   */
  lemma {:induction false} SplitDigits(n: nat, k: nat)
    requires n >= Pow10(k)
    ensures NatToString(n) == NatToString(n / Pow10(k)) + LowDigits(n, k)
    decreases k
  {
    if k > 0 {
      DivPow10Step(n, k - 1);
      assert n / 10 >= Pow10(k - 1);
      SplitDigits(n / 10, k - 1);
    }
  }

  lemma ShiftDigit(x: nat, p: nat, y: nat, d: nat)
    ensures (x * p + y) * 10 + d == x * (10 * p) + (y * 10 + d)
  {
  }

  /** Reading digits is positional: the left part is worth 10^|right| per unit. */
  lemma {:induction false} ParseAppend(a: string, b: string)
    requires AllDigits(a) && AllDigits(b)
    ensures AllDigits(a + b)
    ensures ParseDigits(a + b) == ParseDigits(a) * Pow10(|b|) + ParseDigits(b)
    decreases |b|
  {
    if b != [] {
      var b' := b[..|b| - 1];
      var d := DigitValue(b[|b| - 1]);
      assert (a + b)[..|a + b| - 1] == a + b';
      assert (a + b)[|a + b| - 1] == b[|b| - 1];
      ParseAppend(a, b');
      assert ParseDigits(a + b) == ParseDigits(a + b') * 10 + d;
      assert ParseDigits(b) == ParseDigits(b') * 10 + d;
      ShiftDigit(ParseDigits(a), Pow10(|b'|), ParseDigits(b'), d);
    } else {
      assert a + b == a;
    }
  }

  /**
   * Fixed-point text with k fractional digits, as oro1.js:149-154 builds it: the digits of q
   * with a point inserted k places from the right, or "0." and the digits left-padded to k.
   */
  function FormatFixed(q: nat, k: nat): (r: string)
    requires k >= 1
    ensures IsFixedPoint(r, k)
  {
    var s := NatToString(q);
    if |s| > k then
      var r := s[..|s| - k] + "." + s[|s| - k..];
      assert r[..|r| - k - 1] == s[..|s| - k] && r[|r| - k..] == s[|s| - k..];
      r
    else
      var r := "0." + PadStartZeros(s, k);
      assert r[..|r| - k - 1] == "0" && r[|r| - k..] == PadStartZeros(s, k);
      r
  }

  /** A fixed-point string: at least one digit, one point, then exactly k digits. */
  predicate IsFixedPoint(r: string, k: nat) {
    && |r| >= k + 2
    && r[|r| - k - 1] == '.'
    && AllDigits(r[..|r| - k - 1])
    && AllDigits(r[|r| - k..])
  }

  function IntegerPart(r: string, k: nat): string
    requires IsFixedPoint(r, k)
  {
    r[..|r| - k - 1]
  }

  function FractionPart(r: string, k: nat): string
    requires IsFixedPoint(r, k)
  {
    r[|r| - k..]
  }

  /** Reads a fixed-point string back: delete the point and read the remaining digits. */
  function ParseFixedPoint(r: string, k: nat): (v: Option<nat>)
    ensures v.Some? <==> IsFixedPoint(r, k)
  {
    if IsFixedPoint(r, k) then Some(ParseDigits(IntegerPart(r, k) + FractionPart(r, k))) else None
  }


  /** The fixed-point text is the text of q / 10^k, a point, and the k low digits of q. */
  lemma FormatFixedParts(q: nat, k: nat)
    requires k >= 1
    ensures FormatFixed(q, k) == NatToString(High(q, k)) + "." + LowDigits(q, k)
  {
    LengthBound(q, k);
    if q >= Pow10(k) {
      FormatFixedLong(q, k);
    } else {
      FormatFixedShort(q, k);
    }
  }

  lemma FormatFixedLong(q: nat, k: nat)
    requires k >= 1 && q >= Pow10(k) && |NatToString(q)| > k
    ensures FormatFixed(q, k) == NatToString(High(q, k)) + "." + LowDigits(q, k)
  {
    var s := NatToString(q);
    SplitDigits(q, k);
    assert s[..|s| - k] == NatToString(High(q, k));
    assert s[|s| - k..] == LowDigits(q, k);
  }

  lemma FormatFixedShort(q: nat, k: nat)
    requires k >= 1 && q < Pow10(k) && |NatToString(q)| <= k
    ensures FormatFixed(q, k) == NatToString(High(q, k)) + "." + LowDigits(q, k)
  {
    var pad := PadStartZeros(NatToString(q), k);
    calc {
      FormatFixed(q, k);
      "0." + pad;
      { assert "0." + pad == "0" + "." + pad; }
      "0" + "." + pad;
      { LowDigitsPadded(q, k); }
      "0" + "." + LowDigits(q, k);
      { DivModUnique(q, Pow10(k), 0, q); assert NatToString(0) == "0"; }
      NatToString(High(q, k)) + "." + LowDigits(q, k);
    }
  }

  lemma TextIsZeroOnlyForZero(n: nat)
    ensures NatToString(n) == "0" <==> n == 0
  {
    if n >= 10 {
      LengthAtLeastTwo(n);
    }
  }

  lemma DivIsZero(q: nat, p: nat)
    requires p > 0
    ensures q / p == 0 <==> q < p
  {
    if q < p {
      DivModUnique(q, p, 0, q);
    } else {
      assert q == (q / p) * p + q % p;
    }
  }

  /** Joining digits, a point and k digits gives a fixed-point string with those parts. */
  lemma JoinFixedPoint(hi: string, lo: string, k: nat)
    requires |hi| >= 1 && AllDigits(hi) && |lo| == k && AllDigits(lo)
    ensures IsFixedPoint(hi + "." + lo, k)
    ensures IntegerPart(hi + "." + lo, k) == hi && FractionPart(hi + "." + lo, k) == lo
  {
    var r := hi + "." + lo;
    assert r[..|r| - k - 1] == hi;
    assert r[|r| - k..] == lo;
  }

  /** q / 10^k and q % 10^k, the parts of q on either side of the k-th digit from the right. */
  function High(q: nat, k: nat): nat {
    Quotient(q, Pow10(k))
  }

  function Low(q: nat, k: nat): nat {
    q % Pow10(k)
  }

  /** Division of natural numbers, whose quotient is again a natural number. */
  function Quotient(q: nat, p: nat): nat
    requires p > 0
  {
    q / p
  }

  /** Euclid's division: q is the quotient times p plus a remainder below p. */
  lemma QuotientRemainder(q: nat, p: nat)
    requires p > 0
    ensures Quotient(q, p) * p + q % p == q && q % p < p
  {
  }

  /** Reading the high digits and the k low digits of q together gives q back. */
  lemma ParseHighLow(q: nat, k: nat)
    ensures AllDigits(NatToString(High(q, k)) + LowDigits(q, k))
    ensures ParseDigits(NatToString(High(q, k)) + LowDigits(q, k)) == q
  {
    var h, l := High(q, k), Low(q, k);
    var hi, lo := NatToString(h), LowDigits(q, k);
    ParseNatToString(h);
    LowDigitsValue(q, k);
    ParseAppend(hi, lo);
    QuotientRemainder(q, Pow10(k));
  }

  /**
   * Round trip of the fixed-point text: one point and k fractional digits; reading it back
   * gives q; the integer part is the text of q / 10^k and the fraction is q mod 10^k
   * left-padded with zeros; the integer part is "0" exactly when q < 10^k.
   */
  lemma FormatFixedRoundTrip(q: nat, k: nat)
    requires k >= 1
    ensures IsFixedPoint(FormatFixed(q, k), k)
    ensures ParseFixedPoint(FormatFixed(q, k), k) == Some(q)
    ensures IntegerPart(FormatFixed(q, k), k) == NatToString(High(q, k))
    ensures FractionPart(FormatFixed(q, k), k) == PadStartZeros(NatToString(Low(q, k)), k)
    ensures IntegerPart(FormatFixed(q, k), k) == "0" <==> q < Pow10(k)
  {
    var p := Pow10(k);
    var hi, lo := NatToString(High(q, k)), LowDigits(q, k);
    FormatFixedParts(q, k);
    JoinFixedPoint(hi, lo, k);
    ParseHighLow(q, k);
    LowDigitsOfMod(q, k);
    LowDigitsPadded(q % p, k);
    TextIsZeroOnlyForZero(High(q, k));
    DivIsZero(q, p);
  }
}
