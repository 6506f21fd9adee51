/** Two's-complement int64 arithmetic and decimal digit strings. */
module Numbers {
  const MIN_INT64 := -0x8000_0000_0000_0000
  const MAX_INT64 := 0x7fff_ffff_ffff_ffff
  const MODULUS := 0x1_0000_0000_0000_0000

  predicate Fits(x: int) {
    MIN_INT64 <= x <= MAX_INT64
  }

  /** The int64 left after overflow. */
  function Wrap(x: int): (w: int)
    ensures Fits(w) && (Fits(x) <==> w == x)
    ensures (x - w) % MODULUS == 0
  {
    var w := (x - MIN_INT64) % MODULUS + MIN_INT64;
    assert x - w == ((x - MIN_INT64) / MODULUS) * MODULUS;
    ModOfMultiple((x - MIN_INT64) / MODULUS);
    w
  }

  lemma ModOfMultiple(k: int)
    ensures (k * MODULUS) % MODULUS == 0
  {}

  /** How often the modulus was taken off. */
  ghost function Wraps(x: int): (k: int)
    ensures x == Wrap(x) + k * MODULUS
  {
    (x - Wrap(x)) / MODULUS
  }

  lemma WrapUnique(x: int, w: int, k: int)
    requires x == w + k * MODULUS && Fits(w)
    ensures Wrap(x) == w
  {
    assert (x - MIN_INT64) == (w - MIN_INT64) + k * MODULUS;
  }

  lemma WrapSame(x: int, y: int, k: int)
    requires x == y + k * MODULUS
    ensures Wrap(x) == Wrap(y)
  {
    WrapUnique(x, Wrap(y), k + Wraps(y));
  }

  lemma WrapOfSum(x: int, y: int)
    ensures Wrap(Wrap(x) + y) == Wrap(x + y)
  {
    WrapSame(x + y, Wrap(x) + y, Wraps(x));
  }

  lemma WrapOfProduct(x: int, y: int)
    ensures Wrap(Wrap(x) * y) == Wrap(x * y)
  {
    var k := Wraps(x);
    assert x * y == Wrap(x) * y + (k * y) * MODULUS;
    WrapSame(x * y, Wrap(x) * y, k * y);
  }

  lemma WrapOfNegation(x: int)
    ensures Wrap(-Wrap(x)) == Wrap(-x)
  {
    WrapSame(-x, -Wrap(x), -Wraps(x));
  }

  /** Division and remainder that round toward zero. */
  function Quot(x: int, y: int): int
    requires y != 0
  {
    if (x < 0) == (y < 0) then Abs(x) / Abs(y) else -(Abs(x) / Abs(y))
  }

  function Rem(x: int, y: int): int
    requires y != 0
  {
    x - Quot(x, y) * y
  }

  function Abs(x: int): nat {
    if x < 0 then -x else x
  }

  lemma MulLe(a: int, b: int, p: int)
    requires a <= b && p >= 0
    ensures a * p <= b * p && p * a <= p * b
  {}

  // ---- digits

  predicate IsDigit(c: char) {
    '0' <= c <= '9'
  }

  predicate AllDigits(s: string) {
    forall i | 0 <= i < |s| :: IsDigit(s[i])
  }

  function DigitValue(c: char): (d: int)
    requires IsDigit(c)
    ensures 0 <= d <= 9
  {
    c as int - '0' as int
  }

  /** The number a digit string writes; zero for the empty string. */
  function Val(s: string): (v: nat)
    requires AllDigits(s)
  {
    if s == "" then 0 else 10 * Val(s[..|s| - 1]) + DigitValue(s[|s| - 1])
  }

  function Pow10(n: nat): (p: nat)
    ensures p >= 1
  {
    if n == 0 then 1 else 10 * Pow10(n - 1)
  }

  function DigitOf(d: nat): (c: char)
    requires d <= 9
    ensures IsDigit(c) && DigitValue(c) == d
  {
    '0' + d as char
  }

  /** The decimal form of a number, as %d prints it. */
  function Decimal(n: nat): (s: string)
    ensures AllDigits(s) && s != "" && Val(s) == n
  {
    if n < 10 then [DigitOf(n)]
    else
      var head := Decimal(n / 10);
      var s := head + [DigitOf(n % 10)];
      assert s[..|s| - 1] == head;
      s
  }

  lemma ValOfPrefix(s: string, i: nat)
    requires AllDigits(s) && i < |s|
    ensures Val(s[..i + 1]) == 10 * Val(s[..i]) + DigitValue(s[i])
  {
    assert s[..i + 1][..i] == s[..i];
  }

  lemma {:induction false} PrefixNotLarger(s: string, i: nat)
    requires AllDigits(s) && i <= |s|
    ensures Val(s[..i]) <= Val(s)
    decreases |s| - i
  {
    if i == |s| {
      assert s[..i] == s;
    } else {
      ValOfPrefix(s, i);
      PrefixNotLarger(s, i + 1);
    }
  }

  lemma TimesTen(x: int, y: int)
    ensures x * (10 * y) == 10 * (x * y)
  {}

  lemma {:induction false} ValConcat(a: string, b: string)
    requires AllDigits(a) && AllDigits(b)
    ensures AllDigits(a + b) && Val(a + b) == Val(a) * Pow10(|b|) + Val(b)
    decreases |b|
  {
    if b == "" {
      assert a + b == a;
    } else {
      var init := b[..|b| - 1];
      ValConcat(a, init);
      assert (a + b)[..|a + b| - 1] == a + init;
      TimesTen(Val(a), Pow10(|init|));
    }
  }

  lemma {:induction false} ValBelowPow10(s: string)
    requires AllDigits(s)
    ensures Val(s) < Pow10(|s|)
    decreases |s|
  {
    if s != "" {
      ValBelowPow10(s[..|s| - 1]);
    }
  }
}
