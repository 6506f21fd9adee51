/** money.Money: exact amounts in minor units, with overflow found exactly. */
module Money {
  import opened Wrappers
  import opened Numbers

  datatype Money = Money(minor: int, code: int)

  datatype MoneyError = DifferentCurrencies | Overflow | Malformed

  /** The same-sign test of the source finds every overflow and nothing else. */
  function Add(m: Money, other: Money): (r: Result<Money, MoneyError>)
    requires Fits(m.minor) && Fits(other.minor)
    ensures m.code != other.code <==> r == Failure(DifferentCurrencies)
    ensures m.code == other.code ==>
              var exact := m.minor + other.minor;
              r == if Fits(exact) then Success(Money(exact, m.code)) else Failure(Overflow)
  {
    if m.code != other.code then Failure(DifferentCurrencies)
    else
      var sum := Wrap(m.minor + other.minor);
      if (m.minor < 0) == (other.minor < 0) && (m.minor < 0) != (sum < 0) then
        assert !Fits(m.minor + other.minor);
        Failure(Overflow)
      else
        SumWraps(m.minor, other.minor);
        Success(Money(sum, m.code))
  }

  lemma SumWraps(a: int, b: int)
    requires Fits(a) && Fits(b)
    ensures a + b > MAX_INT64 ==> Wrap(a + b) == a + b - MODULUS
    ensures a + b < MIN_INT64 ==> Wrap(a + b) == a + b + MODULUS
  {
    if a + b > MAX_INT64 {
      WrapUnique(a + b, a + b - MODULUS, 1);
    } else if a + b < MIN_INT64 {
      WrapUnique(a + b, a + b + MODULUS, -1);
    }
  }

  function Sub(m: Money, other: Money): (r: Result<Money, MoneyError>)
    requires Fits(m.minor) && Fits(other.minor)
    ensures m.code != other.code <==> r == Failure(DifferentCurrencies)
    ensures m.code == other.code ==>
              var exact := m.minor - other.minor;
              r == if Fits(exact) then Success(Money(exact, m.code)) else Failure(Overflow)
  {
    if m.code != other.code then Failure(DifferentCurrencies)
    else
      var diff := Wrap(m.minor - other.minor);
      DiffWraps(m.minor, other.minor);
      if (m.minor < 0) != (other.minor < 0) && (m.minor < 0) != (diff < 0) then Failure(Overflow)
      else Success(Money(diff, m.code))
  }

  lemma DiffWraps(a: int, b: int)
    requires Fits(a) && Fits(b)
    ensures a - b > MAX_INT64 ==> Wrap(a - b) == a - b - MODULUS
    ensures a - b < MIN_INT64 ==> Wrap(a - b) == a - b + MODULUS
  {
    if a - b > MAX_INT64 {
      WrapUnique(a - b, a - b - MODULUS, 1);
    } else if a - b < MIN_INT64 {
      WrapUnique(a - b, a - b + MODULUS, -1);
    }
  }

  lemma Signs(q: int, b: int)
    ensures (-q) * b == -(q * b) && q * (-b) == -(q * b) && (-q) * (-b) == q * b
  {}

  lemma QuotRem(x: int, y: int)
    requires y != 0
    ensures Abs(x - Quot(x, y) * y) < Abs(y)
    ensures Abs(Quot(x, y)) <= Abs(x)
  {
    var a, b := Abs(x), Abs(y);
    var q := a / b;
    assert a == q * b + a % b;
    MulLe(1, b, q);
    Signs(q, b);
  }

  lemma QuotFits(x: int, y: int)
    requires Fits(x) && Fits(y) && y != 0
    ensures Fits(Quot(x, y)) || (x == MIN_INT64 && y == -1)
  {
    QuotRem(x, y);
    if x == MIN_INT64 && Abs(y) > 1 {
      MulLe(2, Abs(y), Abs(x) / Abs(y));
      assert Abs(x) == (Abs(x) / Abs(y)) * Abs(y) + Abs(x) % Abs(y);
    }
  }

  /** A product that wrapped cannot be divided back: it is off by at least 2^64, more than any
      remainder. The one exception is MinInt64 * -1, which the source tests by itself. */
  lemma DividesBackOnlyIfExact(a: int, n: int)
    requires Fits(a) && Fits(n) && n != 0
    requires Wrap(Quot(Wrap(a * n), n)) == a && !(a == MIN_INT64 && n == -1)
    ensures Fits(a * n)
  {
    if n != -1 {
      var p, k := Wrap(a * n), Wraps(a * n);
      QuotFits(p, n);
      QuotRem(p, n);
      assert Quot(p, n) == a;
      assert a * n - p == k * MODULUS;
      assert k == 0;
    }
  }

  function Mul(m: Money, n: int): (r: Result<Money, MoneyError>)
    requires Fits(m.minor) && Fits(n)
    ensures if Fits(m.minor * n) then r == Success(Money(m.minor * n, m.code)) else r == Failure(Overflow)
  {
    if m.minor == 0 || n == 0 then Success(Money(0, m.code))
    else
      var prod := Wrap(m.minor * n);
      if (m.minor == MIN_INT64 && n == -1) || (n == MIN_INT64 && m.minor == -1) then Failure(Overflow)
      else if Wrap(Quot(prod, n)) != m.minor then
        ExactDivides(m.minor, n);
        Failure(Overflow)
      else
        DividesBackOnlyIfExact(m.minor, n);
        Success(Money(prod, m.code))
  }

  lemma ExactDivides(a: int, n: int)
    requires n != 0
    ensures Quot(a * n, n) == a
  {
    var x, y := Abs(a), Abs(n);
    ProductOfAbs(a, n);
    DivExact(x, y);
    MulLe(0, y, x);
    if x > 0 {
      MulLe(1, y, x);
    }
  }

  lemma ProductOfAbs(a: int, n: int)
    ensures Abs(a * n) == Abs(a) * Abs(n)
    ensures (a > 0 && n > 0) || (a < 0 && n < 0) ==> a * n > 0
    ensures (a > 0 && n < 0) || (a < 0 && n > 0) ==> a * n < 0
    ensures a == 0 ==> a * n == 0
  {
    var x, y := Abs(a), Abs(n);
    assert x * y >= 0;
    if a < 0 {
      assert a * n == -(x * n);
    }
    if n < 0 {
      assert x * n == -(x * y);
    }
  }

  lemma DivExact(x: int, y: int)
    requires y > 0
    ensures (x * y) / y == x
  {
    var q, r := (x * y) / y, (x * y) % y;
    assert x * y == q * y + r;
    assert (x - q) * y == r;
    if x - q >= 1 {
      MulLe(1, x - q, y);
    } else if x - q <= -1 {
      MulLe(x - q, -1, y);
    }
  }
}
