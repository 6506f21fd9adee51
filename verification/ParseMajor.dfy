/** money.ParseMajor: a decimal string in major units to minor units, in int64 arithmetic. */
module ParseMajor {
  import opened Wrappers
  import opened Numbers

  datatype ParseError = Empty | NotAnAmount | TooManyDigits | Overflow

  /** The string after its sign, cut at its first dot. */
  datatype Parts = Parts(neg: bool, whole: string, frac: string)

  function DotAt(t: string): (i: nat)
    ensures i <= |t| && (i < |t| ==> t[i] == '.') && '.' !in t[..i]
  {
    if t == "" || t[0] == '.' then 0
    else
      var i := DotAt(t[1..]);
      assert t[..i + 1] == [t[0]] + t[1..][..i];
      1 + i
  }

  function PartsOf(s: string): Parts
    requires s != ""
  {
    var t := if s[0] == '+' || s[0] == '-' then s[1..] else s;
    var i := DotAt(t);
    Parts(s[0] == '-', t[..i], if i < |t| then t[i + 1..] else "")
  }

  /** Digits, with at most `decimals` of them after the dot and at least one in all. */
  predicate WellFormed(p: Parts, decimals: nat) {
    AllDigits(p.whole) && AllDigits(p.frac) && |p.frac| <= decimals && (p.whole != "" || p.frac != "")
  }

  /** The unsigned amount, whole.frac times 10^decimals: minor units. */
  function Magnitude(p: Parts, decimals: nat): int
    requires WellFormed(p, decimals)
  {
    Val(p.whole) * Pow10(decimals) + Val(p.frac) * Pow10(decimals - |p.frac|)
  }

  function Amount(p: Parts, decimals: nat): int
    requires WellFormed(p, decimals)
  {
    if p.neg then -Magnitude(p, decimals) else Magnitude(p, decimals)
  }

  /** One digit more, in int64. */
  lemma NextDigit(s: string, i: nat, acc: int)
    requires AllDigits(s) && i < |s| && acc == Wrap(Val(s[..i]))
    ensures Wrap(Wrap(acc * 10) + DigitValue(s[i])) == Wrap(Val(s[..i + 1]))
  {
    var d := DigitValue(s[i]);
    WrapOfProduct(Val(s[..i]), 10);
    WrapOfSum(Val(s[..i]) * 10, d);
    ValOfPrefix(s, i);
  }

  /** The loop's overflow test at digit `i`: the wrapped value would go down. */
  predicate DropsAt(whole: string, i: nat)
    requires AllDigits(whole) && i < |whole|
  {
    Wrap(Val(whole[..i + 1])) < Wrap(Val(whole[..i]))
  }

  /** Some digit trips the test. */
  predicate Drops(whole: string)
    requires AllDigits(whole)
  {
    exists i :: 0 <= i < |whole| && DropsAt(whole, i)
  }

  /** The digits before the first character that is none. */
  function Leading(s: string): (t: string)
    ensures AllDigits(t) && t <= s && (t == s <==> AllDigits(s))
    ensures |t| < |s| ==> !IsDigit(s[|t|])
  {
    if s == "" || !IsDigit(s[0]) then ""
    else
      var t := Leading(s[1..]);
      assert [s[0]] + t <= s;
      [s[0]] + t
  }

  /** The source's loop over the whole part: an overflow is reported exactly when some digit trips
      the test, before any character that is no digit, and otherwise the value comes out modulo 2^64. */
  method ParseWhole(whole: string) returns (r: Result<int, ParseError>)
    ensures r == Failure(Overflow) <==> Drops(Leading(whole))
    ensures r == Failure(NotAnAmount) <==> !AllDigits(whole) && !Drops(Leading(whole))
    ensures AllDigits(whole) ==> r == if Drops(whole) then Failure(Overflow) else Success(Wrap(Val(whole)))
  {
    hide Wrap, Val;
    var minor := 0;
    NoDigits();
    for i := 0 to |whole|
      invariant AllDigits(whole[..i]) && minor == Wrap(Val(whole[..i]))
      invariant i <= |Leading(whole)| && forall h | 0 <= h < i :: !DropsAt(Leading(whole), h)
    {
      LeadingPrefix(whole, i);
      if !IsDigit(whole[i]) {
        return Failure(NotAnAmount);
      }
      NextPrefix(whole, i, minor);
      var next := Wrap(Wrap(minor * 10) + DigitValue(whole[i]));
      if next < minor {
        assert DropsAt(Leading(whole), i);
        return Failure(Overflow);
      }
      minor := next;
    }
    assert whole[..|whole|] == whole;
    return Success(minor);
  }

  lemma LeadingPrefix(whole: string, i: nat)
    requires i < |whole| && i <= |Leading(whole)|
    ensures Leading(whole)[..i] == whole[..i]
    ensures i < |Leading(whole)| <==> IsDigit(whole[i])
    ensures i < |Leading(whole)| ==> Leading(whole)[..i + 1] == whole[..i + 1]
  {}

  lemma NoDigits()
    ensures Val("") == 0 && Wrap(0) == 0
  {}

  lemma NextPrefix(s: string, i: nat, acc: int)
    requires i < |s| && AllDigits(s[..i]) && IsDigit(s[i]) && acc == Wrap(Val(s[..i]))
    ensures AllDigits(s[..i + 1]) && Wrap(Wrap(acc * 10) + DigitValue(s[i])) == Wrap(Val(s[..i + 1]))
  {
    var t := s[..i + 1];
    assert t[..i] == s[..i] && t[..i + 1] == t;
    NextDigit(t, i, acc);
  }

  // ---- which overflows of the whole part are reported

  /** None on a value that fits. */
  lemma FittingNeverDrops(whole: string)
    requires AllDigits(whole) && Val(whole) <= MAX_INT64
    ensures !Drops(whole)
  {
    forall i | 0 <= i < |whole| ensures !DropsAt(whole, i) {
      PrefixNotLarger(whole, i);
      PrefixNotLarger(whole, i + 1);
      ValOfPrefix(whole, i);
    }
  }

  /** Every value from 2^63 to 2^64: only the last digit can have led there. */
  lemma NextBlockDrops(whole: string)
    requires AllDigits(whole) && MAX_INT64 < Val(whole) < MODULUS
    ensures Drops(whole)
  {
    var n := |whole| - 1;
    assert whole[..n + 1] == whole;
    ValOfPrefix(whole, n);
    WrapUnique(Val(whole), Val(whole) - MODULUS, 1);
    assert DropsAt(whole, n);
  }

  /** A last digit after a value that fits goes unnoticed exactly when the wrapped value is not
      smaller. */
  lemma LastDigitDropsIff(whole: string)
    requires AllDigits(whole) && whole != "" && Val(whole[..|whole| - 1]) <= MAX_INT64
    ensures Drops(whole) <==> Wrap(Val(whole)) < Val(whole[..|whole| - 1])
  {
    hide Wrap, Val;
    var n := |whole| - 1;
    var init := whole[..n];
    FittingNeverDrops(init);
    assert Wrap(Val(init)) == Val(init);
    assert whole[..n + 1] == whole;
    forall i | 0 <= i < n ensures !DropsAt(whole, i) {
      assert init[..i + 1] == whole[..i + 1] && init[..i] == whole[..i];
      assert !DropsAt(init, i);
    }
    assert DropsAt(whole, n) <==> Wrap(Val(whole)) < Val(init);
  }

  /** minor *= 10, n times. */
  method ShiftLeft(x: int, n: nat, ghost exact: int) returns (y: int)
    requires x == Wrap(exact)
    ensures y == Wrap(exact * Pow10(n))
  {
    y := x;
    for i := 0 to n
      invariant y == Wrap(exact * Pow10(i))
    {
      WrapOfProduct(exact * Pow10(i), 10);
      TimesTen(exact, Pow10(i));
      y := Wrap(y * 10);
    }
  }

  method ParseFrac(frac: string, decimals: nat) returns (r: Result<int, ParseError>)
    requires |frac| <= decimals
    ensures r.Success? <==> AllDigits(frac)
    ensures r.Failure? ==> r.error == NotAnAmount
    ensures AllDigits(frac) ==> r == Success(Wrap(Val(frac) * Pow10(decimals - |frac|)))
  {
    var f := 0;
    for i := 0 to |frac|
      invariant AllDigits(frac[..i]) && f == Wrap(Val(frac[..i]))
    {
      if !IsDigit(frac[i]) {
        return Failure(NotAnAmount);
      }
      assert AllDigits(frac[..i + 1]) && frac[..i + 1][..i] == frac[..i];
      NextDigit(frac[..i + 1], i, f);
      assert frac[..i + 1][..i + 1] == frac[..i + 1];
      f := Wrap(Wrap(f * 10) + DigitValue(frac[i]));
    }
    assert frac[..|frac|] == frac;
    f := ShiftLeft(f, decimals - |frac|, Val(frac));
    return Success(f);
  }

  lemma NothingDrops()
    ensures !Drops(Leading(""))
  {}

  /** What is said of a string that is not an amount. */
  function Complaint(whole: string, frac: string, decimals: nat): ParseError {
    if |frac| > decimals then TooManyDigits else if Drops(Leading(whole)) then Overflow else NotAnAmount
  }

  method ParseUnsigned(whole: string, hasFrac: bool, frac: string, decimals: nat) returns (r: Result<int, ParseError>)
    requires hasFrac || frac == ""
    ensures var p := Parts(false, whole, frac);
            if !WellFormed(p, decimals) then r == Failure(Complaint(whole, frac, decimals))
            else r == if Drops(whole) then Failure(Overflow) else Success(Wrap(Magnitude(p, decimals)))
  {
    hide Wrap, Val, Drops, Pow10;
    if whole == "" && frac == "" {
      NothingDrops();
      return Failure(NotAnAmount);
    }
    if |frac| > decimals {
      return Failure(TooManyDigits);
    }
    var w := ParseWhole(whole);
    if w.Failure? {
      return w;
    }
    ghost var v := Val(whole) * Pow10(decimals);
    var minor := ShiftLeft(w.value, decimals, Val(whole));
    if hasFrac {
      var f := ParseFrac(frac, decimals);
      if f.Failure? {
        return f;
      }
      SumOfWrapped(v, Val(frac) * Pow10(decimals - |frac|));
      minor := Wrap(minor + f.value);
    } else {
      NoDigits();
    }
    return Success(minor);
  }

  /** The currency's number of decimals is given. A string that is not an amount is an error. Of the
      others, those whose whole part trips the test are an overflow error and the rest come out
      modulo 2^64: so the answer is the amount if and only if that fits int64 and is not -2^63
      without decimals. */
  method Parse(s: string, decimals: nat) returns (r: Result<int, ParseError>)
    ensures s == "" ==> r == Failure(Empty)
    ensures s != "" && !WellFormed(PartsOf(s), decimals) ==>
              r == Failure(Complaint(PartsOf(s).whole, PartsOf(s).frac, decimals))
    ensures s != "" && WellFormed(PartsOf(s), decimals) ==>
              var p := PartsOf(s);
              var amount := Amount(p, decimals);
              && r == (if Drops(p.whole) then Failure(Overflow) else Success(Wrap(amount)))
              && (r == Success(amount) <==> Fits(amount) && !(amount == MIN_INT64 && decimals == 0))
    ensures forall sign, whole, dot, frac |
              IsAmount(sign, whole, dot, frac, decimals) && s == Written(sign, whole, dot, frac) ::
              var exact := Val(whole) * Pow10(decimals) + Val(frac) * Pow10(decimals - |frac|);
              r == if Drops(whole) then Failure(Overflow) else Success(Wrap(if sign == "-" then -exact else exact))
  {
    hide DotAt, Val, Pow10, Wrap, Drops, Written, Complaint, IsAmount;
    if s == "" {
      ParsedWritten(s, decimals, Failure(Empty));
      return Failure(Empty);
    }
    var neg, t := false, s;
    if s[0] == '+' {
      t := s[1..];
    } else if s[0] == '-' {
      neg, t := true, s[1..];
    }
    var whole, frac, hasFrac := t, "", false;
    var i := DotAt(t);
    if i < |t| {
      whole, frac, hasFrac := t[..i], t[i + 1..], true;
    }
    assert PartsOf(s) == Parts(neg, whole, frac) by {
      assert i == |t| ==> t[..i] == t;
    }
    r := ParseUnsigned(whole, hasFrac, frac, decimals);
    ghost var p := Parts(neg, whole, frac);
    if WellFormed(p, decimals) {
      WrapOfNegation(Magnitude(p, decimals));
      ExactIff(p, decimals);
    }
    if neg && r.Success? {
      r := Success(Wrap(-r.value));
    }
    ParsedWritten(s, decimals, r);
  }

  /** When the amount comes out: it fits, and the whole part is not 2^63. */
  lemma ExactIff(p: Parts, decimals: nat)
    requires WellFormed(p, decimals)
    ensures var amount := Amount(p, decimals);
            !Drops(p.whole) && Wrap(amount) == amount <==> Fits(amount) && !(amount == MIN_INT64 && decimals == 0)
  {
    hide Drops, Val, Wrap, Pow10;
    WholeFits(p, decimals);
    if Val(p.whole) <= MAX_INT64 {
      FittingNeverDrops(p.whole);
    } else if Val(p.whole) == MAX_INT64 + 1 {
      NextBlockDrops(p.whole);
    }
  }

  lemma SumOfWrapped(x: int, y: int)
    ensures Wrap(Wrap(x) + Wrap(y)) == Wrap(x + y)
  {
    WrapOfSum(x, Wrap(y));
    WrapOfSum(y, x);
  }

  /** The whole part of an amount that fits also fits, unless it is 2^63 itself. */
  lemma WholeFits(p: Parts, decimals: nat)
    requires WellFormed(p, decimals)
    ensures Fits(Amount(p, decimals)) ==>
              Val(p.whole) <= MAX_INT64 || (Amount(p, decimals) == MIN_INT64 && decimals == 0)
    ensures Amount(p, decimals) == MIN_INT64 && decimals == 0 ==> Val(p.whole) == MAX_INT64 + 1
  {
    var w, q := Val(p.whole), Pow10(decimals);
    assert w * q >= w by {
      MulAtLeast(w, q);
    }
    if decimals > 0 {
      assert q >= 10;
      MulAtLeast10(w, q);
    }
  }

  lemma MulAtLeast(w: nat, q: nat)
    requires q >= 1
    ensures w * q >= w
  {}

  lemma MulAtLeast10(w: nat, q: nat)
    requires q >= 10
    ensures w * q >= 10 * w
  {}

  // ---- the numbers as they are written

  lemma {:induction false} DotAfter(whole: string, rest: string)
    requires '.' !in whole && (rest == "" || rest[0] == '.')
    ensures DotAt(whole + rest) == |whole|
  {
    if whole != "" {
      assert (whole + rest)[1..] == whole[1..] + rest;
      DotAfter(whole[1..], rest);
    } else {
      assert whole + rest == rest;
    }
  }

  lemma NoDot(t: string)
    requires AllDigits(t)
    ensures DotAt(t) == |t|
  {
    assert t + "" == t;
    DotAfter(t, "");
  }

  /** A sign or none, a whole part, and unless `dot` is false a dot and a fraction. */
  function Written(sign: string, whole: string, dot: bool, frac: string): string {
    sign + whole + if dot then "." + frac else ""
  }

  predicate IsSigned(c: char) {
    c == '+' || c == '-'
  }

  lemma SignedParts(sign: string, t: string)
    requires sign in {"", "+", "-"} && sign + t != "" && (sign == "" ==> !IsSigned(t[0]))
    ensures var i := DotAt(t);
            PartsOf(sign + t) == Parts(sign == "-", t[..i], if i < |t| then t[i + 1..] else "")
  {
    hide DotAt;
    var s := sign + t;
    if sign == "" {
      assert s == t;
    } else {
      assert s[0] == sign[0] && s[1..] == t;
    }
  }

  /** The string is cut where it was put together: the sign is negative for a minus only. */
  lemma PartsOfWritten(sign: string, whole: string, dot: bool, frac: string)
    requires sign in {"", "+", "-"} && '.' !in whole && (dot || frac == "")
    requires Written(sign, whole, dot, frac) != ""
    requires (sign == "" ==> !IsSigned(Written("", whole, dot, frac)[0]))
    ensures PartsOf(Written(sign, whole, dot, frac)) == Parts(sign == "-", whole, frac)
  {
    hide DotAt, PartsOf;
    var t, rest := Written("", whole, dot, frac), if dot then "." + frac else "";
    assert t == whole + rest;
    assert Written(sign, whole, dot, frac) == sign + t;
    SignedParts(sign, t);
    DotAfter(whole, rest);
    assert t[..|whole|] == whole;
    assert dot ==> t[|whole| + 1..] == frac;
  }

  /** What `Parse` goes by for every number as it is written: with its contract, the answer is
      whole.frac in minor units, with the sign, modulo 2^64. */
  lemma WrittenAmount(sign: string, whole: string, dot: bool, frac: string, decimals: nat)
    requires sign in {"", "+", "-"} && AllDigits(whole) && AllDigits(frac) && (dot || frac == "")
    requires (whole != "" || frac != "") && |frac| <= decimals
    ensures var s := Written(sign, whole, dot, frac);
            var exact := Val(whole) * Pow10(decimals) + Val(frac) * Pow10(decimals - |frac|);
            && s != "" && WellFormed(PartsOf(s), decimals) && PartsOf(s).whole == whole
            && Amount(PartsOf(s), decimals) == if sign == "-" then -exact else exact
  {
    hide Val, Pow10, PartsOf;
    var t := Written("", whole, dot, frac);
    assert t != "" && !IsSigned(t[0]) by {
      assert whole != "" ==> t[0] == whole[0] && IsDigit(whole[0]);
    }
    PartsOfWritten(sign, whole, dot, frac);
  }

  predicate IsAmount(sign: string, whole: string, dot: bool, frac: string, decimals: nat) {
    && sign in {"", "+", "-"} && AllDigits(whole) && AllDigits(frac) && (dot || frac == "")
    && (whole != "" || frac != "") && |frac| <= decimals
  }

  lemma PutTogether(s: string) returns (sign: string, dot: bool)
    requires s != ""
    ensures sign in {"", "+", "-"}
    ensures var p := PartsOf(s);
            (dot || p.frac == "") && s == Written(sign, p.whole, dot, p.frac)
  {
    hide DotAt;
    sign := if s[0] == '+' || s[0] == '-' then [s[0]] else "";
    var t := s[|sign|..];
    var i := DotAt(t);
    dot := i < |t|;
    assert s == sign + t;
    assert t == t[..i] + if dot then "." + t[i + 1..] else "";
    assert Written(sign, t[..i], dot, if dot then t[i + 1..] else "") == sign + t;
    assert PartsOf(s) == Parts(s[0] == '-', t[..i], if dot then t[i + 1..] else "");
  }

  lemma ParsedWritten(s: string, decimals: nat, r: Result<int, ParseError>)
    requires s != "" && WellFormed(PartsOf(s), decimals) ==>
               r == if Drops(PartsOf(s).whole) then Failure(Overflow) else Success(Wrap(Amount(PartsOf(s), decimals)))
    ensures forall sign, whole, dot, frac |
              IsAmount(sign, whole, dot, frac, decimals) && s == Written(sign, whole, dot, frac) ::
              var exact := Val(whole) * Pow10(decimals) + Val(frac) * Pow10(decimals - |frac|);
              r == if Drops(whole) then Failure(Overflow) else Success(Wrap(if sign == "-" then -exact else exact))
  {
    hide Val, Pow10, PartsOf, Written, Wrap, Drops, Amount;
    forall sign, whole, dot, frac | IsAmount(sign, whole, dot, frac, decimals) && s == Written(sign, whole, dot, frac)
      ensures var exact := Val(whole) * Pow10(decimals) + Val(frac) * Pow10(decimals - |frac|);
              r == if Drops(whole) then Failure(Overflow) else Success(Wrap(if sign == "-" then -exact else exact))
    {
      WrittenAmount(sign, whole, dot, frac, decimals);
    }
  }

  /** And those are all the strings that are amounts. */
  lemma WellFormedIffWritten(s: string, decimals: nat)
    ensures (s != "" && WellFormed(PartsOf(s), decimals)) <==>
            exists sign, whole, dot, frac ::
              IsAmount(sign, whole, dot, frac, decimals) && s == Written(sign, whole, dot, frac)
  {
    hide PartsOf, Written, Val, Pow10;
    if s != "" && WellFormed(PartsOf(s), decimals) {
      var sign, dot := PutTogether(s);
      assert IsAmount(sign, PartsOf(s).whole, dot, PartsOf(s).frac, decimals);
    }
    if sign, whole, dot, frac :| IsAmount(sign, whole, dot, frac, decimals) && s == Written(sign, whole, dot, frac) {
      WrittenAmount(sign, whole, dot, frac, decimals);
    }
  }

  // ---- what is not reported

  lemma WholeOf(n: nat, decimals: nat)
    ensures var s := Decimal(n);
            && PartsOf(s) == Parts(false, s, "")
            && WellFormed(PartsOf(s), decimals)
            && Amount(PartsOf(s), decimals) == n * Pow10(decimals)
  {
    hide DotAt, Val, Pow10;
    var s := Decimal(n);
    NoDot(s);
    NoDigits();
    assert IsDigit(s[0]);
    assert s[..|s|] == s;
    assert PartsOf(s) == Parts(false, s, "");
  }

  /** Every whole number of major units that fits while its minor units do not: by Parse's contract
      the answer is a wrapped amount and no error. */
  lemma UncheckedShift(n: nat, decimals: nat)
    requires n <= MAX_INT64 < n * Pow10(decimals)
    ensures var p := PartsOf(Decimal(n));
            && WellFormed(p, decimals) && !Drops(p.whole)
            && Amount(p, decimals) == n * Pow10(decimals)
            && Wrap(Amount(p, decimals)) != Amount(p, decimals)
  {
    hide Drops;
    WholeOf(n, decimals);
    FittingNeverDrops(Decimal(n));
  }

  lemma {:induction false} ZerosAfter(head: string, n: nat)
    requires AllDigits(head)
    ensures var s := head + seq(n, _ => '0');
            AllDigits(s) && Val(s) == Val(head) * Pow10(n)
    decreases n
  {
    var s := head + seq(n, _ => '0');
    if n == 0 {
      assert s == head;
    } else {
      ZerosAfter(head, n - 1);
      assert s[..|s| - 1] == head + seq(n - 1, _ => '0');
      TimesTen(Val(head), Pow10(n - 1));
    }
  }

  /** The digit loop's own test misses overflows too: 45 * 10^18 in a currency without decimals wraps
      to a larger number than the one before its last digit, and is accepted as 8106511852580896768. */
  lemma UnnoticedWholePart()
    ensures var p := PartsOf("45" + seq(18, _ => '0'));
            && WellFormed(p, 0) && !Drops(p.whole)
            && Amount(p, 0) == 45_000_000_000_000_000_000
            && Wrap(Amount(p, 0)) == 8_106_511_852_580_896_768
  {
    hide Val, Drops, Pow10, Wrap;
    var s := "45" + seq(18, _ => '0');
    FortyFive();
    ZerosAfter("45", 17);
    ZerosAfter("45", 18);
    NoDot(s);
    assert s[..|s|] == s;
    assert s[..|s| - 1] == "45" + seq(17, _ => '0');
    WrapUnique(45_000_000_000_000_000_000, 8_106_511_852_580_896_768, 2);
    NoDigits();
    assert PartsOf(s) == Parts(false, s, "");
    LastDigitDropsIff(s);
  }

  lemma FortyFive()
    ensures Val("45") == 45 && Pow10(0) == 1
    ensures Pow10(17) == 100_000_000_000_000_000 && Pow10(18) == 1_000_000_000_000_000_000
  {
    assert "45"[..1] == "4" && "4"[..0] == "";
    assert Pow10(9) == 1_000_000_000;
  }
}
