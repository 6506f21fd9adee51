/** installment.Money: kopeck counts, their printed form and its parser. */
module InstallmentMoney {
  import opened Wrappers
  import opened Numbers
  import opened ParseMajor

  // ---- printing

  /** fmt's %d. */
  function PrintInt(n: int): string {
    if n < 0 then "-" + Decimal(-n) else Decimal(n)
  }

  /** fmt's %02d. */
  function PrintInt2(n: int): string {
    if 0 <= n < 10 then "0" + PrintInt(n) else PrintInt(n)
  }

  /** Money.String, which is also what MarshalJSON emits. */
  function Print(kopecks: int): string
    requires Fits(kopecks)
  {
    var neg := kopecks < 0;
    var abs := if neg then Wrap(-kopecks) else kopecks;
    (if neg then "-" else "") + PrintInt(Quot(abs, 100)) + "." + PrintInt2(Rem(abs, 100))
  }

  // ---- parsing

  /** strconv.ParseInt(s, 10, 64): an optional sign, digits, and the int64 range. */
  function ParseInt(s: string): Option<int> {
    if s == "" then None
    else
      var signed := s[0] == '+' || s[0] == '-';
      var digits := if signed then s[1..] else s;
      if digits == "" || !AllDigits(digits) then None
      else
        var m: int := Val(digits);
        var v := if s[0] == '-' then -m else m;
        if Fits(v) then Some(v) else None
  }

  /** The kopeck part as the source reads it: padded or cut to two characters, the third deciding
      whether to round up. */
  function ParseKopecks(k: string): Option<int> {
    if k == "" then Some(0)
    else if |k| == 1 then ParseInt(k + "0")
    else if |k| == 2 then ParseInt(k)
    else
      var v := ParseInt(k[..2]);
      if k[2] >= '5' && v.Some? then Some(v.value + 1) else v
  }

  /** The part after the sign. */
  function ParseUnsigned(t: string): Option<int> {
    if t == "" then None
    else
      var i := DotAt(t);
      var hr := ParseInt(if i == 0 then "0" else t[..i]);
      if hr.None? then None
      else
        var kop := if i < |t| then ParseKopecks(t[i + 1..]) else Some(0);
        if kop.None? || hr.value < 0 then None
        else Some(Wrap(Wrap(hr.value * 100) + kop.value))
  }

  /** parseDecimalKopecks. */
  function ParseDecimal(s: string): Option<int>
    requires s != ""
  {
    var neg := s[0] == '-';
    var total := ParseUnsigned(if s[0] == '+' || neg then s[1..] else s);
    if total.None? then None else Some(if neg then Wrap(-total.value) else total.value)
  }

  /** unicode.IsSpace, which strings.TrimSpace uses. */
  predicate IsSpace(c: char) {
    var u := c as int;
    || u == 0x20 || 9 <= u <= 13 || 0x2000 <= u <= 0x200a
    || u in {0x85, 0xA0, 0x1680, 0x2028, 0x2029, 0x202f, 0x205f, 0x3000}
  }

  function TrimLeft(s: string): string {
    if s != "" && IsSpace(s[0]) then TrimLeft(s[1..]) else s
  }

  function TrimRight(s: string): string {
    if s != "" && IsSpace(s[|s| - 1]) then TrimRight(s[..|s| - 1]) else s
  }

  /** The value UnmarshalJSON stores; None is ErrInvalidMoney. */
  function Unmarshalled(data: string): Option<int> {
    var s := TrimRight(TrimLeft(data));
    if s == "null" || s == "" then Some(0)
    else
      var t := if |s| >= 2 && s[0] == '"' && s[|s| - 1] == '"' then s[1..|s| - 1] else s;
      if t == "" then Some(0) else ParseDecimal(t)
  }

  class Money {
    var kopecks: int

    /** Leaves the amount alone when the text is not an amount. */
    method UnmarshalJSON(data: string) returns (ok: bool)
      modifies this
      ensures ok == Unmarshalled(data).Some?
      ensures kopecks == if ok then Unmarshalled(data).value else old(kopecks)
    {
      var s := TrimRight(TrimLeft(data));
      if s == "null" || s == "" {
        kopecks := 0;
        return true;
      }
      if |s| >= 2 && s[0] == '"' && s[|s| - 1] == '"' {
        s := s[1..|s| - 1];
      }
      if s == "" {
        kopecks := 0;
        return true;
      }
      var k := ParseDecimal(s);
      if k.None? {
        return false;
      }
      kopecks := k.value;
      return true;
    }
  }

  // ---- the exact value of a decimal string

  /** `k` is `num`/`den`, both non-negative, rounded half up. */
  ghost predicate RoundsTo(k: int, num: int, den: int) {
    2 * k * den <= 2 * num + den < 2 * k * den + 2 * den
  }

  predicate IsWritten(sign: string, whole: string, dot: bool, frac: string) {
    && sign in {"", "+", "-"}
    && AllDigits(whole) && AllDigits(frac)
    && (dot || (frac == "" && whole != ""))
  }

  /** The kopecks of a fraction: two digits, rounded half up on the third. */
  function Kopecks(frac: string): (k: int)
    requires AllDigits(frac)
    ensures 0 <= k <= 100
  {
    if frac == "" then 0
    else if |frac| == 1 then 10 * DigitValue(frac[0])
    else 10 * DigitValue(frac[0]) + DigitValue(frac[1]) + if |frac| > 2 && DigitValue(frac[2]) >= 5 then 1 else 0
  }

  // ---- parsing what is written

  lemma ParseDigits(s: string)
    requires AllDigits(s) && s != ""
    ensures ParseInt(s) == if Val(s) <= MAX_INT64 then Some(Val(s)) else None
  {
    assert IsDigit(s[0]);
  }

  // ---- which strings are accepted

  /** What passes for the hryvnia part: nothing, or digits after at most one more sign, in the int64
      range, and only zero after a minus. */
  predicate IsHryvnia(w: string) {
    w == "" ||
    var digits := if IsSigned(w[0]) then w[1..] else w;
    digits != "" && AllDigits(digits) && Val(digits) <= (if w[0] == '-' then 0 else MAX_INT64)
  }

  /** What passes for the kopeck part: only its first two characters are looked at, of which the
      first may be a sign; whatever follows is neither a digit's place nor an error. */
  predicate IsKopeck(k: string) {
    k == "" || ((IsDigit(k[0]) || IsSigned(k[0])) && (|k| == 1 || IsDigit(k[1])))
  }

  predicate Accepts(s: string)
    requires s != ""
  {
    var t := Unsigned(s);
    var i := DotAt(t);
    t != "" && IsHryvnia(t[..i]) && (i == |t| || IsKopeck(t[i + 1..]))
  }

  lemma HryvniaIff(w: string)
    ensures var hr := ParseInt(if w == "" then "0" else w);
            IsHryvnia(w) <==> hr.Some? && hr.value >= 0
  {
    if w == "" {
      WholeParsed(w);
    }
  }

  lemma {:induction false} TwoCharacters(a: char, b: char)
    ensures ParseInt([a, b]).Some? <==> (IsDigit(a) || IsSigned(a)) && IsDigit(b)
  {
    var s := [a, b];
    assert s[1..] == [b];
    if IsDigit(a) && IsDigit(b) {
      TwoDigits(a, b);
    } else if IsSigned(a) && IsDigit(b) {
      assert [b][..0] == "";
      assert Val([b]) == DigitValue(b);
    } else {
      assert !AllDigits(if IsSigned(a) then [b] else s) by {
        assert s[0] == a && s[1] == b;
      }
    }
  }

  lemma KopeckIff(k: string)
    ensures IsKopeck(k) <==> ParseKopecks(k).Some?
  {
    hide ParseInt;
    if |k| == 1 {
      assert k + "0" == [k[0], '0'];
      TwoCharacters(k[0], '0');
    } else if |k| >= 2 {
      assert k[..2] == [k[0], k[1]];
      assert |k| == 2 ==> k == k[..2];
      TwoCharacters(k[0], k[1]);
    }
  }

  /** Exactly the strings the parser accepts. */
  lemma AcceptsIff(s: string)
    requires s != ""
    ensures ParseDecimal(s).Some? <==> Accepts(s)
  {
    hide IsHryvnia, IsKopeck, ParseInt, ParseKopecks, Wrap, DotAt;
    var t := Unsigned(s);
    if t != "" {
      var i := DotAt(t);
      assert i == 0 ==> t[..i] == "";
      HryvniaIff(t[..i]);
      if i < |t| {
        KopeckIff(t[i + 1..]);
      }
    }
  }

  function Unsigned(s: string): string
    requires s != ""
  {
    if IsSigned(s[0]) then s[1..] else s
  }

  function AfterDot(t: string): string {
    if DotAt(t) < |t| then t[DotAt(t) + 1..] else ""
  }

  /** Digits before the dot and digits after it, if there is one. */
  predicate IsDecimal(t: string) {
    t != "" && AllDigits(t[..DotAt(t)]) && AllDigits(AfterDot(t))
  }

  lemma DecimalsAreWritten(t: string)
    requires IsDecimal(t)
    ensures var whole, dot, frac := t[..DotAt(t)], DotAt(t) < |t|, AfterDot(t);
            IsWritten("", whole, dot, frac) && t == Written("", whole, dot, frac)
  {
    hide DotAt, AllDigits, Written;
    CutAtDot(t, DotAt(t));
  }

  lemma CutAtDot(t: string, i: nat)
    requires t != "" && i <= |t| && (i < |t| ==> t[i] == '.' && AllDigits(t[i + 1..])) && AllDigits(t[..i])
    ensures var whole, dot, frac := t[..i], i < |t|, if i < |t| then t[i + 1..] else "";
            IsWritten("", whole, dot, frac) && t == Written("", whole, dot, frac)
  {
    if i < |t| {
      assert t == t[..i] + ("." + t[i + 1..]);
      assert Written("", t[..i], true, t[i + 1..]) == t[..i] + ("." + t[i + 1..]);
    } else {
      assert t == t[..i];
    }
  }

  lemma WrittenAreDecimals(whole: string, dot: bool, frac: string)
    requires IsWritten("", whole, dot, frac)
    ensures IsDecimal(Written("", whole, dot, frac))
  {
    hide DotAt;
    var rest := if dot then "." + frac else "";
    var t := Written("", whole, dot, frac);
    assert t == whole + rest;
    DotAfter(whole, rest);
    assert t[..|whole|] == whole;
    assert dot ==> t[|whole| + 1..] == frac;
  }

  /** The strings `IsDecimal` picks out are those written as an optional sign, digits, and an optional
      dot with digits. */
  lemma DecimalIffWritten(s: string)
    ensures (s != "" && IsDecimal(Unsigned(s))) <==>
            exists sign, whole, dot, frac :: IsWritten(sign, whole, dot, frac) && s == Written(sign, whole, dot, frac)
  {
    hide IsDecimal, DotAt, AfterDot;
    if s != "" && IsDecimal(Unsigned(s)) {
      var t := Unsigned(s);
      DecimalsAreWritten(t);
      SignPut(s, t[..DotAt(t)], DotAt(t) < |t|, AfterDot(t));
    }
    if sign, whole, dot, frac :| IsWritten(sign, whole, dot, frac) && s == Written(sign, whole, dot, frac) {
      WrittenAreDecimals(whole, dot, frac);
      SignTaken(sign, whole, dot, frac);
    }
  }

  /** The sign of a string, put before what its rest is written as. */
  function SignOf(s: string): string
    requires s != ""
  {
    if IsSigned(s[0]) then [s[0]] else ""
  }

  lemma SignPut(s: string, whole: string, dot: bool, frac: string)
    requires s != "" && IsWritten("", whole, dot, frac) && Unsigned(s) == Written("", whole, dot, frac)
    ensures IsWritten(SignOf(s), whole, dot, frac) && s == Written(SignOf(s), whole, dot, frac)
  {
    assert s == SignOf(s) + Unsigned(s);
  }

  lemma SignTaken(sign: string, whole: string, dot: bool, frac: string)
    requires IsWritten(sign, whole, dot, frac)
    ensures var s := Written(sign, whole, dot, frac);
            s != "" && Unsigned(s) == Written("", whole, dot, frac)
  {
    var s, t := Written(sign, whole, dot, frac), Written("", whole, dot, frac);
    assert s == sign + t;
    assert whole != "" ==> t[0] == whole[0] && IsDigit(whole[0]);
    assert s[|sign|..] == t;
  }

  /** Of the accepted strings the decimals are those with no second sign, neither before the hryvnias nor
      before the kopecks, and only digits from the third place after the dot on. */
  lemma AcceptedIsDecimalIff(s: string)
    requires s != "" && Accepts(s)
    ensures var t, k := Unsigned(s), AfterDot(Unsigned(s));
            && t != ""
            && (IsDecimal(t) <==>
                  && (DotAt(t) > 0 ==> !IsSigned(t[0]))
                  && (k != "" ==> !IsSigned(k[0]))
                  && (|k| > 2 ==> AllDigits(k[2..])))
  {}

  /** The hryvnias read from an accepted part. */
  function HryvniasRead(w: string): nat
    requires IsHryvnia(w)
  {
    if w == "" then 0 else Val(if IsSigned(w[0]) then w[1..] else w)
  }

  /** The kopecks read from an accepted part: a digit or sign, a digit, and one more if the third character
      is `5` or any after it. */
  function KopecksRead(k: string): int
    requires IsKopeck(k)
  {
    if k == "" then 0
    else
      var unit := if |k| > 1 then DigitValue(k[1]) else 0;
      var read := if k[0] == '-' then -unit else if k[0] == '+' then unit else 10 * DigitValue(k[0]) + unit;
      read + if |k| > 2 && k[2] >= '5' then 1 else 0
  }

  lemma HryvniasAre(w: string)
    requires IsHryvnia(w)
    ensures ParseInt(if w == "" then "0" else w) == Some(HryvniasRead(w))
  {
    if w == "" {
      WholeParsed(w);
      assert Val("") == 0;
    }
  }

  lemma SignedDigit(a: char, b: char)
    requires IsSigned(a) && IsDigit(b)
    ensures ParseInt([a, b]) == Some(if a == '-' then -DigitValue(b) else DigitValue(b))
  {
    assert [a, b][1..] == [b] && [b][..0] == "";
    assert Val([b]) == DigitValue(b);
  }

  lemma PlacesAre(a: char, b: char)
    requires (IsDigit(a) || IsSigned(a)) && IsDigit(b)
    ensures ParseInt([a, b]) == Some(KopecksRead([a, b]))
  {
    if IsSigned(a) {
      SignedDigit(a, b);
    } else {
      TwoDigits(a, b);
    }
  }

  lemma KopecksAre(k: string)
    requires IsKopeck(k)
    ensures ParseKopecks(k) == Some(KopecksRead(k))
  {
    hide ParseInt;
    if |k| == 1 {
      assert k + "0" == [k[0], '0'];
      PlacesAre(k[0], '0');
    } else if |k| >= 2 {
      assert k[..2] == [k[0], k[1]];
      assert |k| == 2 ==> k == k[..2];
      PlacesAre(k[0], k[1]);
    }
  }

  /** What an accepted string is read as, whether a decimal or not. */
  lemma AcceptedValue(s: string)
    requires s != "" && Accepts(s)
    ensures var t := Unsigned(s);
            var total := 100 * HryvniasRead(t[..DotAt(t)]) + KopecksRead(AfterDot(t));
            ParseDecimal(s) == Some(Wrap(if s[0] == '-' then -total else total))
  {
    hide IsHryvnia, IsKopeck, ParseInt, ParseKopecks, Wrap, DotAt, HryvniasRead, KopecksRead;
    var t := Unsigned(s);
    var i, k := DotAt(t), AfterDot(t);
    KopeckOfNothing();
    HryvniasAre(t[..i]);
    KopecksAre(k);
    assert i == 0 ==> t[..i] == "";
    WrapOfSum(HryvniasRead(t[..i]) * 100, KopecksRead(k));
    WrapOfNegation(100 * HryvniasRead(t[..i]) + KopecksRead(k));
  }

  lemma KopeckOfNothing()
    ensures IsKopeck("") && KopecksRead("") == 0
  {}

  /** Two strings that are no decimals and are read all the same. */
  lemma AcceptedAnyway()
    ensures ParseDecimal("1.12x") == Some(113)
    ensures ParseDecimal("1.-5") == Some(95)
  {
    hide Wrap;
    SmallParts();
    NoWrap(113);
    NoWrap(95);
    NoWrap(100);
    DotAfter("1", ".12x");
    DotAfter("1", ".-5");
    assert "1" + ".12x" == "1.12x" && "1" + ".-5" == "1.-5";
    assert "1.12x"[..1] == "1" && "1.12x"[2..] == "12x" && "12x"[..2] == "12";
    assert "1.-5"[..1] == "1" && "1.-5"[2..] == "-5";
  }

  lemma NoWrap(x: int)
    requires Fits(x)
    ensures Wrap(x) == x
  {}

  lemma SmallParts()
    ensures ParseInt("1") == Some(1) && ParseInt("12") == Some(12) && ParseInt("-5") == Some(-5)
  {
    assert "1"[..0] == "" && "12"[..1] == "1" && "5"[..0] == "";
    assert Val("1") == 1 && Val("5") == 5 && Val("12") == 12;
    assert "-5"[1..] == "5";
  }

  lemma TwoDigits(a: char, b: char)
    requires IsDigit(a) && IsDigit(b)
    ensures ParseInt([a, b]) == Some(10 * DigitValue(a) + DigitValue(b))
  {
    var s := [a, b];
    assert s[..1] == [a] && [a][..0] == "";
    assert Val([a]) == DigitValue(a);
    ParseDigits(s);
  }

  lemma KopecksParsed(frac: string)
    requires AllDigits(frac)
    ensures ParseKopecks(frac) == Some(Kopecks(frac))
  {
    if |frac| == 1 {
      assert frac + "0" == [frac[0], '0'];
      TwoDigits(frac[0], '0');
    } else if |frac| == 2 {
      assert frac == [frac[0], frac[1]];
      TwoDigits(frac[0], frac[1]);
    } else if |frac| > 2 {
      assert frac[..2] == [frac[0], frac[1]];
      TwoDigits(frac[0], frac[1]);
      assert IsDigit(frac[2]);
    }
  }

  lemma UnsignedParsed(whole: string, dot: bool, frac: string)
    requires IsWritten("", whole, dot, frac)
    ensures ParseUnsigned(whole + if dot then "." + frac else "") ==
            if Val(whole) > MAX_INT64 then None else Some(Wrap(Val(whole) * 100 + Kopecks(frac)))
  {
    hide Wrap, Val, ParseKopecks, Kopecks, ParseInt, DotAt;
    var rest := if dot then "." + frac else "";
    var t := whole + rest;
    DotAfter(whole, rest);
    assert t[..|whole|] == whole;
    assert dot ==> t[|whole| + 1..] == frac;
    WholeParsed(whole);
    KopecksParsed(frac);
    if !dot {
      NoKopecks();
    }
    WrapOfSum(Val(whole) * 100, Kopecks(frac));
  }

  /** What the parser makes of a written number: an error if the whole part leaves int64, else the
      rounded amount modulo 2^64. */
  lemma WrittenParsed(sign: string, whole: string, dot: bool, frac: string)
    requires IsWritten(sign, whole, dot, frac)
    ensures var s := Written(sign, whole, dot, frac);
            var total := Val(whole) * 100 + Kopecks(frac);
            s != "" &&
            ParseDecimal(s) == if Val(whole) > MAX_INT64 then None
                               else Some(Wrap(if sign == "-" then -total else total))
  {
    hide Wrap, Val, Kopecks, ParseUnsigned;
    var t := whole + if dot then "." + frac else "";
    var s := Written(sign, whole, dot, frac);
    assert s == sign + t;
    assert t != "" && t[0] != '+' && t[0] != '-' by {
      assert whole != "" ==> IsDigit(whole[0]);
    }
    assert s[|sign|..] == t;
    UnsignedParsed(whole, dot, frac);
    WrapOfNegation(Val(whole) * 100 + Kopecks(frac));
  }

  lemma NoKopecks()
    ensures Kopecks("") == 0
  {}

  lemma WholeParsed(whole: string)
    requires AllDigits(whole)
    ensures ParseInt(if whole == "" then "0" else whole) == if Val(whole) <= MAX_INT64 then Some(Val(whole)) else None
  {
    if whole == "" {
      assert "0"[..0] == "";
      ParseDigits("0");
    } else {
      ParseDigits(whole);
    }
  }

  lemma {:induction false} DropFirst(s: string)
    requires AllDigits(s) && s != ""
    ensures Val(s) == DigitValue(s[0]) * Pow10(|s| - 1) + Val(s[1..])
  {
    assert s == [s[0]] + s[1..];
    ValConcat([s[0]], s[1..]);
    assert [s[0]][..0] == "";
  }

  /** The parser's two-digit rule is exact rounding, half up on the magnitude and so half away from
      zero on the signed amount. */
  lemma KopecksRound(frac: string)
    requires AllDigits(frac)
    ensures RoundsTo(Kopecks(frac), 100 * Val(frac), Pow10(|frac|))
  {
    hide Val, Pow10, RoundsTo;
    FirstPowers();
    if frac == "" {
      Exactly(0, 0, 1);
    } else if |frac| == 1 {
      DropFirst(frac);
      assert frac[1..] == "";
      Exactly(10 * DigitValue(frac[0]), 100 * DigitValue(frac[0]), 10);
    } else {
      var rest, d := frac[2..], 10 * DigitValue(frac[0]) + DigitValue(frac[1]);
      TwoThenRest(frac);
      if rest == "" {
        Exactly(d, 100 * d, 100);
      } else {
        DropFirst(rest);
        ValBelowPow10(rest[1..]);
        TenTimes(|rest| - 1);
        RoundOnDigit(d, DigitValue(rest[0]), Pow10(|rest| - 1), Val(rest[1..]), Kopecks(frac));
      }
    }
  }

  lemma FirstPowers()
    ensures Val("") == 0 && Pow10(0) == 1 && Pow10(1) == 10
  {}

  lemma TenTimes(n: nat)
    ensures Pow10(n + 1) == 10 * Pow10(n)
  {}

  lemma Exactly(k: int, num: int, den: int)
    requires k * den == num && den >= 1
    ensures RoundsTo(k, num, den)
  {}

  lemma TwoThenRest(s: string)
    requires AllDigits(s) && |s| >= 2
    ensures var q, rest := Pow10(|s| - 2), s[2..];
            && Val(s) == (10 * DigitValue(s[0]) + DigitValue(s[1])) * q + Val(rest)
            && Pow10(|s|) == 100 * q
  {
    hide Val;
    DropFirst(s);
    DropFirst(s[1..]);
    assert s[1..][1..] == s[2..];
    Scale(DigitValue(s[0]), DigitValue(s[1]), Pow10(|s| - 2), Val(s[2..]));
  }

  lemma Scale(a: int, b: int, q: int, r: int)
    ensures a * (10 * q) + (b * q + r) == (10 * a + b) * q + r
  {}

  /** d whole units of 10q, then a digit and less than one unit of q. */
  lemma RoundOnDigit(d: int, digit: int, q: int, r: int, k: int)
    requires q >= 1 && 0 <= r < q && 0 <= digit <= 9
    requires k == d + if digit >= 5 then 1 else 0
    ensures RoundsTo(k, 100 * (d * (10 * q) + (digit * q + r)), 100 * (10 * q))
  {
    MulLe(5, if digit >= 5 then digit else 5, q);
    MulLe(if digit >= 5 then digit else 0, 9, q);
    MulLe(if digit >= 5 then 0 else digit, 4, q);
    MulLe(0, digit, q);
    Tens(d, q);
    Thousands(k, q);
    assert k * q == d * q + if digit >= 5 then q else 0;
  }

  lemma Tens(d: int, q: int)
    ensures d * (10 * q) == 10 * (d * q)
  {}

  lemma Thousands(k: int, q: int)
    ensures 2 * k * (100 * (10 * q)) == 2000 * (k * q)
  {}

  /** For every written number: the parse is its exact value in kopecks rounded half away from zero,
      if and only if that fits int64. */
  lemma ParseIsExact(sign: string, whole: string, dot: bool, frac: string) returns (total: nat)
    requires IsWritten(sign, whole, dot, frac)
    ensures RoundsTo(total, 100 * (Val(whole) * Pow10(|frac|) + Val(frac)), Pow10(|frac|))
    ensures var s := Written(sign, whole, dot, frac);
            var m: int := total;
            var exact := if sign == "-" then -m else m;
            s != "" && (ParseDecimal(s) == Some(exact) <==> Fits(exact))
  {
    hide Val, Pow10, Wrap, ParseDecimal, RoundsTo, Written, Kopecks;
    total := Val(whole) * 100 + Kopecks(frac);
    WrittenParsed(sign, whole, dot, frac);
    KopecksRound(frac);
    var q := Pow10(|frac|);
    AddWhole(Val(whole), Kopecks(frac), Val(frac), q);
  }

  /** The same for strings: every decimal is read as its exact value in kopecks, rounded half away from
      zero, if and only if that fits int64. */
  lemma DecimalsAreExact(s: string) returns (total: nat)
    requires s != "" && IsDecimal(Unsigned(s))
    ensures var t := Unsigned(s);
            var whole, frac := t[..DotAt(t)], AfterDot(t);
            RoundsTo(total, 100 * (Val(whole) * Pow10(|frac|) + Val(frac)), Pow10(|frac|))
    ensures var m: int := total;
            var exact := if s[0] == '-' then -m else m;
            ParseDecimal(s) == Some(exact) <==> Fits(exact)
  {
    hide Val, Pow10, ParseDecimal, RoundsTo, DotAt;
    var t := Unsigned(s);
    var whole, dot, frac := t[..DotAt(t)], DotAt(t) < |t|, AfterDot(t);
    DecimalsAreWritten(t);
    SignPut(s, whole, dot, frac);
    total := ParseIsExact(SignOf(s), whole, dot, frac);
  }

  lemma AddWhole(w: int, k: int, f: int, q: int)
    requires RoundsTo(k, 100 * f, q)
    ensures RoundsTo(w * 100 + k, 100 * (w * q + f), q)
  {
    assert (w * 100 + k) * q == 100 * (w * q) + k * q;
  }

  // ---- printing and parsing back

  lemma TwoPrinted(n: int)
    requires 0 <= n < 100
    ensures AllDigits(PrintInt2(n)) && |PrintInt2(n)| == 2 && Kopecks(PrintInt2(n)) == n
  {
    if n >= 10 {
      assert Decimal(n / 10) == [DigitOf(n / 10)];
    }
  }

  lemma PrintedParts(kopecks: int)
    requires Fits(kopecks) && kopecks != MIN_INT64
    ensures var a := Abs(kopecks);
            Print(kopecks) == Written(if kopecks < 0 then "-" else "", Decimal(a / 100), true, PrintInt2(a % 100))
  {
    hide Decimal, Wrap, PrintInt2;
    var a := Abs(kopecks);
    NoWrap(a);
    assert Quot(a, 100) == a / 100 && Rem(a, 100) == a % 100;
    assert PrintInt(a / 100) == Decimal(a / 100);
  }

  lemma PrintedParses(kopecks: int)
    requires Fits(kopecks) && kopecks != MIN_INT64
    ensures Print(kopecks) != "" && ParseDecimal(Print(kopecks)) == Some(kopecks)
  {
    hide ParseDecimal, Wrap;
    var a := Abs(kopecks);
    PrintedParts(kopecks);
    TwoPrinted(a % 100);
    WrittenParsed(if kopecks < 0 then "-" else "", Decimal(a / 100), true, PrintInt2(a % 100));
  }

  /** The smallest int64 has no absolute value, and prints as two signed parts. */
  lemma SmallestPrinted(hryvnia: int)
    requires hryvnia == 92233720368547758
    ensures Print(MIN_INT64) == "-" + ("-" + Decimal(hryvnia) + ".-8")
  {
    hide Decimal, Wrap;
    WrapUnique(-MIN_INT64, MIN_INT64, 1);
    var quot := Quot(MIN_INT64, 100);
    assert quot == -hryvnia && Rem(MIN_INT64, 100) == -8;
    assert Decimal(8) == "8" by {
      PrintedEight();
    }
  }

  lemma PrintedEight()
    ensures Decimal(8) == "8"
  {}

  lemma SmallestDoesNotParse()
    ensures ParseDecimal(Print(MIN_INT64)) == None
  {
    hide Decimal, Val, Wrap, DotAt, ParseInt, ParseKopecks, Print;
    var hryvnia: int :| hryvnia == 92233720368547758;
    SmallestPrinted(hryvnia);
    var whole := Decimal(hryvnia);
    var t := "-" + whole + ".-8";
    assert Print(MIN_INT64)[1..] == t;
    assert t == "-" + (whole + ".-8");
    DotAfter(whole, ".-8");
    DotAfterMinus(whole + ".-8");
    assert t[..1 + |whole|] == "-" + whole;
    MinusParsed(whole, hryvnia);
  }

  lemma DotAfterMinus(t: string)
    ensures DotAt("-" + t) == 1 + DotAt(t)
  {
    assert ("-" + t)[1..] == t;
  }

  lemma MinusParsed(digits: string, n: int)
    requires AllDigits(digits) && digits != "" && Val(digits) == n && 0 < n <= MAX_INT64
    ensures ParseInt("-" + digits) == Some(-n)
  {
    assert ("-" + digits)[1..] == digits;
  }

  lemma NothingToTrim(s: string)
    requires s != "" && !IsSpace(s[0]) && !IsSpace(s[|s| - 1])
    ensures TrimRight(TrimLeft(s)) == s
  {}

  predicate AllSpace(s: string) {
    forall i | 0 <= i < |s| :: IsSpace(s[i])
  }

  lemma {:induction false} LeftTrimmed(a: string, s: string)
    requires AllSpace(a) && (s == "" || !IsSpace(s[0]))
    ensures TrimLeft(a + s) == s
  {
    if a == "" {
      assert a + s == s;
    } else {
      assert (a + s)[1..] == a[1..] + s;
      LeftTrimmed(a[1..], s);
    }
  }

  lemma {:induction false} RightTrimmed(s: string, b: string)
    requires AllSpace(b) && (s == "" || !IsSpace(s[|s| - 1]))
    ensures TrimRight(s + b) == s
    decreases |b|
  {
    if b == "" {
      assert s + b == s;
    } else {
      assert (s + b)[..|s + b| - 1] == s + b[..|b| - 1];
      RightTrimmed(s, b[..|b| - 1]);
    }
  }

  /** White space around the text does not count. */
  lemma Trimmed(a: string, s: string, b: string)
    requires AllSpace(a) && AllSpace(b) && (s != "" ==> !IsSpace(s[0]) && !IsSpace(s[|s| - 1]))
    ensures TrimRight(TrimLeft(a + s + b)) == s
  {
    if s == "" {
      assert a + s + b == (a + b) + "";
      LeftTrimmed(a + b, "");
    } else {
      assert a + s + b == a + (s + b);
      LeftTrimmed(a, s + b);
      RightTrimmed(s, b);
    }
  }

  /** What every text is read as: with the white space around it gone, null, nothing, and nothing between quotes
      are zero; a pair of quotes around anything else is taken off; and what is left goes to the parser. */
  lemma ReadAs(a: string, s: string, b: string)
    requires AllSpace(a) && AllSpace(b) && (s != "" ==> !IsSpace(s[0]) && !IsSpace(s[|s| - 1]))
    ensures s in {"", "null", ['"', '"']} ==> Unmarshalled(a + s + b) == Some(0)
    ensures forall t | t != "" && s == ['"'] + t + ['"'] :: Unmarshalled(a + s + b) == ParseDecimal(t)
    ensures s !in {"", "null"} && !(|s| >= 2 && s[0] == s[|s| - 1] == '"') ==>
              Unmarshalled(a + s + b) == ParseDecimal(s)
  {
    hide ParseDecimal, TrimLeft, TrimRight;
    Trimmed(a, s, b);
    forall t | t != "" && s == ['"'] + t + ['"'] ensures Unmarshalled(a + s + b) == ParseDecimal(t) {
      assert s[1..|s| - 1] == t;
    }
  }

  /** Text that starts with a sign or digit and ends with a digit reaches the parser as it is, bare
      or quoted. */
  lemma ReachesParser(s: string)
    requires s != "" && (s[0] == '-' || IsDigit(s[0])) && IsDigit(s[|s| - 1])
    ensures Unmarshalled(s) == ParseDecimal(s)
    ensures Unmarshalled(['"'] + s + ['"']) == ParseDecimal(s)
  {
    hide ParseDecimal;
    NothingToTrim(s);
    var q := ['"'] + s + ['"'];
    NothingToTrim(q);
    assert q[1..|q| - 1] == s;
  }

  lemma PrintedEnds(kopecks: int)
    requires Fits(kopecks)
    ensures var s := Print(kopecks);
            s != "" && (s[0] == '-' || IsDigit(s[0])) && IsDigit(s[|s| - 1])
  {
    if kopecks == MIN_INT64 {
      var hryvnia: int :| hryvnia == 92233720368547758;
      SmallestPrinted(hryvnia);
    } else {
      hide Print, Decimal, PrintInt2, Val;
      PrintedParts(kopecks);
      TwoPrinted(Abs(kopecks) % 100);
      assert IsDigit(Decimal(Abs(kopecks) / 100)[0]);
    }
  }

  /** Printing and parsing back, bare or quoted, gives every amount but one. */
  lemma RoundTripIff(kopecks: int)
    requires Fits(kopecks)
    ensures Unmarshalled(Print(kopecks)) == Some(kopecks) <==> kopecks != MIN_INT64
    ensures Unmarshalled(['"'] + Print(kopecks) + ['"']) == Some(kopecks) <==> kopecks != MIN_INT64
    ensures kopecks == MIN_INT64 ==> Unmarshalled(Print(kopecks)) == None
  {
    hide Unmarshalled, ParseDecimal, Print;
    PrintedEnds(kopecks);
    ReachesParser(Print(kopecks));
    if kopecks == MIN_INT64 {
      SmallestDoesNotParse();
    } else {
      PrintedParses(kopecks);
    }
  }
}
