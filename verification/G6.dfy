/** The `%.6g` layout (src/nvidia/pyfmt.rs; the 'g' conversion of section 7.21.6.1 of
    ISO C11). Rounding to six digits is the library's; the layout starts from the sign,
    the six digits and the decimal exponent. */
module G6 {
  datatype Float =
    | Zero(neg: bool)
    | NaN
    | Infinite(neg: bool)
    | Finite(neg: bool, digits: string, exp: int)

  predicate IsDigit(c: char) {
    '0' <= c <= '9'
  }

  ghost predicate AllDigits(s: string) {
    forall i :: 0 <= i < |s| ==> IsDigit(s[i])
  }

  /** Six significant digits, the first of them not zero. */
  ghost predicate IsMantissa(digits: string) {
    |digits| == 6 && AllDigits(digits) && digits[0] != '0'
  }

  // --------------------------------------------------------------------- printer

  function TrimZeros(s: string): (t: string)
    ensures |t| <= |s| && t == s[..|t|]
    ensures t != "" ==> t[|t| - 1] != '0'
    ensures s != "" && s[0] != '0' ==> t != ""
  {
    if s != "" && s[|s| - 1] == '0' then TrimZeros(s[..|s| - 1]) else s
  }

  function Zeros(n: nat): (z: string)
    ensures |z| == n && forall i :: 0 <= i < n ==> z[i] == '0'
  {
    if n == 0 then "" else Zeros(n - 1) + "0"
  }

  function Decimal(n: nat): string {
    if n < 10 then [('0' as int + n) as char] else Decimal(n / 10) + [('0' as int + n % 10) as char]
  }

  /** At least two digits, as `{:02}` prints. */
  function TwoDigits(n: nat): string {
    if n < 10 then "0" + Decimal(n) else Decimal(n)
  }

  function Abs(n: int): nat {
    if n < 0 then -n else n
  }

  function Exponent(exp: int): string {
    (if exp < 0 then "-" else "+") + TwoDigits(Abs(exp))
  }

  function Pointed(whole: string, frac: string): string {
    if frac == "" then whole else whole + ("." + frac)
  }

  function Body(digits: string, exp: int): string
    requires |digits| == 6 && digits[0] != '0'
  {
    if exp < -4 || exp >= 6 then
      var trimmed := TrimZeros(digits);
      Pointed(trimmed[..1], trimmed[1..]) + ("e" + Exponent(exp))
    else if exp >= 0 then
      var point := exp + 1;
      if point >= |digits| then digits
      else Pointed(digits[..point], TrimZeros(digits[point..]))
    else
      "0" + ("." + (Zeros(-exp - 1) + TrimZeros(digits)))
  }

  function Format(x: Float): string
    requires x.Finite? ==> |x.digits| == 6 && x.digits[0] != '0'
  {
    match x
    case Zero(neg) => if neg then "-0" else "0"
    case NaN => "nan"
    case Infinite(neg) => if neg then "-inf" else "inf"
    case Finite(neg, digits, exp) => if neg then "-" + Body(digits, exp) else Body(digits, exp)
  }

  // -------------------------------------------------- what a decimal string denotes

  /** `m` times ten to the `e`. */
  ghost function Amount(m: nat, e: int): real
    decreases Abs(e)
  {
    if e == 0 then m as real
    else if e > 0 then 10.0 * Amount(m, e - 1)
    else Amount(m, e + 1) / 10.0
  }

  ghost function Nat(s: string): nat {
    if s == "" then 0
    else
      var c := s[|s| - 1];
      Nat(s[..|s| - 1]) * 10 + if IsDigit(c) then c as int - '0' as int else 0
  }

  ghost function Index(s: string, c: char): (k: nat)
    ensures k <= |s|
    ensures forall i :: 0 <= i < k ==> s[i] != c
    ensures k < |s| ==> s[k] == c
  {
    if s == "" || s[0] == c then 0 else 1 + Index(s[1..], c)
  }

  ghost function Signed(s: string): int {
    if s != "" && s[0] == '-' then 0 - Nat(s[1..])
    else if s != "" && s[0] == '+' then Nat(s[1..])
    else Nat(s)
  }

  /** Digits with an optional point, scaled by `e` powers of ten. */
  ghost function Fixed(s: string, e: int): real {
    var k := Index(s, '.');
    if k == |s| then Amount(Nat(s), e) else Amount(Nat(s[..k] + s[k + 1..]), e - (|s| - k - 1))
  }

  /** The usual reading of a decimal string: an optional minus, digits with an optional
      point, an optional exponent. */
  ghost function Value(s: string): real {
    if s != "" && s[0] == '-' then -Unsigned(s[1..]) else Unsigned(s)
  }

  ghost function Unsigned(s: string): real {
    var k := Index(s, 'e');
    if k == |s| then Fixed(s, 0) else Fixed(s[..k], Signed(s[k + 1..]))
  }

  // ----------------------------------------------------------------------- lemmas

  lemma {:induction false} AmountShift(m: nat, e: int)
    ensures Amount(m * 10, e) == Amount(m, e + 1)
    decreases Abs(e)
  {
    if e > 0 {
      AmountShift(m, e - 1);
    } else if e < 0 {
      AmountShift(m, e + 1);
      if e == -1 {
        assert Amount(m * 10, -1) == (m * 10) as real / 10.0;
      }
    } else {
      assert Amount(m, 1) == 10.0 * Amount(m, 0);
    }
  }

  /** Trailing zeros trade against the exponent. */
  lemma {:induction false} TrimKeepsAmount(s: string, e: int)
    ensures Amount(Nat(s), e) == Amount(Nat(TrimZeros(s)), e + |s| - |TrimZeros(s)|)
  {
    if s != "" && s[|s| - 1] == '0' {
      var rest := s[..|s| - 1];
      AmountShift(Nat(rest), e);
      TrimKeepsAmount(rest, e + 1);
    }
  }

  lemma {:induction false} LeadingZeros(n: nat, s: string)
    ensures Nat(Zeros(n) + s) == Nat(s)
  {
    if s == "" {
      assert Zeros(n) + s == Zeros(n);
      if n > 0 {
        LeadingZeros(n - 1, "");
        assert Zeros(n - 1) + "" == Zeros(n - 1);
        assert Zeros(n)[..n - 1] == Zeros(n - 1);
      }
    } else {
      var k := |s| - 1;
      assert (Zeros(n) + s)[..n + k] == Zeros(n) + s[..k];
      LeadingZeros(n, s[..k]);
    }
  }

  lemma {:induction false} DecimalReads(n: nat)
    ensures Decimal(n) != "" && AllDigits(Decimal(n)) && Nat(Decimal(n)) == n
  {
    if n >= 10 {
      DecimalReads(n / 10);
      var s := Decimal(n);
      assert s[..|s| - 1] == Decimal(n / 10);
    } else {
      var s := Decimal(n);
      assert s[..0] == "";
    }
  }

  lemma TwoDigitsReads(n: nat)
    ensures |TwoDigits(n)| >= 2 && AllDigits(TwoDigits(n)) && Nat(TwoDigits(n)) == n
  {
    DecimalReads(n);
    if n < 10 {
      assert Zeros(1) == Zeros(0) + "0" == "0";
      LeadingZeros(1, Decimal(n));
    } else {
      var m := n / 10;
      DecimalReads(m);
    }
  }

  lemma DigitsHaveNo(s: string, c: char)
    requires AllDigits(s) && !IsDigit(c)
    ensures Index(s, c) == |s|
  {
  }

  /** Where a character stands that follows a prefix without it. */
  lemma IndexAfter(a: string, c: char, b: string)
    requires forall i :: 0 <= i < |a| ==> a[i] != c
    ensures Index(a + ([c] + b), c) == |a|
  {
    var s := a + ([c] + b);
    assert s[|a|] == c;
  }

  lemma FixedPlain(s: string, e: int)
    requires AllDigits(s)
    ensures Fixed(s, e) == Amount(Nat(s), e)
  {
    DigitsHaveNo(s, '.');
  }

  lemma FixedPoint(a: string, b: string, e: int)
    requires AllDigits(a)
    ensures Fixed(a + ("." + b), e) == Amount(Nat(a + b), e - |b|)
  {
    var s := a + ("." + b);
    IndexAfter(a, '.', b);
    assert s[..|a|] == a && s[|a| + 1..] == b;
  }

  lemma FixedPointed(whole: string, frac: string, e: int)
    requires AllDigits(whole) && AllDigits(frac)
    ensures Fixed(Pointed(whole, frac), e) == Amount(Nat(whole + frac), e - |frac|)
    ensures forall i :: 0 <= i < |Pointed(whole, frac)| ==> Pointed(whole, frac)[i] != 'e'
  {
    if frac == "" {
      assert whole + frac == whole;
      FixedPlain(whole, e);
    } else {
      FixedPoint(whole, frac, e);
    }
  }

  lemma UnsignedPlain(s: string)
    requires forall i :: 0 <= i < |s| ==> s[i] != 'e'
    ensures Unsigned(s) == Fixed(s, 0)
  {
  }

  lemma ExponentReads(exp: int)
    ensures Signed(Exponent(exp)) == exp
    ensures |Exponent(exp)| >= 3
  {
    TwoDigitsReads(Abs(exp));
    assert Exponent(exp)[1..] == TwoDigits(Abs(exp));
  }

  lemma UnsignedScientific(m: string, x: string)
    requires forall i :: 0 <= i < |m| ==> m[i] != 'e'
    ensures Unsigned(m + ("e" + x)) == Fixed(m, Signed(x))
  {
    var s := m + ("e" + x);
    IndexAfter(m, 'e', x);
    assert s[..|m|] == m && s[|m| + 1..] == x;
  }

  // ----------------------------------------------------------------- the theorem

  lemma ScientificReads(whole: string, frac: string, x: string)
    requires AllDigits(whole) && AllDigits(frac)
    ensures Unsigned(Pointed(whole, frac) + ("e" + x)) == Amount(Nat(whole + frac), Signed(x) - |frac|)
  {
    FixedPointed(whole, frac, Signed(x));
    UnsignedScientific(Pointed(whole, frac), x);
  }

  lemma PlainReads(whole: string, frac: string)
    requires AllDigits(whole) && AllDigits(frac)
    ensures Unsigned(Pointed(whole, frac)) == Amount(Nat(whole + frac), -|frac|)
  {
    FixedPointed(whole, frac, 0);
    UnsignedPlain(Pointed(whole, frac));
  }

  lemma PaddedReads(lead: string, tail: string, t: string)
    requires AllDigits(lead) && AllDigits(tail) && Nat(lead + tail) == Nat(t)
    ensures Unsigned(Pointed(lead, tail)) == Amount(Nat(t), -|tail|)
  {
    PlainReads(lead, tail);
  }

  lemma PaddingIsWorthless(n: nat, t: string)
    ensures Nat("0" + (Zeros(n) + t)) == Nat(t)
  {
    OneZero();
    LeadingZeros(1, Zeros(n) + t);
    LeadingZeros(n, t);
  }

  lemma OneZero()
    ensures Zeros(1) == "0"
  {
    assert Zeros(0) + "0" == "0";
  }

  /** Trimming the tail of a digit string, the part behind the point. */
  lemma {:induction false} TrimTail(whole: string, rest: string, e: int)
    ensures Amount(Nat(whole + rest), e) == Amount(Nat(whole + TrimZeros(rest)), e + |rest| - |TrimZeros(rest)|)
    decreases |rest|
  {
    if rest != "" && rest[|rest| - 1] == '0' {
      var shorter := rest[..|rest| - 1];
      assert (whole + rest)[..|whole + rest| - 1] == whole + shorter;
      AmountShift(Nat(whole + shorter), e);
      TrimTail(whole, shorter, e + 1);
    }
  }

  lemma ScientificBody(digits: string, exp: int, whole: string, frac: string, x: string)
    requires IsMantissa(digits) && (exp < -4 || exp >= 6)
    requires whole + frac == TrimZeros(digits) && |whole| == 1 && x == Exponent(exp)
    ensures Body(digits, exp) == Pointed(whole, frac) + ("e" + x)
    ensures AllDigits(whole) && AllDigits(frac)
  {
    var t := TrimZeros(digits);
    assert t[..1] == whole && t[1..] == frac;
    assert forall i :: 0 <= i < |frac| ==> frac[i] == digits[i + 1];
  }

  lemma ScientificAmount(digits: string, exp: int, t: string, whole: string, frac: string, x: string)
    requires |digits| == 6 && t == TrimZeros(digits)
    requires whole + frac == t && |whole| == 1 && AllDigits(whole) && AllDigits(frac)
    requires Signed(x) == exp
    ensures Unsigned(Pointed(whole, frac) + ("e" + x)) == Amount(Nat(digits), exp - 5)
  {
    ScientificReads(whole, frac, x);
    TrimKeepsAmount(digits, exp - 5);
    assert exp - 5 + 6 - |t| == exp - |frac|;
  }

  lemma PlainBody(digits: string, exp: int, whole: string, rest: string)
    requires IsMantissa(digits) && 0 <= exp < 6
    requires whole + rest == digits && |whole| == exp + 1
    ensures Body(digits, exp) == Pointed(whole, TrimZeros(rest))
    ensures AllDigits(whole) && AllDigits(TrimZeros(rest))
  {
    assert digits[..exp + 1] == whole && digits[exp + 1..] == rest;
    assert forall i :: 0 <= i < |rest| ==> rest[i] == digits[exp + 1 + i];
    if exp == 5 {
      assert rest == "" && whole == digits;
    }
  }

  lemma PlainKeepsValue(digits: string, exp: int, whole: string, rest: string)
    requires IsMantissa(digits) && 0 <= exp < 6
    requires whole + rest == digits && |whole| == exp + 1
    ensures Unsigned(Body(digits, exp)) == Amount(Nat(digits), exp - 5)
  {
    PlainBody(digits, exp, whole, rest);
    TrimTail(whole, rest, exp - 5);
    PlainReads(whole, TrimZeros(rest));
  }

  lemma SmallBody(digits: string, exp: int, lead: string, tail: string)
    requires IsMantissa(digits) && -4 <= exp < 0
    requires lead == "0" && tail == Zeros(-exp - 1) + TrimZeros(digits)
    ensures Body(digits, exp) == Pointed(lead, tail)
    ensures AllDigits(lead) && AllDigits(tail)
  {
  }

  lemma SmallKeepsValue(digits: string, exp: int, lead: string, tail: string)
    requires IsMantissa(digits) && -4 <= exp < 0
    requires lead == "0" && tail == Zeros(-exp - 1) + TrimZeros(digits)
    ensures Unsigned(Body(digits, exp)) == Amount(Nat(digits), exp - 5)
  {
    var t := TrimZeros(digits);
    SmallBody(digits, exp, lead, tail);
    PaddingIsWorthless(-exp - 1, t);
    PaddedReads(lead, tail, t);
    TrimKeepsAmount(digits, exp - 5);
  }

  /** The layouts without their sign: each denotes the six digits times the power of ten
      that puts the point after the first. */
  lemma BodyKeepsValue(digits: string, exp: int)
    requires IsMantissa(digits)
    ensures Unsigned(Body(digits, exp)) == Amount(Nat(digits), exp - 5)
  {
    var t := TrimZeros(digits);
    if exp < -4 || exp >= 6 {
      var whole, frac, x := t[..1], t[1..], Exponent(exp);
      assert whole + frac == t;
      ScientificBody(digits, exp, whole, frac, x);
      ExponentReads(exp);
      ScientificAmount(digits, exp, t, whole, frac, x);
    } else if exp < 0 {
      SmallKeepsValue(digits, exp, "0", Zeros(-exp - 1) + t);
    } else {
      assert digits[..exp + 1] + digits[exp + 1..] == digits;
      PlainKeepsValue(digits, exp, digits[..exp + 1], digits[exp + 1..]);
    }
  }

  /** The printed string denotes exactly sign, mantissa and exponent, in every layout. */
  lemma FormatKeepsValue(neg: bool, digits: string, exp: int)
    requires IsMantissa(digits)
    ensures Value(Format(Finite(neg, digits, exp)))
         == (if neg then -1.0 else 1.0) * Amount(Nat(digits), exp - 5)
  {
    var body := Body(digits, exp);
    BodyKeepsValue(digits, exp);
    BodyStartsWithDigit(digits, exp);
    assert ("-" + body)[1..] == body;
  }

  lemma BodyStartsWithDigit(digits: string, exp: int)
    requires IsMantissa(digits)
    ensures Body(digits, exp) != "" && IsDigit(Body(digits, exp)[0])
  {
  }

  // -------------------------------------------------------------- layout and order

  ghost function Before(s: string, c: char): string {
    s[..Index(s, c)]
  }

  ghost function After(s: string, c: char): string {
    if Index(s, c) == |s| then "" else s[Index(s, c) + 1..]
  }

  ghost function SkipZeros(s: string): string {
    if s != "" && s[0] == '0' then SkipZeros(s[1..]) else s
  }

  /** No zero leads the part before the point but a lone one, none ends the part behind
      it, and there are at most six significant digits. */
  ghost predicate MinimalMantissa(whole: string, frac: string) {
    && AllDigits(whole) && AllDigits(frac)
    && whole != "" && (whole == "0" || whole[0] != '0')
    && (frac != "" ==> frac[|frac| - 1] != '0')
    && |SkipZeros(whole + frac)| <= 6
  }

  /** A sign and two digits, or as many as a larger exponent needs. */
  ghost predicate MinimalExponent(x: string, exp: int) {
    && |x| >= 3 && x[0] == (if exp < 0 then '-' else '+') && AllDigits(x[1..])
    && if -100 < exp < 100 then |x| == 3 else x[1] != '0'
  }

  /** An exponent is printed exactly outside [-4, 6), behind a single nonzero digit and
      its fraction; a point is printed exactly when digits follow it. */
  ghost predicate MinimalLayout(body: string, exp: int) {
    var m, x := Before(body, 'e'), After(body, 'e');
    var whole, frac := Before(m, '.'), After(m, '.');
    && m == Pointed(whole, frac) && MinimalMantissa(whole, frac)
    && if exp < -4 || exp >= 6 then
         body == m + ("e" + x) && |whole| == 1 && whole != "0" && MinimalExponent(x, exp)
       else
         body == m
  }

  lemma SplitPointed(whole: string, frac: string)
    requires AllDigits(whole) && AllDigits(frac)
    ensures var m := Pointed(whole, frac);
            Before(m, '.') == whole && After(m, '.') == frac && Index(m, 'e') == |m|
  {
    if frac != "" {
      IndexAfter(whole, '.', frac);
    } else {
      DigitsHaveNo(whole, '.');
    }
  }

  lemma PlainLayout(whole: string, frac: string, exp: int)
    requires MinimalMantissa(whole, frac) && -4 <= exp < 6
    ensures MinimalLayout(Pointed(whole, frac), exp)
  {
    var m := Pointed(whole, frac);
    SplitPointed(whole, frac);
    assert Before(m, 'e') == m;
  }

  lemma ScientificLayout(whole: string, frac: string, x: string, exp: int)
    requires MinimalMantissa(whole, frac) && (exp < -4 || exp >= 6)
    requires |whole| == 1 && whole != "0" && MinimalExponent(x, exp)
    ensures MinimalLayout(Pointed(whole, frac) + ("e" + x), exp)
  {
    var m := Pointed(whole, frac);
    SplitPointed(whole, frac);
    IndexAfter(m, 'e', x);
    assert Before(m + ("e" + x), 'e') == m && After(m + ("e" + x), 'e') == x;
  }

  lemma {:induction false} DecimalLength(n: nat)
    ensures n > 0 ==> Decimal(n)[0] != '0'
    ensures |Decimal(n)| == 1 <==> n < 10
    ensures |Decimal(n)| <= 2 <==> n < 100
  {
    if n >= 10 {
      DecimalLength(n / 10);
    }
  }

  lemma ExponentIsMinimal(exp: int)
    ensures MinimalExponent(Exponent(exp), exp)
  {
    TwoDigitsReads(Abs(exp));
    DecimalLength(Abs(exp));
    assert Exponent(exp)[1..] == TwoDigits(Abs(exp));
  }

  lemma {:induction false} SkipsPadding(n: nat, t: string)
    requires t != "" && t[0] != '0'
    ensures SkipZeros(Zeros(n) + t) == t
  {
    if n == 0 {
      assert Zeros(n) + t == t;
    } else {
      assert (Zeros(n) + t)[0] == '0';
      assert (Zeros(n) + t)[1..] == Zeros(n - 1) + t;
      SkipsPadding(n - 1, t);
    }
  }

  lemma LayoutIsMinimal(digits: string, exp: int)
    requires IsMantissa(digits)
    ensures MinimalLayout(Body(digits, exp), exp)
  {
    var t := TrimZeros(digits);
    if exp < -4 || exp >= 6 {
      var whole, frac, x := t[..1], t[1..], Exponent(exp);
      assert whole + frac == t;
      ScientificBody(digits, exp, whole, frac, x);
      ExponentIsMinimal(exp);
      ScientificLayout(whole, frac, x, exp);
    } else if exp < 0 {
      var lead, tail := "0", Zeros(-exp - 1) + t;
      SmallBody(digits, exp, lead, tail);
      OneZero();
      assert lead + tail == Zeros(1) + tail;
      SmallPadding(-exp - 1, t);
      PlainLayout(lead, tail, exp);
    } else {
      var whole, rest := digits[..exp + 1], digits[exp + 1..];
      assert whole + rest == digits;
      PlainBody(digits, exp, whole, rest);
      PlainLayout(whole, TrimZeros(rest), exp);
    }
  }

  lemma SmallPadding(n: nat, t: string)
    requires t != "" && t[0] != '0'
    ensures SkipZeros("0" + (Zeros(n) + t)) == t
  {
    SkipsPadding(n, t);
    assert ("0" + (Zeros(n) + t))[1..] == Zeros(n) + t;
  }

  lemma {:induction false} AmountOrder(m: nat, n: nat, e: int)
    ensures m < n ==> Amount(m, e) < Amount(n, e)
    ensures Amount(m, e) >= 0.0
    decreases Abs(e)
  {
    if e > 0 {
      AmountOrder(m, n, e - 1);
    } else if e < 0 {
      AmountOrder(m, n, e + 1);
    }
  }

  /** A power of ten more is worth more than any other six digits. */
  lemma {:induction false} HigherExponentWins(m: nat, n: nat, e: int, e': int)
    requires 100000 <= m && n < 1000000 && e > e'
    ensures Amount(m, e) > Amount(n, e')
    decreases e - e'
  {
    AmountShift(m, e - 1);
    if e == e' + 1 {
      AmountOrder(n, m * 10, e');
    } else {
      HigherExponentWins(m, n, e - 1, e');
      AmountOrder(m, m * 10, e - 1);
    }
  }

  lemma {:induction false} NatBounds(s: string)
    requires AllDigits(s)
    ensures |s| == 1 ==> Nat(s) < 10
    ensures |s| == 2 ==> Nat(s) < 100
    ensures |s| == 3 ==> Nat(s) < 1000
    ensures |s| == 4 ==> Nat(s) < 10000
    ensures |s| == 5 ==> Nat(s) < 100000
    ensures |s| == 6 ==> Nat(s) < 1000000
  {
    if s != "" {
      NatBounds(s[..|s| - 1]);
      assert s[..0] == "";
    }
  }

  lemma {:induction false} NatAtLeast(s: string)
    requires AllDigits(s) && s != "" && s[0] != '0'
    ensures Nat(s) >= 1
    ensures |s| >= 2 ==> Nat(s) >= 10
    ensures |s| >= 3 ==> Nat(s) >= 100
    ensures |s| >= 4 ==> Nat(s) >= 1000
    ensures |s| >= 5 ==> Nat(s) >= 10000
    ensures |s| >= 6 ==> Nat(s) >= 100000
  {
    if |s| > 1 {
      NatAtLeast(s[..|s| - 1]);
    }
  }

  lemma {:induction false} NatInjective(s: string, t: string)
    requires AllDigits(s) && AllDigits(t) && |s| == |t| && Nat(s) == Nat(t)
    ensures s == t
  {
    if s != "" {
      var n := |s| - 1;
      NatInjective(s[..n], t[..n]);
      assert s == s[..n] + [s[n]] && t == t[..n] + [t[n]];
    }
  }

  lemma FiniteIsInjective(neg: bool, digits: string, exp: int, neg': bool, digits': string, exp': int)
    requires IsMantissa(digits) && IsMantissa(digits')
    requires Format(Finite(neg, digits, exp)) == Format(Finite(neg', digits', exp'))
    ensures neg == neg' && digits == digits' && exp == exp'
  {
    var m, n := Nat(digits), Nat(digits');
    FormatKeepsValue(neg, digits, exp);
    FormatKeepsValue(neg', digits', exp');
    NatBounds(digits);
    NatBounds(digits');
    NatAtLeast(digits);
    NatAtLeast(digits');
    AmountOrder(0, m, exp - 5);
    AmountOrder(0, n, exp' - 5);
    if exp > exp' {
      HigherExponentWins(m, n, exp - 5, exp' - 5);
    } else if exp < exp' {
      HigherExponentWins(n, m, exp' - 5, exp - 5);
    } else if m < n {
      AmountOrder(m, n, exp - 5);
    } else if n < m {
      AmountOrder(n, m, exp - 5);
    }
    NatInjective(digits, digits');
  }

  /** The forms without digits, and the two zeros. */
  lemma OtherForms()
    ensures Format(NaN) == "nan" && Format(Infinite(false)) == "inf" && Format(Infinite(true)) == "-inf"
    ensures Format(Zero(false)) == "0" && Format(Zero(true)) == "-0"
  {
  }

  /** A finite number prints a digit first, behind its sign, and never as a zero. */
  lemma FiniteIsNoOther(neg: bool, digits: string, exp: int)
    requires IsMantissa(digits)
    ensures var s := Format(Finite(neg, digits, exp));
            && s != "0" && s != "-0" && s != "nan" && s != "inf" && s != "-inf"
  {
    var s := Format(Finite(neg, digits, exp));
    BodyStartsWithDigit(digits, exp);
    FormatKeepsValue(neg, digits, exp);
    NatAtLeast(digits);
    AmountOrder(0, Nat(digits), exp - 5);
    AmountOrder(0, 0, exp - 5);
    ZeroReads();
  }

  lemma ZeroReads()
    ensures Value("0") == 0.0 && Value("-0") == 0.0
  {
    var zero := "0";
    assert zero[..0] == "" && ("-" + zero)[1..] == zero && "-0" == "-" + zero;
    DigitsHaveNo(zero, 'e');
    FixedPlain(zero, 0);
  }

  ghost predicate IsRounded(x: Float) {
    x.Finite? ==> IsMantissa(x.digits)
  }

  /** No two numbers print alike: kind, sign, six digits and exponent can all be read
      back from the string. */
  lemma FormatIsInjective(x: Float, y: Float)
    requires IsRounded(x) && IsRounded(y) && Format(x) == Format(y)
    ensures x == y
  {
    if x.Finite? {
      FiniteIsNoOther(x.neg, x.digits, x.exp);
    }
    if y.Finite? {
      FiniteIsNoOther(y.neg, y.digits, y.exp);
    }
    if x.Finite? && y.Finite? {
      FiniteIsInjective(x.neg, x.digits, x.exp, y.neg, y.digits, y.exp);
    }
  }
}
