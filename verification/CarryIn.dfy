/**
 * Exact decimal normalisation of a typed number without expanding its exponent
 * (lib/settings_carry_in.php).
 */
module CarryIn {
  import opened Wrappers

  const INT_MIN := -0x8000_0000_0000_0000
  const INT_MAX := 0x7FFF_FFFF_FFFF_FFFF

  predicate Digit(c: char) {
    '0' <= c <= '9'
  }

  predicate Digits(s: string) {
    forall i :: 0 <= i < |s| ==> Digit(s[i])
  }

  predicate Sign(c: char) {
    c == '+' || c == '-'
  }

  // --- The written form ---

  /** An exponent as written: its marker, its sign if any, and its digits. */
  datatype Exponent = Exponent(mark: char, sign: string, digits: string)

  /** A number as written; there are digits before the point, or after it, or both. */
  datatype Written = Written(sign: string, whole: string, fraction: Option<string>, exponent: Option<Exponent>)

  predicate SignText(s: string) {
    s == "" || (|s| == 1 && Sign(s[0]))
  }

  predicate Grammatical(w: Written) {
    && SignText(w.sign) && Digits(w.whole)
    && (w.whole == "" ==> w.fraction.Some? && w.fraction.value != "")
    && (w.fraction.Some? ==> Digits(w.fraction.value))
    && GrammaticalExponent(w.exponent)
  }

  predicate GrammaticalExponent(e: Option<Exponent>) {
    e.Some? ==>
      && (e.value.mark == 'e' || e.value.mark == 'E')
      && SignText(e.value.sign) && e.value.digits != "" && Digits(e.value.digits)
  }

  function Spell(w: Written): string {
    w.sign + (w.whole + (SpellFraction(w.fraction) + SpellExponent(w.exponent)))
  }

  function SpellFraction(f: Option<string>): string {
    if f.None? then "" else "." + f.value
  }

  function SpellExponent(e: Option<Exponent>): string {
    if e.None? then "" else [e.value.mark] + (e.value.sign + e.value.digits)
  }

  /** The longest run of digits a text begins with. */
  function Run(s: string): (n: nat)
    ensures n <= |s| && Digits(s[..n]) && (n < |s| ==> !Digit(s[n]))
  {
    if s == "" || !Digit(s[0]) then 0 else 1 + Run(s[1..])
  }

  function SignLength(s: string): nat {
    if s != "" && Sign(s[0]) then 1 else 0
  }

  function ParseExponent(s: string): Option<Option<Exponent>> {
    if s == "" then Some(None)
    else if s[0] != 'e' && s[0] != 'E' then None
    else
      var rest := s[1..];
      var n := SignLength(rest);
      if n < |rest| && Digits(rest[n..]) then Some(Some(Exponent(s[0], rest[..n], rest[n..]))) else None
  }

  /** A fraction with its point, and what follows it. */
  function ParseFraction(s: string): (Option<string>, string) {
    if s != "" && s[0] == '.' then
      var n := Run(s[1..]);
      (Some(s[1..][..n]), s[1..][n..])
    else (None, s)
  }

  /** Matching the whole text against the pattern. */
  function Parse(s: string): Option<Written> {
    var a := SignLength(s);
    var n := Run(s[a..]);
    var (fraction, rest) := ParseFraction(s[a..][n..]);
    var exponent := ParseExponent(rest);
    if exponent.None? || (n == 0 && (fraction.None? || fraction.value == "")) then None
    else Some(Written(s[..a], s[a..][..n], fraction, exponent.value))
  }

  lemma {:induction false} RunOf(digits: string, rest: string)
    requires Digits(digits) && (rest != "" ==> !Digit(rest[0]))
    ensures Run(digits + rest) == |digits|
  {
    if digits == "" {
      assert digits + rest == rest;
    } else {
      assert (digits + rest)[1..] == digits[1..] + rest;
      RunOf(digits[1..], rest);
    }
  }

  lemma FractionSpelled(s: string)
    ensures var (f, rest) := ParseFraction(s);
      s == SpellFraction(f) + rest && (f.Some? ==> Digits(f.value))
  {
    if s != "" && s[0] == '.' {
      assert s == "." + s[1..];
    }
  }

  lemma ExponentSpelled(s: string)
    requires ParseExponent(s).Some?
    ensures SpellExponent(ParseExponent(s).value) == s
    ensures GrammaticalExponent(ParseExponent(s).value)
  {
  }

  lemma ParsedIsSpelled(s: string)
    requires Parse(s).Some?
    ensures Grammatical(Parse(s).value) && Spell(Parse(s).value) == s
  {
    hide ParseFraction, ParseExponent, Run, SpellFraction, SpellExponent, GrammaticalExponent;
    var a := SignLength(s);
    var n := Run(s[a..]);
    FractionSpelled(s[a..][n..]);
    var (fraction, rest) := ParseFraction(s[a..][n..]);
    ExponentSpelled(rest);
    var w := Parse(s).value;
    assert SpellFraction(w.fraction) + SpellExponent(w.exponent) == s[a..][n..];
    assert w.whole + s[a..][n..] == s[a..];
    assert w.sign + s[a..] == s;
  }

  lemma FractionParses(f: Option<string>, rest: string)
    requires f.Some? ==> Digits(f.value)
    requires rest != "" ==> !Digit(rest[0]) && rest[0] != '.'
    ensures ParseFraction(SpellFraction(f) + rest) == (f, rest)
    ensures SpellFraction(f) + rest != "" ==> !Digit((SpellFraction(f) + rest)[0])
  {
    var s := SpellFraction(f) + rest;
    if f.Some? {
      assert s[1..] == f.value + rest;
      RunOf(f.value, rest);
    } else {
      assert s == rest;
    }
  }

  lemma ExponentParses(e: Option<Exponent>)
    requires GrammaticalExponent(e)
    ensures ParseExponent(SpellExponent(e)) == Some(e)
    ensures SpellExponent(e) != "" ==> !Digit(SpellExponent(e)[0]) && SpellExponent(e)[0] != '.'
  {
    if e.Some? {
      var s := SpellExponent(e);
      assert s[1..] == e.value.sign + e.value.digits;
      assert !Sign(e.value.digits[0]);
      SignParses(e.value.sign, e.value.digits);
    }
  }

  lemma SignParses(sign: string, rest: string)
    requires SignText(sign) && rest != "" && !Sign(rest[0])
    ensures SignLength(sign + rest) == |sign| && (sign + rest)[|sign|..] == rest && (sign + rest)[..|sign|] == sign
  {
  }

  lemma SpelledParses(w: Written)
    requires Grammatical(w)
    ensures Parse(Spell(w)) == Some(w)
  {
    var rest := SpellExponent(w.exponent);
    ExponentParses(w.exponent);
    FractionParses(w.fraction, rest);
    var middle := SpellFraction(w.fraction) + rest;
    RunOf(w.whole, middle);
    var body := w.whole + middle;
    assert body != "" && !Sign(body[0]) by {
      assert w.whole == "" ==> body == middle;
    }
    SignParses(w.sign, body);
    assert w.whole == "" ==> w.fraction.Some? && w.fraction.value != "";
    WholeParses(w.whole, middle);
    hide ParseFraction, ParseExponent, Run, SpellFraction, SpellExponent, Grammatical;
  }

  lemma WholeParses(whole: string, middle: string)
    ensures (whole + middle)[..|whole|] == whole && (whole + middle)[|whole|..] == middle
  {
  }

  /** The pattern matches a text exactly when it spells a grammatical number, and the match is that number. */
  lemma ParseExact(s: string, w: Written)
    ensures Parse(s) == Some(w) <==> Grammatical(w) && Spell(w) == s
  {
    hide Grammatical, Spell, Parse;
    if Parse(s) == Some(w) {
      ParsedIsSpelled(s);
    }
    if Grammatical(w) && Spell(w) == s {
      SpelledParses(w);
    }
  }

  // --- The number a text denotes ---

  function DigitsValue(s: string): nat
    requires Digits(s)
  {
    if s == "" then 0 else 10 * DigitsValue(s[..|s| - 1]) + (s[|s| - 1] as int - '0' as int)
  }

  function Ten(e: int): real
    decreases if e < 0 then -e else e
  {
    if e == 0 then 1.0 else if e > 0 then 10.0 * Ten(e - 1) else Ten(e + 1) / 10.0
  }

  function Times(a: real, b: real): real {
    a * b
  }

  /** The value of digits scaled by a power of ten. */
  function Scaled(negative: bool, digits: string, exponent: int): real
    requires Digits(digits)
  {
    var size := Times(DigitsValue(digits) as real, Ten(exponent));
    if negative then -size else size
  }

  function FractionOf(w: Written): string {
    if w.fraction.Some? then w.fraction.value else ""
  }

  function ExponentOf(w: Written): int
    requires Grammatical(w)
  {
    if w.exponent.None? then 0
    else (if w.exponent.value.sign == "-" then -1 else 1) * DigitsValue(w.exponent.value.digits)
  }

  function Denoted(w: Written): real
    requires Grammatical(w)
  {
    Scaled(w.sign == "-", w.whole + FractionOf(w), ExponentOf(w) - |FractionOf(w)|)
  }

  // --- Normalisation ---

  datatype Decimal = Decimal(negative: bool, digits: string, exponent: int)

  const ZERO := Decimal(false, "0", 0)

  function Value(d: Decimal): real
    requires Digits(d.digits)
  {
    Scaled(d.negative, d.digits, d.exponent)
  }

  function Ltrim(s: string): (t: string)
    ensures t != "" ==> t[0] != '0'
  {
    if s != "" && s[0] == '0' then Ltrim(s[1..]) else s
  }

  function Rtrim(s: string): (t: string)
    ensures t != "" ==> t[|t| - 1] != '0'
    ensures |t| <= |s|
  {
    if s != "" && s[|s| - 1] == '0' then Rtrim(s[..|s| - 1]) else s
  }

  predicate Int64(n: int) {
    INT_MIN <= n <= INT_MAX
  }

  function Normalised(w: Written): Result<Decimal, ()>
    requires Grammatical(w)
  {
    var digits := Ltrim(w.whole + FractionOf(w));
    if digits == "" then Success(ZERO)
    else
      var trimmed := Rtrim(digits);
      var tail := |digits| - |trimmed|;
      var exponent := ExponentOf(w);
      if !Int64(exponent) then Failure(())
      else
        var shift := tail - |FractionOf(w)|;
        if (shift > 0 && exponent > INT_MAX - shift) || (shift < 0 && exponent < INT_MIN - shift) then Failure(())
        else Success(Decimal(w.sign == "-", trimmed, exponent + shift))
  }

  lemma {:induction false} LtrimKeeps(s: string)
    requires Digits(s)
    ensures Digits(Ltrim(s)) && DigitsValue(Ltrim(s)) == DigitsValue(s)
    ensures Ltrim(s) == "" <==> DigitsValue(s) == 0
    ensures |Ltrim(s)| <= |s|
  {
    if s != "" && s[0] == '0' {
      LeadingZero(s);
      LtrimKeeps(s[1..]);
    } else if s != "" {
      LeadingDigit(s);
    }
  }

  lemma {:induction false} LeadingZero(s: string)
    requires Digits(s) && s != "" && s[0] == '0'
    ensures DigitsValue(s[1..]) == DigitsValue(s)
  {
    if |s| > 1 {
      LeadingZero(s[..|s| - 1]);
      assert s[1..][..|s| - 2] == s[..|s| - 1][1..];
    }
  }

  lemma {:induction false} LeadingDigit(s: string)
    requires Digits(s) && s != "" && s[0] != '0'
    ensures DigitsValue(s) > 0
  {
    if |s| > 1 {
      LeadingDigit(s[..|s| - 1]);
    } else {
      assert s[..0] == "";
    }
  }

  lemma TenStep(e: int)
    ensures Ten(e + 1) == 10.0 * Ten(e)
  {
  }

  lemma TenfoldMoves(a: real, b: real)
    ensures Times(a, 10.0 * b) == Times(10.0 * a, b)
  {
  }

  /** Dropping trailing zeros and raising the exponent by their number keeps the value. */
  lemma {:induction false} RtrimScaled(s: string, e: int)
    requires Digits(s)
    ensures Digits(Rtrim(s))
    ensures Times(DigitsValue(Rtrim(s)) as real, Ten(e + (|s| - |Rtrim(s)|))) == Times(DigitsValue(s) as real, Ten(e))
  {
    hide Times, Ten;
    if s != "" && s[|s| - 1] == '0' {
      var rest := s[..|s| - 1];
      RtrimScaled(rest, e + 1);
      TenStep(e);
      assert e + 1 + (|rest| - |Rtrim(rest)|) == e + (|s| - |Rtrim(s)|);
      assert DigitsValue(s) == 10 * DigitsValue(rest);
      TenfoldMoves(DigitsValue(rest) as real, Ten(e));
    }
  }

  lemma {:induction false} RtrimNonzero(s: string)
    requires Digits(s) && s != "" && s[0] != '0'
    ensures Rtrim(s) != "" && Rtrim(s)[0] == s[0]
  {
    if s[|s| - 1] == '0' {
      RtrimNonzero(s[..|s| - 1]);
    }
  }

  /** Zero in one form, or digits without leading or trailing zeros. */
  predicate Canonical(d: Decimal) {
    && Digits(d.digits) && d.digits != ""
    && (d == ZERO || (d.digits[0] != '0' && d.digits[|d.digits| - 1] != '0'))
  }

  /** Normalisation keeps the value and gives a canonical form. */
  lemma NormalisedPreserves(w: Written)
    requires Grammatical(w) && Normalised(w).Success?
    ensures Canonical(Normalised(w).value)
    ensures Value(Normalised(w).value) == Denoted(w)
  {
    hide Times, Ten, ExponentOf, Ltrim, Rtrim, DigitsValue;
    var all := w.whole + FractionOf(w);
    var digits := Ltrim(all);
    LtrimKeeps(all);
    if digits == "" {
      ZeroValue(ExponentOf(w) - |FractionOf(w)|);
      ZeroValue(0);
    } else {
      RtrimNonzero(digits);
      RtrimScaled(digits, ExponentOf(w) - |FractionOf(w)|);
    }
  }

  lemma ZeroValue(e: int)
    ensures Digits("0") && DigitsValue("0") == 0 && Times(0.0, Ten(e)) == 0.0
  {
    assert "0"[..0] == "";
  }

  /**
   * A number other than zero is refused exactly when its exponent, as written or as adjusted, leaves 64 bits; zero
   * never is.
   */
  lemma RefusedExactly(w: Written)
    requires Grammatical(w)
    ensures var digits := Ltrim(w.whole + FractionOf(w));
      var adjusted := ExponentOf(w) + (|digits| - |Rtrim(digits)|) - |FractionOf(w)|;
      && (digits == "" <==> Denoted(w) == 0.0)
      && (Normalised(w).Failure? <==> Denoted(w) != 0.0 && (!Int64(ExponentOf(w)) || !Int64(adjusted)))
  {
    hide Times, Ten, ExponentOf, Ltrim, Rtrim, DigitsValue, Grammatical;
    var all := w.whole + FractionOf(w);
    assert Digits(all) by {
      AllDigits(w);
    }
    LtrimKeeps(all);
    TenPositive(ExponentOf(w) - |FractionOf(w)|);
    NonzeroProduct(DigitsValue(all) as real, Ten(ExponentOf(w) - |FractionOf(w)|));
  }

  lemma AllDigits(w: Written)
    requires Grammatical(w)
    ensures Digits(w.whole + FractionOf(w))
  {
  }

  lemma NonzeroProduct(a: real, b: real)
    requires a >= 0.0 && b > 0.0
    ensures Times(a, b) == 0.0 <==> a == 0.0
    ensures Times(a, b) >= 0.0
  {
  }

  lemma {:induction false} TenPositive(e: int)
    ensures Ten(e) > 0.0
    decreases if e < 0 then -e else e
  {
    if e > 0 {
      TenPositive(e - 1);
    } else if e < 0 {
      TenPositive(e + 1);
    }
  }

  // --- One form for one number ---

  function Power(k: nat): nat {
    if k == 0 then 1 else 10 * Power(k - 1)
  }

  lemma {:induction false} TenSplits(e: int, k: nat)
    ensures Ten(e + k) == Times(Power(k) as real, Ten(e))
  {
    if k > 0 {
      TenSplits(e, k - 1);
      TenStep(e + k - 1);
      hide Ten;
      TenfoldOut(Power(k - 1) as real, Ten(e));
      assert Power(k) as real == 10.0 * Power(k - 1) as real;
    } else {
      hide Ten;
    }
  }

  lemma TenfoldOut(a: real, b: real)
    ensures Times(10.0 * a, b) == 10.0 * Times(a, b)
  {
  }

  lemma {:induction false} SameDigits(s: string, t: string)
    requires Digits(s) && Digits(t) && s != "" && t != "" && s[0] != '0' && t[0] != '0'
    requires DigitsValue(s) == DigitsValue(t)
    ensures s == t
  {
    var a, b := s[..|s| - 1], t[..|t| - 1];
    assert s[|s| - 1] == t[|t| - 1] && DigitsValue(a) == DigitsValue(b) by {
      LastDigit(DigitsValue(a), s[|s| - 1] as int - '0' as int, DigitsValue(b), t[|t| - 1] as int - '0' as int);
    }
    if a == "" || b == "" {
      if a != "" {
        LeadingDigit(a);
      }
      if b != "" {
        LeadingDigit(b);
      }
    } else {
      SameDigits(a, b);
    }
    assert s == a + [s[|s| - 1]] && t == b + [t[|t| - 1]];
  }

  lemma LastDigit(a: int, x: int, b: int, y: int)
    requires 0 <= x < 10 && 0 <= y < 10 && 10 * a + x == 10 * b + y
    ensures x == y && a == b
  {
  }

  /**
   * Equal scaled values with the larger exponent on the left: the exponents differ only if the right digits end in
   * zero.
   */
  lemma ScaledEqual(s: string, e: int, t: string, f: int)
    requires Digits(s) && Digits(t) && s != "" && t != "" && s[0] != '0' && t[0] != '0' && t[|t| - 1] != '0'
    requires f <= e
    requires Times(DigitsValue(s) as real, Ten(e)) == Times(DigitsValue(t) as real, Ten(f))
    ensures e == f && s == t
  {
    hide Times, Ten, Power, DigitsValue;
    var k := e - f;
    TenSplits(f, k);
    TenPositive(f);
    var x, y := DigitsValue(s), DigitsValue(t);
    Cancel(x, Power(k), y, Ten(f));
    if k > 0 {
      EndsInZero(x, k, t);
    } else {
      PowerZero();
    }
    SameDigits(s, t);
  }

  lemma PowerZero()
    ensures Power(0) == 1
  {
  }

  lemma Cancel(x: nat, p: nat, y: nat, z: real)
    requires z > 0.0 && Times(x as real, Times(p as real, z)) == Times(y as real, z)
    ensures x * p == y
  {
    var a, b := (x * p) as real, y as real;
    Regroup(x, p, z);
    assert (a - b) * z == 0.0;
    assert a == b;
  }

  lemma Regroup(x: nat, p: nat, z: real)
    ensures Times(x as real, Times(p as real, z)) == (x * p) as real * z
  {
    assert (x * p) as real == x as real * p as real by {
      ProductReal(x, p);
    }
    Associate(x as real, p as real, z);
  }

  lemma Associate(a: real, b: real, c: real)
    ensures a * (b * c) == (a * b) * c
  {
  }

  lemma {:induction false} ProductReal(x: nat, p: nat)
    ensures (x * p) as real == x as real * p as real
  {
    if x > 0 {
      ProductReal(x - 1, p);
      assert x * p == (x - 1) * p + p;
      assert (x - 1) as real * p as real + p as real == x as real * p as real;
    }
  }

  lemma EndsInZero(x: nat, k: nat, t: string)
    requires k > 0 && Digits(t) && t != "" && t[|t| - 1] != '0'
    ensures x * Power(k) != DigitsValue(t)
  {
    var m := x * Power(k - 1);
    assert x * Power(k) == 10 * m;
  }

  lemma ValueSign(d: Decimal)
    requires Canonical(d)
    ensures Value(d) == 0.0 <==> d == ZERO
    ensures d != ZERO ==> (d.negative <==> Value(d) < 0.0)
  {
    hide Times, Ten, DigitsValue;
    TenPositive(d.exponent);
    if d == ZERO {
      ZeroValue(0);
    } else {
      LeadingDigit(d.digits);
      NonzeroProduct(DigitsValue(d.digits) as real, Ten(d.exponent));
    }
  }

  /** Two canonical forms of the same number are the same form. */
  lemma CanonicalUnique(a: Decimal, b: Decimal)
    requires Canonical(a) && Canonical(b) && Value(a) == Value(b)
    ensures a == b
  {
    hide Times, Ten, DigitsValue;
    ValueSign(a);
    ValueSign(b);
    if a != ZERO && b != ZERO {
      assert a.negative == b.negative;
      if b.exponent <= a.exponent {
        ScaledEqual(a.digits, a.exponent, b.digits, b.exponent);
      } else {
        ScaledEqual(b.digits, b.exponent, a.digits, a.exponent);
      }
    }
  }

  /** Two accepted texts are normalised alike exactly when they denote the same number. */
  lemma NormalisedExact(v: Written, w: Written)
    requires Grammatical(v) && Grammatical(w) && Normalised(v).Success? && Normalised(w).Success?
    ensures Normalised(v) == Normalised(w) <==> Denoted(v) == Denoted(w)
  {
    hide Grammatical, Denoted, Canonical;
    NormalisedPreserves(v);
    NormalisedPreserves(w);
    if Denoted(v) == Denoted(w) {
      CanonicalUnique(Normalised(v).value, Normalised(w).value);
    }
  }
}
