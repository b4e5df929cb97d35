/** Exact decimals, pkg/iampolicy/numbers.go: parsing to a canonical form and comparing
    by leading position and then digit by digit. */
module Numbers {
  import opened Bytes

  predicate IsDigit(c: byte) {
    '0' <= c <= '9'
  }

  predicate Digits(s: bytes) {
    forall i | 0 <= i < |s| :: IsDigit(s[i])
  }

  predicate AllDigits(s: bytes) {
    s != [] && Digits(s)
  }

  // ----- Exact values -----

  /** A product, kept behind a name so that each proof picks the algebra it needs. */
  ghost function Times(x: real, y: real): real {
    x * y
  }

  lemma TimesAssoc(x: real, y: real, z: real)
    ensures Times(Times(x, y), z) == Times(x, Times(y, z))
  {
  }

  lemma TimesComm(x: real, y: real)
    ensures Times(x, y) == Times(y, x)
  {
  }

  lemma TimesAdd(x: real, y: real, p: real)
    ensures Times(x + y, p) == Times(x, p) + Times(y, p)
  {
  }

  lemma TimesUnit(x: real)
    ensures Times(1.0, x) == x && Times(x, 1.0) == x && Times(0.0, x) == 0.0
  {
  }

  lemma TimesTen(x: real, y: real)
    ensures Times(x, 10.0 * y) == 10.0 * Times(x, y)
    ensures Times(x / 10.0, 10.0 * y) == Times(x, y)
  {
  }

  lemma TimesOrder(x: real, y: real, p: real)
    requires p > 0.0
    ensures x < y <==> Times(x, p) < Times(y, p)
    ensures x == y <==> Times(x, p) == Times(y, p)
  {
    assert Times(y, p) - Times(x, p) == (y - x) * p;
    if x < y {
      assert (y - x) * p > 0.0;
    } else if y < x {
      assert (x - y) * p > 0.0;
      assert (x - y) * p == -((y - x) * p);
    }
  }

  ghost function Pow10(e: int): (p: real)
    ensures p > 0.0
    decreases if e < 0 then -e else e
  {
    if e == 0 then 1.0 else if e > 0 then 10.0 * Pow10(e - 1) else Pow10(e + 1) / 10.0
  }

  ghost function DigitValue(c: byte): real {
    (c as int - '0' as int) as real
  }

  /** The natural number a digit string denotes. */
  ghost function Dec(ds: bytes): real {
    if ds == [] then 0.0 else Times(DigitValue(ds[0]), Pow10(|ds| - 1)) + Dec(ds[1..])
  }

  /** The same digits read after a point: 0.d0 d1 d2 and so on. */
  ghost function Frac(ds: bytes): real {
    if ds == [] then 0.0 else (DigitValue(ds[0]) + Frac(ds[1..])) / 10.0
  }

  lemma {:induction false} PowStep(e: int)
    ensures Pow10(e + 1) == 10.0 * Pow10(e)
  {
  }

  lemma {:induction false} PowAdd(a: int, b: nat)
    ensures Pow10(a + b) == Times(Pow10(a), Pow10(b))
    decreases b
  {
    hide Times;
    if b == 0 {
      TimesUnit(Pow10(a));
    } else {
      PowAdd(a, b - 1);
      PowStep(a + b - 1);
      PowStep(b - 1);
      TimesTen(Pow10(a), Pow10(b - 1));
    }
  }

  lemma {:induction false} PowGrows(a: int, n: nat)
    ensures Pow10(a) <= Pow10(a + n)
    decreases n
  {
    if n > 0 {
      PowGrows(a, n - 1);
      PowStep(a + n - 1);
    }
  }

  lemma {:induction false} FracBounds(ds: bytes)
    requires Digits(ds)
    ensures 0.0 <= Frac(ds) < 1.0
    ensures ds != [] && ds[0] != '0' ==> Frac(ds) >= 1.0 / 10.0
    ensures ds != [] && ds[|ds| - 1] != '0' ==> Frac(ds) > 0.0
  {
    if ds != [] {
      assert IsDigit(ds[0]);
      assert forall i | 0 <= i < |ds| - 1 :: ds[1..][i] == ds[i + 1];
      FracBounds(ds[1..]);
      assert 0.0 <= DigitValue(ds[0]) <= 9.0;
    }
  }

  /** At a common leading position digits compare lexically, given no trailing zeros. */
  lemma {:induction false} LexicalOrder(a: bytes, b: bytes)
    requires Digits(a) && Digits(b)
    requires a != [] ==> a[|a| - 1] != '0'
    requires b != [] ==> b[|b| - 1] != '0'
    ensures Compare(a, b) < 0 <==> Frac(a) < Frac(b)
    ensures Compare(a, b) > 0 <==> Frac(a) > Frac(b)
  {
    FracBounds(a);
    FracBounds(b);
    if a != [] && b != [] {
      assert IsDigit(a[0]) && IsDigit(b[0]);
      assert forall i | 0 <= i < |a| - 1 :: a[1..][i] == a[i + 1];
      assert forall i | 0 <= i < |b| - 1 :: b[1..][i] == b[i + 1];
      FracBounds(a[1..]);
      FracBounds(b[1..]);
      LexicalOrder(a[1..], b[1..]);
      assert a[0] < b[0] ==> DigitValue(a[0]) + 1.0 <= DigitValue(b[0]);
      assert a[0] > b[0] ==> DigitValue(b[0]) + 1.0 <= DigitValue(a[0]);
    }
  }

  lemma {:induction false} DecIsFrac(ds: bytes)
    ensures Dec(ds) == Times(Frac(ds), Pow10(|ds|))
  {
    hide Times;
    TimesUnit(Pow10(0));
    if ds != [] {
      var d, f, p := DigitValue(ds[0]), Frac(ds[1..]), Pow10(|ds| - 1);
      DecIsFrac(ds[1..]);
      PowStep(|ds| - 1);
      TimesAdd(d, f, p);
      TimesTen(d + f, p);
    }
  }

  // ----- Number -----

  datatype Number = Number(neg: bool, digits: bytes, exp: int) {
    /** No leading or trailing zeros; zero has no digits, no sign and no exponent. */
    ghost predicate Canonical() {
      && Digits(digits)
      && (digits == [] ==> !neg && exp == 0)
      && (digits != [] ==> digits[0] != '0' && digits[|digits| - 1] != '0')
    }

    ghost function Magnitude(): real {
      Times(Dec(digits), Pow10(exp))
    }

    ghost function Value(): real {
      if neg then -Magnitude() else Magnitude()
    }

    function Top(): int {
      |digits| + exp
    }

    function Sign(): int {
      if digits == [] then 0 else if neg then -1 else 1
    }

    function MagnitudeCompare(o: Number): int {
      if Top() < o.Top() then -1
      else if Top() > o.Top() then 1
      else Bytes.Compare(digits, o.digits)
    }

    function Compare(o: Number): int {
      if Sign() != o.Sign() then (if Sign() < o.Sign() then -1 else 1)
      else if digits == [] then 0
      else if neg then -MagnitudeCompare(o)
      else MagnitudeCompare(o)
    }
  }

  lemma MagnitudeFromTop(n: Number)
    ensures n.Magnitude() == Times(Frac(n.digits), Pow10(n.Top()))
  {
    hide Times;
    DecIsFrac(n.digits);
    PowAdd(n.exp, |n.digits|);
    TimesComm(Pow10(n.exp), Pow10(|n.digits|));
    TimesAssoc(Frac(n.digits), Pow10(|n.digits|), Pow10(n.exp));
  }

  lemma MagnitudeBounds(n: Number)
    requires n.Canonical() && n.digits != []
    ensures 0.0 < Pow10(n.Top() - 1) <= n.Magnitude() < Pow10(n.Top())
  {
    hide Times;
    var low := Pow10(n.Top() - 1);
    FracBounds(n.digits);
    MagnitudeFromTop(n);
    PowStep(n.Top() - 1);
    TimesOrder(Frac(n.digits), 1.0, Pow10(n.Top()));
    TimesOrder(Frac(n.digits), 1.0 / 10.0, Pow10(n.Top()));
    TimesTen(1.0, low);
    TimesUnit(low);
    TimesUnit(Pow10(n.Top()));
  }

  lemma MagnitudeCompareIsExact(n: Number, o: Number)
    requires n.Canonical() && o.Canonical() && n.digits != [] && o.digits != []
    ensures n.MagnitudeCompare(o) < 0 <==> n.Magnitude() < o.Magnitude()
    ensures n.MagnitudeCompare(o) > 0 <==> n.Magnitude() > o.Magnitude()
  {
    if n.Top() < o.Top() {
      LowerTopIsSmaller(n, o);
    } else if n.Top() > o.Top() {
      LowerTopIsSmaller(o, n);
    } else {
      SameTopIsLexical(n, o);
    }
  }

  lemma LowerTopIsSmaller(n: Number, o: Number)
    requires n.Canonical() && o.Canonical() && n.digits != [] && o.digits != [] && n.Top() < o.Top()
    ensures n.Magnitude() < o.Magnitude()
  {
    hide Number.Magnitude;
    MagnitudeBounds(n);
    MagnitudeBounds(o);
    PowGrows(n.Top(), o.Top() - 1 - n.Top());
  }

  lemma SameTopIsLexical(n: Number, o: Number)
    requires n.Canonical() && o.Canonical() && n.Top() == o.Top()
    ensures Compare(n.digits, o.digits) < 0 <==> n.Magnitude() < o.Magnitude()
    ensures Compare(n.digits, o.digits) > 0 <==> n.Magnitude() > o.Magnitude()
  {
    hide Times, Number.Magnitude;
    MagnitudeFromTop(n);
    MagnitudeFromTop(o);
    LexicalOrder(n.digits, o.digits);
    TimesOrder(Frac(n.digits), Frac(o.digits), Pow10(n.Top()));
    TimesOrder(Frac(o.digits), Frac(n.digits), Pow10(n.Top()));
  }

  lemma SignIsExact(n: Number)
    requires n.Canonical()
    ensures n.Sign() == 0 ==> n.Value() == 0.0
    ensures n.Sign() < 0 ==> n.Value() < 0.0
    ensures n.Sign() > 0 ==> n.Value() > 0.0
  {
    if n.digits != [] {
      MagnitudeBounds(n);
    }
  }

  /** Comparing canonical numbers is comparing their exact values. */
  lemma CompareIsExact(n: Number, o: Number)
    requires n.Canonical() && o.Canonical()
    ensures n.Compare(o) < 0 <==> n.Value() < o.Value()
    ensures n.Compare(o) > 0 <==> n.Value() > o.Value()
    ensures n.Compare(o) == 0 <==> n.Value() == o.Value()
    ensures -1 <= n.Compare(o) <= 1
  {
    hide Number.Magnitude;
    assert -1 <= n.MagnitudeCompare(o) <= 1;
    hide Number.MagnitudeCompare;
    SignIsExact(n);
    SignIsExact(o);
    if n.Sign() == o.Sign() && n.digits != [] {
      MagnitudeCompareIsExact(n, o);
    }
  }

  /** Equal values have one representation. */
  lemma CanonicalIsUnique(n: Number, o: Number)
    requires n.Canonical() && o.Canonical()
    ensures n == o <==> n.Value() == o.Value()
  {
    hide Number.Magnitude;
    CompareIsExact(n, o);
    CompareZero(n.digits, o.digits);
  }

  // ----- Parsing -----

  /** strings.Cut on one byte. */
  datatype Halves = Halves(before: bytes, after: bytes, found: bool)

  function CutAt(s: bytes, c: byte): Halves {
    var i := IndexByte(s, c);
    if i < 0 then Halves(s, [], false) else Halves(s[..i], s[i + 1..], true)
  }

  function LowerE(s: bytes): (r: bytes)
    ensures |r| == |s|
  {
    seq(|s|, i requires 0 <= i < |s| => if s[i] == 'E' then 'e' else s[i])
  }

  function TrimLeft(s: bytes): bytes {
    if s != [] && s[0] == '0' then TrimLeft(s[1..]) else s
  }

  function TrimRight(s: bytes): (r: bytes)
    ensures |r| <= |s|
  {
    if s != [] && s[|s| - 1] == '0' then TrimRight(s[..|s| - 1]) else s
  }

  predicate Signed(s: bytes) {
    s != [] && (s[0] == '+' || s[0] == '-')
  }

  function Unsigned(s: bytes): bytes {
    if Signed(s) then s[1..] else s
  }

  predicate Negative(s: bytes) {
    s != [] && s[0] == '-'
  }

  function Nat(ds: bytes): int {
    if ds == [] then 0 else 10 * Nat(ds[..|ds| - 1]) + (ds[|ds| - 1] as int - '0' as int)
  }

  const MinInt32: int := -0x8000_0000
  const MaxInt32: int := 0x7FFF_FFFF

  /** strconv.ParseInt in base 10 at 32 bits. */
  function ParseInt32(s: bytes): Option<int> {
    var v := if Negative(s) then -Nat(Unsigned(s)) else Nat(Unsigned(s));
    if AllDigits(Unsigned(s)) && MinInt32 <= v <= MaxInt32 then Some(v) else None
  }

  /** The canonical number of a mantissa's digits at a scale. */
  function Normalize(neg: bool, mant: bytes, scale: int): Number {
    var digits := TrimLeft(mant);
    var trimmed := TrimRight(digits);
    if trimmed == [] then Number(false, [], 0) else Number(neg, trimmed, |digits| - |trimmed| - scale)
  }

  /** The number a string denotes, or None. */
  function NumberOf(s: bytes): Option<Number> {
    var halves := CutAt(LowerE(Unsigned(s)), 'e');
    var m := CutAt(halves.before, '.');
    var exp := if halves.found then ParseInt32(halves.after) else Some(0);
    if !AllDigits(m.before + m.after) || exp.None? then None
    else
      var scale := |m.after| - exp.value;
      if scale < MinInt32 || scale > MaxInt32 then None
      else Some(Normalize(Negative(s), m.before + m.after, scale))
  }

  method ParseNumber(input: bytes) returns (r: Option<Number>)
    ensures r == NumberOf(input)
  {
    var s := input;
    var n := Number(false, [], 0);
    if s != [] && (s[0] == '+' || s[0] == '-') {
      n := n.(neg := s[0] == '-');
      s := s[1..];
    }
    var halves := CutAt(LowerE(s), 'e');
    var m := CutAt(halves.before, '.');
    var mant := m.before + m.after;
    if !AllDigits(mant) {
      return None;
    }
    var exp := 0;
    if halves.found {
      var e := ParseInt32(halves.after);
      if e.None? {
        return None;
      }
      exp := e.value;
    }
    var scale := |m.after| - exp;
    if scale < MinInt32 || scale > MaxInt32 {
      return None;
    }
    var digits := TrimLeft(mant);
    var trimmed := TrimRight(digits);
    if trimmed == [] {
      return Some(Number(false, [], 0));
    }
    n := n.(digits := trimmed);
    n := n.(exp := |digits| - |trimmed| - scale);
    return Some(n);
  }

  // ----- Normalizing keeps the value -----

  lemma {:induction false} TrimLeftKeeps(s: bytes)
    requires Digits(s)
    ensures Digits(TrimLeft(s)) && Dec(TrimLeft(s)) == Dec(s)
    ensures TrimLeft(s) != [] ==> TrimLeft(s)[0] != '0'
  {
    if s != [] && s[0] == '0' {
      assert forall i | 0 <= i < |s| - 1 :: s[1..][i] == s[i + 1];
      TrimLeftKeeps(s[1..]);
    }
  }

  lemma {:induction false} DecConcat(a: bytes, b: bytes)
    ensures Dec(a + b) == Times(Dec(a), Pow10(|b|)) + Dec(b)
  {
    hide Times;
    if a == [] {
      assert a + b == b;
      TimesUnit(Pow10(|b|));
    } else {
      assert (a + b)[1..] == a[1..] + b;
      DecConcat(a[1..], b);
      var d, q, p := DigitValue(a[0]), Pow10(|a| - 1), Pow10(|b|);
      PowAdd(|a| - 1, |b|);
      TimesAssoc(d, q, p);
      TimesAdd(Times(d, q), Dec(a[1..]), p);
    }
  }

  lemma DropTrailingZero(t: bytes)
    ensures Dec(t + ['0']) == Times(Dec(t), Pow10(1))
  {
    hide Times;
    DecConcat(t, ['0']);
    TimesUnit(Pow10(0));
    assert Dec(['0'][1..]) == 0.0;
  }

  lemma {:induction false} TrimRightKeeps(s: bytes)
    requires Digits(s)
    ensures Digits(TrimRight(s)) && TrimRight(s) <= s
    ensures Dec(s) == Times(Dec(TrimRight(s)), Pow10(|s| - |TrimRight(s)|))
    ensures TrimRight(s) != [] ==> TrimRight(s)[|TrimRight(s)| - 1] != '0'
  {
    hide Times, Dec;
    if s != [] && s[|s| - 1] == '0' {
      var t := s[..|s| - 1];
      TrimRightKeeps(t);
      assert s == t + ['0'];
      DropTrailingZero(t);
      var k := |t| - |TrimRight(t)|;
      PowAdd(k, 1);
      TimesAssoc(Dec(TrimRight(t)), Pow10(k), Pow10(1));
    } else {
      TimesUnit(Dec(s));
    }
  }

  ghost function WithSign(x: real, neg: bool): real {
    if neg then -x else x
  }

  lemma NormalizeKeeps(neg: bool, mant: bytes, scale: int)
    requires Digits(mant)
    ensures Normalize(neg, mant, scale).Canonical()
    ensures Normalize(neg, mant, scale).Value() == WithSign(Times(Dec(mant), Pow10(-scale)), neg)
  {
    hide Times;
    var digits := TrimLeft(mant);
    var trimmed := TrimRight(digits);
    TrimLeftKeeps(mant);
    TrimRightKeeps(digits);
    var k := |digits| - |trimmed|;
    PowAdd(-scale, k);
    TimesComm(Pow10(-scale), Pow10(k));
    TimesAssoc(Dec(trimmed), Pow10(k), Pow10(-scale));
    if trimmed == [] {
      TimesUnit(Pow10(k));
      TimesUnit(Pow10(-scale));
      TimesUnit(Pow10(0));
    }
  }

  // ----- The grammar -----

  datatype SignMark = NoSign | Plus | Minus
  datatype Exponent = Exponent(upper: bool, sign: SignMark, digits: bytes)

  /** A decimal as it may be written: sign, digits with an optional point, exponent. */
  datatype Decimal = Decimal(sign: SignMark, whole: bytes, point: bool, frac: bytes, exponent: Option<Exponent>) {
    ghost predicate WellFormed() {
      && Digits(whole) && Digits(frac) && whole + frac != [] && (!point ==> frac == [])
      && (exponent.Some? ==> AllDigits(exponent.value.digits))
    }

    ghost function ExpValue(): int {
      if exponent.None? then 0
      else if exponent.value.sign == Minus then -Nat(exponent.value.digits)
      else Nat(exponent.value.digits)
    }

    /** Exponent and scale fit 32 bits. */
    ghost predicate InRange() {
      && MinInt32 <= ExpValue() <= MaxInt32
      && MinInt32 <= |frac| - ExpValue() <= MaxInt32
    }

    ghost function Value(): real {
      WithSign(Times(Dec(whole) + Times(Dec(frac), Pow10(-|frac|)), Pow10(ExpValue())), sign == Minus)
    }

    ghost function Mantissa(): bytes {
      whole + (if point then ['.'] + frac else [])
    }

    ghost function Render(): bytes {
      Mark(sign) + (Mantissa() + TailOf(exponent))
    }
  }

  ghost function TailOf(e: Option<Exponent>): bytes {
    if e.None? then []
    else [if e.value.upper then 'E' else 'e'] + Mark(e.value.sign) + e.value.digits
  }

  ghost function Mark(s: SignMark): bytes {
    match s
    case NoSign => []
    case Plus => ['+']
    case Minus => ['-']
  }

  lemma CutFirst(a: bytes, c: byte, b: bytes)
    requires c !in a
    ensures CutAt(a + [c] + b, c) == Halves(a, b, true)
    ensures CutAt(a, c) == Halves(a, [], false)
  {
    var s := a + [c] + b;
    IndexByteIsFirst(s, 0, c);
    IndexByteIsFirst(a, 0, c);
    assert s[|a|] == c;
    assert forall i | 0 <= i < |a| :: s[i] == a[i];
    var r := IndexByte(s, c);
    assert r == |a|;
    assert s[..|a|] == a && s[|a| + 1..] == b;
  }

  lemma SignIsRead(sign: SignMark, rest: bytes)
    requires !Signed(rest)
    ensures Unsigned(Mark(sign) + rest) == rest
    ensures Negative(Mark(sign) + rest) <==> sign == Minus
  {
    var s := Mark(sign) + rest;
    if sign == NoSign {
      assert s == rest;
    } else {
      assert s[1..] == rest;
    }
  }

  lemma LowerEConcat(a: bytes, b: bytes)
    ensures LowerE(a + b) == LowerE(a) + LowerE(b)
  {
  }

  lemma LowerEFixes(s: bytes)
    requires 'E' !in s
    ensures LowerE(s) == s
  {
  }

  /** What reading takes apart, rendering puts together. */
  lemma BodyParts(mant: bytes, e: Option<Exponent>)
    requires 'e' !in mant && 'E' !in mant
    requires e.Some? ==> AllDigits(e.value.digits)
    ensures CutAt(LowerE(mant + TailOf(e)), 'e') ==
            Halves(mant, if e.Some? then Mark(e.value.sign) + e.value.digits else [], e.Some?)
  {
    LowerEConcat(mant, TailOf(e));
    LowerEFixes(mant);
    if e.None? {
      assert mant + LowerE([]) == mant;
      CutFirst(mant, 'e', []);
    } else {
      var mark: byte := if e.value.upper then 'E' else 'e';
      var after := Mark(e.value.sign) + e.value.digits;
      LowerEFixes(after);
      Assoc([mark], Mark(e.value.sign), e.value.digits);
      LowerEConcat([mark], after);
      assert LowerE([mark]) == ['e'];
      Assoc(mant, ['e'], after);
      CutFirst(mant, 'e', after);
    }
  }

  lemma MantissaParts(d: Decimal)
    requires d.WellFormed()
    ensures 'e' !in d.Mantissa() && 'E' !in d.Mantissa()
    ensures CutAt(d.Mantissa(), '.') == Halves(d.whole, d.frac, d.point)
    ensures d.Mantissa() != [] && !Signed(d.Mantissa())
  {
    CutFirst(d.whole, '.', d.frac);
    if d.point {
      Assoc(d.whole, ['.'], d.frac);
    } else {
      assert d.Mantissa() == d.whole;
    }
    assert forall i | 0 <= i < |d.whole| :: IsDigit(d.whole[i]);
  }

  /** Reading a rendered decimal takes it apart again. */
  lemma RenderedParts(d: Decimal)
    requires d.WellFormed()
    ensures var halves := CutAt(LowerE(Unsigned(d.Render())), 'e');
            && CutAt(halves.before, '.') == Halves(d.whole, d.frac, d.point)
            && halves.found == d.exponent.Some?
            && (halves.found ==> halves.after == Mark(d.exponent.value.sign) + d.exponent.value.digits)
    ensures Negative(d.Render()) == (d.sign == Minus)
  {
    hide CutAt, LowerE, Decimal.Mantissa, TailOf, Unsigned, Mark;
    MantissaParts(d);
    assert (d.Mantissa() + TailOf(d.exponent))[0] == d.Mantissa()[0];
    SignIsRead(d.sign, d.Mantissa() + TailOf(d.exponent));
    BodyParts(d.Mantissa(), d.exponent);
  }

  /** Every written decimal whose exponent and scale fit is read, exactly, into canonical
      form; the others are refused. */
  lemma ParseRendered(d: Decimal)
    requires d.WellFormed()
    ensures NumberOf(d.Render()).Some? <==> d.InRange()
    ensures d.InRange() ==>
              var n := NumberOf(d.Render()).value;
              n.Canonical() && n.Value() == d.Value()
  {
    hide CutAt, LowerE, Unsigned, Negative, Normalize, Nat;
    RenderedParts(d);
    if d.exponent.Some? {
      ParseRenderedExponent(d.exponent.value);
    }
    var mant := d.whole + d.frac;
    assert AllDigits(mant);
    if d.InRange() {
      var scale := |d.frac| - d.ExpValue();
      NormalizeKeeps(d.sign == Minus, mant, scale);
      DecimalValue(d);
    }
  }

  lemma ParseRenderedExponent(e: Exponent)
    requires AllDigits(e.digits)
    ensures var v := if e.sign == Minus then -Nat(e.digits) else Nat(e.digits);
            ParseInt32(Mark(e.sign) + e.digits) == if MinInt32 <= v <= MaxInt32 then Some(v) else None
  {
    assert !Signed(e.digits) by {
      assert IsDigit(e.digits[0]);
    }
    SignIsRead(e.sign, e.digits);
  }

  /** A decimal's value is its digits, without the point, at its scale. */
  lemma DecimalValue(d: Decimal)
    ensures d.Value() == WithSign(Times(Dec(d.whole + d.frac), Pow10(d.ExpValue() - |d.frac|)), d.sign == Minus)
  {
    hide Times, Dec, Decimal.ExpValue;
    var w, x, f, e := Dec(d.whole), Dec(d.frac), |d.frac|, d.ExpValue();
    DecConcat(d.whole, d.frac);
    PowAdd(e - f, f);
    TimesComm(Pow10(e - f), Pow10(f));
    TimesAssoc(w, Pow10(f), Pow10(e - f));
    TimesAdd(Times(w, Pow10(f)), x, Pow10(e - f));
    PointShift(e, f);
    TimesAssoc(x, Pow10(-f), Pow10(e));
    TimesAdd(w, Times(x, Pow10(-f)), Pow10(e));
  }

  lemma PointShift(e: int, f: int)
    requires f >= 0
    ensures Times(Pow10(-f), Pow10(e)) == Pow10(e - f)
  {
    hide Times;
    PowAdd(e - f, f);
    PowAdd(-f, f);
    TimesComm(Pow10(e - f), Pow10(f));
    TimesAssoc(Pow10(-f), Pow10(f), Pow10(e - f));
    TimesUnit(Pow10(e - f));
  }

  /** Nothing else is read: an accepted string is some well-formed decimal, written out. */
  lemma ParsedIsDecimal(s: bytes) returns (d: Decimal)
    requires NumberOf(s).Some?
    ensures d.WellFormed() && d.Render() == s
  {
    hide LowerE, Unsigned, Signed, Nat, Normalize;
    var body := Unsigned(s);
    var halves := CutAt(LowerE(body), 'e');
    var m := CutAt(halves.before, '.');
    MarkReads(s);
    CutJoins(halves.before, '.');
    if halves.found {
      var i := ExponentSplits(body);
      MarkReads(halves.after);
      var e := Exponent(body[i] == 'E', MarkOf(halves.after), Unsigned(halves.after));
      Assoc([body[i]], Mark(e.sign), e.digits);
      d := Decimal(MarkOf(s), m.before, m.found, m.after, Some(e));
      assert TailOf(d.exponent) == [body[i]] + halves.after;
    } else {
      NoExponent(body);
      d := Decimal(MarkOf(s), m.before, m.found, m.after, None);
    }
    assert d.Mantissa() == halves.before;
    DigitsOfParts(m.before, m.after);
  }

  lemma DigitsOfParts(a: bytes, b: bytes)
    requires Digits(a + b)
    ensures Digits(a) && Digits(b)
  {
    forall i | 0 <= i < |b| ensures IsDigit(b[i]) {
      assert b[i] == (a + b)[|a| + i];
    }
    forall i | 0 <= i < |a| ensures IsDigit(a[i]) {
      assert a[i] == (a + b)[i];
    }
  }

  lemma CutJoins(s: bytes, c: byte)
    ensures var h := CutAt(s, c);
            s == h.before + (if h.found then [c] + h.after else [])
  {
    IndexByteIsFirst(s, 0, c);
  }

  lemma NoExponent(body: bytes)
    requires !CutAt(LowerE(body), 'e').found
    ensures CutAt(LowerE(body), 'e').before + [] == body
  {
    IndexByteIsFirst(LowerE(body), 0, 'e');
    assert LowerE(body) == body by {
      forall i | 0 <= i < |body| ensures body[i] != 'E' {
        assert LowerE(body)[i] != 'e';
      }
    }
  }

  /** A mantissa and an exponent that read as digits were written with a single mark. */
  lemma ExponentSplits(body: bytes) returns (i: nat)
    requires var h := CutAt(LowerE(body), 'e');
             h.found && ParseInt32(h.after).Some?
    ensures i < |body| && (body[i] == 'E' || body[i] == 'e')
    ensures var h := CutAt(LowerE(body), 'e');
            body == h.before + ([body[i]] + h.after)
  {
    hide IndexByteFrom, ParseInt32;
    var lowered := LowerE(body);
    i := IndexByte(lowered, 'e');
    IndexByteIsFirst(lowered, 0, 'e');
    var h := CutAt(lowered, 'e');
    forall k | 0 <= k < i ensures body[k] == h.before[k] {
      assert lowered[k] != 'e';
    }
    forall k | i < k < |body| ensures body[k] == h.after[k - i - 1] {
      AfterHasNoE(h.after, k - i - 1);
      assert lowered[k] == h.after[k - i - 1];
    }
    assert body[..i] == h.before && body[i + 1..] == h.after;
    AroundIndex(body, i);
  }

  lemma AroundIndex(s: bytes, i: nat)
    requires i < |s|
    ensures s == s[..i] + ([s[i]] + s[i + 1..])
  {
  }

  lemma AfterHasNoE(s: bytes, k: nat)
    requires ParseInt32(s).Some? && k < |s|
    ensures s[k] != 'e'
  {
    var u := Unsigned(s);
    if Signed(s) {
      assert k > 0 ==> s[k] == u[k - 1];
      assert k > 0 ==> IsDigit(u[k - 1]);
    } else {
      assert IsDigit(u[k]);
    }
  }

  ghost function MarkOf(s: bytes): SignMark {
    if !Signed(s) then NoSign else if s[0] == '-' then Minus else Plus
  }

  lemma MarkReads(s: bytes)
    ensures Mark(MarkOf(s)) + Unsigned(s) == s
  {
  }

  /** The exponent's digits, read step by step, denote what digits denote. */
  lemma {:induction false} NatIsDec(ds: bytes)
    requires Digits(ds)
    ensures Nat(ds) as real == Dec(ds)
  {
    if ds != [] {
      var n := |ds| - 1;
      assert ds == ds[..n] + [ds[n]];
      NatIsDec(ds[..n]);
      DecConcat(ds[..n], [ds[n]]);
      OneDigit(ds[n]);
    }
  }

  lemma OneDigit(c: byte)
    ensures Dec([c]) == DigitValue(c) && Pow10(1) == 10.0
  {
    assert Dec([c][1..]) == 0.0;
  }

  ghost function Signum(minus: bool): real {
    if minus then -1.0 else 1.0
  }

  /** How a decimal is written, spelled out. */
  lemma DecimalIsWritten(d: Decimal)
    ensures d.Render() ==
            (if d.sign == Minus then ['-'] else if d.sign == Plus then ['+'] else NoBytes) +
            ((d.whole + (if d.point then ['.'] + d.frac else NoBytes)) +
             (if d.exponent.None? then NoBytes
              else [if d.exponent.value.upper then 'E' else 'e'] +
                   (if d.exponent.value.sign == Minus then ['-'] else if d.exponent.value.sign == Plus then ['+'] else NoBytes) +
                   d.exponent.value.digits))
  {
  }

  /** What it denotes and when it fits, made of what its digits denote and of powers of ten.
      `k` is the exponent as a whole number. */
  lemma DecimalMeans(d: Decimal, k: int)
    requires d.WellFormed()
    requires k as real == if d.exponent.None? then 0.0
                          else Signum(d.exponent.value.sign == Minus) * Dec(d.exponent.value.digits)
    ensures d.Value() == Signum(d.sign == Minus) * (Dec(d.whole + d.frac) * Pow10(k - |d.frac|))
    ensures d.InRange() <==>
            -2147483648 <= k <= 2147483647 && -2147483648 <= |d.frac| - k <= 2147483647
  {
    hide Dec, Nat, Pow10;
    if d.exponent.Some? {
      NatIsDec(d.exponent.value.digits);
    }
    assert d.ExpValue() == k;
    DecimalValue(d);
  }

  /** The strings that read as numbers are exactly the decimals in range, written out. */
  lemma NumbersAreDecimals(s: bytes)
    ensures NumberOf(s).Some? <==> exists d: Decimal :: d.WellFormed() && d.InRange() && d.Render() == s
  {
    hide NumberOf, Decimal.Render, Decimal.WellFormed, Decimal.InRange;
    if NumberOf(s).Some? {
      var d := ParsedIsDecimal(s);
      ParseRendered(d);
    }
    forall d: Decimal | d.WellFormed() && d.InRange() && d.Render() == s ensures NumberOf(s).Some? {
      ParseRendered(d);
    }
  }

  /** Two strings that parse give the same number exactly when they denote the same value. */
  lemma SameNumberSameValue(c: Decimal, d: Decimal)
    requires c.WellFormed() && c.InRange() && d.WellFormed() && d.InRange()
    ensures NumberOf(c.Render()) == NumberOf(d.Render()) <==> c.Value() == d.Value()
  {
    hide NumberOf, Decimal.Value, Decimal.Render, Decimal.WellFormed, Decimal.InRange, Number.Canonical, Number.Value;
    ParseRendered(c);
    ParseRendered(d);
    CanonicalIsUnique(NumberOf(c.Render()).value, NumberOf(d.Render()).value);
  }
}
