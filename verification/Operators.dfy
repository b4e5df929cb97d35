/** The condition operators by name: what each of them, spelled as in a policy, asks of a
    request value (pkg/iampolicy/conditions.go, numbers.go, dates.go and match.go). */
module Operators {
  import opened Bytes
  import opened ContextKeys
  import opened Glob
  import opened Variables
  import opened Arn
  import opened Numbers
  import opened Conditions
  import opened Legacy
  import opened EvaluatorLaws
  import opened PatternLaws

  // ----- The names -----

  const OpStringEquals: bytes := "StringEquals"
  const OpStringNotEquals: bytes := "StringNotEquals"
  const OpStringEqualsIgnoreCase: bytes := "StringEqualsIgnoreCase"
  const OpStringNotEqualsIgnoreCase: bytes := "StringNotEqualsIgnoreCase"
  const OpStringLike: bytes := "StringLike"
  const OpStringNotLike: bytes := "StringNotLike"
  const OpIpAddress: bytes := "IpAddress"
  const OpNotIpAddress: bytes := "NotIpAddress"
  const OpBool: bytes := "Bool"
  const OpArnEquals: bytes := "ArnEquals"
  const OpArnLike: bytes := "ArnLike"
  const OpArnNotEquals: bytes := "ArnNotEquals"
  const OpArnNotLike: bytes := "ArnNotLike"
  const OpDateEquals: bytes := "DateEquals"
  const OpDateNotEquals: bytes := "DateNotEquals"
  const OpDateLessThan: bytes := "DateLessThan"
  const OpDateLessThanEquals: bytes := "DateLessThanEquals"
  const OpDateGreaterThan: bytes := "DateGreaterThan"
  const OpDateGreaterThanEquals: bytes := "DateGreaterThanEquals"
  const OpNumericEquals: bytes := "NumericEquals"
  const OpNumericNotEquals: bytes := "NumericNotEquals"
  const OpNumericLessThan: bytes := "NumericLessThan"
  const OpNumericLessThanEquals: bytes := "NumericLessThanEquals"
  const OpNumericGreaterThan: bytes := "NumericGreaterThan"
  const OpNumericGreaterThanEquals: bytes := "NumericGreaterThanEquals"

  /** A name tests as it is. */
  predicate Positive(operator: bytes, test: Test) {
    operator !in negatedOperators && operator in positiveTests && positiveTests[operator] == test
  }

  /** A name is the negation of another. */
  predicate Negates(operator: bytes, positive: bytes) {
    operator in negatedOperators && negatedOperators[operator] == positive
  }

  lemma NumericRows()
    ensures Positive(OpNumericEquals, Numeric(Equals)) && Positive(OpNumericLessThan, Numeric(LessThan))
    ensures Positive(OpNumericLessThanEquals, Numeric(LessThanEquals))
    ensures Positive(OpNumericGreaterThan, Numeric(GreaterThan))
    ensures Positive(OpNumericGreaterThanEquals, Numeric(GreaterThanEquals))
    ensures Negates(OpNumericNotEquals, OpNumericEquals)
  {
  }

  lemma DateRows()
    ensures Positive(OpDateEquals, Date(Equals)) && Positive(OpDateLessThan, Date(LessThan))
    ensures Positive(OpDateLessThanEquals, Date(LessThanEquals))
    ensures Positive(OpDateGreaterThan, Date(GreaterThan))
    ensures Positive(OpDateGreaterThanEquals, Date(GreaterThanEquals))
    ensures Negates(OpDateNotEquals, OpDateEquals)
  {
  }

  lemma StringRows()
    ensures Positive(OpStringEquals, StringEquals(false)) && Positive(OpStringEqualsIgnoreCase, StringEquals(true))
    ensures Positive(OpStringLike, StringLike) && Positive(OpBool, Bool)
    ensures Negates(OpStringNotEquals, OpStringEquals)
    ensures Negates(OpStringNotEqualsIgnoreCase, OpStringEqualsIgnoreCase)
    ensures Negates(OpStringNotLike, OpStringLike)
  {
  }

  lemma OtherRows()
    ensures Positive(OpIpAddress, IpAddress) && Positive(OpArnEquals, ArnLike) && Positive(OpArnLike, ArnLike)
    ensures Negates(OpNotIpAddress, OpIpAddress)
    ensures Negates(OpArnNotEquals, OpArnEquals) && Negates(OpArnNotLike, OpArnLike)
  {
  }

  // ----- What each asks of one value -----

  lemma OneValue(lib: Library, r: Reading, operator: bytes, test: Test, actual: bytes, v: bytes)
    requires Positive(operator, test)
    ensures OperatorHolds(lib, r, operator, actual, [v], false) <==> ValueHolds(lib, r, test, actual, v, false)
    ensures OperatorHolds(lib, r, operator, actual, [v], true) <==>
            UnreadableActual(lib, test, actual) || ValueHolds(lib, r, test, actual, v, true)
  {
    hide ValueHolds, TestHolds, UnreadableActual;
    TestIsSomeValue(lib, r, test, actual, [v], false);
    TestIsSomeValue(lib, r, test, actual, [v], true);
    assert v in [v];
  }

  lemma OneNegated(lib: Library, r: Reading, operator: bytes, positive: bytes, actual: bytes, values: seq<bytes>, failClosed: bool)
    requires Negates(operator, positive)
    ensures OperatorHolds(lib, r, operator, actual, values, failClosed) <==>
            !OperatorHolds(lib, r, positive, actual, values, !failClosed)
  {
    hide TestHolds;
    PositiveFormsArePositive(operator);
  }

  lemma NumericTest(lib: Library, r: Reading, operator: bytes, order: Order, c: Decimal, d: Decimal, failClosed: bool)
    requires Positive(operator, Numeric(order))
    requires c.WellFormed() && c.InRange() && d.WellFormed() && d.InRange()
    ensures OperatorHolds(lib, r, operator, c.Render(), [d.Render()], failClosed) <==> Orders(order, c.Value(), d.Value())
  {
    hide NumberOf, Decimal.Render, Decimal.Value, NumberSatisfies, OperatorHolds, Orders, Positive;
    OneValue(lib, r, operator, Numeric(order), c.Render(), d.Render());
    NumericOrdersValues(order, c, d);
  }

  /** The numeric operators compare the values of the two decimals as written. */
  lemma NumericOperators(lib: Library, r: Reading, c: Decimal, d: Decimal, failClosed: bool)
    requires c.WellFormed() && c.InRange() && d.WellFormed() && d.InRange()
    ensures OperatorHolds(lib, r, OpNumericEquals, c.Render(), [d.Render()], failClosed) <==> c.Value() == d.Value()
    ensures OperatorHolds(lib, r, OpNumericNotEquals, c.Render(), [d.Render()], failClosed) <==> c.Value() != d.Value()
    ensures OperatorHolds(lib, r, OpNumericLessThan, c.Render(), [d.Render()], failClosed) <==> c.Value() < d.Value()
    ensures OperatorHolds(lib, r, OpNumericLessThanEquals, c.Render(), [d.Render()], failClosed) <==> c.Value() <= d.Value()
    ensures OperatorHolds(lib, r, OpNumericGreaterThan, c.Render(), [d.Render()], failClosed) <==> c.Value() > d.Value()
    ensures OperatorHolds(lib, r, OpNumericGreaterThanEquals, c.Render(), [d.Render()], failClosed) <==> c.Value() >= d.Value()
  {
    hide OperatorHolds, Decimal.Render, Decimal.Value, Decimal.WellFormed, Decimal.InRange, Positive, Negates;
    NumericRows();
    NumericTest(lib, r, OpNumericEquals, Equals, c, d, failClosed);
    NumericTest(lib, r, OpNumericEquals, Equals, c, d, !failClosed);
    OneNegated(lib, r, OpNumericNotEquals, OpNumericEquals, c.Render(), [d.Render()], failClosed);
    NumericTest(lib, r, OpNumericLessThan, LessThan, c, d, failClosed);
    NumericTest(lib, r, OpNumericLessThanEquals, LessThanEquals, c, d, failClosed);
    NumericTest(lib, r, OpNumericGreaterThan, GreaterThan, c, d, failClosed);
    NumericTest(lib, r, OpNumericGreaterThanEquals, GreaterThanEquals, c, d, failClosed);
  }

  lemma DateTest(lib: Library, r: Reading, operator: bytes, order: Order, actual: bytes, v: bytes, failClosed: bool)
    requires Positive(operator, Date(order)) && lib.date(actual).Some? && lib.date(v).Some?
    ensures OperatorHolds(lib, r, operator, actual, [v], failClosed) <==>
            Orders(order, lib.date(actual).value as real, lib.date(v).value as real)
  {
    hide OperatorHolds, Positive;
    OneValue(lib, r, operator, Date(order), actual, v);
  }

  /** The date operators compare the two instants. */
  lemma DateOperators(lib: Library, r: Reading, actual: bytes, v: bytes, failClosed: bool)
    requires lib.date(actual).Some? && lib.date(v).Some?
    ensures var x, y := lib.date(actual).value, lib.date(v).value;
            && (OperatorHolds(lib, r, OpDateEquals, actual, [v], failClosed) <==> x == y)
            && (OperatorHolds(lib, r, OpDateNotEquals, actual, [v], failClosed) <==> x != y)
            && (OperatorHolds(lib, r, OpDateLessThan, actual, [v], failClosed) <==> x < y)
            && (OperatorHolds(lib, r, OpDateLessThanEquals, actual, [v], failClosed) <==> x <= y)
            && (OperatorHolds(lib, r, OpDateGreaterThan, actual, [v], failClosed) <==> x > y)
            && (OperatorHolds(lib, r, OpDateGreaterThanEquals, actual, [v], failClosed) <==> x >= y)
  {
    hide OperatorHolds, Positive, Negates;
    DateRows();
    DateTest(lib, r, OpDateEquals, Equals, actual, v, failClosed);
    DateTest(lib, r, OpDateEquals, Equals, actual, v, !failClosed);
    OneNegated(lib, r, OpDateNotEquals, OpDateEquals, actual, [v], failClosed);
    DateTest(lib, r, OpDateLessThan, LessThan, actual, v, failClosed);
    DateTest(lib, r, OpDateLessThanEquals, LessThanEquals, actual, v, failClosed);
    DateTest(lib, r, OpDateGreaterThan, GreaterThan, actual, v, failClosed);
    DateTest(lib, r, OpDateGreaterThanEquals, GreaterThanEquals, actual, v, failClosed);
  }

  lemma TextReads(v: bytes, env: Env)
    requires OpensNothing(v)
    ensures Resolvable(Parse(v), env) && Plain(Parse(v), env) == v && Meaning(Parse(v), env) == Tokens(v, false)
  {
    TextParses(v);
  }

  /** The string operators and Bool, on a value without references: equal, equal up to case,
      or matched as a pattern. */
  lemma StringOperators(lib: Library, env: Env, actual: bytes, v: bytes, failClosed: bool)
    requires OpensNothing(v)
    ensures var r := Resolving(env);
            && (OperatorHolds(lib, r, OpStringEquals, actual, [v], failClosed) <==> v == actual)
            && (OperatorHolds(lib, r, OpStringNotEquals, actual, [v], failClosed) <==> v != actual)
            && (OperatorHolds(lib, r, OpStringEqualsIgnoreCase, actual, [v], failClosed) <==> lib.fold(v) == lib.fold(actual))
            && (OperatorHolds(lib, r, OpStringNotEqualsIgnoreCase, actual, [v], failClosed) <==> lib.fold(v) != lib.fold(actual))
            && (OperatorHolds(lib, r, OpStringLike, actual, [v], failClosed) <==> Matches(Tokens(v, false), actual))
            && (OperatorHolds(lib, r, OpStringNotLike, actual, [v], failClosed) <==> !Matches(Tokens(v, false), actual))
            && (OperatorHolds(lib, r, OpBool, actual, [v], failClosed) <==> lib.fold(v) == lib.fold(actual))
  {
    hide OperatorHolds, Positive, Negates, Matches, Tokens, Meaning, Plain, Resolvable, Parse;
    var r := Resolving(env);
    StringRows();
    TextReads(v, env);
    OneNegated(lib, r, OpStringNotEquals, OpStringEquals, actual, [v], failClosed);
    OneNegated(lib, r, OpStringNotEqualsIgnoreCase, OpStringEqualsIgnoreCase, actual, [v], failClosed);
    OneNegated(lib, r, OpStringNotLike, OpStringLike, actual, [v], failClosed);
    OneValue(lib, r, OpStringEquals, StringEquals(false), actual, v);
    OneValue(lib, r, OpStringEqualsIgnoreCase, StringEquals(true), actual, v);
    OneValue(lib, r, OpStringLike, StringLike, actual, v);
    OneValue(lib, r, OpBool, Bool, actual, v);
  }

  /** The same operators on a value whose references resolve: equality is with what it
      resolves to, and patterns keep its text's wildcards only. */
  lemma ResolvedOperators(lib: Library, env: Env, actual: bytes, v: bytes, failClosed: bool)
    requires Resolvable(Parse(v), env)
    ensures var r, resolved := Resolving(env), Plain(Parse(v), env);
            && (OperatorHolds(lib, r, OpStringEquals, actual, [v], failClosed) <==> resolved == actual)
            && (OperatorHolds(lib, r, OpStringNotEquals, actual, [v], failClosed) <==> resolved != actual)
            && (OperatorHolds(lib, r, OpStringEqualsIgnoreCase, actual, [v], failClosed) <==> lib.fold(resolved) == lib.fold(actual))
            && (OperatorHolds(lib, r, OpStringLike, actual, [v], failClosed) <==> Matches(Meaning(Parse(v), env), actual))
            && (OperatorHolds(lib, r, OpStringNotLike, actual, [v], failClosed) <==> !Matches(Meaning(Parse(v), env), actual))
  {
    hide OperatorHolds, Positive, Negates, Matches, Meaning, Plain, Resolvable, Parse;
    var r := Resolving(env);
    StringRows();
    OneNegated(lib, r, OpStringNotEquals, OpStringEquals, actual, [v], failClosed);
    OneNegated(lib, r, OpStringNotLike, OpStringLike, actual, [v], failClosed);
    OneValue(lib, r, OpStringEquals, StringEquals(false), actual, v);
    OneValue(lib, r, OpStringEqualsIgnoreCase, StringEquals(true), actual, v);
    OneValue(lib, r, OpStringLike, StringLike, actual, v);
  }

  /** A string value that does not resolve takes `failClosed`, negated or not: either way it
      keeps a Deny matching and an Allow from it. */
  lemma UnresolvedOperators(lib: Library, env: Env, actual: bytes, v: bytes, failClosed: bool)
    requires !Resolvable(Parse(v), env)
    ensures var r := Resolving(env);
            && OperatorHolds(lib, r, OpStringEquals, actual, [v], failClosed) == failClosed
            && OperatorHolds(lib, r, OpStringNotEquals, actual, [v], failClosed) == failClosed
            && OperatorHolds(lib, r, OpStringLike, actual, [v], failClosed) == failClosed
            && OperatorHolds(lib, r, OpStringNotLike, actual, [v], failClosed) == failClosed
            && OperatorHolds(lib, r, OpArnLike, actual, [v], failClosed) == failClosed
            && OperatorHolds(lib, r, OpArnNotLike, actual, [v], failClosed) == failClosed
  {
    hide OperatorHolds, Positive, Negates, Resolvable, Parse;
    var r := Resolving(env);
    StringRows();
    OtherRows();
    OneNegated(lib, r, OpStringNotEquals, OpStringEquals, actual, [v], failClosed);
    OneNegated(lib, r, OpStringNotLike, OpStringLike, actual, [v], failClosed);
    OneNegated(lib, r, OpArnNotLike, OpArnLike, actual, [v], failClosed);
    OneValue(lib, r, OpStringEquals, StringEquals(false), actual, v);
    OneValue(lib, r, OpStringLike, StringLike, actual, v);
    OneValue(lib, r, OpArnLike, ArnLike, actual, v);
  }

  /** IpAddress: inside the block, when the value is one, and otherwise the same address; an
      unreadable request value takes `failClosed`, negated or not. */
  lemma AddressOperators(lib: Library, r: Reading, actual: bytes, v: bytes, failClosed: bool)
    ensures lib.address(actual).Some? ==>
              var inside := if lib.isPrefix(v) then lib.inPrefix(v, lib.address(actual).value)
                            else lib.address(v) == lib.address(actual);
              && (OperatorHolds(lib, r, OpIpAddress, actual, [v], failClosed) <==> inside)
              && (OperatorHolds(lib, r, OpNotIpAddress, actual, [v], failClosed) <==> !inside)
    ensures lib.address(actual).None? ==>
              && OperatorHolds(lib, r, OpIpAddress, actual, [v], failClosed) == failClosed
              && OperatorHolds(lib, r, OpNotIpAddress, actual, [v], failClosed) == failClosed
  {
    hide OperatorHolds, Positive, Negates;
    OtherRows();
    OneNegated(lib, r, OpNotIpAddress, OpIpAddress, actual, [v], failClosed);
    OneValue(lib, r, OpIpAddress, IpAddress, actual, v);
  }

  /** The same of an unreadable date or number in the request. */
  lemma UnreadableOperators(lib: Library, r: Reading, actual: bytes, v: bytes, failClosed: bool)
    ensures lib.date(actual).None? ==>
              && OperatorHolds(lib, r, OpDateLessThan, actual, [v], failClosed) == failClosed
              && OperatorHolds(lib, r, OpDateNotEquals, actual, [v], failClosed) == failClosed
    ensures NumberOf(actual).None? ==>
              && OperatorHolds(lib, r, OpNumericLessThan, actual, [v], failClosed) == failClosed
              && OperatorHolds(lib, r, OpNumericNotEquals, actual, [v], failClosed) == failClosed
  {
    hide OperatorHolds, Positive, Negates, NumberOf;
    DateRows();
    NumericRows();
    OneNegated(lib, r, OpDateNotEquals, OpDateEquals, actual, [v], failClosed);
    OneNegated(lib, r, OpNumericNotEquals, OpNumericEquals, actual, [v], failClosed);
    OneValue(lib, r, OpDateLessThan, Date(LessThan), actual, v);
    OneValue(lib, r, OpDateEquals, Date(Equals), actual, v);
    OneValue(lib, r, OpNumericLessThan, Numeric(LessThan), actual, v);
    OneValue(lib, r, OpNumericEquals, Numeric(Equals), actual, v);
  }

  /** Values are ORed: a positive operator holds of some, a negated one must hold of all. */
  lemma ValuesAreOred(lib: Library, r: Reading, operator: bytes, actual: bytes, a: seq<bytes>, b: seq<bytes>, failClosed: bool)
    requires operator in positiveTests || operator in negatedOperators
    ensures var x, y, xy := OperatorHolds(lib, r, operator, actual, a, failClosed),
                            OperatorHolds(lib, r, operator, actual, b, failClosed),
                            OperatorHolds(lib, r, operator, actual, a + b, failClosed);
            xy == if operator in negatedOperators then x && y else x || y
  {
    hide ValueHolds, TestHolds, UnreadableActual;
    var positive := if operator in negatedOperators then negatedOperators[operator] else operator;
    var f := if operator in negatedOperators then !failClosed else failClosed;
    if positive in positiveTests {
      var test := positiveTests[positive];
      TestIsSomeValue(lib, r, test, actual, a, f);
      TestIsSomeValue(lib, r, test, actual, b, f);
      TestIsSomeValue(lib, r, test, actual, a + b, f);
      assert forall v :: v in a + b <==> v in a || v in b;
    }
    if operator in negatedOperators {
      PositiveFormsArePositive(operator);
    }
  }

  // ----- ARNs by their six parts -----

  function Colons(ps: seq<bytes>): bytes
    requires |ps| == 6
  {
    ps[0] + [':'] + (ps[1] + [':'] + (ps[2] + [':'] + (ps[3] + [':'] + (ps[4] + [':'] + ps[5]))))
  }

  lemma {:induction false} PlainSplitInSuffix(p: bytes, s: bytes, i: nat, n: nat)
    requires i <= |s|
    ensures PlainSplitFrom(p + s, |p| + i, n) == PlainSplitFrom(s, i, n)
    decreases n
  {
    hide IndexByteFrom;
    if n == 0 {
      assert (p + s)[|p| + i..] == s[i..];
    } else {
      IndexInSuffix(p, s, i, ':');
      var c := IndexByteFrom(s, i, ':');
      if c >= 0 {
        PlainSplitInSuffix(p, s, c + 1, n - 1);
        assert (p + s)[|p| + i..|p| + c] == s[i..c];
      }
    }
  }

  lemma PlainSplitStep(x: bytes, y: bytes, n: nat)
    requires ':' !in x && n > 0
    ensures PlainSplitFrom(x + [':'] + y, 0, n) == Prepend([x], PlainSplitFrom(y, 0, n - 1))
  {
    hide IndexByteFrom;
    var s := x + [':'] + y;
    assert s[|x|] == ':' && forall k | 0 <= k < |x| :: s[k] == x[k];
    IndexByteIsFirst(s, 0, ':');
    assert IndexByteFrom(s, 0, ':') == |x|;
    PlainSplitInSuffix(x + [':'], y, 0, n - 1);
    assert s[0..|x|] == x;
  }

  lemma ColonsSplit(ps: seq<bytes>)
    requires |ps| == 6 && forall i | 0 <= i < 5 :: ':' !in ps[i]
    ensures ValueParts(Colons(ps)) == Some(ps)
  {
    hide PlainSplitFrom, IndexByteFrom;
    var e := ps[4] + [':'] + ps[5];
    var d := ps[3] + [':'] + e;
    var c := ps[2] + [':'] + d;
    var b := ps[1] + [':'] + c;
    PlainSplitStep(ps[0], b, 5);
    PlainSplitStep(ps[1], c, 4);
    PlainSplitStep(ps[2], d, 3);
    PlainSplitStep(ps[3], e, 2);
    PlainSplitStep(ps[4], ps[5], 1);
    WholeSplit(ps[5]);
    assert [ps[0]] + ([ps[1]] + ([ps[2]] + ([ps[3]] + ([ps[4]] + [ps[5]])))) == ps;
  }

  lemma WholeSplit(s: bytes)
    ensures PlainSplitFrom(s, 0, 0) == Some([s])
  {
    assert s[0..] == s;
  }

  lemma NoColonNoParts(s: bytes)
    requires ':' !in s
    ensures ValueParts(s) == None
  {
    IndexByteIsFirst(s, 0, ':');
  }

  /** An ARN pattern and an ARN value, each of six parts with colons between them, match part
      by part; a pattern with fewer never matches, and a value with fewer takes `failClosed`. */
  lemma ArnBySixParts(lib: Library, keys: ConditionKeys, ps: seq<bytes>, vs: seq<bytes>, other: bytes, failClosed: bool)
    requires |ps| == 6 && (forall i | 0 <= i < 5 :: ':' !in ps[i]) && OpensNothing(Colons(ps))
    requires |vs| == 6 && (forall i | 0 <= i < 5 :: ':' !in vs[i])
    requires ':' !in other && OpensNothing(other)
    ensures var r := Resolving(Environment(keys));
            && (OperatorHolds(lib, r, OpArnLike, Colons(vs), [Colons(ps)], failClosed) <==>
                  forall i | 0 <= i < 6 :: Matches(Tokens(ps[i], false), vs[i]))
            && (OperatorHolds(lib, r, OpArnEquals, Colons(vs), [Colons(ps)], failClosed) <==>
                  forall i | 0 <= i < 6 :: Matches(Tokens(ps[i], false), vs[i]))
            && (OperatorHolds(lib, r, OpArnNotLike, Colons(vs), [Colons(ps)], failClosed) <==>
                  !forall i | 0 <= i < 6 :: Matches(Tokens(ps[i], false), vs[i]))
            && (OperatorHolds(lib, r, OpArnNotEquals, Colons(vs), [Colons(ps)], failClosed) <==>
                  !forall i | 0 <= i < 6 :: Matches(Tokens(ps[i], false), vs[i]))
            && !OperatorHolds(lib, r, OpArnLike, Colons(vs), [other], failClosed)
            && OperatorHolds(lib, r, OpArnLike, other, [Colons(ps)], failClosed) == failClosed
  {
    hide OperatorHolds, Positive, Negates, Matches, Tokens, ArnHolds, ValueParts, Colons, LiteralString, OpensNothing;
    var r := Resolving(Environment(keys));
    OtherRows();
    OneNegated(lib, r, OpArnNotLike, OpArnLike, Colons(vs), [Colons(ps)], failClosed);
    OneNegated(lib, r, OpArnNotEquals, OpArnEquals, Colons(vs), [Colons(ps)], failClosed);
    OpensNothingIs(Colons(ps));
    OpensNothingIs(other);
    NoOpenIsFixed(Colons(ps));
    NoOpenIsFixed(other);
    ColonsSplit(ps);
    ColonsSplit(vs);
    NoColonNoParts(other);
    OneValue(lib, r, OpArnLike, ArnLike, Colons(vs), Colons(ps));
    OneValue(lib, r, OpArnEquals, ArnLike, Colons(vs), Colons(ps));
    LiteralArnReads(Colons(ps), keys, Colons(vs), failClosed);
    LiteralArnReads(Colons(ps), keys, Colons(vs), !failClosed);
    OneValue(lib, r, OpArnLike, ArnLike, Colons(vs), other);
    LiteralArnReads(other, keys, Colons(vs), failClosed);
    OneValue(lib, r, OpArnLike, ArnLike, other, Colons(ps));
    LiteralArnReads(Colons(ps), keys, other, failClosed);
  }

  // ----- Absent keys, IfExists and Null -----

  const NullName: bytes := "Null"
  const IfExists: bytes := "IfExists"
  const TrueValue: bytes := "true"
  const FalseValue: bytes := "false"

  lemma SuffixIsRead(operator: bytes)
    ensures BaseOperator(operator + IfExists) == Base(operator, true)
  {
    var s := operator + IfExists;
    assert s[|operator|..] == IfExists && s[..|operator|] == operator;
  }

  /** An operator with the suffix holds of an absent key, and otherwise as it does without. */
  lemma IfExistsHolds(lib: Library, r: Reading, operator: bytes, key: bytes, values: seq<bytes>, keys: ConditionKeys, failClosed: bool)
    requires operator != NullName
    ensures BlockHolds(lib, r, operator + IfExists, key, values, keys, failClosed) <==>
            key in keys ==> OperatorHolds(lib, r, operator, keys[key], values, failClosed)
  {
    hide OperatorHolds, BaseOperator;
    SuffixIsRead(operator);
  }

  /** Without it, an operator holds of an absent key exactly when it is negated. */
  lemma PlainOperatorHolds(lib: Library, r: Reading, operator: bytes, key: bytes, values: seq<bytes>, keys: ConditionKeys, failClosed: bool)
    requires operator != NullName && !EndsWith(operator, IfExists)
    ensures BlockHolds(lib, r, operator, key, values, keys, failClosed) <==>
            if key in keys then OperatorHolds(lib, r, operator, keys[key], values, failClosed)
            else operator in negatedOperators
  {
    hide OperatorHolds;
    assert BaseOperator(operator) == Base(operator, false);
  }

  /** Null true asks for an absent key, Null false for a present one. */
  lemma NullOperator(lib: Library, r: Reading, key: bytes, keys: ConditionKeys, failClosed: bool)
    ensures BlockHolds(lib, r, NullName, key, [TrueValue], keys, failClosed) <==> key !in keys
    ensures BlockHolds(lib, r, NullName, key, [FalseValue], keys, failClosed) <==> key in keys
  {
    hide OperatorHolds, FoldToAscii;
    assert BaseOperator(NullName) == Base(NullName, false);
    WordsFold();
    assert TrueValue in [TrueValue] && FalseValue in [FalseValue];
  }

  lemma WordsFold()
    ensures FoldToAscii(TrueValue) == TrueValue && FoldToAscii(FalseValue) == FalseValue && TrueValue != FalseValue
  {
    hide FoldToAscii;
    LowerFolds(TrueValue);
    LowerFolds(FalseValue);
  }

  lemma {:induction false} LowerFolds(s: bytes)
    requires forall i | 0 <= i < |s| :: 'a' <= s[i] <= 'z'
    ensures FoldToAscii(s) == s
  {
    if s != [] {
      LowerFolds(s[1..]);
      assert LongS[0] > 'z' && Kelvin[0] > 'z';
      assert s == [s[0]] + s[1..];
    }
  }

  // ----- What the write path accepts -----

  predicate EqualsName(op: bytes) {
    op == OpStringEquals || op == OpStringNotEquals || op == OpStringEqualsIgnoreCase || op == OpStringNotEqualsIgnoreCase
  }

  predicate LikeName(op: bytes) {
    op == OpStringLike || op == OpStringNotLike
  }

  predicate DateName(op: bytes) {
    op == OpDateEquals || op == OpDateNotEquals || op == OpDateLessThan || op == OpDateLessThanEquals ||
    op == OpDateGreaterThan || op == OpDateGreaterThanEquals
  }

  predicate NumericName(op: bytes) {
    op == OpNumericEquals || op == OpNumericNotEquals || op == OpNumericLessThan || op == OpNumericLessThanEquals ||
    op == OpNumericGreaterThan || op == OpNumericGreaterThanEquals
  }

  predicate AddressName(op: bytes) {
    op == OpIpAddress || op == OpNotIpAddress
  }

  const SourceIp: bytes := "aws:SourceIp"
  const S3Prefix: bytes := "s3:prefix"
  const S3MaxKeys: bytes := "s3:max-keys"
  const SecureTransport: bytes := "aws:SecureTransport"
  const PrincipalType: bytes := "aws:PrincipalType"
  const PassedToService: bytes := "iam:PassedToService"
  const CurrentTime: bytes := "aws:CurrentTime"
  const EpochTime: bytes := "aws:EpochTime"

  /** The keys, each with the operators it takes. */
  predicate Takes(key: bytes, op: bytes) {
    || (key == SourceIp && AddressName(op))
    || (key == S3Prefix && (EqualsName(op) || LikeName(op)))
    || (key == S3MaxKeys && NumericName(op))
    || (key == SecureTransport && op == OpBool)
    || (key == Username && EqualsName(op))
    || (key == PrincipalAccount && EqualsName(op))
    || (key == UserID && (EqualsName(op) || LikeName(op)))
    || (key == PrincipalType && (EqualsName(op) || LikeName(op)))
    || (key == PassedToService && (EqualsName(op) || LikeName(op)))
    || (key == CurrentTime && DateName(op))
    || (key == EpochTime && (DateName(op) || NumericName(op)))
  }

  predicate Registered(key: bytes) {
    key == SourceIp || key == S3Prefix || key == S3MaxKeys || key == SecureTransport || key == Username ||
    key == PrincipalAccount || key == UserID || key == PrincipalType || key == PassedToService ||
    key == CurrentTime || key == EpochTime
  }

  lemma OperatorSets(op: bytes)
    ensures op in stringEqualsOps <==> EqualsName(op)
    ensures op in stringLikeOps <==> LikeName(op)
    ensures op in dateOps <==> DateName(op)
    ensures op in numericOps <==> NumericName(op)
    ensures op in addressOps <==> AddressName(op)
    ensures op in boolOps <==> op == OpBool
  {
  }

  lemma KeyTakes(key: bytes, op: bytes)
    ensures key in supportedConditions <==> Registered(key)
    ensures key in supportedConditions && op in supportedConditions[key] <==> Takes(key, op)
  {
    hide EqualsName, LikeName, DateName, NumericName, AddressName;
    OperatorSets(op);
  }

  /** An operator is accepted on the keys that take it, Null on every registered key, and the
      suffix wherever the operator is, but never on Null. */
  lemma WritePathAccepts(operator: bytes, key: bytes)
    requires !EndsWith(operator, IfExists)
    ensures SupportedCondition(operator, key) <==>
            Takes(key, operator) || (operator == NullName && Registered(key))
    ensures SupportedCondition(operator + IfExists, key) <==> operator != NullName && Takes(key, operator)
  {
    hide Takes, Registered;
    SuffixIsRead(operator);
    assert BaseOperator(operator) == Base(operator, false);
    KeyTakes(key, operator);
    TakesIsRegistered(key, operator);
  }

  lemma TakesIsRegistered(key: bytes, op: bytes)
    ensures Takes(key, op) ==> Registered(key)
  {
  }
}
