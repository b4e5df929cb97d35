/** How a missing context key flows through matching. Four answers to the same question,
    each implying the next: with less context and failing open, with more context and
    failing open, with more context and failing closed, with less and failing closed.
    Negation reverses the chain and flips failClosed, so every layer keeps it. */
module Flow {
  import opened Bytes
  import opened ContextKeys
  import opened Glob
  import opened Variables
  import opened Patterns
  import opened Arn
  import opened Conditions

  predicate Chain(lessOpen: bool, moreOpen: bool, moreClosed: bool, lessClosed: bool) {
    (lessOpen ==> moreOpen) && (moreOpen ==> moreClosed) && (moreClosed ==> lessClosed)
  }

  lemma {:induction false} ResolvesMore(t: Template, less: Env, more: Env)
    requires Extends(more, less) && Resolvable(t, less)
    ensures Resolvable(t, more)
    ensures Meaning(t, more) == Meaning(t, less) && Plain(t, more) == Plain(t, less)
    decreases t
  {
    if t.Ref? {
      ResolvesMore(t.tail, less, more);
    }
  }

  lemma EnvironmentExtends(more: ConditionKeys, less: ConditionKeys)
    requires Extends(more, less)
    ensures Extends(Environment(more), Environment(less))
  {
  }

  lemma PatternChain(pattern: bytes, value: bytes, less: Env, more: Env)
    requires Extends(more, less)
    ensures Chain(PatternHolds(pattern, value, less, false), PatternHolds(pattern, value, more, false),
                  PatternHolds(pattern, value, more, true), PatternHolds(pattern, value, less, true))
  {
    hide Matches, Meaning, ParseFrom;
    if Resolvable(Parse(pattern), less) {
      ResolvesMore(Parse(pattern), less, more);
    }
  }

  lemma EqualsChain(lib: Library, v: bytes, actual: bytes, fold: bool, less: Env, more: Env)
    requires Extends(more, less)
    ensures Chain(EqualsReads(lib, Resolving(less), v, actual, false, fold), EqualsReads(lib, Resolving(more), v, actual, false, fold),
                  EqualsReads(lib, Resolving(more), v, actual, true, fold), EqualsReads(lib, Resolving(less), v, actual, true, fold))
  {
    hide Plain, ParseFrom, Same;
    if Resolvable(Parse(v), less) {
      ResolvesMore(Parse(v), less, more);
    }
  }

  lemma ComponentsChain(ps: seq<bytes>, vs: seq<bytes>, less: Env, more: Env)
    requires |ps| == |vs| && Extends(more, less)
    ensures Chain(ComponentsHold(ps, vs, less, false), ComponentsHold(ps, vs, more, false),
                  ComponentsHold(ps, vs, more, true), ComponentsHold(ps, vs, less, true))
  {
    hide PatternHolds;
    forall i | 0 <= i < |ps|
      ensures Chain(PatternHolds(ps[i], vs[i], less, false), PatternHolds(ps[i], vs[i], more, false),
                    PatternHolds(ps[i], vs[i], more, true), PatternHolds(ps[i], vs[i], less, true))
    {
      PatternChain(ps[i], vs[i], less, more);
    }
  }

  lemma ArnChain(pattern: bytes, value: bytes, less: Env, more: Env)
    requires Extends(more, less)
    ensures Chain(ArnHolds(pattern, value, less, false), ArnHolds(pattern, value, more, false),
                  ArnHolds(pattern, value, more, true), ArnHolds(pattern, value, less, true))
  {
    hide ParseFrom, SplitFrom, PlainSplitFrom, ComponentsHold, Meaning, Plain;
    if PatternParts(pattern).Some? && ValueParts(value).Some? {
      ComponentsChain(PatternParts(pattern).value, ValueParts(value).value, less, more);
    }
    if Resolvable(Parse(pattern), less) {
      ResolvesMore(Parse(pattern), less, more);
    }
  }

  lemma TestChain(lib: Library, test: Test, actual: bytes, values: seq<bytes>, less: Env, more: Env)
    requires Extends(more, less)
    ensures Chain(TestHolds(lib, Resolving(less), test, actual, values, false), TestHolds(lib, Resolving(more), test, actual, values, false),
                  TestHolds(lib, Resolving(more), test, actual, values, true), TestHolds(lib, Resolving(less), test, actual, values, true))
  {
    hide EqualsReads, PatternHolds, ArnHolds, EqualFold, Numbers.NumberOf, NumberSatisfies, DateSatisfies, AddressIn;
    match test
    case StringEquals(fold) =>
      forall v | v in values
        ensures Chain(EqualsReads(lib, Resolving(less), v, actual, false, fold), EqualsReads(lib, Resolving(more), v, actual, false, fold),
                      EqualsReads(lib, Resolving(more), v, actual, true, fold), EqualsReads(lib, Resolving(less), v, actual, true, fold))
      {
        EqualsChain(lib, v, actual, fold, less, more);
      }
    case StringLike =>
      forall v | v in values
        ensures Chain(PatternHolds(v, actual, less, false), PatternHolds(v, actual, more, false),
                      PatternHolds(v, actual, more, true), PatternHolds(v, actual, less, true))
      {
        PatternChain(v, actual, less, more);
      }
    case ArnLike =>
      forall v | v in values
        ensures Chain(ArnHolds(v, actual, less, false), ArnHolds(v, actual, more, false),
                      ArnHolds(v, actual, more, true), ArnHolds(v, actual, less, true))
      {
        ArnChain(v, actual, less, more);
      }
    case _ =>
  }

  lemma OperatorChain(lib: Library, operator: bytes, actual: bytes, values: seq<bytes>, less: Env, more: Env)
    requires Extends(more, less)
    ensures Chain(OperatorHolds(lib, Resolving(less), operator, actual, values, false), OperatorHolds(lib, Resolving(more), operator, actual, values, false),
                  OperatorHolds(lib, Resolving(more), operator, actual, values, true), OperatorHolds(lib, Resolving(less), operator, actual, values, true))
  {
    hide TestHolds;
    var positive := if operator in negatedOperators then negatedOperators[operator] else operator;
    if positive in positiveTests {
      TestChain(lib, positiveTests[positive], actual, values, less, more);
    }
  }

  /** On a key both contexts answer alike, or both leave out, a block keeps the chain. */
  lemma BlockChain(lib: Library, operator: bytes, key: bytes, values: seq<bytes>, less: ConditionKeys, more: ConditionKeys)
    requires Extends(more, less) && (key in more ==> key in less)
    ensures var l, m := Resolving(Environment(less)), Resolving(Environment(more));
            Chain(BlockHolds(lib, l, operator, key, values, less, false), BlockHolds(lib, m, operator, key, values, more, false),
                  BlockHolds(lib, m, operator, key, values, more, true), BlockHolds(lib, l, operator, key, values, less, true))
  {
    hide OperatorHolds, NullValueHolds, HoldsOnAbsent, BaseOperator, Environment;
    EnvironmentExtends(more, less);
    if key in less {
      OperatorChain(lib, BaseOperator(operator).name, less[key], values, Environment(less), Environment(more));
    }
  }

  /** Leaving out a key cannot stop a block that holds on absent keys. */
  lemma AbsentHolds(lib: Library, r: Reading, operator: bytes, key: bytes, values: seq<bytes>, keys: ConditionKeys, failClosed: bool)
    requires key !in keys && HoldsOnAbsent(operator)
    ensures BlockHolds(lib, r, operator, key, values, keys, failClosed)
  {
  }

  /** No condition of the block is on a key that only the larger context has. */
  ghost predicate SameConditionKeys(condition: ConditionBlock, less: ConditionKeys, more: ConditionKeys) {
    forall op, key | op in condition && key in condition[op] && key in more :: key in less
  }

  lemma ConditionsChain(lib: Library, condition: ConditionBlock, less: ConditionKeys, more: ConditionKeys)
    requires Extends(more, less) && SameConditionKeys(condition, less, more)
    ensures var l, m := Resolving(Environment(less)), Resolving(Environment(more));
            Chain(ConditionsHold(lib, l, condition, less, false), ConditionsHold(lib, m, condition, more, false),
                  ConditionsHold(lib, m, condition, more, true), ConditionsHold(lib, l, condition, less, true))
  {
    hide BlockHolds, Environment;
    forall op, key | op in condition && key in condition[op] {
      BlockChain(lib, op, key, condition[op][key], less, more);
    }
  }

  /** Every condition on a key only the larger context has holds when the key is absent. */
  ghost predicate HoldOnOmitted(condition: ConditionBlock, less: ConditionKeys, more: ConditionKeys) {
    forall op, key | op in condition && key in condition[op] && key in more && key !in less :: HoldsOnAbsent(op)
  }

  lemma OmissionKeepsConditions(lib: Library, condition: ConditionBlock, less: ConditionKeys, more: ConditionKeys)
    requires Extends(more, less) && HoldOnOmitted(condition, less, more)
    requires ConditionsHold(lib, Resolving(Environment(more)), condition, more, true)
    ensures ConditionsHold(lib, Resolving(Environment(less)), condition, less, true)
  {
    hide BlockHolds, Environment, HoldsOnAbsent;
    forall op, key | op in condition && key in condition[op]
      ensures BlockHolds(lib, Resolving(Environment(less)), op, key, condition[op][key], less, true)
    {
      if key in more && key !in less {
        AbsentHolds(lib, Resolving(Environment(less)), op, key, condition[op][key], less, true);
      } else {
        BlockChain(lib, op, key, condition[op][key], less, more);
      }
    }
  }
}
