/** Laws of the whole evaluator: missing information only narrows access, a Deny cannot be
    escaped by omission or by a construct that is not understood, decisions do not depend
    on order, and older documents read their patterns as written. */
module EvaluatorLaws {
  import opened Bytes
  import opened ContextKeys
  import opened Glob
  import opened Variables
  import opened Patterns
  import opened Arn
  import opened Numbers
  import opened Conditions
  import opened Flow
  import opened Legacy
  import opened Evaluator

  // ----- Missing information -----

  lemma AnyResourceChain(patterns: seq<bytes>, resource: bytes, less: Env, more: Env)
    requires Extends(more, less)
    ensures Chain(AnyResourceReads(Resolving(less), patterns, resource, false), AnyResourceReads(Resolving(more), patterns, resource, false),
                  AnyResourceReads(Resolving(more), patterns, resource, true), AnyResourceReads(Resolving(less), patterns, resource, true))
  {
    hide PatternHolds;
    forall p | p in patterns
      ensures Chain(PatternHolds(p, resource, less, false), PatternHolds(p, resource, more, false),
                    PatternHolds(p, resource, more, true), PatternHolds(p, resource, less, true))
    {
      PatternChain(p, resource, less, more);
    }
  }

  lemma ResourceChain(s: Statement, resource: bytes, less: Env, more: Env)
    requires Extends(more, less)
    ensures Chain(ResourceSelected(Resolving(less), s, resource, false), ResourceSelected(Resolving(more), s, resource, false),
                  ResourceSelected(Resolving(more), s, resource, true), ResourceSelected(Resolving(less), s, resource, true))
  {
    hide AnyResourceReads;
    AnyResourceChain(s.notResource, resource, less, more);
    AnyResourceChain(s.resource, resource, less, more);
  }

  ghost predicate Hits(lib: Library, s: Statement, q: Request) {
    Selects(lib, Resolving(Environment(q.keys)), s, q)
  }

  /** More context can only make an Allow match and a Deny stop matching. */
  lemma StatementFlow(lib: Library, s: Statement, less: Request, more: Request)
    requires more == less.(keys := more.keys) && Extends(more.keys, less.keys)
    requires SameConditionKeys(s.condition, less.keys, more.keys)
    ensures s.effect == EffectAllow && Hits(lib, s, less) ==> Hits(lib, s, more)
    ensures s.effect != EffectAllow && Hits(lib, s, more) ==> Hits(lib, s, less)
  {
    hide ActionSelected, ResourceSelected, ConditionsHold, SupportedCondition, Environment;
    EnvironmentExtends(more.keys, less.keys);
    ResourceChain(s, less.resource, Environment(less.keys), Environment(more.keys));
    ConditionsChain(lib, s.condition, less.keys, more.keys);
  }

  /** If a request is allowed, it is allowed with any further context keys that no
      statement puts a condition on. */
  lemma MoreContextNeverNarrows(lib: Library, statements: seq<Statement>, less: Request, more: Request)
    requires more == less.(keys := more.keys) && Extends(more.keys, less.keys)
    requires forall s | s in statements :: SameConditionKeys(s.condition, less.keys, more.keys)
    requires Decide(lib, statements, less) == Allow
    ensures Decide(lib, statements, more) == Allow
  {
    hide Selects, SameConditionKeys, Environment;
    forall s | s in statements
      ensures s.effect == EffectAllow && Hits(lib, s, less) ==> Hits(lib, s, more)
      ensures s.effect != EffectAllow && Hits(lib, s, more) ==> Hits(lib, s, less)
    {
      StatementFlow(lib, s, less, more);
    }
  }

  /** Leaving keys out of a request cannot stop a Deny that constrains them only through
      operators that hold on absent keys, wherever else it names them as variables. */
  lemma OmissionCannotEscapeDeny(lib: Library, s: Statement, less: Request, more: Request)
    requires more == less.(keys := more.keys) && Extends(more.keys, less.keys)
    requires s.effect != EffectAllow && HoldOnOmitted(s.condition, less.keys, more.keys)
    requires Hits(lib, s, more)
    ensures Hits(lib, s, less)
  {
    hide ActionSelected, ResourceSelected, ConditionsHold, SupportedCondition, Environment, HoldOnOmitted;
    EnvironmentExtends(more.keys, less.keys);
    ResourceChain(s, less.resource, Environment(less.keys), Environment(more.keys));
    if !Unenforceable(s) {
      OmissionKeepsConditions(lib, s.condition, less.keys, more.keys);
    }
  }

  /** The same body selects at least as much under any other effect as under Allow. */
  lemma FailClosedOrder(lib: Library, s: Statement, effect: bytes, q: Request)
    requires Hits(lib, s.(effect := EffectAllow), q)
    ensures Hits(lib, s.(effect := effect), q)
  {
    hide ActionSelected, ResourceSelected, ConditionsHold, SupportedCondition, Environment;
    var allow, other := s.(effect := EffectAllow), s.(effect := effect);
    ResourceSameBody(lib, s, effect, q);
    ResourceChain(s, q.resource, Environment(q.keys), Environment(q.keys));
    ConditionsChain(lib, s.condition, q.keys, q.keys);
  }

  lemma ResourceSameBody(lib: Library, s: Statement, effect: bytes, q: Request)
    ensures ActionSelected(lib, s.(effect := effect), q.action) == ActionSelected(lib, s, q.action)
    ensures ActionSelected(lib, s.(effect := EffectAllow), q.action) == ActionSelected(lib, s, q.action)
    ensures forall r, failClosed ::
              ResourceSelected(r, s.(effect := effect), q.resource, failClosed) == ResourceSelected(r, s, q.resource, failClosed)
    ensures forall r, failClosed ::
              ResourceSelected(r, s.(effect := EffectAllow), q.resource, failClosed) == ResourceSelected(r, s, q.resource, failClosed)
    ensures Unenforceable(s.(effect := effect)) == Unenforceable(s) == Unenforceable(s.(effect := EffectAllow))
  {
    hide AnyHolds, AnyResourceReads, SupportedCondition;
  }

  predicate KeepsOne(list: seq<bytes>, complement: seq<bytes>, list': seq<bytes>, complement': seq<bytes>) {
    if list == [] || complement == [] then list' == list && complement' == complement
    else (list' == list && complement' == []) || (list' == [] && complement' == complement)
  }

  /** `t` is `s` with each malformed selector pair cut to one selector, the Principal dropped
      or kept, and any conditions at all. */
  predicate Repairs(s: Statement, t: Statement) {
    && t.effect == s.effect
    && KeepsOne(s.action, s.notAction, t.action, t.notAction)
    && KeepsOne(s.resource, s.notResource, t.resource, t.notResource)
  }

  /** A Deny that cannot be evaluated matches whatever any repair of it would match. */
  lemma UnenforceableDenyCoversRepairs(lib: Library, s: Statement, t: Statement, q: Request)
    requires s.effect != EffectAllow && Unenforceable(s) && Repairs(s, t)
    requires Hits(lib, t, q)
    ensures Hits(lib, s, q)
  {
    hide AnyHolds, AnyResourceReads, ConditionsHold, SupportedCondition, Environment;
  }

  // ----- Order and composition -----

  /** A decision depends only on which statements there are. */
  lemma SameStatementsSameDecision(lib: Library, a: seq<Statement>, b: seq<Statement>, q: Request)
    requires forall s :: s in a <==> s in b
    ensures OutcomeOf(lib, a, q) == OutcomeOf(lib, b, q)
  {
    hide Selects;
  }

  function Combine(a: Outcome, b: Outcome): Outcome {
    if a == ExplicitDeny || b == ExplicitDeny then ExplicitDeny
    else if a == ExplicitAllow || b == ExplicitAllow then ExplicitAllow
    else Silent
  }

  /** The outcome of more statements is the combination of their outcomes. */
  lemma OutcomesCombine(lib: Library, a: seq<Statement>, b: seq<Statement>, q: Request)
    ensures OutcomeOf(lib, a + b, q) == Combine(OutcomeOf(lib, a, q), OutcomeOf(lib, b, q))
  {
    hide Selects;
    assert forall s :: s in a + b <==> s in a || s in b;
  }

  lemma {:induction false} FlattenMembers(docs: seq<seq<Statement>>, s: Statement)
    ensures s in Flatten(docs) <==> exists d | d in docs :: s in d
    decreases |docs|
  {
    if docs != [] {
      var rest, last := docs[..|docs| - 1], docs[|docs| - 1];
      FlattenMembers(rest, s);
      assert docs == rest + [last];
    }
  }

  /** Documents in another order, each with its statements in another order, decide alike. */
  lemma OrderDoesNotMatter(lib: Library, a: seq<seq<Statement>>, b: seq<seq<Statement>>, q: Request)
    requires forall d | d in a :: exists e | e in b :: multiset(d) == multiset(e)
    requires forall e | e in b :: exists d | d in a :: multiset(d) == multiset(e)
    ensures Decide(lib, Flatten(a), q) == Decide(lib, Flatten(b), q)
  {
    hide OutcomeOf, Flatten;
    forall s ensures s in Flatten(a) <==> s in Flatten(b) {
      if s in Flatten(a) {
        MemberCarriesOver(a, b, s);
      }
      if s in Flatten(b) {
        MemberCarriesOver(b, a, s);
      }
    }
    SameStatementsSameDecision(lib, Flatten(a), Flatten(b), q);
  }

  lemma MemberCarriesOver(a: seq<seq<Statement>>, b: seq<seq<Statement>>, s: Statement)
    requires forall d | d in a :: exists e | e in b :: multiset(d) == multiset(e)
    requires s in Flatten(a)
    ensures s in Flatten(b)
  {
    hide Flatten;
    FlattenMembers(a, s);
    FlattenMembers(b, s);
    var d :| d in a && s in d;
    var e :| e in b && multiset(d) == multiset(e);
    assert s in multiset(e);
  }

  // ----- Older documents -----

  lemma LiteralPatternReads(s: bytes, keys: ConditionKeys, value: bytes, failClosed: bool)
    ensures PatternReads(Resolving(Environment(keys)), LiteralString(s), value, failClosed) <==>
            PatternReads(Written, s, value, failClosed)
  {
    hide PatternHolds, LiteralString, Matches, Tokens, Environment;
    LiteralStringReads(s, keys, value, failClosed);
  }

  lemma LiteralEqualsReads(lib: Library, s: bytes, keys: ConditionKeys, actual: bytes, failClosed: bool, fold: bool)
    ensures EqualsReads(lib, Resolving(Environment(keys)), LiteralString(s), actual, failClosed, fold) <==>
            EqualsReads(lib, Written, s, actual, failClosed, fold)
  {
    hide LiteralString, Environment, Parse, Plain, Resolvable, Same;
    LiteralStringReads(s, keys, actual, failClosed);
  }

  lemma LiteralArnReads(s: bytes, keys: ConditionKeys, value: bytes, failClosed: bool)
    ensures ArnReads(Resolving(Environment(keys)), LiteralString(s), value, failClosed) <==>
            ArnReads(Written, s, value, failClosed)
  {
    hide LiteralString, Environment, Parse, Plain, Resolvable, Matches, Tokens, PatternHolds, SplitFrom, PlainSplitFrom;
    LiteralStringReads(s, keys, value, failClosed);
    LiteralPatternParts(s);
    if ValueParts(s).Some? && ValueParts(value).Some? {
      var ps := ValueParts(s).value;
      forall i | 0 <= i < arnComponents
        ensures PatternHolds(LiteralString(ps[i]), ValueParts(value).value[i], Environment(keys), failClosed) <==>
                Matches(Tokens(ps[i], false), ValueParts(value).value[i])
      {
        LiteralStringReads(ps[i], keys, ValueParts(value).value[i], failClosed);
      }
    }
  }

  lemma LiteralPatternParts(s: bytes)
    ensures PatternParts(LiteralString(s)) == LiteralParts(ValueParts(s))
  {
    hide LiteralString;
    LiteralSplits(s, 0, arnComponents - 1);
    assert s[0..] == s;
  }

  lemma OpenHasDollar(s: bytes)
    requires HasOpen(s)
    ensures '$' in s && '$' in LiteralString(s)
  {
    hide IndexOpenFrom;
    var open := IndexOpen(s);
    IndexOpenIsFirst(s, 0);
    assert s[open] == '$';
    var l := LiteralString(s);
    assert l == s[0..open] + literalReference + LiteralFrom(s, open + 2);
    assert l[open] == literalReference[0] == '$';
  }

  lemma NoOpenIsFixed(s: bytes)
    requires !HasOpen(s)
    ensures LiteralString(s) == s
  {
    assert s[0..] == s;
  }

  /** No decimal is written with a "$". */
  lemma NumbersHaveNoDollar(s: bytes)
    requires '$' in s
    ensures NumberOf(s) == None
  {
    hide NumberOf;
    if NumberOf(s).Some? {
      var d := ParsedIsDecimal(s);
      RenderHasNoDollar(d);
    }
  }

  lemma RenderHasNoDollar(d: Decimal)
    requires d.WellFormed()
    ensures '$' !in d.Render()
  {
    assert forall i | 0 <= i < |d.whole| :: IsDigit(d.whole[i]);
    assert forall i | 0 <= i < |d.frac| :: IsDigit(d.frac[i]);
    assert d.exponent.Some? ==>
        forall i | 0 <= i < |d.exponent.value.digits| :: IsDigit(d.exponent.value.digits[i]);
  }

  /** A word without "$" is the fold of no string with one. */
  lemma {:induction false} FoldKeepsDollar(s: bytes)
    requires '$' in s
    ensures '$' in FoldToAscii(s)
    decreases |s|
  {
    if LongS <= s {
      assert s == LongS + s[2..];
      FoldKeepsDollar(s[2..]);
    } else if Kelvin <= s {
      assert s == Kelvin + s[3..];
      FoldKeepsDollar(s[3..]);
    } else if s[0] != '$' {
      FoldKeepsDollar(s[1..]);
    }
  }

  /** What keeps a value's rewriting out of sight of a test that compares values as written:
      for Bool, a request value without "${"; for addresses and dates, a parser that reads
      the value and its rewriting alike, if it reads the request's own value at all. */
  predicate RewriteUnseen(lib: Library, test: Test, actual: bytes, v: bytes) {
    HasOpen(v) ==>
      match test
      case Bool => !HasOpen(actual)
      case IpAddress =>
        lib.address(actual).None? ||
        (!lib.isPrefix(v) && !lib.isPrefix(LiteralString(v)) && lib.address(LiteralString(v)) == lib.address(v))
      case Date(_) => lib.date(actual).None? || lib.date(LiteralString(v)) == lib.date(v)
      case _ => true
  }

  predicate ListRewriteUnseen(lib: Library, test: Test, actual: bytes, values: seq<bytes>) {
    forall v | v in values :: RewriteUnseen(lib, test, actual, v)
  }

  /** The positive form an operator tests with. */
  function PositiveForm(operator: bytes): bytes {
    var base := BaseOperator(operator).name;
    if base in negatedOperators then negatedOperators[base] else base
  }

  /** Only values on a key the request carries are read at all. */
  predicate BlockRewriteUnseen(lib: Library, operator: bytes, key: bytes, values: seq<bytes>, keys: ConditionKeys) {
    key in keys && PositiveForm(operator) in positiveTests ==>
      ListRewriteUnseen(lib, positiveTests[PositiveForm(operator)], keys[key], values)
  }

  ghost predicate ConditionRewriteUnseen(lib: Library, condition: ConditionBlock, keys: ConditionKeys) {
    forall op, key | op in condition && key in condition[op] ::
      BlockRewriteUnseen(lib, op, key, condition[op][key], keys)
  }

  lemma NumberRewriteInvisible(v: bytes)
    ensures NumberOf(LiteralString(v)) == NumberOf(v)
  {
    hide NumberOf, LiteralFrom;
    if HasOpen(v) {
      OpenHasDollar(v);
      NumbersHaveNoDollar(v);
      NumbersHaveNoDollar(LiteralString(v));
    } else {
      NoOpenIsFixed(v);
    }
  }

  lemma NullRewriteInvisible(v: bytes, present: bool)
    ensures NullValueHolds(present, LiteralString(v)) == NullValueHolds(present, v)
  {
    hide FoldToAscii, LiteralFrom;
    if HasOpen(v) {
      OpenHasDollar(v);
      FoldKeepsDollar(v);
      FoldKeepsDollar(LiteralString(v));
      assert '$' !in TrueWord && '$' !in FalseWord;
    } else {
      NoOpenIsFixed(v);
    }
  }

  /** What a test asks of one value. */
  ghost predicate ValueHolds(lib: Library, r: Reading, test: Test, actual: bytes, v: bytes, failClosed: bool) {
    match test
    case StringEquals(fold) => EqualsReads(lib, r, v, actual, failClosed, fold)
    case StringLike => PatternReads(r, v, actual, failClosed)
    case ArnLike => ArnReads(r, v, actual, failClosed)
    case Bool => EqualFold(lib, v, actual)
    case IpAddress => lib.address(actual).Some? && AddressIn(lib, lib.address(actual).value, v)
    case Date(order) => lib.date(actual).Some? && DateSatisfies(lib, order, lib.date(actual).value, v)
    case Numeric(order) => NumberOf(actual).Some? && NumberSatisfies(order, NumberOf(actual).value, v)
  }

  lemma ValueRewriteInvisible(lib: Library, test: Test, actual: bytes, v: bytes, keys: ConditionKeys, failClosed: bool)
    requires RewriteUnseen(lib, test, actual, v)
    ensures ValueHolds(lib, Resolving(Environment(keys)), test, actual, LiteralString(v), failClosed) ==
            ValueHolds(lib, Written, test, actual, v, failClosed)
  {
    hide EqualsReads, PatternReads, ArnReads, EqualFold, NumberOf, LiteralString, Environment;
    match test
    case StringEquals(fold) => LiteralEqualsReads(lib, v, keys, actual, failClosed, fold);
    case StringLike => LiteralPatternReads(v, keys, actual, failClosed);
    case ArnLike => LiteralArnReads(v, keys, actual, failClosed);
    case Numeric(_) => NumberRewriteInvisible(v);
    case Bool => BoolRewriteInvisible(lib, v, actual);
    case _ =>
      if !HasOpen(v) {
        NoOpenIsFixed(v);
      }
  }

  lemma BoolRewriteInvisible(lib: Library, v: bytes, actual: bytes)
    requires !HasOpen(v) || !HasOpen(actual)
    ensures EqualFold(lib, LiteralString(v), actual) == EqualFold(lib, v, actual)
  {
    hide EqualFold, IndexOpenFrom;
    if HasOpen(v) {
      LiteralKeepsOpen(v);
      if EqualFold(lib, v, actual) {
        FoldKeepsOpen(lib, v, actual);
      }
      if EqualFold(lib, LiteralString(v), actual) {
        FoldKeepsOpen(lib, LiteralString(v), actual);
      }
    } else {
      NoOpenIsFixed(v);
    }
  }

  lemma LiteralKeepsOpen(s: bytes)
    requires HasOpen(s)
    ensures HasOpen(LiteralString(s))
  {
    hide IndexOpenFrom;
    var open, l := IndexOpen(s), LiteralString(s);
    assert l == s[0..open] + literalReference + LiteralFrom(s, open + 2);
    assert l[open] == literalReference[0] == '$' && l[open + 1] == literalReference[1] == '{';
    assert OpensAt(l, open);
    IndexOpenIsFirst(l, 0);
  }

  lemma FoldKeepsOpen(lib: Library, a: bytes, b: bytes)
    requires EqualFold(lib, a, b) && HasOpen(a)
    ensures HasOpen(b)
  {
    assert Caseless(lib.fold);
  }

  lemma TestIsSomeValue(lib: Library, r: Reading, test: Test, actual: bytes, values: seq<bytes>, failClosed: bool)
    ensures TestHolds(lib, r, test, actual, values, failClosed) <==>
            (UnreadableActual(lib, test, actual) && failClosed) ||
            exists v | v in values :: ValueHolds(lib, r, test, actual, v, failClosed)
  {
    hide EqualsReads, PatternReads, ArnReads, EqualFold, AddressIn, DateSatisfies, NumberOf, NumberSatisfies;
    if v :| v in values && ValueHolds(lib, r, test, actual, v, failClosed) {
      assert v in values;
    }
  }

  /** The request's own value does not parse, which only failClosed can decide. */
  predicate UnreadableActual(lib: Library, test: Test, actual: bytes) {
    match test
    case IpAddress => lib.address(actual).None?
    case Date(_) => lib.date(actual).None?
    case Numeric(_) => NumberOf(actual).None?
    case _ => false
  }

  lemma TestRewriteInvisible(lib: Library, test: Test, actual: bytes, values: seq<bytes>, keys: ConditionKeys, failClosed: bool)
    requires ListRewriteUnseen(lib, test, actual, values)
    ensures TestHolds(lib, Resolving(Environment(keys)), test, actual, LiteralList(values), failClosed) ==
            TestHolds(lib, Written, test, actual, values, failClosed)
  {
    hide ValueHolds, TestHolds, LiteralString, Environment, UnreadableActual, RewriteUnseen;
    var l, r := LiteralList(values), Resolving(Environment(keys));
    TestIsSomeValue(lib, r, test, actual, l, failClosed);
    TestIsSomeValue(lib, Written, test, actual, values, failClosed);
    forall i | 0 <= i < |values|
      ensures ValueHolds(lib, r, test, actual, l[i], failClosed) == ValueHolds(lib, Written, test, actual, values[i], failClosed)
    {
      assert values[i] in values;
      ValueRewriteInvisible(lib, test, actual, values[i], keys, failClosed);
    }
    Pointwise(l, values, v => ValueHolds(lib, r, test, actual, v, failClosed),
              v => ValueHolds(lib, Written, test, actual, v, failClosed));
  }

  /** Two lists that agree place by place agree on having a hit. */
  lemma Pointwise(a: seq<bytes>, b: seq<bytes>, hitA: bytes -> bool, hitB: bytes -> bool)
    requires |a| == |b| && forall i | 0 <= i < |a| :: hitA(a[i]) == hitB(b[i])
    ensures (exists v | v in a :: hitA(v)) <==> (exists v | v in b :: hitB(v))
  {
    if v :| v in a && hitA(v) {
      var i :| 0 <= i < |a| && a[i] == v;
      assert hitB(b[i]) && b[i] in b;
    }
    if v :| v in b && hitB(v) {
      var i :| 0 <= i < |b| && b[i] == v;
      assert hitA(a[i]) && a[i] in a;
    }
  }

  lemma BlockRewriteInvisible(lib: Library, operator: bytes, key: bytes, values: seq<bytes>, keys: ConditionKeys, failClosed: bool)
    requires BlockRewriteUnseen(lib, operator, key, values, keys)
    ensures BlockHolds(lib, Resolving(Environment(keys)), operator, key, LiteralList(values), keys, failClosed) ==
            BlockHolds(lib, Written, operator, key, values, keys, failClosed)
  {
    hide TestHolds, NullValueHolds, LiteralString, Environment, BaseOperator, HoldsOnAbsent, ListRewriteUnseen;
    var base := BaseOperator(operator).name;
    if base == OpNull {
      forall i | 0 <= i < |values|
        ensures NullValueHolds(key in keys, LiteralList(values)[i]) == NullValueHolds(key in keys, values[i])
      {
        NullRewriteInvisible(values[i], key in keys);
      }
      Pointwise(LiteralList(values), values, v => NullValueHolds(key in keys, v), v => NullValueHolds(key in keys, v));
    } else if key in keys {
      var positive := if base in negatedOperators then negatedOperators[base] else base;
      if positive in positiveTests {
        TestRewriteInvisible(lib, positiveTests[positive], keys[key], values, keys, failClosed);
        TestRewriteInvisible(lib, positiveTests[positive], keys[key], values, keys, !failClosed);
      }
    }
  }

  lemma ResourceRewriteInvisible(patterns: seq<bytes>, resource: bytes, keys: ConditionKeys, failClosed: bool)
    ensures AnyResourceReads(Resolving(Environment(keys)), LiteralList(patterns), resource, failClosed) ==
            AnyResourceReads(Written, patterns, resource, failClosed)
  {
    hide PatternReads, LiteralString, Environment;
    forall i | 0 <= i < |patterns|
      ensures PatternReads(Resolving(Environment(keys)), LiteralList(patterns)[i], resource, failClosed) ==
              PatternReads(Written, patterns[i], resource, failClosed)
    {
      LiteralPatternReads(patterns[i], keys, resource, failClosed);
    }
    Pointwise(LiteralList(patterns), patterns,
              v => PatternReads(Resolving(Environment(keys)), v, resource, failClosed),
              v => PatternReads(Written, v, resource, failClosed));
  }

  /** A statement of an older document selects exactly what it selects with every "${" read
      as literal text, wherever its Bool, address and date conditions cannot see the rewrite. */
  lemma OlderDocumentsReadLiterally(lib: Library, s: Statement, q: Request)
    requires Unenforceable(s) || ConditionRewriteUnseen(lib, s.condition, q.keys)
    ensures Selects(lib, Resolving(Environment(q.keys)), WithLiteralVariables(s), q) <==> Selects(lib, Written, s, q)
  {
    hide ActionSelected, AnyResourceReads, BlockHolds, SupportedCondition, Environment, LiteralString, BlockRewriteUnseen;
    var t, failClosed, r := WithLiteralVariables(s), s.effect != EffectAllow, Resolving(Environment(q.keys));
    ResourceRewriteInvisible(s.resource, q.resource, q.keys, failClosed);
    ResourceRewriteInvisible(s.notResource, q.resource, q.keys, !failClosed);
    SameActions(lib, s, q.action);
    assert Unenforceable(t) == Unenforceable(s);
    if !Unenforceable(s) {
      forall op, key | op in s.condition && key in s.condition[op]
        ensures BlockHolds(lib, r, op, key, t.condition[op][key], q.keys, failClosed) ==
                BlockHolds(lib, Written, op, key, s.condition[op][key], q.keys, failClosed)
      {
        BlockRewriteInvisible(lib, op, key, s.condition[op][key], q.keys, failClosed);
      }
    }
  }

  lemma SameActions(lib: Library, s: Statement, action: bytes)
    ensures ActionSelected(lib, WithLiteralVariables(s), action) == ActionSelected(lib, s, action)
  {
    hide AnyHolds;
  }

  /** How a document's patterns are read: references mean something in the 2012 language. */
  ghost function ReadingOf(version: bytes, keys: ConditionKeys): Reading {
    if version == Version2012 then Resolving(Environment(keys)) else Written
  }

  /** Some statement of the documents, Allow or not as asked, selects the request, each
      document read in its own version's language. */
  ghost predicate SomeSelects(lib: Library, policies: seq<PolicyDocument>, q: Request, allowing: bool)
    reads set d | d in policies :: d.statements
  {
    exists d, s | d in policies && s in d.statements[..] ::
      (s.effect == EffectAllow) == allowing && Selects(lib, ReadingOf(d.version, q.keys), s, q)
  }

  lemma StatementReadsByVersion(lib: Library, version: bytes, s: Statement, q: Request)
    requires version != Version2012 ==> Unenforceable(s) || ConditionRewriteUnseen(lib, s.condition, q.keys)
    ensures Hits(lib, Effective(version, s), q) <==> Selects(lib, ReadingOf(version, q.keys), s, q)
    ensures Effective(version, s).effect == s.effect
  {
    hide Selects, Unenforceable, ConditionRewriteUnseen, Environment;
    if version != Version2012 {
      OlderDocumentsReadLiterally(lib, s, q);
    }
  }

  /** The decision over documents of any versions: Allow exactly when some Allow statement
      selects the request and no other does, with "${" read as text in older documents. */
  lemma DocumentsReadByVersion(lib: Library, policies: seq<PolicyDocument>, q: Request)
    requires forall d, s | d in policies && d.version != Version2012 && s in d.statements[..] ::
               Unenforceable(s) || ConditionRewriteUnseen(lib, s.condition, q.keys)
    ensures Decide(lib, Flatten(Documents(policies)), q) == Allow <==>
            SomeSelects(lib, policies, q, true) && !SomeSelects(lib, policies, q, false)
  {
    hide Selects, Unenforceable, ConditionRewriteUnseen, Effective, ReadingOf, Environment;
    var docs := Documents(policies);
    forall d, s | d in policies && s in d.statements[..]
      ensures Effective(d.version, s) in Flatten(docs)
      ensures Hits(lib, Effective(d.version, s), q) <==> Selects(lib, ReadingOf(d.version, q.keys), s, q)
      ensures Effective(d.version, s).effect == s.effect
    {
      StatementReadsByVersion(lib, d.version, s, q);
      var i :| 0 <= i < |policies| && policies[i] == d;
      var j :| 0 <= j < d.statements.Length && d.statements[j] == s;
      assert docs[i][j] == Effective(d.version, s) && docs[i] in docs;
      FlattenMembers(docs, Effective(d.version, s));
    }
    forall e | e in Flatten(docs)
      ensures exists d, s | d in policies && s in d.statements[..] :: e == Effective(d.version, s)
    {
      FlattenMembers(docs, e);
      var x :| x in docs && e in x;
      var i :| 0 <= i < |docs| && docs[i] == x;
      var j :| 0 <= j < |x| && x[j] == e;
      assert policies[i] in policies && policies[i].statements[j] in policies[i].statements[..];
      assert e == Effective(policies[i].version, policies[i].statements[j]);
    }
    assert Denies(lib, Flatten(docs), q) <==> SomeSelects(lib, policies, q, false);
    assert Allows(lib, Flatten(docs), q) <==> SomeSelects(lib, policies, q, true);
  }

  // ----- Where the rewrite is visible -----

  /** A parser of dates that accepts no "$", as one of ISO 8601 forms and digits does not,
      never sees the rewrite. */
  lemma DatesWithoutDollar(lib: Library, order: Order, actual: bytes, v: bytes)
    requires forall s | '$' in s :: lib.date(s).None?
    ensures RewriteUnseen(lib, Date(order), actual, v)
  {
    hide LiteralString;
    if HasOpen(v) {
      OpenHasDollar(v);
    }
  }

  lemma OneLiteral(v: bytes)
    ensures LiteralList([v]) == [LiteralString(v)]
  {
  }

  lemma OneDate(lib: Library, actual: bytes, v: bytes)
    requires lib.date(actual).Some?
    ensures TestHolds(lib, Written, Date(Equals), actual, [v], true) <==> lib.date(v) == lib.date(actual)
  {
    assert v in [v];
  }

  lemma OneAddress(lib: Library, actual: bytes, v: bytes)
    requires lib.address(actual).Some? && !lib.isPrefix(v)
    ensures TestHolds(lib, Written, IpAddress, actual, [v], true) <==> lib.address(v) == lib.address(actual)
  {
    assert v in [v];
  }

  /** Date conditions of older documents read their values as written, for every request,
      exactly when the parser reads every value and its rewriting alike. */
  lemma DateRewriteIsExact(lib: Library)
    ensures (forall order, actual, values: seq<bytes> ::
               TestHolds(lib, Written, Date(order), actual, LiteralList(values), true) ==
               TestHolds(lib, Written, Date(order), actual, values, true))
            <==> forall v :: lib.date(LiteralString(v)) == lib.date(v)
  {
    hide LiteralString;
    if forall v :: lib.date(LiteralString(v)) == lib.date(v) {
      forall order, actual, values: seq<bytes>
        ensures TestHolds(lib, Written, Date(order), actual, LiteralList(values), true) ==
                TestHolds(lib, Written, Date(order), actual, values, true)
      {
        TestRewriteInvisible(lib, Date(order), actual, values, map[], true);
      }
    } else {
      var v :| lib.date(LiteralString(v)) != lib.date(v);
      OneLiteral(v);
      var actual := if lib.date(v).Some? then v else LiteralString(v);
      OneDate(lib, actual, v);
      OneDate(lib, actual, LiteralString(v));
      assert TestHolds(lib, Written, Date(Equals), actual, LiteralList([v]), true) !=
             TestHolds(lib, Written, Date(Equals), actual, [v], true);
    }
  }

  /** The same for addresses, where only a zone could hold "${", which a CIDR block cannot
      carry. */
  lemma AddressRewriteIsExact(lib: Library)
    requires forall v | HasOpen(v) :: !lib.isPrefix(v)
    ensures (forall actual, values: seq<bytes> ::
               TestHolds(lib, Written, IpAddress, actual, LiteralList(values), true) ==
               TestHolds(lib, Written, IpAddress, actual, values, true))
            <==> forall v :: lib.address(LiteralString(v)) == lib.address(v)
  {
    hide LiteralString, HasOpen;
    if forall v :: lib.address(LiteralString(v)) == lib.address(v) {
      forall actual, values: seq<bytes>
        ensures TestHolds(lib, Written, IpAddress, actual, LiteralList(values), true) ==
                TestHolds(lib, Written, IpAddress, actual, values, true)
      {
        forall v | v in values && HasOpen(v) ensures !lib.isPrefix(LiteralString(v)) {
          LiteralKeepsOpen(v);
        }
        TestRewriteInvisible(lib, IpAddress, actual, values, map[], true);
      }
    } else {
      var v :| lib.address(LiteralString(v)) != lib.address(v);
      OneLiteral(v);
      OnlyOpenIsRewritten(v);
      LiteralKeepsOpen(v);
      var actual := if lib.address(v).Some? then v else LiteralString(v);
      OneAddress(lib, actual, v);
      OneAddress(lib, actual, LiteralString(v));
      assert TestHolds(lib, Written, IpAddress, actual, LiteralList([v]), true) !=
             TestHolds(lib, Written, IpAddress, actual, [v], true);
    }
  }

  lemma OnlyOpenIsRewritten(v: bytes)
    requires LiteralString(v) != v
    ensures HasOpen(v)
  {
    if !HasOpen(v) {
      NoOpenIsFixed(v);
    }
  }

  /** A Bool condition of an older document reads its values as written, whatever they are,
      exactly for the request values without "${". */
  lemma BoolSeesOnlyOpen(lib: Library, actual: bytes)
    ensures (forall values: seq<bytes> ::
               TestHolds(lib, Written, Bool, actual, LiteralList(values), true) ==
               TestHolds(lib, Written, Bool, actual, values, true))
            <==> !HasOpen(actual)
  {
    assert EqualFold(lib, actual, actual);
    hide LiteralString, EqualFold, HasOpen;
    if !HasOpen(actual) {
      forall values: seq<bytes>
        ensures TestHolds(lib, Written, Bool, actual, LiteralList(values), true) ==
                TestHolds(lib, Written, Bool, actual, values, true)
      {
        TestRewriteInvisible(lib, Bool, actual, values, map[], true);
      }
    } else {
      OneLiteral(actual);
      assert actual in [actual];
      RewrittenMisses(lib, actual, actual, [actual]);
      assert TestHolds(lib, Written, Bool, actual, LiteralList([actual]), true) !=
             TestHolds(lib, Written, Bool, actual, [actual], true);
    }
  }

  /** Each rewritten "${" brings one more "$". */
  lemma {:induction false} LiteralGrows(s: bytes, i: nat)
    requires i <= |s|
    ensures Dollars(LiteralFrom(s, i)) >= Dollars(s[i..])
    ensures IndexOpenFrom(s, i) >= 0 ==> Dollars(LiteralFrom(s, i)) > Dollars(s[i..])
    decreases |s| - i
  {
    hide IndexOpenFrom, Dollars;
    var open := IndexOpenFrom(s, i);
    if open >= 0 {
      LiteralGrows(s, open + 2);
      SliceOpen(s, i, open);
      DollarsIn(s[i..open], s[open + 2..]);
      DollarsIn(s[i..open], LiteralFrom(s, open + 2));
    }
  }

  lemma DollarsIn(a: bytes, b: bytes)
    ensures Dollars(a + VariablePrefix + b) == Dollars(a) + 1 + Dollars(b)
    ensures Dollars(a + literalReference + b) == Dollars(a) + 2 + Dollars(b)
  {
    assert multiset(VariablePrefix)['$'] == 1 && multiset(literalReference)['$'] == 2;
  }

  /** Among the values with "${", one with the fewest "$": no value folds to it rewritten. */
  lemma {:induction false} FewestDollars(values: seq<bytes>) returns (v: bytes)
    requires ContainsVariablePrefix(values)
    ensures v in values && HasOpen(v)
    ensures forall w | w in values && HasOpen(w) :: Dollars(v) <= Dollars(w)
    decreases |values|
  {
    var rest := values[1..];
    assert forall w :: w in values <==> w == values[0] || w in rest;
    if !ContainsVariablePrefix(rest) {
      v := values[0];
    } else {
      v := FewestDollars(rest);
      if HasOpen(values[0]) && Dollars(values[0]) < Dollars(v) {
        v := values[0];
      }
    }
  }

  /** A Bool condition of an older document reads its values literally for every request
      value exactly when none of them holds "${": the rewritten list no longer contains the
      one of these with the fewest "$". */
  lemma BoolRewriteIsExact(lib: Library, values: seq<bytes>)
    ensures (forall actual: bytes ::
               TestHolds(lib, Written, Bool, actual, LiteralList(values), true) ==
               TestHolds(lib, Written, Bool, actual, values, true))
            <==> !ContainsVariablePrefix(values)
  {
    assert forall v :: EqualFold(lib, v, v);
    hide EqualFold, LiteralFrom, IndexOpenFrom;
    if !ContainsVariablePrefix(values) {
      NoOpenUnchanged(values);
    } else {
      var v := FewestDollars(values);
      forall i | 0 <= i < |values| ensures !EqualFold(lib, LiteralList(values)[i], v) {
        RewrittenMisses(lib, values[i], v, values);
      }
      assert TestHolds(lib, Written, Bool, v, values, true);
      assert !TestHolds(lib, Written, Bool, v, LiteralList(values), true);
    }
  }

  lemma RewrittenMisses(lib: Library, w: bytes, v: bytes, values: seq<bytes>)
    requires w in values && HasOpen(v)
    requires forall x | x in values && HasOpen(x) :: Dollars(v) <= Dollars(x)
    ensures !EqualFold(lib, LiteralString(w), v)
  {
    hide IndexOpenFrom;
    if HasOpen(w) {
      LiteralGrows(w, 0);
      assert w[0..] == w && Caseless(lib.fold);
    } else {
      NoOpenIsFixed(w);
      if EqualFold(lib, w, v) {
        FoldKeepsOpen(lib, v, w);
      }
    }
  }
}
