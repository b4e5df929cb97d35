/** Condition blocks, pkg/iampolicy/conditions.go: the operator registry, what each operator
    asks of a request value, and how missing information flows through them. */
module Conditions {
  import opened Bytes
  import opened ContextKeys
  import opened Glob
  import opened Variables
  import opened Patterns
  import opened Arn
  import opened Numbers

  // ----- Operators -----

  datatype Order = Equals | LessThan | LessThanEquals | GreaterThan | GreaterThanEquals

  /** What a positive operator tests. The two positive ARN operators are one test. */
  datatype Test =
    | StringEquals(fold: bool)
    | StringLike
    | IpAddress
    | Bool
    | ArnLike
    | Date(order: Order)
    | Numeric(order: Order)

  const positiveTests: map<bytes, Test> := map[
    "StringEquals" := StringEquals(false),
    "StringEqualsIgnoreCase" := StringEquals(true),
    "StringLike" := StringLike,
    "IpAddress" := IpAddress,
    "Bool" := Bool,
    "ArnEquals" := ArnLike,
    "ArnLike" := ArnLike,
    "DateEquals" := Date(Equals),
    "DateLessThan" := Date(LessThan),
    "DateLessThanEquals" := Date(LessThanEquals),
    "DateGreaterThan" := Date(GreaterThan),
    "DateGreaterThanEquals" := Date(GreaterThanEquals),
    "NumericEquals" := Numeric(Equals),
    "NumericLessThan" := Numeric(LessThan),
    "NumericLessThanEquals" := Numeric(LessThanEquals),
    "NumericGreaterThan" := Numeric(GreaterThan),
    "NumericGreaterThanEquals" := Numeric(GreaterThanEquals)
  ]

  /** Each negated operator and the positive form it inverts. */
  const negatedOperators: map<bytes, bytes> := map[
    "StringNotEquals" := "StringEquals",
    "StringNotEqualsIgnoreCase" := "StringEqualsIgnoreCase",
    "StringNotLike" := "StringLike",
    "NotIpAddress" := "IpAddress",
    "ArnNotEquals" := "ArnEquals",
    "ArnNotLike" := "ArnLike",
    "DateNotEquals" := "DateEquals",
    "NumericNotEquals" := "NumericEquals"
  ]

  const OpNull: bytes := "Null"
  const IfExistsSuffix: bytes := "IfExists"

  const stringEqualsOps: set<bytes> :=
    {"StringEquals", "StringNotEquals", "StringEqualsIgnoreCase", "StringNotEqualsIgnoreCase"}
  const stringLikeOps: set<bytes> := {"StringLike", "StringNotLike"}
  const dateOps: set<bytes> :=
    {"DateEquals", "DateNotEquals", "DateLessThan", "DateLessThanEquals", "DateGreaterThan", "DateGreaterThanEquals"}
  const numericOps: set<bytes> :=
    {"NumericEquals", "NumericNotEquals", "NumericLessThan", "NumericLessThanEquals",
     "NumericGreaterThan", "NumericGreaterThanEquals"}

  const addressOps: set<bytes> := {"IpAddress", "NotIpAddress"}
  const boolOps: set<bytes> := {"Bool"}

  const supportedConditions: map<bytes, set<bytes>> := map[
    KeySourceIP := addressOps,
    KeyS3Prefix := stringEqualsOps + stringLikeOps,
    KeyS3MaxKeys := numericOps,
    KeySecureTransport := boolOps,
    KeyUsername := stringEqualsOps,
    KeyPrincipalAccount := stringEqualsOps,
    KeyUserID := stringEqualsOps + stringLikeOps,
    KeyPrincipalType := stringEqualsOps + stringLikeOps,
    KeyPassedToService := stringEqualsOps + stringLikeOps,
    KeyCurrentTime := dateOps,
    KeyEpochTime := dateOps + numericOps
  ]

  datatype Base = Base(name: bytes, ifExists: bool)

  function BaseOperator(operator: bytes): Base {
    var n := |operator| - |IfExistsSuffix|;
    if n >= 0 && operator[n..] == IfExistsSuffix then Base(operator[..n], true) else Base(operator, false)
  }

  predicate SupportedCondition(operator: bytes, key: bytes) {
    var b := BaseOperator(operator);
    if b.name == OpNull then key in supportedConditions && !b.ifExists
    else key in supportedConditions && b.name in supportedConditions[key]
  }

  // ----- What a condition asks -----

  /** What lives outside the repository: lower-casing and case folding, and parsing of dates
      as instants, of addresses as numbers with IPv4-mapped forms already unmapped, and of
      CIDR blocks. */
  datatype Library = Library(
    lower: bytes -> bytes,
    fold: Folding,
    date: bytes -> Option<int>,
    address: bytes -> Option<int>,
    isPrefix: bytes -> bool,
    inPrefix: (bytes, int) -> bool)

  /** How a document's patterns are read: as written, or with references resolved. */
  datatype Reading = Written | Resolving(env: Env)

  ghost predicate PatternReads(r: Reading, pattern: bytes, value: bytes, failClosed: bool) {
    match r
    case Written => Matches(Tokens(pattern, false), value)
    case Resolving(env) => PatternHolds(pattern, value, env, failClosed)
  }

  /** strings.EqualFold. */
  predicate EqualFold(lib: Library, a: bytes, b: bytes) {
    lib.fold(a) == lib.fold(b)
  }

  predicate Same(lib: Library, a: bytes, b: bytes, fold: bool) {
    if fold then EqualFold(lib, a, b) else a == b
  }

  ghost predicate EqualsReads(lib: Library, r: Reading, v: bytes, actual: bytes, failClosed: bool, fold: bool) {
    match r
    case Written => Same(lib, v, actual, fold)
    case Resolving(env) =>
      if Resolvable(Parse(v), env) then Same(lib, Plain(Parse(v), env), actual, fold) else failClosed
  }

  ghost predicate ArnReads(r: Reading, pattern: bytes, value: bytes, failClosed: bool) {
    match r
    case Written =>
      ValueParts(pattern).Some? &&
      if ValueParts(value).None? then failClosed
      else forall i | 0 <= i < arnComponents ::
          Matches(Tokens(ValueParts(pattern).value[i], false), ValueParts(value).value[i])
    case Resolving(env) => ArnHolds(pattern, value, env, failClosed)
  }

  predicate Satisfies(order: Order, cmp: int) {
    match order
    case Equals => cmp == 0
    case LessThan => cmp < 0
    case LessThanEquals => cmp <= 0
    case GreaterThan => cmp > 0
    case GreaterThanEquals => cmp >= 0
  }

  predicate NumberSatisfies(order: Order, at: Number, v: bytes) {
    NumberOf(v).Some? && Satisfies(order, at.Compare(NumberOf(v).value))
  }

  predicate DateSatisfies(lib: Library, order: Order, at: int, v: bytes) {
    lib.date(v).Some? && Satisfies(order, at - lib.date(v).value)
  }

  predicate AddressIn(lib: Library, addr: int, v: bytes) {
    if lib.isPrefix(v) then lib.inPrefix(v, addr) else lib.address(v) == Some(addr)
  }

  ghost predicate TestHolds(lib: Library, r: Reading, test: Test, actual: bytes, values: seq<bytes>, failClosed: bool) {
    match test
    case StringEquals(fold) => exists v | v in values :: EqualsReads(lib, r, v, actual, failClosed, fold)
    case StringLike => exists v | v in values :: PatternReads(r, v, actual, failClosed)
    case ArnLike => exists v | v in values :: ArnReads(r, v, actual, failClosed)
    case Bool => exists v | v in values :: EqualFold(lib, v, actual)
    case IpAddress =>
      if lib.address(actual).None? then failClosed
      else exists v | v in values :: AddressIn(lib, lib.address(actual).value, v)
    case Date(order) =>
      if lib.date(actual).None? then failClosed
      else exists v | v in values :: DateSatisfies(lib, order, lib.date(actual).value, v)
    case Numeric(order) =>
      if NumberOf(actual).None? then failClosed
      else exists v | v in values :: NumberSatisfies(order, NumberOf(actual).value, v)
  }

  ghost predicate PositiveHolds(lib: Library, r: Reading, operator: bytes, actual: bytes, values: seq<bytes>, failClosed: bool) {
    operator in positiveTests && TestHolds(lib, r, positiveTests[operator], actual, values, failClosed)
  }

  /** A negated operator is the complement of its positive form, asked with the opposite
      answer for what cannot be resolved. */
  ghost predicate OperatorHolds(lib: Library, r: Reading, operator: bytes, actual: bytes, values: seq<bytes>, failClosed: bool) {
    if operator in negatedOperators
    then !PositiveHolds(lib, r, negatedOperators[operator], actual, values, !failClosed)
    else PositiveHolds(lib, r, operator, actual, values, failClosed)
  }

  const TrueWord: bytes := "true"
  const FalseWord: bytes := "false"

  predicate NullValueHolds(present: bool, v: bytes) {
    (FoldToAscii(v) == TrueWord && !present) || (FoldToAscii(v) == FalseWord && present)
  }

  /** Holds when the key is absent: a negated operator or an IfExists form. */
  predicate HoldsOnAbsent(operator: bytes) {
    var b := BaseOperator(operator);
    b.name != OpNull && (b.name in negatedOperators || b.ifExists)
  }

  ghost predicate BlockHolds(lib: Library, r: Reading, operator: bytes, key: bytes, values: seq<bytes>,
                             keys: ConditionKeys, failClosed: bool) {
    var base := BaseOperator(operator).name;
    if base == OpNull then exists v | v in values :: NullValueHolds(key in keys, v)
    else if key !in keys then HoldsOnAbsent(operator)
    else OperatorHolds(lib, r, base, keys[key], values, failClosed)
  }

  type ConditionBlock = map<bytes, map<bytes, seq<bytes>>>

  /** Blocks and keys are ANDed. */
  ghost predicate ConditionsHold(lib: Library, r: Reading, condition: ConditionBlock, keys: ConditionKeys, failClosed: bool) {
    forall op, key | op in condition && key in condition[op] ::
      BlockHolds(lib, r, op, key, condition[op][key], keys, failClosed)
  }

  // ----- The evaluator's code -----

  lemma PositiveFormsArePositive(operator: bytes)
    requires operator in negatedOperators
    ensures negatedOperators[operator] !in negatedOperators && negatedOperators[operator] in positiveTests
  {
  }

  /** A condition the write path accepts never falls through the operator switch. */
  lemma SupportedOperatorsAreRecognised(operator: bytes, key: bytes)
    requires SupportedCondition(operator, key)
    ensures var base := BaseOperator(operator).name;
            base == OpNull || base in negatedOperators || base in positiveTests
  {
  }

  ghost predicate Orders(order: Order, x: real, y: real) {
    match order
    case Equals => x == y
    case LessThan => x < y
    case LessThanEquals => x <= y
    case GreaterThan => x > y
    case GreaterThanEquals => x >= y
  }

  /** A numeric operator orders the exact values of what was written. */
  lemma NumericOrdersValues(order: Order, actual: Decimal, wanted: Decimal)
    requires actual.WellFormed() && actual.InRange() && wanted.WellFormed() && wanted.InRange()
    ensures NumberOf(actual.Render()).Some?
    ensures NumberSatisfies(order, NumberOf(actual.Render()).value, wanted.Render()) <==>
            Orders(order, actual.Value(), wanted.Value())
  {
    hide NumberOf, Decimal.Render, Decimal.Value, Number.Compare, Number.Value, Number.Canonical;
    ParseRendered(actual);
    ParseRendered(wanted);
    CompareIsExact(NumberOf(actual.Render()).value, NumberOf(wanted.Render()).value);
  }

  method EqualsAny(lib: Library, actual: bytes, values: seq<bytes>, keys: ConditionKeys, failClosed: bool, fold: bool)
    returns (ok: bool)
    ensures ok <==> exists v | v in values ::
                      EqualsReads(lib, Resolving(Environment(keys)), v, actual, failClosed, fold)
  {
    hide ParseFrom, Plain, Resolvable, Expanded, IndexOpenFrom;
    for i := 0 to |values|
      invariant forall j | 0 <= j < i ::
                  !EqualsReads(lib, Resolving(Environment(keys)), values[j], actual, failClosed, fold)
    {
      var resolved, result := ExpandVariables(values[i], keys, false);
      ExpansionIsPlain(values[i], Environment(keys));
      if result == Unresolvable {
        if failClosed {
          assert values[i] in values;
          return true;
        }
      } else if (fold && EqualFold(lib, resolved, actual)) || (!fold && resolved == actual) {
        assert values[i] in values;
        return true;
      }
    }
    return false;
  }

  lemma ExpansionIsPlain(s: bytes, env: Env)
    ensures Verdict(s, env) == Literal ==> Resolvable(Parse(s), env) && Plain(Parse(s), env) == s
    ensures Verdict(s, env) == Resolved ==> Plain(Parse(s), env) == Expansion(Parse(s), env, false)
  {
    if Resolvable(Parse(s), env) {
      UnescapedIsPlain(Parse(s), env);
    }
    assert s[0..] == s;
  }

  method IpInAny(lib: Library, actual: bytes, values: seq<bytes>, failClosed: bool) returns (ok: bool)
    ensures ok <==> TestHolds(lib, Written, IpAddress, actual, values, failClosed)
  {
    var addr := lib.address(actual);
    if addr.None? {
      return failClosed;
    }
    for i := 0 to |values|
      invariant forall j | 0 <= j < i :: !AddressIn(lib, addr.value, values[j])
    {
      if lib.isPrefix(values[i]) {
        if lib.inPrefix(values[i], addr.value) {
          assert values[i] in values;
          return true;
        }
        continue;
      }
      var other := lib.address(values[i]);
      if other.None? {
        continue;
      }
      if other.value == addr.value {
        assert values[i] in values;
        return true;
      }
    }
    return false;
  }

  method DateHoldsAny(lib: Library, order: Order, actual: bytes, values: seq<bytes>, failClosed: bool) returns (ok: bool)
    ensures ok <==> TestHolds(lib, Written, Date(order), actual, values, failClosed)
  {
    var at := lib.date(actual);
    if at.None? {
      return failClosed;
    }
    for i := 0 to |values|
      invariant forall j | 0 <= j < i :: !DateSatisfies(lib, order, at.value, values[j])
    {
      var want := lib.date(values[i]);
      if want.None? {
        continue;
      }
      if Satisfies(order, at.value - want.value) {
        assert values[i] in values;
        return true;
      }
    }
    return false;
  }

  method NumericHoldsAny(order: Order, actual: bytes, values: seq<bytes>, failClosed: bool, ghost lib: Library)
    returns (ok: bool)
    ensures ok <==> TestHolds(lib, Written, Numeric(order), actual, values, failClosed)
  {
    hide NumberOf, Number.Compare, Satisfies;
    var at := ParseNumber(actual);
    if at.None? {
      return failClosed;
    }
    for i := 0 to |values|
      invariant forall j | 0 <= j < i :: !NumberSatisfies(order, at.value, values[j])
    {
      var want := ParseNumber(values[i]);
      if want.None? {
        continue;
      }
      if Satisfies(order, at.value.Compare(want.value)) {
        assert values[i] in values;
        return true;
      }
    }
    return false;
  }

  /** These tests read their values as written whatever the document's version. */
  lemma ReadsAsWritten(lib: Library, r: Reading, test: Test, actual: bytes, values: seq<bytes>, failClosed: bool)
    requires test.IpAddress? || test.Bool? || test.Date? || test.Numeric?
    ensures TestHolds(lib, r, test, actual, values, failClosed) == TestHolds(lib, Written, test, actual, values, failClosed)
  {
  }

  method TestValues(lib: Library, test: Test, actual: bytes, values: seq<bytes>, keys: ConditionKeys, failClosed: bool)
    returns (ok: bool)
    ensures ok <==> TestHolds(lib, Resolving(Environment(keys)), test, actual, values, failClosed)
  {
    hide PatternHolds, ArnHolds, EqualsReads, NumberOf, NumberSatisfies;
    ghost var r := Resolving(Environment(keys));
    match test
    case StringEquals(fold) =>
      ok := EqualsAny(lib, actual, values, keys, failClosed, fold);
    case StringLike =>
      for i := 0 to |values|
        invariant forall j | 0 <= j < i :: !PatternReads(r, values[j], actual, failClosed)
      {
        var hit := MatchPattern(values[i], actual, keys, failClosed);
        if hit {
          assert values[i] in values;
          return true;
        }
      }
      return false;
    case ArnLike =>
      for i := 0 to |values|
        invariant forall j | 0 <= j < i :: !ArnReads(r, values[j], actual, failClosed)
      {
        var hit := MatchARN(values[i], actual, keys, failClosed);
        if hit {
          assert values[i] in values;
          return true;
        }
      }
      return false;
    case Bool =>
      for i := 0 to |values|
        invariant forall j | 0 <= j < i :: !EqualFold(lib, values[j], actual)
      {
        if EqualFold(lib, values[i], actual) {
          assert values[i] in values;
          return true;
        }
      }
      return false;
    case IpAddress =>
      ReadsAsWritten(lib, r, test, actual, values, failClosed);
      ok := IpInAny(lib, actual, values, failClosed);
    case Date(order) =>
      ReadsAsWritten(lib, r, test, actual, values, failClosed);
      ok := DateHoldsAny(lib, order, actual, values, failClosed);
    case Numeric(order) =>
      ReadsAsWritten(lib, r, test, actual, values, failClosed);
      ok := NumericHoldsAny(order, actual, values, failClosed, lib);
  }

  method ConditionHolds(lib: Library, operator: bytes, actual: bytes, values: seq<bytes>, keys: ConditionKeys, failClosed: bool)
    returns (ok: bool)
    ensures ok <==> OperatorHolds(lib, Resolving(Environment(keys)), operator, actual, values, failClosed)
    decreases operator in negatedOperators
  {
    hide TestHolds;
    if operator in negatedOperators {
      PositiveFormsArePositive(operator);
      var positive := ConditionHolds(lib, negatedOperators[operator], actual, values, keys, !failClosed);
      return !positive;
    }
    if operator !in positiveTests {
      return false;
    }
    ok := TestValues(lib, positiveTests[operator], actual, values, keys, failClosed);
  }

  method NullHolds(present: bool, values: seq<bytes>) returns (ok: bool)
    ensures ok <==> exists v | v in values :: NullValueHolds(present, v)
  {
    hide NullValueHolds;
    for i := 0 to |values|
      invariant forall j | 0 <= j < i :: !NullValueHolds(present, values[j])
    {
      if NullValueHolds(present, values[i]) {
        assert values[i] in values;
        return true;
      }
    }
    return false;
  }

  method BlockValue(lib: Library, operator: bytes, key: bytes, values: seq<bytes>, keys: ConditionKeys, failClosed: bool)
    returns (ok: bool)
    ensures ok <==> BlockHolds(lib, Resolving(Environment(keys)), operator, key, values, keys, failClosed)
  {
    hide OperatorHolds, NullValueHolds;
    var base := BaseOperator(operator);
    if base.name == OpNull {
      ok := NullHolds(key in keys, values);
    } else if key !in keys {
      ok := base.name in negatedOperators || base.ifExists;
    } else {
      ok := ConditionHolds(lib, base.name, keys[key], values, keys, failClosed);
    }
  }

  /** The early-exit loops of conditionsHold, over the maps in any order. */
  method CheckConditions(lib: Library, condition: ConditionBlock, keys: ConditionKeys, failClosed: bool)
    returns (ok: bool)
    ensures ok <==> ConditionsHold(lib, Resolving(Environment(keys)), condition, keys, failClosed)
  {
    hide BlockHolds;
    ghost var r := Resolving(Environment(keys));
    var ops := condition.Keys;
    while ops != {}
      invariant ops <= condition.Keys
      invariant forall op, key | op in condition && op !in ops && key in condition[op] ::
                  BlockHolds(lib, r, op, key, condition[op][key], keys, failClosed)
    {
      var op :| op in ops;
      var todo := condition[op].Keys;
      while todo != {}
        invariant todo <= condition[op].Keys
        invariant forall key | key in condition[op] && key !in todo ::
                    BlockHolds(lib, r, op, key, condition[op][key], keys, failClosed)
      {
        var key :| key in todo;
        var holds := BlockValue(lib, op, key, condition[op][key], keys, failClosed);
        if !holds {
          return false;
        }
        todo := todo - {key};
      }
      ops := ops - {op};
    }
    return true;
  }
}
