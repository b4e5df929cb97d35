/** Documents older than policy variables, pkg/iampolicy/variables.go:168-237: every "${" is
    rewritten to read as literal text, and the rewrite cancels exactly against expansion. */
module Legacy {
  import opened Bytes
  import opened Glob
  import opened ContextKeys
  import opened Variables
  import opened Patterns
  import opened Arn
  import opened Conditions

  /** A policy statement. `principal` says a Principal other than null is present. */
  datatype Statement = Statement(
    sid: bytes, effect: bytes,
    action: seq<bytes>, notAction: seq<bytes>,
    resource: seq<bytes>, notResource: seq<bytes>,
    condition: ConditionBlock, principal: bool)

  const literalReference: bytes := "${$}{"
  const Dollar: bytes := "$"
  const OpenBrace: bytes := "{"

  /** strings.ReplaceAll of "${" by the literal reference. */
  function LiteralFrom(s: bytes, i: nat): bytes
    requires i <= |s|
    decreases |s| - i
  {
    var open := IndexOpenFrom(s, i);
    if open < 0 then s[i..] else s[i..open] + literalReference + LiteralFrom(s, open + 2)
  }

  function LiteralString(s: bytes): bytes {
    LiteralFrom(s, 0)
  }

  function LiteralList(values: seq<bytes>): (r: seq<bytes>)
    ensures |r| == |values|
  {
    seq(|values|, i requires 0 <= i < |values| => LiteralString(values[i]))
  }

  function LiteralByKey(byKey: map<bytes, seq<bytes>>): map<bytes, seq<bytes>> {
    map key | key in byKey :: LiteralList(byKey[key])
  }

  function LiteralCondition(condition: ConditionBlock): ConditionBlock {
    map op | op in condition :: LiteralByKey(condition[op])
  }

  function WithLiteralVariables(s: Statement): Statement {
    s.(resource := LiteralList(s.resource), notResource := LiteralList(s.notResource),
       condition := LiteralCondition(s.condition))
  }

  // ----- The rewrite cancels against expansion -----

  lemma ReferenceSpelled(more: bytes)
    ensures literalReference + more == VariablePrefix + Dollar + Brace + (OpenBrace + more)
  {
    assert literalReference == VariablePrefix + Dollar + Brace + OpenBrace;
  }

  lemma EnvironmentHasDollar(keys: ConditionKeys)
    ensures Dollar in Environment(keys) && Environment(keys)[Dollar] == Dollar
  {
  }

  /** A prefix that cannot complete a "${": nothing, or the brace a rewrite leaves behind. */
  predicate Harmless(p: bytes) {
    p == [] || p == OpenBrace
  }

  lemma NoOpenAfterPrefix(p: bytes, text: bytes)
    requires Harmless(p) && IndexOpen(text) < 0
    ensures IndexOpen(p + text) < 0
  {
    IndexOpenIsFirst(text, 0);
    IndexOpenIsFirst(p + text, 0);
    var r := IndexOpen(p + text);
    assert r >= |p| ==> OpensAt(text, r - |p|);
  }

  lemma RewriteHead(p: bytes, text: bytes, more: bytes)
    ensures p + (text + literalReference + more) ==
            p + text + VariablePrefix + Dollar + Brace + (OpenBrace + more)
  {
    ReferenceSpelled(more);
    Assoc(text, literalReference, more);
    Assoc(p, text, literalReference + more);
    var q := p + text;
    Assoc(q + VariablePrefix, Dollar, Brace + (OpenBrace + more));
    assert q + (VariablePrefix + Dollar + Brace + (OpenBrace + more)) ==
           q + VariablePrefix + Dollar + Brace + (OpenBrace + more);
  }

  /** The rewritten string resolves whatever the context holds, to the original string and
      to the meaning the original has without variables. */
  lemma {:induction false} LiteralCancels(p: bytes, s: bytes, i: nat, env: Env)
    requires Harmless(p) && i <= |s| && Dollar in env && env[Dollar] == Dollar
    ensures var t := Parse(p + LiteralFrom(s, i));
            && Resolvable(t, env)
            && Plain(t, env) == p + s[i..]
            && Meaning(t, env) == Tokens(p + s[i..], false)
    decreases |s| - i
  {
    hide IndexOpenFrom, Tokens, ParseFrom;
    var open := IndexOpenFrom(s, i);
    if open < 0 {
      NoOpenWithin(s, i, |s|);
      assert s[i..|s|] == s[i..];
      NoOpenAfterPrefix(p, s[i..]);
      ParseNothing(p + s[i..]);
    } else {
      NoOpenWithin(s, i, open);
      var text, more := p + s[i..open], LiteralFrom(s, open + 2);
      NoOpenAfterPrefix(p, s[i..open]);
      RewriteHead(p, s[i..open], more);
      ParseRef(text, Dollar, OpenBrace + more);
      LiteralCancels(OpenBrace, s, open + 2, env);
      SliceOpen(s, i, open);
      var rest := OpenBrace + s[open + 2..];
      assert VariablePrefix == Dollar + OpenBrace;
      assert p + s[i..] == text + Dollar + rest;
      PlainTokensConcat(text, Dollar);
      PlainTokensConcat(text + Dollar, rest);
      DollarToken();
    }
  }

  lemma ParseNothing(s: bytes)
    requires IndexOpen(s) < 0
    ensures Parse(s) == End(s)
  {
    assert s[0..] == s;
  }

  lemma DollarToken()
    ensures Tokens(Dollar, false) == Literals(Dollar)
  {
    PlainTokens(Dollar);
  }

  /** Expanding the rewritten string gives back the original, and matching it is wildcard
      matching of the original, for every context and either fail-closed answer. */
  lemma LiteralStringReads(s: bytes, keys: ConditionKeys, value: bytes, failClosed: bool)
    ensures var t, env := Parse(LiteralString(s)), Environment(keys);
            Resolvable(t, env) && Plain(t, env) == s && Expansion(t, env, false) == s
    ensures PatternHolds(LiteralString(s), value, Environment(keys), failClosed) <==> Matches(Tokens(s, false), value)
  {
    hide ParseFrom, Tokens, Meaning, Plain, LiteralFrom, Expanded, Matches;
    EnvironmentHasDollar(keys);
    LiteralCancels([], s, 0, Environment(keys));
    assert [] + LiteralString(s) == LiteralString(s) && [] + s[0..] == s;
    UnescapedIsPlain(Parse(LiteralString(s)), Environment(keys));
  }

  // ----- The rewrite and ARN splitting -----

  lemma {:induction false} FirstColonInSuffix(p: bytes, s: bytes, i: nat)
    requires i <= |s|
    ensures FirstColonFrom(p + s, |p| + i) == Shift(|p|, FirstColonFrom(s, i))
    decreases |s| - i
  {
    hide IndexOpenFrom, IndexByteFrom;
    OpenInSuffix(p, s, i);
    IndexInSuffix(p, s, i, ':');
    var open := IndexOpenFrom(s, i);
    if open >= 0 {
      IndexInSuffix(p, s, open + 2, '}');
      var end := IndexByteFrom(s, open + 2, '}');
      if end >= 0 {
        FirstColonInSuffix(p, s, end + 1);
      }
    }
  }

  function Shift(n: nat, r: int): int {
    if r < 0 then -1 else n + r
  }

  lemma {:induction false} SplitInSuffix(p: bytes, s: bytes, i: nat, n: nat)
    requires i <= |s|
    ensures SplitFrom(p + s, |p| + i, n) == SplitFrom(s, i, n)
    decreases n
  {
    hide FirstColonFrom;
    if n == 0 {
      assert (p + s)[|p| + i..] == s[i..];
    } else {
      FirstColonInSuffix(p, s, i);
      var c := FirstColonFrom(s, i);
      if c >= 0 {
        SplitInSuffix(p, s, c + 1, n - 1);
        assert (p + s)[|p| + i..|p| + c] == s[i..c];
      }
    }
  }

  /** Skipping a rewritten reference: the search goes on after it. */
  lemma ColonPastReference(text: bytes, more: bytes)
    requires IndexOpen(text) < 0 && ':' !in text
    ensures var p := text + VariablePrefix + Dollar + Brace;
            FirstColonFrom(p + more, 0) == Shift(|p|, FirstColonFrom(more, 0))
  {
    hide IndexOpenFrom, IndexByteFrom;
    var p := text + VariablePrefix + Dollar + Brace;
    var u := p + more;
    OpenAfterText(text, u, Dollar + Brace + more);
    assert u[|text| + 2] == '$' && u[|text| + 3] == '}';
    IndexByteIsFirst(u, |text| + 2, '}');
    assert IndexByteFrom(u, |text| + 2, '}') == |text| + 3;
    IndexByteIsFirst(u, 0, ':');
    assert forall k | 0 <= k < |text| :: u[k] == text[k];
    FirstColonInSuffix(p, more, 0);
  }

  lemma ColonAfterPlainText(text: bytes, w: bytes)
    requires IndexOpen(text) < 0 && ':' !in text
    ensures FirstColonFrom(text + [':'] + w, 0) == |text|
    ensures FirstColonFrom(text, 0) == -1
  {
    hide IndexOpenFrom, IndexByteFrom;
    var u := text + [':'] + w;
    assert forall k | 0 <= k < |text| :: u[k] == text[k];
    assert u[|text|] == ':';
    IndexByteIsFirst(u, 0, ':');
    IndexByteIsFirst(text, 0, ':');
    IndexOpenIsFirst(u, 0);
    IndexOpenIsFirst(text, 0);
    var open := IndexOpen(u);
    assert 0 <= open < |text| ==> OpensAt(text, open);
  }

  /** A rewritten colon-free string has no free colon, and one written after it is found. */
  lemma {:induction false} LiteralHasNoColon(p: bytes, x: bytes, i: nat, w: bytes)
    requires Harmless(p) && i <= |x| && ':' !in x
    ensures FirstColonFrom(p + LiteralFrom(x, i) + [':'] + w, 0) == |p + LiteralFrom(x, i)|
    ensures FirstColonFrom(p + LiteralFrom(x, i), 0) == -1
    decreases |x| - i
  {
    hide IndexOpenFrom, IndexByteFrom, FirstColonFrom;
    var open := IndexOpenFrom(x, i);
    if open < 0 {
      NoOpenWithin(x, i, |x|);
      assert x[i..|x|] == x[i..];
      NoOpenAfterPrefix(p, x[i..]);
      ColonAfterPlainText(p + x[i..], w);
    } else {
      NoOpenWithin(x, i, open);
      NoOpenAfterPrefix(p, x[i..open]);
      var more := LiteralFrom(x, open + 2);
      var tail := OpenBrace + more;
      RewriteHead(p, x[i..open], more);
      LiteralHasNoColon(OpenBrace, x, open + 2, w);
      var head := p + x[i..open] + VariablePrefix + Dollar + Brace;
      ColonPastReference(p + x[i..open], tail);
      ColonPastReference(p + x[i..open], tail + [':'] + w);
      assert head + tail + [':'] + w == head + (tail + [':'] + w);
    }
  }

  lemma {:induction false} LiteralInSuffix(p: bytes, s: bytes, i: nat)
    requires i <= |s|
    ensures LiteralFrom(p + s, |p| + i) == LiteralFrom(s, i)
    decreases |s| - i
  {
    hide IndexOpenFrom;
    OpenInSuffix(p, s, i);
    var open := IndexOpenFrom(s, i);
    if open < 0 {
      SliceInSuffix(p, s, i, |s|);
    } else {
      SliceInSuffix(p, s, i, open);
      LiteralInSuffix(p, s, open + 2);
    }
  }

  lemma SliceInSuffix(p: bytes, s: bytes, i: nat, j: nat)
    requires i <= j <= |s|
    ensures (p + s)[|p| + i..|p| + j] == s[i..j]
    ensures (p + s)[|p| + i..] == s[i..]
  {
  }

  /** Searching before a colon does not look past it. */
  lemma OpenBeforeColon(x: bytes, y: bytes, i: nat)
    requires i <= |x|
    ensures var s := x + [':'] + y;
            IndexOpenFrom(s, i) ==
            if IndexOpenFrom(x, i) >= 0 then IndexOpenFrom(x, i) else IndexOpenFrom(s, |x| + 1)
  {
    hide IndexOpenFrom;
    var s := x + [':'] + y;
    assert forall k | 0 <= k < |x| :: s[k] == x[k];
    assert s[|x|] == ':';
    IndexOpenIsFirst(s, i);
    IndexOpenIsFirst(s, |x| + 1);
    IndexOpenIsFirst(x, i);
    var r, q := IndexOpenFrom(s, i), IndexOpenFrom(x, i);
    assert q >= 0 ==> OpensAt(s, q);
    assert 0 <= r < |x| ==> OpensAt(x, r);
  }

  /** The rewrite works on each side of a colon by itself. */
  lemma {:induction false} LiteralAroundColon(x: bytes, y: bytes, i: nat)
    requires i <= |x|
    ensures LiteralFrom(x + [':'] + y, i) == LiteralFrom(x, i) + [':'] + LiteralString(y)
    decreases |x| - i
  {
    hide IndexOpenFrom;
    OpenBeforeColon(x, y, i);
    var open := IndexOpenFrom(x, i);
    if open >= 0 {
      LiteralAroundColon(x, y, open + 2);
      assert (x + [':'] + y)[i..open] == x[i..open];
      Around(x[i..open] + literalReference, LiteralFrom(x, open + 2), ':', LiteralString(y));
    } else {
      LiteralPastColon(x, y, i);
    }
  }

  lemma LiteralUnfolds(s: bytes, i: nat)
    requires i <= |s|
    ensures var open := IndexOpenFrom(s, i);
            LiteralFrom(s, i) == if open < 0 then s[i..] else s[i..open] + literalReference + LiteralFrom(s, open + 2)
  {
  }

  lemma SliceAcrossColon(x: bytes, y: bytes, i: nat, j: nat)
    requires i <= |x| && j <= |y|
    ensures var s := x + [':'] + y;
            s[i..|x| + 1 + j] == x[i..] + [':'] + y[0..j] && s[i..] == x[i..] + [':'] + y && y[0..] == y
  {
  }

  lemma LiteralPastColon(x: bytes, y: bytes, i: nat)
    requires i <= |x| && IndexOpenFrom(x, i) < 0
    ensures LiteralFrom(x + [':'] + y, i) == x[i..] + [':'] + LiteralString(y)
  {
    hide IndexOpenFrom, LiteralFrom;
    var s, p := x + [':'] + y, x + [':'];
    LiteralUnfolds(s, i);
    LiteralUnfolds(y, 0);
    OpenBeforeColon(x, y, i);
    OpenInSuffix(p, y, 0);
    var after := IndexOpenFrom(y, 0);
    if after < 0 {
      SliceAcrossColon(x, y, i, |y|);
    } else {
      var q, t := x[i..] + [':'], y[0..after];
      SliceAcrossColon(x, y, i, after);
      Assoc(q, t, literalReference);
      Assoc(q, t + literalReference, LiteralFrom(y, after + 2));
      LiteralInSuffix(p, y, after + 2);
    }
  }

  function LiteralParts(r: Option<seq<bytes>>): Option<seq<bytes>> {
    if r.None? then None else Some(LiteralList(r.value))
  }

  /** Splitting the rewritten pattern is the plain colon split of the original, each part
      rewritten. */
  lemma {:induction false} LiteralSplits(s: bytes, i: nat, n: nat)
    requires i <= |s|
    ensures SplitFrom(LiteralString(s[i..]), 0, n) == LiteralParts(PlainSplitFrom(s, i, n))
    decreases n
  {
    hide LiteralFrom, FirstColonFrom, IndexOpenFrom, SplitFrom, LiteralString;
    var u := LiteralString(s[i..]);
    var c := IndexByteFrom(s, i, ':');
    IndexByteIsFirst(s, i, ':');
    if n == 0 {
      WholeString(u);
      assert LiteralList([s[i..]]) == [u];
    } else if c < 0 {
      NoColonNoSplit(s[i..], n);
    } else {
      assert s[i..] == s[i..c] + [':'] + s[c + 1..];
      LiteralSplitStep(s[i..c], s[c + 1..], n);
      LiteralSplits(s, c + 1, n - 1);
      PrependLiterals(s[i..c], PlainSplitFrom(s, c + 1, n - 1));
    }
  }

  lemma WholeString(u: bytes)
    ensures SplitFrom(u, 0, 0) == Some([u])
  {
    assert u[0..] == u;
  }

  lemma NoColonNoSplit(x: bytes, n: nat)
    requires ':' !in x && n > 0
    ensures SplitFrom(LiteralString(x), 0, n) == None
  {
    LiteralHasNoColon([], x, 0, []);
    assert [] + LiteralString(x) == LiteralString(x);
  }

  lemma LiteralSplitStep(x: bytes, y: bytes, n: nat)
    requires ':' !in x && n > 0
    ensures SplitFrom(LiteralString(x + [':'] + y), 0, n) ==
            Prepend([LiteralString(x)], SplitFrom(LiteralString(y), 0, n - 1))
  {
    hide LiteralFrom, FirstColonFrom, IndexOpenFrom, IndexByteFrom;
    var u, l, m := LiteralString(x + [':'] + y), LiteralString(x), LiteralString(y);
    LiteralAroundColon(x, y, 0);
    LiteralHasNoColon([], x, 0, m);
    assert [] + l == l;
    assert u == l + [':'] + m && u[0..|l|] == l;
    SplitInSuffix(l + [':'], m, 0, n - 1);
  }

  lemma PrependLiterals(x: bytes, r: Option<seq<bytes>>)
    ensures Prepend([LiteralString(x)], LiteralParts(r)) == LiteralParts(Prepend([x], r))
  {
    hide LiteralString;
    if r.Some? {
      assert LiteralList([x] + r.value) == [LiteralString(x)] + LiteralList(r.value);
    }
  }

  // ----- Copy on write -----

  predicate HasOpen(s: bytes) {
    IndexOpen(s) >= 0
  }

  predicate ContainsVariablePrefix(values: seq<bytes>) {
    exists v | v in values :: HasOpen(v)
  }

  ghost predicate ConditionHasPrefix(condition: ConditionBlock) {
    exists op, key | op in condition && key in condition[op] :: ContainsVariablePrefix(condition[op][key])
  }

  ghost predicate HasPrefix(s: Statement) {
    ContainsVariablePrefix(s.resource) || ContainsVariablePrefix(s.notResource) || ConditionHasPrefix(s.condition)
  }

  lemma NoOpenUnchanged(values: seq<bytes>)
    requires !ContainsVariablePrefix(values)
    ensures LiteralList(values) == values
  {
    forall i | 0 <= i < |values| ensures LiteralString(values[i]) == values[i] {
      assert !HasOpen(values[i]);
      assert values[i][0..] == values[i];
    }
  }

  lemma NoPrefixUnchanged(s: Statement)
    requires !HasPrefix(s)
    ensures WithLiteralVariables(s) == s
  {
    hide LiteralList, ContainsVariablePrefix;
    NoOpenUnchanged(s.resource);
    NoOpenUnchanged(s.notResource);
    forall op | op in s.condition ensures LiteralByKey(s.condition[op]) == s.condition[op] {
      forall key | key in s.condition[op] ensures LiteralList(s.condition[op][key]) == s.condition[op][key] {
        NoOpenUnchanged(s.condition[op][key]);
      }
    }
  }

  method HasVariablePrefix(s: Statement) returns (found: bool)
    ensures found <==> HasPrefix(s)
  {
    hide ContainsVariablePrefix;
    if ContainsVariablePrefix(s.resource) || ContainsVariablePrefix(s.notResource) {
      return true;
    }
    var ops := s.condition.Keys;
    while ops != {}
      invariant ops <= s.condition.Keys
      invariant forall op, key | op in s.condition && op !in ops && key in s.condition[op] ::
                  !ContainsVariablePrefix(s.condition[op][key])
    {
      var op :| op in ops;
      var todo := s.condition[op].Keys;
      while todo != {}
        invariant todo <= s.condition[op].Keys
        invariant forall key | key in s.condition[op] && key !in todo :: !ContainsVariablePrefix(s.condition[op][key])
      {
        var key :| key in todo;
        if ContainsVariablePrefix(s.condition[op][key]) {
          return true;
        }
        todo := todo - {key};
      }
      ops := ops - {op};
    }
    return false;
  }

  method LiteralValues(values: seq<bytes>) returns (out: seq<bytes>)
    ensures out == LiteralList(values)
  {
    hide LiteralString;
    out := [];
    for i := 0 to |values|
      invariant |out| == i && forall j | 0 <= j < i :: out[j] == LiteralString(values[j])
    {
      out := out + [LiteralString(values[i])];
    }
  }

  method CopyWithLiteralVariables(s: Statement) returns (r: Statement)
    ensures r == WithLiteralVariables(s)
  {
    hide LiteralList;
    var resource := LiteralValues(s.resource);
    var notResource := LiteralValues(s.notResource);
    var conditions: ConditionBlock := map[];
    var ops := s.condition.Keys;
    while ops != {}
      invariant ops <= s.condition.Keys && conditions.Keys == s.condition.Keys - ops
      invariant forall op | op in conditions :: conditions[op] == LiteralByKey(s.condition[op])
    {
      var op :| op in ops;
      var byKey: map<bytes, seq<bytes>> := map[];
      var todo := s.condition[op].Keys;
      while todo != {}
        invariant todo <= s.condition[op].Keys && byKey.Keys == s.condition[op].Keys - todo
        invariant forall key | key in byKey :: byKey[key] == LiteralList(s.condition[op][key])
      {
        var key :| key in todo;
        var values := LiteralValues(s.condition[op][key]);
        byKey := byKey[key := values];
        todo := todo - {key};
      }
      conditions := conditions[op := byKey];
      ops := ops - {op};
    }
    r := s.(resource := resource, notResource := notResource, condition := conditions);
  }

  /** The caller's array is returned as it is when nothing needs rewriting, and copied
      before the first statement that does; it is never written. */
  method LiteralVariableStatements(statements: array<Statement>) returns (out: array<Statement>)
    ensures out == statements || fresh(out)
    ensures out.Length == statements.Length
    ensures forall i | 0 <= i < out.Length :: out[i] == WithLiteralVariables(statements[i])
  {
    hide WithLiteralVariables, HasPrefix;
    out := statements;
    for i := 0 to statements.Length
      invariant out == statements || fresh(out)
      invariant out.Length == statements.Length
      invariant forall j | 0 <= j < i :: out[j] == WithLiteralVariables(statements[j])
      invariant forall j | i <= j < out.Length :: out[j] == statements[j]
    {
      var found := HasVariablePrefix(statements[i]);
      if !found {
        NoPrefixUnchanged(statements[i]);
        continue;
      }
      if out == statements {
        out := new Statement[statements.Length](j requires 0 <= j < statements.Length reads statements => statements[j]);
      }
      out[i] := CopyWithLiteralVariables(statements[i]);
    }
  }
}
