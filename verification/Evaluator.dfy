/** The decision procedure, pkg/iampolicy/evaluator.go, with the statement types of
    pkg/iampolicy/types.go: what a statement selects, and deny-overrides over documents. */
module Evaluator {
  import opened Bytes
  import opened ContextKeys
  import opened Variables
  import opened Patterns
  import opened Conditions
  import opened Legacy

  const EffectAllow: bytes := "Allow"
  const EffectDeny: bytes := "Deny"
  const Version2012: bytes := "2012-10-17"

  datatype Decision = Deny | Allow

  // ----- One statement -----

  predicate WellFormedActions(s: Statement) {
    s.action == [] || s.notAction == []
  }

  predicate WellFormedResources(s: Statement) {
    s.resource == [] || s.notResource == []
  }

  ghost predicate ActionSelected(lib: Library, s: Statement, action: bytes) {
    if s.notAction != [] then !AnyHolds(lib.lower, s.notAction, action, true) else AnyHolds(lib.lower, s.action, action, true)
  }

  ghost predicate AnyResourceReads(r: Reading, patterns: seq<bytes>, resource: bytes, failClosed: bool) {
    exists p | p in patterns :: PatternReads(r, p, resource, failClosed)
  }

  /** A complement takes the opposite answer for what it cannot resolve. */
  ghost predicate ResourceSelected(r: Reading, s: Statement, resource: bytes, failClosed: bool) {
    if s.notResource != [] then !AnyResourceReads(r, s.notResource, resource, !failClosed)
    else AnyResourceReads(r, s.resource, resource, failClosed)
  }

  /** Some construct this release cannot evaluate. */
  ghost predicate Unenforceable(s: Statement) {
    || !WellFormedActions(s)
    || !WellFormedResources(s)
    || s.principal
    || exists op, key | op in s.condition && key in s.condition[op] :: !SupportedCondition(op, key)
  }

  /** The request a statement is asked about. */
  datatype Request = Request(action: bytes, resource: bytes, keys: ConditionKeys)

  /** Whether a statement selects the request, its patterns read as `r` says. */
  ghost predicate Selects(lib: Library, r: Reading, s: Statement, q: Request) {
    var failClosed := s.effect != EffectAllow;
    if Unenforceable(s) then
      && failClosed
      && (!WellFormedActions(s) || ActionSelected(lib, s, q.action))
      && (!WellFormedResources(s) || ResourceSelected(r, s, q.resource, failClosed))
    else
      && ActionSelected(lib, s, q.action)
      && ResourceSelected(r, s, q.resource, failClosed)
      && ConditionsHold(lib, r, s.condition, q.keys, failClosed)
  }

  method MatchesAction(lib: Library, s: Statement, action: bytes) returns (ok: bool)
    ensures ok <==> ActionSelected(lib, s, action)
  {
    if |s.notAction| > 0 {
      var hit := MatchesAny(lib.lower, s.notAction, action, true);
      return !hit;
    }
    ok := MatchesAny(lib.lower, s.action, action, true);
  }

  method MatchesResource(s: Statement, resource: bytes, keys: ConditionKeys, failClosed: bool) returns (ok: bool)
    ensures ok <==> ResourceSelected(Resolving(Environment(keys)), s, resource, failClosed)
  {
    hide PatternHolds;
    if |s.notResource| > 0 {
      var hit := MatchesAnyResource(s.notResource, resource, keys, !failClosed);
      return !hit;
    }
    ok := MatchesAnyResource(s.resource, resource, keys, failClosed);
  }

  /** The first construct found, in whichever order the maps are walked. */
  method FindUnenforceable(s: Statement) returns (found: bool)
    ensures found <==> Unenforceable(s)
  {
    hide SupportedCondition;
    if !WellFormedActions(s) || !WellFormedResources(s) || s.principal {
      return true;
    }
    var ops := s.condition.Keys;
    while ops != {}
      invariant ops <= s.condition.Keys
      invariant forall op, key | op in s.condition && op !in ops && key in s.condition[op] :: SupportedCondition(op, key)
    {
      var op :| op in ops;
      var todo := s.condition[op].Keys;
      while todo != {}
        invariant todo <= s.condition[op].Keys
        invariant forall key | key in s.condition[op] && key !in todo :: SupportedCondition(op, key)
      {
        var key :| key in todo;
        if !SupportedCondition(op, key) {
          return true;
        }
        todo := todo - {key};
      }
      ops := ops - {op};
    }
    return false;
  }

  method MatchesStatement(lib: Library, s: Statement, q: Request) returns (ok: bool)
    ensures ok <==> Selects(lib, Resolving(Environment(q.keys)), s, q)
  {
    hide ActionSelected, ResourceSelected, ConditionsHold, SupportedCondition;
    var failClosed := s.effect != EffectAllow;
    var found := FindUnenforceable(s);
    var action := MatchesAction(lib, s, q.action);
    var resource := MatchesResource(s, q.resource, q.keys, failClosed);
    if found {
      if s.effect == EffectAllow {
        return false;
      }
      return (!WellFormedActions(s) || action) && (!WellFormedResources(s) || resource);
    }
    if !action || !resource {
      return false;
    }
    ok := CheckConditions(lib, s.condition, q.keys, failClosed);
  }

  // ----- Documents -----

  /** A policy document; its statements are a slice the caller owns. */
  datatype PolicyDocument = PolicyDocument(version: bytes, statements: array<Statement>)

  /** A statement as the evaluator reads it: one of a document not written in the 2012
      language has its references made literal first. */
  ghost function Effective(version: bytes, s: Statement): Statement {
    if version == Version2012 then s else WithLiteralVariables(s)
  }

  ghost function DocumentStatements(d: PolicyDocument): (r: seq<Statement>)
    reads d.statements
    ensures |r| == d.statements.Length
    ensures forall i | 0 <= i < |r| :: r[i] == Effective(d.version, d.statements[i])
  {
    seq(d.statements.Length, i requires 0 <= i < d.statements.Length reads d.statements => Effective(d.version, d.statements[i]))
  }

  ghost function Documents(policies: seq<PolicyDocument>): seq<seq<Statement>>
    reads set d | d in policies :: d.statements
  {
    seq(|policies|, i requires 0 <= i < |policies| reads set d | d in policies :: d.statements => DocumentStatements(policies[i]))
  }

  ghost function Flatten(documents: seq<seq<Statement>>): seq<Statement> {
    if documents == [] then []
    else Flatten(documents[..|documents| - 1]) + documents[|documents| - 1]
  }

  /** The outcome of the statements that select a request, before the default. */
  datatype Outcome = ExplicitDeny | ExplicitAllow | Silent

  ghost predicate Denies(lib: Library, statements: seq<Statement>, q: Request) {
    exists s | s in statements :: s.effect != EffectAllow && Selects(lib, Resolving(Environment(q.keys)), s, q)
  }

  ghost predicate Allows(lib: Library, statements: seq<Statement>, q: Request) {
    exists s | s in statements :: s.effect == EffectAllow && Selects(lib, Resolving(Environment(q.keys)), s, q)
  }

  /** Deny wins; then Allow; then nothing was said. */
  ghost function OutcomeOf(lib: Library, statements: seq<Statement>, q: Request): Outcome {
    if Denies(lib, statements, q) then ExplicitDeny
    else if Allows(lib, statements, q) then ExplicitAllow
    else Silent
  }

  ghost function Decide(lib: Library, statements: seq<Statement>, q: Request): Decision {
    if OutcomeOf(lib, statements, q) == ExplicitAllow then Allow else Deny
  }

  /** One document's inner loop. None means a statement decided against the request. */
  method EvaluateDocument(lib: Library, q: Request, statements: array<Statement>, ghost before: seq<Statement>, hasAllow: bool)
    returns (r: Option<bool>)
    requires !Denies(lib, before, q) && hasAllow == Allows(lib, before, q)
    ensures r.None? <==> Denies(lib, before + statements[..], q)
    ensures r.Some? ==> r.value == Allows(lib, before + statements[..], q)
  {
    hide Selects, Environment;
    var allow := hasAllow;
    assert before + statements[..0] == before;
    for j := 0 to statements.Length
      invariant !Denies(lib, before + statements[..j], q) && allow == Allows(lib, before + statements[..j], q)
    {
      var stmt := statements[j];
      assert before + statements[..j + 1] == (before + statements[..j]) + [stmt];
      OneMore(lib, before + statements[..j], stmt, q);
      var hit := MatchesStatement(lib, stmt, q);
      if !hit {
        continue;
      }
      assert stmt in before + statements[..];
      if stmt.effect == EffectDeny {
        return None;
      } else if stmt.effect == EffectAllow {
        allow := true;
      } else {
        return None;
      }
    }
    assert statements[..statements.Length] == statements[..];
    return Some(allow);
  }

  method EvaluateWithKeys(lib: Library, action: bytes, resource: bytes, policies: seq<PolicyDocument>, keys: ConditionKeys)
    returns (decision: Decision)
    ensures decision == Decide(lib, Flatten(Documents(policies)), Request(action, resource, keys))
  {
    hide Selects, Denies, Allows, WithLiteralVariables, Environment;
    var q := Request(action, resource, keys);
    ghost var docs := Documents(policies);
    var hasAllow := false;
    NothingSaid(lib, q);
    for i := 0 to |policies|
      invariant Documents(policies) == docs
      invariant !Denies(lib, Flatten(docs[..i]), q) && hasAllow == Allows(lib, Flatten(docs[..i]), q)
    {
      var statements := policies[i].statements;
      if policies[i].version != Version2012 {
        statements := LiteralVariableStatements(statements);
      }
      assert statements[..] == docs[i];
      FlattenOneMore(docs, i);
      var r := EvaluateDocument(lib, q, statements, Flatten(docs[..i]), hasAllow);
      if r.None? {
        DeniedForGood(lib, docs, i + 1, q);
        assert Documents(policies) == docs;
        return Deny;
      }
      hasAllow := r.value;
    }
    assert docs[..|policies|] == docs;
    return if hasAllow then Allow else Deny;
  }

  lemma NothingSaid(lib: Library, q: Request)
    ensures !Denies(lib, [], q) && !Allows(lib, [], q)
  {
  }

  /** Documents read later cannot lift an explicit deny. */
  lemma {:induction false} DeniedForGood(lib: Library, docs: seq<seq<Statement>>, i: nat, q: Request)
    requires i <= |docs| && Denies(lib, Flatten(docs[..i]), q)
    ensures Denies(lib, Flatten(docs), q)
    decreases |docs| - i
  {
    hide Selects;
    if i < |docs| {
      FlattenOneMore(docs, i);
      DeniedForGood(lib, docs, i + 1, q);
    } else {
      assert docs[..i] == docs;
    }
  }

  lemma FlattenOneMore(docs: seq<seq<Statement>>, i: nat)
    requires i < |docs|
    ensures Flatten(docs[..i + 1]) == Flatten(docs[..i]) + docs[i]
  {
    assert docs[..i + 1][..i] == docs[..i];
  }

  lemma OneMore(lib: Library, statements: seq<Statement>, s: Statement, q: Request)
    ensures Denies(lib, statements + [s], q) <==>
            Denies(lib, statements, q) || (s.effect != EffectAllow && Selects(lib, Resolving(Environment(q.keys)), s, q))
    ensures Allows(lib, statements + [s], q) <==>
            Allows(lib, statements, q) || (s.effect == EffectAllow && Selects(lib, Resolving(Environment(q.keys)), s, q))
  {
    hide Selects;
    assert forall x :: x in statements + [s] <==> x in statements || x == s;
  }
}
