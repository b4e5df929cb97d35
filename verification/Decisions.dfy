/** Decisions in a policy's own terms: what a statement's lists, effect, Principal and
    conditions, as they are written, make of a request (pkg/iampolicy/evaluator.go). */
module Decisions {
  import opened Bytes
  import opened ContextKeys
  import opened Glob
  import opened Variables
  import opened Patterns
  import opened Conditions
  import opened Legacy
  import opened Evaluator
  import opened EvaluatorLaws
  import opened PatternLaws

  const AllowEffect: bytes := "Allow"
  const DenyEffect: bytes := "Deny"

  function Plainly(effect: bytes, action: seq<bytes>, notAction: seq<bytes>,
                   resource: seq<bytes>, notResource: seq<bytes>, condition: ConditionBlock): Statement {
    Statement([], effect, action, notAction, resource, notResource, condition, false)
  }

  lemma OneStatement(lib: Library, s: Statement, q: Request)
    ensures s.effect == AllowEffect ==>
              (Decide(lib, [s], q) == Allow <==> Selects(lib, Resolving(Environment(q.keys)), s, q))
    ensures s.effect != AllowEffect ==> Decide(lib, [s], q) == Deny
  {
    hide Selects, Environment;
    assert s in [s];
  }

  lemma StarSelects(value: bytes, env: Env, failClosed: bool)
    ensures Matches(Tokens(['*'], false), value) && PatternHolds(['*'], value, env, failClosed)
  {
    hide ParseFrom, Matches;
    TextParses(['*']);
    TokensPlainHead('*', [], false);
    RunThenLiteral([], value);
    assert [AnyRun] + Literals([]) == [AnyRun] && Tokens([], false) == [];
    assert [AnyRun] + [] == [AnyRun] && ['*'] + [] == ['*'];
  }

  /** Beside statements that allow a request, one that is not an Allow decides. */
  lemma OneMoreStatement(lib: Library, base: seq<Statement>, s: Statement, q: Request)
    requires Decide(lib, base, q) == Allow && s.effect != AllowEffect
    ensures Decide(lib, base + [s], q) == Deny <==> Selects(lib, Resolving(Environment(q.keys)), s, q)
  {
    hide Selects, Environment;
    assert forall x :: x in base + [s] <==> x in base || x == s;
  }

  /** What an Action list or a NotAction list, one of them empty, says of an action. */
  ghost predicate ActionsSay(lib: Library, action: seq<bytes>, notAction: seq<bytes>, asked: bytes) {
    if notAction == [] then exists p | p in action :: Matches(Tokens(lib.lower(p), false), lib.lower(asked))
    else forall p | p in notAction :: !Matches(Tokens(lib.lower(p), false), lib.lower(asked))
  }

  /** The same of resources, whose case counts and whose variables are resolved; an
      unresolved one is read so that an Allow selects less and a Deny more. */
  ghost predicate ResourcesSay(resource: seq<bytes>, notResource: seq<bytes>, asked: bytes, env: Env, deny: bool) {
    if notResource == [] then exists p | p in resource :: PatternHolds(p, asked, env, deny)
    else forall p | p in notResource :: !PatternHolds(p, asked, env, !deny)
  }

  /** A statement whose lists are well formed, without Principal, each of its conditions
      supported: as an Allow by itself it decides Allow exactly when its actions, its
      resources and all its conditions say so, and as anything else it denies what other
      statements allow exactly when they do. */
  lemma StatementDecides(lib: Library, base: seq<Statement>, s: Statement, q: Request)
    requires s.action == [] || s.notAction == []
    requires s.resource == [] || s.notResource == []
    requires !s.principal
    requires forall op, key | op in s.condition && key in s.condition[op] :: SupportedCondition(op, key)
    ensures var env := Environment(q.keys);
            var deny := s.effect != AllowEffect;
            var says :=
              && ActionsSay(lib, s.action, s.notAction, q.action)
              && ResourcesSay(s.resource, s.notResource, q.resource, env, deny)
              && forall op, key | op in s.condition && key in s.condition[op] ::
                  BlockHolds(lib, Resolving(env), op, key, s.condition[op][key], q.keys, deny);
            if deny then Decide(lib, base, q) == Allow ==> (Decide(lib, base + [s], q) == Deny <==> says)
            else Decide(lib, [s], q) == Allow <==> says
  {
    hide PatternHolds, Matches, Tokens, Environment, SupportedCondition, BlockHolds, Decide;
    OneStatement(lib, s, q);
    if s.effect != AllowEffect && Decide(lib, base, q) == Allow {
      OneMoreStatement(lib, base, s, q);
    }
  }

  /** The four selectors of an unconditioned Allow, and of a Deny. */
  lemma FourSelectors(lib: Library, base: seq<Statement>, actions: seq<bytes>, resources: seq<bytes>, q: Request)
    requires actions != [] && resources != []
    ensures var env := Environment(q.keys);
            var act := exists p | p in actions :: Matches(Tokens(lib.lower(p), false), lib.lower(q.action));
            var res := exists p | p in resources :: PatternHolds(p, q.resource, env, false);
            var may := exists p | p in resources :: PatternHolds(p, q.resource, env, true);
            && (Decide(lib, [Plainly(AllowEffect, actions, [], resources, [], map[])], q) == Allow <==> act && res)
            && (Decide(lib, [Plainly(AllowEffect, [], actions, resources, [], map[])], q) == Allow <==> !act && res)
            && (Decide(lib, [Plainly(AllowEffect, actions, [], [], resources, map[])], q) == Allow <==> act && !may)
            && (Decide(lib, [Plainly(AllowEffect, [], actions, [], resources, map[])], q) == Allow <==> !act && !may)
            && (Decide(lib, base, q) == Allow ==>
                  && (Decide(lib, base + [Plainly(DenyEffect, actions, [], resources, [], map[])], q) == Deny <==> act && may)
                  && (Decide(lib, base + [Plainly(DenyEffect, [], actions, resources, [], map[])], q) == Deny <==> !act && may)
                  && (Decide(lib, base + [Plainly(DenyEffect, actions, [], [], resources, map[])], q) == Deny <==> act && !res)
                  && (Decide(lib, base + [Plainly(DenyEffect, [], actions, [], resources, map[])], q) == Deny <==> !act && !res))
  {
    hide PatternHolds, Matches, Tokens, Environment, SupportedCondition, BlockHolds, Decide;
    var none: ConditionBlock := map[];
    assert AllowEffect != DenyEffect;
    StatementDecides(lib, base, Plainly(AllowEffect, actions, [], resources, [], none), q);
    StatementDecides(lib, base, Plainly(AllowEffect, [], actions, resources, [], none), q);
    StatementDecides(lib, base, Plainly(AllowEffect, actions, [], [], resources, none), q);
    StatementDecides(lib, base, Plainly(AllowEffect, [], actions, [], resources, none), q);
    StatementDecides(lib, base, Plainly(DenyEffect, actions, [], resources, [], none), q);
    StatementDecides(lib, base, Plainly(DenyEffect, [], actions, resources, [], none), q);
    StatementDecides(lib, base, Plainly(DenyEffect, actions, [], [], resources, none), q);
    StatementDecides(lib, base, Plainly(DenyEffect, [], actions, [], resources, none), q);
  }

  /** A statement that cannot be enforced: both lists of a pair, a Principal, or a condition
      that is not supported. As an Allow it never allows; as anything else it denies whatever
      the lists of its well-formed pairs select, its conditions aside. */
  lemma UnenforceableDecides(lib: Library, base: seq<Statement>, s: Statement, q: Request)
    requires (s.action != [] && s.notAction != []) || (s.resource != [] && s.notResource != []) || s.principal ||
             exists op, key | op in s.condition && key in s.condition[op] :: !SupportedCondition(op, key)
    ensures s.effect == AllowEffect ==> Decide(lib, [s], q) == Deny
    ensures s.effect != AllowEffect && Decide(lib, base, q) == Allow ==>
              (Decide(lib, base + [s], q) == Deny <==>
               ((s.action != [] && s.notAction != []) || ActionsSay(lib, s.action, s.notAction, q.action)) &&
               ((s.resource != [] && s.notResource != []) ||
                ResourcesSay(s.resource, s.notResource, q.resource, Environment(q.keys), true)))
  {
    hide PatternHolds, Matches, Tokens, Environment, SupportedCondition, BlockHolds, Decide;
    OneStatement(lib, s, q);
    if s.effect != AllowEffect && Decide(lib, base, q) == Allow {
      OneMoreStatement(lib, base, s, q);
    }
  }

  // ----- Documents -----

  const HomePattern: bytes := "home/${aws:username}/*"
  const Home: bytes := "home/"
  const NewLanguage: bytes := "2012-10-17"

  lemma HomePatternSpelled()
    ensures HomePattern == Reference(Home, Username, ['/', '*'])
    ensures OpensNothing(Home) && !HasWildcard(Home)
  {
  }

  /** One document with one statement, that allows everything on the caller's own home. In
      the 2012 language it names the caller; in any other it is that very text. */
  lemma HomeDocument(lib: Library, policies: seq<PolicyDocument>, q: Request)
    requires lib.lower(['*']) == ['*'] && |policies| == 1
    requires policies[0].statements[..] == [Plainly(AllowEffect, [['*']], [], [HomePattern], [], map[])]
    ensures Decide(lib, Flatten(Documents(policies)), q) == Allow <==>
            if policies[0].version == NewLanguage
            then Username in q.keys && Home + q.keys[Username] + ['/'] <= q.resource
            else Home + ['$', '{'] + Username + ['}', '/'] <= q.resource
  {
    hide PatternHolds, Matches, Tokens, Environment, SupportedCondition, Flatten, Documents, Selects, HasWildcard;
    var s, d := Plainly(AllowEffect, [['*']], [], [HomePattern], [], map[]), policies[0];
    assert s in d.statements[..];
    DocumentsReadByVersion(lib, policies, q);
    assert forall e | e in policies :: e == d;
    assert SomeSelects(lib, policies, q, true) <==> Selects(lib, ReadingOf(d.version, q.keys), s, q);
    assert !SomeSelects(lib, policies, q, false);
    HomeSelects(lib, d.version, q);
  }

  lemma HomeSelects(lib: Library, version: bytes, q: Request)
    requires lib.lower(['*']) == ['*']
    ensures Selects(lib, ReadingOf(version, q.keys), Plainly(AllowEffect, [['*']], [], [HomePattern], [], map[]), q) <==>
            if version == NewLanguage
            then Username in q.keys && Home + q.keys[Username] + ['/'] <= q.resource
            else Home + ['$', '{'] + Username + ['}', '/'] <= q.resource
  {
    hide PatternHolds, Matches, Tokens, Environment, SupportedCondition, HasWildcard;
    HomePatternSpelled();
    StarSelects(lib.lower(q.action), map[], false);
    assert ['*'] in [['*']] && HomePattern in [HomePattern];
    HomeDirectory(Home, q.resource, q.keys, false);
    HomeText(q.resource);
  }

  lemma HomeText(value: bytes)
    ensures Matches(Tokens(HomePattern, false), value) <==> Home + ['$', '{'] + Username + ['}', '/'] <= value
  {
    hide Matches, Tokens, HasWildcard;
    var head := Home + ['$', '{'] + Username + ['}', '/'];
    HomeTextSpelled();
    StarMeans(head, [], value);
  }

  lemma HomeTextSpelled()
    ensures var head := Home + ['$', '{'] + Username + ['}', '/'];
            HomePattern == head + ['*'] + [] && !HasWildcard(head) && !HasWildcard([])
  {
  }
}
