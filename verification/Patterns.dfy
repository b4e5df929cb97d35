/** Matching one pattern, or any of several, against a request value:
    pkg/iampolicy/match.go:75-119. */
module Patterns {
  import opened Bytes
  import opened ContextKeys
  import opened Glob
  import opened Variables

  /** A pattern whose references resolve is matched by its meaning; one that carries a
      reference this context cannot resolve takes `failClosed`. */
  ghost predicate PatternHolds(pattern: bytes, value: bytes, env: Env, failClosed: bool) {
    if Resolvable(Parse(pattern), env) then Matches(Meaning(Parse(pattern), env), value) else failClosed
  }

  method MatchPattern(pattern: bytes, value: bytes, keys: ConditionKeys, failClosed: bool) returns (ok: bool)
    ensures ok <==> PatternHolds(pattern, value, Environment(keys), failClosed)
  {
    hide IndexOpenFrom, IndexByteFrom, Tokens, Matches, Expanded;
    var expanded, result := ExpandVariables(pattern, keys, true);
    match result
    case Literal =>
      assert pattern[0..] == pattern;
      ok := MatchWildcard(pattern, value);
    case Unresolvable =>
      ok := failClosed;
    case Resolved =>
      EscapedExpansionMeans(Parse(pattern), Environment(keys));
      ghost var steps;
      ok, steps := MatchGlob(expanded, value, true);
  }

  ghost predicate AnyResourceHolds(patterns: seq<bytes>, resource: bytes, env: Env, failClosed: bool) {
    exists p | p in patterns :: PatternHolds(p, resource, env, failClosed)
  }

  method MatchesAnyResource(patterns: seq<bytes>, resource: bytes, keys: ConditionKeys, failClosed: bool)
    returns (ok: bool)
    ensures ok <==> AnyResourceHolds(patterns, resource, Environment(keys), failClosed)
  {
    hide PatternHolds;
    for i := 0 to |patterns|
      invariant forall j | 0 <= j < i :: !PatternHolds(patterns[j], resource, Environment(keys), failClosed)
    {
      var hit := MatchPattern(patterns[i], resource, keys, failClosed);
      if hit {
        return true;
      }
    }
    return false;
  }

  /** Action patterns carry no references; both sides are lower-cased when case is ignored. */
  ghost predicate AnyHolds(lower: bytes -> bytes, patterns: seq<bytes>, value: bytes, caseInsensitive: bool) {
    exists p | p in patterns ::
      if caseInsensitive then Matches(Tokens(lower(p), false), lower(value))
      else Matches(Tokens(p, false), value)
  }

  method MatchesAny(lower: bytes -> bytes, patterns: seq<bytes>, value: bytes, caseInsensitive: bool) returns (ok: bool)
    ensures ok <==> AnyHolds(lower, patterns, value, caseInsensitive)
  {
    hide Matches, Tokens;
    var v := if caseInsensitive then lower(value) else value;
    for i := 0 to |patterns|
      invariant forall j | 0 <= j < i ::
                  !Matches(Tokens(if caseInsensitive then lower(patterns[j]) else patterns[j], false), v)
    {
      var p := if caseInsensitive then lower(patterns[i]) else patterns[i];
      var hit := MatchWildcard(p, v);
      if hit {
        return true;
      }
    }
    return false;
  }
}
