/** ARN patterns, pkg/iampolicy/match.go:121-175: splitting around references and matching
    component by component. */
module Arn {
  import opened Bytes
  import opened ContextKeys
  import opened Glob
  import opened Variables
  import opened Patterns

  const arnComponents: nat := 6

  /** First colon at or after `i` that is not inside a reference, or -1. */
  function FirstColonFrom(s: bytes, i: nat): (r: int)
    requires i <= |s|
    ensures r == -1 || i <= r < |s|
    decreases |s| - i, 1
  {
    var open, colon := IndexOpenFrom(s, i), IndexByteFrom(s, i, ':');
    if colon >= 0 && (open < 0 || colon < open) then colon
    else if open < 0 then -1
    else FirstColonInside(s, open + 2)
  }

  /** The same, starting inside a reference. */
  function FirstColonInside(s: bytes, i: nat): (r: int)
    requires i <= |s|
    ensures r == -1 || i <= r < |s|
    decreases |s| - i, 2
  {
    var end := IndexByteFrom(s, i, '}');
    if end < 0 then -1 else FirstColonFrom(s, end + 1)
  }

  /** `n` splits at such colons; the last part runs to the end. */
  function SplitFrom(s: bytes, i: nat, n: nat): (r: Option<seq<bytes>>)
    requires i <= |s|
    ensures r.Some? ==> |r.value| == n + 1
    decreases n
  {
    if n == 0 then Some([s[i..]])
    else
      var c := FirstColonFrom(s, i);
      if c < 0 then None else Prepend([s[i..c]], SplitFrom(s, c + 1, n - 1))
  }

  function Prepend(parts: seq<bytes>, r: Option<seq<bytes>>): Option<seq<bytes>> {
    if r.None? then None else Some(parts + r.value)
  }

  // ----- The scanner -----

  lemma SkipText(s: bytes, i: nat)
    requires i < |s| && !OpensAt(s, i) && s[i] != ':'
    ensures FirstColonFrom(s, i) == FirstColonFrom(s, i + 1)
  {
  }

  lemma EnterReference(s: bytes, i: nat)
    requires OpensAt(s, i)
    ensures FirstColonFrom(s, i) == FirstColonInside(s, i + 2)
  {
    assert IndexOpenFrom(s, i) == i;
    assert IndexByteFrom(s, i, ':') == IndexByteFrom(s, i + 1, ':');
  }

  method SplitARN(s: bytes) returns (r: Option<seq<bytes>>)
    ensures r == SplitFrom(s, 0, arnComponents - 1)
  {
    hide IndexOpenFrom, IndexByteFrom;
    var parts: seq<bytes> := [];
    var start, inVariable := 0, false;
    var i := 0;
    Regroup([], [], SplitFrom(s, 0, arnComponents - 1));
    while i < |s| && |parts| < arnComponents - 1
      invariant 0 <= start <= i <= |s| && |parts| <= arnComponents - 1
      invariant FirstColonFrom(s, start) == if inVariable then FirstColonInside(s, i) else FirstColonFrom(s, i)
      invariant SplitFrom(s, 0, arnComponents - 1) ==
                Prepend(parts, SplitFrom(s, start, arnComponents - 1 - |parts|))
      decreases |s| - i
    {
      ScanByte(s, i);
      if OpensAt(s, i) {
        inVariable := true;
        i := i + 1;
      } else if inVariable && s[i] == '}' {
        inVariable := false;
      } else if !inVariable && s[i] == ':' {
        Regroup(parts, s[start..i], SplitFrom(s, i + 1, arnComponents - 2 - |parts|));
        parts := parts + [s[start..i]];
        start := i + 1;
      }
      i := i + 1;
    }
    if |parts| < arnComponents - 1 {
      NoColonAtEnd(s);
      return None;
    }
    return Some(parts + [s[start..]]);
  }

  lemma Regroup(parts: seq<bytes>, p: bytes, r: Option<seq<bytes>>)
    ensures Prepend(parts, Prepend([p], r)) == Prepend(parts + [p], r)
    ensures Prepend([], r) == r
  {
    if r.Some? {
      assert [] + r.value == r.value;
      assert parts + ([p] + r.value) == parts + [p] + r.value;
    }
  }

  lemma NoColonAtEnd(s: bytes)
    ensures FirstColonFrom(s, |s|) == -1 && FirstColonInside(s, |s|) == -1
  {
  }

  /** What reading one byte does to the search, in text and inside a reference. */
  lemma ScanByte(s: bytes, i: nat)
    requires i < |s|
    ensures OpensAt(s, i) ==>
              FirstColonFrom(s, i) == FirstColonInside(s, i + 2) && FirstColonInside(s, i) == FirstColonInside(s, i + 2)
    ensures !OpensAt(s, i) && s[i] == ':' ==> FirstColonFrom(s, i) == i
    ensures !OpensAt(s, i) && s[i] != ':' ==> FirstColonFrom(s, i) == FirstColonFrom(s, i + 1)
    ensures s[i] == '}' ==> FirstColonInside(s, i) == FirstColonFrom(s, i + 1)
    ensures s[i] != '}' ==> FirstColonInside(s, i) == FirstColonInside(s, i + 1)
  {
    if OpensAt(s, i) {
      EnterReference(s, i);
      assert IndexByteFrom(s, i, '}') == IndexByteFrom(s, i + 1, '}');
    } else if s[i] != ':' {
      SkipText(s, i);
    }
  }

  // ----- The scanner and the expander agree -----

  /** `t` reads as `a`, a literal colon, then `b`: it resolves when both do, and its
      meaning and its expansion are theirs around a colon. */
  ghost predicate Joined(t: Template, a: Template, b: Template, env: Env, textChars: bytes, valueChars: bytes) {
    && (Resolvable(t, env) <==> Resolvable(a, env) && Resolvable(b, env))
    && (Resolvable(t, env) ==>
          && Meaning(t, env) == Meaning(a, env) + [Lit(':')] + Meaning(b, env)
          && Expanded(t, env, textChars, valueChars) ==
             Expanded(a, env, textChars, valueChars) + [':'] + Expanded(b, env, textChars, valueChars))
  }

  lemma {:induction false} TokensAroundColon(x: bytes, y: bytes)
    ensures Tokens(x + [':'] + y, false) == Tokens(x, false) + [Lit(':')] + Tokens(y, false)
  {
    if x == [] {
      assert x + [':'] + y == [':'] + y;
      TokensPlainHead(':', y, false);
    } else {
      TokensAroundColon(x[1..], y);
      assert x + [':'] + y == [x[0]] + (x[1..] + [':'] + y);
      TokensPlainHead(x[0], x[1..] + [':'] + y, false);
    }
  }

  lemma {:induction false} EscapeAroundColon(x: bytes, y: bytes, chars: bytes)
    requires ':' !in chars
    ensures Escape(x + [':'] + y, chars) == Escape(x, chars) + [':'] + Escape(y, chars)
  {
    if x == [] {
      var s := [':'] + y;
      assert x + [':'] + y == s && s[1..] == y;
    } else {
      EscapeAroundColon(x[1..], y, chars);
      var s := x + [':'] + y;
      assert s[1..] == x[1..] + [':'] + y;
      Assoc(EscapeByte(x[0], chars), Escape(x[1..], chars), [':']);
      Assoc(EscapeByte(x[0], chars), Escape(x[1..], chars) + [':'], Escape(y, chars));
    }
  }

  function WithText(t: Template, text: bytes): Template {
    t.(text := text)
  }

  lemma JoinedInText(t: Template, x: bytes, y: bytes, env: Env, textChars: bytes, valueChars: bytes)
    requires t.text == x + [':'] + y && ':' !in textChars
    ensures Joined(t, End(x), WithText(t, y), env, textChars, valueChars)
  {
    hide Tokens, Escape;
    if Resolvable(t, env) {
      TokensAroundColon(x, y);
      EscapeAroundColon(x, y, textChars);
    }
  }

  lemma JoinedAfterReference(text: bytes, name: bytes, t: Template, a: Template, b: Template,
                             env: Env, textChars: bytes, valueChars: bytes)
    requires Joined(t, a, b, env, textChars, valueChars)
    ensures Joined(Ref(text, name, t), Ref(text, name, a), b, env, textChars, valueChars)
  {
    hide Tokens, Escape;
    if Resolvable(t, env) && name in env {
      Around(Tokens(text, false) + Literals(env[name]), Meaning(a, env), Lit(':'), Meaning(b, env));
      Around(Escape(text, textChars) + Escape(env[name], valueChars),
             Expanded(a, env, textChars, valueChars), ':', Expanded(b, env, textChars, valueChars));
    }
  }

  lemma Around<T>(p: seq<T>, a: seq<T>, c: T, b: seq<T>)
    ensures p + (a + [c] + b) == (p + a) + [c] + b
  {
  }

  lemma ColonCutsText(s: bytes, i: nat, c: nat, env: Env, textChars: bytes, valueChars: bytes)
    requires i <= c < |s| && s[c] == ':' && (IndexOpenFrom(s, i) < 0 || c < IndexOpenFrom(s, i)) && ':' !in textChars
    ensures Joined(ParseFrom(s, i), Parse(s[i..c]), ParseFrom(s, c + 1), env, textChars, valueChars)
  {
    hide IndexOpenFrom, IndexByteFrom, Joined;
    var open := IndexOpenFrom(s, i);
    var stop := if open < 0 then |s| else open;
    OpenPastColon(s, i, c);
    assert s[i..stop] == s[i..c] + [':'] + s[c + 1..stop];
    JoinedInText(ParseFrom(s, i), s[i..c], s[c + 1..stop], env, textChars, valueChars);
    assert s[i..|s|] == s[i..] && s[c + 1..|s|] == s[c + 1..];
    assert ParseFrom(s, c + 1) == WithText(ParseFrom(s, i), s[c + 1..stop]);
  }

  /** Cutting at the first free colon cuts the template in two. */
  lemma {:induction false} ColonCutsTemplate(s: bytes, i: nat, env: Env, textChars: bytes, valueChars: bytes)
    requires i <= |s| && FirstColonFrom(s, i) >= 0 && ':' !in textChars
    ensures var c := FirstColonFrom(s, i);
            Joined(ParseFrom(s, i), Parse(s[i..c]), ParseFrom(s, c + 1), env, textChars, valueChars)
    decreases |s| - i
  {
    hide IndexOpenFrom, IndexByteFrom, Joined;
    var c := FirstColonFrom(s, i);
    var open := IndexOpenFrom(s, i);
    IndexByteIsFirst(s, i, ':');
    if open < 0 || c < open {
      ColonCutsText(s, i, c, env, textChars, valueChars);
    } else {
      var end := IndexByteFrom(s, open + 2, '}');
      ColonCutsTemplate(s, end + 1, env, textChars, valueChars);
      var text, name, more := s[i..open], s[open + 2..end], s[end + 1..c];
      NoOpenWithin(s, i, open);
      SliceReference(s, i, open, end, c);
      ParseRef(text, name, more);
      JoinedAfterReference(text, name, ParseFrom(s, end + 1), Parse(more), ParseFrom(s, c + 1),
                           env, textChars, valueChars);
    }
  }

  lemma SliceReference(s: bytes, i: nat, open: nat, end: nat, c: nat)
    requires i <= |s| && IndexOpenFrom(s, i) == open && IndexByteFrom(s, open + 2, '}') == end < c <= |s|
    ensures s[i..c] == s[i..open] + VariablePrefix + s[open + 2..end] + Brace + s[end + 1..c]
    ensures '}' !in s[open + 2..end]
  {
    hide IndexOpenFrom, IndexByteFrom;
    IndexOpenIsFirst(s, i);
    IndexByteIsFirst(s, open + 2, '}');
    assert s[open..open + 2] == ['$', '{'];
    assert s[end..end + 1] == ['}'];
  }

  lemma OpenPastColon(s: bytes, i: nat, c: nat)
    requires i <= c < |s| && s[c] == ':' && (IndexOpenFrom(s, i) < 0 || c < IndexOpenFrom(s, i))
    ensures IndexOpenFrom(s, c + 1) == IndexOpenFrom(s, i)
    ensures Parse(s[i..c]) == End(s[i..c])
  {
    hide IndexOpenFrom, IndexByteFrom;
    IndexOpenIsFirst(s, i);
    IndexOpenIsFirst(s, c + 1);
    IndexOpenIsFirst(s[i..c], 0);
    var r := IndexOpen(s[i..c]);
    assert r >= 0 ==> OpensAt(s, i + r);
    assert s[i..c][0..] == s[i..c];
  }

  ghost function JoinBytes(parts: seq<bytes>): bytes
    requires parts != []
  {
    if |parts| == 1 then parts[0] else parts[0] + [':'] + JoinBytes(parts[1..])
  }

  ghost predicate AllResolvable(parts: seq<bytes>, env: Env) {
    forall p | p in parts :: Resolvable(Parse(p), env)
  }

  ghost function JoinMeanings(parts: seq<bytes>, env: Env): seq<Elem>
    requires parts != [] && AllResolvable(parts, env)
  {
    var head := Meaning(Parse(parts[0]), env);
    if |parts| == 1 then head else head + [Lit(':')] + JoinMeanings(parts[1..], env)
  }

  ghost function JoinExpansions(parts: seq<bytes>, env: Env, escapeMeta: bool): bytes
    requires parts != [] && AllResolvable(parts, env)
  {
    var head := Expansion(Parse(parts[0]), env, escapeMeta);
    if |parts| == 1 then head else head + [':'] + JoinExpansions(parts[1..], env, escapeMeta)
  }

  lemma {:induction false} SplitRejoins(s: bytes, i: nat, n: nat)
    requires i <= |s| && SplitFrom(s, i, n).Some?
    ensures JoinBytes(SplitFrom(s, i, n).value) == s[i..]
    decreases n
  {
    hide IndexOpenFrom, IndexByteFrom;
    if n > 0 {
      var c := FirstColonFrom(s, i);
      SplitRejoins(s, c + 1, n - 1);
      FirstColonIsColon(s, i);
      var rest := SplitFrom(s, c + 1, n - 1).value;
      assert ([s[i..c]] + rest)[1..] == rest;
    }
  }

  lemma {:induction false} FirstColonIsColon(s: bytes, i: nat)
    requires i <= |s| && FirstColonFrom(s, i) >= 0
    ensures s[FirstColonFrom(s, i)] == ':'
    decreases |s| - i
  {
    hide IndexOpenFrom, IndexByteFrom;
    IndexByteIsFirst(s, i, ':');
    var open := IndexOpenFrom(s, i);
    if open >= 0 && FirstColonFrom(s, i) != IndexByteFrom(s, i, ':') {
      FirstColonIsColon(s, IndexByteFrom(s, open + 2, '}') + 1);
    }
  }

  /** A pattern resolves exactly when all its components do, and then the whole is its
      components around colons, in meaning and in expansion. */
  lemma {:induction false} SplitAgreesWithExpansion(s: bytes, i: nat, n: nat, env: Env, escapeMeta: bool)
    requires i <= |s| && SplitFrom(s, i, n).Some?
    ensures var t, parts := ParseFrom(s, i), SplitFrom(s, i, n).value;
            && (Resolvable(t, env) <==> AllResolvable(parts, env))
            && (Resolvable(t, env) ==>
                  && Meaning(t, env) == JoinMeanings(parts, env)
                  && Expansion(t, env, escapeMeta) == JoinExpansions(parts, env, escapeMeta))
    decreases n
  {
    hide ParseFrom, FirstColonFrom, Meaning, Expanded, Resolvable;
    var parts := SplitFrom(s, i, n).value;
    if n == 0 {
      WholeSuffix(s, i);
    } else {
      var c := FirstColonFrom(s, i);
      var textChars := if escapeMeta then escapesInText else NoBytes;
      var valueChars := if escapeMeta then escapesInValue else NoBytes;
      ColonCutsTemplate(s, i, env, textChars, valueChars);
      SplitAgreesWithExpansion(s, c + 1, n - 1, env, escapeMeta);
      var rest := SplitFrom(s, c + 1, n - 1).value;
      assert parts == [s[i..c]] + rest && parts[1..] == rest;
      assert AllResolvable(parts, env) <==> Resolvable(Parse(parts[0]), env) && AllResolvable(rest, env);
    }
  }

  lemma WholeSuffix(s: bytes, i: nat)
    requires i <= |s|
    ensures Parse(s[i..]) == ParseFrom(s, i)
  {
    assert s[..i] + s[i..] == s;
    ParseInSuffix(s[..i], s[i..], 0);
  }

  // ----- Request values: a plain split -----

  function PlainSplitFrom(v: bytes, i: nat, n: nat): (r: Option<seq<bytes>>)
    requires i <= |v|
    ensures r.Some? ==> |r.value| == n + 1
    decreases n
  {
    if n == 0 then Some([v[i..]])
    else
      var c := IndexByteFrom(v, i, ':');
      if c < 0 then None else Prepend([v[i..c]], PlainSplitFrom(v, c + 1, n - 1))
  }

  lemma {:induction false} PlainSplitRejoins(v: bytes, i: nat, n: nat)
    requires i <= |v| && PlainSplitFrom(v, i, n).Some?
    ensures var parts := PlainSplitFrom(v, i, n).value;
            JoinBytes(parts) == v[i..] && forall k | 0 <= k < n :: ':' !in parts[k]
    decreases n
  {
    hide IndexByteFrom;
    if n > 0 {
      var c := IndexByteFrom(v, i, ':');
      IndexByteIsFirst(v, i, ':');
      PlainSplitRejoins(v, c + 1, n - 1);
      var rest := PlainSplitFrom(v, c + 1, n - 1).value;
      assert ([v[i..c]] + rest)[1..] == rest;
    }
  }

  // ----- matchARN -----

  /** The components of an ARN value; one that is not an ARN has none. */
  function ValueParts(value: bytes): Option<seq<bytes>> {
    PlainSplitFrom(value, 0, arnComponents - 1)
  }

  function PatternParts(pattern: bytes): Option<seq<bytes>> {
    SplitFrom(pattern, 0, arnComponents - 1)
  }

  ghost predicate ComponentsHold(ps: seq<bytes>, vs: seq<bytes>, env: Env, failClosed: bool)
    requires |ps| == |vs|
  {
    forall i | 0 <= i < |ps| :: PatternHolds(ps[i], vs[i], env, failClosed)
  }

  ghost predicate ArnHolds(pattern: bytes, value: bytes, env: Env, failClosed: bool) {
    if !Resolvable(Parse(pattern), env) then failClosed
    else if PatternParts(pattern).None? then false
    else if ValueParts(value).None? then failClosed
    else ComponentsHold(PatternParts(pattern).value, ValueParts(value).value, env, failClosed)
  }

  method MatchARN(pattern: bytes, value: bytes, keys: ConditionKeys, failClosed: bool) returns (ok: bool)
    ensures ok <==> ArnHolds(pattern, value, Environment(keys), failClosed)
  {
    hide ParseFrom, SplitFrom, PlainSplitFrom, PatternHolds, IndexOpenFrom, Expanded;
    var expanded, result := ExpandVariables(pattern, keys, true);
    if result == Unresolvable {
      return failClosed;
    }
    assert Resolvable(Parse(pattern), Environment(keys)) by {
      if result == Literal {
        NoReferenceResolves(pattern, Environment(keys));
      }
    }
    var patternParts := SplitARN(pattern);
    if patternParts.None? {
      return false;
    }
    var valueParts := ValueParts(value);
    if valueParts.None? {
      return failClosed;
    }
    for i := 0 to |patternParts.value|
      invariant forall j | 0 <= j < i ::
                  PatternHolds(patternParts.value[j], valueParts.value[j], Environment(keys), failClosed)
    {
      var hit := MatchPattern(patternParts.value[i], valueParts.value[i], keys, failClosed);
      if !hit {
        return false;
      }
    }
    return true;
  }

  lemma NoReferenceResolves(s: bytes, env: Env)
    requires IndexOpen(s) < 0
    ensures Resolvable(Parse(s), env)
  {
  }

  /** On a six-part value a resolvable pattern does not consult `failClosed`: it matches
      when each component's meaning matches the component between the value's own first
      five colons. */
  lemma ArnMeans(pattern: bytes, value: bytes, env: Env, failClosed: bool)
    requires Resolvable(Parse(pattern), env)
    requires PatternParts(pattern).Some? && ValueParts(value).Some?
    ensures AllResolvable(PatternParts(pattern).value, env)
    ensures ArnHolds(pattern, value, env, failClosed) <==>
            forall i | 0 <= i < arnComponents ::
              Matches(Meaning(Parse(PatternParts(pattern).value[i]), env), ValueParts(value).value[i])
  {
    hide ParseFrom, SplitFrom, PlainSplitFrom, Meaning, Resolvable, Matches;
    SplitAgreesWithExpansion(pattern, 0, arnComponents - 1, env, true);
    var ps := PatternParts(pattern).value;
    assert forall i | 0 <= i < arnComponents :: ps[i] in ps;
  }

  lemma {:induction false} LiteralNeedsByte(es: seq<Elem>, v: bytes, c: byte)
    requires Lit(c) in es && c !in v
    ensures !Matches(es, v)
    decreases |es| + |v|
  {
    if es[0] == Lit(c) {
    } else {
      assert Lit(c) in es[1..];
      if v != [] {
        LiteralNeedsByte(es[1..], v[1..], c);
        LiteralNeedsByte(es, v[1..], c);
      }
      LiteralNeedsByte(es[1..], v, c);
    }
  }

  /** A component whose references resolve and that asks for a literal colon. */
  ghost predicate AsksForColon(part: bytes, env: Env) {
    Resolvable(Parse(part), env) && Lit(':') in Meaning(Parse(part), env)
  }

  /** A colon substituted into one of the first five components cannot become a boundary:
      such a pattern matches no ARN. */
  lemma SubstitutedColonNeverMatches(pattern: bytes, value: bytes, env: Env, k: nat)
    requires Resolvable(Parse(pattern), env) && k < arnComponents - 1
    requires PatternParts(pattern).Some? && ValueParts(value).Some?
    requires AsksForColon(PatternParts(pattern).value[k], env)
    ensures !ArnHolds(pattern, value, env, true) && !ArnHolds(pattern, value, env, false)
  {
    hide ArnHolds, Matches, Meaning, Parse, ValueParts, PatternParts;
    ArnMeans(pattern, value, env, true);
    ArnMeans(pattern, value, env, false);
    ValuePartsFree(value);
    PatternPartsSix(pattern);
    LiteralNeedsByte(Meaning(Parse(PatternParts(pattern).value[k]), env), ValueParts(value).value[k], ':');
  }

  lemma PatternPartsSix(pattern: bytes)
    requires PatternParts(pattern).Some?
    ensures |PatternParts(pattern).value| == arnComponents
  {
  }

  lemma ValuePartsFree(value: bytes)
    requires ValueParts(value).Some?
    ensures |ValueParts(value).value| == arnComponents
    ensures JoinBytes(ValueParts(value).value) == value
    ensures forall k | 0 <= k < arnComponents - 1 :: ':' !in ValueParts(value).value[k]
  {
    PlainSplitRejoins(value, 0, arnComponents - 1);
    assert value[0..] == value;
  }

  lemma {:induction false} MatchesConcat(a: seq<Elem>, x: bytes, b: seq<Elem>, y: bytes)
    requires Matches(a, x) && Matches(b, y)
    ensures Matches(a + b, x + y)
    decreases |a| + |x|
  {
    if a == [] {
      assert a + b == b && x + y == y;
    } else {
      var whole := a + b;
      assert whole[1..] == a[1..] + b;
      if x != [] {
        assert (x + y)[1..] == x[1..] + y;
      }
      if a[0] == AnyRun && Matches(a[1..], x) {
        MatchesConcat(a[1..], x, b, y);
      } else if a[0] == AnyRun {
        MatchesConcat(a, x[1..], b, y);
      } else {
        MatchesConcat(a[1..], x[1..], b, y);
      }
    }
  }

  lemma {:induction false} JoinedMatches(ps: seq<bytes>, vs: seq<bytes>, env: Env)
    requires |ps| == |vs| && ps != [] && AllResolvable(ps, env)
    requires forall i | 0 <= i < |ps| :: Matches(Meaning(Parse(ps[i]), env), vs[i])
    ensures Matches(JoinMeanings(ps, env), JoinBytes(vs))
    decreases |ps|
  {
    hide Meaning, Parse;
    if |ps| > 1 {
      var head := Meaning(Parse(ps[0]), env);
      assert forall i | 0 <= i < |ps| - 1 :: ps[1..][i] == ps[i + 1] && vs[1..][i] == vs[i + 1];
      JoinedMatches(ps[1..], vs[1..], env);
      LiteralsMatchThemselves([':'], [':']);
      assert Literals([':']) == [Lit(':')];
      MatchesConcat(head, vs[0], [Lit(':')], [':']);
      MatchesConcat(head + [Lit(':')], vs[0] + [':'], JoinMeanings(ps[1..], env), JoinBytes(vs[1..]));
    }
  }

  /** Component matching only narrows: what it accepts, plain wildcard matching of the
      whole string accepts too. */
  lemma ArnMatchIsGlobMatch(pattern: bytes, value: bytes, env: Env, failClosed: bool)
    requires Resolvable(Parse(pattern), env)
    requires ValueParts(value).Some? && ArnHolds(pattern, value, env, failClosed)
    ensures PatternHolds(pattern, value, env, failClosed)
  {
    hide Matches, Meaning, Parse, ParseFrom, ValueParts, SplitFrom;
    var ps, vs := PatternParts(pattern).value, ValueParts(value).value;
    ArnMeans(pattern, value, env, failClosed);
    ValuePartsFree(value);
    PatternPartsSix(pattern);
    JoinedMatches(ps, vs, env);
    SplitAgreesWithExpansion(pattern, 0, arnComponents - 1, env, true);
    assert Parse(pattern) == ParseFrom(pattern, 0) by {
      WholeIsFromStart(pattern);
    }
  }

  lemma WholeIsFromStart(s: bytes)
    ensures Parse(s) == ParseFrom(s, 0)
  {
  }
}
