/** Policy variables, pkg/iampolicy/variables.go: the one-pass expander, the write-path
    gate, and what a pattern carrying references means. */
module Variables {
  import opened Bytes
  import opened ContextKeys
  import opened Glob

  const VariablePrefix: bytes := "${"
  const Brace: bytes := "}"
  
  type Env = map<bytes, bytes>

  /** The context keys a reference may name. */
  const substitutableKeys: set<bytes> := {KeyUsername, KeyPrincipalAccount, KeyUserID}

  /** The escape forms: ${*}, ${?} and ${$} stand for the character itself. */
  const literalVariables: Env := map["*" := "*", "?" := "?", "$" := "$"]

  // ----- The structure of a string with references -----

  /** Ordinary text, then a closed reference and what follows it, or a reference that is
      never closed, or the end. */
  datatype Template =
    | End(text: bytes)
    | Unclosed(text: bytes, rest: bytes)
    | Ref(text: bytes, name: bytes, tail: Template)

  function ParseFrom(s: bytes, i: nat): (t: Template)
    requires i <= |s|
    decreases |s| - i
  {
    var open := IndexOpenFrom(s, i);
    if open < 0 then End(s[i..])
    else
      var end := IndexByteFrom(s, open + 2, '}');
      if end < 0 then Unclosed(s[i..open], s[open + 2..])
      else Ref(s[i..open], s[open + 2..end], ParseFrom(s, end + 1))
  }

  function Parse(s: bytes): Template {
    ParseFrom(s, 0)
  }

  function Unparse(t: Template): bytes {
    match t
    case End(text) => text
    case Unclosed(text, rest) => text + VariablePrefix + rest
    case Ref(text, name, tail) => text + VariablePrefix + name + Brace + Unparse(tail)
  }

  /** Text opens no reference, and the first "}" closes a reference. */
  ghost predicate Normal(t: Template) {
    IndexOpen(t.text) < 0 &&
    match t
    case End(_) => true
    case Unclosed(_, rest) => '}' !in rest
    case Ref(_, name, tail) => '}' !in name && Normal(tail)
  }

  lemma {:induction false} ParseIsInverse(s: bytes, i: nat)
    requires i <= |s|
    ensures Unparse(ParseFrom(s, i)) == s[i..] && Normal(ParseFrom(s, i))
    decreases |s| - i
  {
    hide IndexOpenFrom, IndexByteFrom;
    var open := IndexOpenFrom(s, i);
    if open < 0 {
      NoOpenWithin(s, i, |s|);
      assert s[i..|s|] == s[i..];
    } else {
      NoOpenWithin(s, i, open);
      SliceOpen(s, i, open);
      var end := IndexByteFrom(s, open + 2, '}');
      SliceClose(s, open + 2, end);
      if end >= 0 {
        ParseIsInverse(s, end + 1);
      }
    }
  }

  lemma SliceOpen(s: bytes, i: nat, open: nat)
    requires i <= |s| && IndexOpenFrom(s, i) == open
    ensures s[i..] == s[i..open] + VariablePrefix + s[open + 2..]
  {
    hide IndexOpenFrom;
    IndexOpenIsFirst(s, i);
    ThreeSlices(s, i, open, open + 2);
    OpenSlice(s, open);
  }

  lemma OpenSlice(s: bytes, open: nat)
    requires OpensAt(s, open)
    ensures s[open..open + 2] == VariablePrefix
  {
    assert s[open] == '$' && s[open + 1] == '{';
  }

  lemma ThreeSlices(s: bytes, i: nat, j: nat, k: nat)
    requires i <= j <= k <= |s|
    ensures s[i..] == s[i..j] + s[j..k] + s[k..]
  {
  }

  lemma SliceClose(s: bytes, i: nat, end: int)
    requires i <= |s| && IndexByteFrom(s, i, '}') == end
    ensures end >= 0 ==> s[i..] == s[i..end] + Brace + s[end + 1..] && '}' !in s[i..end]
    ensures end < 0 ==> '}' !in s[i..]
  {
    IndexByteIsFirst(s, i, '}');
    if end >= 0 {
      assert s[end..end + 1] == Brace;
    }
  }

  lemma NoOpenWithin(s: bytes, i: nat, j: nat)
    requires i <= j <= |s| && (IndexOpenFrom(s, i) < 0 || IndexOpenFrom(s, i) == j)
    ensures IndexOpen(s[i..j]) < 0
  {
    IndexOpenIsFirst(s, i);
    IndexOpenIsFirst(s[i..j], 0);
    var r := IndexOpen(s[i..j]);
    assert r >= 0 ==> OpensAt(s, i + r);
  }

  /** Text, a reference, and more: read from the front. */
  lemma ParseRef(text: bytes, name: bytes, more: bytes)
    requires IndexOpen(text) < 0 && '}' !in name
    ensures Parse(text + VariablePrefix + name + Brace + more) == Ref(text, name, Parse(more))
  {
    var p := text + VariablePrefix + name + Brace;
    var s := p + more;
    hide IndexOpenFrom, IndexByteFrom;
    OpenAfterText(text, s, name + Brace + more);
    CloseAfterName(text + VariablePrefix, name, more);
    ParseInSuffix(p, more, 0);
    assert s[..|text|] == text && s[|text| + 2..|text| + 2 + |name|] == name;
  }

  lemma CloseAfterName(head: bytes, name: bytes, more: bytes)
    requires '}' !in name
    ensures IndexByteFrom(head + name + Brace + more, |head|, '}') == |head + name|
  {
    hide IndexByteFrom;
    var s := head + name + Brace + more;
    assert s[|head + name|] == '}' && forall k | |head| <= k < |head + name| :: s[k] == name[k - |head|];
    IndexByteIsFirst(s, |head|, '}');
  }

  lemma OpenAfterText(text: bytes, s: bytes, rest: bytes)
    requires IndexOpen(text) < 0 && s == text + VariablePrefix + rest
    ensures IndexOpen(s) == |text|
  {
    assert OpensAt(s, |text|);
    IndexOpenIsFirst(s, 0);
    IndexOpenIsFirst(text, 0);
    var r := IndexOpen(s);
    assert r + 1 < |text| ==> OpensAt(text, r);
  }

  lemma {:induction false} ParseInSuffix(p: bytes, s: bytes, i: nat)
    requires i <= |s|
    ensures ParseFrom(p + s, |p| + i) == ParseFrom(s, i)
    decreases |s| - i
  {
    hide IndexOpenFrom, IndexByteFrom;
    OpenInSuffix(p, s, i);
    var open := IndexOpenFrom(s, i);
    if open < 0 {
      assert (p + s)[|p| + i..] == s[i..];
    } else {
      assert (p + s)[|p| + i..|p| + open] == s[i..open];
      IndexInSuffix(p, s, open + 2, '}');
      var end := IndexByteFrom(s, open + 2, '}');
      if end < 0 {
        assert (p + s)[|p| + open + 2..] == s[open + 2..];
      } else {
        assert (p + s)[|p| + open + 2..|p| + end] == s[open + 2..end];
        ParseInSuffix(p, s, end + 1);
      }
    }
  }

  /** There is only one way to read a string. */
  lemma {:induction false} ParseIsUnique(t: Template)
    requires Normal(t)
    ensures Parse(Unparse(t)) == t
    decreases t
  {
    match t
    case End(text) =>
      assert text[0..] == text;
    case Unclosed(text, rest) =>
      var s := Unparse(t);
      OpenAfterText(text, s, rest);
      assert forall k | |text| + 2 <= k < |s| :: s[k] == rest[k - |text| - 2];
      IndexByteIsFirst(s, |text| + 2, '}');
      assert s[..|text|] == text && s[|text| + 2..] == rest;
    case Ref(text, name, tail) =>
      ParseIsUnique(tail);
      ParseRef(text, name, Unparse(tail));
  }

  // ----- Resolution -----

  /** Everything a reference may stand for: the context's substitutable keys and the
      escape forms. */
  function Environment(keys: ConditionKeys): (env: Env) {
    (map k | k in keys && k in substitutableKeys :: keys[k]) + literalVariables
  }

  predicate Resolvable(t: Template, env: Env) {
    match t
    case End(_) => true
    case Unclosed(_, _) => false
    case Ref(_, name, tail) => name in env && Resolvable(tail, env)
  }

  /** What the pattern asks for: in text "*" and "?" are wildcards and a backslash is an
      ordinary byte; a substituted value is a run of literal bytes. */
  ghost function Meaning(t: Template, env: Env): seq<Elem>
    requires Resolvable(t, env)
  {
    match t
    case End(text) => Tokens(text, false)
    case Ref(text, name, tail) =>
      Tokens(text, false) + Literals(env[name]) + Meaning(tail, env)
  }

  function Escape(s: bytes, chars: bytes): bytes {
    if s == [] then []
    else EscapeByte(s[0], chars) + Escape(s[1..], chars)
  }

  function EscapeByte(c: byte, chars: bytes): bytes {
    if c in chars then [Backslash, c] else [c]
  }

  const escapesInText: bytes := "\\"
  const escapesInValue: bytes := "\\*?"

  /** The string the expander builds. */
  function Expanded(t: Template, env: Env, textChars: bytes, valueChars: bytes): bytes
    requires Resolvable(t, env)
  {
    match t
    case End(text) => Escape(text, textChars)
    case Ref(text, name, tail) =>
      Escape(text, textChars) + Escape(env[name], valueChars) +
      Expanded(tail, env, textChars, valueChars)
  }

  function Expansion(t: Template, env: Env, escapeMeta: bool): bytes
    requires Resolvable(t, env)
  {
    if escapeMeta then Expanded(t, env, escapesInText, escapesInValue) else Expanded(t, env, NoBytes, NoBytes)
  }

  /** The plain expansion, said without escaping. */
  function Plain(t: Template, env: Env): bytes
    requires Resolvable(t, env)
  {
    match t
    case End(text) => text
    case Ref(text, name, tail) => text + env[name] + Plain(tail, env)
  }

  lemma {:induction false} EscapeNothing(s: bytes, chars: bytes)
    requires forall i | 0 <= i < |s| :: s[i] !in chars
    ensures Escape(s, chars) == s
  {
    if s != [] {
      EscapeNothing(s[1..], chars);
    }
  }

  lemma {:induction false} UnescapedIsPlain(t: Template, env: Env)
    requires Resolvable(t, env)
    ensures Expansion(t, env, false) == Plain(t, env)
    decreases t
  {
    EscapeNothing(t.text, NoBytes);
    if t.Ref? {
      EscapeNothing(env[t.name], NoBytes);
      UnescapedIsPlain(t.tail, env);
    }
  }

  // ----- Substitution is literal -----

  /** One byte of the expander's output, read back. */
  lemma EscapedByteTokens(c: byte, chars: bytes, rest: bytes)
    requires Backslash in chars
    ensures Tokens(EscapeByte(c, chars) + rest, true) ==
            [if c in chars then Lit(c) else Classify(c)] + Tokens(rest, true)
  {
    if c in chars {
      BackslashMeans(c, rest);
    } else {
      TokensPlainHead(c, rest, true);
    }
  }

  /** Text comes back as it would read without escapes. */
  lemma {:induction false} EscapedTextTokens(text: bytes, rest: bytes)
    ensures Tokens(Escape(text, escapesInText) + rest, true) == Tokens(text, false) + Tokens(rest, true)
    decreases |text|
  {
    if text == [] {
      assert Escape(text, escapesInText) + rest == rest;
    } else {
      EscapedTextTokens(text[1..], rest);
      Assoc(EscapeByte(text[0], escapesInText), Escape(text[1..], escapesInText), rest);
      EscapedByteTokens(text[0], escapesInText, Escape(text[1..], escapesInText) + rest);
      Assoc([Classify(text[0])], Tokens(text[1..], false), Tokens(rest, true));
    }
  }

  /** A value comes back as literal bytes, whatever it holds. */
  lemma {:induction false} EscapedValueTokens(v: bytes, rest: bytes)
    ensures Tokens(Escape(v, escapesInValue) + rest, true) == Literals(v) + Tokens(rest, true)
    decreases |v|
  {
    if v == [] {
      assert Escape(v, escapesInValue) + rest == rest;
    } else {
      EscapedValueTokens(v[1..], rest);
      Assoc(EscapeByte(v[0], escapesInValue), Escape(v[1..], escapesInValue), rest);
      EscapedByteTokens(v[0], escapesInValue, Escape(v[1..], escapesInValue) + rest);
      assert Literals(v) == [Lit(v[0])] + Literals(v[1..]);
      Assoc([Lit(v[0])], Literals(v[1..]), Tokens(rest, true));
    }
  }

  /** The escaped expansion, read back with escapes, spells exactly the template's meaning. */
  lemma {:induction false} EscapedExpansionMeans(t: Template, env: Env)
    requires Resolvable(t, env)
    ensures Tokens(Expansion(t, env, true), true) == Meaning(t, env)
    decreases t
  {
    if t.End? {
      EscapedTextTokens(t.text, []);
      assert Escape(t.text, escapesInText) + [] == Escape(t.text, escapesInText);
    } else {
      var value, more := env[t.name], Expansion(t.tail, env, true);
      var text', value' := Escape(t.text, escapesInText), Escape(value, escapesInValue);
      EscapedExpansionMeans(t.tail, env);
      EscapedTextTokens(t.text, value' + more);
      EscapedValueTokens(value, more);
      Assoc(text', value', more);
      Assoc(Tokens(t.text, false), Literals(value), Meaning(t.tail, env));
    }
  }

  predicate TextHasWildcard(t: Template) {
    HasWildcard(t.text) || (t.Ref? && TextHasWildcard(t.tail))
  }

  /** With no wildcard in its text a pattern matches its plain expansion and nothing else. */
  lemma {:induction false} NoWildcardMeansEqual(t: Template, env: Env, value: bytes)
    requires Resolvable(t, env) && !TextHasWildcard(t)
    ensures Matches(Meaning(t, env), value) <==> value == Plain(t, env)
  {
    MeaningIsLiteral(t, env);
    LiteralsMatchThemselves(Plain(t, env), value);
  }

  lemma LiteralsConcat(a: bytes, b: bytes)
    ensures Literals(a + b) == Literals(a) + Literals(b)
  {
  }

  lemma {:induction false} MeaningIsLiteral(t: Template, env: Env)
    requires Resolvable(t, env) && !TextHasWildcard(t)
    ensures Meaning(t, env) == Literals(Plain(t, env))
    decreases t
  {
    PlainTokens(t.text);
    if t.Ref? {
      MeaningIsLiteral(t.tail, env);
      var value := env[t.name];
      LiteralsConcat(t.text, value);
      LiteralsConcat(t.text + value, Plain(t.tail, env));
    }
  }

  /** Every element is its own literal byte or a wildcard standing in its place. */
  ghost predicate Spells(es: seq<Elem>, s: bytes) {
    |es| == |s| && forall i | 0 <= i < |s| :: es[i] == Lit(s[i]) || es[i] == Classify(s[i])
  }

  lemma {:induction false} SpellsMatches(es: seq<Elem>, s: bytes)
    requires Spells(es, s)
    ensures Matches(es, s)
    decreases |s|
  {
    if s != [] {
      assert Spells(es[1..], s[1..]);
      SpellsMatches(es[1..], s[1..]);
      if es[0] == AnyRun {
        RunTakes(es, s, 1);
      }
    }
  }

  lemma {:induction false} TokensSpell(s: bytes)
    ensures Spells(Tokens(s, false), s)
  {
    if s != [] {
      TokensSpell(s[1..]);
    }
  }

  lemma {:induction false} MeaningSpells(t: Template, env: Env)
    requires Resolvable(t, env)
    ensures Spells(Meaning(t, env), Plain(t, env))
    decreases t
  {
    TokensSpell(t.text);
    if t.Ref? {
      MeaningSpells(t.tail, env);
    }
  }

  /** A pattern always matches its own plain expansion. */
  lemma MatchesOwnExpansion(t: Template, env: Env)
    requires Resolvable(t, env)
    ensures Matches(Meaning(t, env), Plain(t, env))
  {
    MeaningSpells(t, env);
    SpellsMatches(Meaning(t, env), Plain(t, env));
  }

  // ----- The write-path gate -----

  datatype Fault = VariableOK | VariableUnknownKey | VariableUnterminated

  /** The first reference no context could resolve. */
  function FirstFault(t: Template): (bytes, Fault) {
    match t
    case End(_) => (NoBytes, VariableOK)
    case Unclosed(_, rest) => (rest, VariableUnterminated)
    case Ref(_, name, tail) =>
      if name !in literalVariables && name !in substitutableKeys then (name, VariableUnknownKey)
      else FirstFault(tail)
  }

  /** The context keys a string's references ask for. */
  function Needs(t: Template): set<bytes> {
    if !t.Ref? then {}
    else Needs(t.tail) + (if t.name in literalVariables then {} else {t.name})
  }

  /** The gate and the evaluator agree: a string resolves exactly when the gate finds no
      fault and every key it names is present. */
  lemma {:induction false} GateAgrees(t: Template, keys: ConditionKeys)
    ensures Resolvable(t, Environment(keys)) <==> FirstFault(t).1 == VariableOK && Needs(t) <= keys.Keys
    ensures FirstFault(t).1 == VariableOK ==> Needs(t) <= substitutableKeys
    decreases t
  {
    if t.Ref? {
      GateAgrees(t.tail, keys);
    }
  }

  /** With every substitutable key present the gate and the evaluator give one verdict; a
      string the gate passes can only fail to resolve for a key that is absent. */
  lemma GateDecides(s: bytes, keys: ConditionKeys)
    ensures substitutableKeys <= keys.Keys ==>
              (Verdict(s, Environment(keys)) == Unresolvable <==> FirstFault(Parse(s)).1 != VariableOK)
    ensures FirstFault(Parse(s)).1 == VariableOK && Verdict(s, Environment(keys)) == Unresolvable ==>
              exists k :: k in Needs(Parse(s)) && k !in keys
  {
    GateAgrees(Parse(s), keys);
  }

  method UnresolvableVariable(s: bytes) returns (key: bytes, fault: Fault)
    ensures (key, fault) == FirstFault(Parse(s))
  {
    hide IndexOpenFrom, IndexByteFrom;
    var i := 0;
    while i < |s|
      invariant 0 <= i <= |s|
      invariant FirstFault(Parse(s)) == FirstFault(ParseFrom(s, i))
      decreases |s| - i
    {
      var open := IndexOpenFrom(s, i);
      if open < 0 {
        return NoBytes, VariableOK;
      }
      i := open + 2;
      var end := IndexByteFrom(s, i, '}');
      if end < 0 {
        return s[i..], VariableUnterminated;
      }
      var name := s[i..end];
      if name !in literalVariables && name !in substitutableKeys {
        return name, VariableUnknownKey;
      }
      i := end + 1;
    }
    return NoBytes, VariableOK;
  }

  // ----- The expander -----

  /** The part of Go's strings.Builder the expander uses. */
  class Builder {
    var buf: bytes

    constructor ()
      ensures buf == []
    {
      buf := [];
    }

    method WriteString(s: bytes)
      modifies this
      ensures buf == old(buf) + s
    {
      buf := buf + s;
    }

    method WriteByte(c: byte)
      modifies this
      ensures buf == old(buf) + [c]
    {
      buf := buf + [c];
    }
  }

  method WriteEscaped(b: Builder, s: bytes, chars: bytes)
    modifies b
    ensures b.buf == old(b.buf) + Escape(s, chars)
  {
    if forall i | 0 <= i < |s| :: s[i] !in chars {
      EscapeNothing(s, chars);
      b.WriteString(s);
      return;
    }
    ghost var start := b.buf;
    assert s[0..] == s;
    for i := 0 to |s|
      invariant start + Escape(s, chars) == b.buf + Escape(s[i..], chars)
    {
      assert s[i..][1..] == s[i + 1..];
      if s[i] in chars {
        b.WriteByte(Backslash);
      }
      b.WriteByte(s[i]);
    }
  }

  datatype ExpansionResult = Resolved | Literal | Unresolvable

  function Verdict(s: bytes, env: Env): ExpansionResult {
    if IndexOpen(s) < 0 then Literal else if Resolvable(Parse(s), env) then Resolved else Unresolvable
  }

  /** The expander's invariant: what is built so far and what is left to expand make up
      the whole expansion. */
  ghost predicate Building(whole: Template, left: Template, env: Env,
                           textChars: bytes, valueChars: bytes, built: bytes) {
    && (Resolvable(whole, env) <==> Resolvable(left, env))
    && (Resolvable(whole, env) ==>
          Expanded(whole, env, textChars, valueChars) == built + Expanded(left, env, textChars, valueChars))
  }

  lemma BuildReference(whole: Template, left: Template, env: Env,
                       textChars: bytes, valueChars: bytes, built: bytes, value: bytes)
    requires Building(whole, left, env, textChars, valueChars, built)
    requires left.Ref? && left.name in env && env[left.name] == value
    ensures Building(whole, left.tail, env, textChars, valueChars,
                     built + Escape(left.text, textChars) + Escape(value, valueChars))
  {
    if Resolvable(left.tail, env) {
      var text', value' := Escape(left.text, textChars), Escape(value, valueChars);
      var more := Expanded(left.tail, env, textChars, valueChars);
      Assoc(built, text', value');
      Assoc(built, text' + value', more);
    }
  }

  lemma BuildStarts(whole: Template, env: Env, textChars: bytes, valueChars: bytes)
    ensures Building(whole, whole, env, textChars, valueChars, NoBytes)
  {
  }

  lemma BuildEnds(whole: Template, left: Template, env: Env, textChars: bytes, valueChars: bytes, built: bytes)
    requires Building(whole, left, env, textChars, valueChars, built) && left.End?
    ensures Resolvable(whole, env)
    ensures Expanded(whole, env, textChars, valueChars) == built + Escape(left.text, textChars)
  {
  }

  lemma BuildFails(whole: Template, left: Template, env: Env, textChars: bytes, valueChars: bytes, built: bytes)
    requires Building(whole, left, env, textChars, valueChars, built)
    requires left.Unclosed? || (left.Ref? && left.name !in env)
    ensures !Resolvable(whole, env)
  {
  }

  lemma NothingLeft(s: bytes, env: Env, textChars: bytes, valueChars: bytes)
    ensures ParseFrom(s, |s|).End? && Escape(ParseFrom(s, |s|).text, textChars) == NoBytes
  {
  }

  method ExpandVariables(s: bytes, keys: ConditionKeys, escapeMeta: bool)
    returns (out: bytes, result: ExpansionResult)
    ensures result == Verdict(s, Environment(keys))
    ensures result == Literal ==> out == s
    ensures result == Resolved ==> out == Expansion(Parse(s), Environment(keys), escapeMeta)
    ensures result == Unresolvable ==> out == NoBytes
  {
    hide IndexOpenFrom, IndexByteFrom, Escape, Building, Resolvable, Expanded;
    if IndexOpen(s) < 0 {
      return s, Literal;
    }
    var textChars := if escapeMeta then escapesInText else NoBytes;
    var valueChars := if escapeMeta then escapesInValue else NoBytes;
    ghost var env := Environment(keys);
    var b := new Builder();
    var i := 0;
    ghost var left := Parse(s);
    BuildStarts(left, env, textChars, valueChars);
    while i < |s|
      invariant 0 <= i <= |s| && left == ParseFrom(s, i)
      invariant Building(Parse(s), left, env, textChars, valueChars, b.buf)
      decreases |s| - i
    {
      ghost var before := b.buf;
      var open := IndexOpenFrom(s, i);
      if open < 0 {
        BuildEnds(Parse(s), left, env, textChars, valueChars, before);
        WriteEscaped(b, s[i..], textChars);
        return b.buf, Resolved;
      }
      WriteEscaped(b, s[i..open], textChars);
      i := open + 2;
      var end := IndexByteFrom(s, i, '}');
      if end < 0 {
        BuildFails(Parse(s), left, env, textChars, valueChars, before);
        return NoBytes, Unresolvable;
      }
      var name := s[i..end];
      i := end + 1;
      var value: bytes;
      if name in literalVariables {
        value := literalVariables[name];
      } else {
        if name !in substitutableKeys || name !in keys {
          BuildFails(Parse(s), left, env, textChars, valueChars, before);
          return NoBytes, Unresolvable;
        }
        value := keys[name];
      }
      BuildReference(Parse(s), left, env, textChars, valueChars, before, value);
      left := left.tail;
      WriteEscaped(b, value, valueChars);
    }
    NothingLeft(s, env, textChars, valueChars);
    BuildEnds(Parse(s), left, env, textChars, valueChars, b.buf);
    return b.buf, Resolved;
  }
}
