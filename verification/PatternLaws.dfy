/** Policy variables in a policy's own characters: what a string with references resolves to,
    what the write-path gate says of it and what it matches, part by part
    (pkg/iampolicy/variables.go and match.go). */
module PatternLaws {
  import opened Bytes
  import opened ContextKeys
  import opened Glob
  import opened Variables
  import opened Patterns

  /** Text in which no reference opens. */
  predicate OpensNothing(text: bytes) {
    forall k | 0 <= k < |text| - 1 :: !(text[k] == '$' && text[k + 1] == '{')
  }

  lemma OpensNothingIs(text: bytes)
    ensures OpensNothing(text) <==> IndexOpen(text) < 0
  {
    hide IndexOpenFrom;
    IndexOpenIsFirst(text, 0);
    if IndexOpen(text) >= 0 {
      assert OpensAt(text, IndexOpen(text));
    }
    if k :| 0 <= k < |text| - 1 && text[k] == '$' && text[k + 1] == '{' {
      assert OpensAt(text, k);
    }
  }

  const Username: bytes := "aws:username"
  const PrincipalAccount: bytes := "aws:PrincipalAccount"
  const UserID: bytes := "aws:userid"

  predicate NamesCaller(name: bytes) {
    name == Username || name == PrincipalAccount || name == UserID
  }

  predicate NamesCharacter(name: bytes) {
    name == ['*'] || name == ['?'] || name == ['$']
  }

  /** The names a reference may use: the caller's three keys and the three characters. */
  lemma KnownNames(name: bytes)
    ensures name in substitutableKeys <==> NamesCaller(name)
    ensures name in literalVariables <==> NamesCharacter(name)
    ensures name in literalVariables ==> literalVariables[name] == name
    ensures !(NamesCaller(name) && NamesCharacter(name))
  {
  }

  function Reference(text: bytes, name: bytes, more: bytes): bytes {
    text + ['$', '{'] + name + ['}'] + more
  }

  function Unclosed(text: bytes, rest: bytes): bytes {
    text + ['$', '{'] + rest
  }

  lemma ReferenceParses(text: bytes, name: bytes, more: bytes)
    requires OpensNothing(text) && '}' !in name
    ensures Parse(Reference(text, name, more)) == Ref(text, name, Parse(more))
  {
    OpensNothingIs(text);
    ParseRef(text, name, more);
  }

  lemma UnclosedParses(text: bytes, rest: bytes)
    requires OpensNothing(text) && '}' !in rest
    ensures Parse(Unclosed(text, rest)) == Template.Unclosed(text, rest)
  {
    OpensNothingIs(text);
    ParseIsUnique(Template.Unclosed(text, rest));
  }

  lemma TextParses(text: bytes)
    requires OpensNothing(text)
    ensures Parse(text) == End(text)
  {
    OpensNothingIs(text);
    assert text[0..] == text;
  }

  /** What the gate reports: nothing of text, what follows an opening never closed, the
      first name that is not known, and otherwise what it reports of the rest. */
  lemma GateByParts(text: bytes, name: bytes, more: bytes)
    requires OpensNothing(text) && '}' !in name
    ensures FirstFault(Parse(text)) == (NoBytes, VariableOK)
    ensures FirstFault(Parse(Unclosed(text, name))) == (name, VariableUnterminated)
    ensures FirstFault(Parse(Reference(text, name, more))) ==
            if NamesCaller(name) || NamesCharacter(name) then FirstFault(Parse(more)) else (name, VariableUnknownKey)
  {
    TextParses(text);
    UnclosedParses(text, name);
    ReferenceParses(text, name, more);
    KnownNames(name);
  }

  /** What a string resolves to: text to itself, a character's name to the character, a
      caller's key to its value in the context; anything else does not resolve. */
  lemma ResolvesByParts(text: bytes, name: bytes, more: bytes, keys: ConditionKeys)
    requires OpensNothing(text) && '}' !in name
    ensures var env := Environment(keys);
            && Resolvable(Parse(text), env) && Plain(Parse(text), env) == text
            && !Resolvable(Parse(Unclosed(text, name)), env)
            && (Resolvable(Parse(Reference(text, name, more)), env) <==>
                  (NamesCharacter(name) || (NamesCaller(name) && name in keys)) && Resolvable(Parse(more), env))
            && (Resolvable(Parse(Reference(text, name, more)), env) ==>
                  Plain(Parse(Reference(text, name, more)), env) ==
                  text + (if NamesCharacter(name) then name else keys[name]) + Plain(Parse(more), env))
  {
    hide ParseFrom;
    TextParses(text);
    UnclosedParses(text, name);
    ReferenceParses(text, name, more);
    KnownNames(name);
  }

  /** And what it asks for: the wildcards of its text, and its values' bytes as they are. */
  lemma AsksByParts(text: bytes, name: bytes, more: bytes, keys: ConditionKeys)
    requires OpensNothing(text) && '}' !in name && Resolvable(Parse(more), Environment(keys))
    requires NamesCharacter(name) || (NamesCaller(name) && name in keys)
    ensures Resolvable(Parse(text), Environment(keys))
    ensures Meaning(Parse(text), Environment(keys)) == Tokens(text, false)
    ensures Resolvable(Parse(Reference(text, name, more)), Environment(keys))
    ensures Meaning(Parse(Reference(text, name, more)), Environment(keys)) ==
            Tokens(text, false) + Literals(if NamesCharacter(name) then name else keys[name]) +
            Meaning(Parse(more), Environment(keys))
  {
    hide ParseFrom, Tokens, Literals;
    TextParses(text);
    ReferenceParses(text, name, more);
    KnownNames(name);
  }

  /** A name of a character matches that character and nothing else. */
  lemma CharacterMeansItself(c: byte, value: bytes, keys: ConditionKeys, failClosed: bool)
    requires c == '*' || c == '?' || c == '$'
    ensures PatternHolds(Reference([], [c], []), value, Environment(keys), failClosed) <==> value == [c]
  {
    hide ParseFrom, Matches;
    var s, env := Reference([], [c], []), Environment(keys);
    KnownNames([c]);
    ReferenceParses([], [c], []);
    TextParses([]);
    NoWildcardMeansEqual(Parse(s), env, value);
    assert Plain(Parse(s), env) == [c];
  }

  /** A home directory: text, the caller's name, a slash and anything. It matches what begins
      with the text, the very name, whatever it holds, and the slash; and without a name in
      the context it takes `failClosed`. */
  lemma HomeDirectory(text: bytes, value: bytes, keys: ConditionKeys, failClosed: bool)
    requires OpensNothing(text) && !HasWildcard(text)
    ensures PatternHolds(Reference(text, Username, ['/', '*']), value, Environment(keys), failClosed) <==>
            if Username in keys then text + keys[Username] + ['/'] <= value else failClosed
  {
    hide ParseFrom, Matches, HasWildcard, NamesCaller, NamesCharacter, Environment;
    var s, tail, env := Reference(text, Username, ['/', '*']), ['/', '*'], Environment(keys);
    assert NamesCaller(Username) && !NamesCharacter(Username) by {
      UsernameNamesCaller();
    }
    UsernameCloses();
    ResolvesByParts(text, Username, tail, keys);
    ResolvesByParts(tail, Username, tail, keys);
    if Username in keys {
      AsksByParts(text, Username, tail, keys);
      AsksByParts(tail, Username, tail, keys);
      HomeElements(text, keys[Username], value);
    }
  }

  lemma UsernameNamesCaller()
    ensures NamesCaller(Username) && !NamesCharacter(Username)
  {
    KnownNames(Username);
  }

  lemma UsernameCloses()
    ensures '}' !in Username
  {
  }

  lemma HomeElements(text: bytes, user: bytes, value: bytes)
    requires !HasWildcard(text)
    ensures Matches(Tokens(text, false) + Literals(user) + Tokens(['/', '*'], false), value) <==>
            text + user + ['/'] <= value
  {
    hide Matches, HasWildcard;
    var head := text + user + ['/'];
    PlainTokens(text);
    LiteralsConcat(text, user);
    LiteralsConcat(text + user, ['/']);
    assert Tokens(['/', '*'], false) == Literals(['/']) + [AnyRun] by {
      TokensPlainHead('/', ['*'], false);
      TokensPlainHead('*', [], false);
    }
    assert Literals(text) + Literals(user) + (Literals(['/']) + [AnyRun]) == Literals(head) + [AnyRun];
    LiteralPrefix(head, [AnyRun], value);
    assert [AnyRun] + Literals([]) == [AnyRun];
    if head <= value {
      RunThenLiteral([], value[|head|..]);
    }
  }
}
