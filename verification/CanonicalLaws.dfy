/** The canonical request in its own characters: the order of its parts, how a byte is
    encoded, and the whole string of a small request (pkg/sigv4/verify.go). */
module CanonicalLaws {
  import opened Bytes
  import opened Canonical

  // ----- Order -----

  /** Pairs ascend by raw key and then by raw value, and names ascend: before comes what is a
      proper prefix or has the smaller byte at the first difference. */
  lemma ArrangedAscending(r: Request, ps: seq<Pair>, names: seq<bytes>, i: nat, j: nat)
    requires Arranges(r, ps, names) && i < j
    ensures j < |ps| ==>
              Below(ps[i].key, ps[j].key) || (ps[i].key == ps[j].key && !Below(ps[j].value, ps[i].value))
    ensures j < |names| ==> Below(names[i], names[j])
  {
    hide Below, Compare, Enumerates;
    if j < |ps| {
      PairAscends(ps[i], ps[j]);
    }
    if j < |names| {
      assert NamesInOrder(names[i], names[j]);
      NamesDiffer(names, r.signedHeaders, i, j);
      CompareZero(names[i], names[j]);
      CompareIsLexical(names[i], names[j]);
    }
  }

  lemma PairAscends(a: Pair, b: Pair)
    requires PairsInOrder(a, b)
    ensures Below(a.key, b.key) || (a.key == b.key && !Below(b.value, a.value))
  {
    hide Below, Compare;
    CompareZero(a.key, b.key);
    CompareIsLexical(a.key, b.key);
    CompareFlips(a.value, b.value);
    CompareIsLexical(b.value, a.value);
  }

  lemma NamesDiffer(names: seq<bytes>, from: set<bytes>, i: nat, j: nat)
    requires multiset(names) == multiset(from) && i < j < |names|
    ensures names[i] != names[j]
  {
    if names[i] == names[j] {
      CountedTwice(names, i, j);
    }
  }

  lemma CountedTwice(names: seq<bytes>, i: nat, j: nat)
    requires i < j < |names| && names[i] == names[j]
    ensures multiset(names)[names[i]] >= 2
  {
    assert names == names[..j] + [names[j]] + names[j + 1..];
    assert names[..j][i] == names[i];
    assert multiset(names) == multiset(names[..j]) + multiset{names[j]} + multiset(names[j + 1..]);
    assert multiset(names[..j])[names[i]] >= 1;
  }

  // ----- Encoding -----

  const HexDigits: bytes := "0123456789ABCDEF"

  /** A letter, a digit, "-", ".", "_" or "~" stands for itself, and any other byte for "%"
      and its two hexadecimal digits in upper case. */
  lemma ByteIsEncoded(c: byte, rest: bytes)
    ensures EscapePath([c] + rest) ==
            (if 'A' <= c <= 'Z' || 'a' <= c <= 'z' || '0' <= c <= '9' || c == '-' || c == '.' || c == '_' || c == '~'
             then [c] else ['%', HexDigits[c as int / 16], HexDigits[c as int % 16]]) + EscapePath(rest)
    ensures EscapePath([]) == []
  {
    assert ([c] + rest)[1..] == rest;
    HexDigitSpelled(c as int / 16);
    HexDigitSpelled(c as int % 16);
  }

  lemma HexDigitSpelled(n: int)
    requires 0 <= n < 16
    ensures HexDigit(n) == HexDigits[n]
  {
    var low, high: bytes := "01234567", "89ABCDEF";
    assert HexDigits == low + high;
  }

  // ----- A small request, spelled out -----

  const SessionName: bytes := "x-amz-security-token"
  const MaskText: bytes := "<redacted>"

  lemma SessionNameFolds()
    ensures IsSession(SessionName) && redactedValue == MaskText
  {
    hide FoldToAscii;
    PlainFolds(SessionName);
  }

  lemma {:induction false} PlainFolds(s: bytes)
    requires forall i | 0 <= i < |s| :: s[i] == '-' || 'a' <= s[i] <= 'z'
    ensures FoldToAscii(s) == s
  {
    if s != [] {
      PlainFolds(s[1..]);
      assert LongS[0] > 'z' && Kelvin[0] > 'z';
      assert s == [s[0]] + s[1..];
    }
  }

  /** One query value and one signed header: method, path, query, header, an empty line, the
      header's name and the content hash, each on its line. The session token is masked in
      both places when redacting, and nothing else is. */
  lemma SmallRequest(r: Request, redact: bool, key: bytes, value: bytes, name: bytes, out: bytes)
    requires r.query == map[key := [value]] && r.signedHeaders == {name} && IsCanonical(r, redact, out)
    ensures var shown := if redact && IsSession(key) then MaskText else EscapePath(value);
            var header := if redact && IsSession(name) then MaskText else if name in r.headers then r.headers[name] else [];
            var path := if r.uri == [] then ['/'] else r.uri;
            out == r.verb + ['\n'] + (path + ['\n'] + ((EscapePath(key) + ['='] + shown) + ['\n'] +
                   ((name + [':'] + header) + ['\n'] + (['\n'] + (name + ['\n'] + r.contentHash)))))
  {
    hide IsSession, EscapePath, Sorted;
    var ps, names :| Arranges(r, ps, names) && out == Render(r, ps, names, redact);
    OnePair(ps, r.query, key, value);
    OneName(names, name);
    RenderIsLines(r, ps, names, redact);
    OnePairLine(key, value, redact);
    OneHeaderLine(r, name, redact);
    var a, b, c, d := r.verb, PathOf(r), QueryLine(ps, redact), HeaderLine(r, name, redact);
    assert Join([name], ';') == name;
    assert HeaderLines(r, [name], redact) == [d];
    assert Lines(r, ps, names, redact) == [a, b, c, d, [], name, r.contentHash];
    JoinSeven(a, b, c, d, name, r.contentHash);
  }

  lemma JoinSeven(a: bytes, b: bytes, c: bytes, d: bytes, e: bytes, f: bytes)
    ensures Join([a, b, c, d, [], e, f], '\n') ==
            a + ['\n'] + (b + ['\n'] + (c + ['\n'] + (d + ['\n'] + (['\n'] + (e + ['\n'] + f)))))
  {
    hide Join;
    JoinLast(f);
    JoinOne(e, [f]);
    JoinOne([], [e] + [f]);
    JoinThree(b, c, d, [[]] + ([e] + [f]));
    JoinOne(a, [b, c, d] + ([[]] + ([e] + [f])));
    assert [a] + ([b, c, d] + ([[]] + ([e] + [f]))) == [a, b, c, d, [], e, f];
    assert [] + ['\n'] + Join([e] + [f], '\n') == ['\n'] + Join([e] + [f], '\n');
  }

  lemma JoinLast(f: bytes)
    ensures Join([f], '\n') == f
  {
  }

  lemma OnePair(ps: seq<Pair>, query: Query, key: bytes, value: bytes)
    requires Enumerates(ps, query) && query == map[key := [value]]
    ensures ps == [Pair(key, value)]
  {
    var one := [Pair(key, value)];
    assert one[..0] == [];
    assert ValuesOf([], key) == [];
    forall k ensures multiset(ValuesOf(ps, k)) == multiset(ValuesOf(one, k)) {
      assert ValuesOf(one, k) == QueryValues(query, k);
    }
    SameQuerySamePairs(ps, one);
    SameOne(ps, Pair(key, value));
  }

  lemma SameOne<T>(xs: seq<T>, x: T)
    requires multiset(xs) == multiset([x])
    ensures xs == [x]
  {
    assert |multiset(xs)| == |xs| && |multiset([x])| == 1;
    assert xs[0] in multiset([x]);
  }

  lemma OneName(names: seq<bytes>, name: bytes)
    requires multiset(names) == multiset({name})
    ensures names == [name]
  {
    assert multiset({name}) == multiset([name]);
    SameOne(names, name);
  }

  lemma OnePairLine(key: bytes, value: bytes, redact: bool)
    ensures QueryLine([Pair(key, value)], redact) ==
            EscapePath(key) + ['='] + (if redact && IsSession(key) then MaskText else EscapePath(value))
  {
    hide IsSession, EscapePath;
    SessionNameFolds();
    assert RenderPairs([Pair(key, value)], redact) == [RenderPair(Pair(key, value), redact)];
  }

  lemma OneHeaderLine(r: Request, name: bytes, redact: bool)
    ensures HeaderLine(r, name, redact) ==
            name + [':'] + (if redact && IsSession(name) then MaskText else if name in r.headers then r.headers[name] else [])
  {
    hide IsSession;
    SessionNameFolds();
  }

  lemma {:induction false} FoldsByByte(s: bytes)
    requires forall i | 0 <= i < |s| :: s[i] as int < 0x80
    ensures |FoldToAscii(s)| == |s|
    ensures forall i | 0 <= i < |s| ::
              FoldToAscii(s)[i] as int == if 'A' <= s[i] <= 'Z' then s[i] as int + 32 else s[i] as int
  {
    if s != [] {
      FoldsByByte(s[1..]);
      assert LongS[0] as int >= 0x80 && Kelvin[0] as int >= 0x80;
    }
  }

  /** An ASCII name is the session token's when it spells it in any case; and the long s and
      the Kelvin sign spell its "s" and "k". */
  lemma SessionNames(name: bytes, rest: bytes)
    ensures (forall i | 0 <= i < |name| :: name[i] as int < 0x80) ==>
              (IsSession(name) <==>
               |name| == |SessionName| &&
               forall i | 0 <= i < |name| ::
                 name[i] == SessionName[i] || ('A' <= name[i] <= 'Z' && name[i] as int + 32 == SessionName[i] as int))
    ensures FoldToAscii([0xC5 as char, 0xBF as char] + rest) == ['s'] + FoldToAscii(rest)
    ensures FoldToAscii([0xE2 as char, 0x84 as char, 0xAA as char] + rest) == ['k'] + FoldToAscii(rest)
  {
    assert ([0xC5 as char, 0xBF as char] + rest)[2..] == rest;
    assert ([0xE2 as char, 0x84 as char, 0xAA as char] + rest)[3..] == rest;
    hide FoldToAscii;
    if forall i | 0 <= i < |name| :: name[i] as int < 0x80 {
      FoldsByByte(name);
      NoCapitals();
    }
  }

  lemma NoCapitals()
    ensures SessionName == amzSessionName
    ensures forall i | 0 <= i < |SessionName| :: !('A' <= SessionName[i] <= 'Z')
  {
  }
}
