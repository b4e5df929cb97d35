/** The wildcard matcher of pkg/iampolicy/match.go: the greedy scan with one
    backtrack point, proved equal to the exponential-choice meaning of a pattern. */
module Glob {
  import opened Bytes

  const Backslash: byte := '\\'

  /** One pattern element: a literal byte, "?" or "*". */
  datatype Elem = Lit(b: byte) | AnyOne | AnyRun

  function Classify(c: byte): Elem {
    if c == '*' then AnyRun else if c == '?' then AnyOne else Lit(c)
  }

  /** The elements a pattern spells. With `escapes`, a backslash makes the next
      byte literal; a trailing backslash is an ordinary literal. */
  ghost function Tokens(pattern: bytes, escapes: bool): seq<Elem> {
    if pattern == [] then []
    else if escapes && pattern[0] == '\\' && |pattern| > 1 then
      [Lit(pattern[1])] + Tokens(pattern[2..], escapes)
    else [Classify(pattern[0])] + Tokens(pattern[1..], escapes)
  }

  /** The meaning of an element list: "*" may stop here or take one byte more. */
  ghost predicate Matches(es: seq<Elem>, v: bytes)
    decreases |es| + |v|
  {
    if es == [] then v == []
    else match es[0]
      case AnyRun => Matches(es[1..], v) || (v != [] && Matches(es, v[1..]))
      case AnyOne => v != [] && Matches(es[1..], v[1..])
      case Lit(b) => v != [] && v[0] == b && Matches(es[1..], v[1..])
  }

  // ----- The same relation said without recursion on the pattern -----

  ghost predicate Fits(e: Elem, part: bytes) {
    match e
    case AnyRun => true
    case AnyOne => |part| == 1
    case Lit(b) => part == [b]
  }

  ghost function Concat(parts: seq<bytes>): bytes {
    if parts == [] then [] else parts[0] + Concat(parts[1..])
  }

  /** `v` cuts into one piece per element, each of the shape its element asks for. */
  ghost predicate CutsInto(es: seq<Elem>, v: bytes, parts: seq<bytes>) {
    |parts| == |es| && Concat(parts) == v && forall i | 0 <= i < |es| :: Fits(es[i], parts[i])
  }

  lemma {:induction false} MatchesIffCut(es: seq<Elem>, v: bytes)
    ensures Matches(es, v) <==> exists parts :: CutsInto(es, v, parts)
  {
    if Matches(es, v) {
      var parts := CutOf(es, v);
    }
    forall parts | CutsInto(es, v, parts) ensures Matches(es, v) {
      MatchesFromCut(es, v, parts);
    }
  }

  lemma {:induction false} CutOf(es: seq<Elem>, v: bytes) returns (parts: seq<bytes>)
    requires Matches(es, v)
    ensures CutsInto(es, v, parts)
    decreases |es| + |v|
  {
    if es == [] {
      parts := [];
    } else if es[0] == AnyRun && !Matches(es[1..], v) {
      var more := CutOf(es, v[1..]);
      parts := [[v[0]] + more[0]] + more[1..];
      assert parts[1..] == more[1..] && v == [v[0]] + v[1..];
    } else {
      var k := if es[0] == AnyRun then 0 else 1;
      assert v == v[..k] + v[k..];
      assert k == 0 ==> v[k..] == v;
      var rest := CutOf(es[1..], v[k..]);
      parts := [v[..k]] + rest;
      assert parts[1..] == rest;
    }
  }

  lemma {:induction false} MatchesFromCut(es: seq<Elem>, v: bytes, parts: seq<bytes>)
    requires CutsInto(es, v, parts)
    ensures Matches(es, v)
    decreases |es|
  {
    if es != [] {
      var k := |parts[0]|;
      assert v[k..] == Concat(parts[1..]);
      assert v[..k] == parts[0];
      forall i | 0 <= i < |es| - 1 ensures Fits(es[1..][i], parts[1..][i]) {
        assert Fits(es[i + 1], parts[i + 1]);
      }
      MatchesFromCut(es[1..], v[k..], parts[1..]);
      assert Fits(es[0], parts[0]);
      if es[0] == AnyRun {
        RunTakes(es, v, k);
      }
    }
  }

  /** "*" may take any number of bytes. */
  lemma {:induction false} RunTakes(es: seq<Elem>, w: bytes, k: nat)
    requires es != [] && es[0] == AnyRun && k <= |w|
    requires Matches(es[1..], w[k..]) || Matches(es, w[k..])
    ensures Matches(es, w)
    decreases k
  {
    if k == 0 {
      assert w[0..] == w;
    } else {
      assert w[1..][k - 1..] == w[k..];
      RunTakes(es, w[1..], k - 1);
    }
  }

  // ----- The scan: one backtrack point is enough -----

  /** A decoded pattern element: its byte, whether it is a metacharacter, its width. */
  datatype Decoded = Decoded(b: byte, meta: bool, width: nat) {
    predicate IsRun() { meta && b == '*' }
    predicate Takes(c: byte) { width > 0 && !IsRun() && (meta || b == c) }
    function Elem(): Elem { if meta then Classify(b) else Lit(b) }
  }

  /** The pattern element at `p`; width zero means the pattern is exhausted. */
  function Token(pattern: bytes, p: nat, escapes: bool): (t: Decoded)
    requires p <= |pattern|
    ensures p + t.width <= |pattern| && (t.width == 0 <==> p == |pattern|)
    ensures t.meta ==> t.width == 1 && (t.b == '*' || t.b == '?')
  {
    if p >= |pattern| then Decoded('\0', false, 0)
    else if escapes && pattern[p] == '\\' && p + 1 < |pattern| then Decoded(pattern[p + 1], false, 2)
    else Decoded(pattern[p], pattern[p] == '*' || pattern[p] == '?', 1)
  }

  /** The meaning of a pattern once more, by positions: the pattern from `p` matches the
      value from `v`. */
  ghost predicate MatchesAt(pattern: bytes, escapes: bool, p: nat, value: bytes, v: nat)
    requires p <= |pattern| && v <= |value|
    decreases |pattern| - p + |value| - v
  {
    var t := Token(pattern, p, escapes);
    if p == |pattern| then v == |value|
    else if t.IsRun() then
      MatchesAt(pattern, escapes, p + 1, value, v) ||
      (v < |value| && MatchesAt(pattern, escapes, p, value, v + 1))
    else v < |value| && t.Takes(value[v]) && MatchesAt(pattern, escapes, p + t.width, value, v + 1)
  }

  lemma {:induction false} PositionsAgree(pattern: bytes, escapes: bool, p: nat, value: bytes, v: nat)
    requires p <= |pattern| && v <= |value|
    ensures MatchesAt(pattern, escapes, p, value, v) <==> Matches(Tokens(pattern[p..], escapes), value[v..])
    decreases |pattern| - p + |value| - v
  {
    if p < |pattern| {
      var t := Token(pattern, p, escapes);
      var es := Tokens(pattern[p..], escapes);
      assert pattern[p..][t.width..] == pattern[p + t.width..];
      assert es == [t.Elem()] + Tokens(pattern[p + t.width..], escapes);
      assert es[1..] == Tokens(pattern[p + t.width..], escapes);
      if v < |value| {
        assert value[v..][1..] == value[v + 1..];
        PositionsAgree(pattern, escapes, p + t.width, value, v + 1);
        PositionsAgree(pattern, escapes, p, value, v + 1);
      }
      PositionsAgree(pattern, escapes, p + t.width, value, v);
    }
  }

  /** `n` elements, none of them "*", lead from position `q` to position `p`. */
  ghost predicate Passed(pattern: bytes, escapes: bool, q: nat, p: nat, n: nat)
    requires q <= |pattern|
    decreases n
  {
    if n == 0 then q == p
    else
      var t := Token(pattern, q, escapes);
      t.width > 0 && !t.IsRun() && Passed(pattern, escapes, q + t.width, p, n - 1)
  }

  lemma {:induction false} PassOneMore(pattern: bytes, escapes: bool, q: nat, p: nat, n: nat)
    requires q <= |pattern| && p < |pattern| && Passed(pattern, escapes, q, p, n)
    requires !Token(pattern, p, escapes).IsRun()
    ensures Passed(pattern, escapes, q, p + Token(pattern, p, escapes).width, n + 1)
    decreases n
  {
    if n > 0 {
      PassOneMore(pattern, escapes, q + Token(pattern, q, escapes).width, p, n - 1);
    }
  }

  /** Elements with no "*" use up exactly one byte each. */
  lemma {:induction false} PassedConsume(pattern: bytes, escapes: bool, q: nat, p: nat, n: nat, value: bytes, v: nat)
    requires q <= |pattern| && p <= |pattern| && v <= |value| && Passed(pattern, escapes, q, p, n)
    requires MatchesAt(pattern, escapes, q, value, v)
    ensures v + n <= |value| && MatchesAt(pattern, escapes, p, value, v + n)
    decreases n
  {
    if n > 0 {
      PassedConsume(pattern, escapes, q + Token(pattern, q, escapes).width, p, n - 1, value, v + 1);
    }
  }

  /** Whatever a retry of the "*" at `star` matches, the elements already passed after it
      use `n` bytes of it, and the rest of the pattern matches further on. */
  lemma {:induction false} RetryLeaves(
      pattern: bytes, escapes: bool, star: nat, p: nat, n: nat, value: bytes, v: nat) returns (u: nat)
    requires star < |pattern| && Token(pattern, star, escapes).IsRun() && p <= |pattern| && v <= |value|
    requires Passed(pattern, escapes, star + 1, p, n) && MatchesAt(pattern, escapes, star, value, v)
    ensures v + n <= u <= |value| && MatchesAt(pattern, escapes, p, value, u)
    decreases |value| - v
  {
    if MatchesAt(pattern, escapes, star + 1, value, v) {
      PassedConsume(pattern, escapes, star + 1, p, n, value, v);
      u := v + n;
    } else {
      u := RetryLeaves(pattern, escapes, star, p, n, value, v + 1);
    }
  }

  lemma {:induction false} RunAbsorbs(pattern: bytes, escapes: bool, p: nat, value: bytes, v: nat, u: nat)
    requires p < |pattern| && Token(pattern, p, escapes).IsRun() && v <= u <= |value|
    requires MatchesAt(pattern, escapes, p, value, u)
    ensures MatchesAt(pattern, escapes, p, value, v)
    decreases u - v
  {
    if v < u {
      RunAbsorbs(pattern, escapes, p, value, v + 1, u);
    }
  }

  /** Where the scan stands: pattern and value positions, the latest "*" (or -1) and the
      value position its run is taken to end at. */
  datatype Cursor = Cursor(p: int, v: int, star: int, starV: int)

  /** The scan's invariant: whether the whole pattern matches is settled by what is left
      at the cursor, or by retrying the latest "*" one byte or more further along. */
  ghost predicate Live(pattern: bytes, value: bytes, escapes: bool, c: Cursor) {
    && 0 <= c.p <= |pattern| && -1 <= c.star < |pattern| && 0 <= c.starV <= c.v <= |value|
    && (c.star >= 0 ==>
          Token(pattern, c.star, escapes).IsRun() &&
          Passed(pattern, escapes, c.star + 1, c.p, c.v - c.starV))
    && (MatchesAt(pattern, escapes, 0, value, 0) <==>
        MatchesAt(pattern, escapes, c.p, value, c.v) || Retry(pattern, value, escapes, c))
  }

  ghost predicate Retry(pattern: bytes, value: bytes, escapes: bool, c: Cursor)
    requires c.star < |pattern| && 0 <= c.starV
  {
    c.star >= 0 && c.starV < |value| && MatchesAt(pattern, escapes, c.star, value, c.starV + 1)
  }

  lemma ScanStar(pattern: bytes, value: bytes, escapes: bool, c: Cursor)
    requires Live(pattern, value, escapes, c) && c.v < |value| && Token(pattern, c.p, escapes).IsRun()
    ensures Live(pattern, value, escapes, Cursor(c.p + 1, c.v, c.p, c.v))
  {
    if Retry(pattern, value, escapes, c) {
      var u := RetryLeaves(pattern, escapes, c.star, c.p, c.v - c.starV, value, c.starV + 1);
      RunAbsorbs(pattern, escapes, c.p, value, c.v, u);
    }
  }

  lemma ScanAdvance(pattern: bytes, value: bytes, escapes: bool, c: Cursor)
    requires Live(pattern, value, escapes, c) && c.v < |value| && Token(pattern, c.p, escapes).Takes(value[c.v])
    ensures Live(pattern, value, escapes, c.(p := c.p + Token(pattern, c.p, escapes).width, v := c.v + 1))
  {
    if c.star >= 0 {
      PassOneMore(pattern, escapes, c.star + 1, c.p, c.v - c.starV);
    }
  }

  lemma ScanRetry(pattern: bytes, value: bytes, escapes: bool, c: Cursor)
    requires Live(pattern, value, escapes, c) && c.v < |value|
    requires !Token(pattern, c.p, escapes).IsRun() && !Token(pattern, c.p, escapes).Takes(value[c.v])
    ensures if c.star >= 0 then Live(pattern, value, escapes, Cursor(c.star + 1, c.starV + 1, c.star, c.starV + 1))
            else !MatchesAt(pattern, escapes, 0, value, 0)
  {
  }

  lemma ScanEnd(pattern: bytes, value: bytes, escapes: bool, c: Cursor)
    requires Live(pattern, value, escapes, c) && c.v == |value|
    ensures MatchesAt(pattern, escapes, 0, value, 0) <==> MatchesAt(pattern, escapes, c.p, value, |value|)
  {
    if Retry(pattern, value, escapes, c) {
      var u := RetryLeaves(pattern, escapes, c.star, c.p, c.v - c.starV, value, c.starV + 1);
      assert false;
    }
  }

  /** The scan's closing loop: with the value used up, only "*" may be left. */
  method OnlyStarsFrom(pattern: bytes, start: nat, escapes: bool, ghost value: bytes) returns (ok: bool)
    requires start <= |pattern|
    ensures ok <==> MatchesAt(pattern, escapes, start, value, |value|)
  {
    var p := start;
    while true
      invariant start <= p <= |pattern|
      invariant MatchesAt(pattern, escapes, start, value, |value|) <==> MatchesAt(pattern, escapes, p, value, |value|)
      decreases |pattern| - p
    {
      var t := Token(pattern, p, escapes);
      if !t.meta || t.b != '*' {
        break;
      }
      p := p + t.width;
    }
    ok := p == |pattern|;
  }

  lemma WholeAgrees(pattern: bytes, escapes: bool, value: bytes)
    ensures MatchesAt(pattern, escapes, 0, value, 0) <==> Matches(Tokens(pattern, escapes), value)
  {
    assert pattern[0..] == pattern && value[0..] == value;
    PositionsAgree(pattern, escapes, 0, value, 0);
  }

  /** One turn of the main loop; None when the scan gives up. */
  function Turn(pattern: bytes, value: bytes, escapes: bool, c: Cursor): Option<Cursor>
    requires 0 <= c.p <= |pattern| && 0 <= c.v < |value|
  {
    var t := Token(pattern, c.p, escapes);
    if t.IsRun() then Some(Cursor(c.p + t.width, c.v, c.p, c.v))
    else if t.Takes(value[c.v]) then Some(Cursor(c.p + t.width, c.v + 1, c.star, c.starV))
    else if c.star >= 0 then Some(Cursor(c.star + 1, c.starV + 1, c.star, c.starV + 1))
    else None
  }

  lemma TurnKeeps(pattern: bytes, value: bytes, escapes: bool, c: Cursor)
    requires Live(pattern, value, escapes, c) && c.v < |value|
    ensures var r := Turn(pattern, value, escapes, c);
            if r.Some? then Live(pattern, value, escapes, r.value)
            else !MatchesAt(pattern, escapes, 0, value, 0)
  {
    var t := Token(pattern, c.p, escapes);
    if t.IsRun() {
      ScanStar(pattern, value, escapes, c);
    } else if t.Takes(value[c.v]) {
      ScanAdvance(pattern, value, escapes, c);
    } else {
      ScanRetry(pattern, value, escapes, c);
    }
  }

  /** The greedy scan. `steps` counts the iterations of its main loop. */
  method MatchGlob(pattern: bytes, value: bytes, escapes: bool) returns (ok: bool, ghost steps: nat)
    ensures ok <==> Matches(Tokens(pattern, escapes), value)
    ensures steps < Rows(|value| + 1, |pattern| + 1)
  {
    var p, v := 0, 0;
    var star, starV := -1, 0;
    ghost var c, spent := Cursor(0, 0, -1, 0), 0;
    steps := 0;
    WholeAgrees(pattern, escapes, value);
    while v < |value|
      invariant c == Cursor(p, v, star, starV) && Live(pattern, value, escapes, c)
      invariant spent <= starV && steps <= Rows(spent, |pattern| + 1) + p
      decreases |value| - starV, |pattern| - p
    {
      TurnKeeps(pattern, value, escapes, c);
      ghost var next := Turn(pattern, value, escapes, c);
      c := if next.Some? then next.value else c;
      var t := Token(pattern, p, escapes);
      steps := steps + 1;
      if t.meta && t.b == '*' {
        star, starV := p, v;
        p := p + t.width;
      } else if t.width > 0 && (t.meta || t.b == value[v]) {
        p := p + t.width;
        v := v + 1;
      } else if star >= 0 {
        starV, spent := starV + 1, spent + 1;
        p, v := star + 1, starV;
      } else {
        MoreRows(spent + 1, |value|, |pattern| + 1);
        return false, steps;
      }
    }
    MoreRows(spent, |value|, |pattern| + 1);

    ScanEnd(pattern, value, escapes, Cursor(p, v, star, starV));
    ok := OnlyStarsFrom(pattern, p, escapes, value);
  }

  /** `n` rows of `w`. */
  ghost function Rows(n: nat, w: nat): nat {
    if n == 0 then 0 else Rows(n - 1, w) + w
  }

  lemma {:induction false} RowsIsProduct(n: nat, w: nat)
    ensures Rows(n, w) == n * w
  {
    if n > 0 {
      RowsIsProduct(n - 1, w);
      assert n * w == (n - 1) * w + w;
    }
  }

  lemma {:induction false} MoreRows(m: nat, n: nat, w: nat)
    requires m <= n
    ensures Rows(m, w) <= Rows(n, w)
    decreases n
  {
    if m < n {
      MoreRows(m, n - 1, w);
    }
  }

  // ----- MatchWildcard and its shortcuts -----

  ghost function Literals(s: bytes): (es: seq<Elem>)
    ensures |es| == |s|
    ensures forall i | 0 <= i < |s| :: es[i] == Lit(s[i])
  {
    seq(|s|, i requires 0 <= i < |s| => Lit(s[i]))
  }

  lemma {:induction false} LiteralsMatchThemselves(s: bytes, v: bytes)
    ensures Matches(Literals(s), v) <==> v == s
    decreases |s|
  {
    if s != [] {
      assert Literals(s)[1..] == Literals(s[1..]);
      if v != [] {
        LiteralsMatchThemselves(s[1..], v[1..]);
        assert s == [s[0]] + s[1..] && v == [v[0]] + v[1..];
      }
    }
  }

  predicate HasWildcard(s: bytes) {
    '*' in s || '?' in s
  }

  lemma {:induction false} PlainTokens(s: bytes)
    requires !HasWildcard(s)
    ensures Tokens(s, false) == Literals(s)
  {
    if s != [] {
      PlainTokens(s[1..]);
      assert Literals(s) == [Lit(s[0])] + Literals(s[1..]);
    }
  }

  lemma TokensPlainHead(c: byte, rest: bytes, escapes: bool)
    requires !(escapes && c == Backslash)
    ensures Tokens([c] + rest, escapes) == [Classify(c)] + Tokens(rest, escapes)
  {
    assert ([c] + rest)[1..] == rest;
  }

  lemma {:induction false} PlainTokensConcat(a: bytes, b: bytes)
    ensures Tokens(a + b, false) == Tokens(a, false) + Tokens(b, false)
  {
    if a == [] {
      assert a + b == b;
    } else {
      PlainTokensConcat(a[1..], b);
      assert a + b == [a[0]] + (a[1..] + b);
      TokensPlainHead(a[0], a[1..] + b, false);
    }
  }

  lemma {:induction false} LiteralPrefix(p: bytes, es: seq<Elem>, v: bytes)
    ensures Matches(Literals(p) + es, v) <==> p <= v && Matches(es, v[|p|..])
    decreases |p|
  {
    if p == [] {
      assert Literals(p) + es == es && v[0..] == v;
    } else {
      assert Literals(p) + es == [Lit(p[0])] + (Literals(p[1..]) + es);
      if v != [] {
        LiteralPrefix(p[1..], es, v[1..]);
        assert p == [p[0]] + p[1..] && v == [v[0]] + v[1..];
        assert p <= v ==> v[1..][|p| - 1..] == v[|p|..];
      }
    }
  }

  predicate EndsWith(v: bytes, q: bytes) {
    |q| <= |v| && v[|v| - |q|..] == q
  }

  lemma {:induction false} RunThenLiteral(q: bytes, v: bytes)
    ensures Matches([AnyRun] + Literals(q), v) <==> EndsWith(v, q)
    decreases |v|
  {
    var es := [AnyRun] + Literals(q);
    assert es[1..] == Literals(q);
    LiteralsMatchThemselves(q, v);
    assert |q| == |v| ==> v[|v| - |q|..] == v;
    if v != [] {
      RunThenLiteral(q, v[1..]);
      assert |q| < |v| ==> v[1..][|v| - 1 - |q|..] == v[|v| - |q|..];
    }
  }

  lemma TokensAround(p: bytes, c: byte, q: bytes)
    requires !HasWildcard(p) && !HasWildcard(q)
    ensures Tokens(p + [c] + q, false) == Literals(p) + ([Classify(c)] + Literals(q))
  {
    hide HasWildcard, Literals;
    PlainTokensConcat(p, [c] + q);
    TokensPlainHead(c, q, false);
    PlainTokens(p);
    PlainTokens(q);
    Assoc(p, [c], q);
  }

  /** On plain text around it, "*" stands for any bytes at all. */
  lemma StarMeans(p: bytes, q: bytes, v: bytes)
    requires !HasWildcard(p) && !HasWildcard(q)
    ensures Matches(Tokens(p + ['*'] + q, false), v) <==> p <= v && EndsWith(v[|p|..], q)
  {
    hide Matches, HasWildcard, Tokens, Literals;
    TokensAround(p, '*', q);
    LiteralPrefix(p, [AnyRun] + Literals(q), v);
    if p <= v {
      RunThenLiteral(q, v[|p|..]);
    }
  }

  lemma OneThenLiteral(q: bytes, v: bytes)
    ensures Matches([AnyOne] + Literals(q), v) <==> |v| == 1 + |q| && EndsWith(v, q)
  {
    assert ([AnyOne] + Literals(q))[1..] == Literals(q);
    if v != [] {
      LiteralsMatchThemselves(q, v[1..]);
    }
  }

  /** And "?" for exactly one byte. */
  lemma QuestionMeans(p: bytes, q: bytes, v: bytes)
    requires !HasWildcard(p) && !HasWildcard(q)
    ensures Matches(Tokens(p + ['?'] + q, false), v) <==>
            p <= v && |v| == |p| + 1 + |q| && EndsWith(v[|p|..], q)
  {
    hide Matches, HasWildcard, Tokens, Literals;
    TokensAround(p, '?', q);
    LiteralPrefix(p, [AnyOne] + Literals(q), v);
    if p <= v {
      OneThenLiteral(q, v[|p|..]);
    }
  }

  /** With escapes a backslash makes the next byte literal, and one at the very end is a
      literal itself; without, a backslash is an ordinary byte. */
  lemma BackslashMeans(c: byte, rest: bytes)
    ensures Tokens([Backslash, c] + rest, true) == [Lit(c)] + Tokens(rest, true)
    ensures Tokens([Backslash], true) == [Lit(Backslash)]
    ensures Tokens([Backslash] + rest, false) == [Lit(Backslash)] + Tokens(rest, false)
  {
    assert ([Backslash, c] + rest)[2..] == rest;
    assert ([Backslash] + rest)[1..] == rest;
  }

  /** Both shortcuts agree with the scan. */
  method MatchWildcard(pattern: bytes, value: bytes) returns (ok: bool)
    ensures ok <==> Matches(Tokens(pattern, false), value)
  {
    if pattern == "*" {
      assert Tokens(pattern, false) == [AnyRun];
      RunTakes([AnyRun], value, |value|);
      return true;
    }
    if !HasWildcard(pattern) {
      PlainTokens(pattern);
      LiteralsMatchThemselves(pattern, value);
      return pattern == value;
    }
    var r, _ := MatchGlob(pattern, value, false);
    return r;
  }
}
