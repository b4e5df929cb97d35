/** The canonical request, pkg/sigv4/verify.go:56-138: one string from unordered maps, the
    same for every iteration order, decodable, and maskable without leaking the mask. */
module Canonical {
  import opened Bytes

  const amzSessionName: bytes := "x-amz-security-token"
  const redactedValue: bytes := "<redacted>"

  /** One query parameter value under its key, raw. */
  datatype Pair = Pair(key: bytes, value: bytes)

  type Query = map<bytes, seq<bytes>>

  datatype Request = Request(
    verb: bytes, uri: bytes, query: Query, headers: map<bytes, bytes>, signedHeaders: set<bytes>, contentHash: bytes)

  // ----- Ordering -----

  /** Key then value, as separate fields. */
  function PairCompare(a: Pair, b: Pair): int {
    if a.key != b.key then Compare(a.key, b.key) else Compare(a.value, b.value)
  }

  predicate PairsInOrder(a: Pair, b: Pair) {
    PairCompare(a, b) <= 0
  }

  predicate NamesInOrder(a: bytes, b: bytes) {
    Compare(a, b) <= 0
  }

  ghost predicate Sorted<T(!new)>(xs: seq<T>, le: (T, T) -> bool) {
    forall i, j | 0 <= i < j < |xs| :: le(xs[i], xs[j])
  }

  /** Ties are only between identical elements. */
  ghost predicate Antisymmetric<T(!new)>(le: (T, T) -> bool) {
    forall x, y :: le(x, y) && le(y, x) ==> x == y
  }

  /** Under such an order there is one sorted arrangement, so the sort's stability and the
      order it started from cannot show. */
  lemma {:induction false} SortedIsUnique<T(!new)>(a: seq<T>, b: seq<T>, le: (T, T) -> bool)
    requires Antisymmetric(le) && Sorted(a, le) && Sorted(b, le) && multiset(a) == multiset(b)
    ensures a == b
  {
    if a == [] {
      assert |multiset(b)| == 0;
    } else {
      assert |multiset(a)| == |a| && |multiset(b)| == |b|;
      assert a[0] in multiset(b) && b[0] in multiset(a);
      assert a[0] == b[0];
      assert a == [a[0]] + a[1..] && b == [b[0]] + b[1..];
      assert multiset(a[1..]) == multiset(a) - multiset{a[0]};
      assert multiset(b[1..]) == multiset(b) - multiset{b[0]};
      SortedIsUnique(a[1..], b[1..], le);
    }
  }

  lemma PairOrderAntisymmetric()
    ensures Antisymmetric(PairsInOrder)
  {
    forall x: Pair, y: Pair | PairsInOrder(x, y) && PairsInOrder(y, x) ensures x == y {
      CompareFlips(x.key, y.key);
      CompareFlips(x.value, y.value);
      CompareZero(x.key, y.key);
      CompareZero(x.value, y.value);
    }
  }

  lemma NameOrderAntisymmetric()
    ensures Antisymmetric(NamesInOrder)
  {
    forall x: bytes, y: bytes | NamesInOrder(x, y) && NamesInOrder(y, x) ensures x == y {
      CompareFlips(x, y);
      CompareZero(x, y);
    }
  }

  lemma PairOrderTotal(a: Pair, b: Pair)
    ensures PairsInOrder(a, b) || PairsInOrder(b, a)
  {
    CompareFlips(a.key, b.key);
    CompareFlips(a.value, b.value);
  }

  lemma PairOrderTransitive(a: Pair, b: Pair, c: Pair)
    requires PairsInOrder(a, b) && PairsInOrder(b, c)
    ensures PairsInOrder(a, c)
  {
    CompareZero(a.key, b.key);
    CompareZero(b.key, c.key);
    if a.key == b.key == c.key {
      CompareTransitive(a.value, b.value, c.value);
    } else {
      CompareZero(a.key, a.key);
      CompareTransitive(a.key, b.key, c.key);
      CompareZero(a.key, c.key);
    }
  }

  // ----- Enumerating a query -----

  /** The values a list of pairs gives one key. */
  ghost function ValuesOf(ps: seq<Pair>, k: bytes): seq<bytes> {
    if ps == [] then []
    else
      var rest := ValuesOf(ps[..|ps| - 1], k);
      var last := ps[|ps| - 1];
      if last.key == k then rest + [last.value] else rest
  }

  function QueryValues(query: Query, k: bytes): seq<bytes> {
    if k in query then query[k] else []
  }

  /** Each key's values, each as often as the query holds it, in any order. */
  ghost predicate Enumerates(ps: seq<Pair>, query: Query) {
    forall k :: multiset(ValuesOf(ps, k)) == multiset(QueryValues(query, k))
  }

  lemma {:induction false} PairCount(ps: seq<Pair>, k: bytes, v: bytes)
    ensures multiset(ps)[Pair(k, v)] == multiset(ValuesOf(ps, k))[v]
  {
    if ps != [] {
      var n := |ps| - 1;
      PairCount(ps[..n], k, v);
      assert ps == ps[..n] + [ps[n]];
    }
  }

  /** Two enumerations of one query hold the same pairs. */
  lemma SameQuerySamePairs(a: seq<Pair>, b: seq<Pair>)
    requires forall k :: multiset(ValuesOf(a, k)) == multiset(ValuesOf(b, k))
    ensures multiset(a) == multiset(b)
  {
    forall p: Pair ensures multiset(a)[p] == multiset(b)[p] {
      PairCount(a, p.key, p.value);
      PairCount(b, p.key, p.value);
    }
  }

  // ----- Percent-encoding -----

  predicate IsUnreserved(c: byte) {
    'A' <= c <= 'Z' || 'a' <= c <= 'z' || '0' <= c <= '9' || c == '-' || c == '.' || c == '_' || c == '~'
  }

  function HexDigit(n: int): byte
    requires 0 <= n < 16
  {
    if n < 10 then ('0' as int + n) as char else ('A' as int + n - 10) as char
  }

  function HexValue(c: byte): (n: int)
    ensures 0 <= n < 16
  {
    if '0' <= c <= '9' then c as int - '0' as int
    else if 'A' <= c <= 'F' then c as int - 'A' as int + 10
    else 0
  }

  const Percent: byte := '%'

  function EncodeByte(c: byte): bytes {
    if IsUnreserved(c) then [c] else [Percent, HexDigit(c as int / 16), HexDigit(c as int % 16)]
  }

  /** httpbinding.EscapePath with separators encoded. */
  function EscapePath(s: bytes): bytes {
    if s == [] then [] else EncodeByte(s[0]) + EscapePath(s[1..])
  }

  function Unescape(s: bytes): bytes {
    if s == [] then []
    else if s[0] == Percent && |s| >= 3 then
      [ByteOf(HexValue(s[1]), HexValue(s[2]))] + Unescape(s[3..])
    else [s[0]] + Unescape(s[1..])
  }

  function ByteOf(high: int, low: int): byte
    requires 0 <= high < 16 && 0 <= low < 16
  {
    (16 * high + low) as char
  }

  lemma EncodedByteReads(c: byte, rest: bytes)
    ensures Unescape(EncodeByte(c) + rest) == [c] + Unescape(rest)
  {
    var s := EncodeByte(c) + rest;
    if IsUnreserved(c) {
      assert s[1..] == rest;
    } else {
      assert s[3..] == rest;
      assert HexValue(HexDigit(c as int / 16)) == c as int / 16;
      assert HexValue(HexDigit(c as int % 16)) == c as int % 16;
    }
  }

  lemma {:induction false} EscapeRoundTrip(s: bytes)
    ensures Unescape(EscapePath(s)) == s
  {
    if s != [] {
      EscapeRoundTrip(s[1..]);
      EncodedByteReads(s[0], EscapePath(s[1..]));
    }
  }

  /** A byte that separates pairs, keys or lines never occurs in an encoding. */
  predicate IsSeparator(c: byte) {
    !IsUnreserved(c) && c != Percent
  }

  lemma {:induction false} EscapeHasNoSeparator(s: bytes, c: byte)
    requires IsSeparator(c)
    ensures c !in EscapePath(s)
  {
    if s != [] {
      EscapeHasNoSeparator(s[1..], c);
    }
  }

  // ----- The query line -----

  /** strings.EqualFold against the session token's name, which is lower-case ASCII. */
  predicate IsSession(name: bytes) {
    FoldToAscii(name) == amzSessionName
  }

  /** What redaction leaves of a pair. */
  function Mask(p: Pair): Pair {
    if IsSession(p.key) then Pair(p.key, redactedValue) else p
  }

  function MaskAll(ps: seq<Pair>): (r: seq<Pair>)
    ensures |r| == |ps|
  {
    seq(|ps|, i requires 0 <= i < |ps| => Mask(ps[i]))
  }

  /** What a rendering shows of the pairs. */
  function Shown(ps: seq<Pair>, redact: bool): seq<Pair> {
    if redact then MaskAll(ps) else ps
  }

  function RenderPair(p: Pair, redact: bool): bytes {
    EscapePath(p.key) + ['='] + (if redact && IsSession(p.key) then redactedValue else EscapePath(p.value))
  }

  function RenderPairs(ps: seq<Pair>, redact: bool): (r: seq<bytes>)
    ensures |r| == |ps|
  {
    seq(|ps|, i requires 0 <= i < |ps| => RenderPair(ps[i], redact))
  }

  /** strings.Join on one byte. */
  function Join(parts: seq<bytes>, sep: byte): bytes {
    if parts == [] then []
    else if |parts| == 1 then parts[0]
    else parts[0] + [sep] + Join(parts[1..], sep)
  }

  function SplitOn(s: bytes, sep: byte): seq<bytes>
    decreases |s|
  {
    var i := IndexByte(s, sep);
    if i < 0 then [s] else [s[..i]] + SplitOn(s[i + 1..], sep)
  }

  lemma {:induction false} SplitJoin(parts: seq<bytes>, sep: byte)
    requires parts != [] && forall p | p in parts :: sep !in p
    ensures SplitOn(Join(parts, sep), sep) == parts
  {
    var s := Join(parts, sep);
    IndexByteIsFirst(s, 0, sep);
    if |parts| == 1 {
      assert s == parts[0] && parts[0] in parts;
      assert parts == [parts[0]];
    } else {
      var head, rest := parts[0], Join(parts[1..], sep);
      FirstSeparator(head, sep, rest);
      SplitJoin(parts[1..], sep);
      assert parts == [head] + parts[1..];
    }
  }

  lemma FirstSeparator(head: bytes, sep: byte, rest: bytes)
    requires sep !in head
    ensures var s := head + [sep] + rest;
            IndexByte(s, sep) == |head| && s[..|head|] == head && s[|head| + 1..] == rest
  {
    var s := head + [sep] + rest;
    IndexByteIsFirst(s, 0, sep);
    assert s[|head|] == sep;
    assert forall i | 0 <= i < |head| :: s[i] == head[i];
  }

  function DecodePair(s: bytes): Pair {
    var i := IndexByte(s, '=');
    if i < 0 then Pair(Unescape(s), []) else Pair(Unescape(s[..i]), Unescape(s[i + 1..]))
  }

  function DecodeLine(line: bytes): seq<Pair> {
    if line == [] then []
    else
      var parts := SplitOn(line, '&');
      seq(|parts|, i requires 0 <= i < |parts| => DecodePair(parts[i]))
  }

  function QueryLine(ps: seq<Pair>, redact: bool): bytes {
    Join(RenderPairs(ps, redact), '&')
  }

  lemma RenderedPairShape(p: Pair, redact: bool)
    ensures '&' !in RenderPair(p, redact)
    ensures '\n' !in RenderPair(p, redact)
    ensures DecodePair(RenderPair(p, redact)) == if redact then Mask(p) else p
  {
    hide FoldToAscii, EncodeByte;
    EscapeHasNoSeparator(p.key, '\n');
    EscapeHasNoSeparator(p.value, '\n');
    EscapeHasNoSeparator(p.key, '&');
    EscapeHasNoSeparator(p.value, '&');
    EscapeHasNoSeparator(p.key, '=');
    var value := if redact && IsSession(p.key) then redactedValue else EscapePath(p.value);
    FirstSeparator(EscapePath(p.key), '=', value);
    EscapeRoundTrip(p.key);
    EscapeRoundTrip(p.value);
    MaskIsPlain();
  }

  lemma MaskIsPlain()
    ensures '&' !in redactedValue && '\n' !in redactedValue && Unescape(redactedValue) == redactedValue
  {
    hide Unescape;
    MaskHasNo('&');
    MaskHasNo('\n');
    MaskHasNo(Percent);
    UnescapePlain(redactedValue);
  }

  lemma MaskHasNo(c: byte)
    requires c == '&' || c == '\n' || c == Percent
    ensures c !in redactedValue
  {
  }

  lemma {:induction false} UnescapePlain(s: bytes)
    requires Percent !in s
    ensures Unescape(s) == s
  {
    if s != [] {
      UnescapePlain(s[1..]);
    }
  }

  lemma LineSplits(ps: seq<Pair>, redact: bool)
    requires ps != []
    ensures QueryLine(ps, redact) != [] && SplitOn(QueryLine(ps, redact), '&') == RenderPairs(ps, redact)
  {
    hide RenderPair, SplitOn;
    var parts := RenderPairs(ps, redact);
    forall p | p in parts ensures '&' !in p {
      var i :| 0 <= i < |parts| && parts[i] == p;
      RenderedPairShape(ps[i], redact);
    }
    SplitJoin(parts, '&');
    assert parts[0] != [] by {
      RenderedNotEmpty(ps[0], redact);
    }
  }

  lemma RenderedNotEmpty(p: Pair, redact: bool)
    ensures RenderPair(p, redact) != []
  {
  }

  /** The query line reads back as the sorted pairs it was built from, so two pair lists
      never share a line; the redacted line as the same pairs with the session's values
      masked, all else retained. */
  lemma QueryLineDecodes(ps: seq<Pair>, redact: bool)
    ensures DecodeLine(QueryLine(ps, redact)) == Shown(ps, redact)
  {
    hide RenderPair, SplitOn, Join, DecodePair, Mask;
    if ps != [] {
      LineSplits(ps, redact);
      forall i | 0 <= i < |ps| ensures DecodePair(RenderPair(ps[i], redact)) == if redact then Mask(ps[i]) else ps[i] {
        RenderedPairShape(ps[i], redact);
      }
    } else {
      NoPairs();
    }
  }

  lemma NoPairs()
    ensures QueryLine([], false) == [] && QueryLine([], true) == []
  {
  }

  /** Pair by pair, the redacted line keeps every key, and every value but the session's. */
  lemma RedactedLineKeeps(ps: seq<Pair>, i: nat)
    requires i < |ps|
    ensures |DecodeLine(QueryLine(ps, true))| == |ps|
    ensures DecodeLine(QueryLine(ps, true))[i].key == ps[i].key
    ensures !IsSession(ps[i].key) ==> DecodeLine(QueryLine(ps, true))[i] == ps[i]
    ensures IsSession(ps[i].key) ==> DecodeLine(QueryLine(ps, true))[i].value == redactedValue
  {
    QueryLineDecodes(ps, true);
  }

  // ----- The whole request -----

  function HeaderValue(r: Request, name: bytes, redact: bool): bytes {
    if redact && IsSession(name) then redactedValue
    else if name in r.headers then r.headers[name]
    else []
  }

  function HeaderBlock(r: Request, names: seq<bytes>, redact: bool): bytes {
    if names == [] then []
    else
      var n := |names| - 1;
      HeaderBlock(r, names[..n], redact) + names[n] + [':'] + HeaderValue(r, names[n], redact) + ['\n']
  }

  function PathOf(r: Request): bytes {
    if r.uri == [] then ['/'] else r.uri
  }

  function Render(r: Request, ps: seq<Pair>, names: seq<bytes>, redact: bool): bytes {
    Join([r.verb, PathOf(r), QueryLine(ps, redact), HeaderBlock(r, names, redact), Join(names, ';'), r.contentHash], '\n')
  }

  /** `out` is the canonical request for some order of going through the maps and some sort. */
  ghost predicate IsCanonical(r: Request, redact: bool, out: bytes) {
    exists ps, names :: Arranges(r, ps, names) && out == Render(r, ps, names, redact)
  }

  ghost predicate Arranges(r: Request, ps: seq<Pair>, names: seq<bytes>) {
    && Enumerates(ps, r.query) && Sorted(ps, PairsInOrder)
    && multiset(names) == multiset(r.signedHeaders) && Sorted(names, NamesInOrder)
  }

  /** There is one canonical request, whatever the order of iteration and sorting. */
  lemma CanonicalIsUnique(r: Request, redact: bool, a: bytes, b: bytes)
    requires IsCanonical(r, redact, a) && IsCanonical(r, redact, b)
    ensures a == b
  {
    hide Render, Enumerates, Sorted;
    var ps, names :| Arranges(r, ps, names) && a == Render(r, ps, names, redact);
    var ps', names' :| Arranges(r, ps', names') && b == Render(r, ps', names', redact);
    ArrangementIsUnique(r, ps, names, ps', names');
  }

  lemma ArrangementIsUnique(r: Request, ps: seq<Pair>, names: seq<bytes>, ps': seq<Pair>, names': seq<bytes>)
    requires Arranges(r, ps, names) && Arranges(r, ps', names')
    ensures ps == ps' && names == names'
  {
    hide ValuesOf, Sorted;
    SameQuerySamePairs(ps, ps');
    PairOrderAntisymmetric();
    SortedIsUnique(ps, ps', PairsInOrder);
    NameOrderAntisymmetric();
    SortedIsUnique(names, names', NamesInOrder);
  }

  // ----- Redaction -----

  function Masks(n: nat): (r: seq<bytes>)
    ensures |r| == n
  {
    seq(n, i => redactedValue)
  }

  lemma {:induction false} MaskedValues(ps: seq<Pair>, k: bytes)
    ensures ValuesOf(MaskAll(ps), k) == if IsSession(k) then Masks(|ValuesOf(ps, k)|) else ValuesOf(ps, k)
  {
    if ps != [] {
      var n := |ps| - 1;
      MaskedValues(ps[..n], k);
      assert MaskAll(ps)[..n] == MaskAll(ps[..n]);
    }
  }

  lemma MaskKeepsPair(a: Pair, b: Pair)
    requires PairsInOrder(a, b)
    ensures PairsInOrder(Mask(a), Mask(b))
  {
    hide IsSession, Compare;
    CompareZero(redactedValue, redactedValue);
  }

  /** Masking the values of one key makes its pairs equal, so it cannot disturb the order. */
  lemma MaskKeepsOrder(ps: seq<Pair>)
    requires Sorted(ps, PairsInOrder)
    ensures Sorted(MaskAll(ps), PairsInOrder)
  {
    hide Mask, PairsInOrder;
    forall i, j | 0 <= i < j < |ps| ensures PairsInOrder(MaskAll(ps)[i], MaskAll(ps)[j]) {
      assert PairsInOrder(ps[i], ps[j]);
      MaskKeepsPair(ps[i], ps[j]);
    }
  }

  /** Two requests alike in all that is rendered: method, path, content hash, signed headers
      and, for each query key, its values in any order. With `redact`, values under names
      folding to the session token may differ, with as many for each key. */
  ghost predicate Alike(r: Request, r': Request, redact: bool) {
    && r.verb == r'.verb && PathOf(r) == PathOf(r') && r.contentHash == r'.contentHash
    && r.signedHeaders == r'.signedHeaders
    && (forall n | n in r.signedHeaders :: HeaderValue(r, n, redact) == HeaderValue(r', n, redact))
    && (forall k :: SameValues(QueryValues(r.query, k), QueryValues(r'.query, k), redact && IsSession(k)))
  }

  ghost predicate SameValues(a: seq<bytes>, b: seq<bytes>, masked: bool) {
    if masked then |a| == |b| else multiset(a) == multiset(b)
  }

  lemma ShownValues(ps: seq<Pair>, redact: bool, k: bytes)
    ensures ValuesOf(Shown(ps, redact), k) ==
            if redact && IsSession(k) then Masks(|ValuesOf(ps, k)|) else ValuesOf(ps, k)
  {
    hide ValuesOf, IsSession;
    if redact {
      MaskedValues(ps, k);
    }
  }

  lemma ShownPairsAgree(r: Request, r': Request, redact: bool, ps: seq<Pair>, ps': seq<Pair>)
    requires Alike(r, r', redact)
    requires Enumerates(ps, r.query) && Sorted(ps, PairsInOrder)
    requires Enumerates(ps', r'.query) && Sorted(ps', PairsInOrder)
    ensures Shown(ps, redact) == Shown(ps', redact)
  {
    hide Sorted, ValuesOf, IsSession, PairsInOrder, MaskAll;
    var a, b := Shown(ps, redact), Shown(ps', redact);
    forall k ensures multiset(ValuesOf(a, k)) == multiset(ValuesOf(b, k)) {
      ShownValues(ps, redact, k);
      ShownValues(ps', redact, k);
      assert SameValues(QueryValues(r.query, k), QueryValues(r'.query, k), redact && IsSession(k));
      SameSize(ValuesOf(ps, k), QueryValues(r.query, k));
      SameSize(ValuesOf(ps', k), QueryValues(r'.query, k));
    }
    SameQuerySamePairs(a, b);
    MaskKeepsOrder(ps);
    MaskKeepsOrder(ps');
    PairOrderAntisymmetric();
    SortedIsUnique(a, b, PairsInOrder);
  }

  lemma SameSize(a: seq<bytes>, b: seq<bytes>)
    requires multiset(a) == multiset(b)
    ensures |a| == |b|
  {
    assert |multiset(a)| == |a| && |multiset(b)| == |b|;
  }

  lemma ShownLineAgrees(ps: seq<Pair>, redact: bool)
    ensures QueryLine(ps, redact) == QueryLine(Shown(ps, redact), redact)
  {
    hide FoldToAscii, EscapePath;
    assert RenderPairs(ps, redact) == RenderPairs(Shown(ps, redact), redact);
  }

  lemma {:induction false} ShownHeadersAgree(r: Request, r': Request, names: seq<bytes>, redact: bool)
    requires forall n | n in names :: HeaderValue(r, n, redact) == HeaderValue(r', n, redact)
    ensures HeaderBlock(r, names, redact) == HeaderBlock(r', names, redact)
  {
    hide FoldToAscii;
    if names != [] {
      ShownHeadersAgree(r, r', names[..|names| - 1], redact);
      assert names[|names| - 1] in names;
    }
  }

  /** Requests alike in what is rendered have one rendering: redaction is non-interfering. */
  lemma AlikeRenderAlike(r: Request, r': Request, redact: bool, a: bytes, b: bytes)
    requires Alike(r, r', redact) && IsCanonical(r, redact, a) && IsCanonical(r', redact, b)
    ensures a == b
  {
    hide Sorted, Enumerates, QueryLine, HeaderBlock, Join, HeaderValue, IsSession, Shown;
    var ps, names :| Arranges(r, ps, names) && a == Render(r, ps, names, redact);
    var ps', names' :| Arranges(r', ps', names') && b == Render(r', ps', names', redact);
    ShownPairsAgree(r, r', redact, ps, ps');
    ShownLineAgrees(ps, redact);
    ShownLineAgrees(ps', redact);
    NameOrderAntisymmetric();
    SortedIsUnique(names, names', NamesInOrder);
    SignedNames(r, names);
    ShownHeadersAgree(r, r', names, redact);
  }

  lemma SignedNames(r: Request, names: seq<bytes>)
    requires multiset(names) == multiset(r.signedHeaders)
    ensures forall n :: n in names <==> n in r.signedHeaders
  {
    assert forall n :: n in names <==> n in multiset(names);
  }

  /** The redacted rendering lines up with the real one: the same pairs under the same keys
      in the same order, and the same headers. */
  lemma RedactedLinesUp(r: Request, a: bytes, b: bytes) returns (ps: seq<Pair>, names: seq<bytes>)
    requires IsCanonical(r, false, a) && IsCanonical(r, true, b)
    ensures Arranges(r, ps, names)
    ensures a == Render(r, ps, names, false) && b == Render(r, ps, names, true)
  {
    hide Render, Enumerates, Sorted;
    ps, names :| Arranges(r, ps, names) && a == Render(r, ps, names, false);
    var ps', names' :| Arranges(r, ps', names') && b == Render(r, ps', names', true);
    ArrangementIsUnique(r, ps, names, ps', names');
  }

  // ----- What a rendering determines -----

  /** Nothing that is signed holds a newline, and no signed header's name a colon. */
  ghost predicate OneLine(r: Request) {
    && '\n' !in r.verb && '\n' !in r.uri && '\n' !in r.contentHash
    && forall n | n in r.signedHeaders :: '\n' !in n && ':' !in n && '\n' !in HeaderValue(r, n, false)
  }

  function HeaderLine(r: Request, name: bytes, redact: bool): bytes {
    name + [':'] + HeaderValue(r, name, redact)
  }

  function HeaderLines(r: Request, names: seq<bytes>, redact: bool): (lines: seq<bytes>)
    ensures |lines| == |names|
  {
    seq(|names|, i requires 0 <= i < |names| => HeaderLine(r, names[i], redact))
  }

  /** A rendering, line by line; the header block's last newline leaves an empty line. */
  function Lines(r: Request, ps: seq<Pair>, names: seq<bytes>, redact: bool): seq<bytes> {
    [r.verb, PathOf(r), QueryLine(ps, redact)] + HeaderLines(r, names, redact) + [[], Join(names, ';'), r.contentHash]
  }

  lemma {:induction false} HeadersBefore(r: Request, names: seq<bytes>, redact: bool, rest: seq<bytes>)
    requires rest != []
    ensures HeaderBlock(r, names, redact) + Join(rest, '\n') == Join(HeaderLines(r, names, redact) + rest, '\n')
    decreases |names|
  {
    hide HeaderValue;
    if names == [] {
      assert HeaderLines(r, names, redact) + rest == rest;
      assert [] + Join(rest, '\n') == Join(rest, '\n');
    } else {
      var n := |names| - 1;
      var line, before := HeaderLine(r, names[n], redact), HeaderBlock(r, names[..n], redact);
      HeadersBefore(r, names[..n], redact, [line] + rest);
      JoinOne(line, rest);
      assert HeaderLines(r, names, redact) + rest == HeaderLines(r, names[..n], redact) + ([line] + rest);
      assert before + names[n] + [':'] + HeaderValue(r, names[n], redact) + ['\n'] + Join(rest, '\n') ==
             before + (line + ['\n'] + Join(rest, '\n'));
    }
  }

  lemma JoinOne(line: bytes, rest: seq<bytes>)
    requires rest != []
    ensures Join([line] + rest, '\n') == line + ['\n'] + Join(rest, '\n')
  {
    assert ([line] + rest)[1..] == rest;
  }

  lemma RenderIsLines(r: Request, ps: seq<Pair>, names: seq<bytes>, redact: bool)
    ensures Render(r, ps, names, redact) == Join(Lines(r, ps, names, redact), '\n')
  {
    hide Join, HeaderBlock, HeaderLines, QueryLine;
    var v, u, q, h := r.verb, PathOf(r), QueryLine(ps, redact), HeaderBlock(r, names, redact);
    var s, c, lines := Join(names, ';'), r.contentHash, HeaderLines(r, names, redact);
    var rest: seq<bytes> := [[], s, c];
    HeadersBefore(r, names, redact, rest);
    JoinOne([], [s, c]);
    JoinOne(h, [s, c]);
    assert [[]] + [s, c] == rest && [h] + [s, c] == [h, s, c];
    assert h + ([] + ['\n'] + Join([s, c], '\n')) == h + ['\n'] + Join([s, c], '\n');
    JoinThree(v, u, q, lines + rest);
    JoinThree(v, u, q, [h, s, c]);
    assert [v, u, q] + [h, s, c] == [v, u, q, h, s, c];
    assert [v, u, q] + (lines + rest) == Lines(r, ps, names, redact);
  }

  lemma JoinThree(v: bytes, u: bytes, q: bytes, rest: seq<bytes>)
    requires rest != []
    ensures Join([v, u, q] + rest, '\n') ==
            v + ['\n'] + (u + ['\n'] + (q + ['\n'] + Join(rest, '\n')))
  {
    hide Join;
    JoinOne(q, rest);
    JoinOne(u, [q] + rest);
    JoinOne(v, [u] + ([q] + rest));
    assert [v] + ([u] + ([q] + rest)) == [v, u, q] + rest;
  }

  lemma {:induction false} JoinHasNo(parts: seq<bytes>, sep: byte, c: byte)
    requires c != sep && forall p | p in parts :: c !in p
    ensures c !in Join(parts, sep)
  {
    if |parts| > 1 {
      JoinHasNo(parts[1..], sep, c);
      assert parts[0] in parts;
    } else if parts != [] {
      assert parts[0] in parts;
    }
  }

  lemma QueryHasNoNewline(ps: seq<Pair>, redact: bool)
    ensures '\n' !in QueryLine(ps, redact)
  {
    hide Join, RenderPair;
    forall p | p in RenderPairs(ps, redact) ensures '\n' !in p {
      var i :| 0 <= i < |ps| && RenderPairs(ps, redact)[i] == p;
      RenderedPairShape(ps[i], redact);
    }
    JoinHasNo(RenderPairs(ps, redact), '&', '\n');
  }

  lemma HeaderHasNoNewline(r: Request, name: bytes, redact: bool)
    requires OneLine(r) && name in r.signedHeaders
    ensures '\n' !in HeaderLine(r, name, redact)
  {
    hide IsSession;
    MaskIsPlain();
    assert '\n' !in name && '\n' !in HeaderValue(r, name, false);
  }

  lemma LinesAreLines(r: Request, ps: seq<Pair>, names: seq<bytes>, redact: bool)
    requires OneLine(r) && forall n | n in names :: n in r.signedHeaders
    ensures forall l | l in Lines(r, ps, names, redact) :: '\n' !in l
  {
    hide Join, QueryLine, HeaderValue, HeaderLine;
    QueryHasNoNewline(ps, redact);
    assert forall n | n in names :: '\n' !in n;
    JoinHasNo(names, ';', '\n');
    assert '\n' !in PathOf(r);
    var lines, headers := Lines(r, ps, names, redact), HeaderLines(r, names, redact);
    forall i | 0 <= i < |lines| ensures '\n' !in lines[i] {
      if 3 <= i < 3 + |names| {
        assert lines[i] == headers[i - 3] && names[i - 3] in names;
        HeaderHasNoNewline(r, names[i - 3], redact);
      }
    }
  }

  lemma SameHeaderLine(r: Request, r': Request, n: bytes, n': bytes, redact: bool)
    requires ':' !in n && ':' !in n' && HeaderLine(r, n, redact) == HeaderLine(r', n', redact)
    ensures n == n' && HeaderValue(r, n, redact) == HeaderValue(r', n', redact)
  {
    hide HeaderValue;
    FirstSeparator(n, ':', HeaderValue(r, n, redact));
    FirstSeparator(n', ':', HeaderValue(r', n', redact));
  }

  lemma SameLines(r: Request, r': Request, redact: bool, ps: seq<Pair>, names: seq<bytes>, ps': seq<Pair>, names': seq<bytes>)
    requires OneLine(r) && OneLine(r') && Lines(r, ps, names, redact) == Lines(r', ps', names', redact)
    requires forall n | n in names :: n in r.signedHeaders
    requires forall n | n in names' :: n in r'.signedHeaders
    ensures r.verb == r'.verb && PathOf(r) == PathOf(r') && r.contentHash == r'.contentHash && names == names'
    ensures forall n | n in names :: HeaderValue(r, n, redact) == HeaderValue(r', n, redact)
    ensures QueryLine(ps, redact) == QueryLine(ps', redact)
  {
    hide Join, HeaderValue, HeaderLine, QueryLine;
    var a, b := Lines(r, ps, names, redact), Lines(r', ps', names', redact);
    assert |names| == |names'|;
    assert a[0] == b[0] && a[1] == b[1] && a[2] == b[2] && a[|a| - 1] == b[|b| - 1];
    forall i | 0 <= i < |names|
      ensures names[i] == names'[i] && HeaderValue(r, names[i], redact) == HeaderValue(r', names[i], redact)
    {
      assert a[3 + i] == HeaderLine(r, names[i], redact) && b[3 + i] == HeaderLine(r', names'[i], redact);
      assert names[i] in names && names'[i] in names';
      SameHeaderLine(r, r', names[i], names'[i], redact);
    }
  }

  lemma SameShownSameValues(r: Request, r': Request, redact: bool, ps: seq<Pair>, ps': seq<Pair>, k: bytes)
    requires Enumerates(ps, r.query) && Enumerates(ps', r'.query) && Shown(ps, redact) == Shown(ps', redact)
    ensures SameValues(QueryValues(r.query, k), QueryValues(r'.query, k), redact && IsSession(k))
  {
    hide ValuesOf, IsSession, Shown;
    ShownValues(ps, redact, k);
    ShownValues(ps', redact, k);
    SameSize(ValuesOf(ps, k), QueryValues(r.query, k));
    SameSize(ValuesOf(ps', k), QueryValues(r'.query, k));
  }

  /** A rendering determines all that is rendered. */
  lemma RenderedAlikeAreAlike(r: Request, r': Request, redact: bool, out: bytes)
    requires OneLine(r) && OneLine(r') && IsCanonical(r, redact, out) && IsCanonical(r', redact, out)
    ensures Alike(r, r', redact)
  {
    hide Sorted, Enumerates, OneLine, QueryLine, HeaderBlock, Join, SplitOn, HeaderValue, IsSession, Shown, DecodeLine, Lines, Render;
    var ps, names :| Arranges(r, ps, names) && out == Render(r, ps, names, redact);
    var ps', names' :| Arranges(r', ps', names') && out == Render(r', ps', names', redact);
    SignedNames(r, names);
    SignedNames(r', names');
    LinesSplit(r, ps, names, redact);
    LinesSplit(r', ps', names', redact);
    SameLines(r, r', redact, ps, names, ps', names');
    QueryLineDecodes(ps, redact);
    QueryLineDecodes(ps', redact);
    forall k ensures SameValues(QueryValues(r.query, k), QueryValues(r'.query, k), redact && IsSession(k)) {
      SameShownSameValues(r, r', redact, ps, ps', k);
    }
  }

  lemma LinesSplit(r: Request, ps: seq<Pair>, names: seq<bytes>, redact: bool)
    requires OneLine(r) && forall n | n in names :: n in r.signedHeaders
    ensures SplitOn(Render(r, ps, names, redact), '\n') == Lines(r, ps, names, redact)
  {
    hide SplitOn, Join, OneLine, Render;
    RenderIsLines(r, ps, names, redact);
    LinesAreLines(r, ps, names, redact);
    SplitJoin(Lines(r, ps, names, redact), '\n');
  }

  /** What the canonical request determines, exactly, and what its redacted form hides: two
      requests have one rendering if and only if they are alike in all that is rendered. */
  lemma RenderingIsExact(r: Request, r': Request, redact: bool, a: bytes, b: bytes)
    requires OneLine(r) && OneLine(r') && IsCanonical(r, redact, a) && IsCanonical(r', redact, b)
    ensures a == b <==> Alike(r, r', redact)
  {
    hide OneLine, IsCanonical, Alike;
    if a == b {
      RenderedAlikeAreAlike(r, r', redact, a);
    }
    if Alike(r, r', redact) {
      AlikeRenderAlike(r, r', redact, a, b);
    }
  }

  // ----- Building it -----

  ghost predicate TotalPreorder<T(!new)>(le: (T, T) -> bool) {
    && (forall x, y :: le(x, y) || le(y, x))
    && (forall x, y, z :: le(x, y) && le(y, z) ==> le(x, z))
  }

  lemma PairsAreOrdered()
    ensures TotalPreorder(PairsInOrder)
  {
    forall x: Pair, y: Pair ensures PairsInOrder(x, y) || PairsInOrder(y, x) {
      PairOrderTotal(x, y);
    }
    forall x: Pair, y: Pair, z: Pair | PairsInOrder(x, y) && PairsInOrder(y, z) ensures PairsInOrder(x, z) {
      PairOrderTransitive(x, y, z);
    }
  }

  lemma NamesAreOrdered()
    ensures TotalPreorder(NamesInOrder)
  {
    forall x: bytes, y: bytes ensures NamesInOrder(x, y) || NamesInOrder(y, x) {
      CompareFlips(x, y);
    }
    forall x: bytes, y: bytes, z: bytes | NamesInOrder(x, y) && NamesInOrder(y, z) ensures NamesInOrder(x, z) {
      CompareTransitive(x, y, z);
    }
  }

  /** Any sort of `xs`. Ties may fall either way. */
  method SortFunc<T(!new)>(xs: seq<T>, le: (T, T) -> bool) returns (r: seq<T>)
    requires TotalPreorder(le)
    ensures Sorted(r, le) && multiset(r) == multiset(xs)
  {
    r := [];
    assert Sorted(r, le);
    hide Sorted, TotalPreorder;
    for i := 0 to |xs|
      invariant Sorted(r, le) && multiset(r) == multiset(xs[..i])
    {
      var at := 0;
      while at < |r| && le(r[at], xs[i])
        invariant at <= |r| && forall k | 0 <= k < at :: le(r[k], xs[i])
      {
        at := at + 1;
      }
      InsertKeepsSorted(r, at, xs[i], le);
      assert xs[..i + 1] == xs[..i] + [xs[i]];
      assert r == r[..at] + r[at..];
      r := r[..at] + [xs[i]] + r[at..];
    }
    assert xs[..|xs|] == xs;
  }

  lemma InsertKeepsSorted<T(!new)>(r: seq<T>, at: nat, x: T, le: (T, T) -> bool)
    requires TotalPreorder(le) && Sorted(r, le) && at <= |r|
    requires forall k | 0 <= k < at :: le(r[k], x)
    requires at < |r| ==> !le(r[at], x)
    ensures Sorted(r[..at] + [x] + r[at..], le)
  {
    var s := r[..at] + [x] + r[at..];
    forall k | at <= k < |r| ensures le(x, r[k]) {
      assert le(x, r[at]);
      assert k > at ==> le(r[at], r[k]);
    }
    forall i, j | 0 <= i < j < |s| ensures le(s[i], s[j]) {
      var a := if i <= at then i else i - 1;
      var b := if j <= at then j else j - 1;
      assert i != at ==> s[i] == r[a];
      assert j != at ==> s[j] == r[b];
    }
  }

  lemma AppendPair(ps: seq<Pair>, p: Pair, k: bytes)
    ensures ValuesOf(ps + [p], k) == if p.key == k then ValuesOf(ps, k) + [p.value] else ValuesOf(ps, k)
  {
    assert (ps + [p])[..|ps|] == ps;
  }

  /** Pairs for every key outside `todo`, as the query lists them. */
  ghost predicate Collected(ps: seq<Pair>, query: Query, todo: set<bytes>) {
    forall k :: ValuesOf(ps, k) == if k in todo then [] else QueryValues(query, k)
  }

  method Collect(query: Query) returns (ps: seq<Pair>)
    ensures Enumerates(ps, query)
  {
    hide ValuesOf;
    ps := [];
    var todo := query.Keys;
    StartCollecting(query);
    while todo != {}
      invariant todo <= query.Keys && Collected(ps, query, todo)
    {
      var key :| key in todo;
      ghost var before := ps;
      var values := query[key];
      for i := 0 to |values|
        invariant forall k :: ValuesOf(ps, k) == if k == key then values[..i] else ValuesOf(before, k)
      {
        forall k ensures ValuesOf(ps + [Pair(key, values[i])], k) ==
                         if k == key then values[..i + 1] else ValuesOf(before, k)
        {
          AppendPair(ps, Pair(key, values[i]), k);
          assert values[..i + 1] == values[..i] + [values[i]];
        }
        ps := ps + [Pair(key, values[i])];
      }
      assert values[..|values|] == values;
      todo := todo - {key};
    }
  }

  lemma StartCollecting(query: Query)
    ensures Collected([], query, query.Keys)
  {
  }

  method CanonicalRequest(r: Request, redact: bool) returns (out: bytes)
    ensures IsCanonical(r, redact, out)
  {
    hide Enumerates, Sorted, TotalPreorder, PairsInOrder, NamesInOrder, RenderPair, Join, HeaderBlock, FoldToAscii;
    var params := Collect(r.query);
    PairsAreOrdered();
    var sorted := SortFunc(params, PairsInOrder);
    SortedEnumerates(params, sorted, r.query);

    var pairs := [];
    for i := 0 to |sorted|
      invariant |pairs| == i && forall j | 0 <= j < i :: pairs[j] == RenderPair(sorted[j], redact)
    {
      var value := EscapePath(sorted[i].value);
      if redact && IsSession(sorted[i].key) {
        value := redactedValue;
      }
      RenderedPairIs(sorted[i], redact, value);
      pairs := pairs + [EscapePath(sorted[i].key) + ['='] + value];
    }
    assert pairs == RenderPairs(sorted, redact);

    var names := Names(r.signedHeaders);
    NamesAreOrdered();
    var signedHeaders := SortFunc(names, NamesInOrder);

    var headers: bytes := [];
    NoHeaders(r, redact);
    for i := 0 to |signedHeaders|
      invariant headers == HeaderBlock(r, signedHeaders[..i], redact)
    {
      var name := signedHeaders[i];
      var value := if name in r.headers then r.headers[name] else [];
      if redact && IsSession(name) {
        value := redactedValue;
      }
      NextHeader(r, signedHeaders, i, redact);
      headers := headers + name + [':'] + value + ['\n'];
    }
    assert signedHeaders[..|signedHeaders|] == signedHeaders;

    var uri := r.uri;
    if uri == [] {
      uri := ['/'];
    }
    out := Join([r.verb, uri, Join(pairs, '&'), headers, Join(signedHeaders, ';'), r.contentHash], '\n');
    assert out == Render(r, sorted, signedHeaders, redact);
    assert Arranges(r, sorted, signedHeaders);
  }

  lemma NoHeaders(r: Request, redact: bool)
    ensures HeaderBlock(r, [], redact) == []
  {
  }

  lemma NextHeader(r: Request, names: seq<bytes>, i: nat, redact: bool)
    requires i < |names|
    ensures HeaderBlock(r, names[..i + 1], redact) ==
            HeaderBlock(r, names[..i], redact) + names[i] + [':'] + HeaderValue(r, names[i], redact) + ['\n']
  {
    assert names[..i + 1][..i] == names[..i];
  }

  lemma RenderedPairIs(p: Pair, redact: bool, value: bytes)
    requires value == if redact && IsSession(p.key) then redactedValue else EscapePath(p.value)
    ensures RenderPair(p, redact) == EscapePath(p.key) + ['='] + value
  {
  }

  lemma SortedEnumerates(params: seq<Pair>, sorted: seq<Pair>, query: Query)
    requires Enumerates(params, query) && multiset(sorted) == multiset(params)
    ensures Enumerates(sorted, query)
  {
    hide ValuesOf;
    forall k ensures multiset(ValuesOf(sorted, k)) == multiset(ValuesOf(params, k)) {
      forall v ensures multiset(ValuesOf(sorted, k))[v] == multiset(ValuesOf(params, k))[v] {
        PairCount(sorted, k, v);
        PairCount(params, k, v);
      }
    }
  }

  /** The names of a set, in any order. */
  method Names(names: set<bytes>) returns (r: seq<bytes>)
    ensures multiset(r) == multiset(names)
  {
    r := [];
    var todo := names;
    while todo != {}
      invariant todo <= names && multiset(r) == multiset(names - todo)
    {
      var name :| name in todo;
      assert names - (todo - {name}) == (names - todo) + {name};
      r := r + [name];
      todo := todo - {name};
    }
    assert names - {} == names;
  }
}
