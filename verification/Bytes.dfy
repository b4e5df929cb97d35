/** Byte strings and the few functions of Go's `strings` package that the
    modelled code leans on. A Go string is a sequence of bytes, so a byte is a
    character whose code is below 256 and a string is a sequence of those. */
module Bytes {

  type byte = c: char | c as int < 256 witness 'a'
  type bytes = seq<byte>

  const NoBytes: bytes := []

  datatype Option<+T> = None | Some(value: T)

  /** ASCII lower-casing of one byte. */
  function LowerByte(c: byte): byte {
    if 'A' <= c <= 'Z' then (c as int + 32) as char else c
  }

  function ToLower(s: bytes): (r: bytes)
    ensures |r| == |s|
  {
    seq(|s|, i requires 0 <= i < |s| => LowerByte(s[i]))
  }

  lemma Assoc<T>(a: seq<T>, b: seq<T>, c: seq<T>)
    ensures (a + b) + c == a + (b + c)
  {
  }

  /** First position of `c` in `s` at or after `i`, or -1. */
  function IndexByteFrom(s: bytes, i: nat, c: byte): (r: int)
    requires i <= |s|
    ensures r == -1 || i <= r < |s|
    decreases |s| - i
  {
    if i == |s| then -1 else if s[i] == c then i else IndexByteFrom(s, i + 1, c)
  }

  lemma {:induction false} IndexByteIsFirst(s: bytes, i: nat, c: byte)
    requires i <= |s|
    ensures var r := IndexByteFrom(s, i, c);
            (r >= 0 ==> s[r] == c) && forall k | i <= k < (if r < 0 then |s| else r) :: s[k] != c
    decreases |s| - i
  {
    if i < |s| && s[i] != c {
      IndexByteIsFirst(s, i + 1, c);
    }
  }

  function IndexByte(s: bytes, c: byte): int {
    IndexByteFrom(s, 0, c)
  }

  /** Position `k` of `s` starts the two bytes "${". */
  predicate OpensAt(s: bytes, k: int) {
    0 <= k && k + 1 < |s| && s[k] == '$' && s[k + 1] == '{'
  }

  /** First position of "${" in `s` at or after `i`, or -1. */
  function IndexOpenFrom(s: bytes, i: nat): (r: int)
    requires i <= |s|
    ensures r == -1 || i <= r <= |s| - 2
    decreases |s| - i
  {
    if |s| - i < 2 then -1 else if OpensAt(s, i) then i else IndexOpenFrom(s, i + 1)
  }

  lemma {:induction false} IndexOpenIsFirst(s: bytes, i: nat)
    requires i <= |s|
    ensures IndexOpenFrom(s, i) >= 0 ==> OpensAt(s, IndexOpenFrom(s, i))
    ensures forall k :: i <= k && OpensAt(s, k) ==> 0 <= IndexOpenFrom(s, i) <= k
    decreases |s| - i
  {
    if |s| - i >= 2 && !OpensAt(s, i) {
      IndexOpenIsFirst(s, i + 1);
    }
  }

  function IndexOpen(s: bytes): int {
    IndexOpenFrom(s, 0)
  }

  /** Searching a suffix from its start is searching the whole string from there. */
  lemma {:induction false} IndexInSuffix(p: bytes, s: bytes, i: nat, c: byte)
    requires i <= |s|
    ensures IndexByteFrom(p + s, |p| + i, c) ==
            if IndexByteFrom(s, i, c) < 0 then -1 else |p| + IndexByteFrom(s, i, c)
    decreases |s| - i
  {
    if i < |s| {
      IndexInSuffix(p, s, i + 1, c);
    }
  }

  lemma {:induction false} OpenInSuffix(p: bytes, s: bytes, i: nat)
    requires i <= |s|
    ensures IndexOpenFrom(p + s, |p| + i) ==
            if IndexOpenFrom(s, i) < 0 then -1 else |p| + IndexOpenFrom(s, i)
    decreases |s| - i
  {
    if |s| - i >= 2 {
      OpenInSuffix(p, s, i + 1);
    }
  }

  /** Three-way lexical comparison, as `strings.Compare`. */
  function Compare(a: bytes, b: bytes): (r: int)
    ensures -1 <= r <= 1
  {
    if a == [] then (if b == [] then 0 else -1)
    else if b == [] then 1
    else if a[0] < b[0] then -1
    else if a[0] > b[0] then 1
    else Compare(a[1..], b[1..])
  }

  lemma {:induction false} CompareZero(a: bytes, b: bytes)
    ensures Compare(a, b) == 0 <==> a == b
  {
    if a != [] && b != [] {
      CompareZero(a[1..], b[1..]);
      assert a == [a[0]] + a[1..] && b == [b[0]] + b[1..];
    }
  }

  /** One string comes before another in the lexical order of bytes: it is a proper prefix, or
      has the smaller byte where they first differ. */
  ghost predicate Below(a: bytes, b: bytes) {
    exists k: nat | k <= |a| && k < |b| :: a[..k] == b[..k] && (k == |a| || a[k] < b[k])
  }

  lemma {:induction false} CompareIsLexical(a: bytes, b: bytes)
    ensures Compare(a, b) < 0 <==> Below(a, b)
  {
    if a == [] && b != [] {
      assert a[..0] == b[..0];
    } else if a != [] && b != [] {
      CompareIsLexical(a[1..], b[1..]);
      assert a[..0] == b[..0];
      if k: nat :| k <= |a| && k < |b| && a[..k] == b[..k] && (k == |a| || a[k] < b[k]) {
        assert k > 0 ==> a[..k][0] == b[..k][0];
        assert k > 0 ==> a[1..][..k - 1] == a[..k][1..] && b[1..][..k - 1] == b[..k][1..];
      }
      if a[0] == b[0] && Below(a[1..], b[1..]) {
        var k: nat :| k <= |a| - 1 && k < |b| - 1 && a[1..][..k] == b[1..][..k] && (k == |a| - 1 || a[1..][k] < b[1..][k]);
        assert a[..k + 1] == [a[0]] + a[1..][..k] && b[..k + 1] == [b[0]] + b[1..][..k];
      }
    }
  }

  lemma {:induction false} CompareFlips(a: bytes, b: bytes)
    ensures Compare(a, b) == -Compare(b, a)
  {
    if a != [] && b != [] {
      CompareFlips(a[1..], b[1..]);
    }
  }

  lemma {:induction false} CompareTransitive(a: bytes, b: bytes, c: bytes)
    requires Compare(a, b) <= 0 && Compare(b, c) <= 0
    ensures Compare(a, c) <= 0
    ensures Compare(a, c) == 0 ==> Compare(a, b) == 0 && Compare(b, c) == 0
  {
    if a != [] && b != [] && c != [] && a[0] == b[0] == c[0] {
      CompareTransitive(a[1..], b[1..], c[1..]);
    }
  }

  // ----- Case folding -----

  const LongS: bytes := [0xC5 as char, 0xBF as char]
  const Kelvin: bytes := [0xE2 as char, 0x84 as char, 0xAA as char]

  /** Case folding onto ASCII, on UTF-8. Besides its own two cases an ASCII letter is folded
      to from two code points only: the long s and the Kelvin sign. */
  function FoldToAscii(s: bytes): bytes {
    if s == [] then []
    else if LongS <= s then ['s'] + FoldToAscii(s[2..])
    else if Kelvin <= s then ['k'] + FoldToAscii(s[3..])
    else [LowerByte(s[0])] + FoldToAscii(s[1..])
  }

  function Dollars(s: bytes): nat {
    multiset(s)['$']
  }

  /** Strings with one fold agree on how many "$" they hold and on whether they hold "${":
      neither byte has a case. */
  ghost predicate Caseless(fold: bytes -> bytes) {
    forall s, t | fold(s) == fold(t) :: Dollars(s) == Dollars(t) && (IndexOpen(s) < 0 <==> IndexOpen(t) < 0)
  }

  /** A case folding: strings are equal up to case when they have one fold. */
  type Folding = f: bytes -> bytes | Caseless(f) witness ((s: bytes) => s)
}
