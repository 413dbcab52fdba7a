/** Bytes, and the words stored in them, low byte first. */
module Bytes {
  newtype Byte = x: int | 0 <= x < 256

  function LoadWord(m: seq<Byte>, at: nat): nat
    requires at + 4 <= |m|
  {
    m[at] as nat + 256 * m[at + 1] as nat + 65536 * m[at + 2] as nat + 16777216 * m[at + 3] as nat
  }

  function WordBytes(v: nat): (r: seq<Byte>)
    requires v < 0x1_0000_0000
    ensures |r| == 4
  {
    var high := v / 256;
    var higher := high / 256;
    [(v % 256) as Byte, (high % 256) as Byte, (higher % 256) as Byte, (higher / 256) as Byte]
  }

  lemma WordRoundTrip(m: seq<Byte>, at: nat, v: nat)
    requires v < 0x1_0000_0000 && at + 4 <= |m| && m[at..at + 4] == WordBytes(v)
    ensures LoadWord(m, at) == v
  {
    var w := m[at..at + 4];
    assert w[0] == m[at] && w[1] == m[at + 1] && w[2] == m[at + 2] && w[3] == m[at + 3];
  }

  /** What is at or after `from` is what matters. */
  lemma LoadFromTail(m: seq<Byte>, m': seq<Byte>, from: nat, at: nat)
    requires |m| == |m'| && from <= at && at + 4 <= |m| && m[from..] == m'[from..]
    ensures LoadWord(m, at) == LoadWord(m', at)
  {
    assert forall k | from <= k < |m| :: m[k] == m[from..][k - from] == m'[k];
  }

  /** A string of nonzero bytes, followed by a null byte. */
  predicate StringAt(m: seq<Byte>, at: nat, s: seq<Byte>) {
    && at + |s| < |m| && m[at..at + |s|] == s && m[at + |s|] == 0
    && forall i | 0 <= i < |s| :: s[i] != 0
  }

  lemma StringFromTail(m: seq<Byte>, m': seq<Byte>, from: nat, at: nat, s: seq<Byte>)
    requires |m| == |m'| && StringAt(m, at, s) && from <= at && m[from..] == m'[from..]
    ensures StringAt(m', at, s)
  {
    assert forall k | from <= k < |m| :: m[k] == m[from..][k - from] == m'[k];
    assert m[at..at + |s|] == m'[at..at + |s|];
  }

  /** strlen and what it delimits are determined by the bytes. */
  lemma StringUnique(m: seq<Byte>, at: nat, s: seq<Byte>, t: seq<Byte>)
    requires StringAt(m, at, s) && StringAt(m, at, t)
    ensures s == t
  {
    NotShorter(m, at, s, t);
    NotShorter(m, at, t, s);
  }

  lemma NotShorter(m: seq<Byte>, at: nat, s: seq<Byte>, t: seq<Byte>)
    requires StringAt(m, at, s) && StringAt(m, at, t)
    ensures |s| >= |t|
  {
    var run := m[at..at + |t|];
    assert forall i | 0 <= i < |t| :: run[i] == m[at + i];
  }

  /** The string at the front of a field. */
  function StringIn(field: seq<Byte>): seq<Byte> {
    if field == [] || field[0] == 0 then [] else [field[0]] + StringIn(field[1..])
  }

  predicate NoNulls(s: seq<Byte>) {
    forall i | 0 <= i < |s| :: s[i] != 0
  }

  lemma {:induction false} StringInPrefix(s: seq<Byte>, rest: seq<Byte>)
    requires NoNulls(s)
    ensures StringIn(s + [0] + rest) == s
  {
    if s == [] {
      assert ([] + [0] + rest)[0] == 0;
    } else {
      var t := s + [0] + rest;
      assert t[0] == s[0] && t[1..] == s[1..] + [0] + rest;
      StringInPrefix(s[1..], rest);
    }
  }
}
