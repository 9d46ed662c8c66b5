/**
 PF_KEY v2 messages as octets (RFC 2367, sections 2.2 and 2.3): field access, and what it
 means for a message body to be a sequence of extensions. Extension positions are word
 offsets; a word is eight octets and the body starts at word 2.
 */
module Wire {
  import opened Bytes

  const PF_KEY_V2 := 2
  const SADB_ADD := 3
  const SADB_DELETE := 4
  const SADB_GET := 5
  const SADB_ACQUIRE := 6
  const SADB_EXPIRE := 8
  const SADB_X_SPDADD := 14
  const SADB_X_SPDDELETE := 15
  const SADB_SATYPE_ESP := 3
  const IPPROTO_ESP := 50

  const SADB_EXT_SA := 1
  const SADB_EXT_LIFETIME_CURRENT := 2
  const SADB_EXT_LIFETIME_HARD := 3
  const SADB_EXT_LIFETIME_SOFT := 4
  const SADB_EXT_ADDRESS_SRC := 5
  const SADB_EXT_ADDRESS_DST := 6
  const SADB_EXT_KEY_AUTH := 8
  const SADB_EXT_KEY_ENCRYPT := 9
  const SADB_X_EXT_POLICY := 18
  const SADB_X_EXT_SA2 := 19
  const SADB_EXT_MAX := 26

  const HEADER_WORDS := 2

  function U8At(m: seq<byte>, o: nat): nat
    requires o < |m|
  {
    m[o]
  }

  function U16At(m: seq<byte>, o: nat): nat
    requires o + 2 <= |m|
  {
    FromLe(m[o..o + 2])
  }

  function U32At(m: seq<byte>, o: nat): nat
    requires o + 4 <= |m|
  {
    FromLe(m[o..o + 4])
  }

  function U64At(m: seq<byte>, o: nat): nat
    requires o + 8 <= |m|
  {
    FromLe(m[o..o + 8])
  }

  function Be16At(m: seq<byte>, o: nat): nat
    requires o + 2 <= |m|
  {
    FromBe(m[o..o + 2])
  }

  function Be32At(m: seq<byte>, o: nat): nat
    requires o + 4 <= |m|
  {
    FromBe(m[o..o + 4])
  }

  function MsgWords(m: seq<byte>): nat
    requires |m| >= 16
  {
    U16At(m, 4)
  }

  function ExtWords(m: seq<byte>, w: nat): nat
    requires 8 * w + 8 <= |m|
  {
    U16At(m, 8 * w)
  }

  function ExtType(m: seq<byte>, w: nat): nat
    requires 8 * w + 8 <= |m|
  {
    U16At(m, 8 * w + 2)
  }

  // ----- tilings

  /** Words [a, b) of m are exactly the extensions that start at `exts`, in order. */
  ghost predicate Tiles(m: seq<byte>, a: nat, b: nat, exts: seq<nat>)
    requires 8 * b <= |m|
    decreases |exts|
  {
    if exts == [] then a == b
    else
      && exts[0] == a < b
      && ExtWords(m, a) >= 1
      && a + ExtWords(m, a) <= b
      && Tiles(m, a + ExtWords(m, a), b, exts[1..])
  }

  /** Known types, and no type twice (RFC 2367, section 2.3). */
  ghost predicate Typed(m: seq<byte>, b: nat, exts: seq<nat>)
    requires 8 * b <= |m|
  {
    && (forall i | 0 <= i < |exts| :: exts[i] < b && 1 <= ExtType(m, exts[i]) <= SADB_EXT_MAX)
    && (forall i, j | 0 <= i < j < |exts| :: ExtType(m, exts[i]) != ExtType(m, exts[j]))
  }

  /** The buffer m holds at least the octets its header announces. */
  predicate Framed(m: seq<byte>) {
    |m| >= 16 && HEADER_WORDS <= MsgWords(m) && 8 * MsgWords(m) <= |m|
  }

  ghost predicate WellFormed(m: seq<byte>, exts: seq<nat>) {
    && Framed(m)
    && Tiles(m, HEADER_WORDS, MsgWords(m), exts)
    && Typed(m, MsgWords(m), exts)
  }

  /** Byte offset of the first extension of type t among `exts`, 0 when there is none. */
  ghost function Slot(m: seq<byte>, b: nat, exts: seq<nat>, t: nat): nat
    requires 8 * b <= |m|
    requires forall i | 0 <= i < |exts| :: exts[i] < b
    decreases |exts|
  {
    if exts == [] then 0
    else if ExtType(m, exts[0]) == t then 8 * exts[0]
    else Slot(m, b, exts[1..], t)
  }

  lemma {:induction false} TilesBounds(m: seq<byte>, a: nat, b: nat, exts: seq<nat>)
    requires 8 * b <= |m| && Tiles(m, a, b, exts)
    ensures a <= b
    ensures forall i | 0 <= i < |exts| ::
              a <= exts[i] < b && 1 <= ExtWords(m, exts[i]) && exts[i] + ExtWords(m, exts[i]) <= b
    decreases |exts|
  {
    if exts != [] {
      TilesBounds(m, a + ExtWords(m, a), b, exts[1..]);
      forall i | 0 <= i < |exts|
        ensures a <= exts[i] < b && 1 <= ExtWords(m, exts[i]) && exts[i] + ExtWords(m, exts[i]) <= b
      {
        if i > 0 {
          assert exts[i] == exts[1..][i - 1];
        }
      }
    }
  }

  lemma {:induction false} TilesAppend(m: seq<byte>, a: nat, b: nat, exts: seq<nat>, c: nat)
    requires 8 * c <= |m| && b < c && Tiles(m, a, b, exts)
    requires ExtWords(m, b) >= 1 && b + ExtWords(m, b) == c
    ensures Tiles(m, a, c, exts + [b])
    decreases |exts|
  {
    if exts == [] {
      assert Tiles(m, c, c, (exts + [b])[1..]);
    } else {
      TilesAppend(m, a + ExtWords(m, a), b, exts[1..], c);
      assert (exts + [b])[1..] == exts[1..] + [b];
      TilesBounds(m, a, b, exts);
    }
  }

  /** Lengths determine the cuts: a tiling of a prefix of the body begins every tiling of it. */
  lemma {:induction false} TilesPrefix(m: seq<byte>, a: nat, b: nat, s: seq<nat>, n: nat, t: seq<nat>)
    requires 8 * n <= |m| && b <= n
    requires Tiles(m, a, b, s) && Tiles(m, a, n, t)
    ensures s <= t && Tiles(m, b, n, t[|s|..])
    decreases |s|
  {
    if s == [] {
      assert t[|s|..] == t;
    } else {
      TilesBounds(m, a, b, s);
      TilesPrefix(m, a + ExtWords(m, a), b, s[1..], n, t[1..]);
      assert t[1..][|s[1..]|..] == t[|s|..];
      assert s == [s[0]] + s[1..] && t == [t[0]] + t[1..];
    }
  }

  /** A message body is cut into extensions in at most one way. */
  lemma TilingUnique(m: seq<byte>, s: seq<nat>, t: seq<nat>)
    requires WellFormed(m, s) && WellFormed(m, t)
    ensures s == t
  {
    var n := MsgWords(m);
    TilesPrefix(m, 2, n, s, n, t);
  }

  lemma {:induction false} SlotAppend(m: seq<byte>, b: nat, exts: seq<nat>, e: nat, t: nat)
    requires 8 * b <= |m| && e < b
    requires forall i | 0 <= i < |exts| :: 0 < exts[i] < b
    ensures Slot(m, b, exts + [e], t) ==
            if Slot(m, b, exts, t) != 0 then Slot(m, b, exts, t)
            else if ExtType(m, e) == t then 8 * e else 0
    decreases |exts|
  {
    if exts == [] {
      assert exts + [e] == [e];
    } else {
      assert (exts + [e])[1..] == exts[1..] + [e];
      if ExtType(m, exts[0]) != t {
        SlotAppend(m, b, exts[1..], e, t);
      }
    }
  }

  /** A slot is filled exactly when the type occurs, and then it is that extension's offset. */
  lemma {:induction false} SlotCharacterised(m: seq<byte>, b: nat, exts: seq<nat>, t: nat)
    requires 8 * b <= |m| && Typed(m, b, exts)
    requires forall i | 0 <= i < |exts| :: 0 < exts[i]
    ensures forall i | 0 <= i < |exts| && ExtType(m, exts[i]) == t :: Slot(m, b, exts, t) == 8 * exts[i]
    ensures Slot(m, b, exts, t) != 0 ==>
              exists i :: 0 <= i < |exts| && ExtType(m, exts[i]) == t && Slot(m, b, exts, t) == 8 * exts[i]
    decreases |exts|
  {
    if exts != [] {
      var rest := exts[1..];
      SlotCharacterised(m, b, rest, t);
      if ExtType(m, exts[0]) != t {
        forall i | 0 <= i < |exts| && ExtType(m, exts[i]) == t
          ensures Slot(m, b, exts, t) == 8 * exts[i]
        {
          assert exts[i] == rest[i - 1];
        }
        if Slot(m, b, exts, t) != 0 {
          var i :| 0 <= i < |rest| && ExtType(m, rest[i]) == t && Slot(m, b, rest, t) == 8 * rest[i];
          assert exts[i + 1] == rest[i];
        }
      }
    }
  }
}
