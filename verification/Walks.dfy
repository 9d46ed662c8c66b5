/**
 The unchecked walks: loops that trust every extension length and stop when the remaining
 byte count is no longer positive. On a message the parser accepts they end with exactly
 nothing left, stay inside it, and see each extension once, in order. What each of them
 collects is stated on the extensions the parser's table locates.
 */
module Walks {
  import opened Bytes
  import opened Text
  import opened Wire
  import opened Extensions

  /** A received message: accepted by the parser, and exactly as long as it says. */
  ghost predicate Delivered(m: seq<byte>, exts: seq<nat>) {
    WellFormed(m, exts) && |m| == 8 * MsgWords(m)
  }

  /** The loop is at word w, has seen the first k extensions, and `left` octets remain. */
  ghost predicate Walking(m: seq<byte>, exts: seq<nat>, k: nat, off: nat, left: int)
    requires Delivered(m, exts)
  {
    && k <= |exts|
    && exists w: nat ::
         && w <= MsgWords(m) && off == 8 * w && left == |m| - off
         && Tiles(m, w, MsgWords(m), exts[k..])
  }

  ghost function Seen(m: seq<byte>, exts: seq<nat>, k: nat, t: nat): seq<byte>
    requires WellFormed(m, exts) && k <= |exts|
  {
    BodyIn(m, MsgWords(m), exts[..k], t)
  }

  lemma WalkStarts(m: seq<byte>, exts: seq<nat>)
    requires Delivered(m, exts)
    ensures Walking(m, exts, 0, 16, |m| - 16)
    ensures forall t: nat :: Seen(m, exts, 0, t) == []
  {
    assert exts[0..] == exts;
    assert Tiles(m, HEADER_WORDS, MsgWords(m), exts[0..]);
  }

  /** One turn of any of the loops: the next extension, and how what was seen grows. */
  lemma WalkStep(m: seq<byte>, exts: seq<nat>, k: nat, off: nat, left: int)
    requires Delivered(m, exts) && Walking(m, exts, k, off, left) && left > 0
    ensures k < |exts| && off == 8 * exts[k] && off + 8 <= |m|
    ensures 1 <= U16At(m, off) && off + 8 * U16At(m, off) <= |m|
    ensures Walking(m, exts, k + 1, off + 8 * U16At(m, off), left - 8 * U16At(m, off))
    ensures Seen(m, exts, k, U16At(m, off + 2)) == []
    ensures Seen(m, exts, k + 1, U16At(m, off + 2)) == SliceAt(m, off)
    ensures forall t: nat | t != U16At(m, off + 2) :: Seen(m, exts, k + 1, t) == Seen(m, exts, k, t)
  {
    hide FromLe, BodyIn, SliceAt;
    var n := MsgWords(m);
    var w: nat :| w <= n && off == 8 * w && left == |m| - off && Tiles(m, w, n, exts[k..]);
    var rest := exts[k..];
    assert rest != [] && rest[0] == exts[k] == w;
    var w' := w + ExtWords(m, w);
    assert rest[1..] == exts[k + 1..];
    assert Tiles(m, w', n, exts[k + 1..]);
    assert exts[..k + 1] == exts[..k] + [w];
    TilesBounds(m, HEADER_WORDS, n, exts);
    assert U16At(m, off + 2) == ExtType(m, exts[k]);
    SeenGrows(m, exts, k, ExtType(m, exts[k]));
    forall t: nat | t != U16At(m, off + 2)
      ensures Seen(m, exts, k + 1, t) == Seen(m, exts, k, t)
    {
      SeenGrows(m, exts, k, t);
    }
  }

  lemma SeenGrows(m: seq<byte>, exts: seq<nat>, k: nat, t: nat)
    requires WellFormed(m, exts) && k < |exts|
    ensures 8 * exts[k] + 8 <= |m|
    ensures Seen(m, exts, k + 1, t) == if t == ExtType(m, exts[k]) then SliceAt(m, 8 * exts[k]) else Seen(m, exts, k, t)
    ensures t == ExtType(m, exts[k]) ==> Seen(m, exts, k, t) == []
  {
    hide SliceAt;
    var n := MsgWords(m);
    TilesBounds(m, HEADER_WORDS, n, exts);
    assert exts[..k + 1] == exts[..k] + [exts[k]];
    SlotAppend(m, n, exts[..k], exts[k], t);
    SlotCharacterised(m, n, exts[..k], t);
  }

  lemma WalkEnds(m: seq<byte>, exts: seq<nat>, k: nat, off: nat, left: int)
    requires Delivered(m, exts) && Walking(m, exts, k, off, left) && left <= 0
    ensures left == 0 && k == |exts|
    ensures forall t: nat :: Seen(m, exts, k, t) == Body(m, exts, t)
  {
    var w: nat :| w <= MsgWords(m) && off == 8 * w && left == |m| - off && Tiles(m, w, MsgWords(m), exts[k..]);
    assert exts[k..] == [] by {
      TilesBounds(m, w, MsgWords(m), exts[k..]);
    }
    assert exts[..k] == exts;
  }

  // ----- ACQUIRE and EXPIRE, in the listener

  function PolicyIndex(e: seq<byte>): int {
    if |e| >= 16 then ToInt32(ReadPolicy(e).id) else 0
  }

  /** The SPI as the listener holds it: a C int. */
  function SpiInt(e: seq<byte>): int {
    if |e| >= 16 then ToInt32(ReadSa(e).spi) else 0
  }

  /** A number of 32 bits as a C int. */
  lemma IntOf32(n: nat)
    requires n < 0x1_0000_0000
    ensures ToInt32(n) == if n < 0x8000_0000 then n else n - 0x1_0000_0000
  {
  }

  /** An SPI put on the wire in network order is the number the listener takes it for, below 2^31. */
  lemma SpiOnTheWire(n: nat, replay: nat, state: nat, auth: nat, encrypt: nat)
    requires n < 0x8000_0000
    ensures SpiInt(Sa(n, replay, state, auth, encrypt)) == n
  {
    hide Sa, ReadSa;
    SaReads(n, replay, state, auth, encrypt);
  }

  /** Structures are at least as long as the fields that are read from them. */
  ghost predicate Roomy(m: seq<byte>, exts: seq<nat>)
    requires WellFormed(m, exts)
  {
    && (Body(m, exts, SADB_EXT_SA) != [] ==> |Body(m, exts, SADB_EXT_SA)| >= 16)
    && (Body(m, exts, SADB_EXT_LIFETIME_CURRENT) != [] ==> |Body(m, exts, SADB_EXT_LIFETIME_CURRENT)| >= 32)
    && (Body(m, exts, SADB_X_EXT_POLICY) != [] ==> |Body(m, exts, SADB_X_EXT_POLICY)| >= 16)
    && (Body(m, exts, SADB_EXT_ADDRESS_SRC) != [] ==> |Body(m, exts, SADB_EXT_ADDRESS_SRC)| >= 24)
    && (Body(m, exts, SADB_EXT_ADDRESS_DST) != [] ==> |Body(m, exts, SADB_EXT_ADDRESS_DST)| >= 24)
  }

  /** An extension met on the way is the one the table locates. */
  lemma MetIsBody(m: seq<byte>, exts: seq<nat>, k: nat)
    requires WellFormed(m, exts) && k < |exts|
    ensures 8 * exts[k] + 8 <= |m|
    ensures Body(m, exts, ExtType(m, exts[k])) == SliceAt(m, 8 * exts[k])
    ensures |SliceAt(m, 8 * exts[k])| >= 8
  {
    TilesBounds(m, HEADER_WORDS, MsgWords(m), exts);
    SlotCharacterised(m, MsgWords(m), exts, ExtType(m, exts[k]));
  }

  method AcquireWalk(m: seq<byte>, ghost exts: seq<nat>) returns (index: int, left: int)
    requires Delivered(m, exts) && Roomy(m, exts)
    ensures left == 0
    ensures index == PolicyIndex(Body(m, exts, SADB_X_EXT_POLICY))
    ensures var p := Body(m, exts, 18);
            index == if p == [] then 0
                     else if ReadPolicy(p).id % 0x1_0000_0000 < 0x8000_0000 then ReadPolicy(p).id % 0x1_0000_0000
                     else ReadPolicy(p).id % 0x1_0000_0000 - 0x1_0000_0000
  {
    hide Walking, Seen, SliceAt, Body;
    WalkStarts(m, exts);
    index, left := 0, |m| - 16;
    var off: nat := 16;
    ghost var k := 0;
    while left > 0
      invariant k <= |exts| && Walking(m, exts, k, off, left)
      invariant index == PolicyIndex(Seen(m, exts, k, SADB_X_EXT_POLICY))
      decreases left
    {
      WalkStep(m, exts, k, off, left);
      MetIsBody(m, exts, k);
      if U16At(m, off + 2) == SADB_X_EXT_POLICY {
        index := PolicyIndex(SliceAt(m, off));
      }
      left, off, k := left - 8 * U16At(m, off), off + 8 * U16At(m, off), k + 1;
    }
    WalkEnds(m, exts, k, off, left);
  }

  /** The walk over SADB_EXPIRE: the SPI, and whether a hard lifetime is present. */
  method ExpireWalk(m: seq<byte>, ghost exts: seq<nat>) returns (spi: int, hard: bool, left: int)
    requires Delivered(m, exts) && Roomy(m, exts)
    ensures left == 0
    ensures spi == SpiInt(Body(m, exts, SADB_EXT_SA))
    ensures var sa := Body(m, exts, 1);
            spi == if sa == [] then 0
                   else if ReadSa(sa).spi % 0x1_0000_0000 < 0x8000_0000 then ReadSa(sa).spi % 0x1_0000_0000
                   else ReadSa(sa).spi % 0x1_0000_0000 - 0x1_0000_0000
    ensures hard <==> Body(m, exts, SADB_EXT_LIFETIME_HARD) != []
  {
    hide Walking, Seen, SliceAt, Body;
    WalkStarts(m, exts);
    spi, hard, left := 0, false, |m| - 16;
    var off: nat := 16;
    ghost var k := 0;
    while left > 0
      invariant k <= |exts| && Walking(m, exts, k, off, left)
      invariant spi == SpiInt(Seen(m, exts, k, SADB_EXT_SA))
      invariant hard <==> Seen(m, exts, k, SADB_EXT_LIFETIME_HARD) != []
      decreases left
    {
      WalkStep(m, exts, k, off, left);
      MetIsBody(m, exts, k);
      if U16At(m, off + 2) == SADB_EXT_SA {
        spi := SpiInt(SliceAt(m, off));
      } else if U16At(m, off + 2) == SADB_EXT_LIFETIME_HARD {
        hard := true;
      }
      left, off, k := left - 8 * U16At(m, off), off + 8 * U16At(m, off), k + 1;
    }
    WalkEnds(m, exts, k, off, left);
  }

  // ----- the dump of one message to the log

  /** `print_sadb_msg` looks at the body only past its two checks on the header. */
  predicate Printable(m: seq<byte>, msglen: int) {
    |m| >= 16 && msglen == 8 * MsgWords(m) && U8At(m, 0) == PF_KEY_V2
  }

  /** The extensions printed are all of them, in offset order, or none. */
  method PrintWalk(m: seq<byte>, msglen: int, ghost exts: seq<nat>) returns (seen: seq<nat>)
    requires |m| >= 16
    requires Printable(m, msglen) && msglen != 16 ==> Delivered(m, exts)
    ensures seen == if Printable(m, msglen) && msglen != 16 then exts else []
    ensures seen == if msglen == 8 * ReadHeader(m[..16]).words && m[0] == 2 && msglen != 16 then exts else []
  {
    seen := [];
    assert m[..16][4..6] == m[4..6];
    if msglen != 8 * U16At(m, 4) {
      return;
    }
    if U8At(m, 0) != PF_KEY_V2 {
      return;
    }
    if msglen == 16 {
      return;
    }
    WalkStarts(m, exts);
    hide Walking, Seen, SliceAt, FromLe, WellFormed;
    var left, off: nat := msglen - 16, 16;
    ghost var k := 0;
    while left > 0
      invariant k <= |exts| && Walking(m, exts, k, off, left)
      invariant seen == exts[..k]
      decreases left
    {
      WalkStep(m, exts, k, off, left);
      assert exts[..k + 1] == exts[..k] + [off / 8];
      seen := seen + [off / 8];
      left, off, k := left - 8 * U16At(m, off), off + 8 * U16At(m, off), k + 1;
    }
    WalkEnds(m, exts, k, off, left);
  }

  /** `supported_print`: the algorithm identifiers of a supported-algorithms extension. */
  method AlgorithmWalk(e: seq<byte>) returns (ids: seq<nat>)
    requires |e| >= 8 && |e| == 8 * U16At(e, 0)
    ensures |ids| == |e| / 8 - 1
    ensures forall i | 0 <= i < |ids| :: ids[i] == e[8 + 8 * i]
  {
    ids := [];
    var len := 8 * U16At(e, 0) - 8;
    var alg := 8;
    while len > 0
      invariant 0 <= len && alg + len == |e| && alg == 8 + 8 * |ids| && len % 8 == 0
      invariant forall i | 0 <= i < |ids| :: ids[i] == e[8 + 8 * i]
    {
      ids := ids + [e[alg]];
      len, alg := len - 8, alg + 8;
    }
  }

  // ----- requests nested in a policy extension

  /** Octets from `off` to the end of a policy extension are whole requests. */
  ghost predicate RequestTiles(e: seq<byte>, off: nat, reqs: seq<nat>)
    decreases |reqs|
  {
    if reqs == [] then off == |e|
    else
      && reqs[0] == off && off + 16 <= |e|
      && 16 <= U16At(e, off) && off + U16At(e, off) <= |e|
      && RequestTiles(e, off + U16At(e, off), reqs[1..])
  }

  datatype Requested = Requested(mode: nat, proto: nat)

  /** The last request wins; without one, the caller's values stay. */
  ghost function LastRequest(e: seq<byte>, off: nat, reqs: seq<nat>, was: Requested): Requested
    requires RequestTiles(e, off, reqs)
    decreases |reqs|
  {
    if reqs == [] then was
    else
      var r := ReadRequest(e[off..off + 16]);
      LastRequest(e, off + U16At(e, off), reqs[1..], Requested(r.mode, r.proto))
  }

  method RequestWalk(e: seq<byte>, was: Requested, ghost reqs: seq<nat>) returns (r: Requested, off: nat)
    requires |e| >= 16 && RequestTiles(e, 16, reqs)
    ensures off == |e|
    ensures r == LastRequest(e, 16, reqs, was)
  {
    r, off := was, 16;
    ghost var rest := reqs;
    while off < |e|
      invariant RequestTiles(e, off, rest) && off <= |e|
      invariant LastRequest(e, off, rest, r) == LastRequest(e, 16, reqs, was)
      decreases |e| - off
    {
      var x := ReadRequest(e[off..off + 16]);
      r := Requested(x.mode, x.proto);
      off, rest := off + U16At(e, off), rest[1..];
    }
    assert rest == [];
  }

  // ----- the same loops on any message

  /** Octets left after k turns of a walk that stands at word w of a message of n words. */
  function LeftAfter(m: seq<byte>, w: nat, n: nat, k: nat): int
    requires 8 * n <= |m|
    decreases k
  {
    if k == 0 || w >= n then 8 * (n - w) else LeftAfter(m, w + ExtWords(m, w), n, k - 1)
  }

  lemma {:induction false} TilingEnds(m: seq<byte>, w: nat, n: nat, exts: seq<nat>)
    requires 8 * n <= |m| && Tiles(m, w, n, exts)
    ensures LeftAfter(m, w, n, |exts|) == 0
    decreases |exts|
  {
    if exts != [] {
      TilingEnds(m, w + ExtWords(m, w), n, exts[1..]);
    }
  }

  lemma {:induction false} EndingTiles(m: seq<byte>, w: nat, n: nat, k: nat) returns (exts: seq<nat>)
    requires 8 * n <= |m| && w <= n && LeftAfter(m, w, n, k) == 0
    ensures Tiles(m, w, n, exts)
    decreases k
  {
    if w == n {
      exts := [];
    } else if ExtWords(m, w) == 0 {
      exts := EndingTiles(m, w, n, k - 1);
    } else {
      var rest := EndingTiles(m, w + ExtWords(m, w), n, k - 1);
      exts := [w] + rest;
      assert exts[1..] == rest;
    }
  }

  /** After k turns of a walk from the start of the body exactly nothing is left. */
  predicate EndsAfter(m: seq<byte>, n: nat, k: nat)
    requires 8 * n <= |m|
  {
    LeftAfter(m, HEADER_WORDS, n, k) == 0
  }

  ghost predicate TilesBody(m: seq<byte>, n: nat, exts: seq<nat>)
    requires 8 * n <= |m|
  {
    Tiles(m, HEADER_WORDS, n, exts)
  }

  /**
   Without the parser's protection a walk comes to exactly zero octets, after some number of
   turns, if and only if the lengths alone tile the message. Types do not matter to it.
   */
  lemma WalkEndsIff(m: seq<byte>, n: nat)
    requires 8 * n <= |m| && HEADER_WORDS <= n
    ensures (exists k: nat :: EndsAfter(m, n, k)) <==> (exists exts: seq<nat> :: TilesBody(m, n, exts))
  {
    if k: nat :| EndsAfter(m, n, k) {
      var exts := EndingTiles(m, HEADER_WORDS, n, k);
      assert TilesBody(m, n, exts);
    }
    if exts: seq<nat> :| TilesBody(m, n, exts) {
      TilingEnds(m, HEADER_WORDS, n, exts);
      assert EndsAfter(m, n, |exts|);
    }
  }

  /** An extension of length zero holds a walk in place for ever. */
  lemma {:induction false} ZeroLengthHolds(m: seq<byte>, w: nat, n: nat, k: nat)
    requires 8 * n <= |m| && w < n && ExtWords(m, w) == 0
    ensures LeftAfter(m, w, n, k) == 8 * (n - w) > 0
    decreases k
  {
    if k > 0 {
      ZeroLengthHolds(m, w, n, k - 1);
    }
  }
}
