/**
 The structures the daemon places in messages: their octets, what a reader finds in them,
 and that the two agree up to the width of each field. Messages put together from whole
 extensions are then well formed, and each extension sits where the table says.
 */
module Extensions {
  import opened Bytes
  import opened Text
  import opened Wire

  const IPSEC_MODE_TUNNEL := 2
  const AF_INET := 2
  const SADB_SASTATE_MATURE := 1
  const IPSEC_LEVEL_REQUIRE := 2
  const IPSEC_LEVEL_UNIQUE := 3

  type Pad = s: seq<byte> | |s| == 8 witness [0, 0, 0, 0, 0, 0, 0, 0]

  /** A C int stored in an unsigned field of w octets. */
  function Wrap(x: int, w: nat): nat {
    x % Pow256(w)
  }

  function ToInt32(x: nat): int {
    var y := x % 0x1_0000_0000;
    if y < 0x8000_0000 then y else y - 0x1_0000_0000
  }

  // ----- encoders

  function Header(ty: nat, satype: nat, words: nat, pid: nat): (s: seq<byte>)
    ensures |s| == 16
  {
    Le(PF_KEY_V2, 1) + Le(ty, 1) + Le(0, 1) + Le(satype, 1) + Le(words, 2) + Le(0, 2)
    + (Le(0, 4) + Le(pid, 4))
  }

  function Sa(spi: nat, replay: nat, state: nat, auth: nat, encrypt: nat): (s: seq<byte>)
    ensures |s| == 16
  {
    Le(2, 2) + Le(SADB_EXT_SA, 2) + Be(spi, 4)
    + Le(replay, 1) + Le(state, 1) + Le(auth, 1) + Le(encrypt, 1) + Le(0, 4)
  }

  function Sa2(mode: nat, reqid: nat): (s: seq<byte>)
    ensures |s| == 16
  {
    Le(2, 2) + Le(SADB_X_EXT_SA2, 2) + Le(mode, 1) + Le(0, 1) + Le(0, 2) + Le(0, 4) + Le(reqid, 4)
  }

  function Lifetime(ty: nat, allocations: nat, octets: nat, addtime: nat, usetime: nat): (s: seq<byte>)
    ensures |s| == 32
  {
    Le(4, 2) + Le(ty, 2) + Le(allocations, 4) + (Le(octets, 8) + Le(addtime, 8) + Le(usetime, 8))
  }

  /** The last eight octets are never assigned by the source: `pad` is whatever they held. */
  function SockAddr(port: nat, quad: Quad, pad: Pad): (s: seq<byte>)
    ensures |s| == 16
  {
    Le(AF_INET, 2) + Be(port, 2) + quad + pad
  }

  function AddressHeader(ty: nat, proto: nat, prefixlen: nat): (s: seq<byte>)
    ensures |s| == 8
  {
    Le(3, 2) + Le(ty, 2) + Le(proto, 1) + Le(prefixlen, 1) + Le(0, 2)
  }

  function Address(ty: nat, proto: nat, prefixlen: nat, port: nat, quad: Quad, pad: Pad): (s: seq<byte>)
    ensures |s| == 24
  {
    AddressHeader(ty, proto, prefixlen) + SockAddr(port, quad, pad)
  }

  function KeyHeader(ty: nat, words: nat, bits: nat): (s: seq<byte>)
    ensures |s| == 8
  {
    Le(words, 2) + Le(ty, 2) + Le(bits, 2) + Le(0, 2)
  }

  /** `top` written over `under` written over zeros, cut at n octets. */
  function Overlay(top: seq<byte>, under: seq<byte>, n: nat): (s: seq<byte>)
    ensures |s| == n
  {
    seq(n, k requires 0 <= k < n =>
      if k < |top| then top[k] else if k < |under| then under[k] else 0)
  }

  function PolicyHeader(words: nat, ty: nat, dir: nat, id: nat): (s: seq<byte>)
    ensures |s| == 16
  {
    Le(words, 2) + Le(SADB_X_EXT_POLICY, 2) + Le(ty, 2) + Le(dir, 1) + Le(0, 1) + Le(id, 4) + Le(0, 4)
  }

  function RequestHeader(len: nat, proto: nat, mode: nat, level: nat, reqid: nat): (s: seq<byte>)
    ensures |s| == 16
  {
    Le(len, 2) + Le(proto, 2) + Le(mode, 1) + Le(level, 1) + Le(0, 2) + Le(reqid, 4) + Le(0, 4)
  }

  // ----- readers

  datatype HeaderView = HeaderView(version: nat, ty: nat, errno: nat, satype: nat, words: nat, sequence: nat, pid: nat)
  datatype SaView = SaView(spi: nat, replay: nat, state: nat, auth: nat, encrypt: nat)
  datatype Sa2View = Sa2View(mode: nat, reqid: nat)
  datatype LifetimeView = LifetimeView(allocations: nat, octets: nat, addtime: nat, usetime: nat)
  datatype AddressView = AddressView(proto: nat, prefixlen: nat, family: nat, port: nat, quad: Quad)
  datatype KeyView = KeyView(words: nat, bits: nat, payload: seq<byte>)
  datatype PolicyView = PolicyView(words: nat, ty: nat, dir: nat, id: nat)
  datatype RequestView = RequestView(len: nat, proto: nat, mode: nat, level: nat, reqid: nat)

  function ReadHeader(e: seq<byte>): HeaderView
    requires |e| >= 16
  {
    HeaderView(U8At(e, 0), U8At(e, 1), U8At(e, 2), U8At(e, 3), U16At(e, 4), U32At(e, 8), U32At(e, 12))
  }

  function ReadSa(e: seq<byte>): SaView
    requires |e| >= 16
  {
    SaView(Be32At(e, 4), U8At(e, 8), U8At(e, 9), U8At(e, 10), U8At(e, 11))
  }

  function ReadSa2(e: seq<byte>): Sa2View
    requires |e| >= 16
  {
    Sa2View(U8At(e, 4), U32At(e, 12))
  }

  function ReadLifetime(e: seq<byte>): LifetimeView
    requires |e| >= 32
  {
    LifetimeView(U32At(e, 4), U64At(e, 8), U64At(e, 16), U64At(e, 24))
  }

  function ReadAddress(e: seq<byte>): AddressView
    requires |e| >= 24
  {
    AddressView(U8At(e, 4), U8At(e, 5), U16At(e, 8), Be16At(e, 10), e[12..16])
  }

  function ReadKey(e: seq<byte>): KeyView
    requires |e| >= 8
  {
    KeyView(U16At(e, 0), U16At(e, 4), e[8..])
  }

  function ReadPolicy(e: seq<byte>): PolicyView
    requires |e| >= 16
  {
    PolicyView(U16At(e, 0), U16At(e, 4), U8At(e, 6), U32At(e, 8))
  }

  function ReadRequest(e: seq<byte>): RequestView
    requires |e| >= 16
  {
    RequestView(U16At(e, 0), U16At(e, 2), U8At(e, 4), U8At(e, 5), U32At(e, 8))
  }

  // ----- readers invert encoders, up to the width of each field

  /** Every integer field reads back modulo the capacity of its width. */
  lemma FieldsRoundTrip()
    ensures forall n: nat :: Le(n, 1)[0] == n % 0x100
    ensures forall n: nat :: FromLe(Le(n, 2)) == n % 0x1_0000
    ensures forall n: nat :: FromLe(Le(n, 4)) == n % 0x1_0000_0000
    ensures forall n: nat :: FromLe(Le(n, 8)) == n % 0x1_0000_0000_0000_0000
    ensures forall n: nat :: FromBe(Be(n, 2)) == n % 0x1_0000
    ensures forall n: nat :: FromBe(Be(n, 4)) == n % 0x1_0000_0000
  {
    Widths();
    forall n: nat
      ensures FromLe(Le(n, 2)) == n % 0x1_0000 && FromLe(Le(n, 4)) == n % 0x1_0000_0000
      ensures FromLe(Le(n, 8)) == n % 0x1_0000_0000_0000_0000
      ensures FromBe(Be(n, 2)) == n % 0x1_0000 && FromBe(Be(n, 4)) == n % 0x1_0000_0000
    {
      LeRoundTrip(n, 2);
      LeRoundTrip(n, 4);
      LeRoundTrip(n, 8);
      BeRoundTrip(n, 2);
      BeRoundTrip(n, 4);
    }
  }

  lemma HeaderReads(ty: nat, satype: nat, words: nat, pid: nat)
    ensures ReadHeader(Header(ty, satype, words, pid)) ==
            HeaderView(2, ty % 0x100, 0, satype % 0x100, words % 0x1_0000, 0, pid % 0x1_0000_0000)
  {
    hide Le, Be, FromLe, FromBe;
    FieldsRoundTrip();
    var e := Header(ty, satype, words, pid);
    assert e[4..6] == Le(words, 2);
    assert e[8..12] == Le(0, 4);
    assert e[12..16] == Le(pid, 4);
  }

  lemma SaReads(spi: nat, replay: nat, state: nat, auth: nat, encrypt: nat)
    ensures ReadSa(Sa(spi, replay, state, auth, encrypt)) ==
            SaView(spi % 0x1_0000_0000, replay % 0x100, state % 0x100, auth % 0x100, encrypt % 0x100)
  {
    hide Le, Be, FromLe, FromBe;
    FieldsRoundTrip();
    assert Sa(spi, replay, state, auth, encrypt)[4..8] == Be(spi, 4);
  }

  lemma Sa2Reads(mode: nat, reqid: nat)
    ensures ReadSa2(Sa2(mode, reqid)) == Sa2View(mode % 0x100, reqid % 0x1_0000_0000)
  {
    hide Le, Be, FromLe, FromBe;
    FieldsRoundTrip();
    assert Sa2(mode, reqid)[12..16] == Le(reqid, 4);
  }

  lemma LifetimeReads(ty: nat, a: nat, b: nat, add: nat, use: nat)
    ensures ReadLifetime(Lifetime(ty, a, b, add, use)) ==
            LifetimeView(a % 0x1_0000_0000, b % 0x1_0000_0000_0000_0000,
                         add % 0x1_0000_0000_0000_0000, use % 0x1_0000_0000_0000_0000)
  {
    hide Le, Be, FromLe, FromBe;
    FieldsRoundTrip();
    var e := Lifetime(ty, a, b, add, use);
    assert e[4..8] == Le(a, 4);
    assert e[8..16] == Le(b, 8);
    assert e[16..24] == Le(add, 8);
    assert e[24..32] == Le(use, 8);
  }

  lemma AddressReads(ty: nat, proto: nat, prefixlen: nat, port: nat, quad: Quad, pad: Pad)
    ensures ReadAddress(Address(ty, proto, prefixlen, port, quad, pad)) ==
            AddressView(proto % 0x100, prefixlen % 0x100, AF_INET, port % 0x1_0000, quad)
  {
    hide Le, Be, FromLe, FromBe;
    FieldsRoundTrip();
    var h, s := AddressHeader(ty, proto, prefixlen), SockAddr(port, quad, pad);
    var e := h + s;
    assert e[4] == h[4] && e[5] == h[5];
    assert s[0..2] == Le(AF_INET, 2) && s[2..4] == Be(port, 2) && s[4..8] == quad;
    assert e[8..10] == s[0..2] && e[10..12] == s[2..4] && e[12..16] == s[4..8];
  }

  lemma KeyReads(ty: nat, words: nat, bits: nat, payload: seq<byte>)
    ensures ReadKey(KeyHeader(ty, words, bits) + payload) == KeyView(words % 0x1_0000, bits % 0x1_0000, payload)
  {
    hide Le, Be, FromLe, FromBe;
    FieldsRoundTrip();
    var h := KeyHeader(ty, words, bits);
    var e := h + payload;
    assert e[0..2] == Le(words, 2);
    assert e[4..6] == Le(bits, 2);
  }

  lemma PolicyReads(words: nat, ty: nat, dir: nat, id: nat, rest: seq<byte>)
    ensures ReadPolicy(PolicyHeader(words, ty, dir, id) + rest) ==
            PolicyView(words % 0x1_0000, ty % 0x1_0000, dir % 0x100, id % 0x1_0000_0000)
  {
    hide Le, Be, FromLe, FromBe;
    FieldsRoundTrip();
    var e := PolicyHeader(words, ty, dir, id);
    assert e[0..2] == Le(words, 2);
    assert e[4..6] == Le(ty, 2);
    assert e[8..12] == Le(id, 4);
    assert (e + rest)[0..2] == e[0..2] && (e + rest)[4..6] == e[4..6] && (e + rest)[8..12] == e[8..12];
  }

  lemma RequestReads(len: nat, proto: nat, mode: nat, level: nat, reqid: nat)
    ensures ReadRequest(RequestHeader(len, proto, mode, level, reqid)) ==
            RequestView(len % 0x1_0000, proto % 0x1_0000, mode % 0x100, level % 0x100, reqid % 0x1_0000_0000)
  {
    hide Le, Be, FromLe, FromBe;
    FieldsRoundTrip();
    var e := RequestHeader(len, proto, mode, level, reqid);
    assert e[0..2] == Le(len, 2);
    assert e[2..4] == Le(proto, 2);
    assert e[8..12] == Le(reqid, 4);
  }

  // ----- messages assembled from whole extensions

  predicate IsExt(e: seq<byte>, ty: nat) {
    |e| >= 8 && |e| == 8 * U16At(e, 0) && U16At(e, 2) == ty
  }

  predicate AreExts(es: seq<seq<byte>>, types: seq<nat>) {
    |es| == |types| && forall i | 0 <= i < |es| :: IsExt(es[i], types[i])
  }

  function Flatten(es: seq<seq<byte>>): seq<byte> {
    if es == [] then [] else es[0] + Flatten(es[1..])
  }

  function WordsOf(es: seq<seq<byte>>): nat {
    if es == [] then 0 else |es[0]| / 8 + WordsOf(es[1..])
  }

  function Starts(w: nat, es: seq<seq<byte>>): (s: seq<nat>)
    ensures |s| == |es|
    decreases |es|
  {
    if es == [] then [] else [w] + Starts(w + |es[0]| / 8, es[1..])
  }

  /** The extension that starts at byte o, whole; empty when the message is too short for it. */
  function SliceAt(m: seq<byte>, o: nat): seq<byte> {
    if o + 2 <= |m| && o + 8 * U16At(m, o) <= |m| then m[o..o + 8 * U16At(m, o)] else []
  }

  /** Octets of the first extension of type t among `exts`; empty when there is none. */
  ghost function BodyIn(m: seq<byte>, b: nat, exts: seq<nat>, t: nat): seq<byte>
    requires 8 * b <= |m|
    requires forall i | 0 <= i < |exts| :: exts[i] < b
  {
    var o := Slot(m, b, exts, t);
    if o != 0 then SliceAt(m, o) else []
  }

  /** Octets of the extension of type t in an accepted message; empty when it has none. */
  ghost function Body(m: seq<byte>, exts: seq<nat>, t: nat): seq<byte>
    requires WellFormed(m, exts)
  {
    BodyIn(m, MsgWords(m), exts, t)
  }

  ghost predicate Located(m: seq<byte>, o: nat, e: seq<byte>) {
    o + |e| <= |m| && m[o..o + |e|] == e
  }

  lemma OneFlatten(e: seq<byte>)
    ensures Flatten([e]) == e
  {
  }

  lemma EmptyFlatten()
    ensures Flatten([]) == []
  {
  }

  lemma {:induction false} FlattenAppend(es: seq<seq<byte>>, e: seq<byte>)
    ensures Flatten(es + [e]) == Flatten(es) + e
  {
    if es == [] {
      assert es + [e] == [e];
    } else {
      FlattenAppend(es[1..], e);
      assert (es + [e])[1..] == es[1..] + [e];
    }
  }

  lemma {:induction false} FlattenConcat(es: seq<seq<byte>>, fs: seq<seq<byte>>)
    ensures Flatten(es + fs) == Flatten(es) + Flatten(fs)
    decreases |fs|
  {
    if fs == [] {
      assert es + fs == es;
    } else {
      FlattenConcat(es + [fs[0]], fs[1..]);
      FlattenAppend(es, fs[0]);
      assert es + fs == es + [fs[0]] + fs[1..];
    }
  }

  lemma {:induction false} FlattenLength(es: seq<seq<byte>>, types: seq<nat>)
    requires AreExts(es, types)
    ensures |Flatten(es)| == 8 * WordsOf(es)
  {
    hide FromLe, Le;
    if es != [] {
      FlattenLength(es[1..], types[1..]);
    }
  }

  lemma LocatedSplits(m: seq<byte>, o: nat, e: seq<byte>, rest: seq<byte>)
    requires Located(m, o, e + rest)
    ensures Located(m, o, e) && Located(m, o + |e|, rest)
  {
    Subslice(m, o, |e + rest|, 0, |e|);
    Subslice(m, o, |e + rest|, |e|, |e + rest|);
    assert (e + rest)[0..|e|] == e && (e + rest)[|e|..|e + rest|] == rest;
  }

  lemma {:induction false} EachLocated(m: seq<byte>, w: nat, es: seq<seq<byte>>, types: seq<nat>, i: nat)
    requires AreExts(es, types) && Located(m, 8 * w, Flatten(es)) && i < |es|
    ensures Located(m, 8 * Starts(w, es)[i], es[i])
    decreases |es|
  {
    LocatedSplits(m, 8 * w, es[0], Flatten(es[1..]));
    if i > 0 {
      EachLocated(m, w + |es[0]| / 8, es[1..], types[1..], i - 1);
    }
  }

  lemma ReadsExt(m: seq<byte>, w: nat, e: seq<byte>, ty: nat)
    requires IsExt(e, ty) && Located(m, 8 * w, e)
    ensures 8 * ExtWords(m, w) == |e| && ExtType(m, w) == ty
  {
    Subslice(m, 8 * w, |e|, 0, 2);
    Subslice(m, 8 * w, |e|, 2, 4);
  }

  lemma BodyIs(m: seq<byte>, exts: seq<nat>, i: nat, e: seq<byte>, t: nat)
    requires WellFormed(m, exts) && i < |exts| && IsExt(e, t) && Located(m, 8 * exts[i], e)
    ensures Body(m, exts, t) == e
  {
    hide FromLe, Le;
    TilesBounds(m, HEADER_WORDS, MsgWords(m), exts);
    ReadsExt(m, exts[i], e, t);
    SlotCharacterised(m, MsgWords(m), exts, t);
  }

  /** Whole extensions in a row tile the words they occupy, in order. */
  lemma {:induction false} LocatedTiles(m: seq<byte>, w: nat, es: seq<seq<byte>>, types: seq<nat>)
    requires AreExts(es, types) && Located(m, 8 * w, Flatten(es))
    ensures 8 * (w + WordsOf(es)) <= |m| && Tiles(m, w, w + WordsOf(es), Starts(w, es))
    decreases |es|
  {
    hide FromLe, Le;
    FlattenLength(es, types);
    if es != [] {
      var e, rest := es[0], es[1..];
      var k, b, s := U16At(e, 0), w + WordsOf(es), Starts(w, es);
      LocatedSplits(m, 8 * w, e, Flatten(rest));
      ReadsExt(m, w, e, types[0]);
      assert |e| / 8 == k;
      assert AreExts(rest, types[1..]);
      LocatedTiles(m, w + k, rest, types[1..]);
      assert b == w + k + WordsOf(rest);
      assert s == [w] + Starts(w + k, rest);
      assert s[0] == w && s[1..] == Starts(w + k, rest);
      assert ExtWords(m, w) == k;
      assert Tiles(m, w + k, b, s[1..]);
    }
  }

  /**
   A header announcing its true length in front of extensions of distinct known types makes
   a message the parser accepts, and each extension is found whole under its type.
   */
  lemma AssembledIsWellFormed(h: seq<byte>, es: seq<seq<byte>>, types: seq<nat>)
    requires |h| == 16 && AreExts(es, types)
    requires forall i | 0 <= i < |types| :: 1 <= types[i] <= SADB_EXT_MAX
    requires forall i, j | 0 <= i < j < |types| :: types[i] != types[j]
    requires U16At(h, 4) == 2 + WordsOf(es)
    ensures var m, s := h + Flatten(es), Starts(2, es);
            && WellFormed(m, s) && |m| == 8 * MsgWords(m)
            && (forall i | 0 <= i < |es| :: Body(m, s, types[i]) == es[i])
            && (forall t: nat :: Slot(m, MsgWords(m), s, t) != 0 <==> t in types)
  {
    hide FromLe, Le;
    var m, s := h + Flatten(es), Starts(2, es);
    FlattenLength(es, types);
    LocatedTiles(m, 2, es, types);
    assert m[4..6] == h[4..6];
    var n := MsgWords(m);
    TilesBounds(m, 2, n, s);
    forall i | 0 <= i < |es|
      ensures Located(m, 8 * s[i], es[i]) && ExtType(m, s[i]) == types[i]
    {
      EachLocated(m, 2, es, types, i);
      ReadsExt(m, s[i], es[i], types[i]);
    }
    assert WellFormed(m, s);
    forall i | 0 <= i < |es|
      ensures Body(m, s, types[i]) == es[i]
    {
      BodyIs(m, s, i, es[i], types[i]);
    }
    forall t: nat
      ensures Slot(m, n, s, t) != 0 <==> t in types
    {
      SlotCharacterised(m, n, s, t);
    }
  }

  lemma ThreeWords(es: seq<seq<byte>>, a: nat, b: nat, c: nat)
    requires |es| == 3 && |es[0]| == 8 * a && |es[1]| == 8 * b && |es[2]| == 8 * c
    ensures WordsOf(es) == a + b + c
  {
    var s1 := es[1..];
    var s2 := s1[1..];
    assert s2[1..] == [];
    assert WordsOf(s2) == c;
    assert WordsOf(s1) == b + c;
  }

  lemma HeaderWords(h: seq<byte>)
    requires |h| == 16
    ensures U16At(h, 4) == ReadHeader(h).words
  {
  }

  // ----- the encoders produce whole extensions

  lemma SaIsExt(spi: nat, replay: nat, state: nat, auth: nat, encrypt: nat)
    ensures IsExt(Sa(spi, replay, state, auth, encrypt), SADB_EXT_SA)
  {
    hide Le, Be, FromLe, FromBe;
    FieldsRoundTrip();
    var x := Sa(spi, replay, state, auth, encrypt);
    assert x[0..2] == Le(2, 2) && x[2..4] == Le(SADB_EXT_SA, 2);
  }

  lemma Sa2IsExt(mode: nat, reqid: nat)
    ensures IsExt(Sa2(mode, reqid), SADB_X_EXT_SA2)
  {
    hide Le, Be, FromLe, FromBe;
    FieldsRoundTrip();
    var x := Sa2(mode, reqid);
    assert x[0..2] == Le(2, 2) && x[2..4] == Le(SADB_X_EXT_SA2, 2);
  }

  lemma LifetimeIsExt(ty: nat, a: nat, b: nat, add: nat, use: nat)
    requires ty < 0x1_0000
    ensures IsExt(Lifetime(ty, a, b, add, use), ty)
  {
    hide Le, Be, FromLe, FromBe;
    FieldsRoundTrip();
    var x := Lifetime(ty, a, b, add, use);
    assert x[0..2] == Le(4, 2) && x[2..4] == Le(ty, 2);
  }

  lemma AddressIsExt(ty: nat, proto: nat, prefixlen: nat, port: nat, quad: Quad, pad: Pad)
    requires ty < 0x1_0000
    ensures IsExt(Address(ty, proto, prefixlen, port, quad, pad), ty)
  {
    hide Le, Be, FromLe, FromBe;
    FieldsRoundTrip();
    var h := AddressHeader(ty, proto, prefixlen);
    var x := Address(ty, proto, prefixlen, port, quad, pad);
    assert h[0..2] == Le(3, 2) && h[2..4] == Le(ty, 2);
    assert x[0..2] == h[0..2] && x[2..4] == h[2..4];
  }

  lemma KeyIsExt(ty: nat, words: nat, bits: nat, payload: seq<byte>)
    requires ty < 0x1_0000 && 1 <= words < 0x1_0000 && |payload| == 8 * words - 8
    ensures IsExt(KeyHeader(ty, words, bits) + payload, ty)
  {
    hide Le, Be, FromLe, FromBe;
    FieldsRoundTrip();
    var h := KeyHeader(ty, words, bits);
    assert h[0..2] == Le(words, 2) && h[2..4] == Le(ty, 2);
    assert (h + payload)[0..2] == h[0..2] && (h + payload)[2..4] == h[2..4];
  }
}
