/**
 What a reader of the built messages gets back. Every SADB_ADD the daemon builds is accepted
 by the parser, its table holds exactly the extensions the entry calls for, and each decodes
 to the entry's fields up to the width of the wire fields.
 */
module SaRoundTrip {
  import opened Bytes
  import opened Text
  import opened Wire
  import opened Extensions
  import opened SadEntry
  import opened MessageBuffer
  import opened SaMessage

  function AddTypes(d: SadData): seq<nat> {
    [SADB_EXT_SA, SADB_X_EXT_SA2, SADB_EXT_LIFETIME_HARD, SADB_EXT_LIFETIME_SOFT,
     SADB_EXT_ADDRESS_SRC, SADB_EXT_ADDRESS_DST]
    + (if d.encryptionAlg == SADB_EALG_NONE then [] else [SADB_EXT_KEY_ENCRYPT])
    + (if d.integrityAlg == SADB_AALG_NONE then [] else [SADB_EXT_KEY_AUTH])
  }

  function AddCuts(d: SadData, host: Host): seq<nat>
    requires Addable(d)
  {
    Starts(2, AddExts(d, host))
  }

  /** The decoded form of an SADB_ADD message; an absent key extension reads as None. */
  datatype Association = Association(
    header: HeaderView, sa: SaView, sa2: Sa2View, hard: LifetimeView, soft: LifetimeView,
    src: AddressView, dst: AddressView, encrypt: Option<KeyView>, auth: Option<KeyView>)

  ghost predicate Decodable(m: seq<byte>, exts: seq<nat>) {
    && WellFormed(m, exts)
    && |Body(m, exts, SADB_EXT_SA)| >= 16 && |Body(m, exts, SADB_X_EXT_SA2)| >= 16
    && |Body(m, exts, SADB_EXT_LIFETIME_HARD)| >= 32 && |Body(m, exts, SADB_EXT_LIFETIME_SOFT)| >= 32
    && |Body(m, exts, SADB_EXT_ADDRESS_SRC)| >= 24 && |Body(m, exts, SADB_EXT_ADDRESS_DST)| >= 24
  }

  ghost function DecodeKey(e: seq<byte>): Option<KeyView> {
    if |e| >= 8 then Some(ReadKey(e)) else None
  }

  ghost function Decode(m: seq<byte>, exts: seq<nat>): Association
    requires Decodable(m, exts)
  {
    Association(
      ReadHeader(m[..16]),
      ReadSa(Body(m, exts, SADB_EXT_SA)), ReadSa2(Body(m, exts, SADB_X_EXT_SA2)),
      ReadLifetime(Body(m, exts, SADB_EXT_LIFETIME_HARD)), ReadLifetime(Body(m, exts, SADB_EXT_LIFETIME_SOFT)),
      ReadAddress(Body(m, exts, SADB_EXT_ADDRESS_SRC)), ReadAddress(Body(m, exts, SADB_EXT_ADDRESS_DST)),
      DecodeKey(Body(m, exts, SADB_EXT_KEY_ENCRYPT)), DecodeKey(Body(m, exts, SADB_EXT_KEY_AUTH)))
  }

  // ----- the entry, cut to the widths of the wire

  const U8 := 0x100
  const U16 := 0x1_0000
  const U32 := 0x1_0000_0000
  const U64 := 0x1_0000_0000_0000_0000

  function CutLifetime(l: Lifetimes): LifetimeView {
    LifetimeView(l.packets % U32, l.octets % U64, l.time % U64, l.idle % U64)
  }

  function CutAddress(d: SadData, port: nat, e: Endpoint): AddressView {
    AddressView(d.innerProtocol % U8, e.prefixlen % U8, AF_INET, port % U16, e.quad)
  }

  function Cut(d: SadData, host: Host): Association
    requires Addable(d)
  {
    Association(
      HeaderView(PF_KEY_V2, SADB_ADD, 0, Satype(d.protocolParameters), AddWords(d), 0, host.pid % U32),
      SaView(d.spi % U32, d.antiReplayWindow % U8, SADB_SASTATE_MATURE, d.integrityAlg % U8, d.encryptionAlg % U8),
      Sa2View(d.ipsecMode % U8, d.reqId % U32),
      CutLifetime(d.hard), CutLifetime(d.soft),
      CutAddress(d, d.srcPort, LocalEnd(d, host)), CutAddress(d, d.dstPort, RemoteEnd(d, host)),
      if d.encryptionAlg == SADB_EALG_NONE then None
      else Some(KeyView(EncryptWords(d.encryptionAlg), EncryptBits(d.encryptionAlg), EncryptPayload(d))),
      if d.integrityAlg == SADB_AALG_NONE then None
      else Some(KeyView(AUTH_WORDS, AUTH_BITS, AuthPayload(d))))
  }

  lemma AddExtsAreExts(d: SadData, host: Host)
    requires Addable(d)
    ensures AreExts(AddExts(d, host), AddTypes(d))
    ensures WordsOf(AddExts(d, host)) + 2 == AddWords(d)
  {
    hide Sa, Sa2, Lifetime, Address, KeyHeader, IsExt;
    var src, dst := LocalEnd(d, host), RemoteEnd(d, host);
    SaIsExt(d.spi, d.antiReplayWindow, SADB_SASTATE_MATURE, d.integrityAlg, d.encryptionAlg);
    Sa2IsExt(d.ipsecMode, d.reqId);
    LifetimeIsExt(SADB_EXT_LIFETIME_HARD, d.hard.packets, d.hard.octets, d.hard.time, d.hard.idle);
    LifetimeIsExt(SADB_EXT_LIFETIME_SOFT, d.soft.packets, d.soft.octets, d.soft.time, d.soft.idle);
    AddressIsExt(SADB_EXT_ADDRESS_SRC, d.innerProtocol, src.prefixlen, d.srcPort, src.quad, host.srcPad);
    AddressIsExt(SADB_EXT_ADDRESS_DST, d.innerProtocol, dst.prefixlen, d.dstPort, dst.quad, host.dstPad);
    KeyIsExt(SADB_EXT_KEY_ENCRYPT, EncryptWords(d.encryptionAlg), EncryptBits(d.encryptionAlg), EncryptPayload(d));
    KeyIsExt(SADB_EXT_KEY_AUTH, AUTH_WORDS, AUTH_BITS, AuthPayload(d));
    WordsConcat(AddBase(d, host), AddKeys(d));
    SixWords(AddBase(d, host), 2, 2, 4, 4, 3, 3);
    KeyWords(d);
  }

  lemma {:induction false} WordsConcat(es: seq<seq<byte>>, fs: seq<seq<byte>>)
    ensures WordsOf(es + fs) == WordsOf(es) + WordsOf(fs)
    decreases |es|
  {
    if es == [] {
      assert es + fs == fs;
    } else {
      WordsConcat(es[1..], fs);
      assert (es + fs)[1..] == es[1..] + fs;
    }
  }

  lemma SixWords(es: seq<seq<byte>>, a: nat, b: nat, c: nat, d: nat, e: nat, f: nat)
    requires |es| == 6 && |es[0]| == 8 * a && |es[1]| == 8 * b && |es[2]| == 8 * c
    requires |es[3]| == 8 * d && |es[4]| == 8 * e && |es[5]| == 8 * f
    ensures WordsOf(es) == a + b + c + d + e + f
  {
    var s1 := es[1..];
    var s2 := s1[1..];
    var s3 := s2[1..];
    var s4 := s3[1..];
    var s5 := s4[1..];
    assert s5[1..] == [];
    assert WordsOf(s5) == f;
    assert WordsOf(s4) == e + f;
    assert WordsOf(s3) == d + e + f;
    assert WordsOf(s2) == c + d + e + f;
    assert WordsOf(s1) == b + c + d + e + f;
  }

  lemma KeyWords(d: SadData)
    ensures WordsOf(AddKeys(d)) + 20 == AddWords(d)
  {
    hide KeyHeader, Overlay;
    var enc := if d.encryptionAlg == SADB_EALG_NONE then [] else [EncryptKey(d)];
    var auth := if d.integrityAlg == SADB_AALG_NONE then [] else [AuthKey(d)];
    WordsConcat(enc, auth);
    assert AddKeys(d) == enc + auth;
  }

  /** The parser accepts every SADB_ADD, and its table is exactly what the entry calls for. */
  lemma AddIsAccepted(d: SadData, host: Host)
    requires Addable(d)
    ensures var m, exts := AddMessage(d, host), AddCuts(d, host);
            && WellFormed(m, exts) && |m| == 8 * MsgWords(m)
            && forall t: nat :: Slot(m, MsgWords(m), exts, t) != 0 <==>
                 || t in {SADB_EXT_SA, SADB_X_EXT_SA2, SADB_EXT_LIFETIME_HARD, SADB_EXT_LIFETIME_SOFT,
                          SADB_EXT_ADDRESS_SRC, SADB_EXT_ADDRESS_DST}
                 || (t == SADB_EXT_KEY_ENCRYPT && d.encryptionAlg != SADB_EALG_NONE)
                 || (t == SADB_EXT_KEY_AUTH && d.integrityAlg != SADB_AALG_NONE)
  {
    hide AddMessage, AddCuts, AddExts, Body, WellFormed, Slot, Addable;
    AddBodies(d, host);
  }

  lemma AddBodies(d: SadData, host: Host)
    requires Addable(d)
    ensures var m, exts, es, ts := AddMessage(d, host), AddCuts(d, host), AddExts(d, host), AddTypes(d);
            && |es| == |ts|
            && WellFormed(m, exts) && |m| == 8 * MsgWords(m)
            && (forall t: nat :: Slot(m, MsgWords(m), exts, t) != 0 <==> t in ts)
            && (forall i | 0 <= i < |ts| :: Body(m, exts, ts[i]) == es[i])
            && (forall t: nat | t !in ts :: Body(m, exts, t) == [])
  {
    hide AddExts, Header, IsExt, Flatten;
    var h := Header(SADB_ADD, Satype(d.protocolParameters), AddWords(d), host.pid);
    HeaderReads(SADB_ADD, Satype(d.protocolParameters), AddWords(d), host.pid);
    AddExtsAreExts(d, host);
    AssembledIsWellFormed(h, AddExts(d, host), AddTypes(d));
  }

  lemma BaseBodies(d: SadData, host: Host)
    requires Addable(d)
    ensures var m, exts := AddMessage(d, host), AddCuts(d, host);
            && WellFormed(m, exts)
            && Body(m, exts, SADB_EXT_SA) == SaOf(d)
            && Body(m, exts, SADB_X_EXT_SA2) == Sa2(d.ipsecMode, d.reqId)
            && Body(m, exts, SADB_EXT_LIFETIME_HARD) == LifetimeOf(SADB_EXT_LIFETIME_HARD, d.hard)
            && Body(m, exts, SADB_EXT_LIFETIME_SOFT) == LifetimeOf(SADB_EXT_LIFETIME_SOFT, d.soft)
            && Body(m, exts, SADB_EXT_ADDRESS_SRC) == SrcOf(d, LocalEnd(d, host), host)
            && Body(m, exts, SADB_EXT_ADDRESS_DST) == DstOf(d, RemoteEnd(d, host), host)
  {
    hide AddMessage, AddCuts, AddKeys, Body, WellFormed, Slot, SaOf, Sa2, LifetimeOf, SrcOf, DstOf, LocalEnd, RemoteEnd;
    var es, ts := AddExts(d, host), AddTypes(d);
    AddBodies(d, host);
    assert es[0] == SaOf(d) && ts[0] == SADB_EXT_SA;
    assert es[1] == Sa2(d.ipsecMode, d.reqId) && ts[1] == SADB_X_EXT_SA2;
    assert ts[2] == SADB_EXT_LIFETIME_HARD && ts[3] == SADB_EXT_LIFETIME_SOFT;
    assert ts[4] == SADB_EXT_ADDRESS_SRC && ts[5] == SADB_EXT_ADDRESS_DST;
  }

  lemma KeyBodies(d: SadData, host: Host)
    requires Addable(d)
    ensures var m, exts := AddMessage(d, host), AddCuts(d, host);
            && WellFormed(m, exts)
            && Body(m, exts, SADB_EXT_KEY_ENCRYPT) == (if d.encryptionAlg == SADB_EALG_NONE then [] else EncryptKey(d))
            && Body(m, exts, SADB_EXT_KEY_AUTH) == (if d.integrityAlg == SADB_AALG_NONE then [] else AuthKey(d))
  {
    hide AddMessage, AddCuts, AddBase, Body, WellFormed, Slot, EncryptKey, AuthKey;
    var es, ts := AddExts(d, host), AddTypes(d);
    AddBodies(d, host);
    assert |AddBase(d, host)| == 6 by { BaseLength(d, host); }
    if d.encryptionAlg != SADB_EALG_NONE {
      assert ts[6] == SADB_EXT_KEY_ENCRYPT && es[6] == EncryptKey(d);
    }
    if d.integrityAlg != SADB_AALG_NONE {
      assert ts[|ts| - 1] == SADB_EXT_KEY_AUTH && es[|ts| - 1] == AuthKey(d);
    }
  }

  lemma BaseLength(d: SadData, host: Host)
    requires Addable(d)
    ensures |AddBase(d, host)| == 6
  {
  }

  lemma SaDecodes(d: SadData)
    ensures |SaOf(d)| == 16 && |Sa2(d.ipsecMode, d.reqId)| == 16
    ensures ReadSa(SaOf(d)) ==
            SaView(d.spi % U32, d.antiReplayWindow % U8, SADB_SASTATE_MATURE, d.integrityAlg % U8, d.encryptionAlg % U8)
    ensures ReadSa2(Sa2(d.ipsecMode, d.reqId)) == Sa2View(d.ipsecMode % U8, d.reqId % U32)
  {
    hide Sa, Sa2, ReadSa, ReadSa2;
    SaReads(d.spi, d.antiReplayWindow, SADB_SASTATE_MATURE, d.integrityAlg, d.encryptionAlg);
    Sa2Reads(d.ipsecMode, d.reqId);
  }

  lemma LifetimeDecodes(ty: nat, l: Lifetimes)
    ensures |LifetimeOf(ty, l)| == 32 && ReadLifetime(LifetimeOf(ty, l)) == CutLifetime(l)
  {
    hide Lifetime, ReadLifetime;
    LifetimeReads(ty, l.packets, l.octets, l.time, l.idle);
  }

  lemma AddressDecodes(d: SadData, src: Endpoint, dst: Endpoint, host: Host)
    ensures |SrcOf(d, src, host)| == 24 && |DstOf(d, dst, host)| == 24
    ensures ReadAddress(SrcOf(d, src, host)) == CutAddress(d, d.srcPort, src)
    ensures ReadAddress(DstOf(d, dst, host)) == CutAddress(d, d.dstPort, dst)
  {
    hide Address, ReadAddress;
    AddressReads(SADB_EXT_ADDRESS_SRC, d.innerProtocol, src.prefixlen, d.srcPort, src.quad, host.srcPad);
    AddressReads(SADB_EXT_ADDRESS_DST, d.innerProtocol, dst.prefixlen, d.dstPort, dst.quad, host.dstPad);
  }

  lemma KeysDecode(d: SadData)
    ensures |EncryptKey(d)| >= 8 && |AuthKey(d)| >= 8
    ensures ReadKey(EncryptKey(d)) ==
            KeyView(EncryptWords(d.encryptionAlg), EncryptBits(d.encryptionAlg), EncryptPayload(d))
    ensures ReadKey(AuthKey(d)) == KeyView(AUTH_WORDS, AUTH_BITS, AuthPayload(d))
  {
    hide KeyHeader, ReadKey, Overlay;
    KeyReads(SADB_EXT_KEY_ENCRYPT, EncryptWords(d.encryptionAlg), EncryptBits(d.encryptionAlg), EncryptPayload(d));
    KeyReads(SADB_EXT_KEY_AUTH, AUTH_WORDS, AUTH_BITS, AuthPayload(d));
  }

  lemma HeaderDecodes(d: SadData, host: Host)
    requires Addable(d)
    ensures |AddMessage(d, host)| >= 16 && ReadHeader(AddMessage(d, host)[..16]) == Cut(d, host).header
  {
    hide Header, ReadHeader, Flatten, AddExts;
    var h := Header(SADB_ADD, Satype(d.protocolParameters), AddWords(d), host.pid);
    assert AddMessage(d, host)[..16] == h;
    HeaderReads(SADB_ADD, Satype(d.protocolParameters), AddWords(d), host.pid);
  }

  /** Round trip for every entry: decoding the built message gives the entry cut to the wire. */
  lemma AddRoundTrip(d: SadData, host: Host)
    requires Addable(d)
    ensures Decodable(AddMessage(d, host), AddCuts(d, host))
    ensures Decode(AddMessage(d, host), AddCuts(d, host)) == Cut(d, host)
  {
    hide AddMessage, AddCuts, Body, WellFormed, SaOf, Sa2, LifetimeOf, SrcOf, DstOf, LocalEnd, RemoteEnd,
      EncryptKey, AuthKey, EncryptPayload, AuthPayload, EncryptWords, EncryptBits,
      ReadHeader, ReadSa, ReadSa2, ReadLifetime, ReadAddress, ReadKey, CutAddress, CutLifetime;
    BaseBodies(d, host);
    KeyBodies(d, host);
    HeaderDecodes(d, host);
    SaDecodes(d);
    LifetimeDecodes(SADB_EXT_LIFETIME_HARD, d.hard);
    LifetimeDecodes(SADB_EXT_LIFETIME_SOFT, d.soft);
    AddressDecodes(d, LocalEnd(d, host), RemoteEnd(d, host), host);
    KeysDecode(d);
  }

  // ----- entries that fit

  predicate LifetimesFit(l: Lifetimes) {
    l.packets < U32 && l.octets < U64 && l.time < U64 && l.idle < U64
  }

  /** Every field fits its place on the wire, and each key fits its extension. */
  predicate Fits(d: SadData) {
    && d.spi < U32 && d.reqId < U32 && d.antiReplayWindow < U8 && d.ipsecMode < U8
    && d.integrityAlg < U8 && d.encryptionAlg < U8 && d.innerProtocol < U8
    && d.srcPort < U16 && d.dstPort < U16
    && LifetimesFit(d.hard) && LifetimesFit(d.soft)
    && (d.encryptionAlg != SADB_EALG_NONE ==> |d.encryptionKey| <= 8 * EncryptWords(d.encryptionAlg) - 8)
    && |d.integrityKey| <= 8 * AUTH_WORDS - 8
  }

  function Whole(l: Lifetimes): LifetimeView {
    LifetimeView(l.packets, l.octets, l.time, l.idle)
  }

  /** The entry itself, in decoded form, with its keys padded to their extensions. */
  ghost predicate Recovered(a: Association, d: SadData, host: Host)
    requires Addable(d)
  {
    && a.sa == SaView(d.spi, d.antiReplayWindow, SADB_SASTATE_MATURE, d.integrityAlg, d.encryptionAlg)
    && a.sa2 == Sa2View(d.ipsecMode, d.reqId)
    && a.hard == Whole(d.hard) && a.soft == Whole(d.soft)
    && a.src == AddressView(d.innerProtocol, LocalEnd(d, host).prefixlen, AF_INET, d.srcPort, LocalEnd(d, host).quad)
    && a.dst == AddressView(d.innerProtocol, RemoteEnd(d, host).prefixlen, AF_INET, d.dstPort, RemoteEnd(d, host).quad)
    && (a.encrypt.Some? <==> d.encryptionAlg != SADB_EALG_NONE)
    && (a.auth.Some? <==> d.integrityAlg != SADB_AALG_NONE)
    && (a.encrypt.Some? ==> IsPadded(a.encrypt.value.payload, d.encryptionKey))
    && (a.auth.Some? ==> IsPadded(a.auth.value.payload, d.integrityKey))
  }

  /** An entry that fits is recovered exactly: every field, and each key followed by zeros. */
  lemma AddRoundTripExact(d: SadData, host: Host)
    requires Addable(d) && Fits(d)
    ensures Decodable(AddMessage(d, host), AddCuts(d, host))
    ensures Recovered(Decode(AddMessage(d, host), AddCuts(d, host)), d, host)
  {
    hide AddMessage, AddCuts, Decode, Decodable, Cut, Recovered, Fits, Addable;
    AddRoundTrip(d, host);
    CutIsWhole(d, host);
  }

  lemma CutIsWhole(d: SadData, host: Host)
    requires Addable(d) && Fits(d)
    ensures Recovered(Cut(d, host), d, host)
  {
    hide LocalEnd, RemoteEnd, EncryptPayload, AuthPayload, IsPadded;
    EncryptPayloadAlways(d);
    AuthPayloadExact(d);
    EndsAreOctets(d, host);
  }

  lemma EndsAreOctets(d: SadData, host: Host)
    requires Addable(d)
    ensures LocalEnd(d, host).prefixlen < U8 && RemoteEnd(d, host).prefixlen < U8
  {
  }

  // ----- keys

  /** `payload` is the key followed only by zeros. */
  predicate IsPadded(payload: seq<byte>, key: seq<byte>) {
    && |key| <= |payload| && payload[..|key|] == key
    && forall k | |key| <= k < |payload| :: payload[k] == 0
  }

  /** Whatever follows it, an encryption key extension carries the key, cut to the room it has. */
  lemma EncryptPayloadAlways(d: SadData)
    ensures var room := 8 * EncryptWords(d.encryptionAlg) - 8;
            IsPadded(EncryptPayload(d), if |d.encryptionKey| <= room then d.encryptionKey else d.encryptionKey[..room])
  {
  }

  /**
   An authentication key extension is the key followed by zeros exactly when the key fits and
   covers what an oversized encryption key left behind it.
   */
  lemma AuthPayloadExact(d: SadData)
    ensures IsPadded(AuthPayload(d), d.integrityKey) <==>
            |d.integrityKey| <= 24 && (|Spill(d)| <= |d.integrityKey| || |d.integrityKey| == 24)
  {
    var a, k := AuthPayload(d), |d.integrityKey|;
    if k < 24 && k < |Spill(d)| {
      assert Spill(d)[k] != 0;
      assert a[k] == Spill(d)[k];
    }
  }

  /** A 64-octet encryption key with 3DES shows up inside the authentication key extension. */
  lemma OversizedKeySpills()
    ensures var key: Octets := seq(64, i => 7);
            var d := BLANK_SAD.(encryptionAlg := 3, encryptionKey := key, integrityAlg := 3, integrityKey := [1]);
            AuthPayload(d)[1] == 7
  {
  }

  /**
   RFC 2367, section 2.3.4: the declared bits must lie inside the extension. The encryption
   key meets this for every algorithm but AES-CBC, the authentication key always.
   */
  lemma KeyBitsCovered(d: SadData)
    ensures EncryptBits(d.encryptionAlg) <= 8 * |EncryptPayload(d)| <==> d.encryptionAlg != SADB_X_EALG_AESCBC
    ensures AUTH_BITS <= 8 * |AuthPayload(d)|
  {
  }

  // ----- naming an association that was added

  lemma NamingIsAccepted(ty: nat, d: SadData, host: Host)
    requires SubnetsSplit(d)
    ensures var m, exts := NamingMessage(ty, d, host), Starts(2, NamingExts(d, host));
            && WellFormed(m, exts) && |m| == 8 * MsgWords(m)
            && Body(m, exts, SADB_EXT_SA) == Sa(d.spi, 0, 0, 0, 0)
            && Body(m, exts, SADB_EXT_ADDRESS_SRC) == SrcOf(d, SubnetEnd(d.localSubnet, host), host)
            && Body(m, exts, SADB_EXT_ADDRESS_DST) == DstOf(d, SubnetEnd(d.remoteSubnet, host), host)
            && (forall t: nat :: Slot(m, MsgWords(m), exts, t) != 0 <==>
                  t in {SADB_EXT_SA, SADB_EXT_ADDRESS_SRC, SADB_EXT_ADDRESS_DST})
  {
    hide Header, Sa, Address, IsExt, Flatten, Body, SubnetEnd;
    var src, dst := SubnetEnd(d.localSubnet, host), SubnetEnd(d.remoteSubnet, host);
    var h, es := Header(ty, Satype(d.protocolParameters), 10, host.pid), NamingExts(d, host);
    var ts := [SADB_EXT_SA, SADB_EXT_ADDRESS_SRC, SADB_EXT_ADDRESS_DST];
    SaIsExt(d.spi, 0, 0, 0, 0);
    AddressIsExt(SADB_EXT_ADDRESS_SRC, d.innerProtocol, src.prefixlen, d.srcPort, src.quad, host.srcPad);
    AddressIsExt(SADB_EXT_ADDRESS_DST, d.innerProtocol, dst.prefixlen, d.dstPort, dst.quad, host.dstPad);
    HeaderReads(ty, Satype(d.protocolParameters), 10, host.pid);
    HeaderWords(h);
    ThreeWords(es, 2, 3, 3);
    AssembledIsWellFormed(h, es, ts);
    var m, exts := NamingMessage(ty, d, host), Starts(2, es);
    assert Body(m, exts, ts[0]) == es[0] && Body(m, exts, ts[1]) == es[1] && Body(m, exts, ts[2]) == es[2];
  }

  /**
   SADB_DELETE and SADB_GET carry the SPI that SADB_ADD carried. They carry the addresses it
   carried exactly in transport mode, or when the tunnel ends are the subnets as host routes.
   */
  lemma NamingMatchesAdd(ty: nat, d: SadData, host: Host)
    requires Addable(d) && SubnetsSplit(d)
    ensures var add, cuts := AddMessage(d, host), AddCuts(d, host);
            var m, exts := NamingMessage(ty, d, host), Starts(2, NamingExts(d, host));
            && WellFormed(add, cuts) && WellFormed(m, exts)
            && |Body(m, exts, SADB_EXT_SA)| == |Body(add, cuts, SADB_EXT_SA)| == 16
            && ReadSa(Body(m, exts, SADB_EXT_SA)).spi == ReadSa(Body(add, cuts, SADB_EXT_SA)).spi
            && ((Body(m, exts, SADB_EXT_ADDRESS_SRC) == Body(add, cuts, SADB_EXT_ADDRESS_SRC)
                 && Body(m, exts, SADB_EXT_ADDRESS_DST) == Body(add, cuts, SADB_EXT_ADDRESS_DST))
                <==> d.ipsecMode != IPSEC_MODE_TUNNEL
                     || (IsHostRoute(d.localSubnet, d.tunnelLocal, host)
                         && IsHostRoute(d.remoteSubnet, d.tunnelRemote, host)))
  {
    hide AddMessage, AddCuts, NamingMessage, NamingExts, Body, WellFormed, SaOf, Sa, Sa2, LifetimeOf, SrcOf, DstOf,
      Slot, Starts, ReadSa, ReadAddress;
    NamingIsAccepted(ty, d, host);
    BaseBodies(d, host);
    SaDecodes(d);
    SaReads(d.spi, 0, 0, 0, 0);
    var local, remote := SubnetEnd(d.localSubnet, host), SubnetEnd(d.remoteSubnet, host);
    AddressDecodes(d, local, remote, host);
    AddressDecodes(d, LocalEnd(d, host), RemoteEnd(d, host), host);
  }

  predicate IsHostRoute(subnet: string, end: string, host: Host)
    requires Splits(subnet)
  {
    GetMask(subnet).value % U8 == 32 && host.inet(GetIp(subnet).value) == host.inet(end)
  }
}
