/**
 The SADB_ADD, SADB_DELETE and SADB_GET messages (RFC 2367, sections 3.1.3 to 3.1.5), built in
 place in a zeroed buffer by a cursor and a running length.
 */
module SaMessage {
  import opened Bytes
  import opened Text
  import opened Wire
  import opened Extensions
  import opened SadEntry
  import opened MessageBuffer

  const SADB_EALG_NONE := 0
  const SADB_AALG_NONE := 0
  const SADB_EALG_DESCBC := 2
  const SADB_X_EALG_AESCBC := 12
  const EALG_DESCBC_KEY_BITS := 64
  const EALG_3DESCBC_KEY_BITS := 192
  const EAL_AES_KEY_BITS := 256
  /** The source's other branch, for an algorithm number of 160, has the same size. */
  const AALG_SHA1HMAC_KEY_BITS := 160

  /** What the source needs of an entry to build SADB_DELETE or SADB_GET for it. */
  predicate SubnetsSplit(d: SadData) {
    Splits(d.localSubnet) && Splits(d.remoteSubnet)
  }

  /** What the source needs of an entry to build SADB_ADD for it. */
  predicate Addable(d: SadData) {
    && (d.ipsecMode != IPSEC_MODE_TUNNEL ==> SubnetsSplit(d))
    && |d.encryptionKey| < MAX_KEY && |d.integrityKey| < MAX_KEY
  }

  function LocalEnd(d: SadData, host: Host): Endpoint
    requires d.ipsecMode != IPSEC_MODE_TUNNEL ==> SubnetsSplit(d)
  {
    if d.ipsecMode == IPSEC_MODE_TUNNEL then Endpoint(32, host.inet(d.tunnelLocal))
    else SubnetEnd(d.localSubnet, host)
  }

  function RemoteEnd(d: SadData, host: Host): Endpoint
    requires d.ipsecMode != IPSEC_MODE_TUNNEL ==> SubnetsSplit(d)
  {
    if d.ipsecMode == IPSEC_MODE_TUNNEL then Endpoint(32, host.inet(d.tunnelRemote))
    else SubnetEnd(d.remoteSubnet, host)
  }

  // ----- keys

  function EncryptBits(alg: nat): nat {
    if alg == SADB_EALG_DESCBC then EALG_DESCBC_KEY_BITS
    else if alg == SADB_X_EALG_AESCBC then EAL_AES_KEY_BITS
    else EALG_3DESCBC_KEY_BITS
  }

  function EncryptWords(alg: nat): nat {
    if alg == SADB_EALG_DESCBC then (8 + EALG_DESCBC_KEY_BITS / 8 + 7) / 8
    else (8 + EALG_3DESCBC_KEY_BITS / 8 + 7) / 8
  }

  const AUTH_BITS := AALG_SHA1HMAC_KEY_BITS
  const AUTH_WORDS := (8 + AALG_SHA1HMAC_KEY_BITS / 8 + 7) / 8

  /** Octets of the encryption key that reach past its extension and the next key header. */
  function Spill(d: SadData): seq<byte> {
    var room := 8 * EncryptWords(d.encryptionAlg);
    if d.encryptionAlg == SADB_EALG_NONE || |d.encryptionKey| <= room then []
    else d.encryptionKey[room..]
  }

  function EncryptPayload(d: SadData): seq<byte> {
    Overlay(d.encryptionKey, [], 8 * EncryptWords(d.encryptionAlg) - 8)
  }

  function AuthPayload(d: SadData): seq<byte> {
    Overlay(d.integrityKey, Spill(d), 8 * AUTH_WORDS - 8)
  }

  function EncryptKey(d: SadData): seq<byte> {
    KeyHeader(SADB_EXT_KEY_ENCRYPT, EncryptWords(d.encryptionAlg), EncryptBits(d.encryptionAlg)) + EncryptPayload(d)
  }

  function AuthKey(d: SadData): seq<byte> {
    KeyHeader(SADB_EXT_KEY_AUTH, AUTH_WORDS, AUTH_BITS) + AuthPayload(d)
  }

  // ----- whole messages

  function SaOf(d: SadData): (s: seq<byte>)
    ensures |s| == 16
  {
    Sa(d.spi, d.antiReplayWindow, SADB_SASTATE_MATURE, d.integrityAlg, d.encryptionAlg)
  }

  function LifetimeOf(ty: nat, l: Lifetimes): (s: seq<byte>)
    ensures |s| == 32
  {
    Lifetime(ty, l.packets, l.octets, l.time, l.idle)
  }

  function SrcOf(d: SadData, e: Endpoint, host: Host): seq<byte> {
    Address(SADB_EXT_ADDRESS_SRC, d.innerProtocol, e.prefixlen, d.srcPort, e.quad, host.srcPad)
  }

  function DstOf(d: SadData, e: Endpoint, host: Host): seq<byte> {
    Address(SADB_EXT_ADDRESS_DST, d.innerProtocol, e.prefixlen, d.dstPort, e.quad, host.dstPad)
  }

  function AddKeys(d: SadData): seq<seq<byte>> {
    (if d.encryptionAlg == SADB_EALG_NONE then [] else [EncryptKey(d)])
    + (if d.integrityAlg == SADB_AALG_NONE then [] else [AuthKey(d)])
  }

  function AddBase(d: SadData, host: Host): seq<seq<byte>>
    requires Addable(d)
  {
    [SaOf(d), Sa2(d.ipsecMode, d.reqId),
     LifetimeOf(SADB_EXT_LIFETIME_HARD, d.hard), LifetimeOf(SADB_EXT_LIFETIME_SOFT, d.soft),
     SrcOf(d, LocalEnd(d, host), host), DstOf(d, RemoteEnd(d, host), host)]
  }

  function AddExts(d: SadData, host: Host): seq<seq<byte>>
    requires Addable(d)
  {
    AddBase(d, host) + AddKeys(d)
  }

  function AddWords(d: SadData): nat {
    20 + (if d.encryptionAlg == SADB_EALG_NONE then 0 else EncryptWords(d.encryptionAlg))
    + (if d.integrityAlg == SADB_AALG_NONE then 0 else AUTH_WORDS)
  }

  function AddMessage(d: SadData, host: Host): seq<byte>
    requires Addable(d)
  {
    Header(SADB_ADD, Satype(d.protocolParameters), AddWords(d), host.pid) + Flatten(AddExts(d, host))
  }

  /** SADB_DELETE and SADB_GET name the association by SPI and subnets, in either mode. */
  function NamingExts(d: SadData, host: Host): seq<seq<byte>>
    requires SubnetsSplit(d)
  {
    [Sa(d.spi, 0, 0, 0, 0),
     SrcOf(d, SubnetEnd(d.localSubnet, host), host), DstOf(d, SubnetEnd(d.remoteSubnet, host), host)]
  }

  function NamingMessage(ty: nat, d: SadData, host: Host): seq<byte>
    requires SubnetsSplit(d)
  {
    Header(ty, Satype(d.protocolParameters), 10, host.pid) + Flatten(NamingExts(d, host))
  }

  // ----- building in place

  /**
   A key extension: its header, then the whole key, which may run past the extension's end.
   The C string is copied without regard to the length the header declares.
   */
  method PutKey(buf: array<byte>, p: nat, ty: nat, words: nat, bits: nat, key: seq<byte>)
    requires p + 8 + |key| <= buf.Length
    modifies buf
    ensures forall k | 0 <= k < buf.Length ::
              buf[k] == if p <= k < p + 8 + |key| then (KeyHeader(ty, words, bits) + key)[k - p] else old(buf[k])
  {
    Put(buf, p, KeyHeader(ty, words, bits));
    Put(buf, p + 8, key);
  }

  function AddHeader(d: SadData, words: nat, host: Host): (h: seq<byte>)
    ensures |h| == 16
  {
    Header(SADB_ADD, Satype(d.protocolParameters), words, host.pid)
  }

  /** The part of SADB_ADD that every association has. */
  method BuildAddBase(d: SadData, host: Host, buf: array<byte>) returns (p: nat)
    requires Addable(d) && buf.Length == BUFFER_SIZE
    requires Holds(buf, AddHeader(d, 0, host) + Flatten([]))
    modifies buf
    ensures p == 160 && Holds(buf, AddHeader(d, 0, host) + Flatten(AddBase(d, host)))
    ensures |AddHeader(d, 0, host) + Flatten(AddBase(d, host))| == p
  {
    hide AddHeader, SaOf, Sa2, LifetimeOf, Address, Flatten;
    ghost var h, es := AddHeader(d, 0, host), AddBase(d, host);
    EmptyFlatten();
    hide LocalEnd, RemoteEnd;
    p := AppendExt(buf, 16, SaOf(d), h, []);
    p := AppendExt(buf, p, Sa2(d.ipsecMode, d.reqId), h, [] + [es[0]]);
    p := AppendExt(buf, p, LifetimeOf(SADB_EXT_LIFETIME_HARD, d.hard), h, [] + [es[0]] + [es[1]]);
    p := AppendExt(buf, p, LifetimeOf(SADB_EXT_LIFETIME_SOFT, d.soft), h, [] + [es[0]] + [es[1]] + [es[2]]);
    var src, dst := LocalEnd(d, host), RemoteEnd(d, host);
    ghost var four := [] + [es[0]] + [es[1]] + [es[2]] + [es[3]];
    var n := SetAddress(buf, p, SADB_EXT_ADDRESS_SRC, d.innerProtocol, src.prefixlen, d.srcPort, src.quad,
                        host.srcPad, h, four);
    FlattenAppend(four, es[4]);
    p := p + n;
    n := SetAddress(buf, p, SADB_EXT_ADDRESS_DST, d.innerProtocol, dst.prefixlen, d.dstPort, dst.quad,
                    host.dstPad, h, four + [es[4]]);
    FlattenAppend(four + [es[4]], es[5]);
    p := p + n;
    assert four + [es[4]] + [es[5]] == es;
  }

  /** What lies behind the encryption key: nothing, or the end of a key that did not fit. */
  ghost predicate Spilled(buf: array<byte>, q: nat, spill: seq<byte>)
    reads buf
  {
    forall k | q + 8 <= k < buf.Length :: buf[k] == if k - q - 8 < |spill| then spill[k - q - 8] else 0
  }

  method AddEncryptKey(d: SadData, buf: array<byte>, p: nat, ghost base: seq<byte>) returns (q: nat)
    requires Addable(d) && buf.Length == BUFFER_SIZE && Holds(buf, base) && p == |base| == 160
    modifies buf
    ensures q == p + (if d.encryptionAlg == SADB_EALG_NONE then 0 else 8 * EncryptWords(d.encryptionAlg))
    ensures buf[..q] == base + (if d.encryptionAlg == SADB_EALG_NONE then [] else EncryptKey(d))
    ensures Spilled(buf, q, Spill(d))
  {
    hide KeyHeader;
    q := p;
    if d.encryptionAlg != SADB_EALG_NONE {
      PutKey(buf, p, SADB_EXT_KEY_ENCRYPT, EncryptWords(d.encryptionAlg), EncryptBits(d.encryptionAlg),
             d.encryptionKey);
      q := p + 8 * EncryptWords(d.encryptionAlg);
      assert buf[..q] == base + EncryptKey(d);
    }
  }

  method AddAuthKey(d: SadData, buf: array<byte>, p: nat, ghost before: seq<byte>) returns (q: nat)
    requires Addable(d) && buf.Length == BUFFER_SIZE && p == |before| <= 192 && buf[..p] == before
    requires Spilled(buf, p, Spill(d))
    modifies buf
    ensures q == p + (if d.integrityAlg == SADB_AALG_NONE then 0 else 8 * AUTH_WORDS)
    ensures buf[..q] == before + (if d.integrityAlg == SADB_AALG_NONE then [] else AuthKey(d))
  {
    hide KeyHeader;
    q := p;
    if d.integrityAlg != SADB_AALG_NONE {
      PutKey(buf, p, SADB_EXT_KEY_AUTH, AUTH_WORDS, AUTH_BITS, d.integrityKey);
      q := p + 8 * AUTH_WORDS;
      assert forall k | 0 <= k < p :: buf[k] == before[k];
      assert buf[..q] == before + AuthKey(d);
    }
  }

  /**
   `pf_addsad`. The octets written are the specified message, for every entry: the length in
   the header, the running length and the cursor agree.
   */
  method BuildAdd(d: SadData, host: Host) returns (buf: array<byte>, len: nat)
    requires Addable(d)
    ensures fresh(buf) && buf.Length == BUFFER_SIZE
    ensures len <= 224 && len == 8 * AddWords(d)
    ensures buf[..len] == AddMessage(d, host)
  {
    hide Header, EncryptKey, AuthKey, AddBase, AddKeys, Flatten, Spill, Spilled, Addable;
    var p;
    buf, p := Begin(SADB_ADD, Satype(d.protocolParameters), host.pid);
    p := BuildAddBase(d, host, buf);
    ghost var h, body := AddHeader(d, 0, host), Flatten(AddBase(d, host));
    var q := AddEncryptKey(d, buf, p, h + body);
    ghost var mid := buf[..q];
    len := AddAuthKey(d, buf, q, mid);
    AddFlattens(d, AddBase(d, host));
    SetLength(buf, len, SADB_ADD, Satype(d.protocolParameters), host.pid, Flatten(AddExts(d, host)));
  }

  lemma AddFlattens(d: SadData, es: seq<seq<byte>>)
    ensures Flatten(es + AddKeys(d)) ==
            Flatten(es)
            + (if d.encryptionAlg == SADB_EALG_NONE then [] else EncryptKey(d))
            + (if d.integrityAlg == SADB_AALG_NONE then [] else AuthKey(d))
  {
    hide EncryptKey, AuthKey;
    OneFlatten(EncryptKey(d));
    OneFlatten(AuthKey(d));
    EmptyFlatten();
    hide Flatten;
    var enc := if d.encryptionAlg == SADB_EALG_NONE then [] else [EncryptKey(d)];
    var auth := if d.integrityAlg == SADB_AALG_NONE then [] else [AuthKey(d)];
    FlattenConcat(es, enc);
    FlattenConcat(es + enc, auth);
    assert es + AddKeys(d) == es + enc + auth;
  }

  /** `pf_delsad` (type SADB_DELETE) and `pf_getsad` (type SADB_GET). */
  method BuildNaming(ty: nat, d: SadData, host: Host) returns (buf: array<byte>, len: nat)
    requires SubnetsSplit(d)
    ensures fresh(buf) && buf.Length == BUFFER_SIZE && len == 80
    ensures buf[..len] == NamingMessage(ty, d, host)
  {
    hide Header, Sa, Address, Flatten;
    ghost var h, es := Header(ty, Satype(d.protocolParameters), 0, host.pid), NamingExts(d, host);
    var p;
    buf, p := Begin(ty, Satype(d.protocolParameters), host.pid);
    EmptyFlatten();
    p := AppendExt(buf, p, Sa(d.spi, 0, 0, 0, 0), h, []);
    var src, dst := SubnetEnd(d.localSubnet, host), SubnetEnd(d.remoteSubnet, host);
    var n := SetAddress(buf, p, SADB_EXT_ADDRESS_SRC, d.innerProtocol, src.prefixlen, d.srcPort, src.quad,
                        host.srcPad, h, [] + [es[0]]);
    p := p + n;
    n := SetAddress(buf, p, SADB_EXT_ADDRESS_DST, d.innerProtocol, dst.prefixlen, d.dstPort, dst.quad,
                    host.dstPad, h, [] + [es[0]] + [es[1]]);
    len := p + n;
    assert [] + [es[0]] + [es[1]] + [es[2]] == es;
    SetLength(buf, len, ty, Satype(d.protocolParameters), host.pid, Flatten(es));
  }
}
