/**
 SADB_X_SPDADD and SADB_X_SPDDELETE. The policy extension of the former holds an IPsec
 request, which holds the tunnel endpoints: three lengths that must agree.
 */
module PolicyMessage {
  import opened Bytes
  import opened Text
  import opened Wire
  import opened Extensions
  import opened SpdEntry
  import opened MessageBuffer
  import opened Walks

  predicate PolicySplits(d: SpdData) {
    Splits(d.localSubnet) && Splits(d.remoteSubnet)
  }

  function Level(d: SpdData): nat {
    if d.reqId != 0 then IPSEC_LEVEL_UNIQUE else IPSEC_LEVEL_REQUIRE
  }

  function RequestLen(d: SpdData): nat {
    if d.ipsecMode == IPSEC_MODE_TUNNEL then 48 else 16
  }

  function TunnelEnds(d: SpdData, host: Host): (s: seq<byte>)
    ensures |s| == RequestLen(d) - 16
  {
    if d.ipsecMode == IPSEC_MODE_TUNNEL then
      SockAddr(0, host.inet(d.tunnelLocal), host.tunnelSrcPad)
      + SockAddr(0, host.inet(d.tunnelRemote), host.tunnelDstPad)
    else []
  }

  function Request(d: SpdData, host: Host): (s: seq<byte>)
    ensures |s| == RequestLen(d)
  {
    RequestHeader(RequestLen(d), d.protocolParameters, d.ipsecMode, Level(d), d.reqId) + TunnelEnds(d, host)
  }

  function PolicyWords(d: SpdData): nat {
    2 + RequestLen(d) / 8
  }

  function AddPolicyExt(d: SpdData, host: Host): (s: seq<byte>)
    ensures |s| == 16 + RequestLen(d) == 8 * PolicyWords(d)
  {
    PolicyHeader(PolicyWords(d), d.action, d.policyDir, Wrap(d.index, 4)) + Request(d, host)
  }

  function DelPolicyExt(d: SpdData): (s: seq<byte>)
    ensures |s| == 16
  {
    PolicyHeader(2, d.action, d.policyDir, 0)
  }

  function PolicySrc(d: SpdData, host: Host): (s: seq<byte>)
    requires PolicySplits(d)
    ensures |s| == 24
  {
    var e := SubnetEnd(d.localSubnet, host);
    Address(SADB_EXT_ADDRESS_SRC, d.innerProtocol, e.prefixlen, d.srcPort, e.quad, host.srcPad)
  }

  function PolicyDst(d: SpdData, host: Host): (s: seq<byte>)
    requires PolicySplits(d)
    ensures |s| == 24
  {
    var e := SubnetEnd(d.remoteSubnet, host);
    Address(SADB_EXT_ADDRESS_DST, d.innerProtocol, e.prefixlen, d.dstPort, e.quad, host.dstPad)
  }

  function AddPolicyExts(d: SpdData, host: Host): (es: seq<seq<byte>>)
    requires PolicySplits(d)
    ensures |es| == 3
  {
    [AddPolicyExt(d, host), PolicySrc(d, host), PolicyDst(d, host)]
  }

  function DelPolicyExts(d: SpdData, host: Host): (es: seq<seq<byte>>)
    requires PolicySplits(d)
    ensures |es| == 3
  {
    [DelPolicyExt(d), PolicySrc(d, host), PolicyDst(d, host)]
  }

  function AddPolicyMessage(d: SpdData, host: Host): seq<byte>
    requires PolicySplits(d)
  {
    Header(SADB_X_SPDADD, Satype(d.protocolParameters), 8 + PolicyWords(d), host.pid)
    + Flatten(AddPolicyExts(d, host))
  }

  function DelPolicyMessage(d: SpdData, host: Host): seq<byte>
    requires PolicySplits(d)
  {
    Header(SADB_X_SPDDELETE, Satype(d.protocolParameters), 10, 0) + Flatten(DelPolicyExts(d, host))
  }

  // ----- building in place

  /** Overwrite the 16-bit length at the front of the structure at p. */
  method StoreLen(buf: array<byte>, p: nat, n: nat, ghost before: seq<byte>, ghost old16: seq<byte>,
                  ghost rest: seq<byte>)
    requires |old16| == 2 && p == |before| && Holds(buf, before + old16 + rest)
    modifies buf
    ensures Holds(buf, before + Le(n, 2) + rest)
  {
    Put(buf, p, Le(n, 2));
    assert buf[..|before + old16 + rest|] == before + Le(n, 2) + rest;
  }

  /** The IPsec request: its length is raised when the tunnel ends have been appended. */
  method PutRequest(d: SpdData, host: Host, buf: array<byte>, p: nat, ghost h: seq<byte>)
    returns (q: nat, reqLen: nat)
    requires Holds(buf, h) && p == |h| == 32 && buf.Length == BUFFER_SIZE
    modifies buf
    ensures Holds(buf, h + Request(d, host)) && q == p + reqLen && reqLen == RequestLen(d)
  {
    hide Le, SockAddr;
    q := Append(buf, p, RequestHeader(16, d.protocolParameters, d.ipsecMode, Level(d), d.reqId), h);
    ghost var rh := RequestHeader(16, d.protocolParameters, d.ipsecMode, Level(d), d.reqId);
    reqLen := 16;
    if d.ipsecMode == IPSEC_MODE_TUNNEL {
      var src := SockAddr(0, host.inet(d.tunnelLocal), host.tunnelSrcPad);
      var dst := SockAddr(0, host.inet(d.tunnelRemote), host.tunnelDstPad);
      q := Append(buf, q, src, h + rh);
      q := Append(buf, q, dst, h + rh + src);
      reqLen := reqLen + 32;
      RequestSplits(16, d.protocolParameters, d.ipsecMode, Level(d), d.reqId);
      RequestSplits(48, d.protocolParameters, d.ipsecMode, Level(d), d.reqId);
      hide RequestHeader;
      assert h + rh + src + dst == h + Le(16, 2) + (rh[2..] + src + dst);
      StoreLen(buf, p, reqLen, h, Le(16, 2), rh[2..] + src + dst);
      assert h + Le(48, 2) + (rh[2..] + src + dst) == h + Request(d, host);
    } else {
      assert h + rh == h + Request(d, host);
    }
  }

  /** The policy extension of SADB_X_SPDADD: its length is raised by that of the request. */
  method PutPolicyExt(d: SpdData, host: Host, buf: array<byte>, p: nat, ghost h: seq<byte>) returns (q: nat)
    requires Holds(buf, h) && p == |h| == 16 && buf.Length == BUFFER_SIZE
    modifies buf
    ensures Holds(buf, h + AddPolicyExt(d, host)) && q == p + |AddPolicyExt(d, host)|
  {
    hide Le, Request;
    ghost var id := Wrap(d.index, 4);
    ghost var ph := PolicyHeader(2, d.action, d.policyDir, id);
    q := Append(buf, p, PolicyHeader(2, d.action, d.policyDir, Wrap(d.index, 4)), h);
    var reqLen;
    q, reqLen := PutRequest(d, host, buf, q, h + ph);
    PolicySplit(2, d.action, d.policyDir, id);
    PolicySplit(PolicyWords(d), d.action, d.policyDir, id);
    hide PolicyHeader;
    assert h + ph + Request(d, host) == h + Le(2, 2) + (ph[2..] + Request(d, host));
    StoreLen(buf, p, 2 + reqLen / 8, h, Le(2, 2), ph[2..] + Request(d, host));
    assert h + Le(PolicyWords(d), 2) + (ph[2..] + Request(d, host)) == h + AddPolicyExt(d, host);
  }

  lemma RequestSplits(len: nat, proto: nat, mode: nat, level: nat, reqid: nat)
    ensures RequestHeader(len, proto, mode, level, reqid)
         == Le(len, 2) + RequestHeader(16, proto, mode, level, reqid)[2..]
  {
    hide Le;
  }

  lemma PolicySplit(words: nat, ty: nat, dir: nat, id: nat)
    ensures PolicyHeader(words, ty, dir, id) == Le(words, 2) + PolicyHeader(2, ty, dir, id)[2..]
  {
    hide Le;
  }

  method PutSelector(d: SpdData, host: Host, buf: array<byte>, p: nat, ghost h: seq<byte>, ghost es: seq<seq<byte>>)
    returns (q: nat)
    requires PolicySplits(d) && Holds(buf, h + Flatten(es)) && p == |h + Flatten(es)| <= 128
    requires buf.Length == BUFFER_SIZE
    modifies buf
    ensures Holds(buf, h + Flatten(es + [PolicySrc(d, host)] + [PolicyDst(d, host)])) && q == p + 48
    ensures q == |h + Flatten(es + [PolicySrc(d, host)] + [PolicyDst(d, host)])|
  {
    hide Address, Flatten;
    var src, dst := SubnetEnd(d.localSubnet, host), SubnetEnd(d.remoteSubnet, host);
    var n := SetAddress(buf, p, SADB_EXT_ADDRESS_SRC, d.innerProtocol, src.prefixlen, d.srcPort, src.quad,
                        host.srcPad, h, es);
    var m := SetAddress(buf, p + n, SADB_EXT_ADDRESS_DST, d.innerProtocol, dst.prefixlen, d.dstPort, dst.quad,
                        host.dstPad, h, es + [PolicySrc(d, host)]);
    q := p + n + m;
  }

  /** The build part of `pf_addpolicy`, for both modes. */
  method BuildAddPolicy(d: SpdData, host: Host) returns (buf: array<byte>, len: nat)
    requires PolicySplits(d)
    ensures fresh(buf) && buf.Length == BUFFER_SIZE
    ensures len == 8 * (8 + PolicyWords(d)) <= 128
    ensures buf[..len] == AddPolicyMessage(d, host)
  {
    hide Header, AddPolicyExt, PolicySrc, PolicyDst, Flatten;
    ghost var h := Header(SADB_X_SPDADD, Satype(d.protocolParameters), 0, host.pid);
    var p;
    buf, p := Begin(SADB_X_SPDADD, Satype(d.protocolParameters), host.pid);
    p := PutPolicyExt(d, host, buf, p, h);
    OneFlatten(AddPolicyExt(d, host));
    len := PutSelector(d, host, buf, p, h, [AddPolicyExt(d, host)]);
    assert [AddPolicyExt(d, host)] + [PolicySrc(d, host)] + [PolicyDst(d, host)] == AddPolicyExts(d, host);
    SetLength(buf, len, SADB_X_SPDADD, Satype(d.protocolParameters), host.pid, Flatten(AddPolicyExts(d, host)));
  }

  /** `pf_delpolicy`: the bare policy structure, and no process id in the header. */
  method BuildDelPolicy(d: SpdData, host: Host) returns (buf: array<byte>, len: nat)
    requires PolicySplits(d)
    ensures fresh(buf) && buf.Length == BUFFER_SIZE && len == 80
    ensures buf[..len] == DelPolicyMessage(d, host)
  {
    hide Header, PolicyHeader, PolicySrc, PolicyDst, Flatten;
    ghost var h := Header(SADB_X_SPDDELETE, Satype(d.protocolParameters), 0, 0);
    var p;
    buf, p := Begin(SADB_X_SPDDELETE, Satype(d.protocolParameters), 0);
    EmptyFlatten();
    p := AppendExt(buf, p, DelPolicyExt(d), h, []);
    assert [] + [DelPolicyExt(d)] == [DelPolicyExt(d)];
    len := PutSelector(d, host, buf, p, h, [DelPolicyExt(d)]);
    assert [DelPolicyExt(d)] + [PolicySrc(d, host)] + [PolicyDst(d, host)] == DelPolicyExts(d, host);
    SetLength(buf, len, SADB_X_SPDDELETE, Satype(d.protocolParameters), 0, Flatten(DelPolicyExts(d, host)));
  }

  // ----- what a reader gets back

  const POLICY_TYPES := [SADB_X_EXT_POLICY, SADB_EXT_ADDRESS_SRC, SADB_EXT_ADDRESS_DST]

  lemma PolicyIsExt(words: nat, ty: nat, dir: nat, id: nat, rest: seq<byte>)
    requires 2 <= words < 0x1_0000 && |rest| == 8 * words - 16
    ensures IsExt(PolicyHeader(words, ty, dir, id) + rest, SADB_X_EXT_POLICY)
  {
    hide Le, Be, FromLe, FromBe;
    FieldsRoundTrip();
    var h := PolicyHeader(words, ty, dir, id);
    assert h[0..2] == Le(words, 2) && h[2..4] == Le(SADB_X_EXT_POLICY, 2);
    assert (h + rest)[0..2] == h[0..2] && (h + rest)[2..4] == h[2..4];
  }

  lemma SelectorIsExts(d: SpdData, host: Host)
    requires PolicySplits(d)
    ensures IsExt(PolicySrc(d, host), SADB_EXT_ADDRESS_SRC) && IsExt(PolicyDst(d, host), SADB_EXT_ADDRESS_DST)
  {
    hide Address, IsExt;
    var src, dst := SubnetEnd(d.localSubnet, host), SubnetEnd(d.remoteSubnet, host);
    AddressIsExt(SADB_EXT_ADDRESS_SRC, d.innerProtocol, src.prefixlen, d.srcPort, src.quad, host.srcPad);
    AddressIsExt(SADB_EXT_ADDRESS_DST, d.innerProtocol, dst.prefixlen, d.dstPort, dst.quad, host.dstPad);
  }

  /** A header in front of a policy extension and a selector: accepted, and read back whole. */
  lemma PolicyMessageAccepted(ty: nat, satype: nat, pid: nat, words: nat, policy: seq<byte>, d: SpdData, host: Host)
    requires PolicySplits(d) && IsExt(policy, SADB_X_EXT_POLICY) && |policy| == 8 * words && words < 1000
    ensures var es := [policy, PolicySrc(d, host), PolicyDst(d, host)];
            var m, exts := Header(ty, satype, 8 + words, pid) + Flatten(es), Starts(2, es);
            && WellFormed(m, exts) && |m| == 8 * MsgWords(m)
            && Body(m, exts, SADB_X_EXT_POLICY) == policy
            && Body(m, exts, SADB_EXT_ADDRESS_SRC) == PolicySrc(d, host)
            && Body(m, exts, SADB_EXT_ADDRESS_DST) == PolicyDst(d, host)
  {
    hide Header, PolicySrc, PolicyDst, IsExt, Flatten, Body;
    var h, es := Header(ty, satype, 8 + words, pid), [policy, PolicySrc(d, host), PolicyDst(d, host)];
    SelectorIsExts(d, host);
    HeaderReads(ty, satype, 8 + words, pid);
    HeaderWords(h);
    ThreeWords(es, words, 3, 3);
    AssembledIsWellFormed(h, es, POLICY_TYPES);
    var m, exts := h + Flatten(es), Starts(2, es);
    assert Body(m, exts, POLICY_TYPES[0]) == es[0];
    assert Body(m, exts, POLICY_TYPES[1]) == es[1];
    assert Body(m, exts, POLICY_TYPES[2]) == es[2];
  }

  function AddPolicyCuts(d: SpdData, host: Host): seq<nat>
    requires PolicySplits(d)
  {
    Starts(2, AddPolicyExts(d, host))
  }

  function DelPolicyCuts(d: SpdData, host: Host): seq<nat>
    requires PolicySplits(d)
  {
    Starts(2, DelPolicyExts(d, host))
  }

  lemma AddPolicyAccepted(d: SpdData, host: Host)
    requires PolicySplits(d)
    ensures var m, exts := AddPolicyMessage(d, host), AddPolicyCuts(d, host);
            && Delivered(m, exts)
            && Body(m, exts, SADB_X_EXT_POLICY) == AddPolicyExt(d, host)
            && Body(m, exts, SADB_EXT_ADDRESS_SRC) == PolicySrc(d, host)
            && Body(m, exts, SADB_EXT_ADDRESS_DST) == PolicyDst(d, host)
  {
    hide Request, PolicyHeader, PolicySrc, PolicyDst, IsExt, Header, Flatten, Body;
    PolicyIsExt(PolicyWords(d), d.action, d.policyDir, Wrap(d.index, 4), Request(d, host));
    PolicyMessageAccepted(SADB_X_SPDADD, Satype(d.protocolParameters), host.pid, PolicyWords(d),
                          AddPolicyExt(d, host), d, host);
  }

  lemma DelPolicyAccepted(d: SpdData, host: Host)
    requires PolicySplits(d)
    ensures var m, exts := DelPolicyMessage(d, host), DelPolicyCuts(d, host);
            && Delivered(m, exts)
            && Body(m, exts, SADB_X_EXT_POLICY) == DelPolicyExt(d)
            && Body(m, exts, SADB_EXT_ADDRESS_SRC) == PolicySrc(d, host)
            && Body(m, exts, SADB_EXT_ADDRESS_DST) == PolicyDst(d, host)
  {
    hide PolicyHeader, PolicySrc, PolicyDst, IsExt, Header, Flatten, Body;
    PolicyIsExt(2, d.action, d.policyDir, 0, []);
    assert DelPolicyExt(d) + [] == DelPolicyExt(d);
    PolicyMessageAccepted(SADB_X_SPDDELETE, Satype(d.protocolParameters), 0, 2, DelPolicyExt(d), d, host);
  }

  /**
   The three nested lengths agree: the policy extension is its structure plus the request, the
   request fills it to its last octet, and a reader's inner walk finds that one request and
   recovers mode and protocol.
   */
  lemma NestedLengthsAgree(d: SpdData, host: Host)
    ensures var e := AddPolicyExt(d, host);
            && |e| == 8 * ReadPolicy(e).words == 16 + ReadRequest(e[16..32]).len
            && RequestTiles(e, 16, [16])
            && forall was ::
                 LastRequest(e, 16, [16], was) == Requested(d.ipsecMode % 0x100, d.protocolParameters % 0x1_0000)
  {
    hide PolicyHeader, RequestHeader, TunnelEnds, ReadPolicy, FromLe, Le;
    var e, n := AddPolicyExt(d, host), RequestLen(d);
    PolicyReads(PolicyWords(d), d.action, d.policyDir, Wrap(d.index, 4), Request(d, host));
    var h := RequestHeader(n, d.protocolParameters, d.ipsecMode, Level(d), d.reqId);
    RequestReads(n, d.protocolParameters, d.ipsecMode, Level(d), d.reqId);
    assert e[16..32] == h;
    assert U16At(e, 16) == n by {
      assert e[16..18] == e[16..32][0..2];
    }
    assert [16][1..] == [];
    assert RequestTiles(e, 16 + n, []);
  }

  // ----- the selector under which the kernel keeps a policy

  datatype Selector = Selector(dir: nat, src: AddressView, dst: AddressView)

  function SelectorOf(d: SpdData, host: Host): Selector
    requires PolicySplits(d)
  {
    var src, dst := SubnetEnd(d.localSubnet, host), SubnetEnd(d.remoteSubnet, host);
    Selector(
      d.policyDir % 0x100,
      AddressView(d.innerProtocol % 0x100, src.prefixlen % 0x100, AF_INET, d.srcPort % 0x1_0000, src.quad),
      AddressView(d.innerProtocol % 0x100, dst.prefixlen % 0x100, AF_INET, d.dstPort % 0x1_0000, dst.quad))
  }

  /** What the kernel reads from a policy message: direction and both addresses. */
  ghost function SelectorIn(m: seq<byte>, exts: seq<nat>): Option<Selector>
    requires WellFormed(m, exts)
  {
    var p := Body(m, exts, SADB_X_EXT_POLICY);
    var s, t := Body(m, exts, SADB_EXT_ADDRESS_SRC), Body(m, exts, SADB_EXT_ADDRESS_DST);
    if |p| >= 16 && |s| >= 24 && |t| >= 24 then Some(Selector(ReadPolicy(p).dir, ReadAddress(s), ReadAddress(t)))
    else None
  }

  lemma SelectorDecodes(d: SpdData, host: Host)
    requires PolicySplits(d)
    ensures ReadAddress(PolicySrc(d, host)) == SelectorOf(d, host).src
    ensures ReadAddress(PolicyDst(d, host)) == SelectorOf(d, host).dst
  {
    hide Address, ReadAddress;
    var src, dst := SubnetEnd(d.localSubnet, host), SubnetEnd(d.remoteSubnet, host);
    AddressReads(SADB_EXT_ADDRESS_SRC, d.innerProtocol, src.prefixlen, d.srcPort, src.quad, host.srcPad);
    AddressReads(SADB_EXT_ADDRESS_DST, d.innerProtocol, dst.prefixlen, d.dstPort, dst.quad, host.dstPad);
  }

  /** Adding and deleting an entry name the same policy to the kernel: its selector. */
  lemma MessagesNameTheSelector(d: SpdData, host: Host)
    requires PolicySplits(d)
    ensures WellFormed(AddPolicyMessage(d, host), AddPolicyCuts(d, host))
    ensures WellFormed(DelPolicyMessage(d, host), DelPolicyCuts(d, host))
    ensures SelectorIn(AddPolicyMessage(d, host), AddPolicyCuts(d, host)) == Some(SelectorOf(d, host))
    ensures SelectorIn(DelPolicyMessage(d, host), DelPolicyCuts(d, host)) == Some(SelectorOf(d, host))
  {
    hide AddPolicyMessage, DelPolicyMessage, AddPolicyCuts, DelPolicyCuts, PolicySrc, PolicyDst, Body, WellFormed,
      PolicyHeader, Request, ReadPolicy, ReadAddress;
    AddPolicyAccepted(d, host);
    DelPolicyAccepted(d, host);
    SelectorDecodes(d, host);
    PolicyReads(PolicyWords(d), d.action, d.policyDir, Wrap(d.index, 4), Request(d, host));
    PolicyReads(2, d.action, d.policyDir, 0, []);
    assert DelPolicyExt(d) + [] == DelPolicyExt(d);
  }
}
