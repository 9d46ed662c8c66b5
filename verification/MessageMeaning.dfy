/**
 What the messages say about a configured entry, field by field and in the terms of its
 configuration: subnets written as address and prefix length, tunnel ends written as addresses.
 The numbers are those of RFC 2367 and of the Linux policy extensions.
 */
module MessageMeaning {
  import opened Bytes
  import opened Text
  import opened Wire
  import opened Extensions
  import opened SadEntry
  import opened SpdEntry
  import opened MessageBuffer
  import opened SaMessage
  import opened SaRoundTrip
  import opened PolicyMessage

  /** A subnet as the configuration writes it. */
  datatype Subnet = Subnet(ip: string, bits: nat)

  predicate IsSubnet(s: Subnet) {
    s.ip != "" && '/' !in s.ip && s.bits < 256
  }

  function Written(s: Subnet): string {
    s.ip + "/" + Decimal(s.bits)
  }

  /** The subnet's end in a message: its length, and its address as inet_addr reads it. */
  lemma SubnetIsEnd(s: Subnet, host: Host)
    requires IsSubnet(s)
    ensures Splits(Written(s)) && SubnetEnd(Written(s), host) == Endpoint(s.bits, host.inet(s.ip))
  {
    SubnetSplits(s.ip, s.bits);
    Widths();
  }

  // ----- SADB_ADD

  /** What an SADB_ADD says apart from its addresses. */
  ghost predicate SaysAssociation(a: Association, d: SadData, words: nat, pid: nat) {
    && a.header == HeaderView(2, 3, 0, if d.protocolParameters == 50 then 3 else 0, words, 0, pid % 0x1_0000_0000)
    && a.sa == SaView(d.spi % 0x1_0000_0000, d.antiReplayWindow % 256, 1, d.integrityAlg % 256, d.encryptionAlg % 256)
    && a.sa2 == Sa2View(d.ipsecMode % 256, d.reqId % 0x1_0000_0000)
    && SaysLifetime(a.hard, d.hard) && SaysLifetime(a.soft, d.soft)
    && (a.encrypt.Some? <==> d.encryptionAlg != 0) && (a.auth.Some? <==> d.integrityAlg != 0)
    && (a.encrypt.Some? ==> SaysKey(a.encrypt.value, d.encryptionKey, DeclaredBits(d.encryptionAlg),
                                    if d.encryptionAlg == 2 then 8 else 24))
    && (a.auth.Some? ==> a.auth.value.bits == 160 && a.auth.value.words == 4 && |a.auth.value.payload| == 24)
    && (a.auth.Some? && |d.encryptionKey| <= (if d.encryptionAlg == 2 then 16 else 32) ==>
          SaysKey(a.auth.value, d.integrityKey, 160, 24))
  }

  ghost predicate SaysLifetime(v: LifetimeView, l: Lifetimes) {
    && v.allocations == l.packets % 0x1_0000_0000 && v.octets == l.octets % 0x1_0000_0000_0000_0000
    && v.addtime == l.time % 0x1_0000_0000_0000_0000 && v.usetime == l.idle % 0x1_0000_0000_0000_0000
  }

  /** DES has 64 bits, AES is declared with 256, and anything else counts as triple DES. */
  function DeclaredBits(alg: nat): nat {
    match alg
    case 2 => 64
    case 12 => 256
    case _ => 192
  }

  /** The key in a field of `room` octets, zeros behind it, cut if it is longer. */
  ghost predicate SaysKey(v: KeyView, key: seq<byte>, bits: nat, room: nat) {
    && v.bits == bits && v.words == 1 + room / 8 && |v.payload| == room
    && forall i | 0 <= i < room :: v.payload[i] == if i < |key| then key[i] else 0
  }

  lemma AssociationIsSaid(d: SadData, host: Host)
    requires Addable(d)
    ensures Decodable(AddMessage(d, host), AddCuts(d, host))
    ensures SaysAssociation(Decode(AddMessage(d, host), AddCuts(d, host)), d, |AddMessage(d, host)| / 8, host.pid)
  {
    hide AddMessage, AddCuts, Decode, Decodable, LocalEnd, RemoteEnd, CutAddress, WellFormed, SaysAssociation, Cut;
    AddRoundTrip(d, host);
    WordsAreLength(d, host);
    CutSays(d, host);
  }

  lemma WordsAreLength(d: SadData, host: Host)
    requires Addable(d)
    ensures |AddMessage(d, host)| == 8 * AddWords(d)
  {
    hide AddMessage, AddCuts, WellFormed, Slot, Header, ReadHeader, Flatten, AddExts;
    AddIsAccepted(d, host);
    HeaderDecodes(d, host);
    var m := AddMessage(d, host);
    hide FromLe;
    assert m[4..6] == m[..16][4..6];
    assert ReadHeader(m[..16]).words == MsgWords(m) by {
      HeaderWordsRead(m);
    }
  }

  lemma HeaderWordsRead(m: seq<byte>)
    requires |m| >= 16
    ensures ReadHeader(m[..16]).words == MsgWords(m)
  {
    assert m[4..6] == m[..16][4..6];
  }

  lemma CutSays(d: SadData, host: Host)
    requires Addable(d)
    ensures SaysAssociation(Cut(d, host), d, AddWords(d), host.pid)
  {
    hide LocalEnd, RemoteEnd, CutAddress, AddWords;
  }

  /** Outside tunnel mode SADB_ADD carries both subnets: the local one as source, with the ports. */
  lemma SubnetsAreAdded(d: SadData, local: Subnet, remote: Subnet, host: Host)
    requires IsSubnet(local) && IsSubnet(remote) && Addable(d) && d.ipsecMode != 2
    requires d.localSubnet == Written(local) && d.remoteSubnet == Written(remote)
    ensures Decodable(AddMessage(d, host), AddCuts(d, host))
    ensures var a := Decode(AddMessage(d, host), AddCuts(d, host));
            && a.src == AddressView(d.innerProtocol % 256, local.bits, 2, d.srcPort % 0x1_0000, host.inet(local.ip))
            && a.dst == AddressView(d.innerProtocol % 256, remote.bits, 2, d.dstPort % 0x1_0000, host.inet(remote.ip))
  {
    hide AddMessage, AddCuts, Decode, Decodable, Written, SubnetEnd;
    AddRoundTrip(d, host);
    SubnetIsEnd(local, host);
    SubnetIsEnd(remote, host);
  }

  /** In tunnel mode it carries the ends of the tunnel as host addresses, whatever the subnets. */
  lemma TunnelIsAdded(d: SadData, host: Host)
    requires Addable(d) && d.ipsecMode == 2
    ensures Decodable(AddMessage(d, host), AddCuts(d, host))
    ensures var a := Decode(AddMessage(d, host), AddCuts(d, host));
            && a.src == AddressView(d.innerProtocol % 256, 32, 2, d.srcPort % 0x1_0000, host.inet(d.tunnelLocal))
            && a.dst == AddressView(d.innerProtocol % 256, 32, 2, d.dstPort % 0x1_0000, host.inet(d.tunnelRemote))
  {
    hide AddMessage, AddCuts, Decode, Decodable;
    AddRoundTrip(d, host);
  }

  // ----- SADB_DELETE and SADB_GET

  /** Both carry the SPI and both subnets, in every mode, and nothing else about the association. */
  lemma SubnetsAreNamed(ty: nat, d: SadData, local: Subnet, remote: Subnet, host: Host)
    requires IsSubnet(local) && IsSubnet(remote) && ty < 256
    requires d.localSubnet == Written(local) && d.remoteSubnet == Written(remote)
    ensures SubnetsSplit(d)
    ensures var m, exts := NamingMessage(ty, d, host), Starts(2, NamingExts(d, host));
            && WellFormed(m, exts) && |m| == 80
            && ReadHeader(m[..16]) ==
               HeaderView(2, ty, 0, if d.protocolParameters == 50 then 3 else 0, 10, 0, host.pid % 0x1_0000_0000)
            && var sa, src, dst := Body(m, exts, 1), Body(m, exts, 5), Body(m, exts, 6);
               && |sa| == 16 && ReadSa(sa) == SaView(d.spi % 0x1_0000_0000, 0, 0, 0, 0)
               && |src| == 24 && |dst| == 24
               && ReadAddress(src) ==
                  AddressView(d.innerProtocol % 256, local.bits, 2, d.srcPort % 0x1_0000, host.inet(local.ip))
               && ReadAddress(dst) ==
                  AddressView(d.innerProtocol % 256, remote.bits, 2, d.dstPort % 0x1_0000, host.inet(remote.ip))
  {
    hide Header, NamingExts, Body, WellFormed, Slot, Sa, SrcOf, DstOf, SubnetEnd, Starts, Flatten, ReadHeader,
      ReadSa, ReadAddress, Written, Splits;
    SubnetIsEnd(local, host);
    SubnetIsEnd(remote, host);
    var m := NamingMessage(ty, d, host);
    NamingIsAccepted(ty, d, host);
    SaReads(d.spi, 0, 0, 0, 0);
    AddressDecodes(d, SubnetEnd(d.localSubnet, host), SubnetEnd(d.remoteSubnet, host), host);
    HeaderReads(ty, Satype(d.protocolParameters), 10, host.pid);
    assert m[..16] == Header(ty, Satype(d.protocolParameters), 10, host.pid);
    HeaderWordsRead(m);
  }

  // ----- SADB_X_SPDADD and SADB_X_SPDDELETE

  /** Direction, both subnets, protocol and ports, in the terms of the configuration. */
  function Asked(d: SpdData, local: Subnet, remote: Subnet, host: Host): Selector {
    Selector(
      d.policyDir % 256,
      AddressView(d.innerProtocol % 256, local.bits, 2, d.srcPort % 0x1_0000, host.inet(local.ip)),
      AddressView(d.innerProtocol % 256, remote.bits, 2, d.dstPort % 0x1_0000, host.inet(remote.ip)))
  }

  /** Both policy messages carry the subnets, the local one as source. */
  lemma PolicySelectorIsSaid(d: SpdData, local: Subnet, remote: Subnet, host: Host)
    requires IsSubnet(local) && IsSubnet(remote)
    requires d.localSubnet == Written(local) && d.remoteSubnet == Written(remote)
    ensures PolicySplits(d)
    ensures WellFormed(AddPolicyMessage(d, host), AddPolicyCuts(d, host))
    ensures WellFormed(DelPolicyMessage(d, host), DelPolicyCuts(d, host))
    ensures SelectorIn(AddPolicyMessage(d, host), AddPolicyCuts(d, host)) == Some(Asked(d, local, remote, host))
    ensures SelectorIn(DelPolicyMessage(d, host), DelPolicyCuts(d, host)) == Some(Asked(d, local, remote, host))
  {
    hide AddPolicyMessage, DelPolicyMessage, AddPolicyCuts, DelPolicyCuts, WellFormed, SelectorIn, Written, SubnetEnd,
      Splits;
    SubnetIsEnd(local, host);
    SubnetIsEnd(remote, host);
    MessagesNameTheSelector(d, host);
  }

  /** The headers of the policy messages, and what their policy extensions say. */
  lemma PolicyIsSaid(d: SpdData, host: Host)
    requires PolicySplits(d)
    ensures var m, exts := AddPolicyMessage(d, host), AddPolicyCuts(d, host);
            && WellFormed(m, exts)
            && ReadHeader(m[..16]) ==
               HeaderView(2, 14, 0, if d.protocolParameters == 50 then 3 else 0, if d.ipsecMode == 2 then 16 else 12, 0,
                          host.pid % 0x1_0000_0000)
            && var p := Body(m, exts, 18);
               && |p| == (if d.ipsecMode == 2 then 64 else 32)
               && ReadPolicy(p) ==
                  PolicyView(|p| / 8, d.action % 0x1_0000, d.policyDir % 256, Wrap(d.index, 4))
    ensures var m, exts := DelPolicyMessage(d, host), DelPolicyCuts(d, host);
            && WellFormed(m, exts)
            && ReadHeader(m[..16]) == HeaderView(2, 15, 0, if d.protocolParameters == 50 then 3 else 0, 10, 0, 0)
            && var p := Body(m, exts, 18);
               |p| == 16 && ReadPolicy(p) == PolicyView(2, d.action % 0x1_0000, d.policyDir % 256, 0)
  {
    hide Body, WellFormed, AddPolicyCuts, DelPolicyCuts, PolicyHeader, Request, ReadPolicy, Header, ReadHeader, Splits,
      AddPolicyExts, DelPolicyExts, Flatten;
    AddPolicyAccepted(d, host);
    DelPolicyAccepted(d, host);
    PolicyReads(PolicyWords(d), d.action, d.policyDir, Wrap(d.index, 4), Request(d, host));
    PolicyReads(2, d.action, d.policyDir, 0, []);
    assert DelPolicyExt(d) + [] == DelPolicyExt(d);
    var satype := Satype(d.protocolParameters);
    HeaderReads(14, satype, 8 + PolicyWords(d), host.pid);
    HeaderReads(15, satype, 10, 0);
    assert AddPolicyMessage(d, host)[..16] == Header(14, satype, 8 + PolicyWords(d), host.pid);
    assert DelPolicyMessage(d, host)[..16] == Header(15, satype, 10, 0);
    IndexFits(d.index);
  }

  lemma IndexFits(index: int)
    ensures Wrap(index, 4) == index % 0x1_0000_0000
  {
    Widths();
  }

  /**
   The request in the policy extension: its length, protocol and mode, level unique (3) exactly
   with an identifier and else require (2), and in tunnel mode two socket addresses, local first.
   */
  lemma RequestIsSaid(d: SpdData, host: Host)
    requires PolicySplits(d)
    ensures WellFormed(AddPolicyMessage(d, host), AddPolicyCuts(d, host))
    ensures var p := Body(AddPolicyMessage(d, host), AddPolicyCuts(d, host), 18);
            && |p| == (if d.ipsecMode == 2 then 64 else 32)
            && ReadRequest(p[16..32]) ==
               RequestView(|p| - 16, d.protocolParameters % 0x1_0000, d.ipsecMode % 256, if d.reqId != 0 then 3 else 2,
                           d.reqId % 0x1_0000_0000)
            && (d.ipsecMode == 2 ==>
                  && U16At(p, 32) == 2 && Be16At(p, 34) == 0 && p[36..40] == host.inet(d.tunnelLocal)
                  && U16At(p, 48) == 2 && Be16At(p, 50) == 0 && p[52..56] == host.inet(d.tunnelRemote))
  {
    hide Body, WellFormed, AddPolicyCuts, PolicyHeader, ReadRequest, Header, Splits, RequestHeader, SockAddr, Le, Be,
      FromLe, FromBe, AddPolicyMessage;
    AddPolicyAccepted(d, host);
    var p, n := AddPolicyExt(d, host), RequestLen(d);
    var h := RequestHeader(n, d.protocolParameters, d.ipsecMode, Level(d), d.reqId);
    RequestReads(n, d.protocolParameters, d.ipsecMode, Level(d), d.reqId);
    assert p[16..32] == h;
    if d.ipsecMode == 2 {
      var local := SockAddr(0, host.inet(d.tunnelLocal), host.tunnelSrcPad);
      var remote := SockAddr(0, host.inet(d.tunnelRemote), host.tunnelDstPad);
      assert p[32..] == local + remote;
      assert p[32..48] == local && p[48..64] == remote;
      SocketAt(p, 32, host.inet(d.tunnelLocal), host.tunnelSrcPad);
      SocketAt(p, 48, host.inet(d.tunnelRemote), host.tunnelDstPad);
    }
  }

  lemma SocketAt(p: seq<byte>, o: nat, quad: Quad, pad: Pad)
    requires o + 16 <= |p| && p[o..o + 16] == SockAddr(0, quad, pad)
    ensures U16At(p, o) == 2 && Be16At(p, o + 2) == 0 && p[o + 4..o + 8] == quad
  {
    hide Le, Be, FromLe, FromBe;
    FieldsRoundTrip();
    var s := SockAddr(0, quad, pad);
    assert s[0..2] == Le(2, 2) && s[2..4] == Be(0, 2) && s[4..8] == quad;
    Subslice(p, o, 16, 0, 2);
    Subslice(p, o, 16, 2, 4);
    Subslice(p, o, 16, 4, 8);
  }
}
