/**
 The nodes of the YANG list sad-entry, their paths, and what the reader makes of them. Ports,
 keys and hard lifetimes are told apart by a search in the whole path, the entry's name included.
 */
module SadSchema {
  import opened Text
  import opened ChangeStream
  import opened SadEntry
  import opened SadReader
  import opened Paths

  const SAD_LIST := ["/ietf-i2nsf-ikeless:ipsec-ikeless", "/sad", "/sad-entry"]

  /** The configuration nodes below an entry, its name aside. */
  datatype Node =
    | NReqId | NSpi | NExtSeqNum | NSeqOverflow | NReplayWindowSize
    | NLocalPrefix | NRemotePrefix | NInnerProtocol
    | NPortRange(local: bool, first: nat, last: nat)
    | NPortStart(local: bool, first: nat, last: nat)
    | NPortEnd(local: bool, first: nat, last: nat)
    | NProtocolParameters | NMode
    | NEncryptionAlgorithm | NEncryptionKey | NIv | NIntegrityAlgorithm | NIntegrityKey
    | NLifetime(kind: Kind, soft: bool) | NSoftAction
    | NTunnelLocal | NTunnelRemote | NDfBit | NBypassDscp
    | NDscpMapping(id: nat) | NDscpMappingId(id: nat) | NInnerDscp(id: nat) | NOuterDscp(id: nat)
    | NDscpValue(dscp: nat)
    | NEspEncap | NEncapPort(source: bool) | NOriginalAddress(address: Quad)

  function PortList(local: bool, first: nat, last: nat): string {
    (if local then "/local-ports" else "/remote-ports")
    + "[start='" + Decimal(first) + "'][end='" + Decimal(last) + "']"
  }

  function Mapping(id: nat): string {
    "/dscp-mapping[id='" + Decimal(id) + "']"
  }

  function KindName(kind: Kind): string {
    match kind
    case Time => "/time"
    case Octets => "/bytes"
    case Packets => "/packets"
    case Idle => "/idle"
  }

  function Container(n: Node): seq<string> {
    match n
    case NReqId => []
    case NLocalPrefix => ["/ipsec-sa-config", "/traffic-selector"]
    case NRemotePrefix => ["/ipsec-sa-config", "/traffic-selector"]
    case NInnerProtocol => ["/ipsec-sa-config", "/traffic-selector"]
    case NPortRange(_, _, _) => ["/ipsec-sa-config", "/traffic-selector"]
    case NPortStart(l, a, b) => ["/ipsec-sa-config", "/traffic-selector", PortList(l, a, b)]
    case NPortEnd(l, a, b) => ["/ipsec-sa-config", "/traffic-selector", PortList(l, a, b)]
    case NEncryptionAlgorithm => ["/ipsec-sa-config", "/esp-sa", "/encryption"]
    case NEncryptionKey => ["/ipsec-sa-config", "/esp-sa", "/encryption"]
    case NIv => ["/ipsec-sa-config", "/esp-sa", "/encryption"]
    case NIntegrityAlgorithm => ["/ipsec-sa-config", "/esp-sa", "/integrity"]
    case NIntegrityKey => ["/ipsec-sa-config", "/esp-sa", "/integrity"]
    case NLifetime(_, soft) => ["/ipsec-sa-config", if soft then "/sa-lifetime-soft" else "/sa-lifetime-hard"]
    case NSoftAction => ["/ipsec-sa-config", "/sa-lifetime-soft"]
    case NTunnelLocal => ["/ipsec-sa-config", "/tunnel"]
    case NTunnelRemote => ["/ipsec-sa-config", "/tunnel"]
    case NDfBit => ["/ipsec-sa-config", "/tunnel"]
    case NBypassDscp => ["/ipsec-sa-config", "/tunnel"]
    case NDscpMapping(_) => ["/ipsec-sa-config", "/tunnel"]
    case NDscpMappingId(id) => ["/ipsec-sa-config", "/tunnel", Mapping(id)]
    case NInnerDscp(id) => ["/ipsec-sa-config", "/tunnel", Mapping(id)]
    case NOuterDscp(id) => ["/ipsec-sa-config", "/tunnel", Mapping(id)]
    case NDscpValue(_) => ["/ipsec-sa-config", "/tunnel"]
    case NEspEncap => ["/ipsec-sa-config", "/encapsulation-type"]
    case NEncapPort(_) => ["/ipsec-sa-config", "/encapsulation-type"]
    case NOriginalAddress(_) => ["/ipsec-sa-config", "/encapsulation-type"]
    case _ => ["/ipsec-sa-config"]
  }

  function NodeName(n: Node): string {
    match n
    case NReqId => "/reqid"
    case NSpi => "/spi"
    case NExtSeqNum => "/ext-seq-num"
    case NSeqOverflow => "/seq-overflow"
    case NReplayWindowSize => "/anti-replay-window-size"
    case NLocalPrefix => "/local-prefix"
    case NRemotePrefix => "/remote-prefix"
    case NInnerProtocol => "/inner-protocol"
    case NPortRange(l, a, b) => PortList(l, a, b)
    case NPortStart(_, _, _) => "/start"
    case NPortEnd(_, _, _) => "/end"
    case NProtocolParameters => "/protocol-parameters"
    case NMode => "/mode"
    case NEncryptionAlgorithm => "/encryption-algorithm"
    case NEncryptionKey => "/key"
    case NIv => "/iv"
    case NIntegrityAlgorithm => "/integrity-algorithm"
    case NIntegrityKey => "/key"
    case NLifetime(kind, _) => KindName(kind)
    case NSoftAction => "/action"
    case NTunnelLocal => "/local"
    case NTunnelRemote => "/remote"
    case NDfBit => "/df-bit"
    case NBypassDscp => "/bypass-dscp"
    case NDscpMapping(id) => Mapping(id)
    case NDscpMappingId(_) => "/id"
    case NInnerDscp(_) => "/inner-dscp"
    case NOuterDscp(_) => "/outer-dscp"
    case NDscpValue(dscp) => "/dscp-values[.='" + Decimal(dscp) + "']"
    case NEspEncap => "/espencap"
    case NEncapPort(source) => if source then "/sport" else "/dport"
    case NOriginalAddress(address) => "/oaddr[.='" + Dotted(address) + "']"
  }

  function Below(n: Node): seq<string> {
    Container(n) + [NodeName(n)]
  }

  /** What each node is meant to set. */
  function MeantBy(n: Node): Target {
    match n
    case NReqId => ReqId
    case NSpi => Spi
    case NExtSeqNum => ExtSeqNum
    case NSeqOverflow => SeqOverflow
    case NReplayWindowSize => Ignored
    case NLocalPrefix => LocalPrefix
    case NRemotePrefix => RemotePrefix
    case NInnerProtocol => InnerProtocol
    case NPortRange(_, _, _) => Ignored
    case NPortStart(local, _, _) => Ports(local, !local)
    case NPortEnd(_, _, _) => Ignored
    case NProtocolParameters => ProtocolParameters
    case NMode => Mode
    case NEncryptionAlgorithm => EncryptionAlgorithm
    case NEncryptionKey => Key(true, false)
    case NIv => Iv
    case NIntegrityAlgorithm => IntegrityAlgorithm
    case NIntegrityKey => Key(false, true)
    case NLifetime(kind, soft) => Limit(kind, soft)
    case NSoftAction => Ignored
    case NTunnelLocal => TunnelLocal
    case NTunnelRemote => TunnelRemote
    case NDfBit => DfBit
    case NBypassDscp => BypassDscp
    case _ => Ignored
  }

  /** The path of a node of an entry. */
  function PathOf(name: string, n: Node): string {
    EntryPath(Join(SAD_LIST), name) + Join(Below(n))
  }

  // ----- last segments

  /** Length and first letters tell the names that select a target apart. */
  datatype Code = Code(length: nat, first: char, second: char)

  function CodeOf(s: string): Code
    requires |s| > 2
  {
    Code(|s|, s[1], s[2])
  }

  function TargetCode(t: Target): Code {
    match t
    case ReqId => Code(6, 'r', 'e')
    case Spi => Code(4, 's', 'p')
    case ExtSeqNum => Code(12, 'e', 'x')
    case SeqNumberCounter => Code(19, 's', 'e')
    case SeqOverflow => Code(13, 's', 'e')
    case AntiReplayWindow => Code(19, 'a', 'n')
    case LocalPrefix => Code(13, 'l', 'o')
    case RemotePrefix => Code(14, 'r', 'e')
    case InnerProtocol => Code(15, 'i', 'n')
    case Ports(_, _) => Code(6, 's', 't')
    case Mode => Code(5, 'm', 'o')
    case TunnelLocal => Code(6, 'l', 'o')
    case TunnelRemote => Code(7, 'r', 'e')
    case BypassDscp => Code(12, 'b', 'y')
    case Ecn => Code(4, 'e', 'c')
    case DfBit => Code(7, 'd', 'f')
    case ProtocolParameters => Code(20, 'p', 'r')
    case EncryptionAlgorithm => Code(21, 'e', 'n')
    case Iv => Code(3, 'i', 'v')
    case Key(_, _) => Code(4, 'k', 'e')
    case IntegrityAlgorithm => Code(20, 'i', 'n')
    case Limit(kind, _) => KindCode(kind)
    case Ignored => Code(0, ' ', ' ')
  }

  function KindCode(kind: Kind): Code {
    match kind
    case Time => Code(5, 't', 'i')
    case Octets => Code(6, 'b', 'y')
    case Packets => Code(8, 'p', 'a')
    case Idle => Code(5, 'i', 'd')
  }

  lemma SegmentCode(t: Target)
    requires t != Ignored
    ensures |SegmentOf(t)| > 2 && CodeOf(SegmentOf(t)) == TargetCode(t)
  {
  }

  /** Targets that one name selects without a search. */
  predicate Plain(t: Target) {
    !t.Ignored? && !t.Ports? && !t.Key? && !t.Limit?
  }

  lemma CodeDecides(t: Target, u: Target)
    requires TargetCode(t) == TargetCode(u) && Plain(t)
    ensures t == u
  {
  }

  /** If a name selects anything, then the target with the name's code, up to a search. */
  lemma NameSelects(name: string, p: string, t: Target)
    requires |name| > 2 && t == TargetNamed(name, p) && t != Ignored
    ensures if t.Ports? then name[1] == 's' && name[2] == 't'
            else if t.Key? then name[1] == 'k'
            else CodeOf(name) == TargetCode(t)
  {
    hide TargetNamed, SegmentOf, TargetCode;
    NamedHasSegment(name, p);
    SegmentCode(t);
    assert t.Ports? ==> TargetCode(t) == Code(6, 's', 't') by {
      FrontCodes(t);
    }
    FrontCodes(t);
    assert SegmentOf(t) <= name;
  }

  lemma FrontCodes(t: Target)
    ensures t.Ports? ==> TargetCode(t) == Code(6, 's', 't')
    ensures t.Key? ==> TargetCode(t) == Code(4, 'k', 'e')
  {
  }

  lemma PlainIsNotMissed(t: Target, p: string)
    requires Plain(t)
    ensures TargetNamed(SegmentOf(t), p) != Ignored
  {
    hide Contains, LimitOf;
  }

  /** A plain name selects its own target, wherever it occurs. */
  lemma PlainName(t: Target, p: string)
    requires Plain(t)
    ensures TargetNamed(SegmentOf(t), p) == t
  {
    hide TargetNamed, SegmentOf, TargetCode;
    var u := TargetNamed(SegmentOf(t), p);
    SegmentCode(t);
    PlainIsNotMissed(t, p);
    NameSelects(SegmentOf(t), p, u);
    PlainCodes(t);
    CodeDecides(t, u);
  }

  lemma PlainCodes(t: Target)
    requires Plain(t)
    ensures TargetCode(t).first != 'k' && (TargetCode(t).first == 's' ==> TargetCode(t).second != 't')
  {
  }

  // ----- names that need a search

  lemma StartName(p: string)
    ensures TargetNamed("/start", p) == Ports(Contains(p, "/local-ports"), Contains(p, "/remote-ports"))
  {
    hide Contains, LimitOf;
  }

  lemma KeyName(p: string)
    ensures TargetNamed("/key", p) == Key(Contains(p, "/encryption"), Contains(p, "/integrity"))
  {
    hide Contains, LimitOf;
  }

  lemma TimeNames(p: string)
    ensures TargetNamed("/time", p) == LimitOf(Time, p) && TargetNamed("/idle", p) == LimitOf(Idle, p)
  {
    hide Contains, LimitOf;
  }

  lemma BytesName(p: string)
    ensures TargetNamed("/bytes", p) == LimitOf(Octets, p)
  {
    hide Contains, LimitOf;
    var name := "/bytes";
    assert name[1] == 'b';
  }

  lemma PacketsName(p: string)
    ensures TargetNamed("/packets", p) == LimitOf(Packets, p)
  {
    hide Contains, LimitOf;
    var name := "/packets";
    assert name[1] == 'p';
  }

  // ----- names no target has

  /** The code of a name of a node that sets nothing, or some of it. */
  predicate IsForeign(c: Code) {
    || c.length > 21 || c.first == 'o'
    || (c.first == 'd' && c.second != 'f')
    || (c.first == 'a' && c.length != 19)
    || (c.first == 'e' && c.length < 10 && c.second != 'c')
    || (c.first == 'i' && (c.second == 'd' || c.second == 'n') && (c.length == 3 || c.length == 11))
    || (c.first == 's' && c.second == 'p' && c.length == 6)
  }

  lemma NoTargetIsForeign(t: Target)
    requires t != Ignored
    ensures !IsForeign(TargetCode(t))
  {
  }

  lemma UnreadIsForeign(n: Node)
    requires MeantBy(n) == Ignored
    ensures |NodeName(n)| > 2 && IsForeign(CodeOf(NodeName(n)))
    ensures NodeName(n)[1] != 'k' && (NodeName(n)[1] == 's' ==> NodeName(n)[2] != 't')
  {
    hide Decimal, Dotted;
  }

  lemma UnreadName(n: Node, p: string)
    requires MeantBy(n) == Ignored
    ensures TargetNamed(NodeName(n), p) == Ignored
  {
    hide TargetNamed, NodeName, TargetCode, IsForeign;
    UnreadIsForeign(n);
    var t := TargetNamed(NodeName(n), p);
    if t != Ignored {
      NameSelects(NodeName(n), p, t);
      NoTargetIsForeign(t);
    }
  }

  // ----- whole paths

  lemma DecimalIsBare(n: nat)
    ensures '/' !in Decimal(n)
  {
  }

  lemma ContainerLiterals()
    ensures IsSegment("/ipsec-sa-config") && IsSegment("/traffic-selector") && IsSegment("/esp-sa")
    ensures IsSegment("/encryption") && IsSegment("/integrity") && IsSegment("/sa-lifetime-soft")
    ensures IsSegment("/sa-lifetime-hard") && IsSegment("/tunnel") && IsSegment("/encapsulation-type")
  {
  }

  lemma IdentityLiterals()
    ensures IsSegment("/reqid") && IsSegment("/spi") && IsSegment("/ext-seq-num")
    ensures IsSegment("/seq-overflow") && IsSegment("/anti-replay-window-size") && IsSegment("/protocol-parameters")
    ensures IsSegment("/mode")
  {
  }

  lemma SelectorLiterals()
    ensures IsSegment("/local-prefix") && IsSegment("/remote-prefix") && IsSegment("/inner-protocol")
    ensures IsSegment("/start") && IsSegment("/end") && IsSegment("/local")
    ensures IsSegment("/remote") && IsSegment("/df-bit") && IsSegment("/bypass-dscp")
  {
  }

  lemma EspLiterals()
    ensures IsSegment("/encryption-algorithm") && IsSegment("/key") && IsSegment("/iv")
    ensures IsSegment("/integrity-algorithm") && IsSegment("/time") && IsSegment("/bytes")
    ensures IsSegment("/packets") && IsSegment("/idle") && IsSegment("/action")
  {
  }

  lemma OtherLiterals()
    ensures IsSegment("/id") && IsSegment("/inner-dscp") && IsSegment("/outer-dscp")
    ensures IsSegment("/espencap") && IsSegment("/sport") && IsSegment("/dport")
  {
  }

  lemma PortListIsSegment(local: bool, first: nat, last: nat)
    ensures IsSegment(PortList(local, first, last))
  {
    hide Decimal;
    DecimalIsBare(first);
    DecimalIsBare(last);
  }

  lemma ValuesAreSegments(n: Node)
    requires n.NDscpMapping? || n.NDscpValue? || n.NOriginalAddress?
    ensures IsSegment(NodeName(n))
  {
    hide Decimal, Dotted;
    if n.NOriginalAddress? {
      DottedIsBare(n.address);
    } else {
      DecimalIsBare(if n.NDscpMapping? then n.id else n.dscp);
    }
  }

  lemma NamesAreSegments(n: Node)
    ensures IsSegment(NodeName(n))
  {
    hide IsSegment, PortList, Mapping, Decimal, Dotted;
    IdentityLiterals();
    SelectorLiterals();
    EspLiterals();
    OtherLiterals();
    if n.NPortRange? {
      PortListIsSegment(n.local, n.first, n.last);
    } else if n.NDscpMapping? || n.NDscpValue? || n.NOriginalAddress? {
      ValuesAreSegments(n);
    }
  }

  lemma DottedIsBare(a: Quad)
    ensures '/' !in Dotted(a)
  {
    hide Decimal;
    DecimalIsBare(a[0]);
    DecimalIsBare(a[1]);
    DecimalIsBare(a[2]);
    DecimalIsBare(a[3]);
  }

  lemma ContainersAreSegments(n: Node)
    ensures AreSegments(Container(n))
  {
    hide IsSegment, PortList, Mapping;
    ContainerLiterals();
    if n.NPortStart? || n.NPortEnd? {
      PortListIsSegment(n.local, n.first, n.last);
    } else if n.NDscpMappingId? || n.NInnerDscp? || n.NOuterDscp? {
      ValuesAreSegments(NDscpMapping(n.id));
    }
  }

  const PARTS := [
    "/local-ports", "/remote-ports", "/encryption", "/integrity", "/sa-lifetime-soft", "/sa-lifetime-hard"]

  lemma PartLiterals()
    ensures forall i | 0 <= i < |PARTS| :: IsSegment(PARTS[i]) && forall c | c in PARTS[i] :: c !in "[]'\""
  {
  }

  lemma ListHasNoPart()
    ensures AreSegments(SAD_LIST) && forall i | 0 <= i < |PARTS| :: !HasPart(SAD_LIST, PARTS[i])
  {
    forall i | 0 <= i < |PARTS|
      ensures !HasPart(SAD_LIST, PARTS[i])
    {
      AllApart(SAD_LIST, PARTS[i]);
    }
  }

  lemma PortParts(local: bool, first: nat, last: nat)
    ensures var b := Below(NPortStart(local, first, last));
            (HasPart(b, "/local-ports") <==> local) && (HasPart(b, "/remote-ports") <==> !local)
  {
    hide Decimal;
    var b := Below(NPortStart(local, first, last));
    assert b[2] == PortList(local, first, last);
    if local {
      assert "/local-ports" <= b[2];
      AllApart(b, "/remote-ports");
    } else {
      assert "/remote-ports" <= b[2];
      AllApart(b, "/local-ports");
    }
  }

  lemma KeyParts()
    ensures HasPart(Below(NEncryptionKey), "/encryption") && !HasPart(Below(NEncryptionKey), "/integrity")
    ensures HasPart(Below(NIntegrityKey), "/integrity") && !HasPart(Below(NIntegrityKey), "/encryption")
  {
    assert Below(NEncryptionKey)[2] == "/encryption" && Below(NIntegrityKey)[2] == "/integrity";
    AllApart(Below(NEncryptionKey), "/integrity");
    AllApart(Below(NIntegrityKey), "/encryption");
  }

  lemma LifetimeParts(kind: Kind, soft: bool)
    ensures var b := Below(NLifetime(kind, soft));
            (HasPart(b, "/sa-lifetime-soft") <==> soft) && (HasPart(b, "/sa-lifetime-hard") <==> !soft)
  {
    var b := Below(NLifetime(kind, soft));
    assert b == ["/ipsec-sa-config", if soft then "/sa-lifetime-soft" else "/sa-lifetime-hard", KindName(kind)];
    var other := if soft then "/sa-lifetime-hard" else "/sa-lifetime-soft";
    assert b[1][13] != other[13];
    forall i | 0 <= i < |b|
      ensures !(other <= b[i])
    {
    }
  }

  lemma SearchInPath(name: string, n: Node, i: nat)
    requires i < |PARTS|
    ensures Contains(PathOf(name, n), PARTS[i]) <==> Contains(name, PARTS[i]) || HasPart(Below(n), PARTS[i])
  {
    hide Contains, HasPart, IsSegment;
    PartLiterals();
    ListHasNoPart();
    NamesAreSegments(n);
    ContainersAreSegments(n);
    SearchInLeaf(SAD_LIST, name, Below(n), PARTS[i]);
  }

  // ----- the table

  /** What the reader sets for a node of the entry with this name. */
  function SetBy(name: string, n: Node): Target {
    match n
    case NPortStart(local, _, _) =>
      Ports(local || Contains(name, "/local-ports"), !local || Contains(name, "/remote-ports"))
    case NEncryptionKey => Key(true, Contains(name, "/integrity"))
    case NIntegrityKey => Key(Contains(name, "/encryption"), true)
    case NLifetime(kind, soft) => Limit(kind, soft || Contains(name, "/sa-lifetime-soft"))
    case _ => MeantBy(n)
  }

  lemma NameOfPlain(n: Node)
    requires Plain(MeantBy(n))
    ensures NodeName(n) == SegmentOf(MeantBy(n))
  {
  }

  lemma SearchedTarget(name: string, n: Node)
    requires n.NPortStart? || n.NEncryptionKey? || n.NIntegrityKey? || n.NLifetime?
    ensures TargetNamed(NodeName(n), PathOf(name, n)) == SetBy(name, n)
  {
    hide Contains, HasPart, TargetNamed, PathOf, Below;
    var p := PathOf(name, n);
    SearchInPath(name, n, 0);
    SearchInPath(name, n, 1);
    SearchInPath(name, n, 2);
    SearchInPath(name, n, 3);
    SearchInPath(name, n, 4);
    SearchInPath(name, n, 5);
    match n
    case NPortStart(local, first, last) =>
      StartName(p);
      PortParts(local, first, last);
    case NEncryptionKey =>
      KeyName(p);
      KeyParts();
    case NIntegrityKey =>
      KeyName(p);
      KeyParts();
    case NLifetime(kind, soft) =>
      TimeNames(p);
      BytesName(p);
      PacketsName(p);
      LifetimeParts(kind, soft);
  }

  /** The target of every node of the schema, for every name of the entry. */
  lemma SchemaTarget(name: string, n: Node)
    ensures TargetOf(PathOf(name, n)) == SetBy(name, n)
  {
    hide Contains, LastSegment, TargetNamed, Join, EntryPath, Below, NodeName, SegmentOf;
    LastOfNode(name, n);
    if n.NPortStart? || n.NEncryptionKey? || n.NIntegrityKey? || n.NLifetime? {
      SearchedTarget(name, n);
    } else if MeantBy(n) == Ignored {
      UnreadName(n, PathOf(name, n));
    } else {
      NameOfPlain(n);
      PlainName(MeantBy(n), PathOf(name, n));
    }
  }

  lemma LastOfNode(name: string, n: Node)
    ensures LastSegment(PathOf(name, n)) == NodeName(n)
  {
    hide LastSegment, IsSegment, EntryPath, NodeName, Container;
    NamesAreSegments(n);
    ContainersAreSegments(n);
    LastOfLeaf(Join(SAD_LIST), name, Below(n));
  }

  /** The part whose occurrence in the entry's name misdirects the node, if there is one. */
  function Trap(n: Node): Option<string> {
    match n
    case NPortStart(local, _, _) => Some(if local then "/remote-ports" else "/local-ports")
    case NEncryptionKey => Some("/integrity")
    case NIntegrityKey => Some("/encryption")
    case NLifetime(_, soft) => if soft then None else Some("/sa-lifetime-soft")
    case _ => None
  }

  /** A node sets what it is meant to set exactly when the name does not contain its trap. */
  lemma MeantIff(name: string, n: Node)
    ensures TargetOf(PathOf(name, n)) == MeantBy(n) <==> Trap(n) == None || !Contains(name, Trap(n).value)
  {
    hide Contains, TargetOf, PathOf;
    SchemaTarget(name, n);
  }

  /** A name that misdirects no node. */
  predicate SafeName(name: string) {
    && !Contains(name, "/local-ports") && !Contains(name, "/remote-ports")
    && !Contains(name, "/encryption") && !Contains(name, "/integrity") && !Contains(name, "/sa-lifetime-soft")
  }

  predicate Evades(name: string, n: Node) {
    Trap(n) == None || !Contains(name, Trap(n).value)
  }

  lemma SafeEvades(name: string, n: Node)
    requires SafeName(name)
    ensures Evades(name, n)
  {
    hide Contains;
  }

  lemma EvadingIsSafe(name: string)
    requires Evades(name, NPortStart(true, 0, 0)) && Evades(name, NPortStart(false, 0, 0))
    requires Evades(name, NEncryptionKey) && Evades(name, NIntegrityKey) && Evades(name, NLifetime(Time, false))
    ensures SafeName(name)
  {
    hide Contains;
  }

  /** A name is safe exactly when every node of an entry with this name sets what it is meant to. */
  lemma SafeIff(name: string)
    ensures SafeName(name) <==> forall n :: TargetOf(PathOf(name, n)) == MeantBy(n)
  {
    hide TargetOf, PathOf, SafeName, MeantBy, Trap;
    forall n
      ensures TargetOf(PathOf(name, n)) == MeantBy(n) <==> Evades(name, n)
    {
      MeantIff(name, n);
    }
    hide Evades;
    if SafeName(name) {
      forall n
        ensures Evades(name, n)
      {
        SafeEvades(name, n);
      }
    } else if forall n :: TargetOf(PathOf(name, n)) == MeantBy(n) {
      assert forall n :: Evades(name, n);
      EvadingIsSafe(name);
    }
  }

  /** The leaf the schema calls anti-replay-window-size sets nothing. */
  lemma ReplayWindowIsIgnored(d: SadData, name: string, v: Value)
    ensures SadApply(d, Change(Created, PathOf(name, NReplayWindowSize), v)) == Next(d)
  {
    hide TargetOf, PathOf;
    SchemaTarget(name, NReplayWindowSize);
  }

  /**
   A soft lifetime of up to 64 bits is stored as configured exactly when it fits 31 bits or is the
   widening of a negative number; from 2^31 on its low 32 bits are kept, widened with their sign.
   A hard one likewise, or as a soft one if the name says so.
   */
  lemma LifetimeReadIff(d: SadData, name: string, kind: Kind, soft: bool, n: nat)
    requires n < 0x1_0000_0000_0000_0000
    ensures var e := SadApply(d, Change(Created, PathOf(name, NLifetime(kind, soft)), Num(n))).entry;
            var l := if soft || Contains(name, "/sa-lifetime-soft") then e.soft else e.hard;
            && (LimitIn(l, kind) == n <==> n < 0x8000_0000 || n >= 0xFFFF_FFFF_8000_0000)
            && (0x8000_0000 <= n < 0x1_0000_0000 ==> LimitIn(l, kind) == n + 0xFFFF_FFFF_0000_0000)
            && (n >= 0x1_0000_0000 ==>
                  LimitIn(l, kind) % 0x1_0000_0000 == n % 0x1_0000_0000
                  && (LimitIn(l, kind) >= 0xFFFF_FFFF_8000_0000 || LimitIn(l, kind) < 0x8000_0000))
  {
    hide PathOf, Contains, LimitIn, Signed32, SadApply;
    LifetimeStored(d, name, kind, soft, n);
    Signed32Iff(n);
    Widened(n);
  }

  lemma LifetimeStored(d: SadData, name: string, kind: Kind, soft: bool, n: nat)
    ensures var e := SadApply(d, Change(Created, PathOf(name, NLifetime(kind, soft)), Num(n))).entry;
            LimitIn(if soft || Contains(name, "/sa-lifetime-soft") then e.soft else e.hard, kind) == Signed32(n)
  {
    hide TargetOf, PathOf, Contains, SetLimit, LimitIn, Signed32;
    SchemaTarget(name, NLifetime(kind, soft));
    LimitSet(d.soft, kind, Signed32(n), kind);
    LimitSet(d.hard, kind, Signed32(n), kind);
  }

  lemma Widened(n: nat)
    ensures n < 0x1_0000_0000 ==> Signed32(n) == if n < 0x8000_0000 then n else n + 0xFFFF_FFFF_0000_0000
    ensures Signed32(n) % 0x1_0000_0000 == n % 0x1_0000_0000
    ensures Signed32(n) >= 0xFFFF_FFFF_8000_0000 || Signed32(n) < 0x8000_0000
    ensures n < 0x1_0000 ==> Signed16(n) == if n < 0x8000 then n else n + 0xFFFF_0000
  {
  }

  /** Algorithm numbers are stored as configured exactly when their sign bit is clear, else with it widened. */
  lemma AlgorithmReadIff(d: SadData, name: string, n: nat)
    requires n < 0x1_0000
    ensures var e := SadApply(d, Change(Created, PathOf(name, NEncryptionAlgorithm), Num(n))).entry;
            && (e.encryptionAlg == n <==> n < 0x8000) && (n >= 0x8000 ==> e.encryptionAlg == n + 0xFFFF_0000)
    ensures var e := SadApply(d, Change(Created, PathOf(name, NIntegrityAlgorithm), Num(n))).entry;
            && (e.integrityAlg == n <==> n < 0x8000) && (n >= 0x8000 ==> e.integrityAlg == n + 0xFFFF_0000)
  {
    hide TargetOf, PathOf, Contains, Signed16;
    SchemaTarget(name, NEncryptionAlgorithm);
    SchemaTarget(name, NIntegrityAlgorithm);
    Signed16Iff(n);
    Widened(n);
  }
}
