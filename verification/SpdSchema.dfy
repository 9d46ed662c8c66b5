/**
 The nodes of the YANG list spd-entry, their paths, and what the reader makes of them. Ports are
 told apart by a search in the whole path, the entry's name included.
 */
module SpdSchema {
  import opened Text
  import opened ChangeStream
  import opened SpdEntry
  import opened SadReader
  import opened SpdReader
  import opened Paths
  import Sad = SadSchema

  const SPD_LIST := ["/ietf-i2nsf-ikeless:ipsec-ikeless", "/spd", "/spd-entry"]

  /** The configuration nodes below an entry, its name aside. */
  datatype Node =
    | NDirection | NReqId | NReplayWindowSize
    | NLocalPrefix | NRemotePrefix | NInnerProtocol
    | NPortRange(local: bool, first: nat, last: nat)
    | NPortStart(local: bool, first: nat, last: nat)
    | NPortEnd(local: bool, first: nat, last: nat)
    | NAction | NPfpFlag | NExtSeqNum | NSeqOverflow | NStatefulFragCheck | NMode | NProtocolParameters
    | NIntegrity(alg: nat) | NEncryption(id: nat)
    | NEncryptionId(id: nat) | NAlgorithmType(id: nat) | NKeyLength(id: nat)
    | NTfcPad | NTunnelLocal | NTunnelRemote | NDfBit | NBypassDscp
    | NDscpMapping(id: nat) | NDscpMappingId(id: nat) | NInnerDscp(id: nat) | NOuterDscp(id: nat)

  function EncryptionList(id: nat): string {
    "/encryption[id='" + Decimal(id) + "']"
  }

  const SELECTOR := ["/ipsec-policy-config", "/traffic-selector"]
  const PROCESSING := ["/ipsec-policy-config", "/processing-info", "/ipsec-sa-cfg"]

  function Container(n: Node): seq<string> {
    match n
    case NDirection => []
    case NReqId => []
    case NReplayWindowSize => ["/ipsec-policy-config"]
    case NLocalPrefix => SELECTOR
    case NRemotePrefix => SELECTOR
    case NInnerProtocol => SELECTOR
    case NPortRange(_, _, _) => SELECTOR
    case NPortStart(l, a, b) => SELECTOR + [Sad.PortList(l, a, b)]
    case NPortEnd(l, a, b) => SELECTOR + [Sad.PortList(l, a, b)]
    case NAction => ["/ipsec-policy-config", "/processing-info"]
    case NIntegrity(_) => PROCESSING + ["/esp-algorithms"]
    case NEncryption(_) => PROCESSING + ["/esp-algorithms"]
    case NEncryptionId(id) => PROCESSING + ["/esp-algorithms", EncryptionList(id)]
    case NAlgorithmType(id) => PROCESSING + ["/esp-algorithms", EncryptionList(id)]
    case NKeyLength(id) => PROCESSING + ["/esp-algorithms", EncryptionList(id)]
    case NTfcPad => PROCESSING + ["/esp-algorithms"]
    case NTunnelLocal => PROCESSING + ["/tunnel"]
    case NTunnelRemote => PROCESSING + ["/tunnel"]
    case NDfBit => PROCESSING + ["/tunnel"]
    case NBypassDscp => PROCESSING + ["/tunnel"]
    case NDscpMapping(_) => PROCESSING + ["/tunnel"]
    case NDscpMappingId(id) => PROCESSING + ["/tunnel", Sad.Mapping(id)]
    case NInnerDscp(id) => PROCESSING + ["/tunnel", Sad.Mapping(id)]
    case NOuterDscp(id) => PROCESSING + ["/tunnel", Sad.Mapping(id)]
    case _ => PROCESSING
  }

  function NodeName(n: Node): string {
    match n
    case NDirection => "/direction"
    case NReqId => "/reqid"
    case NReplayWindowSize => "/anti-replay-window-size"
    case NLocalPrefix => "/local-prefix"
    case NRemotePrefix => "/remote-prefix"
    case NInnerProtocol => "/inner-protocol"
    case NPortRange(l, a, b) => Sad.PortList(l, a, b)
    case NPortStart(_, _, _) => "/start"
    case NPortEnd(_, _, _) => "/end"
    case NAction => "/action"
    case NPfpFlag => "/pfp-flag"
    case NExtSeqNum => "/ext-seq-num"
    case NSeqOverflow => "/seq-overflow"
    case NStatefulFragCheck => "/stateful-frag-check"
    case NMode => "/mode"
    case NProtocolParameters => "/protocol-parameters"
    case NIntegrity(alg) => "/integrity[.='" + Decimal(alg) + "']"
    case NEncryption(id) => EncryptionList(id)
    case NEncryptionId(_) => "/id"
    case NAlgorithmType(_) => "/algorithm-type"
    case NKeyLength(_) => "/key-length"
    case NTfcPad => "/tfc-pad"
    case NTunnelLocal => "/local"
    case NTunnelRemote => "/remote"
    case NDfBit => "/df-bit"
    case NBypassDscp => "/bypass-dscp"
    case NDscpMapping(id) => Sad.Mapping(id)
    case NDscpMappingId(_) => "/id"
    case NInnerDscp(_) => "/inner-dscp"
    case NOuterDscp(_) => "/outer-dscp"
  }

  function Below(n: Node): seq<string> {
    Container(n) + [NodeName(n)]
  }

  /** What each node is meant to set; nothing reads the leaves of an encryption list. */
  function MeantBy(n: Node): Goal {
    match n
    case NDirection => Direction
    case NReqId => Identifier
    case NLocalPrefix => Local
    case NRemotePrefix => Remote
    case NInnerProtocol => Protocol
    case NPortStart(local, _, _) => PortStart(local, !local)
    case NAction => Action
    case NPfpFlag => Pfp
    case NExtSeqNum => LongNumbers
    case NSeqOverflow => Overflow
    case NStatefulFragCheck => FragCheck
    case NMode => Processing
    case NProtocolParameters => Parameters
    case NIntegrity(_) => Integrity
    case NEncryption(_) => Encryption
    case NTfcPad => Padding
    case NTunnelLocal => TunnelStart
    case NTunnelRemote => TunnelEnd
    case NDfBit => Fragment
    case NBypassDscp => Dscp
    case _ => Unknown
  }

  /** The path of a node of an entry. */
  function PathOf(name: string, n: Node): string {
    EntryPath(Join(SPD_LIST), name) + Join(Below(n))
  }

  // ----- last segments

  function GoalCode(g: Goal): Sad.Code {
    match g
    case Direction => Sad.Code(10, 'd', 'i')
    case Identifier => Sad.Code(6, 'r', 'e')
    case Window => Sad.Code(19, 'a', 'n')
    case Local => Sad.Code(13, 'l', 'o')
    case Remote => Sad.Code(14, 'r', 'e')
    case Protocol => Sad.Code(15, 'i', 'n')
    case Action => Sad.Code(7, 'a', 'c')
    case LongNumbers => Sad.Code(12, 'e', 'x')
    case Overflow => Sad.Code(13, 's', 'e')
    case Pfp => Sad.Code(9, 'p', 'f')
    case FragCheck => Sad.Code(20, 's', 't')
    case Processing => Sad.Code(5, 'm', 'o')
    case TunnelStart => Sad.Code(6, 'l', 'o')
    case TunnelEnd => Sad.Code(7, 'r', 'e')
    case Dscp => Sad.Code(12, 'b', 'y')
    case Congestion => Sad.Code(4, 'e', 'c')
    case Fragment => Sad.Code(7, 'd', 'f')
    case Parameters => Sad.Code(20, 'p', 'r')
    case Padding => Sad.Code(8, 't', 'f')
    case _ => Sad.Code(0, ' ', ' ')
  }

  /** Goals that one name selects without a search. */
  predicate Plain(g: Goal) {
    !g.Unknown? && !g.PortStart? && !g.Integrity? && !g.Encryption?
  }

  predicate LooksLikeStart(s: string) {
    |s| >= 6 && s[1] == 's' && s[4] == 'r'
  }

  predicate LooksLikeIntegrity(s: string) {
    |s| >= 10 && s[1] == 'i' && s[3] == 't'
  }

  predicate LooksLikeEncryption(s: string) {
    |s| >= 11 && s[1] == 'e' && s[2] == 'n'
  }

  predicate LooksPlain(s: string) {
    !LooksLikeStart(s) && !LooksLikeIntegrity(s) && !LooksLikeEncryption(s)
  }

  lemma GoalSegmentCode(g: Goal)
    requires Plain(g)
    ensures |SegmentOfGoal(g)| > 2 && Sad.CodeOf(SegmentOfGoal(g)) == GoalCode(g)
  {
  }

  lemma PlainLooks(g: Goal)
    requires Plain(g)
    ensures LooksPlain(SegmentOfGoal(g))
  {
  }

  lemma PolicyLiterals()
    ensures IsSegment("/direction") && IsSegment("/pfp-flag") && IsSegment("/stateful-frag-check")
    ensures IsSegment("/anti-replay-window") && IsSegment("/ecn") && IsSegment("/tfc-pad")
    ensures IsSegment("/algorithm-type") && IsSegment("/key-length")
  {
  }

  lemma ContainerLiterals()
    ensures IsSegment("/ipsec-policy-config") && IsSegment("/processing-info") && IsSegment("/ipsec-sa-cfg")
    ensures IsSegment("/esp-algorithms")
  {
  }

  lemma PlainIsSegment(g: Goal)
    requires Plain(g)
    ensures IsSegment(SegmentOfGoal(g))
  {
    hide IsSegment;
    PolicyLiterals();
    Sad.IdentityLiterals();
    Sad.SelectorLiterals();
    Sad.EspLiterals();
  }

  lemma CodeDecides(g: Goal, h: Goal)
    requires GoalCode(g) == GoalCode(h) && Plain(g) && Plain(h)
    ensures g == h
  {
  }

  lemma SearchLiterals()
    ensures IsSegment("/integrity") && IsSegment("/encryption")
  {
  }

  /** If a name selects a goal, it looks like the goal's segment. */
  lemma NameSelects(name: string, p: string, g: Goal)
    requires IsSegment(name) && |name| > 2 && g == GoalNamed(name, p) && g != Unknown
    ensures if g.PortStart? then LooksLikeStart(name)
            else if g.Integrity? then LooksLikeIntegrity(name)
            else if g.Encryption? then LooksLikeEncryption(name)
            else Sad.CodeOf(name) == GoalCode(g)
  {
    hide GoalNamed, Contains, IsSegment, GoalCode;
    GoalIsSelected(name, p);
    SearchLiterals();
    PartOfSegment(name, "/integrity");
    PartOfSegment(name, "/encryption");
    if Plain(g) {
      hide SegmentOfGoal;
      GoalSegmentCode(g);
    }
  }

  lemma PlainIsNotMissed(g: Goal, p: string)
    requires Plain(g)
    ensures GoalNamed(SegmentOfGoal(g), p) != Unknown
  {
    hide Contains;
  }

  /** A plain name selects its own goal, wherever it occurs. */
  lemma PlainName(g: Goal, p: string)
    requires Plain(g)
    ensures GoalNamed(SegmentOfGoal(g), p) == g
  {
    hide GoalNamed, SegmentOfGoal, GoalCode, IsSegment;
    var h := GoalNamed(SegmentOfGoal(g), p);
    GoalSegmentCode(g);
    PlainLooks(g);
    PlainIsSegment(g);
    PlainIsNotMissed(g, p);
    NameSelects(SegmentOfGoal(g), p, h);
    hide LooksLikeStart, LooksLikeIntegrity, LooksLikeEncryption;
    CodeDecides(g, h);
  }

  // ----- names that need a search

  lemma StartName(p: string)
    ensures GoalNamed("/start", p) == PortStart(Contains(p, "/local-ports"), Contains(p, "/remote-ports"))
  {
    hide Contains;
  }

  lemma SearchedIsNotMissed(name: string, p: string)
    requires Contains(name, "/integrity") || Contains(name, "/encryption")
    ensures GoalNamed(name, p) != Unknown
  {
    hide Contains;
  }

  lemma LongNumber(name: string, front: string, n: nat)
    requires name == front + Decimal(n) + "']"
    ensures |name| >= |front| + 3 && front <= name
  {
    hide Decimal;
    assert name[..|front|] == front;
  }

  lemma IntegrityName(n: Node, p: string)
    requires n.NIntegrity?
    ensures IsSegment(NodeName(n)) && GoalNamed(NodeName(n), p) == Integrity
  {
    hide GoalNamed, Contains, Decimal, IsSegment;
    var name := NodeName(n);
    LongNumber(name, "/integrity[.='", n.alg);
    IntegrityIsSegment(n.alg);
    SearchLiterals();
    assert name[..10] == "/integrity";
    PartOfSegment(name, "/integrity");
    SearchedIsNotMissed(name, p);
    NameSelects(name, p, GoalNamed(name, p));
    CodesAvoid(Sad.CodeOf(name), GoalNamed(name, p));
  }

  lemma EncryptionName(n: Node, p: string)
    requires n.NEncryption?
    ensures IsSegment(NodeName(n)) && GoalNamed(NodeName(n), p) == Encryption
  {
    hide GoalNamed, Contains, Decimal, IsSegment;
    var name := NodeName(n);
    LongNumber(name, "/encryption[id='", n.id);
    EncryptionIsSegment(n.id);
    SearchLiterals();
    assert name[..11] == "/encryption";
    PartOfSegment(name, "/encryption");
    SearchedIsNotMissed(name, p);
    NameSelects(name, p, GoalNamed(name, p));
    CodesAvoid(Sad.CodeOf(name), GoalNamed(name, p));
  }

  lemma CodesAvoid(c: Sad.Code, g: Goal)
    ensures c == GoalCode(g) && Plain(g) ==> !(c.first == 'i' && c.length > 15) && !(c.first == 'e' && c.second == 'n')
  {
  }

  lemma IntegrityIsSegment(alg: nat)
    ensures IsSegment("/integrity[.='" + Decimal(alg) + "']")
  {
    hide Decimal;
    Sad.DecimalIsBare(alg);
  }

  lemma EncryptionIsSegment(id: nat)
    ensures IsSegment(EncryptionList(id))
  {
    hide Decimal;
    Sad.DecimalIsBare(id);
  }

  // ----- names no goal has

  /** The code of a name of a node that sets nothing, or some of it. */
  predicate IsForeign(c: Sad.Code) {
    || c.length > 21 || c.first == 'o' || c.first == 'k'
    || (c.first == 'd' && c.second == 's')
    || (c.first == 'a' && c.second == 'l')
    || (c.first == 'e' && c.second == 'n')
    || (c.first == 'i' && (c.length == 3 || c.length == 11))
  }

  lemma NoGoalIsForeign(g: Goal)
    requires Plain(g)
    ensures !IsForeign(GoalCode(g))
  {
  }

  lemma UnreadIsForeign(n: Node)
    requires MeantBy(n) == Unknown
    ensures |NodeName(n)| > 2 && IsForeign(Sad.CodeOf(NodeName(n))) && LooksPlain(NodeName(n))
  {
    hide Decimal;
  }

  lemma NamesAreSegments(n: Node)
    ensures IsSegment(NodeName(n))
  {
    hide IsSegment, Sad.PortList, Sad.Mapping, EncryptionList, Decimal;
    PolicyLiterals();
    Sad.IdentityLiterals();
    Sad.SelectorLiterals();
    Sad.EspLiterals();
    Sad.OtherLiterals();
    if n.NPortRange? {
      Sad.PortListIsSegment(n.local, n.first, n.last);
    } else if n.NDscpMapping? {
      Sad.ValuesAreSegments(Sad.NDscpMapping(n.id));
    } else if n.NIntegrity? {
      IntegrityIsSegment(n.alg);
    } else if n.NEncryption? {
      EncryptionIsSegment(n.id);
    }
  }

  lemma ContainersAreSegments(n: Node)
    ensures AreSegments(Container(n))
  {
    hide IsSegment, Sad.PortList, Sad.Mapping, EncryptionList;
    ContainerLiterals();
    Sad.ContainerLiterals();
    if n.NPortStart? || n.NPortEnd? {
      Sad.PortListIsSegment(n.local, n.first, n.last);
    } else if n.NDscpMappingId? || n.NInnerDscp? || n.NOuterDscp? {
      Sad.ValuesAreSegments(Sad.NDscpMapping(n.id));
    } else if n.NEncryptionId? || n.NAlgorithmType? || n.NKeyLength? {
      EncryptionIsSegment(n.id);
    }
  }

  lemma UnreadName(n: Node, p: string)
    requires MeantBy(n) == Unknown
    ensures GoalNamed(NodeName(n), p) == Unknown
  {
    hide GoalNamed, NodeName, GoalCode, IsForeign, IsSegment, LooksLikeStart, LooksLikeIntegrity, LooksLikeEncryption;
    UnreadIsForeign(n);
    NamesAreSegments(n);
    var g := GoalNamed(NodeName(n), p);
    if g != Unknown {
      NameSelects(NodeName(n), p, g);
      NoGoalIsForeign(g);
    }
  }

  // ----- whole paths

  const PARTS := ["/local-ports", "/remote-ports"]

  lemma PartLiterals()
    ensures forall i | 0 <= i < |PARTS| :: IsSegment(PARTS[i]) && forall c | c in PARTS[i] :: c !in "[]'\""
  {
  }

  lemma ListHasNoPart()
    ensures AreSegments(SPD_LIST) && forall i | 0 <= i < |PARTS| :: !HasPart(SPD_LIST, PARTS[i])
  {
    forall i | 0 <= i < |PARTS|
      ensures !HasPart(SPD_LIST, PARTS[i])
    {
      AllApart(SPD_LIST, PARTS[i]);
    }
  }

  lemma PortParts(local: bool, first: nat, last: nat)
    ensures var b := Below(NPortStart(local, first, last));
            (HasPart(b, "/local-ports") <==> local) && (HasPart(b, "/remote-ports") <==> !local)
  {
    hide Decimal;
    var b := Below(NPortStart(local, first, last));
    assert b[2] == Sad.PortList(local, first, last);
    if local {
      assert "/local-ports" <= b[2];
      AllApart(b, "/remote-ports");
    } else {
      assert "/remote-ports" <= b[2];
      AllApart(b, "/local-ports");
    }
  }

  lemma SearchInPath(name: string, n: Node, i: nat)
    requires i < |PARTS|
    ensures Contains(PathOf(name, n), PARTS[i]) <==> Contains(name, PARTS[i]) || HasPart(Below(n), PARTS[i])
  {
    hide Contains, HasPart, IsSegment, Container;
    PartLiterals();
    ListHasNoPart();
    NamesAreSegments(n);
    ContainersAreSegments(n);
    SearchInLeaf(SPD_LIST, name, Below(n), PARTS[i]);
  }

  lemma LastOfNode(name: string, n: Node)
    ensures LastSegment(PathOf(name, n)) == NodeName(n)
  {
    hide LastSegment, IsSegment, EntryPath, NodeName, Container;
    NamesAreSegments(n);
    ContainersAreSegments(n);
    LastOfLeaf(Join(SPD_LIST), name, Below(n));
  }

  // ----- the table

  /** What the reader sets for a node of the entry with this name. */
  function SetBy(name: string, n: Node): Goal {
    if n.NPortStart? then
      PortStart(n.local || Contains(name, "/local-ports"), !n.local || Contains(name, "/remote-ports"))
    else MeantBy(n)
  }

  lemma NameOfPlain(n: Node)
    requires Plain(MeantBy(n))
    ensures NodeName(n) == SegmentOfGoal(MeantBy(n))
  {
  }

  /** The goal of every node of the schema, for every name of the entry. */
  lemma SchemaGoal(name: string, n: Node)
    ensures GoalOf(PathOf(name, n)) == SetBy(name, n)
  {
    hide Contains, LastSegment, GoalNamed, Join, EntryPath, Below, SegmentOfGoal, HasPart, Decimal;
    LastOfNode(name, n);
    var p := PathOf(name, n);
    if n.NPortStart? {
      SearchInPath(name, n, 0);
      SearchInPath(name, n, 1);
      StartName(p);
      PortParts(n.local, n.first, n.last);
    } else if n.NIntegrity? {
      IntegrityName(n, p);
    } else if n.NEncryption? {
      EncryptionName(n, p);
    } else if MeantBy(n) == Unknown {
      UnreadName(n, p);
    } else {
      NameOfPlain(n);
      PlainName(MeantBy(n), p);
    }
  }

  /** A name in which a search for either side's ports finds nothing. */
  predicate SafeName(name: string) {
    !Contains(name, "/local-ports") && !Contains(name, "/remote-ports")
  }

  /** The node is no port, or the name does not contain the list of the other side. */
  predicate Evades(name: string, n: Node) {
    n.NPortStart? ==> !Contains(name, if n.local then "/remote-ports" else "/local-ports")
  }

  /** A node sets what it is meant to set exactly unless it is a port and the name has the other side's list. */
  lemma MeantIff(name: string, n: Node)
    ensures GoalOf(PathOf(name, n)) == MeantBy(n) <==> Evades(name, n)
  {
    hide Contains, GoalOf, PathOf;
    SchemaGoal(name, n);
  }

  /** Neither anti-replay-window-size nor a leaf of an encryption list sets anything. */
  lemma UnreadLeaves(d: SpdData, name: string, n: Node, v: Value)
    requires n.NReplayWindowSize? || n.NAlgorithmType? || n.NKeyLength? || n.NEncryptionId?
    ensures SpdApply(d, Change(Created, PathOf(name, n), v)) == Next(d)
  {
    hide GoalOf, PathOf, Contains;
    SchemaGoal(name, n);
  }
}
