/** What the leaves of a security policy do to its entry. */
module SpdReader {
  import opened Text
  import opened SpdEntry
  import opened ChangeStream
  import opened SadReader

  const IPSEC_POLICY_DISCARD := 0
  const IPSEC_POLICY_PROTECT := 2
  const IPSEC_POLICY_BYPASS := 4

  /** What a path selects. Ports are told apart by a search in the whole path. */
  datatype Goal =
    | Direction | Identifier | Window | Local | Remote | Protocol | PortStart(src: bool, dst: bool) | Action
    | LongNumbers | Overflow | Pfp | FragCheck
    | Processing | TunnelStart | TunnelEnd | Dscp | Congestion | Fragment | Parameters
    | Integrity | Encryption | Padding
    | Unknown

  function SelectorGoal(name: string, path: string): Goal {
    if name == "/direction" then Direction
    else if name == "/reqid" then Identifier
    else if name == "/anti-replay-window" then Window
    else if name == "/local-prefix" then Local
    else if name == "/remote-prefix" then Remote
    else if name == "/inner-protocol" then Protocol
    else if "/start" <= name then PortStart(Contains(path, "/local-ports"), Contains(path, "/remote-ports"))
    else if name == "/action" then Action
    else Unknown
  }

  function FlagGoal(name: string): Goal {
    if name == "/ext-seq-num" then LongNumbers
    else if name == "/seq-overflow" then Overflow
    else if name == "/pfp-flag" then Pfp
    else if name == "/stateful-frag-check" then FragCheck
    else Unknown
  }

  function ProcessingGoal(name: string): Goal {
    if name == "/mode" then Processing
    else if name == "/local" then TunnelStart
    else if name == "/remote" then TunnelEnd
    else if name == "/bypass-dscp" then Dscp
    else if name == "/ecn" then Congestion
    else if name == "/df-bit" then Fragment
    else if name == "/protocol-parameters" then Parameters
    else if Contains(name, "/integrity") then Integrity
    else if Contains(name, "/encryption") then Encryption
    else if name == "/tfc-pad" then Padding
    else Unknown
  }

  function Else(g: Goal, h: Goal): Goal {
    if g == Unknown then h else g
  }

  /** The comparisons of the source on the last segment, in its order. */
  function GoalNamed(name: string, path: string): Goal {
    Else(SelectorGoal(name, path), Else(FlagGoal(name), ProcessingGoal(name)))
  }

  function GoalOf(path: string): Goal {
    GoalNamed(LastSegment(path), path)
  }

  function DirectionOf(v: Value): Option<nat> {
    if TextOf(v) == "outbound" then Some(IPSEC_DIR_OUTBOUND)
    else if TextOf(v) == "inbound" then Some(IPSEC_DIR_INBOUND)
    else None
  }

  function ActionOf(v: Value): Option<nat> {
    if TextOf(v) == "protect" then Some(IPSEC_POLICY_PROTECT)
    else if TextOf(v) == "bypass" then Some(IPSEC_POLICY_BYPASS)
    else if TextOf(v) == "discard" then Some(IPSEC_POLICY_DISCARD)
    else None
  }

  /** Unlike for associations, case matters. */
  function ExactModeOf(v: Value, was: nat): nat {
    if TextOf(v) == "transport" then 1 else if TextOf(v) == "tunnel" then 2 else was
  }

  /** Only a bad direction, action or protocol ends the reading. */
  function ApplyGoal(d: SpdData, g: Goal, v: Value): Applied<SpdData> {
    match g
    case Direction => if DirectionOf(v).Some? then Next(d.(policyDir := DirectionOf(v).value)) else Stop(d)
    case Identifier => Next(d.(reqId := NumOf(v)))
    case Window => Next(d.(antiReplayWindow := NumOf(v)))
    case Local => Next(d.(localSubnet := TextOf(v)))
    case Remote => Next(d.(remoteSubnet := TextOf(v)))
    case Protocol =>
      var e := d.(innerProtocol := ProtocolOf(v));
      if ProtocolOf(v) > 256 then Stop(e) else Next(e)
    case PortStart(src, dst) =>
      Next(d.(srcPort := if src then NumOf(v) % 0x1_0000 else d.srcPort,
              dstPort := if dst then NumOf(v) % 0x1_0000 else d.dstPort))
    case Action => if ActionOf(v).Some? then Next(d.(action := ActionOf(v).value)) else Stop(d)
    case LongNumbers => Next(d.(extSeqNum := FlagOf(v)))
    case Overflow => Next(d.(seqOverflow := FlagOf(v)))
    case Pfp => Next(d.(pfpFlag := FlagOf(v)))
    case FragCheck => Next(d.(statefulFragCheck := FlagOf(v)))
    case Processing => Next(d.(ipsecMode := ExactModeOf(v, d.ipsecMode)))
    case TunnelStart => Next(d.(tunnelLocal := TextOf(v)))
    case TunnelEnd => Next(d.(tunnelRemote := TextOf(v)))
    case Dscp => Next(d.(bypassDscp := FlagOf(v)))
    case Congestion => Next(d.(ecn := FlagOf(v)))
    case Fragment => Next(d.(dfBit := DfBitOf(v, d.dfBit)))
    case Parameters => Next(d.(protocolParameters := ProtocolParametersOf(v, d.protocolParameters)))
    case Integrity => Next(d.(integrityAlg := Signed16(NumOf(v))))
    case Encryption => Next(d.(encryptionAlg := Signed16(NumOf(v))))
    case Padding => Next(d.(tfcPad := FlagOf(v)))
    case Unknown => Next(d)
  }

  function SpdApply(d: SpdData, c: Change): Applied<SpdData> {
    ApplyGoal(d, GoalOf(c.path), c.value)
  }

  // ----- reading a whole policy

  function ChangeOf(op: Oper, entry: string, leaf: Leaf): Change {
    Change(op, entry + leaf.below, leaf.value)
  }

  predicate SetsDirection(c: Change) {
    GoalOf(c.path) == Direction
  }

  /** A leaf with a value its type does not allow. */
  predicate Bad(c: Change) {
    || (SetsDirection(c) && DirectionOf(c.value).None?)
    || (GoalOf(c.path) == Action && ActionOf(c.value).None?)
    || (GoalOf(c.path) == Protocol && ProtocolOf(c.value) > 256)
  }

  predicate NoneBad(op: Oper, entry: string, leaves: seq<Leaf>) {
    forall i | 0 <= i < |leaves| :: !Bad(ChangeOf(op, entry, leaves[i]))
  }

  predicate HasDirection(op: Oper, entry: string, leaves: seq<Leaf>) {
    exists i :: 0 <= i < |leaves| && SetsDirection(ChangeOf(op, entry, leaves[i]))
  }

  predicate Directed(d: SpdData) {
    d.policyDir == IPSEC_DIR_INBOUND || d.policyDir == IPSEC_DIR_OUTBOUND
  }

  /** The direction and the index are as before. */
  predicate SameRole(d: SpdData, e: SpdData) {
    e.policyDir == d.policyDir && e.index == d.index
  }

  lemma QuietGoals(d: SpdData, g: Goal, v: Value)
    requires !g.Direction? && !g.Protocol? && !g.Action?
    ensures ApplyGoal(d, g, v).Next? && SameRole(d, ApplyGoal(d, g, v).entry)
  {
    hide NumOf, FlagOf, Signed16, DfBitOf, ProtocolParametersOf, TextOf, ExactModeOf;
  }

  lemma CheckedGoals(d: SpdData, g: Goal, v: Value)
    ensures g.Direction? ==>
              if DirectionOf(v).Some? then ApplyGoal(d, g, v) == Next(d.(policyDir := DirectionOf(v).value))
              else ApplyGoal(d, g, v) == Stop(d)
    ensures g.Protocol? ==> (ApplyGoal(d, g, v).Stop? <==> ProtocolOf(v) > 256) && SameRole(d, ApplyGoal(d, g, v).entry)
    ensures g.Action? ==> (ApplyGoal(d, g, v).Stop? <==> ActionOf(v).None?) && SameRole(d, ApplyGoal(d, g, v).entry)
  {
    hide DirectionOf, ActionOf, ProtocolOf;
  }

  lemma OneLeaf(d: SpdData, c: Change)
    ensures SpdApply(d, c).Stop? <==> Bad(c)
    ensures !Bad(c) && SetsDirection(c) ==> Directed(SpdApply(d, c).entry)
    ensures !SetsDirection(c) ==> SpdApply(d, c).entry.policyDir == d.policyDir
    ensures SpdApply(d, c).entry.index == d.index
  {
    hide GoalOf, ActionOf, ProtocolOf, TextOf, ApplyGoal;
    var g := GoalOf(c.path);
    if g.Direction? || g.Protocol? || g.Action? {
      CheckedGoals(d, g, c.value);
    } else {
      QuietGoals(d, g, c.value);
    }
  }

  /**
   A policy is read to the end exactly when none of its leaves is bad. It then has a direction
   exactly when it had one before or one of its leaves sets it; its index is not configured.
   */
  lemma {:induction false} PolicyReadIff(d: SpdData, op: Oper, entry: string, leaves: seq<Leaf>)
    ensures var r := Fold(d, op, entry, leaves, SpdApply);
            && (r.Next? <==> NoneBad(op, entry, leaves))
            && (r.Next? ==> (Directed(r.entry) <==> Directed(d) || HasDirection(op, entry, leaves)))
            && r.entry.index == d.index
    decreases |leaves|
  {
    hide Bad, SetsDirection, SpdApply, Directed;
    if leaves != [] {
      var c, rest := ChangeOf(op, entry, leaves[0]), leaves[1..];
      OneLeaf(d, c);
      SameDirection(d, SpdApply(d, c).entry);
      PolicyReadIff(SpdApply(d, c).entry, op, entry, rest);
      NoneBadUnfolds(op, entry, leaves);
      HasDirectionUnfolds(op, entry, leaves);
    }
  }

  lemma SameDirection(d: SpdData, e: SpdData)
    ensures d.policyDir == e.policyDir ==> (Directed(d) <==> Directed(e))
  {
  }

  lemma NoneBadUnfolds(op: Oper, entry: string, leaves: seq<Leaf>)
    requires leaves != []
    ensures NoneBad(op, entry, leaves) <==> !Bad(ChangeOf(op, entry, leaves[0])) && NoneBad(op, entry, leaves[1..])
  {
    hide Bad;
    var rest := leaves[1..];
    assert forall i | 0 <= i < |rest| :: rest[i] == leaves[i + 1];
    assert forall i | 0 < i < |leaves| :: leaves[i] == rest[i - 1];
  }

  lemma HasDirectionUnfolds(op: Oper, entry: string, leaves: seq<Leaf>)
    requires leaves != []
    ensures HasDirection(op, entry, leaves) <==>
              SetsDirection(ChangeOf(op, entry, leaves[0])) || HasDirection(op, entry, leaves[1..])
  {
    hide SetsDirection;
    var rest := leaves[1..];
    assert forall i | 0 <= i < |rest| :: rest[i] == leaves[i + 1];
    assert forall i | 0 < i < |leaves| :: leaves[i] == rest[i - 1];
  }

  // ----- reading back a rendered policy

  /** A policy that leaves of the right types can express; mode and parameters may be unset. */
  predicate Renderable(d: SpdData) {
    && d.index == 0 && Directed(d)
    && (d.action == IPSEC_POLICY_DISCARD || d.action == IPSEC_POLICY_PROTECT || d.action == IPSEC_POLICY_BYPASS)
    && d.innerProtocol <= 256 && d.srcPort < 0x1_0000 && d.dstPort < 0x1_0000
    && d.ipsecMode <= 2 && d.dfBit <= 2 && (d.protocolParameters == 0 || d.protocolParameters == 50)
    && d.integrityAlg < 0x8000 && d.encryptionAlg < 0x8000
  }

  /** The value of the leaf for a goal. */
  function ValueFor(d: SpdData, g: Goal): Value {
    match g
    case Direction => Str(if d.policyDir == IPSEC_DIR_OUTBOUND then "outbound" else "inbound")
    case Identifier => Num(d.reqId)
    case Window => Num(d.antiReplayWindow)
    case Local => Str(d.localSubnet)
    case Remote => Str(d.remoteSubnet)
    case Protocol => if d.innerProtocol == 256 then Str("any") else Num(d.innerProtocol)
    case PortStart(src, _) => Num(if src then d.srcPort else d.dstPort)
    case Action =>
      Str(if d.action == IPSEC_POLICY_PROTECT then "protect"
          else if d.action == IPSEC_POLICY_BYPASS then "bypass" else "discard")
    case LongNumbers => Flag(d.extSeqNum)
    case Overflow => Flag(d.seqOverflow)
    case Pfp => Flag(d.pfpFlag)
    case FragCheck => Flag(d.statefulFragCheck)
    case Processing => Str(if d.ipsecMode == 1 then "transport" else "tunnel")
    case TunnelStart => Str(d.tunnelLocal)
    case TunnelEnd => Str(d.tunnelRemote)
    case Dscp => Flag(d.bypassDscp)
    case Congestion => Flag(d.ecn)
    case Fragment => Str(if d.dfBit == 0 then "clear" else if d.dfBit == 1 then "set" else "copy")
    case Parameters => Str("esp")
    case Integrity => Num(d.integrityAlg)
    case Encryption => Num(d.encryptionAlg)
    case Padding => Flag(d.tfcPad)
    case Unknown => Flag(false)
  }

  /** The two entries agree in what a goal is about. */
  predicate AgreeOn(e: SpdData, d: SpdData, g: Goal) {
    match g
    case Direction => e.policyDir == d.policyDir
    case Identifier => e.reqId == d.reqId
    case Window => e.antiReplayWindow == d.antiReplayWindow
    case Local => e.localSubnet == d.localSubnet
    case Remote => e.remoteSubnet == d.remoteSubnet
    case Protocol => e.innerProtocol == d.innerProtocol
    case PortStart(src, dst) => (src ==> e.srcPort == d.srcPort) && (dst ==> e.dstPort == d.dstPort)
    case Action => e.action == d.action
    case LongNumbers => e.extSeqNum == d.extSeqNum
    case Overflow => e.seqOverflow == d.seqOverflow
    case Pfp => e.pfpFlag == d.pfpFlag
    case FragCheck => e.statefulFragCheck == d.statefulFragCheck
    case Processing => e.ipsecMode == d.ipsecMode
    case TunnelStart => e.tunnelLocal == d.tunnelLocal
    case TunnelEnd => e.tunnelRemote == d.tunnelRemote
    case Dscp => e.bypassDscp == d.bypassDscp
    case Congestion => e.ecn == d.ecn
    case Fragment => e.dfBit == d.dfBit
    case Parameters => e.protocolParameters == d.protocolParameters
    case Integrity => e.integrityAlg == d.integrityAlg
    case Encryption => e.encryptionAlg == d.encryptionAlg
    case Padding => e.tfcPad == d.tfcPad
    case Unknown => true
  }

  /** A goal of its own: a port leaf is about one side. */
  predicate Proper(g: Goal) {
    g != Unknown && (g.PortStart? ==> g.src != g.dst)
  }

  lemma ValuesRead(d: SpdData)
    requires Renderable(d)
    ensures DirectionOf(ValueFor(d, Direction)) == Some(d.policyDir)
    ensures ActionOf(ValueFor(d, Action)) == Some(d.action)
    ensures ProtocolOf(ValueFor(d, Protocol)) == d.innerProtocol
  {
  }

  /** The policy has a value for the goal: no leaf unsets mode or parameters. */
  predicate HasValue(d: SpdData, g: Goal) {
    (g == Processing ==> d.ipsecMode != 0) && (g == Parameters ==> d.protocolParameters != 0)
  }

  lemma ChoicesRead(d: SpdData, was: nat)
    requires Renderable(d)
    ensures HasValue(d, Processing) ==> ExactModeOf(ValueFor(d, Processing), was) == d.ipsecMode
    ensures DfBitOf(ValueFor(d, Fragment), was) == d.dfBit
    ensures HasValue(d, Parameters) ==>
              ProtocolParametersOf(ValueFor(d, Parameters), was) == d.protocolParameters
  {
  }

  /** A leaf sets what its goal is about. */
  lemma LeafAgrees(e: SpdData, d: SpdData, g: Goal)
    requires Renderable(d) && Proper(g) && HasValue(d, g)
    ensures ApplyGoal(e, g, ValueFor(d, g)).Next? && AgreeOn(ApplyGoal(e, g, ValueFor(d, g)).entry, d, g)
  {
    hide DirectionOf, ActionOf, ProtocolOf, ExactModeOf, DfBitOf, ProtocolParametersOf;
    ValuesRead(d);
    ChoicesRead(d, e.ipsecMode);
    ChoicesRead(d, e.dfBit);
    ChoicesRead(d, e.protocolParameters);
  }

  /** The value of the policy for a goal; the node of an encryption list has no number, which reads as 0. */
  predicate Gives(d: SpdData, g: Goal, v: Value) {
    HasValue(d, g) && (v == ValueFor(d, g) || (g == Encryption && NumOf(v) == d.encryptionAlg))
  }

  lemma GivenAgrees(e: SpdData, d: SpdData, g: Goal, v: Value)
    requires Renderable(d) && Proper(g) && Gives(d, g, v)
    ensures ApplyGoal(e, g, v).Next? && AgreeOn(ApplyGoal(e, g, v).entry, d, g)
  {
    hide Renderable, Proper, ValueFor, DirectionOf, ActionOf, ProtocolOf, ExactModeOf, DfBitOf, ProtocolParametersOf;
    if v == ValueFor(d, g) {
      LeafAgrees(e, d, g);
    } else {
      NumberSurvives(d);
    }
  }

  lemma NumberSurvives(d: SpdData)
    requires Renderable(d)
    ensures Signed16(d.encryptionAlg) == d.encryptionAlg
  {
    Signed16Iff(d.encryptionAlg);
  }

  predicate IsSelector(g: Goal) {
    g.Direction? || g.Identifier? || g.Window? || g.Local? || g.Remote? || g.Protocol? || g.PortStart? || g.Action?
  }

  lemma SelectorKeeps(e: SpdData, g: Goal, v: Value, h: Goal)
    requires Proper(g) && Proper(h) && g != h && IsSelector(g)
    ensures AgreeOn(ApplyGoal(e, g, v).entry, e, h)
  {
    hide DirectionOf, ActionOf, ProtocolOf, ExactModeOf, DfBitOf, ProtocolParametersOf, NumOf, TextOf, FlagOf, Signed16;
  }

  lemma ProcessingKeeps(e: SpdData, g: Goal, v: Value, h: Goal)
    requires Proper(g) && Proper(h) && g != h && !IsSelector(g)
    ensures AgreeOn(ApplyGoal(e, g, v).entry, e, h)
  {
    hide DirectionOf, ActionOf, ProtocolOf, ExactModeOf, DfBitOf, ProtocolParametersOf, NumOf, TextOf, FlagOf, Signed16;
  }

  /** And leaves what other goals are about as it was. */
  lemma LeafKeeps(e: SpdData, g: Goal, v: Value, h: Goal)
    requires Proper(g) && Proper(h) && g != h
    ensures AgreeOn(ApplyGoal(e, g, v).entry, e, h)
  {
    hide ApplyGoal, AgreeOn, Proper;
    if IsSelector(g) {
      SelectorKeeps(e, g, v, h);
    } else {
      ProcessingKeeps(e, g, v, h);
    }
  }

  lemma SelectorsAgree(e: SpdData, d: SpdData)
    requires forall g: Goal | Proper(g) :: AgreeOn(e, d, g)
    ensures e.policyDir == d.policyDir
    ensures e.reqId == d.reqId
    ensures e.antiReplayWindow == d.antiReplayWindow
    ensures e.localSubnet == d.localSubnet
    ensures e.remoteSubnet == d.remoteSubnet
  {
    assert AgreeOn(e, d, Direction);
    assert AgreeOn(e, d, Identifier);
    assert AgreeOn(e, d, Window);
    assert AgreeOn(e, d, Local);
    assert AgreeOn(e, d, Remote);
  }

  lemma TrafficAgrees(e: SpdData, d: SpdData)
    requires forall g: Goal | Proper(g) :: AgreeOn(e, d, g)
    ensures e.innerProtocol == d.innerProtocol
    ensures e.srcPort == d.srcPort
    ensures e.dstPort == d.dstPort
    ensures e.action == d.action
  {
    assert AgreeOn(e, d, Protocol);
    assert AgreeOn(e, d, PortStart(true, false));
    assert AgreeOn(e, d, PortStart(false, true));
    assert AgreeOn(e, d, Action);
  }

  lemma SwitchesAgree(e: SpdData, d: SpdData)
    requires forall g: Goal | Proper(g) :: AgreeOn(e, d, g)
    ensures e.extSeqNum == d.extSeqNum
    ensures e.seqOverflow == d.seqOverflow
    ensures e.pfpFlag == d.pfpFlag
    ensures e.statefulFragCheck == d.statefulFragCheck
    ensures e.tfcPad == d.tfcPad
  {
    assert AgreeOn(e, d, LongNumbers);
    assert AgreeOn(e, d, Overflow);
    assert AgreeOn(e, d, Pfp);
    assert AgreeOn(e, d, FragCheck);
    assert AgreeOn(e, d, Padding);
  }

  lemma TunnelsAgree(e: SpdData, d: SpdData)
    requires forall g: Goal | Proper(g) :: AgreeOn(e, d, g)
    ensures e.tunnelLocal == d.tunnelLocal
    ensures e.tunnelRemote == d.tunnelRemote
    ensures e.bypassDscp == d.bypassDscp
    ensures e.ecn == d.ecn
    ensures e.dfBit == d.dfBit
  {
    assert AgreeOn(e, d, TunnelStart);
    assert AgreeOn(e, d, TunnelEnd);
    assert AgreeOn(e, d, Dscp);
    assert AgreeOn(e, d, Congestion);
    assert AgreeOn(e, d, Fragment);
  }

  lemma ProcessingAgrees(e: SpdData, d: SpdData)
    requires forall g: Goal | Proper(g) :: AgreeOn(e, d, g)
    ensures e.ipsecMode == d.ipsecMode
    ensures e.protocolParameters == d.protocolParameters
    ensures e.integrityAlg == d.integrityAlg
    ensures e.encryptionAlg == d.encryptionAlg
  {
    assert AgreeOn(e, d, Processing);
    assert AgreeOn(e, d, Parameters);
    assert AgreeOn(e, d, Integrity);
    assert AgreeOn(e, d, Encryption);
  }

  lemma AgreementIsEquality(e: SpdData, d: SpdData)
    requires e.index == d.index && forall g: Goal | Proper(g) :: AgreeOn(e, d, g)
    ensures e == d
  {
    hide AgreeOn, Proper;
    SelectorsAgree(e, d);
    TrafficAgrees(e, d);
    SwitchesAgree(e, d);
    TunnelsAgree(e, d);
    ProcessingAgrees(e, d);
  }

  lemma AgreementPasses(c: SpdData, e: SpdData, d: SpdData, g: Goal)
    requires AgreeOn(c, e, g) && AgreeOn(e, d, g)
    ensures AgreeOn(c, d, g)
  {
  }

  function GoalAt(entry: string, leaf: Leaf): Goal {
    GoalOf(entry + leaf.below)
  }

  /** Every leaf with a goal has the value of the policy for it. */
  predicate Renders(d: SpdData, entry: string, leaves: seq<Leaf>) {
    forall i | 0 <= i < |leaves| ::
      GoalAt(entry, leaves[i]) == Unknown
      || (Proper(GoalAt(entry, leaves[i])) && Gives(d, GoalAt(entry, leaves[i]), leaves[i].value))
  }

  predicate Covers(g: Goal, entry: string, leaves: seq<Leaf>) {
    exists i :: 0 <= i < |leaves| && GoalAt(entry, leaves[i]) == g
  }

  /** One rendered leaf: what agreed still does, and what the leaf is about now does. */
  lemma LeafAdvances(e: SpdData, d: SpdData, c: Change, g: Goal)
    requires Renderable(d) && Proper(g)
    requires GoalOf(c.path) == Unknown || (Proper(GoalOf(c.path)) && Gives(d, GoalOf(c.path), c.value))
    ensures var r := SpdApply(e, c);
            && r.Next? && r.entry.index == e.index
            && (AgreeOn(e, d, g) || GoalOf(c.path) == g ==> AgreeOn(r.entry, d, g))
  {
    hide GoalOf, ApplyGoal, AgreeOn, Gives, Renderable, Bad;
    var h := GoalOf(c.path);
    OneLeaf(e, c);
    if h == Unknown {
      UnknownKeeps(e, c.value);
    } else {
      GivenAgrees(e, d, h, c.value);
      if h != g && AgreeOn(e, d, g) {
        LeafKeeps(e, h, c.value, g);
        AgreementPasses(SpdApply(e, c).entry, e, d, g);
      }
    }
  }

  lemma CoversUnfolds(g: Goal, entry: string, leaves: seq<Leaf>)
    requires leaves != []
    ensures Covers(g, entry, leaves) <==> GoalAt(entry, leaves[0]) == g || Covers(g, entry, leaves[1..])
  {
    hide GoalAt;
    var rest := leaves[1..];
    assert forall i | 0 <= i < |rest| :: rest[i] == leaves[i + 1];
    assert forall i | 0 < i < |leaves| :: leaves[i] == rest[i - 1];
  }

  lemma {:induction false} FoldAgrees(e: SpdData, d: SpdData, op: Oper, entry: string, leaves: seq<Leaf>, g: Goal)
    requires Renderable(d) && Renders(d, entry, leaves) && Proper(g)
    ensures var r := Fold(e, op, entry, leaves, SpdApply);
            && r.Next? && r.entry.index == e.index
            && (AgreeOn(e, d, g) || Covers(g, entry, leaves) ==> AgreeOn(r.entry, d, g))
    decreases |leaves|
  {
    hide GoalOf, SpdApply, AgreeOn, Gives, Renderable, Proper, Covers;
    if leaves == [] {
      NoneCovered(g, entry);
    } else {
      var rest, c := leaves[1..], Change(op, entry + leaves[0].below, leaves[0].value);
      assert forall i | 0 <= i < |rest| :: rest[i] == leaves[i + 1];
      LeafAdvances(e, d, c, g);
      CoversUnfolds(g, entry, leaves);
      FoldAgrees(SpdApply(e, c).entry, d, op, entry, rest, g);
    }
  }

  lemma NoneCovered(g: Goal, entry: string)
    ensures !Covers(g, entry, [])
  {
  }

  lemma UnknownKeeps(e: SpdData, v: Value)
    ensures ApplyGoal(e, Unknown, v) == Next(e)
  {
  }

  /**
   Leaves that render a policy are read back as that policy, in whatever order they come, and
   whatever leaves without a goal come between them. What no leaf is about must be blank.
   */
  lemma PolicyReadsBack(d: SpdData, op: Oper, entry: string, leaves: seq<Leaf>)
    requires Renderable(d) && Renders(d, entry, leaves)
    requires forall g: Goal | Proper(g) :: Covers(g, entry, leaves) || AgreeOn(BLANK_SPD, d, g)
    ensures Fold(BLANK_SPD, op, entry, leaves, SpdApply) == Next(d)
  {
    hide AgreeOn, Renders, Covers, Proper, Fold;
    var r := Fold(BLANK_SPD, op, entry, leaves, SpdApply);
    forall g: Goal | Proper(g)
      ensures AgreeOn(r.entry, d, g)
    {
      FoldAgrees(BLANK_SPD, d, op, entry, leaves, g);
    }
    ProperDirection();
    FoldAgrees(BLANK_SPD, d, op, entry, leaves, Direction);
    AgreementIsEquality(r.entry, d);
  }

  lemma ProperDirection()
    ensures Proper(Direction)
  {
  }

  // ----- paths

  /** The last segment that selects a goal; ports and algorithms are selected less strictly. */
  function SegmentOfGoal(g: Goal): string {
    match g
    case Direction => "/direction"
    case Identifier => "/reqid"
    case Window => "/anti-replay-window"
    case Local => "/local-prefix"
    case Remote => "/remote-prefix"
    case Protocol => "/inner-protocol"
    case PortStart(_, _) => "/start"
    case Action => "/action"
    case LongNumbers => "/ext-seq-num"
    case Overflow => "/seq-overflow"
    case Pfp => "/pfp-flag"
    case FragCheck => "/stateful-frag-check"
    case Processing => "/mode"
    case TunnelStart => "/local"
    case TunnelEnd => "/remote"
    case Dscp => "/bypass-dscp"
    case Congestion => "/ecn"
    case Fragment => "/df-bit"
    case Parameters => "/protocol-parameters"
    case Integrity => "/integrity"
    case Encryption => "/encryption"
    case Padding => "/tfc-pad"
    case Unknown => ""
  }

  predicate Selects(name: string, g: Goal) {
    if g.PortStart? || g.Unknown? then SegmentOfGoal(g) <= name
    else if g.Integrity? || g.Encryption? then Contains(name, SegmentOfGoal(g))
    else name == SegmentOfGoal(g)
  }

  lemma SelectorSelects(name: string, path: string)
    ensures Selects(name, SelectorGoal(name, path))
  {
    hide Contains;
  }

  lemma FlagSelects(name: string)
    ensures Selects(name, FlagGoal(name))
  {
  }

  lemma ProcessingSelects(name: string)
    ensures Selects(name, ProcessingGoal(name))
  {
    hide Contains;
  }

  /** A name selects a goal only if it is the goal's segment, or starts with it or contains it. */
  lemma GoalIsSelected(name: string, path: string)
    ensures Selects(name, GoalNamed(name, path))
  {
    hide Selects, SelectorGoal, FlagGoal, ProcessingGoal;
    SelectorSelects(name, path);
    FlagSelects(name);
    ProcessingSelects(name);
  }
}
