/**
 A policy written as leaves of the schema, in any order, is read back as that policy, exactly
 unless the entry's name misdirects a port.
 */
module SpdReadBack {
  import opened Text
  import opened ChangeStream
  import opened SpdEntry
  import opened SadReader
  import opened SpdReader
  import opened Paths
  import opened SpdSchema
  import Order = SadOrder

  /** A leaf of an entry: a node of the schema and its value. */
  datatype Setting = Setting(node: SpdSchema.Node, value: Value)

  function LeafOf(x: Setting): Leaf {
    Leaf(Join(Below(x.node)), x.value)
  }

  function LeavesOf(xs: seq<Setting>): (ls: seq<Leaf>)
    ensures |ls| == |xs|
    ensures forall i | 0 <= i < |xs| :: ls[i] == LeafOf(xs[i])
  {
    seq(|xs|, i requires 0 <= i < |xs| => LeafOf(xs[i]))
  }

  function EntryOf(name: string): string {
    EntryPath(Join(SPD_LIST), name)
  }

  /** The reader on the leaves of an entry. */
  function ReadAll(name: string, xs: seq<Setting>): Applied<SpdData> {
    Fold(BLANK_SPD, Created, EntryOf(name), LeavesOf(xs), SpdApply)
  }

  predicate Mentions(xs: seq<Setting>, g: Goal) {
    exists i :: 0 <= i < |xs| && MeantBy(xs[i].node) == g
  }

  /** The leaves give the policy's values, and what they do not mention is blank in it. */
  ghost predicate Describes(d: SpdData, xs: seq<Setting>) {
    && Renderable(d)
    && (forall i | 0 <= i < |xs| :: MeantBy(xs[i].node) == Unknown || Gives(d, MeantBy(xs[i].node), xs[i].value))
    && (forall g: Goal | Proper(g) :: Mentions(xs, g) || AgreeOn(BLANK_SPD, d, g))
  }

  lemma GoalOfLeaf(name: string, x: Setting)
    ensures GoalAt(EntryOf(name), LeafOf(x)) == GoalOf(PathOf(name, x.node))
  {
    hide GoalOf, EntryPath, Join, Below;
  }

  lemma MeantIsProper(n: SpdSchema.Node)
    ensures MeantBy(n) == Unknown || Proper(MeantBy(n))
  {
  }

  /** Where no port is misdirected the policy is read back, whatever the order of its leaves. */
  lemma PolicyReturns(name: string, d: SpdData, xs: seq<Setting>)
    requires Describes(d, xs) && forall i | 0 <= i < |xs| :: Evades(name, xs[i].node)
    ensures ReadAll(name, xs) == Next(d)
  {
    hide GoalAt, GoalOf, PathOf, EntryOf, MeantBy, Evades, Renderable, AgreeOn, Gives, Proper, Fold, LeafOf;
    var entry, ls := EntryOf(name), LeavesOf(xs);
    forall i | 0 <= i < |xs|
      ensures GoalAt(entry, ls[i]) == MeantBy(xs[i].node)
      ensures ls[i].value == xs[i].value
      ensures MeantBy(xs[i].node) == Unknown || Proper(MeantBy(xs[i].node))
    {
      GoalOfLeaf(name, xs[i]);
      MeantIff(name, xs[i].node);
      MeantIsProper(xs[i].node);
      LeafValue(xs[i]);
    }
    forall g: Goal | Proper(g)
      ensures Covers(g, entry, ls) || AgreeOn(BLANK_SPD, d, g)
    {
      if Mentions(xs, g) {
        var i :| 0 <= i < |xs| && MeantBy(xs[i].node) == g;
        assert GoalAt(entry, ls[i]) == g;
      }
    }
    PolicyReadsBack(d, Created, entry, ls);
  }

  lemma LeafValue(x: Setting)
    ensures LeafOf(x).value == x.value
  {
  }

  /** A bypass or discard policy: selectors, an action, and nothing about protection. */
  predicate Unprotected(d: SpdData) {
    && Renderable(d)
    && d == BLANK_SPD.(policyDir := d.policyDir, reqId := d.reqId, localSubnet := d.localSubnet,
                       remoteSubnet := d.remoteSubnet, innerProtocol := d.innerProtocol,
                       srcPort := d.srcPort, dstPort := d.dstPort, action := d.action)
  }

  function UnprotectedLeaves(d: SpdData): seq<Setting> {
    [Setting(NDirection, ValueFor(d, Direction)), Setting(NReqId, Num(d.reqId)),
     Setting(NLocalPrefix, Str(d.localSubnet)), Setting(NRemotePrefix, Str(d.remoteSubnet)),
     Setting(NInnerProtocol, ValueFor(d, Protocol)),
     Setting(NPortStart(true, d.srcPort, d.srcPort), Num(d.srcPort)),
     Setting(NPortStart(false, d.dstPort, d.dstPort), Num(d.dstPort)),
     Setting(NAction, ValueFor(d, Action))]
  }

  ghost function Stated(): set<Goal> {
    {Direction, Identifier, Local, Remote, Protocol, PortStart(true, false), PortStart(false, true), Action}
  }

  lemma UnstatedAgrees(d: SpdData, g: Goal)
    requires Unprotected(d) && Proper(g) && g !in Stated()
    ensures AgreeOn(BLANK_SPD, d, g)
  {
  }

  lemma LeavesState(d: SpdData, g: Goal)
    requires g in Stated()
    ensures Mentions(UnprotectedLeaves(d), g)
  {
    hide ValueFor;
    var xs := UnprotectedLeaves(d);
    assert MeantBy(xs[0].node) == Direction && MeantBy(xs[1].node) == Identifier && MeantBy(xs[2].node) == Local;
    assert MeantBy(xs[3].node) == Remote && MeantBy(xs[4].node) == Protocol && MeantBy(xs[7].node) == Action;
    assert MeantBy(xs[5].node) == PortStart(true, false) && MeantBy(xs[6].node) == PortStart(false, true);
  }

  lemma LeavesGive(d: SpdData, i: nat)
    requires i < |UnprotectedLeaves(d)|
    ensures var x := UnprotectedLeaves(d)[i]; Gives(d, MeantBy(x.node), x.value)
  {
  }

  /** Policies without the container of a protected one are described by the leaves the schema gives them. */
  lemma UnprotectedIsDescribed(d: SpdData)
    requires Unprotected(d)
    ensures Describes(d, UnprotectedLeaves(d))
  {
    hide AgreeOn, Gives, Mentions, MeantBy, UnprotectedLeaves, Proper, Stated;
    var xs := UnprotectedLeaves(d);
    forall i | 0 <= i < |xs|
      ensures Gives(d, MeantBy(xs[i].node), xs[i].value)
    {
      LeavesGive(d, i);
    }
    forall g: Goal | Proper(g)
      ensures Mentions(xs, g) || AgreeOn(BLANK_SPD, d, g)
    {
      if g in Stated() {
        LeavesState(d, g);
      } else {
        UnstatedAgrees(d, g);
      }
    }
  }

  /** Every policy, in every order of its leaves, is read back under this name. */
  ghost predicate ReadsBack(name: string) {
    forall d, xs | Describes(d, xs) :: ReadAll(name, xs) == Next(d)
  }

  lemma UnlistedSegments()
    ensures SegmentOfGoal(Window) == "/anti-replay-window" && SegmentOfGoal(Congestion) == "/ecn"
    ensures Plain(Window) && Plain(Congestion) && IsSegment("/anti-replay-window") && IsSegment("/ecn")
  {
  }

  /** Two names the reader knows and the schema does not, behind any path. */
  lemma UnlistedNamesAreRead(d: SpdData, a: string, n: nat, b: bool)
    ensures SpdApply(d, Change(Created, a + "/anti-replay-window", Num(n))) == Next(d.(antiReplayWindow := n))
    ensures SpdApply(d, Change(Created, a + "/ecn", Flag(b))) == Next(d.(ecn := b))
  {
    hide GoalNamed, LastSegment, IsSegment, SegmentOfGoal, Plain;
    UnlistedSegments();
    PlainName(Window, a + "/anti-replay-window");
    PlainName(Congestion, a + "/ecn");
    LastAfter(a, "/anti-replay-window");
    LastAfter(a, "/ecn");
  }

  /** A new entry is zero, false and empty everywhere. */
  lemma BlankIsZero()
    ensures BLANK_SPD.index == BLANK_SPD.policyDir == BLANK_SPD.reqId == BLANK_SPD.innerProtocol == 0
    ensures BLANK_SPD.srcPort == BLANK_SPD.dstPort == BLANK_SPD.action == BLANK_SPD.ipsecMode == BLANK_SPD.dfBit == 0
    ensures BLANK_SPD.protocolParameters == BLANK_SPD.integrityAlg == BLANK_SPD.encryptionAlg == 0
    ensures BLANK_SPD.antiReplayWindow == 0
    ensures BLANK_SPD.localSubnet == BLANK_SPD.remoteSubnet == BLANK_SPD.tunnelLocal == BLANK_SPD.tunnelRemote == ""
    ensures !BLANK_SPD.extSeqNum && !BLANK_SPD.seqOverflow && !BLANK_SPD.pfpFlag && !BLANK_SPD.statefulFragCheck
    ensures !BLANK_SPD.bypassDscp && !BLANK_SPD.ecn && !BLANK_SPD.tfcPad
  {
  }

  // ----- texts of an enumeration

  /** Direction and action stop the reading on any text but theirs; the other choices ignore it. */
  lemma ChoicesAreRead(d: SpdData, name: string, text: string)
    ensures SpdApply(d, Change(Created, PathOf(name, NDirection), Str(text))) ==
            if text == "inbound" then Next(d.(policyDir := 1))
            else if text == "outbound" then Next(d.(policyDir := 2)) else Stop(d)
    ensures SpdApply(d, Change(Created, PathOf(name, NAction), Str(text))) ==
            if text == "discard" then Next(d.(action := 0)) else if text == "protect" then Next(d.(action := 2))
            else if text == "bypass" then Next(d.(action := 4)) else Stop(d)
  {
    hide GoalOf, PathOf;
    SchemaGoal(name, NDirection);
    SchemaGoal(name, NAction);
  }

  /** Case matters here, unlike for the mode of an association. */
  lemma ProcessingIsRead(d: SpdData, name: string, text: string)
    ensures SpdApply(d, Change(Created, PathOf(name, NMode), Str(text))) ==
            Next(d.(ipsecMode := if text == "transport" then 1 else if text == "tunnel" then 2 else d.ipsecMode))
    ensures SpdApply(d, Change(Created, PathOf(name, NDfBit), Str(text))) ==
            Next(d.(dfBit := if text == "clear" then 0 else if text == "set" then 1
                             else if text == "copy" then 2 else d.dfBit))
    ensures SpdApply(d, Change(Created, PathOf(name, NProtocolParameters), Str(text))) ==
            Next(d.(protocolParameters := if text == "esp" then 50 else d.protocolParameters))
  {
    hide GoalOf, PathOf;
    SchemaGoal(name, NMode);
    SchemaGoal(name, NDfBit);
    SchemaGoal(name, NProtocolParameters);
  }

  // ----- unsafe names

  lemma {:induction false} FoldLast(e: SpdData, entry: string, ls: seq<Leaf>, l: Leaf)
    ensures Fold(e, Created, entry, ls + [l], SpdApply) ==
            match Fold(e, Created, entry, ls, SpdApply)
            case Stop(e') => Stop(e')
            case Next(e') => SpdApply(e', Change(Created, entry + l.below, l.value))
    decreases |ls|
  {
    hide SpdApply;
    if ls == [] {
      assert [] + [l] == [l] && [l][1..] == [];
    } else {
      assert (ls + [l])[1..] == ls[1..] + [l];
      match SpdApply(e, Change(Created, entry + ls[0].below, ls[0].value))
      case Stop(e') =>
      case Next(e') => FoldLast(e', entry, ls[1..], l);
    }
  }

  const SAMPLE := BLANK_SPD.(policyDir := IPSEC_DIR_OUTBOUND, srcPort := 1, dstPort := 2)

  function SampleLeaves(localLast: bool): seq<Setting> {
    var l, r := Setting(NPortStart(true, 1, 1), Num(1)), Setting(NPortStart(false, 2, 2), Num(2));
    [Setting(NDirection, Str("outbound"))] + (if localLast then [r, l] else [l, r])
  }

  lemma SampleAgrees(g: Goal)
    requires Proper(g) && g != Direction && !g.PortStart?
    ensures AgreeOn(BLANK_SPD, SAMPLE, g)
  {
  }

  lemma SampleMentions(localLast: bool, g: Goal)
    requires g == Direction || g == PortStart(true, false) || g == PortStart(false, true)
    ensures Mentions(SampleLeaves(localLast), g)
  {
    var xs := SampleLeaves(localLast);
    var k := if localLast then 2 else 1;
    assert MeantBy(xs[0].node) == Direction;
    assert MeantBy(xs[k].node) == PortStart(true, false) && MeantBy(xs[3 - k].node) == PortStart(false, true);
  }

  lemma SampleIsDescribed(localLast: bool)
    ensures Describes(SAMPLE, SampleLeaves(localLast))
  {
    hide AgreeOn, Mentions;
    forall g: Goal | Proper(g)
      ensures Mentions(SampleLeaves(localLast), g) || AgreeOn(BLANK_SPD, SAMPLE, g)
    {
      if g == Direction || g.PortStart? {
        SampleMentions(localLast, g);
      } else {
        SampleAgrees(g);
      }
    }
  }

  lemma LastPortMisdirected(name: string, localLast: bool)
    requires Contains(name, if localLast then "/remote-ports" else "/local-ports")
    ensures ReadAll(name, SampleLeaves(localLast)) != Next(SAMPLE)
  {
    hide Contains, Fold, GoalOf, PathOf;
    var xs := SampleLeaves(localLast);
    var n := |xs| - 1;
    SchemaGoal(name, xs[n].node);
    GoalOfLeaf(name, xs[n]);
    assert LeavesOf(xs) == LeavesOf(xs[..n]) + [LeafOf(xs[n])];
    FoldLast(BLANK_SPD, EntryOf(name), LeavesOf(xs[..n]), LeafOf(xs[n]));
  }

  /** Policies are read back under a name if and only if it contains neither list of ports. */
  lemma ReadsBackIff(name: string)
    ensures ReadsBack(name) <==> SafeName(name)
  {
    hide ReadAll, Describes, SampleLeaves, Contains;
    if SafeName(name) {
      forall d, xs | Describes(d, xs)
        ensures ReadAll(name, xs) == Next(d)
      {
        PolicyReturns(name, d, xs);
      }
    }
    if ReadsBack(name) {
      SampleIsDescribed(true);
      SampleIsDescribed(false);
      assert ReadAll(name, SampleLeaves(true)) == Next(SAMPLE);
      assert ReadAll(name, SampleLeaves(false)) == Next(SAMPLE);
      if Contains(name, "/remote-ports") {
        LastPortMisdirected(name, true);
      }
      if Contains(name, "/local-ports") {
        LastPortMisdirected(name, false);
      }
    }
  }

  // ----- leaves in the stream

  lemma UnreadEnds(n: SpdSchema.Node)
    requires MeantBy(n) == Unknown
    ensures Order.EndsUnlikeName(NodeName(n))
  {
    hide Decimal;
  }

  lemma ReadEnds(n: SpdSchema.Node)
    requires MeantBy(n) != Unknown
    ensures Order.EndsUnlikeName(NodeName(n))
  {
    hide Decimal;
  }

  /** No leaf of the schema is taken for the name of its entry. */
  lemma SettingsAreNotNames(name: string, created: bool, xs: seq<Setting>)
    requires Quotable(name)
    ensures WellNamed(Block(created, name, LeavesOf(xs)))
  {
    hide Join, NodeName, Container, MeantBy;
    forall i | 0 <= i < |xs|
      ensures !EndsInName(LeavesOf(xs)[i].below)
    {
      var n := xs[i].node;
      if MeantBy(n) == Unknown {
        UnreadEnds(n);
      } else {
        ReadEnds(n);
      }
      assert Below(n)[..|Below(n)| - 1] == Container(n);
      Order.LastSegmentDecides(Below(n));
    }
  }
}
