/**
 A security association through a JSON object: `serialize_sad_node` and `deserialize_sad_node`.
 The JSON library is an object with numbers, texts and booleans; it refuses texts it does not
 accept, and every number in it is a binary64.
 */
module SadJson {
  import opened Bytes
  import opened Text
  import opened SadEntry
  import opened EntryList
  import opened Binary64

  const MAX_PATH := 200
  const MAX_IP := 40

  datatype Span = Hard | Soft | Current

  datatype Unit = Volume | Packets | Time | Idle

  /** The members of the object, one for each of the source's names. */
  datatype Key =
    | KName | KReqId | KSpi | KExtSeqNum | KSeqOverflow | KSeqNumberCounter | KAntiReplayWindow
    | KLocalSubnet | KRemoteSubnet | KTunnelLocal | KTunnelRemote
    | KInnerProtocol | KSrcPort | KDstPort | KIpsecMode | KProtocolParameters
    | KIntegrityAlg | KEncryptionAlg | KEncryptionKeyLength | KEncryptionKey | KIntegrityKey | KEncryptionIv
    | KBypassDscp | KEcn | KTfcPad | KDfBit
    | KLifetime(unit: Unit, span: Span)

  datatype Content = Number(n: nat) | Chars(s: string) | Raw(octets: Octets) | Boolean(b: bool)

  /** What a member of the entry is read into: its width in octets, or the size of its buffer. */
  datatype Shape = Integer(width: nat) | Buffer(size: nat) | KeyBuffer(size: nat) | Switch

  function ShapeOf(k: Key): Shape {
    match k
    case KName => Buffer(MAX_PATH)
    case KReqId => Integer(8)
    case KSpi => Integer(8)
    case KExtSeqNum => Switch
    case KSeqOverflow => Switch
    case KSeqNumberCounter => Integer(8)
    case KAntiReplayWindow => Integer(8)
    case KLocalSubnet => Buffer(MAX_IP)
    case KRemoteSubnet => Buffer(MAX_IP)
    case KTunnelLocal => Buffer(MAX_IP)
    case KTunnelRemote => Buffer(MAX_IP)
    case KInnerProtocol => Integer(4)
    case KSrcPort => Integer(4)
    case KDstPort => Integer(4)
    case KIpsecMode => Integer(2)
    case KProtocolParameters => Integer(2)
    case KIntegrityAlg => Integer(4)
    case KEncryptionAlg => Integer(4)
    case KEncryptionKeyLength => Integer(4)
    case KEncryptionKey => KeyBuffer(MAX_KEY)
    case KIntegrityKey => KeyBuffer(MAX_KEY)
    case KEncryptionIv => KeyBuffer(MAX_KEY)
    case KBypassDscp => Switch
    case KEcn => Switch
    case KTfcPad => Switch
    case KDfBit => Integer(2)
    case KLifetime(_, _) => Integer(8)
  }

  function SpanOf(d: SadData, span: Span): Lifetimes {
    match span
    case Hard => d.hard
    case Soft => d.soft
    case Current => d.current
  }

  function UnitOf(l: Lifetimes, unit: Unit): nat {
    match unit
    case Volume => l.octets
    case Packets => l.packets
    case Time => l.time
    case Idle => l.idle
  }

  function MemberOf(e: Entry<SadData>, k: Key): Content {
    match k
    case KName => Chars(e.name)
    case KReqId => Number(e.data.reqId)
    case KSpi => Number(e.data.spi)
    case KExtSeqNum => Boolean(e.data.extSeqNum)
    case KSeqOverflow => Boolean(e.data.seqOverflow)
    case KSeqNumberCounter => Number(e.data.seqNumberCounter)
    case KAntiReplayWindow => Number(e.data.antiReplayWindow)
    case KLocalSubnet => Chars(e.data.localSubnet)
    case KRemoteSubnet => Chars(e.data.remoteSubnet)
    case KTunnelLocal => Chars(e.data.tunnelLocal)
    case KTunnelRemote => Chars(e.data.tunnelRemote)
    case KInnerProtocol => Number(e.data.innerProtocol)
    case KSrcPort => Number(e.data.srcPort)
    case KDstPort => Number(e.data.dstPort)
    case KIpsecMode => Number(e.data.ipsecMode)
    case KProtocolParameters => Number(e.data.protocolParameters)
    case KIntegrityAlg => Number(e.data.integrityAlg)
    case KEncryptionAlg => Number(e.data.encryptionAlg)
    case KEncryptionKeyLength => Number(e.data.encryptionKeyLength)
    case KEncryptionKey => Raw(e.data.encryptionKey)
    case KIntegrityKey => Raw(e.data.integrityKey)
    case KEncryptionIv => Raw(e.data.encryptionIv)
    case KBypassDscp => Boolean(e.data.bypassDscp)
    case KEcn => Boolean(e.data.ecn)
    case KTfcPad => Boolean(e.data.tfcPad)
    case KDfBit => Number(e.data.dfBit)
    case KLifetime(unit, span) => Number(UnitOf(SpanOf(e.data, span), unit))
  }

  // ----- one member through the object

  /** What setting a member leaves in the object: a refused text leaves nothing. */
  function Stored(c: Content, accepts: Content -> bool): Option<Content> {
    match c
    case Number(n) => Some(Number(Round(n)))
    case Boolean(_) => Some(c)
    case _ => if accepts(c) then Some(c) else None
  }

  /**
   What reading a member gives. A missing number reads as 0 and a missing boolean as -1. A missing
   text, a text too long for its buffer and a number too large for its type are undefined.
   */
  function Fetched(v: Option<Content>, shape: Shape): Option<Content> {
    match shape
    case Integer(width) =>
      var n := if v.Some? && v.value.Number? then v.value.n else 0;
      if n < Pow256(width) then Some(Number(n)) else None
    case Buffer(size) => if v.Some? && v.value.Chars? && |v.value.s| < size then v else None
    case KeyBuffer(size) => if v.Some? && v.value.Raw? && |v.value.octets| < size then v else None
    case Switch => if v.Some? && v.value.Boolean? then v else Some(Boolean(true))
  }

  /** A member can be kept: accepted and within its buffer, or exact as a binary64. */
  predicate Kept(c: Content, shape: Shape, accepts: Content -> bool) {
    match c
    case Number(n) => Representable(n)
    case Boolean(_) => true
    case Chars(s) => accepts(c) && shape.Buffer? && |s| < shape.size
    case Raw(o) => accepts(c) && shape.KeyBuffer? && |o| < shape.size
  }

  predicate InRange(c: Content, shape: Shape) {
    match shape
    case Integer(width) => c.Number? && c.n < Pow256(width)
    case Buffer(_) => c.Chars?
    case KeyBuffer(_) => c.Raw?
    case Switch => c.Boolean?
  }

  lemma MemberTripIff(c: Content, shape: Shape, accepts: Content -> bool)
    requires InRange(c, shape)
    ensures Fetched(Stored(c, accepts), shape) == Some(c) <==> Kept(c, shape, accepts)
  {
    hide Round, Representable, Pow256;
    if c.Number? {
      RoundExactIff(c.n);
    }
  }

  // ----- the object

  class JsonObject {
    var members: map<Key, Content>
    const accepts: Content -> bool
    /** The members that have been set, whether or not the library kept them. */
    ghost var tried: set<Key>

    constructor (accepts: Content -> bool)
      ensures members == map[] && tried == {} && this.accepts == accepts
    {
      members, tried, this.accepts := map[], {}, accepts;
    }

    function Get(k: Key): Option<Content>
      reads this
    {
      if k in members then Some(members[k]) else None
    }

    /** What has been set so far are members of e. */
    ghost predicate Holds(e: Entry<SadData>)
      reads this
    {
      && (forall k | k in tried :: Get(k) == Stored(MemberOf(e, k), accepts))
      && (forall k | k !in tried :: Get(k) == None)
    }

    /** The library's setters, by the kind of the value; e is the entry being written. */
    method Set(k: Key, c: Content, ghost e: Entry<SadData>)
      requires Holds(e) && k !in tried && c == MemberOf(e, k)
      modifies this
      ensures Holds(e) && tried == old(tried) + {k}
    {
      hide MemberOf, Round;
      if c.Number? {
        members := members[k := Number(Round(c.n))];
      } else if c.Boolean? || accepts(c) {
        members := members[k := c];
      }
      tried := tried + {k};
    }
  }

  // ----- writing

  datatype Group = Identity | Selectors | Processing | Keying | Tunnel | Lifetime(unit: Unit)

  function GroupOf(k: Key): Group {
    match k
    case KLifetime(unit, _) => Lifetime(unit)
    case KBypassDscp => Tunnel
    case KEcn => Tunnel
    case KTfcPad => Tunnel
    case KDfBit => Tunnel
    case KLocalSubnet => Selectors
    case KRemoteSubnet => Selectors
    case KTunnelLocal => Selectors
    case KTunnelRemote => Selectors
    case KInnerProtocol => Selectors
    case KSrcPort => Selectors
    case KDstPort => Selectors
    case KName => Identity
    case KReqId => Identity
    case KSpi => Identity
    case KExtSeqNum => Identity
    case KSeqOverflow => Identity
    case KSeqNumberCounter => Identity
    case KAntiReplayWindow => Identity
    case KIpsecMode => Processing
    case KProtocolParameters => Processing
    case KIntegrityAlg => Processing
    case KEncryptionAlg => Processing
    case KEncryptionKeyLength => Keying
    case KEncryptionKey => Keying
    case KIntegrityKey => Keying
    case KEncryptionIv => Keying
  }

  function Keys(g: Group): set<Key> {
    match g
    case Identity => {KName, KReqId, KSpi, KExtSeqNum, KSeqOverflow, KSeqNumberCounter, KAntiReplayWindow}
    case Selectors =>
      {KLocalSubnet, KRemoteSubnet, KTunnelLocal, KTunnelRemote, KInnerProtocol, KSrcPort, KDstPort}
    case Processing => {KIpsecMode, KProtocolParameters, KIntegrityAlg, KEncryptionAlg}
    case Keying => {KEncryptionKeyLength, KEncryptionKey, KIntegrityKey, KEncryptionIv}
    case Tunnel => {KBypassDscp, KEcn, KTfcPad, KDfBit}
    case Lifetime(unit) => {KLifetime(unit, Hard), KLifetime(unit, Soft), KLifetime(unit, Current)}
  }

  lemma KeysOfGroup(k: Key)
    ensures k in Keys(GroupOf(k))
  {
    if k.KLifetime? {
      match k.span
      case Hard =>
      case Soft =>
      case Current =>
    }
  }

  lemma GroupOfKeys(g: Group, k: Key)
    requires k in Keys(g)
    ensures GroupOf(k) == g
  {
  }

  /** The groups written so far. */
  ghost predicate WroteGroups(tried: set<Key>, gs: set<Group>) {
    forall k: Key :: k in tried <==> GroupOf(k) in gs
  }

  lemma GroupFollows(tried: set<Key>, gs: set<Group>, g: Group)
    requires WroteGroups(tried, gs)
    ensures WroteGroups(tried + Keys(g), gs + {g})
  {
    hide Keys, GroupOf;
    forall k: Key
      ensures k in tried + Keys(g) <==> GroupOf(k) in gs + {g}
    {
      KeysOfGroup(k);
      if k in Keys(g) {
        GroupOfKeys(g, k);
      }
    }
  }

  lemma StillFree(tried: set<Key>, gs: set<Group>, g: Group)
    requires WroteGroups(tried, gs) && g !in gs
    ensures tried !! Keys(g)
  {
    hide Keys, GroupOf;
    forall k | k in Keys(g)
      ensures k !in tried
    {
      GroupOfKeys(g, k);
    }
  }

  method WriteIdentity(o: JsonObject, e: Entry<SadData>, ghost gs: set<Group>)
    requires o.Holds(e) && WroteGroups(o.tried, gs) && Identity !in gs
    modifies o
    ensures o.Holds(e) && WroteGroups(o.tried, gs + {Identity})
  {
    hide JsonObject.Holds, WroteGroups;
    StillFree(o.tried, gs, Identity);
    GroupFollows(o.tried, gs, Identity);
    o.Set(KName, Chars(e.name), e);
    o.Set(KReqId, Number(e.data.reqId), e);
    o.Set(KSpi, Number(e.data.spi), e);
    o.Set(KExtSeqNum, Boolean(e.data.extSeqNum), e);
    o.Set(KSeqOverflow, Boolean(e.data.seqOverflow), e);
    o.Set(KSeqNumberCounter, Number(e.data.seqNumberCounter), e);
    o.Set(KAntiReplayWindow, Number(e.data.antiReplayWindow), e);
    assert o.tried == old(o.tried) + Keys(Identity);
  }

  method WriteSelectors(o: JsonObject, e: Entry<SadData>, ghost gs: set<Group>)
    requires o.Holds(e) && WroteGroups(o.tried, gs) && Selectors !in gs
    modifies o
    ensures o.Holds(e) && WroteGroups(o.tried, gs + {Selectors})
  {
    hide JsonObject.Holds, WroteGroups;
    StillFree(o.tried, gs, Selectors);
    GroupFollows(o.tried, gs, Selectors);
    o.Set(KLocalSubnet, Chars(e.data.localSubnet), e);
    o.Set(KRemoteSubnet, Chars(e.data.remoteSubnet), e);
    o.Set(KTunnelLocal, Chars(e.data.tunnelLocal), e);
    o.Set(KTunnelRemote, Chars(e.data.tunnelRemote), e);
    o.Set(KInnerProtocol, Number(e.data.innerProtocol), e);
    o.Set(KSrcPort, Number(e.data.srcPort), e);
    o.Set(KDstPort, Number(e.data.dstPort), e);
    assert o.tried == old(o.tried) + Keys(Selectors);
  }

  method WriteProcessing(o: JsonObject, e: Entry<SadData>, ghost gs: set<Group>)
    requires o.Holds(e) && WroteGroups(o.tried, gs) && Processing !in gs
    modifies o
    ensures o.Holds(e) && WroteGroups(o.tried, gs + {Processing})
  {
    hide JsonObject.Holds, WroteGroups;
    StillFree(o.tried, gs, Processing);
    GroupFollows(o.tried, gs, Processing);
    o.Set(KIpsecMode, Number(e.data.ipsecMode), e);
    o.Set(KProtocolParameters, Number(e.data.protocolParameters), e);
    o.Set(KIntegrityAlg, Number(e.data.integrityAlg), e);
    o.Set(KEncryptionAlg, Number(e.data.encryptionAlg), e);
    assert o.tried == old(o.tried) + Keys(Processing);
  }

  method WriteKeying(o: JsonObject, e: Entry<SadData>, ghost gs: set<Group>)
    requires o.Holds(e) && WroteGroups(o.tried, gs) && Keying !in gs
    modifies o
    ensures o.Holds(e) && WroteGroups(o.tried, gs + {Keying})
  {
    hide JsonObject.Holds, WroteGroups;
    StillFree(o.tried, gs, Keying);
    GroupFollows(o.tried, gs, Keying);
    o.Set(KEncryptionKeyLength, Number(e.data.encryptionKeyLength), e);
    o.Set(KEncryptionKey, Raw(e.data.encryptionKey), e);
    o.Set(KIntegrityKey, Raw(e.data.integrityKey), e);
    o.Set(KEncryptionIv, Raw(e.data.encryptionIv), e);
    assert o.tried == old(o.tried) + Keys(Keying);
  }

  method WriteTunnel(o: JsonObject, e: Entry<SadData>, ghost gs: set<Group>)
    requires o.Holds(e) && WroteGroups(o.tried, gs) && Tunnel !in gs
    modifies o
    ensures o.Holds(e) && WroteGroups(o.tried, gs + {Tunnel})
  {
    hide JsonObject.Holds, WroteGroups;
    StillFree(o.tried, gs, Tunnel);
    GroupFollows(o.tried, gs, Tunnel);
    o.Set(KBypassDscp, Boolean(e.data.bypassDscp), e);
    o.Set(KEcn, Boolean(e.data.ecn), e);
    o.Set(KTfcPad, Boolean(e.data.tfcPad), e);
    o.Set(KDfBit, Number(e.data.dfBit), e);
    assert o.tried == old(o.tried) + Keys(Tunnel);
  }

  method WriteLifetimes(o: JsonObject, e: Entry<SadData>, unit: Unit, ghost gs: set<Group>)
    requires o.Holds(e) && WroteGroups(o.tried, gs) && Lifetime(unit) !in gs
    modifies o
    ensures o.Holds(e) && WroteGroups(o.tried, gs + {Lifetime(unit)})
  {
    hide JsonObject.Holds, WroteGroups;
    StillFree(o.tried, gs, Lifetime(unit));
    GroupFollows(o.tried, gs, Lifetime(unit));
    o.Set(KLifetime(unit, Hard), Number(UnitOf(e.data.hard, unit)), e);
    o.Set(KLifetime(unit, Soft), Number(UnitOf(e.data.soft, unit)), e);
    o.Set(KLifetime(unit, Current), Number(UnitOf(e.data.current, unit)), e);
    assert o.tried == old(o.tried) + Keys(Lifetime(unit));
  }

  /** The object holds an entry and nothing else. */
  ghost predicate HoldsEntry(o: JsonObject, e: Entry<SadData>)
    reads o
  {
    forall k: Key :: o.Get(k) == Stored(MemberOf(e, k), o.accepts)
  }

  function InObject(n: nat): Option<Content> {
    Some(Number(Round(n)))
  }

  /** Every field is under the name it has in the source; numbers are rounded. */
  lemma FieldsAreNamed(o: JsonObject, e: Entry<SadData>)
    requires HoldsEntry(o, e)
    ensures o.Get(KReqId) == InObject(e.data.reqId) && o.Get(KSpi) == InObject(e.data.spi)
    ensures o.Get(KSeqNumberCounter) == InObject(e.data.seqNumberCounter)
    ensures o.Get(KAntiReplayWindow) == InObject(e.data.antiReplayWindow)
    ensures o.Get(KInnerProtocol) == InObject(e.data.innerProtocol)
    ensures o.Get(KSrcPort) == InObject(e.data.srcPort) && o.Get(KDstPort) == InObject(e.data.dstPort)
    ensures o.Get(KIpsecMode) == InObject(e.data.ipsecMode) && o.Get(KDfBit) == InObject(e.data.dfBit)
    ensures o.Get(KProtocolParameters) == InObject(e.data.protocolParameters)
    ensures o.Get(KIntegrityAlg) == InObject(e.data.integrityAlg)
    ensures o.Get(KEncryptionAlg) == InObject(e.data.encryptionAlg)
    ensures o.Get(KEncryptionKeyLength) == InObject(e.data.encryptionKeyLength)
  {
    hide Round;
  }

  lemma LifetimesAreNamed(o: JsonObject, e: Entry<SadData>)
    requires HoldsEntry(o, e)
    ensures o.Get(KLifetime(Volume, Hard)) == InObject(e.data.hard.octets)
    ensures o.Get(KLifetime(Volume, Soft)) == InObject(e.data.soft.octets)
    ensures o.Get(KLifetime(Volume, Current)) == InObject(e.data.current.octets)
    ensures o.Get(KLifetime(Packets, Hard)) == InObject(e.data.hard.packets)
    ensures o.Get(KLifetime(Packets, Soft)) == InObject(e.data.soft.packets)
    ensures o.Get(KLifetime(Packets, Current)) == InObject(e.data.current.packets)
    ensures o.Get(KLifetime(Time, Hard)) == InObject(e.data.hard.time)
    ensures o.Get(KLifetime(Time, Soft)) == InObject(e.data.soft.time)
    ensures o.Get(KLifetime(Time, Current)) == InObject(e.data.current.time)
    ensures o.Get(KLifetime(Idle, Hard)) == InObject(e.data.hard.idle)
    ensures o.Get(KLifetime(Idle, Soft)) == InObject(e.data.soft.idle)
    ensures o.Get(KLifetime(Idle, Current)) == InObject(e.data.current.idle)
  {
    hide Round;
  }

  /** A text that the library refuses is absent. */
  function TextInObject(c: Content, accepts: Content -> bool): Option<Content> {
    if accepts(c) then Some(c) else None
  }

  lemma TextsAreNamed(o: JsonObject, e: Entry<SadData>)
    requires HoldsEntry(o, e)
    ensures o.Get(KName) == TextInObject(Chars(e.name), o.accepts)
    ensures o.Get(KLocalSubnet) == TextInObject(Chars(e.data.localSubnet), o.accepts)
    ensures o.Get(KRemoteSubnet) == TextInObject(Chars(e.data.remoteSubnet), o.accepts)
    ensures o.Get(KTunnelLocal) == TextInObject(Chars(e.data.tunnelLocal), o.accepts)
    ensures o.Get(KTunnelRemote) == TextInObject(Chars(e.data.tunnelRemote), o.accepts)
  {
    hide Round;
  }

  lemma KeysAreNamed(o: JsonObject, e: Entry<SadData>)
    requires HoldsEntry(o, e)
    ensures o.Get(KEncryptionKey) == TextInObject(Raw(e.data.encryptionKey), o.accepts)
    ensures o.Get(KIntegrityKey) == TextInObject(Raw(e.data.integrityKey), o.accepts)
    ensures o.Get(KEncryptionIv) == TextInObject(Raw(e.data.encryptionIv), o.accepts)
  {
    hide Round;
  }

  lemma SwitchesAreNamed(o: JsonObject, e: Entry<SadData>)
    requires HoldsEntry(o, e)
    ensures o.Get(KExtSeqNum) == Some(Boolean(e.data.extSeqNum))
    ensures o.Get(KSeqOverflow) == Some(Boolean(e.data.seqOverflow))
    ensures o.Get(KBypassDscp) == Some(Boolean(e.data.bypassDscp)) && o.Get(KEcn) == Some(Boolean(e.data.ecn))
    ensures o.Get(KTfcPad) == Some(Boolean(e.data.tfcPad))
  {
    hide Round;
  }

  /** `serialize_sad_node`. */
  method Serialize(e: Entry<SadData>, accepts: Content -> bool) returns (o: JsonObject)
    ensures fresh(o) && o.accepts == accepts && HoldsEntry(o, e)
  {
    hide MemberOf, Stored, GroupOf;
    o := new JsonObject(accepts);
    WriteIdentity(o, e, {});
    WriteSelectors(o, e, {Identity});
    WriteProcessing(o, e, {Identity, Selectors});
    WriteKeying(o, e, {Identity, Selectors, Processing});
    ghost var gs := {Identity, Selectors, Processing, Keying};
    WriteTunnel(o, e, gs);
    WriteLifetimes(o, e, Volume, gs + {Tunnel});
    WriteLifetimes(o, e, Packets, gs + {Tunnel} + {Lifetime(Volume)});
    WriteLifetimes(o, e, Time, gs + {Tunnel} + {Lifetime(Volume)} + {Lifetime(Packets)});
    WriteLifetimes(o, e, Idle, gs + {Tunnel} + {Lifetime(Volume)} + {Lifetime(Packets)} + {Lifetime(Time)});
    gs := gs + {Tunnel} + {Lifetime(Volume)} + {Lifetime(Packets)} + {Lifetime(Time)} + {Lifetime(Idle)};
    forall k: Key
      ensures o.Get(k) == Stored(MemberOf(e, k), accepts)
    {
      AnyGroup(GroupOf(k), gs);
    }
  }

  lemma AnyGroup(g: Group, gs: set<Group>)
    requires Identity in gs && Selectors in gs && Processing in gs && Keying in gs && Tunnel in gs
    requires Lifetime(Volume) in gs && Lifetime(Packets) in gs && Lifetime(Time) in gs && Lifetime(Idle) in gs
    ensures g in gs
  {
    if g.Lifetime? {
      match g.unit
      case Volume =>
      case Packets =>
      case Time =>
      case Idle =>
    }
  }

  // ----- reading

  /** No member is undefined when read. */
  ghost predicate Readable(o: JsonObject)
    reads o
  {
    forall k: Key :: Fetched(o.Get(k), ShapeOf(k)).Some?
  }

  /** Reading the object is defined, and gives e. */
  ghost predicate Yields(o: JsonObject, e: Entry<SadData>)
    reads o
  {
    forall k: Key :: Fetched(o.Get(k), ShapeOf(k)) == Some(MemberOf(e, k))
  }

  function NumberIn(c: Content): nat {
    if c.Number? then c.n else 0
  }

  function CharsIn(c: Content): string {
    if c.Chars? then c.s else ""
  }

  function RawIn(c: Content): Octets {
    if c.Raw? then c.octets else []
  }

  predicate BooleanIn(c: Content) {
    c.Boolean? && c.b
  }

  function ReadLifetimes(f: Key -> Content, span: Span): Lifetimes {
    Lifetimes(NumberIn(f(KLifetime(Volume, span))), NumberIn(f(KLifetime(Packets, span))),
              NumberIn(f(KLifetime(Time, span))), NumberIn(f(KLifetime(Idle, span))))
  }

  /** The entry made of the given members. */
  function Made(f: Key -> Content): Entry<SadData> {
    Entry(
      CharsIn(f(KName)),
      SadData(
        NumberIn(f(KReqId)), NumberIn(f(KSpi)), BooleanIn(f(KExtSeqNum)), BooleanIn(f(KSeqOverflow)),
        NumberIn(f(KSeqNumberCounter)), NumberIn(f(KAntiReplayWindow)),
        CharsIn(f(KLocalSubnet)), CharsIn(f(KRemoteSubnet)), CharsIn(f(KTunnelLocal)), CharsIn(f(KTunnelRemote)),
        NumberIn(f(KInnerProtocol)), NumberIn(f(KSrcPort)), NumberIn(f(KDstPort)),
        NumberIn(f(KIpsecMode)), NumberIn(f(KProtocolParameters)), NumberIn(f(KIntegrityAlg)),
        NumberIn(f(KEncryptionAlg)), NumberIn(f(KEncryptionKeyLength)),
        RawIn(f(KEncryptionKey)), RawIn(f(KIntegrityKey)), RawIn(f(KEncryptionIv)),
        BooleanIn(f(KBypassDscp)), BooleanIn(f(KEcn)), BooleanIn(f(KTfcPad)), NumberIn(f(KDfBit)),
        ReadLifetimes(f, Hard), ReadLifetimes(f, Soft), ReadLifetimes(f, Current)))
  }

  lemma MadeLifetime(f: Key -> Content, unit: Unit, span: Span)
    ensures UnitOf(ReadLifetimes(f, span), unit) == NumberIn(f(KLifetime(unit, span)))
  {
  }

  lemma MadeHasMember(f: Key -> Content, k: Key)
    requires InRange(f(k), ShapeOf(k))
    ensures MemberOf(Made(f), k) == f(k)
  {
    hide ReadLifetimes, Pow256;
    if k.KLifetime? {
      MadeLifetime(f, k.unit, k.span);
    }
  }

  lemma FetchedInRange(v: Option<Content>, shape: Shape)
    ensures Fetched(v, shape).Some? ==> InRange(Fetched(v, shape).value, shape)
  {
  }

  /** A member as read; what is undefined is a number here, and never asked for. */
  function Member(m: map<Key, Content>, k: Key): Content {
    var c := Fetched(if k in m then Some(m[k]) else None, ShapeOf(k));
    if c.Some? then c.value else Number(0)
  }

  lemma MadeYields(o: JsonObject, f: Key -> Content)
    requires Readable(o) && forall k: Key :: f(k) == Member(o.members, k)
    ensures Yields(o, Made(f))
  {
    hide Fetched, InRange, MemberOf, ShapeOf, Made;
    forall k: Key
      ensures Fetched(o.Get(k), ShapeOf(k)) == Some(MemberOf(Made(f), k))
    {
      FetchedInRange(o.Get(k), ShapeOf(k));
      MadeHasMember(f, k);
    }
  }

  /** `deserialize_sad_node`, on an object in which nothing it reads is undefined. */
  method Deserialize(o: JsonObject) returns (node: Node<SadData>)
    requires Readable(o)
    ensures fresh(node) && node.next == null && Yields(o, Entry(node.name, node.data))
  {
    hide Member, Readable, Yields, NumberIn, CharsIn, RawIn, BooleanIn, ReadLifetimes;
    node := new Node("", BLANK_SAD, null);
    var m := o.members;
    var f := (k: Key) => Member(m, k);
    node.name := CharsIn(f(KName));
    var d := node.data.(
      reqId := NumberIn(f(KReqId)), spi := NumberIn(f(KSpi)),
      extSeqNum := BooleanIn(f(KExtSeqNum)), seqOverflow := BooleanIn(f(KSeqOverflow)),
      seqNumberCounter := NumberIn(f(KSeqNumberCounter)), antiReplayWindow := NumberIn(f(KAntiReplayWindow)));
    d := d.(
      localSubnet := CharsIn(f(KLocalSubnet)), remoteSubnet := CharsIn(f(KRemoteSubnet)),
      tunnelLocal := CharsIn(f(KTunnelLocal)), tunnelRemote := CharsIn(f(KTunnelRemote)),
      innerProtocol := NumberIn(f(KInnerProtocol)), srcPort := NumberIn(f(KSrcPort)), dstPort := NumberIn(f(KDstPort)));
    d := d.(
      ipsecMode := NumberIn(f(KIpsecMode)), protocolParameters := NumberIn(f(KProtocolParameters)),
      integrityAlg := NumberIn(f(KIntegrityAlg)), encryptionAlg := NumberIn(f(KEncryptionAlg)),
      encryptionKeyLength := NumberIn(f(KEncryptionKeyLength)), encryptionKey := RawIn(f(KEncryptionKey)),
      integrityKey := RawIn(f(KIntegrityKey)), encryptionIv := RawIn(f(KEncryptionIv)));
    d := d.(
      bypassDscp := BooleanIn(f(KBypassDscp)), ecn := BooleanIn(f(KEcn)), tfcPad := BooleanIn(f(KTfcPad)),
      dfBit := NumberIn(f(KDfBit)),
      hard := ReadLifetimes(f, Hard), soft := ReadLifetimes(f, Soft), current := ReadLifetimes(f, Current));
    node.data := d;
    assert Entry(node.name, node.data) == Made(f);
    MadeYields(o, f);
  }

  // ----- there and back

  /** Every member lies in the range of its type. */
  ghost predicate Ranged(e: Entry<SadData>) {
    forall k: Key :: InRange(MemberOf(e, k), ShapeOf(k))
  }

  /** Every number is exact as a binary64, and every text is accepted and fits its buffer. */
  ghost predicate Keepable(e: Entry<SadData>, accepts: Content -> bool) {
    forall k: Key :: Kept(MemberOf(e, k), ShapeOf(k), accepts)
  }

  ghost predicate SameMembers(d: Entry<SadData>, e: Entry<SadData>) {
    forall k: Key :: MemberOf(d, k) == MemberOf(e, k)
  }

  lemma IdentityDetermine(d: Entry<SadData>, e: Entry<SadData>)
    requires SameMembers(d, e)
    ensures d.data.reqId == e.data.reqId
    ensures d.data.spi == e.data.spi
    ensures d.data.seqNumberCounter == e.data.seqNumberCounter
    ensures d.data.antiReplayWindow == e.data.antiReplayWindow
  {
    hide SpanOf, UnitOf;
    assert MemberOf(d, KReqId) == MemberOf(e, KReqId);
    assert MemberOf(d, KSpi) == MemberOf(e, KSpi);
    assert MemberOf(d, KSeqNumberCounter) == MemberOf(e, KSeqNumberCounter);
    assert MemberOf(d, KAntiReplayWindow) == MemberOf(e, KAntiReplayWindow);
  }

  lemma SelectorsDetermine(d: Entry<SadData>, e: Entry<SadData>)
    requires SameMembers(d, e)
    ensures d.data.localSubnet == e.data.localSubnet
    ensures d.data.remoteSubnet == e.data.remoteSubnet
    ensures d.data.tunnelLocal == e.data.tunnelLocal
    ensures d.data.tunnelRemote == e.data.tunnelRemote
  {
    hide SpanOf, UnitOf;
    assert MemberOf(d, KLocalSubnet) == MemberOf(e, KLocalSubnet);
    assert MemberOf(d, KRemoteSubnet) == MemberOf(e, KRemoteSubnet);
    assert MemberOf(d, KTunnelLocal) == MemberOf(e, KTunnelLocal);
    assert MemberOf(d, KTunnelRemote) == MemberOf(e, KTunnelRemote);
  }

  lemma PortsDetermine(d: Entry<SadData>, e: Entry<SadData>)
    requires SameMembers(d, e)
    ensures d.data.innerProtocol == e.data.innerProtocol
    ensures d.data.srcPort == e.data.srcPort
    ensures d.data.dstPort == e.data.dstPort
    ensures d.data.dfBit == e.data.dfBit
  {
    hide SpanOf, UnitOf;
    assert MemberOf(d, KInnerProtocol) == MemberOf(e, KInnerProtocol);
    assert MemberOf(d, KSrcPort) == MemberOf(e, KSrcPort);
    assert MemberOf(d, KDstPort) == MemberOf(e, KDstPort);
    assert MemberOf(d, KDfBit) == MemberOf(e, KDfBit);
  }

  lemma ProcessingDetermine(d: Entry<SadData>, e: Entry<SadData>)
    requires SameMembers(d, e)
    ensures d.data.ipsecMode == e.data.ipsecMode
    ensures d.data.protocolParameters == e.data.protocolParameters
    ensures d.data.integrityAlg == e.data.integrityAlg
    ensures d.data.encryptionAlg == e.data.encryptionAlg
  {
    hide SpanOf, UnitOf;
    assert MemberOf(d, KIpsecMode) == MemberOf(e, KIpsecMode);
    assert MemberOf(d, KProtocolParameters) == MemberOf(e, KProtocolParameters);
    assert MemberOf(d, KIntegrityAlg) == MemberOf(e, KIntegrityAlg);
    assert MemberOf(d, KEncryptionAlg) == MemberOf(e, KEncryptionAlg);
  }

  lemma KeyingDetermine(d: Entry<SadData>, e: Entry<SadData>)
    requires SameMembers(d, e)
    ensures d.data.encryptionKeyLength == e.data.encryptionKeyLength
    ensures d.data.encryptionKey == e.data.encryptionKey
    ensures d.data.integrityKey == e.data.integrityKey
    ensures d.data.encryptionIv == e.data.encryptionIv
  {
    hide SpanOf, UnitOf;
    assert MemberOf(d, KEncryptionKeyLength) == MemberOf(e, KEncryptionKeyLength);
    assert MemberOf(d, KEncryptionKey) == MemberOf(e, KEncryptionKey);
    assert MemberOf(d, KIntegrityKey) == MemberOf(e, KIntegrityKey);
    assert MemberOf(d, KEncryptionIv) == MemberOf(e, KEncryptionIv);
  }

  lemma SwitchesDetermine(d: Entry<SadData>, e: Entry<SadData>)
    requires SameMembers(d, e)
    ensures d.data.extSeqNum == e.data.extSeqNum
    ensures d.data.seqOverflow == e.data.seqOverflow
    ensures d.data.bypassDscp == e.data.bypassDscp
    ensures d.data.ecn == e.data.ecn
    ensures d.data.tfcPad == e.data.tfcPad
  {
    hide SpanOf, UnitOf;
    assert MemberOf(d, KExtSeqNum) == MemberOf(e, KExtSeqNum);
    assert MemberOf(d, KSeqOverflow) == MemberOf(e, KSeqOverflow);
    assert MemberOf(d, KBypassDscp) == MemberOf(e, KBypassDscp);
    assert MemberOf(d, KEcn) == MemberOf(e, KEcn);
    assert MemberOf(d, KTfcPad) == MemberOf(e, KTfcPad);
  }

  lemma SpanDetermines(d: Entry<SadData>, e: Entry<SadData>, span: Span)
    requires SameMembers(d, e)
    ensures SpanOf(d.data, span) == SpanOf(e.data, span)
  {
    hide SpanOf;
    assert MemberOf(d, KLifetime(Volume, span)) == MemberOf(e, KLifetime(Volume, span));
    assert MemberOf(d, KLifetime(Packets, span)) == MemberOf(e, KLifetime(Packets, span));
    assert MemberOf(d, KLifetime(Time, span)) == MemberOf(e, KLifetime(Time, span));
    assert MemberOf(d, KLifetime(Idle, span)) == MemberOf(e, KLifetime(Idle, span));
  }

  /** Members determine the entry. */
  lemma MembersDetermine(d: Entry<SadData>, e: Entry<SadData>)
    requires SameMembers(d, e)
    ensures d == e
  {
    assert d.name == e.name by {
      assert MemberOf(d, KName) == MemberOf(e, KName);
    }
    hide SameMembers;
    IdentityDetermine(d, e);
    SelectorsDetermine(d, e);
    PortsDetermine(d, e);
    ProcessingDetermine(d, e);
    KeyingDetermine(d, e);
    SwitchesDetermine(d, e);
    SpanDetermines(d, e, Hard);
    SpanDetermines(d, e, Soft);
    SpanDetermines(d, e, Current);
  }

  lemma YieldsOne(o: JsonObject, d: Entry<SadData>, e: Entry<SadData>)
    requires Yields(o, d) && Yields(o, e)
    ensures d == e
  {
    hide MemberOf, Fetched, ShapeOf;
    MembersDetermine(d, e);
  }

  /** Reading gives back every member of what was written exactly when the entry is keepable. */
  lemma YieldsIff(o: JsonObject, e: Entry<SadData>)
    requires Ranged(e) && HoldsEntry(o, e)
    ensures Yields(o, e) <==> Keepable(e, o.accepts)
  {
    hide MemberOf, Fetched, ShapeOf, Kept, InRange, Stored;
    forall k: Key
      ensures Fetched(o.Get(k), ShapeOf(k)) == Some(MemberOf(e, k)) <==> Kept(MemberOf(e, k), ShapeOf(k), o.accepts)
    {
      assert InRange(MemberOf(e, k), ShapeOf(k));
      assert o.Get(k) == Stored(MemberOf(e, k), o.accepts);
      MemberTripIff(MemberOf(e, k), ShapeOf(k), o.accepts);
    }
  }

  /** The entry that is read back is the entry that was written exactly when that is keepable. */
  lemma RoundTripIff(o: JsonObject, e: Entry<SadData>, d: Entry<SadData>)
    requires Ranged(e) && HoldsEntry(o, e) && Yields(o, d)
    ensures d == e <==> Keepable(e, o.accepts)
  {
    hide Yields, Keepable, Ranged, HoldsEntry;
    YieldsIff(o, e);
    if Yields(o, e) {
      YieldsOne(o, d, e);
    }
  }

  lemma RangedIff(e: Entry<SadData>)
    ensures Ranged(e) <==>
              && e.data.reqId < 0x1_0000_0000_0000_0000 && e.data.spi < 0x1_0000_0000_0000_0000
              && e.data.seqNumberCounter < 0x1_0000_0000_0000_0000
              && e.data.antiReplayWindow < 0x1_0000_0000_0000_0000
              && e.data.innerProtocol < 0x1_0000_0000 && e.data.srcPort < 0x1_0000_0000
              && e.data.dstPort < 0x1_0000_0000 && e.data.ipsecMode < 0x1_0000
              && e.data.protocolParameters < 0x1_0000 && e.data.dfBit < 0x1_0000
              && e.data.integrityAlg < 0x1_0000_0000 && e.data.encryptionAlg < 0x1_0000_0000
              && e.data.encryptionKeyLength < 0x1_0000_0000
              && Ranged64(e.data.hard) && Ranged64(e.data.soft) && Ranged64(e.data.current)
  {
    Widths();
    hide Pow256;
    if Ranged(e) {
      NumbersRanged(e);
      SpanRanged(e, Hard);
      SpanRanged(e, Soft);
      SpanRanged(e, Current);
    }
  }

  predicate Ranged64(l: Lifetimes) {
    && l.octets < 0x1_0000_0000_0000_0000 && l.packets < 0x1_0000_0000_0000_0000
    && l.time < 0x1_0000_0000_0000_0000 && l.idle < 0x1_0000_0000_0000_0000
  }

  lemma NumbersRanged(e: Entry<SadData>)
    requires Ranged(e)
    ensures e.data.reqId < Pow256(8) && e.data.spi < Pow256(8) && e.data.seqNumberCounter < Pow256(8)
    ensures e.data.antiReplayWindow < Pow256(8)
    ensures e.data.innerProtocol < Pow256(4) && e.data.srcPort < Pow256(4) && e.data.dstPort < Pow256(4)
    ensures e.data.ipsecMode < Pow256(2) && e.data.protocolParameters < Pow256(2) && e.data.dfBit < Pow256(2)
    ensures e.data.integrityAlg < Pow256(4) && e.data.encryptionAlg < Pow256(4)
    ensures e.data.encryptionKeyLength < Pow256(4)
  {
    hide Pow256;
    assert InRange(MemberOf(e, KReqId), ShapeOf(KReqId)) && InRange(MemberOf(e, KSpi), ShapeOf(KSpi));
    assert InRange(MemberOf(e, KSeqNumberCounter), ShapeOf(KSeqNumberCounter));
    assert InRange(MemberOf(e, KAntiReplayWindow), ShapeOf(KAntiReplayWindow));
    assert InRange(MemberOf(e, KInnerProtocol), ShapeOf(KInnerProtocol));
    assert InRange(MemberOf(e, KSrcPort), ShapeOf(KSrcPort)) && InRange(MemberOf(e, KDstPort), ShapeOf(KDstPort));
    assert InRange(MemberOf(e, KIpsecMode), ShapeOf(KIpsecMode)) && InRange(MemberOf(e, KDfBit), ShapeOf(KDfBit));
    assert InRange(MemberOf(e, KProtocolParameters), ShapeOf(KProtocolParameters));
    assert InRange(MemberOf(e, KIntegrityAlg), ShapeOf(KIntegrityAlg));
    assert InRange(MemberOf(e, KEncryptionAlg), ShapeOf(KEncryptionAlg));
    assert InRange(MemberOf(e, KEncryptionKeyLength), ShapeOf(KEncryptionKeyLength));
  }

  lemma SpanRanged(e: Entry<SadData>, span: Span)
    requires Ranged(e)
    ensures Ranged64(SpanOf(e.data, span))
  {
    Widths();
    hide Pow256, SpanOf;
    assert InRange(MemberOf(e, KLifetime(Volume, span)), ShapeOf(KLifetime(Volume, span)));
    assert InRange(MemberOf(e, KLifetime(Packets, span)), ShapeOf(KLifetime(Packets, span)));
    assert InRange(MemberOf(e, KLifetime(Time, span)), ShapeOf(KLifetime(Time, span)));
    assert InRange(MemberOf(e, KLifetime(Idle, span)), ShapeOf(KLifetime(Idle, span)));
  }

  /** Written and read again, no member of the entry is undefined. */
  ghost predicate Recoverable(e: Entry<SadData>, accepts: Content -> bool) {
    forall k: Key :: Fetched(Stored(MemberOf(e, k), accepts), ShapeOf(k)).Some?
  }

  /** A node through the object and back: the same entry exactly when it is keepable. */
  method ThereAndBack(e: Entry<SadData>, accepts: Content -> bool) returns (node: Node<SadData>)
    requires Ranged(e) && Recoverable(e, accepts)
    ensures fresh(node) && node.next == null
    ensures Entry(node.name, node.data) == e <==> Keepable(e, accepts)
  {
    hide MemberOf, Fetched, Stored, ShapeOf, Yields, Keepable, Ranged;
    var o := Serialize(e, accepts);
    assert forall k: Key :: o.Get(k) == Stored(MemberOf(e, k), accepts);
    node := Deserialize(o);
    RoundTripIff(o, e, Entry(node.name, node.data));
  }

  /** The documented limit: numbers up to 2^53 and texts that fit come back. */
  lemma SmallNumbersReturn(o: JsonObject, e: Entry<SadData>)
    requires Ranged(e) && HoldsEntry(o, e)
    requires forall k: Key | MemberOf(e, k).Number? :: MemberOf(e, k).n <= SIGNIFICANDS
    requires forall k: Key | !MemberOf(e, k).Number? :: Kept(MemberOf(e, k), ShapeOf(k), o.accepts)
    ensures Yields(o, e)
  {
    hide MemberOf, ShapeOf, Yields, Representable, Round;
    forall k: Key
      ensures Kept(MemberOf(e, k), ShapeOf(k), o.accepts)
    {
      if MemberOf(e, k).Number? {
        ExactTo53(MemberOf(e, k).n);
      }
    }
    YieldsIff(o, e);
  }

  /** 2^53 + 1 does not come back: whatever is read has 2^53 in its place. */
  lemma LargeNumberChanges(o: JsonObject, e: Entry<SadData>, d: Entry<SadData>)
    requires HoldsEntry(o, e) && e.data.reqId == SIGNIFICANDS + 1 && Yields(o, d)
    ensures d.data.reqId == SIGNIFICANDS
  {
    hide Round, Pow256;
    ExactTo53(0);
    assert Fetched(o.Get(KReqId), ShapeOf(KReqId)) == Some(MemberOf(d, KReqId));
    assert o.Get(KReqId) == Stored(MemberOf(e, KReqId), o.accepts);
  }
}
