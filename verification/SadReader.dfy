/**
 What the leaves of a security association do to its entry. Each recognised path writes fields
 of its own, so the order of the leaves does not matter.
 */
module SadReader {
  import opened Bytes
  import opened Text
  import opened HexKey
  import opened SadEntry
  import opened ChangeStream

  datatype Kind = Time | Octets | Packets | Idle

  /** What a path selects. Ports and keys are told apart by a search in the whole path. */
  datatype Target =
    | ReqId | Spi | ExtSeqNum | SeqNumberCounter | SeqOverflow | AntiReplayWindow
    | LocalPrefix | RemotePrefix | InnerProtocol | Ports(local: bool, remote: bool)
    | Mode | TunnelLocal | TunnelRemote | BypassDscp | Ecn | DfBit | ProtocolParameters
    | EncryptionAlgorithm | Iv | Key(encryption: bool, integrity: bool) | IntegrityAlgorithm
    | Limit(kind: Kind, soft: bool)
    | Ignored

  function LimitOf(kind: Kind, path: string): Target {
    if Contains(path, "/sa-lifetime-soft") then Limit(kind, true)
    else if Contains(path, "/sa-lifetime-hard") then Limit(kind, false)
    else Ignored
  }

  function IdentityTarget(name: string): Target {
    if name == "/reqid" then ReqId
    else if name == "/spi" then Spi
    else if name == "/ext-seq-num" then ExtSeqNum
    else if name == "/seq-number-counter" then SeqNumberCounter
    else if name == "/seq-overflow" then SeqOverflow
    else if name == "/anti-replay-window" then AntiReplayWindow
    else Ignored
  }

  function SelectorTarget(name: string, path: string): Target {
    if name == "/local-prefix" then LocalPrefix
    else if name == "/remote-prefix" then RemotePrefix
    else if name == "/inner-protocol" then InnerProtocol
    else if "/start" <= name then Ports(Contains(path, "/local-ports"), Contains(path, "/remote-ports"))
    else Ignored
  }

  function TunnelTarget(name: string): Target {
    if name == "/mode" then Mode
    else if name == "/local" then TunnelLocal
    else if name == "/remote" then TunnelRemote
    else if name == "/bypass-dscp" then BypassDscp
    else if name == "/ecn" then Ecn
    else if name == "/df-bit" then DfBit
    else Ignored
  }

  function EspTarget(name: string, path: string): Target {
    if name == "/protocol-parameters" then ProtocolParameters
    else if name == "/encryption-algorithm" then EncryptionAlgorithm
    else if name == "/iv" then Iv
    else if "/key" <= name then Key(Contains(path, "/encryption"), Contains(path, "/integrity"))
    else if name == "/integrity-algorithm" then IntegrityAlgorithm
    else Ignored
  }

  function LifetimeTarget(name: string, path: string): Target {
    if name == "/time" then LimitOf(Time, path)
    else if name == "/bytes" then LimitOf(Octets, path)
    else if name == "/packets" then LimitOf(Packets, path)
    else if name == "/idle" then LimitOf(Idle, path)
    else Ignored
  }

  function Or(t: Target, u: Target): Target {
    if t == Ignored then u else t
  }

  /** The comparisons of the source on the last segment, in its order. */
  function TargetNamed(name: string, path: string): Target {
    Or(IdentityTarget(name),
       Or(SelectorTarget(name, path), Or(TunnelTarget(name), Or(EspTarget(name, path), LifetimeTarget(name, path)))))
  }

  function TargetOf(path: string): Target {
    TargetNamed(LastSegment(path), path)
  }

  lemma StartIsNoIdentity(s: string)
    requires |s| >= 3 && (s[1] == 'k' || (s[1] == 's' && s[2] == 't'))
    ensures IdentityTarget(s) == Ignored && TunnelTarget(s) == Ignored
    ensures s != "/local-prefix" && s != "/remote-prefix" && s != "/inner-protocol"
  {
  }

  lemma KeyIsNoSelector(s: string, path: string)
    requires |s| >= 3 && s[1] == 'k'
    ensures SelectorTarget(s, path) == Ignored
    ensures s != "/protocol-parameters" && s != "/encryption-algorithm" && s != "/iv"
  {
    var start := "/start";
    assert start[1] == 's';
  }

  /** Ports and keys are selected by the front of the last segment. */
  lemma FrontsSelect(s: string, path: string)
    ensures "/start" <= s ==>
              TargetNamed(s, path) == Ports(Contains(path, "/local-ports"), Contains(path, "/remote-ports"))
    ensures "/key" <= s ==> TargetNamed(s, path) == Key(Contains(path, "/encryption"), Contains(path, "/integrity"))
  {
    hide Contains, IdentityTarget, TunnelTarget, LifetimeTarget;
    var start, key := "/start", "/key";
    assert start[1] == 's' && start[2] == 't' && key[1] == 'k';
    if start <= s {
      StartIsNoIdentity(s);
    }
    if key <= s {
      StartIsNoIdentity(s);
      KeyIsNoSelector(s, path);
    }
  }

  // ----- reading a value

  function NumOf(v: Value): nat {
    if v.Num? then v.num else 0
  }

  function TextOf(v: Value): string {
    if v.Str? then v.text else ""
  }

  predicate FlagOf(v: Value) {
    v.Flag? && v.flag
  }

  /** A signed 16-bit member stored in an unsigned 32-bit field. */
  function Signed16(n: nat): nat {
    var x := n % 0x1_0000;
    if x < 0x8000 then x else x + 0xFFFF_0000
  }

  /** A signed 32-bit member stored in an unsigned 64-bit field. */
  function Signed32(n: nat): nat {
    var x := n % 0x1_0000_0000;
    if x < 0x8000_0000 then x else x + 0xFFFF_FFFF_0000_0000
  }

  /** A 16-bit number survives exactly when its sign bit is clear. */
  lemma Signed16Iff(n: nat)
    requires n < 0x1_0000
    ensures Signed16(n) == n <==> n < 0x8000
  {
  }

  /**
   A number of up to 64 bits survives exactly when it fits 31 bits, or when it is already the
   widening of a negative number.
   */
  lemma Signed32Iff(n: nat)
    requires n < 0x1_0000_0000_0000_0000
    ensures Signed32(n) == n <==> n < 0x8000_0000 || n >= 0xFFFF_FFFF_8000_0000
  {
  }

  /** A protocol number, or the enumeration value "any". */
  function ProtocolOf(v: Value): nat {
    if v == Str("any") then 256 else NumOf(v) % 0x1_0000
  }

  function LowerCase(s: string): string {
    if s == "" then "" else [if 'A' <= s[0] <= 'Z' then (s[0] as int + 32) as char else s[0]] + LowerCase(s[1..])
  }

  /** IPsec mode, compared without regard to case; other texts change nothing. */
  function ModeOf(v: Value, was: nat): nat {
    if LowerCase(TextOf(v)) == "transport" then 1 else if LowerCase(TextOf(v)) == "tunnel" then 2 else was
  }

  function DfBitOf(v: Value, was: nat): nat {
    if TextOf(v) == "clear" then 0 else if TextOf(v) == "set" then 1 else if TextOf(v) == "copy" then 2 else was
  }

  function ProtocolParametersOf(v: Value, was: nat): nat {
    if TextOf(v) == "esp" then 50 else was
  }

  /** strcpy: octets up to the first zero. */
  function CutAtZero(bs: seq<byte>): SadEntry.Octets {
    if bs == [] || bs[0] == 0 then [] else [bs[0]] + CutAtZero(bs[1..])
  }

  function KeyOf(v: Value): SadEntry.Octets {
    CutAtZero(DecodePairs(Without(TextOf(v), ':')))
  }

  function SetLimit(l: Lifetimes, kind: Kind, n: nat): Lifetimes {
    match kind
    case Time => l.(time := n)
    case Octets => l.(octets := n)
    case Packets => l.(packets := n)
    case Idle => l.(idle := n)
  }

  // ----- one leaf

  function ApplyTarget(d: SadData, t: Target, v: Value): Applied<SadData> {
    match t
    case ReqId => Next(d.(reqId := NumOf(v)))
    case Spi => Next(d.(spi := NumOf(v) % 0x1_0000_0000))
    case ExtSeqNum => Next(d.(extSeqNum := FlagOf(v)))
    case SeqNumberCounter => Next(d.(seqNumberCounter := NumOf(v)))
    case SeqOverflow => Next(d.(seqOverflow := FlagOf(v)))
    case AntiReplayWindow => Next(d.(antiReplayWindow := NumOf(v)))
    case LocalPrefix => Next(d.(localSubnet := TextOf(v)))
    case RemotePrefix => Next(d.(remoteSubnet := TextOf(v)))
    case InnerProtocol =>
      var d' := d.(innerProtocol := ProtocolOf(v));
      if ProtocolOf(v) > 256 then Stop(d') else Next(d')
    case Ports(local, remote) =>
      Next(d.(srcPort := if local then NumOf(v) % 0x1_0000 else d.srcPort,
              dstPort := if remote then NumOf(v) % 0x1_0000 else d.dstPort))
    case Mode => Next(d.(ipsecMode := ModeOf(v, d.ipsecMode)))
    case TunnelLocal => Next(d.(tunnelLocal := TextOf(v)))
    case TunnelRemote => Next(d.(tunnelRemote := TextOf(v)))
    case BypassDscp => Next(d.(bypassDscp := FlagOf(v)))
    case Ecn => Next(d.(ecn := FlagOf(v)))
    case DfBit => Next(d.(dfBit := DfBitOf(v, d.dfBit)))
    case ProtocolParameters => Next(d.(protocolParameters := ProtocolParametersOf(v, d.protocolParameters)))
    case EncryptionAlgorithm => Next(d.(encryptionAlg := Signed16(NumOf(v))))
    case Iv => Next(d.(encryptionIv := KeyOf(v)))
    case Key(encryption, integrity) =>
      Next(d.(encryptionKey := if encryption then KeyOf(v) else d.encryptionKey,
              integrityKey := if integrity then KeyOf(v) else d.integrityKey))
    case IntegrityAlgorithm => Next(d.(integrityAlg := Signed16(NumOf(v))))
    case Limit(kind, soft) =>
      if soft then Next(d.(soft := SetLimit(d.soft, kind, Signed32(NumOf(v)))))
      else Next(d.(hard := SetLimit(d.hard, kind, Signed32(NumOf(v)))))
    case Ignored => Next(d)
  }

  function SadApply(d: SadData, c: Change): Applied<SadData> {
    ApplyTarget(d, TargetOf(c.path), c.value)
  }

  // ----- fields

  datatype Field =
    | FReqId | FSpi | FExtSeqNum | FSeqNumberCounter | FSeqOverflow | FAntiReplayWindow
    | FLocalSubnet | FRemoteSubnet | FInnerProtocol | FSrcPort | FDstPort | FMode
    | FTunnelLocal | FTunnelRemote | FBypassDscp | FEcn | FDfBit | FProtocolParameters
    | FEncryptionAlg | FIv | FEncryptionKey | FIntegrityKey | FIntegrityAlg
    | FSoft(kind: Kind) | FHard(kind: Kind)

  function Writes(t: Target): set<Field> {
    match t
    case ReqId => {FReqId}
    case Spi => {FSpi}
    case ExtSeqNum => {FExtSeqNum}
    case SeqNumberCounter => {FSeqNumberCounter}
    case SeqOverflow => {FSeqOverflow}
    case AntiReplayWindow => {FAntiReplayWindow}
    case LocalPrefix => {FLocalSubnet}
    case RemotePrefix => {FRemoteSubnet}
    case InnerProtocol => {FInnerProtocol}
    case Ports(local, remote) => (if local then {FSrcPort} else {}) + (if remote then {FDstPort} else {})
    case Mode => {FMode}
    case TunnelLocal => {FTunnelLocal}
    case TunnelRemote => {FTunnelRemote}
    case BypassDscp => {FBypassDscp}
    case Ecn => {FEcn}
    case DfBit => {FDfBit}
    case ProtocolParameters => {FProtocolParameters}
    case EncryptionAlgorithm => {FEncryptionAlg}
    case Iv => {FIv}
    case Key(encryption, integrity) =>
      (if encryption then {FEncryptionKey} else {}) + (if integrity then {FIntegrityKey} else {})
    case IntegrityAlgorithm => {FIntegrityAlg}
    case Limit(kind, soft) => if soft then {FSoft(kind)} else {FHard(kind)}
    case Ignored => {}
  }

  datatype Content = N(n: nat) | B(b: bool) | S(s: string) | K(k: SadEntry.Octets)

  function LimitIn(l: Lifetimes, kind: Kind): nat {
    match kind
    case Time => l.time
    case Octets => l.octets
    case Packets => l.packets
    case Idle => l.idle
  }

  function Get(d: SadData, f: Field): Content {
    match f
    case FReqId => N(d.reqId)
    case FSpi => N(d.spi)
    case FExtSeqNum => B(d.extSeqNum)
    case FSeqNumberCounter => N(d.seqNumberCounter)
    case FSeqOverflow => B(d.seqOverflow)
    case FAntiReplayWindow => N(d.antiReplayWindow)
    case FLocalSubnet => S(d.localSubnet)
    case FRemoteSubnet => S(d.remoteSubnet)
    case FInnerProtocol => N(d.innerProtocol)
    case FSrcPort => N(d.srcPort)
    case FDstPort => N(d.dstPort)
    case FMode => N(d.ipsecMode)
    case FTunnelLocal => S(d.tunnelLocal)
    case FTunnelRemote => S(d.tunnelRemote)
    case FBypassDscp => B(d.bypassDscp)
    case FEcn => B(d.ecn)
    case FDfBit => N(d.dfBit)
    case FProtocolParameters => N(d.protocolParameters)
    case FEncryptionAlg => N(d.encryptionAlg)
    case FIv => K(d.encryptionIv)
    case FEncryptionKey => K(d.encryptionKey)
    case FIntegrityKey => K(d.integrityKey)
    case FIntegrityAlg => N(d.integrityAlg)
    case FSoft(kind) => N(LimitIn(d.soft, kind))
    case FHard(kind) => N(LimitIn(d.hard, kind))
  }

  /** What a value means for a field that held `was`. */
  function Meaning(f: Field, v: Value, was: Content): Content {
    match f
    case FReqId => N(NumOf(v))
    case FSpi => N(NumOf(v) % 0x1_0000_0000)
    case FExtSeqNum => B(FlagOf(v))
    case FSeqNumberCounter => N(NumOf(v))
    case FSeqOverflow => B(FlagOf(v))
    case FAntiReplayWindow => N(NumOf(v))
    case FLocalSubnet => S(TextOf(v))
    case FRemoteSubnet => S(TextOf(v))
    case FInnerProtocol => N(ProtocolOf(v))
    case FSrcPort => N(NumOf(v) % 0x1_0000)
    case FDstPort => N(NumOf(v) % 0x1_0000)
    case FMode => if was.N? then N(ModeOf(v, was.n)) else was
    case FTunnelLocal => S(TextOf(v))
    case FTunnelRemote => S(TextOf(v))
    case FBypassDscp => B(FlagOf(v))
    case FEcn => B(FlagOf(v))
    case FDfBit => if was.N? then N(DfBitOf(v, was.n)) else was
    case FProtocolParameters => if was.N? then N(ProtocolParametersOf(v, was.n)) else was
    case FEncryptionAlg => N(Signed16(NumOf(v)))
    case FIv => K(KeyOf(v))
    case FEncryptionKey => K(KeyOf(v))
    case FIntegrityKey => K(KeyOf(v))
    case FIntegrityAlg => N(Signed16(NumOf(v)))
    case FSoft(kind) => N(Signed32(NumOf(v)))
    case FHard(kind) => N(Signed32(NumOf(v)))
  }

  /** The fields no leaf writes. */
  function Unread(d: SadData): (nat, bool, Lifetimes) {
    (d.encryptionKeyLength, d.tfcPad, d.current)
  }

  ghost predicate GivesMeaning(d: SadData, t: Target, v: Value, f: Field) {
    Get(ApplyTarget(d, t, v).entry, f) == if f in Writes(t) then Meaning(f, v, Get(d, f)) else Get(d, f)
  }

  lemma PlainNumbersGiveMeaning(d: SadData, t: Target, v: Value, f: Field)
    requires t.ReqId? || t.Spi? || t.SeqNumberCounter? || t.AntiReplayWindow?
    ensures GivesMeaning(d, t, v, f)
  {
    hide ModeOf, DfBitOf, ProtocolParametersOf, Signed16, Signed32, KeyOf, NumOf, TextOf, FlagOf, ProtocolOf, LimitIn;
  }

  lemma ProtocolGivesMeaning(d: SadData, t: Target, v: Value, f: Field)
    requires t.InnerProtocol?
    ensures GivesMeaning(d, t, v, f)
  {
    hide ProtocolOf, LimitIn;
    assert ApplyTarget(d, t, v).entry == d.(innerProtocol := ProtocolOf(v));
    hide ApplyTarget;
  }

  lemma PortsGiveMeaning(d: SadData, t: Target, v: Value, f: Field)
    requires t.Ports?
    ensures GivesMeaning(d, t, v, f)
  {
    hide ModeOf, DfBitOf, ProtocolParametersOf, Signed16, Signed32, KeyOf, NumOf, TextOf, FlagOf, ProtocolOf, LimitIn;
  }

  lemma AlgorithmsGiveMeaning(d: SadData, t: Target, v: Value, f: Field)
    requires t.EncryptionAlgorithm? || t.IntegrityAlgorithm?
    ensures GivesMeaning(d, t, v, f)
  {
    hide ModeOf, DfBitOf, ProtocolParametersOf, Signed16, Signed32, KeyOf, NumOf, TextOf, FlagOf, ProtocolOf, LimitIn;
  }

  lemma FlagsGiveMeaning(d: SadData, t: Target, v: Value, f: Field)
    requires t.ExtSeqNum? || t.SeqOverflow? || t.BypassDscp? || t.Ecn?
    ensures GivesMeaning(d, t, v, f)
  {
    hide ModeOf, DfBitOf, ProtocolParametersOf, Signed16, Signed32, KeyOf, NumOf, TextOf, FlagOf, ProtocolOf, LimitIn;
  }

  lemma ChoicesGiveMeaning(d: SadData, t: Target, v: Value, f: Field)
    requires t.DfBit? || t.ProtocolParameters? || t.Mode? || t.Ignored?
    ensures GivesMeaning(d, t, v, f)
  {
    hide ModeOf, DfBitOf, ProtocolParametersOf, Signed16, Signed32, KeyOf, NumOf, TextOf, FlagOf, ProtocolOf, LimitIn;
  }

  lemma AddressesGiveMeaning(d: SadData, t: Target, v: Value, f: Field)
    requires t.LocalPrefix? || t.RemotePrefix? || t.TunnelLocal? || t.TunnelRemote?
    ensures GivesMeaning(d, t, v, f)
  {
    hide ModeOf, DfBitOf, ProtocolParametersOf, Signed16, Signed32, KeyOf, NumOf, TextOf, FlagOf, ProtocolOf, LimitIn;
  }

  lemma KeysGiveMeaning(d: SadData, t: Target, v: Value, f: Field)
    requires t.Iv? || t.Key?
    ensures GivesMeaning(d, t, v, f)
  {
    hide ModeOf, DfBitOf, ProtocolParametersOf, Signed16, Signed32, KeyOf, NumOf, TextOf, FlagOf, ProtocolOf, LimitIn;
  }

  lemma LimitSet(l: Lifetimes, k: Kind, n: nat, j: Kind)
    ensures LimitIn(SetLimit(l, k, n), j) == if j == k then n else LimitIn(l, j)
  {
  }

  lemma SoftLimitsGiveMeaning(d: SadData, t: Target, v: Value, f: Field)
    requires t.Limit? && t.soft
    ensures GivesMeaning(d, t, v, f)
  {
    hide Signed32, NumOf, LimitIn, SetLimit;
    if f.FSoft? {
      LimitSet(d.soft, t.kind, Signed32(NumOf(v)), f.kind);
    }
  }

  lemma HardLimitsGiveMeaning(d: SadData, t: Target, v: Value, f: Field)
    requires t.Limit? && !t.soft
    ensures GivesMeaning(d, t, v, f)
  {
    hide Signed32, NumOf, LimitIn, SetLimit;
    if f.FHard? {
      LimitSet(d.hard, t.kind, Signed32(NumOf(v)), f.kind);
    }
  }

  /** A leaf gives the fields of its target their meaning and touches no other. */
  lemma ApplyWrites(d: SadData, t: Target, v: Value, f: Field)
    ensures Get(ApplyTarget(d, t, v).entry, f) == if f in Writes(t) then Meaning(f, v, Get(d, f)) else Get(d, f)
  {
    assert GivesMeaning(d, t, v, f) by {
      hide GivesMeaning;
      if t.Limit? && t.soft {
        SoftLimitsGiveMeaning(d, t, v, f);
      } else if t.Limit? {
        HardLimitsGiveMeaning(d, t, v, f);
      } else if t.ReqId? || t.Spi? || t.SeqNumberCounter? || t.AntiReplayWindow? {
        PlainNumbersGiveMeaning(d, t, v, f);
      } else if t.InnerProtocol? {
        ProtocolGivesMeaning(d, t, v, f);
      } else if t.Ports? {
        PortsGiveMeaning(d, t, v, f);
      } else if t.EncryptionAlgorithm? || t.IntegrityAlgorithm? {
        AlgorithmsGiveMeaning(d, t, v, f);
      } else if t.ExtSeqNum? || t.SeqOverflow? || t.BypassDscp? || t.Ecn? {
        FlagsGiveMeaning(d, t, v, f);
      } else if t.DfBit? || t.ProtocolParameters? || t.Mode? || t.Ignored? {
        ChoicesGiveMeaning(d, t, v, f);
      } else if t.LocalPrefix? || t.RemotePrefix? || t.TunnelLocal? || t.TunnelRemote? {
        AddressesGiveMeaning(d, t, v, f);
      } else {
        KeysGiveMeaning(d, t, v, f);
      }
    }
    hide ApplyTarget, Writes, Meaning, Get;
  }

  lemma ApplyKeepsUnread(d: SadData, t: Target, v: Value)
    ensures Unread(ApplyTarget(d, t, v).entry) == Unread(d)
  {
    hide ModeOf, DfBitOf, ProtocolParametersOf, Signed16, Signed32, KeyOf, NumOf, TextOf, FlagOf, ProtocolOf;
  }

  lemma LimitsDetermine(l: Lifetimes, m: Lifetimes)
    requires forall k :: LimitIn(l, k) == LimitIn(m, k)
    ensures l == m
  {
    assert LimitIn(l, Time) == LimitIn(m, Time) && LimitIn(l, Octets) == LimitIn(m, Octets);
    assert LimitIn(l, Packets) == LimitIn(m, Packets) && LimitIn(l, Idle) == LimitIn(m, Idle);
  }

  lemma NumbersDetermine(d: SadData, e: SadData)
    requires forall f :: Get(d, f) == Get(e, f)
    ensures d.reqId == e.reqId
    ensures d.spi == e.spi
    ensures d.seqNumberCounter == e.seqNumberCounter
    ensures d.antiReplayWindow == e.antiReplayWindow
    ensures d.innerProtocol == e.innerProtocol
  {
    hide LimitIn;
    assert Get(d, FReqId) == Get(e, FReqId);
    assert Get(d, FSpi) == Get(e, FSpi);
    assert Get(d, FSeqNumberCounter) == Get(e, FSeqNumberCounter);
    assert Get(d, FAntiReplayWindow) == Get(e, FAntiReplayWindow);
    assert Get(d, FInnerProtocol) == Get(e, FInnerProtocol);
  }

  lemma ChoicesDetermine(d: SadData, e: SadData)
    requires forall f :: Get(d, f) == Get(e, f)
    ensures d.srcPort == e.srcPort
    ensures d.dstPort == e.dstPort
    ensures d.ipsecMode == e.ipsecMode
    ensures d.dfBit == e.dfBit
    ensures d.protocolParameters == e.protocolParameters
  {
    hide LimitIn;
    assert Get(d, FSrcPort) == Get(e, FSrcPort);
    assert Get(d, FDstPort) == Get(e, FDstPort);
    assert Get(d, FMode) == Get(e, FMode);
    assert Get(d, FDfBit) == Get(e, FDfBit);
    assert Get(d, FProtocolParameters) == Get(e, FProtocolParameters);
  }

  lemma FlagsDetermine(d: SadData, e: SadData)
    requires forall f :: Get(d, f) == Get(e, f)
    ensures d.extSeqNum == e.extSeqNum
    ensures d.seqOverflow == e.seqOverflow
    ensures d.bypassDscp == e.bypassDscp
    ensures d.ecn == e.ecn
  {
    hide LimitIn;
    assert Get(d, FExtSeqNum) == Get(e, FExtSeqNum);
    assert Get(d, FSeqOverflow) == Get(e, FSeqOverflow);
    assert Get(d, FBypassDscp) == Get(e, FBypassDscp);
    assert Get(d, FEcn) == Get(e, FEcn);
  }

  lemma TextsDetermine(d: SadData, e: SadData)
    requires forall f :: Get(d, f) == Get(e, f)
    ensures d.localSubnet == e.localSubnet
    ensures d.remoteSubnet == e.remoteSubnet
    ensures d.tunnelLocal == e.tunnelLocal
    ensures d.tunnelRemote == e.tunnelRemote
  {
    hide LimitIn;
    assert Get(d, FLocalSubnet) == Get(e, FLocalSubnet);
    assert Get(d, FRemoteSubnet) == Get(e, FRemoteSubnet);
    assert Get(d, FTunnelLocal) == Get(e, FTunnelLocal);
    assert Get(d, FTunnelRemote) == Get(e, FTunnelRemote);
  }

  lemma KeysDetermine(d: SadData, e: SadData)
    requires forall f :: Get(d, f) == Get(e, f)
    ensures d.encryptionIv == e.encryptionIv
    ensures d.encryptionKey == e.encryptionKey
    ensures d.integrityKey == e.integrityKey
    ensures d.encryptionAlg == e.encryptionAlg
    ensures d.integrityAlg == e.integrityAlg
  {
    hide LimitIn;
    assert Get(d, FIv) == Get(e, FIv);
    assert Get(d, FEncryptionKey) == Get(e, FEncryptionKey);
    assert Get(d, FIntegrityKey) == Get(e, FIntegrityKey);
    assert Get(d, FEncryptionAlg) == Get(e, FEncryptionAlg);
    assert Get(d, FIntegrityAlg) == Get(e, FIntegrityAlg);
  }

  lemma LifetimesDetermine(d: SadData, e: SadData)
    requires forall f :: Get(d, f) == Get(e, f)
    ensures d.soft == e.soft && d.hard == e.hard
  {
    hide LimitIn;
    forall k
      ensures LimitIn(d.soft, k) == LimitIn(e.soft, k) && LimitIn(d.hard, k) == LimitIn(e.hard, k)
    {
      assert Get(d, FSoft(k)) == Get(e, FSoft(k)) && Get(d, FHard(k)) == Get(e, FHard(k));
    }
    LimitsDetermine(d.soft, e.soft);
    LimitsDetermine(d.hard, e.hard);
  }

  /** An entry is the contents of its fields. */
  lemma FieldsDetermine(d: SadData, e: SadData)
    requires Unread(d) == Unread(e)
    requires forall f :: Get(d, f) == Get(e, f)
    ensures d == e
  {
    hide Get;
    NumbersDetermine(d, e);
    ChoicesDetermine(d, e);
    FlagsDetermine(d, e);
    TextsDetermine(d, e);
    KeysDetermine(d, e);
    LifetimesDetermine(d, e);
  }

  // ----- order independence

  /** A leaf that does not end the reading. */
  predicate Accepted(c: Change) {
    TargetOf(c.path) == InnerProtocol ==> ProtocolOf(c.value) <= 256
  }

  function WritesOf(c: Change): set<Field> {
    Writes(TargetOf(c.path))
  }

  /** The leaves of one entry: all acceptable, and no field written by two of them. */
  predicate Unambiguous(cs: seq<Change>) {
    && (forall i | 0 <= i < |cs| :: Accepted(cs[i]))
    && (forall i, j | 0 <= i < j < |cs| :: WritesOf(cs[i]) !! WritesOf(cs[j]))
  }

  /** The entry after applying the leaves in order. */
  function ApplyAll(d: SadData, cs: seq<Change>): SadData {
    if cs == [] then d else SadApply(ApplyAll(d, cs[..|cs| - 1]), cs[|cs| - 1]).entry
  }

  /** Each field holds the meaning of the one leaf that writes it, or what it held before. */
  lemma {:induction false} ApplyAllMeans(d: SadData, cs: seq<Change>, f: Field)
    requires Unambiguous(cs)
    ensures Unread(ApplyAll(d, cs)) == Unread(d)
    ensures forall i | 0 <= i < |cs| && f in WritesOf(cs[i]) ::
              Get(ApplyAll(d, cs), f) == Meaning(f, cs[i].value, Get(d, f))
    ensures (forall i | 0 <= i < |cs| :: f !in WritesOf(cs[i])) ==> Get(ApplyAll(d, cs), f) == Get(d, f)
    decreases |cs|
  {
    hide Get, Meaning, ApplyTarget, Unread, Writes, TargetOf, Accepted;
    if cs != [] {
      var n := |cs| - 1;
      var before := cs[..n];
      ApplyAllMeans(d, before, f);
      ApplyWrites(ApplyAll(d, before), TargetOf(cs[n].path), cs[n].value, f);
      ApplyKeepsUnread(ApplyAll(d, before), TargetOf(cs[n].path), cs[n].value);
      assert forall i | 0 <= i < n :: before[i] == cs[i];
      if f in WritesOf(cs[n]) {
        assert forall i | 0 <= i < n :: f !in WritesOf(cs[i]);
      }
    }
  }

  /** Any two sequences of the same leaves build the same entry. */
  lemma OrderDoesNotMatter(d: SadData, cs: seq<Change>, cs': seq<Change>)
    requires Unambiguous(cs) && Unambiguous(cs') && forall c :: c in cs <==> c in cs'
    ensures ApplyAll(d, cs) == ApplyAll(d, cs')
  {
    hide Get, Meaning, ApplyAll, Unread, WritesOf, Accepted;
    forall f
      ensures Get(ApplyAll(d, cs), f) == Get(ApplyAll(d, cs'), f)
    {
      ApplyAllMeans(d, cs, f);
      ApplyAllMeans(d, cs', f);
      if i :| 0 <= i < |cs| && f in WritesOf(cs[i]) {
        assert cs[i] in cs';
        var j :| 0 <= j < |cs'| && cs'[j] == cs[i];
      } else {
        assert forall j | 0 <= j < |cs'| :: cs'[j] in cs;
      }
    }
    ApplyAllMeans(d, cs, FSpi);
    ApplyAllMeans(d, cs', FSpi);
    FieldsDetermine(ApplyAll(d, cs), ApplyAll(d, cs'));
  }

  // ----- the reader's loop

  function Changes(op: Oper, entry: string, leaves: seq<Leaf>): (cs: seq<Change>)
    ensures |cs| == |leaves|
    ensures forall i | 0 <= i < |cs| :: cs[i] == Change(op, entry + leaves[i].below, leaves[i].value)
  {
    seq(|leaves|, i requires 0 <= i < |leaves| => Change(op, entry + leaves[i].below, leaves[i].value))
  }

  lemma {:induction false} FoldIsApplyAll(d: SadData, op: Oper, entry: string, leaves: seq<Leaf>)
    requires forall c | c in Changes(op, entry, leaves) :: Accepted(c)
    ensures Fold(d, op, entry, leaves, SadApply) == Next(ApplyAll(d, Changes(op, entry, leaves)))
    decreases |leaves|
  {
    hide TargetOf, ApplyTarget;
    if leaves != [] {
      var cs := Changes(op, entry, leaves);
      var d' := SadApply(d, cs[0]).entry;
      AcceptedContinues(d, cs[0]);
      assert Changes(op, entry, leaves[1..]) == cs[1..];
      FoldIsApplyAll(d', op, entry, leaves[1..]);
      ApplyAllFront(d, cs);
    }
  }

  lemma AcceptedContinues(d: SadData, c: Change)
    requires Accepted(c)
    ensures SadApply(d, c).Next?
  {
    hide TargetOf, ModeOf, DfBitOf, ProtocolParametersOf, Signed16, Signed32, KeyOf, NumOf, TextOf, FlagOf, ProtocolOf;
  }

  lemma StopsIff(d: SadData, c: Change)
    ensures SadApply(d, c).Stop? <==> !Accepted(c)
  {
    hide TargetOf, ModeOf, DfBitOf, ProtocolParametersOf, Signed16, Signed32, KeyOf, NumOf, TextOf, FlagOf, ProtocolOf;
  }

  /** An entry is read to its end exactly when none of its leaves is a bad inner protocol. */
  lemma {:induction false} ReadToEndIff(d: SadData, op: Oper, entry: string, leaves: seq<Leaf>)
    ensures Fold(d, op, entry, leaves, SadApply).Next? <==> forall c | c in Changes(op, entry, leaves) :: Accepted(c)
    decreases |leaves|
  {
    hide TargetOf, ApplyTarget, Accepted, SadApply;
    if leaves != [] {
      var cs := Changes(op, entry, leaves);
      StopsIff(d, cs[0]);
      assert Changes(op, entry, leaves[1..]) == cs[1..];
      ReadToEndIff(SadApply(d, cs[0]).entry, op, entry, leaves[1..]);
      assert forall c :: c in cs <==> c == cs[0] || c in cs[1..];
    }
  }

  /** How many changes of an entry are read: all up to the first bad protocol, and this. */
  function ReadLength(cs: seq<Change>): (n: nat)
    ensures n <= |cs|
  {
    if cs == [] then 0 else if !Accepted(cs[0]) then 1 else 1 + ReadLength(cs[1..])
  }

  /** All are read exactly when none but the last is a bad protocol. */
  lemma {:induction false} ReadLengthIff(cs: seq<Change>)
    ensures ReadLength(cs) == |cs| <==> forall i | 0 <= i < |cs| - 1 :: Accepted(cs[i])
    decreases |cs|
  {
    hide Accepted;
    if cs != [] && Accepted(cs[0]) {
      var rest := cs[1..];
      ReadLengthIff(rest);
      assert forall i | 0 <= i < |rest| :: rest[i] == cs[i + 1];
      assert forall i | 0 < i < |cs| :: cs[i] == rest[i - 1];
    }
  }

  lemma {:induction false} FoldReads(d: SadData, op: Oper, entry: string, leaves: seq<Leaf>)
    ensures var cs := Changes(op, entry, leaves);
            Fold(d, op, entry, leaves, SadApply).entry == ApplyAll(d, cs[..ReadLength(cs)])
    decreases |leaves|
  {
    hide TargetOf, ApplyTarget, Accepted, SadApply;
    var cs := Changes(op, entry, leaves);
    if leaves != [] {
      var d', rest, n := SadApply(d, cs[0]).entry, cs[1..], ReadLength(cs);
      StopsIff(d, cs[0]);
      assert Changes(op, entry, leaves[1..]) == rest;
      FoldReads(d', op, entry, leaves[1..]);
      ApplyAllFront(d, cs[..n]);
      assert Accepted(cs[0]) ==> cs[..n][1..] == rest[..ReadLength(rest)];
      assert !Accepted(cs[0]) ==> cs[..n][1..] == [];
    }
  }

  lemma {:induction false} ApplyAllFront(d: SadData, cs: seq<Change>)
    requires cs != []
    ensures ApplyAll(d, cs) == ApplyAll(SadApply(d, cs[0]).entry, cs[1..])
    decreases |cs|
  {
    hide SadApply;
    if |cs| > 1 {
      ApplyAllFront(d, cs[..|cs| - 1]);
      assert cs[..|cs| - 1][1..] == cs[1..][..|cs| - 2];
    } else {
      assert cs[..0] == [] && cs[1..] == [];
    }
  }

  /**
   Reading an entry gives the same result for every order of its leaves, provided each is
   acceptable and no two write the same field.
   */
  lemma ReaderOrderIndependent(d: SadData, op: Oper, entry: string, leaves: seq<Leaf>, leaves': seq<Leaf>)
    requires Unambiguous(Changes(op, entry, leaves)) && Unambiguous(Changes(op, entry, leaves'))
    requires forall c :: c in Changes(op, entry, leaves) <==> c in Changes(op, entry, leaves')
    ensures Fold(d, op, entry, leaves, SadApply) == Fold(d, op, entry, leaves', SadApply)
    ensures Fold(d, op, entry, leaves, SadApply).Next?
  {
    hide Accepted, WritesOf, Fold, ApplyAll, SadApply;
    FoldIsApplyAll(d, op, entry, leaves);
    FoldIsApplyAll(d, op, entry, leaves');
    OrderDoesNotMatter(d, Changes(op, entry, leaves), Changes(op, entry, leaves'));
  }

  function KindSegment(kind: Kind): string {
    match kind
    case Time => "/time"
    case Octets => "/bytes"
    case Packets => "/packets"
    case Idle => "/idle"
  }

  /** The last segment that selects a target; ports and keys are selected by its front. */
  function SegmentOf(t: Target): string {
    match t
    case ReqId => "/reqid"
    case Spi => "/spi"
    case ExtSeqNum => "/ext-seq-num"
    case SeqNumberCounter => "/seq-number-counter"
    case SeqOverflow => "/seq-overflow"
    case AntiReplayWindow => "/anti-replay-window"
    case LocalPrefix => "/local-prefix"
    case RemotePrefix => "/remote-prefix"
    case InnerProtocol => "/inner-protocol"
    case Ports(_, _) => "/start"
    case Mode => "/mode"
    case TunnelLocal => "/local"
    case TunnelRemote => "/remote"
    case BypassDscp => "/bypass-dscp"
    case Ecn => "/ecn"
    case DfBit => "/df-bit"
    case ProtocolParameters => "/protocol-parameters"
    case EncryptionAlgorithm => "/encryption-algorithm"
    case Iv => "/iv"
    case Key(_, _) => "/key"
    case IntegrityAlgorithm => "/integrity-algorithm"
    case Limit(kind, _) => KindSegment(kind)
    case Ignored => ""
  }

  predicate HasSegment(t: Target, name: string) {
    if t.Ports? || t.Key? || t.Ignored? then SegmentOf(t) <= name else SegmentOf(t) == name
  }

  lemma IdentityHasSegment(name: string)
    ensures HasSegment(IdentityTarget(name), name)
  {
  }

  lemma SelectorHasSegment(name: string, path: string)
    ensures HasSegment(SelectorTarget(name, path), name)
  {
    hide Contains;
  }

  lemma TunnelHasSegment(name: string)
    ensures HasSegment(TunnelTarget(name), name)
  {
  }

  lemma EspHasSegment(name: string, path: string)
    ensures HasSegment(EspTarget(name, path), name)
  {
    hide Contains;
  }

  lemma LifetimeHasSegment(name: string, path: string)
    ensures HasSegment(LifetimeTarget(name, path), name)
  {
    hide Contains;
  }

  lemma NamedHasSegment(name: string, p: string)
    ensures HasSegment(TargetNamed(name, p), name)
  {
    hide HasSegment, IdentityTarget, SelectorTarget, TunnelTarget, EspTarget, LifetimeTarget;
    IdentityHasSegment(name);
    SelectorHasSegment(name, p);
    TunnelHasSegment(name);
    EspHasSegment(name, p);
    LifetimeHasSegment(name, p);
  }

  /** The kind of target a field belongs to, up to the arguments that do not select it. */
  function OwnerOf(f: Field): Target {
    match f
    case FReqId => ReqId
    case FSpi => Spi
    case FExtSeqNum => ExtSeqNum
    case FSeqNumberCounter => SeqNumberCounter
    case FSeqOverflow => SeqOverflow
    case FAntiReplayWindow => AntiReplayWindow
    case FLocalSubnet => LocalPrefix
    case FRemoteSubnet => RemotePrefix
    case FInnerProtocol => InnerProtocol
    case FSrcPort => Ports(true, false)
    case FDstPort => Ports(false, true)
    case FMode => Mode
    case FTunnelLocal => TunnelLocal
    case FTunnelRemote => TunnelRemote
    case FBypassDscp => BypassDscp
    case FEcn => Ecn
    case FDfBit => DfBit
    case FProtocolParameters => ProtocolParameters
    case FEncryptionAlg => EncryptionAlgorithm
    case FIv => Iv
    case FEncryptionKey => Key(true, false)
    case FIntegrityKey => Key(false, true)
    case FIntegrityAlg => IntegrityAlgorithm
    case FSoft(kind) => Limit(kind, true)
    case FHard(kind) => Limit(kind, false)
  }

  lemma SharedOwner(t: Target, f: Field)
    requires f in Writes(t) && (t.Ports? || t.Key?)
    ensures if t.Ports? then OwnerOf(f).Ports? else OwnerOf(f).Key?
  {
  }

  lemma SoleOwner(t: Target, f: Field)
    requires f in Writes(t) && !t.Ports? && !t.Key?
    ensures t == OwnerOf(f)
  {
  }

  /** A field has one owner: every target that writes it is that one, or shares its front. */
  lemma OwnerWrites(t: Target, f: Field)
    requires f in Writes(t)
    ensures if t.Ports? then OwnerOf(f).Ports? else if t.Key? then OwnerOf(f).Key? else t == OwnerOf(f)
  {
    hide Writes, OwnerOf;
    if t.Ports? || t.Key? {
      SharedOwner(t, f);
    } else {
      SoleOwner(t, f);
    }
  }
}
