/**
 The kernel's database of security associations: a map that reacts to the octets of the messages
 the store has sent. An association is known by its type, its SPI and its destination. It is
 proved exactly which additions and removals keep the database the mirror of the list.
 */
module SadKernel {
  import opened Bytes
  import opened Text
  import opened Wire
  import opened Extensions
  import opened SadEntry
  import opened MessageBuffer
  import opened SaMessage
  import opened SaRoundTrip
  import opened EntryList
  import opened Demands
  import opened ChangeStream
  import opened SadReader
  import opened SadStore

  datatype SaId = SaId(satype: nat, spi: nat, destination: Quad)

  type Database = map<SaId, Association>

  ghost function KeyIn(m: seq<byte>, exts: seq<nat>): Option<SaId>
    requires WellFormed(m, exts)
  {
    var sa, dst := Body(m, exts, SADB_EXT_SA), Body(m, exts, SADB_EXT_ADDRESS_DST);
    if |sa| >= 16 && |dst| >= 24 then Some(SaId(ReadHeader(m[..16]).satype, ReadSa(sa).spi, ReadAddress(dst).quad))
    else None
  }

  /**
   The kernel's reaction to a message: SADB_ADD installs an association unless its key is taken,
   SADB_DELETE removes the association of its key. Anything else changes nothing.
   */
  ghost function KernelAfter(k: Database, m: seq<byte>): Database {
    if exts :| WellFormed(m, exts) then Reaction(k, m, exts) else k
  }

  ghost function Reaction(k: Database, m: seq<byte>, exts: seq<nat>): Database
    requires WellFormed(m, exts)
  {
    match KeyIn(m, exts)
    case None => k
    case Some(key) =>
      if ReadHeader(m[..16]).ty == SADB_ADD then
        (if key in k || !Decodable(m, exts) then k else k[key := Decode(m, exts)])
      else if ReadHeader(m[..16]).ty == SADB_DELETE then k - {key}
      else k
  }

  /** The database after all messages sent so far. */
  ghost function Kernel(sent: seq<seq<byte>>): Database {
    if sent == [] then map[] else KernelAfter(Kernel(sent[..|sent| - 1]), sent[|sent| - 1])
  }

  lemma KernelReads(k: Database, m: seq<byte>, exts: seq<nat>)
    requires WellFormed(m, exts)
    ensures KernelAfter(k, m) == Reaction(k, m, exts)
  {
    hide WellFormed, Reaction;
    forall other | WellFormed(m, other)
      ensures other == exts
    {
      TilingUnique(m, other, exts);
    }
  }

  lemma KernelAfterTwo(sent: seq<seq<byte>>, a: seq<byte>, b: seq<byte>)
    ensures Kernel(sent + [a, b]) == KernelAfter(KernelAfter(Kernel(sent), a), b)
  {
    hide KernelAfter;
    var all := sent + [a, b];
    assert all[..|all| - 1] == sent + [a];
    assert (sent + [a])[..|sent|] == sent;
  }

  // ----- what the messages of an association do

  /** The key under which SADB_ADD installs an entry. */
  function AddKey(d: SadData, host: Host): SaId
    requires Buildable(d)
  {
    SaId(Satype(d.protocolParameters), d.spi % U32, RemoteEnd(d, host).quad)
  }

  /** The key that SADB_DELETE and SADB_GET name for it. */
  function DeleteKey(d: SadData, host: Host): SaId
    requires Buildable(d)
  {
    SaId(Satype(d.protocolParameters), d.spi % U32, SubnetEnd(d.remoteSubnet, host).quad)
  }

  /** Outside tunnel mode, or with the tunnel's end as the subnet's address. */
  predicate EndsAtSubnet(d: SadData, host: Host)
    requires Buildable(d)
  {
    d.ipsecMode != IPSEC_MODE_TUNNEL || host.inet(GetIp(d.remoteSubnet).value) == host.inet(d.tunnelRemote)
  }

  lemma KeysMatchIff(d: SadData, host: Host)
    requires Buildable(d)
    ensures DeleteKey(d, host) == AddKey(d, host) <==> EndsAtSubnet(d, host)
  {
  }

  /** The octets of SADB_ADD install the entry as it is decoded, unless its key is taken. */
  lemma AddInstalls(k: Database, d: SadData, host: Host)
    requires Buildable(d)
    ensures KernelAfter(k, AddMessage(d, host)) == Record(d, host) + k
  {
    hide AddMessage, AddCuts, Body, WellFormed, Slot, SaOf, Sa2, LifetimeOf, SrcOf, DstOf, KernelAfter, RemoteEnd,
      LocalEnd, ReadHeader, ReadSa, ReadAddress, CutAddress, CutLifetime, EncryptPayload, AuthPayload, SubnetsSplit;
    var m, exts := AddMessage(d, host), AddCuts(d, host);
    AddRoundTrip(d, host);
    KernelReads(k, m, exts);
    assert KeyIn(m, exts) == Some(AddKey(d, host)) by {
      QuadOfAddress(d, RemoteEnd(d, host));
      SatypeFits(d.protocolParameters);
    }
    assert Decode(m, exts) == Cut(d, host) && Decode(m, exts).header.ty == SADB_ADD;
  }

  lemma QuadOfAddress(d: SadData, e: Endpoint)
    ensures CutAddress(d, d.dstPort, e).quad == e.quad
  {
  }

  lemma SatypeFits(p: nat)
    ensures Satype(p) % 0x100 == Satype(p)
  {
  }

  lemma NamingReads(ty: nat, d: SadData, host: Host)
    requires Buildable(d) && ty < 0x100
    ensures var m, exts := NamingMessage(ty, d, host), Starts(2, NamingExts(d, host));
            && WellFormed(m, exts) && KeyIn(m, exts) == Some(DeleteKey(d, host)) && ReadHeader(m[..16]).ty == ty
  {
    hide Header, NamingExts, Body, WellFormed, Slot, Sa, SrcOf, DstOf, SubnetEnd, RemoteEnd, Addable, Starts, Flatten,
      ReadHeader, ReadSa, ReadAddress, LocalEnd;
    var m, end := NamingMessage(ty, d, host), SubnetEnd(d.remoteSubnet, host);
    NamingIsAccepted(ty, d, host);
    SaReads(d.spi, 0, 0, 0, 0);
    AddressDecodes(d, end, end, host);
    QuadOfAddress(d, end);
    SatypeFits(d.protocolParameters);
    HeaderReads(ty, Satype(d.protocolParameters), 10, host.pid);
    assert m[..16] == Header(ty, Satype(d.protocolParameters), 10, host.pid);
  }

  /** SADB_DELETE removes what is under the key it names, SADB_GET changes nothing. */
  lemma NamingActs(k: Database, d: SadData, host: Host)
    requires Buildable(d)
    ensures KernelAfter(k, NamingMessage(SADB_DELETE, d, host)) == k - {DeleteKey(d, host)}
    ensures KernelAfter(k, NamingMessage(SADB_GET, d, host)) == k
  {
    hide NamingMessage, NamingExts, WellFormed, KernelAfter, KeyIn, ReadHeader, Starts, DeleteKey, Buildable;
    BuildableSplits(d);
    var exts := Starts(2, NamingExts(d, host));
    NamingReads(SADB_DELETE, d, host);
    NamingReads(SADB_GET, d, host);
    KernelReads(k, NamingMessage(SADB_DELETE, d, host), exts);
    KernelReads(k, NamingMessage(SADB_GET, d, host), exts);
  }

  lemma BuildableSplits(d: SadData)
    requires Buildable(d)
    ensures SubnetsSplit(d) && Addable(d)
  {
  }

  // ----- the mirror

  /** What an entry demands of the kernel. */
  ghost function Record(d: SadData, host: Host): Database
    requires Buildable(d)
  {
    map[AddKey(d, host) := Cut(d, host)]
  }

  ghost function Wants(s: SadSeq, host: Host): (ws: seq<Database>)
    requires AllBuildable(s)
    ensures |ws| == |s| && forall i | 0 <= i < |s| :: ws[i] == Record(s[i].data, host)
  {
    seq(|s|, i requires 0 <= i < |s| => Record(s[i].data, host))
  }

  /** The kernel holds exactly the associations of the list, as the list has them. */
  ghost predicate Mirror(st: State, host: Host) {
    AllBuildable(st.list) && InStep(Kernel(st.sent), Wants(st.list, host))
  }

  datatype Op = Add(name: string, data: SadData) | Remove(name: string)

  /** What the source needs of an operation. */
  predicate Sendable(op: Op) {
    op.Add? ==> Buildable(op.data)
  }

  function Step(st: State, op: Op, host: Host): State {
    match op
    case Add(name, d) => Added(st, name, d, host)
    case Remove(name) => Removed(st, name, host)
  }

  /** Some other entry has the key. */
  ghost predicate KeyBeside(s: SadSeq, i: nat, key: SaId, host: Host)
    requires AllBuildable(s)
  {
    exists j :: 0 <= j < |s| && j != i && AddKey(s[j].data, host) == key
  }

  /**
   Removing entry i takes the right association away: it names its own key, which no other entry
   has; or it names a key no entry has, and its own must stay for another entry.
   */
  ghost predicate RemovesRight(s: SadSeq, i: nat, host: Host)
    requires AllBuildable(s) && i < |s|
  {
    var d := s[i].data;
    if EndsAtSubnet(d, host) then !KeyBeside(s, i, AddKey(d, host), host)
    else KeyBeside(s, i, AddKey(d, host), host) && !KeyBeside(s, i, DeleteKey(d, host), host)
  }

  ghost predicate Harmless(st: State, op: Op, host: Host)
    requires AllBuildable(st.list) && Sendable(op)
  {
    match op
    case Add(_, d) => Agrees(Kernel(st.sent), Record(d, host))
    case Remove(name) => var i := IndexOf(st.list, name); i == |st.list| || RemovesRight(st.list, i, host)
  }

  lemma WantsAppend(s: SadSeq, e: Entry<SadData>, host: Host)
    requires AllBuildable(s) && Buildable(e.data)
    ensures AllBuildable(s + [e]) && Wants(s + [e], host) == Wants(s, host) + [Record(e.data, host)]
  {
    hide Record, Buildable;
  }

  lemma WantsRemove(s: SadSeq, i: nat, host: Host)
    requires AllBuildable(s) && i < |s|
    ensures AllBuildable(RemoveAt(s, i)) && Wants(RemoveAt(s, i), host) == RemoveAt(Wants(s, host), i)
  {
    hide Record, Buildable;
    RemoveAtElements(s, i);
  }

  lemma BesideIff(s: SadSeq, i: nat, key: SaId, host: Host)
    requires AllBuildable(s)
    ensures DemandedBeside(Wants(s, host), i, key) <==> KeyBeside(s, i, key, host)
  {
    hide Buildable, AddKey, Cut;
    var ws := Wants(s, host);
    if j :| 0 <= j < |s| && j != i && AddKey(s[j].data, host) == key {
      assert key in ws[j];
    }
  }

  lemma TakesRightIff(s: SadSeq, i: nat, host: Host)
    requires AllBuildable(s) && i < |s|
    ensures TakesExactly(Wants(s, host), i, {DeleteKey(s[i].data, host)}) <==> RemovesRight(s, i, host)
  {
    hide Buildable, AddKey, DeleteKey, Cut, KeyBeside, DemandedBeside, EndsAtSubnet;
    var ws, d := Wants(s, host), s[i].data;
    var own, named := AddKey(d, host), DeleteKey(d, host);
    KeysMatchIff(d, host);
    BesideIff(s, i, own, host);
    BesideIff(s, i, named, host);
    assert own in ws[i];
    if TakesExactly(ws, i, {named}) {
      assert own in {named} <==> !DemandedBeside(ws, i, own);
      NamedByNone(ws, i, own, named);
    }
    if RemovesRight(s, i, host) {
      forall j, x | 0 <= j < |ws| && x in ws[j]
        ensures x in {named} <==> !DemandedBeside(ws, i, x)
      {
        DemandIsBeside(ws, i, j, x);
        assert j == i ==> x == own;
      }
    }
  }

  lemma DemandIsBeside(ws: seq<Database>, i: nat, j: nat, x: SaId)
    requires j < |ws| && x in ws[j]
    ensures j != i ==> DemandedBeside(ws, i, x)
  {
  }

  lemma NamedByNone(ws: seq<Database>, i: nat, own: SaId, named: SaId)
    requires i < |ws| && own in ws[i] && TakesExactly(ws, i, {named})
    ensures own != named ==> !DemandedBeside(ws, i, named)
  {
    if j :| 0 <= j < |ws| && j != i && named in ws[j] {
      assert named in {named};
    }
  }

  /** An operation keeps the kernel the mirror of the list if and only if it is harmless. */
  lemma StepMirrorIff(st: State, op: Op, host: Host)
    requires Sendable(op) && Mirror(st, host)
    ensures Mirror(Step(st, op, host), host) <==> Harmless(st, op, host)
  {
    hide Addable, SubnetsSplit, Record, KernelAfter, Kernel, AddMessage, NamingMessage, InStep, Agrees, RemovesRight,
      RemoveAt, TakesExactly, DeleteKey;
    if op.Add? {
      var d, k := op.data, Kernel(st.sent);
      KernelAfterTwo(st.sent, AddMessage(d, host), NamingMessage(SADB_GET, d, host));
      AddInstalls(k, d, host);
      NamingActs(Record(d, host) + k, d, host);
      WantsAppend(st.list, Entry(op.name, d), host);
      AppendIff(k, Wants(st.list, host), Record(d, host));
    } else if IndexOf(st.list, op.name) < |st.list| {
      RemoveMirrorIff(st, op.name, host);
    }
  }

  lemma RemoveMirrorIff(st: State, name: string, host: Host)
    requires Mirror(st, host) && IndexOf(st.list, name) < |st.list|
    ensures Mirror(Removed(st, name, host), host) <==> RemovesRight(st.list, IndexOf(st.list, name), host)
  {
    hide Addable, SubnetsSplit, Record, KernelAfter, Kernel, NamingMessage, InStep, RemovesRight, RemoveAt,
      TakesExactly, DeleteKey;
    var i, k := IndexOf(st.list, name), Kernel(st.sent);
    var d := st.list[i].data;
    assert Buildable(d);
    KernelAfterTwo(st.sent, NamingMessage(SADB_GET, d, host), NamingMessage(SADB_DELETE, d, host));
    NamingActs(k, d, host);
    WantsRemove(st.list, i, host);
    RemoveIff(k, Wants(st.list, host), i, {DeleteKey(d, host)});
    TakesRightIff(st.list, i, host);
  }

  // ----- associations with keys of their own

  /** The kernel mirrors the list, and no two entries have one key. */
  ghost predicate Sound(st: State, host: Host) {
    Mirror(st, host) && Apart(Wants(st.list, host))
  }

  /** A new entry has a key that nothing has; an entry to be removed ends at its subnet. */
  ghost predicate Orderly(st: State, op: Op, host: Host)
    requires AllBuildable(st.list) && Sendable(op)
  {
    match op
    case Add(_, d) => AddKey(d, host) !in Kernel(st.sent)
    case Remove(name) => var i := IndexOf(st.list, name); i == |st.list| || EndsAtSubnet(st.list[i].data, host)
  }

  lemma SoundMirrors(st: State, host: Host)
    requires Sound(st, host)
    ensures Mirror(st, host) && AllBuildable(st.list)
  {
  }

  lemma OwnKeyIsNotBeside(s: SadSeq, i: nat, host: Host)
    requires AllBuildable(s) && i < |s| && Apart(Wants(s, host))
    ensures !KeyBeside(s, i, AddKey(s[i].data, host), host)
  {
    hide Buildable, AddKey, Cut;
    var ws, key := Wants(s, host), AddKey(s[i].data, host);
    assert key in ws[i];
    forall j | 0 <= j < |s| && j != i
      ensures AddKey(s[j].data, host) != key
    {
      assert AddKey(s[j].data, host) in ws[j];
      assert ws[if i < j then i else j].Keys !! ws[if i < j then j else i].Keys;
    }
  }

  lemma RemovalStaysApart(s: SadSeq, i: nat, host: Host)
    requires AllBuildable(s) && i < |s| && Apart(Wants(s, host))
    ensures AllBuildable(RemoveAt(s, i)) && Apart(Wants(RemoveAt(s, i), host))
  {
    hide Buildable, Record;
    WantsRemove(s, i, host);
    ApartWithout(Wants(s, host), i);
  }

  lemma AppendStaysApartIff(st: State, name: string, d: SadData, host: Host)
    requires Sound(st, host) && Buildable(d)
    ensures AllBuildable(st.list + [Entry(name, d)])
    ensures Apart(Wants(st.list + [Entry(name, d)], host)) <==> AddKey(d, host) !in Kernel(st.sent)
    ensures AddKey(d, host) !in Kernel(st.sent) ==> Agrees(Kernel(st.sent), Record(d, host))
  {
    hide Buildable, AddKey, Cut, InStep, Kernel;
    WantsAppend(st.list, Entry(name, d), host);
    ApartAppendIff(Kernel(st.sent), Wants(st.list, host), Record(d, host));
  }

  /** From such a mirror an operation leads to such a mirror exactly when it is orderly. */
  lemma StepSoundIff(st: State, op: Op, host: Host)
    requires Sendable(op) && Sound(st, host)
    ensures Sound(Step(st, op, host), host) <==> Orderly(st, op, host)
  {
    hide Addable, SubnetsSplit, Record, Kernel, AddMessage, NamingMessage, Agrees, RemoveAt, EndsAtSubnet, Mirror,
      Apart, KeyBeside, DeleteKey, AddKey;
    SoundMirrors(st, host);
    StepMirrorIff(st, op, host);
    if op.Add? {
      AppendStaysApartIff(st, op.name, op.data, host);
    } else if IndexOf(st.list, op.name) < |st.list| {
      RemovalStaysApart(st.list, IndexOf(st.list, op.name), host);
      OwnKeyIsNotBeside(st.list, IndexOf(st.list, op.name), host);
    }
  }

  /** Otherwise the kernel keeps what the list no longer has: a tunnel whose end is not in its subnet's text. */
  lemma TunnelIsNotRemoved(name: string, d: SadData, host: Host)
    requires Buildable(d) && !EndsAtSubnet(d, host)
    ensures var st := Removed(Added(State([], []), name, d, host), name, host);
            st.list == [] && Kernel(st.sent) == Record(d, host)
  {
    hide Addable, SubnetsSplit, Record, KernelAfter, Kernel, AddMessage, NamingMessage, DeleteKey, AddKey,
      EndsAtSubnet;
    var add, get, del := AddMessage(d, host), NamingMessage(SADB_GET, d, host), NamingMessage(SADB_DELETE, d, host);
    assert IndexOf([Entry(name, d)], name) == 0;
    KernelAfterTwo([], add, get);
    KernelAfterTwo([add, get], get, del);
    AddInstalls(map[], d, host);
    NamingActs(Record(d, host), d, host);
    KeysMatchIff(d, host);
    assert [] + [add, get] == [add, get] && [add, get] + [get, del] == [add, get, get, del];
    EmptyKernel();
    RecordKeeps(d, host, DeleteKey(d, host));
  }

  lemma EmptyKernel()
    ensures Kernel([]) == map[]
  {
  }

  lemma RecordKeeps(d: SadData, host: Host, key: SaId)
    requires Buildable(d) && key != AddKey(d, host)
    ensures Record(d, host) - {key} == Record(d, host) && Record(d, host) + map[] == Record(d, host)
  {
    hide Buildable, AddKey, Cut;
  }

  // ----- whole runs

  predicate AllSendable(ops: seq<Op>) {
    forall i | 0 <= i < |ops| :: Sendable(ops[i])
  }

  lemma StepKeepsBuildable(st: State, op: Op, host: Host)
    requires AllBuildable(st.list) && Sendable(op)
    ensures AllBuildable(Step(st, op, host).list)
  {
    hide AddMessage, NamingMessage, Addable, SubnetsSplit, IndexOf, RemoveAt;
    if op.Remove? && IndexOf(st.list, op.name) < |st.list| {
      RemoveAtElements(st.list, IndexOf(st.list, op.name));
    }
  }

  function RunFrom(st: State, ops: seq<Op>, host: Host): (r: State)
    requires AllBuildable(st.list) && AllSendable(ops)
    ensures AllBuildable(r.list)
  {
    if ops == [] then st
    else
      StepKeepsBuildable(st, ops[|ops| - 1], host);
      var before := RunFrom(st, ops[..|ops| - 1], host);
      StepKeepsBuildable(before, ops[|ops| - 1], host);
      Step(before, ops[|ops| - 1], host)
  }

  lemma RunUnfolds(st: State, ops: seq<Op>, i: nat, host: Host)
    requires AllBuildable(st.list) && AllSendable(ops) && i < |ops|
    ensures RunFrom(st, ops[..i + 1], host) == Step(RunFrom(st, ops[..i], host), ops[i], host)
  {
    hide Step, Sendable;
    assert ops[..i + 1][..i] == ops[..i];
  }

  ghost predicate MirrorThroughout(st: State, ops: seq<Op>, host: Host)
    requires AllBuildable(st.list) && AllSendable(ops)
  {
    forall i | 0 <= i <= |ops| :: Mirror(RunFrom(st, ops[..i], host), host)
  }

  ghost predicate HarmlessRun(st: State, ops: seq<Op>, host: Host)
    requires AllBuildable(st.list) && AllSendable(ops)
  {
    forall i | 0 <= i < |ops| :: Harmless(RunFrom(st, ops[..i], host), ops[i], host)
  }

  /** The kernel mirrors the list at every point of a run if and only if every operation is harmless. */
  lemma MirrorThroughoutIff(st: State, ops: seq<Op>, host: Host)
    requires AllSendable(ops) && Mirror(st, host)
    ensures MirrorThroughout(st, ops, host) <==> HarmlessRun(st, ops, host)
  {
    hide Mirror, Harmless, Sendable, Step, RunFrom, AllBuildable;
    MirrorBuilds(st, host);
    forall i | 0 <= i < |ops|
      ensures Mirror(RunFrom(st, ops[..i], host), host) ==>
                (Mirror(RunFrom(st, ops[..i + 1], host), host)
                 <==> Harmless(RunFrom(st, ops[..i], host), ops[i], host))
    {
      RunUnfolds(st, ops, i, host);
      if Mirror(RunFrom(st, ops[..i], host), host) {
        StepMirrorIff(RunFrom(st, ops[..i], host), ops[i], host);
      }
    }
    if HarmlessRun(st, ops, host) {
      HarmlessKeepsMirror(st, ops, |ops|, host);
    }
    if MirrorThroughout(st, ops, host) {
      forall i | 0 <= i < |ops|
        ensures Harmless(RunFrom(st, ops[..i], host), ops[i], host)
      {
        assert Mirror(RunFrom(st, ops[..i], host), host) && Mirror(RunFrom(st, ops[..i + 1], host), host);
      }
    }
  }

  lemma MirrorBuilds(st: State, host: Host)
    requires Mirror(st, host)
    ensures AllBuildable(st.list)
  {
  }

  lemma {:induction false} HarmlessKeepsMirror(st: State, ops: seq<Op>, n: nat, host: Host)
    requires AllBuildable(st.list) && AllSendable(ops) && Mirror(st, host) && HarmlessRun(st, ops, host) && n <= |ops|
    ensures forall i | 0 <= i <= n :: Mirror(RunFrom(st, ops[..i], host), host)
  {
    hide Mirror, Harmless, Sendable, Step, AllBuildable;
    if n == 0 {
      assert ops[..0] == [];
    } else {
      HarmlessKeepsMirror(st, ops, n - 1, host);
      RunUnfolds(st, ops, n - 1, host);
      StepMirrorIff(RunFrom(st, ops[..n - 1], host), ops[n - 1], host);
    }
  }

  ghost predicate SoundThroughout(st: State, ops: seq<Op>, host: Host)
    requires AllBuildable(st.list) && AllSendable(ops)
  {
    forall i | 0 <= i <= |ops| :: Sound(RunFrom(st, ops[..i], host), host)
  }

  ghost predicate OrderlyRun(st: State, ops: seq<Op>, host: Host)
    requires AllBuildable(st.list) && AllSendable(ops)
  {
    forall i | 0 <= i < |ops| :: Orderly(RunFrom(st, ops[..i], host), ops[i], host)
  }

  /**
   The kernel mirrors the list, with no key twice, at every point of a run if and only if every
   addition brings a new key and no association in tunnel mode is removed whose remote subnet is
   not the tunnel's end.
   */
  lemma SoundThroughoutIff(st: State, ops: seq<Op>, host: Host)
    requires AllSendable(ops) && Sound(st, host)
    ensures SoundThroughout(st, ops, host) <==> OrderlyRun(st, ops, host)
  {
    hide Sound, Orderly, Sendable, Step, RunFrom, AllBuildable;
    SoundMirrors(st, host);
    forall i | 0 <= i < |ops|
      ensures Sound(RunFrom(st, ops[..i], host), host) ==>
                (Sound(RunFrom(st, ops[..i + 1], host), host) <==> Orderly(RunFrom(st, ops[..i], host), ops[i], host))
    {
      RunUnfolds(st, ops, i, host);
      if Sound(RunFrom(st, ops[..i], host), host) {
        StepSoundIff(RunFrom(st, ops[..i], host), ops[i], host);
      }
    }
    if OrderlyRun(st, ops, host) {
      OrderlyKeepsSound(st, ops, |ops|, host);
    }
    if SoundThroughout(st, ops, host) {
      forall i | 0 <= i < |ops|
        ensures Orderly(RunFrom(st, ops[..i], host), ops[i], host)
      {
        assert Sound(RunFrom(st, ops[..i], host), host) && Sound(RunFrom(st, ops[..i + 1], host), host);
      }
    }
  }

  lemma {:induction false} OrderlyKeepsSound(st: State, ops: seq<Op>, n: nat, host: Host)
    requires AllBuildable(st.list) && AllSendable(ops) && Sound(st, host) && OrderlyRun(st, ops, host) && n <= |ops|
    ensures forall i | 0 <= i <= n :: Sound(RunFrom(st, ops[..i], host), host)
  {
    hide Sound, Orderly, Sendable, Step, AllBuildable;
    if n == 0 {
      assert ops[..0] == [];
    } else {
      OrderlyKeepsSound(st, ops, n - 1, host);
      RunUnfolds(st, ops, n - 1, host);
      StepSoundIff(RunFrom(st, ops[..n - 1], host), ops[n - 1], host);
    }
  }

  // ----- transactions are runs

  ghost function OpOf(path: string, x: Block): Op {
    if x.created then Add(x.name, Built(path, x)) else Remove(x.name)
  }

  ghost function OpsOf(path: string, blocks: seq<Block>): (ops: seq<Op>)
    ensures |ops| == |blocks| && forall i | 0 <= i < |ops| :: ops[i] == OpOf(path, blocks[i])
  {
    seq(|blocks|, i requires 0 <= i < |blocks| => OpOf(path, blocks[i]))
  }

  lemma {:induction false} RunFront(st: State, op: Op, ops: seq<Op>, host: Host)
    requires AllBuildable(st.list) && Sendable(op) && AllSendable(ops)
    ensures AllSendable([op] + ops) && AllBuildable(Step(st, op, host).list)
    ensures RunFrom(st, [op] + ops, host) == RunFrom(Step(st, op, host), ops, host)
    decreases |ops|
  {
    hide Step, Sendable;
    StepKeepsBuildable(st, op, host);
    var all, n := [op] + ops, |ops|;
    if n == 0 {
      assert all[..0] == [] && all == [op];
    } else {
      RunFront(st, op, ops[..n - 1], host);
      assert all[..n] == [op] + ops[..n - 1] && all[n] == ops[n - 1];
    }
  }

  lemma {:induction false} BlocksAreRun(path: string, blocks: seq<Block>, st: State, host: Host) returns (n: nat)
    requires AllBuildable(st.list) && !RunBlocks(path, blocks, st, SadBackend(host)).Crashed?
    ensures n <= |blocks| && AllSendable(OpsOf(path, blocks)[..n])
    ensures var r := RunBlocks(path, blocks, st, SadBackend(host));
            r == if n == |blocks| then Done(RunFrom(st, OpsOf(path, blocks)[..n], host))
                 else Failed(RunFrom(st, OpsOf(path, blocks)[..n], host))
    decreases |blocks|
  {
    hide Step, Sendable, Built, Buildable, RunBlocks, SadBackend;
    n := 0;
    if blocks == [] {
      NothingToRun(path, st, SadBackend(host));
      return;
    }
    var op, ops, rest := OpOf(path, blocks[0]), OpsOf(path, blocks), blocks[1..];
    BlockRuns(path, blocks, st, host);
    if !blocks[0].created && IndexOf(st.list, blocks[0].name) == |st.list| {
      return;
    }
    StepKeepsBuildable(st, op, host);
    n := BlocksAreRun(path, rest, Step(st, op, host), host);
    RunFront(st, op, OpsOf(path, rest)[..n], host);
    assert ops[..n + 1] == [op] + OpsOf(path, rest)[..n];
    n := n + 1;
  }

  lemma BlockRuns(path: string, blocks: seq<Block>, st: State, host: Host)
    requires blocks != [] && AllBuildable(st.list) && !RunBlocks(path, blocks, st, SadBackend(host)).Crashed?
    ensures var op, b := OpOf(path, blocks[0]), SadBackend(host);
            if op.Remove? && IndexOf(st.list, op.name) == |st.list| then RunBlocks(path, blocks, st, b) == Failed(st)
            else
              && Sendable(op)
              && RunBlocks(path, blocks, st, b) == RunBlocks(path, blocks[1..], Step(st, op, host), b)
  {
    hide Fold, Buildable, Added, Removed, EntryPath, IndexOf;
  }

  /**
   What the callback does over a transaction of whole entries is a run: of all its operations, or,
   when it fails on an unknown name, of those in front of that.
   */
  lemma TransactionIsRun(path: string, blocks: seq<Block>, st: State, host: Host) returns (n: nat)
    requires WellSequenced(blocks) && AllBuildable(st.list)
    requires !Drive(Stream(path, blocks), st, SadBackend(host)).Crashed?
    ensures n <= |blocks| && AllSendable(OpsOf(path, blocks)[..n])
    ensures Drive(Stream(path, blocks), st, SadBackend(host)) ==
            if n == |blocks| then Done(RunFrom(st, OpsOf(path, blocks)[..n], host))
            else Failed(RunFrom(st, OpsOf(path, blocks)[..n], host))
  {
    hide Drive, Stream, WellSequenced, RunBlocks, SadBackend, OpsOf, AllSendable;
    DriverRunsBlocks(path, blocks, st, SadBackend(host));
    n := BlocksAreRun(path, blocks, st, host);
  }
}
