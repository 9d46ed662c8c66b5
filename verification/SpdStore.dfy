/**
 The policy list and the kernel's policy database. The kernel is a map that reacts to the
 octets of the messages sent to it. It mirrors the list when it holds one rule for each entry in
 its own direction, a FORWARD rule beside each inbound one, and nothing else; it is proved exactly
 which additions and removals keep it so.
 */
module SpdStore {
  import opened Bytes
  import opened Text
  import opened Wire
  import opened Extensions
  import opened SpdEntry
  import opened MessageBuffer
  import opened Walks
  import opened PolicyMessage
  import opened EntryList
  import opened Demands

  // ----- the kernel

  /** What a policy does to traffic: its action, and the request nested in it. */
  datatype Rule = Rule(action: nat, request: seq<byte>)

  type Database = map<Selector, Rule>

  function RuleOf(d: SpdData, host: Host): Rule {
    Rule(d.action % 0x1_0000, Request(d, host))
  }

  ghost function RuleIn(m: seq<byte>, exts: seq<nat>): Rule
    requires WellFormed(m, exts)
  {
    var p := Body(m, exts, SADB_X_EXT_POLICY);
    if |p| >= 16 then Rule(ReadPolicy(p).ty, p[16..]) else Rule(0, [])
  }

  /**
   The kernel's reaction to a message: SADB_X_SPDADD installs a rule unless its selector is
   taken, SADB_X_SPDDELETE removes the rule of its selector. Anything else is ignored.
   */
  ghost function KernelAfter(k: Database, m: seq<byte>): Database {
    if exts :| WellFormed(m, exts) then
      (match SelectorIn(m, exts)
       case None => k
       case Some(s) =>
         if ReadHeader(m[..16]).ty == SADB_X_SPDADD then (if s in k then k else k[s := RuleIn(m, exts)])
         else if ReadHeader(m[..16]).ty == SADB_X_SPDDELETE then k - {s}
         else k)
    else k
  }

  ghost function Installed(k: Database, d: SpdData, host: Host): Database
    requires PolicySplits(d)
  {
    var s := SelectorOf(d, host);
    if s in k then k else k[s := RuleOf(d, host)]
  }

  lemma KernelReads(k: Database, m: seq<byte>, exts: seq<nat>)
    requires WellFormed(m, exts)
    ensures KernelAfter(k, m) ==
            (match SelectorIn(m, exts)
             case None => k
             case Some(s) =>
               if ReadHeader(m[..16]).ty == SADB_X_SPDADD then (if s in k then k else k[s := RuleIn(m, exts)])
               else if ReadHeader(m[..16]).ty == SADB_X_SPDDELETE then k - {s}
               else k)
  {
    hide WellFormed, SelectorIn, RuleIn, ReadHeader;
    forall other | WellFormed(m, other)
      ensures other == exts
    {
      TilingUnique(m, other, exts);
    }
  }

  lemma MessageType(ty: nat, satype: nat, words: nat, pid: nat, body: seq<byte>)
    requires ty < 0x100
    ensures ReadHeader((Header(ty, satype, words, pid) + body)[..16]).ty == ty
  {
    hide Header, ReadHeader;
    HeaderReads(ty, satype, words, pid);
    assert (Header(ty, satype, words, pid) + body)[..16] == Header(ty, satype, words, pid);
  }

  /** The octets `pf_addpolicy` sends install the entry's rule under the entry's selector. */
  lemma AddMessageInstalls(k: Database, d: SpdData, host: Host)
    requires PolicySplits(d)
    ensures KernelAfter(k, AddPolicyMessage(d, host)) == Installed(k, d, host)
  {
    hide Header, ReadHeader, WellFormed, SelectorIn, Body, SelectorOf, Request, PolicyHeader, ReadPolicy, KernelAfter,
      AddPolicyCuts, AddPolicyExts, Flatten;
    var m, exts := AddPolicyMessage(d, host), AddPolicyCuts(d, host);
    AddPolicyAccepted(d, host);
    MessagesNameTheSelector(d, host);
    KernelReads(k, m, exts);
    MessageType(SADB_X_SPDADD, Satype(d.protocolParameters), 8 + PolicyWords(d), host.pid,
                Flatten(AddPolicyExts(d, host)));
    PolicyReads(PolicyWords(d), d.action, d.policyDir, Wrap(d.index, 4), Request(d, host));
    assert AddPolicyExt(d, host)[16..] == Request(d, host);
  }

  /** The octets `pf_delpolicy` sends remove the rule under the entry's selector. */
  lemma DelMessageRemoves(k: Database, d: SpdData, host: Host)
    requires PolicySplits(d)
    ensures KernelAfter(k, DelPolicyMessage(d, host)) == k - {SelectorOf(d, host)}
  {
    hide Header, ReadHeader, WellFormed, SelectorIn, RuleIn, Body, SelectorOf, KernelAfter, DelPolicyCuts,
      DelPolicyExts, Flatten;
    MessagesNameTheSelector(d, host);
    KernelReads(k, DelPolicyMessage(d, host), DelPolicyCuts(d, host));
    MessageType(SADB_X_SPDDELETE, Satype(d.protocolParameters), 10, 0, Flatten(DelPolicyExts(d, host)));
  }

  // ----- the image of the list

  type SpdSeq = seq<Entry<SpdData>>

  function Forward(d: SpdData): SpdData {
    d.(policyDir := IPSEC_DIR_FORWARD)
  }

  /** A configured entry: splittable subnets, and a direction the reader can set. */
  predicate Configured(d: SpdData) {
    PolicySplits(d) && (d.policyDir == IPSEC_DIR_INBOUND || d.policyDir == IPSEC_DIR_OUTBOUND)
  }

  function Rules(d: SpdData, host: Host): (r: Database)
    requires PolicySplits(d)
  {
    if d.policyDir == IPSEC_DIR_INBOUND then
      map[SelectorOf(d, host) := RuleOf(d, host), SelectorOf(Forward(d), host) := RuleOf(Forward(d), host)]
    else map[SelectorOf(d, host) := RuleOf(d, host)]
  }

  /** What the source needs of its entries to build their messages. */
  predicate AllSplit(s: SpdSeq) {
    forall i | 0 <= i < |s| :: PolicySplits(s[i].data)
  }

  predicate AllConfigured(s: SpdSeq) {
    forall i | 0 <= i < |s| :: Configured(s[i].data)
  }

  /** The rules each entry asks for. */
  ghost function Wants(s: SpdSeq, host: Host): (ws: seq<Database>)
    requires AllSplit(s)
    ensures |ws| == |s| && forall i | 0 <= i < |s| :: ws[i] == Rules(s[i].data, host)
  {
    seq(|s|, i requires 0 <= i < |s| => Rules(s[i].data, host))
  }

  /** No two entries share a selector, FORWARD companions included. */
  ghost predicate Separate(s: SpdSeq, host: Host)
    requires AllSplit(s)
  {
    Apart(Wants(s, host))
  }

  lemma WantsAppend(s: SpdSeq, e: Entry<SpdData>, host: Host)
    requires AllSplit(s) && PolicySplits(e.data)
    ensures AllSplit(s + [e]) && Wants(s + [e], host) == Wants(s, host) + [Rules(e.data, host)]
  {
    hide Rules, PolicySplits;
  }

  lemma WantsRemove(s: SpdSeq, i: nat, host: Host)
    requires AllSplit(s) && i < |s|
    ensures AllSplit(RemoveAt(s, i)) && Wants(RemoveAt(s, i), host) == RemoveAt(Wants(s, host), i)
  {
    hide Rules, PolicySplits;
    RemoveAtElements(s, i);
  }

  function Image(s: SpdSeq, host: Host): Database
    requires AllSplit(s)
  {
    if s == [] then map[] else Image(s[..|s| - 1], host) + Rules(s[|s| - 1].data, host)
  }

  function CountDir(s: SpdSeq, dir: nat): nat {
    if s == [] then 0 else CountDir(s[..|s| - 1], dir) + (if s[|s| - 1].data.policyDir == dir then 1 else 0)
  }

  lemma {:induction false} ImageKeys(s: SpdSeq, host: Host, sel: Selector)
    requires AllSplit(s)
    ensures sel in Image(s, host) <==> exists i :: 0 <= i < |s| && sel in Rules(s[i].data, host)
  {
    hide Rules, PolicySplits;
    if s != [] {
      var t := s[..|s| - 1];
      ImageKeys(t, host, sel);
      if i :| 0 <= i < |t| && sel in Rules(t[i].data, host) {
        assert s[i] == t[i];
      }
      if i :| 0 <= i < |s| && sel in Rules(s[i].data, host) {
        assert i < |t| ==> t[i] == s[i];
      }
    }
  }

  lemma {:induction false} IncludesImage(k: Database, s: SpdSeq, host: Host)
    requires AllSplit(s) && forall i | 0 <= i < |s| :: Includes(k, Rules(s[i].data, host))
    ensures Includes(k, Image(s, host))
  {
    hide Rules, PolicySplits;
    if s != [] {
      var t := s[..|s| - 1];
      assert forall i | 0 <= i < |t| :: t[i] == s[i];
      IncludesImage(k, t, host);
    }
  }

  /** The database in step is the image, if each entry has its rules as it asks for them in the image. */
  lemma ImageIff(k: Database, s: SpdSeq, host: Host)
    requires AllSplit(s)
    ensures InStep(k, Wants(s, host)) <==>
              k == Image(s, host) && forall i | 0 <= i < |s| :: Includes(k, Rules(s[i].data, host))
  {
    hide Rules, PolicySplits, Includes;
    forall sel
      ensures sel in Image(s, host) <==> Demanded(Wants(s, host), sel)
    {
      ImageKeys(s, host, sel);
    }
    if InStep(k, Wants(s, host)) {
      forall i | 0 <= i < |s|
        ensures Includes(k, Rules(s[i].data, host))
      {
        assert Wants(s, host)[i] == Rules(s[i].data, host);
      }
      IncludesImage(k, s, host);
      SameRules(k, Image(s, host));
    }
  }

  lemma SameRules(k: Database, image: Database)
    requires Includes(k, image)
    ensures (forall sel | sel in k :: sel in image) ==> k == image
  {
  }

  lemma RulesSize(d: SpdData, host: Host)
    requires PolicySplits(d)
    ensures |Rules(d, host)| == if d.policyDir == IPSEC_DIR_INBOUND then 2 else 1
  {
    var a, b := SelectorOf(d, host), SelectorOf(Forward(d), host);
    if d.policyDir == IPSEC_DIR_INBOUND {
      assert a.dir != b.dir;
      assert Rules(d, host).Keys == {a, b};
    } else {
      assert Rules(d, host).Keys == {a};
    }
  }

  lemma {:induction false} WantsTotal(s: SpdSeq, host: Host)
    requires AllSplit(s)
    ensures Total(Wants(s, host)) == |s| + CountDir(s, IPSEC_DIR_INBOUND)
  {
    hide Rules, PolicySplits;
    if s != [] {
      var t, last := s[..|s| - 1], s[|s| - 1];
      WantsTotal(t, host);
      RulesSize(last.data, host);
      assert Wants(s, host)[..|t|] == Wants(t, host);
    }
  }

  lemma {:induction false} DirectionsAddUp(s: SpdSeq)
    requires AllConfigured(s)
    ensures |s| == CountDir(s, IPSEC_DIR_OUTBOUND) + CountDir(s, IPSEC_DIR_INBOUND)
  {
    hide PolicySplits;
    if s != [] {
      DirectionsAddUp(s[..|s| - 1]);
    }
  }

  // ----- one operation

  datatype State = State(list: SpdSeq, kernel: Database)

  /** `id` and `forwardId` are what the dump loops find after each SADB_X_SPDADD, if anything. */
  datatype Op =
    | Add(name: string, data: SpdData, id: Option<int>, forwardId: Option<int>)
    | Remove(name: string)

  function Indexed(d: SpdData, id: Option<int>): SpdData {
    if id.Some? then d.(index := id.value) else d
  }

  /** The index an addition leaves behind: what the last successful dump loop found. */
  function FinalIndex(op: Op): int
    requires op.Add?
  {
    if op.data.policyDir == IPSEC_DIR_INBOUND && op.forwardId.Some? then op.forwardId.value
    else if op.id.Some? then op.id.value
    else op.data.index
  }

  function Final(op: Op): SpdData
    requires op.Add?
  {
    op.data.(index := FinalIndex(op))
  }

  /** The database after the one or two messages of an addition. */
  ghost function AfterAdd(k: Database, d: SpdData, id: Option<int>, host: Host): Database
    requires PolicySplits(d)
  {
    var one := KernelAfter(k, AddPolicyMessage(d, host));
    if d.policyDir == IPSEC_DIR_INBOUND then KernelAfter(one, AddPolicyMessage(Forward(Indexed(d, id)), host)) else one
  }

  /** The database after the one or two messages of a removal. */
  ghost function AfterRemove(k: Database, d: SpdData, host: Host): Database
    requires PolicySplits(d)
  {
    var one := KernelAfter(k, DelPolicyMessage(d, host));
    if d.policyDir == IPSEC_DIR_INBOUND then KernelAfter(one, DelPolicyMessage(Forward(d), host)) else one
  }

  ghost function Step(st: State, op: Op, host: Host): State
    requires AllSplit(st.list) && (op.Add? ==> PolicySplits(op.data))
  {
    match op
    case Add(name, d, id, forwardId) =>
      if Has(st.list, name) then st
      else State(st.list + [Entry(name, Final(op))], AfterAdd(st.kernel, d, id, host))
    case Remove(name) =>
      if IndexOf(st.list, name) == |st.list| then st
      else State(RemoveFirst(st.list, name), AfterRemove(st.kernel, st.list[IndexOf(st.list, name)].data, host))
  }

  /** Names are unique, and the kernel holds exactly the rules that entries ask for, as they ask for them. */
  ghost predicate Mirror(st: State, host: Host) {
    AllSplit(st.list) && UniqueNames(st.list) && InStep(st.kernel, Wants(st.list, host))
  }

  /** What the source needs of an operation. */
  predicate Sendable(op: Op) {
    op.Add? ==> PolicySplits(op.data)
  }

  /** No other entry asks for a selector of entry i. */
  ghost predicate SoleOwner(s: SpdSeq, i: nat, host: Host)
    requires AllSplit(s) && i < |s|
  {
    forall j | 0 <= j < |s| && j != i :: Rules(s[j].data, host).Keys !! Rules(s[i].data, host).Keys
  }

  /**
   A new entry finds no rule in the kernel under its selectors but its own; an entry to be
   removed shares no selector.
   */
  ghost predicate Harmless(st: State, op: Op, host: Host)
    requires AllSplit(st.list) && Sendable(op)
  {
    match op
    case Add(name, d, _, _) => Has(st.list, name) || Agrees(st.kernel, Rules(d, host))
    case Remove(name) => var i := IndexOf(st.list, name); i == |st.list| || SoleOwner(st.list, i, host)
  }

  /** A new entry asks for selectors that no rule in the kernel has. */
  ghost predicate Admissible(st: State, op: Op, host: Host)
    requires Sendable(op)
  {
    op.Add? && !Has(st.list, op.name) ==> Rules(op.data, host).Keys !! st.kernel.Keys
  }

  /** The kernel does not see an entry's index. */
  lemma IndexIsInvisible(d: SpdData, index: int, host: Host)
    requires PolicySplits(d)
    ensures PolicySplits(d.(index := index))
    ensures SelectorOf(d.(index := index), host) == SelectorOf(d, host)
    ensures RuleOf(d.(index := index), host) == RuleOf(d, host)
  {
    hide RequestHeader, SockAddr, Splits, SubnetEnd;
  }

  lemma ForwardRule(d: SpdData, host: Host)
    requires PolicySplits(d)
    ensures PolicySplits(Forward(d))
    ensures SelectorOf(Forward(d), host) == SelectorOf(d, host).(dir := IPSEC_DIR_FORWARD)
    ensures RuleOf(Forward(d), host) == RuleOf(d, host)
  {
    hide RequestHeader, SockAddr, Splits, SubnetEnd;
  }

  lemma RulesIgnoreIndex(d: SpdData, index: int, host: Host)
    requires PolicySplits(d)
    ensures PolicySplits(d.(index := index)) && Rules(d.(index := index), host) == Rules(d, host)
  {
    hide SelectorOf, RuleOf, PolicySplits;
    IndexIsInvisible(d, index, host);
    ForwardRule(d, host);
    ForwardRule(d.(index := index), host);
  }

  lemma FinalRules(op: Op, host: Host)
    requires op.Add? && PolicySplits(op.data)
    ensures PolicySplits(Final(op)) && Rules(Final(op), host) == Rules(op.data, host)
  {
    hide Rules, PolicySplits, FinalIndex;
    RulesIgnoreIndex(op.data, FinalIndex(op), host);
  }

  /** The messages of one addition install the entry's rules where their selectors are free. */
  lemma AddInstallsRules(k: Database, op: Op, host: Host)
    requires op.Add? && PolicySplits(op.data)
    ensures AfterAdd(k, op.data, op.id, host) == Rules(op.data, host) + k
  {
    hide KernelAfter, AddPolicyMessage, SelectorOf, RuleOf, PolicySplits;
    var d, i := op.data, Indexed(op.data, op.id);
    IndexIsInvisible(d, i.index, host);
    ForwardRule(d, host);
    ForwardRule(i, host);
    AddMessageInstalls(k, d, host);
    AddMessageInstalls(Installed(k, d, host), Forward(i), host);
    assert SelectorOf(d, host) in Rules(d, host);
    if d.policyDir == IPSEC_DIR_INBOUND {
      DirOf(d, host);
      assert SelectorOf(Forward(d), host) in Rules(d, host);
    }
  }

  lemma DirOf(d: SpdData, host: Host)
    requires PolicySplits(d)
    ensures SelectorOf(d, host).dir == d.policyDir % 0x100
  {
  }

  /** The messages of one removal take the entry's rules away, and nothing else. */
  lemma RemoveUninstallsRules(k: Database, d: SpdData, host: Host)
    requires PolicySplits(d)
    ensures AfterRemove(k, d, host) == k - Rules(d, host).Keys
  {
    hide KernelAfter, DelPolicyMessage, SelectorOf, RuleOf, PolicySplits;
    ForwardRule(d, host);
    DelMessageRemoves(k, d, host);
    DelMessageRemoves(k - {SelectorOf(d, host)}, Forward(d), host);
  }

  /** An addition keeps the mirror exactly when every rule it finds in its place is its own. */
  lemma AddMirrorIff(st: State, op: Op, host: Host)
    requires op.Add? && Sendable(op) && Mirror(st, host) && !Has(st.list, op.name)
    ensures Mirror(Step(st, op, host), host) <==> Agrees(st.kernel, Rules(op.data, host))
  {
    hide AfterAdd, Rules, Final, PolicySplits, InStep, Agrees, UniqueNames;
    StepNames(st, op, host);
    FinalRules(op, host);
    AddInstallsRules(st.kernel, op, host);
    WantsAppend(st.list, Entry(op.name, Final(op)), host);
    AppendIff(st.kernel, Wants(st.list, host), Rules(op.data, host));
  }

  /** A removal keeps the mirror exactly when no other entry asks for a selector of its entry. */
  lemma RemoveMirrorIff(st: State, name: string, host: Host)
    requires Mirror(st, host) && IndexOf(st.list, name) < |st.list|
    ensures Mirror(Step(st, Remove(name), host), host) <==> SoleOwner(st.list, IndexOf(st.list, name), host)
  {
    hide AfterRemove, Rules, PolicySplits, InStep, TakesExactly, UniqueNames, RemoveAt;
    var i, ws := IndexOf(st.list, name), Wants(st.list, host);
    StepNames(st, Remove(name), host);
    RemoveUninstallsRules(st.kernel, st.list[i].data, host);
    WantsRemove(st.list, i, host);
    RemoveIff(st.kernel, ws, i, ws[i].Keys);
    TakesOwnIff(ws, i);
  }

  /** An operation keeps the kernel the mirror of the list if and only if it is harmless. */
  lemma StepMirrorIff(st: State, op: Op, host: Host)
    requires Sendable(op) && Mirror(st, host)
    ensures Mirror(Step(st, op, host), host) <==> Harmless(st, op, host)
  {
    hide AfterAdd, AfterRemove, Rules, PolicySplits, Mirror, Agrees, SoleOwner, Has, IndexOf;
    MirrorSplits(st, host);
    if op.Add? && !Has(st.list, op.name) {
      AddMirrorIff(st, op, host);
    } else if op.Remove? && IndexOf(st.list, op.name) < |st.list| {
      RemoveMirrorIff(st, op.name, host);
    }
  }

  lemma MirrorSplits(st: State, host: Host)
    requires Mirror(st, host)
    ensures AllSplit(st.list)
  {
  }

  /** The mirror survives the removal of any one name exactly when no two entries share a selector. */
  lemma RobustMirrorIff(st: State, host: Host)
    requires Mirror(st, host)
    ensures Separate(st.list, host) <==> forall name :: Mirror(Step(st, Remove(name), host), host)
  {
    hide Rules, PolicySplits, Mirror, Step, InStep, RemoveAt, IndexOf, Has;
    MirrorSplits(st, host);
    forall name
      ensures Mirror(Step(st, Remove(name), host), host) <==> Harmless(st, Remove(name), host)
    {
      StepMirrorIff(st, Remove(name), host);
    }
    if forall name :: Mirror(Step(st, Remove(name), host), host) {
      forall i, j | 0 <= i < j < |st.list|
        ensures Rules(st.list[i].data, host).Keys !! Rules(st.list[j].data, host).Keys
      {
        assert Mirror(Step(st, Remove(st.list[i].name), host), host);
        NameFindsIt(st, i, host);
      }
    }
  }

  lemma NameFindsIt(st: State, i: nat, host: Host)
    requires Mirror(st, host) && i < |st.list|
    ensures IndexOf(st.list, st.list[i].name) == i
  {
    hide PolicySplits, InStep;
    FirstIsIndexOf(st.list, st.list[i].name, i);
  }

  /**
   A kernel that mirrors the list holds one rule for each entry and one more for each inbound
   one, exactly when no two entries share a selector.
   */
  lemma MirrorSizeIff(st: State, host: Host)
    requires Mirror(st, host)
    ensures |st.kernel| == |st.list| + CountDir(st.list, IPSEC_DIR_INBOUND) <==> Separate(st.list, host)
  {
    hide PolicySplits, Wants, InStep, Apart, Total;
    SizeIff(st.kernel, Wants(st.list, host));
    WantsTotal(st.list, host);
  }

  lemma MirrorIsImage(st: State, host: Host)
    requires Mirror(st, host)
    ensures st.kernel == Image(st.list, host)
  {
    hide PolicySplits, InStep, Image, Rules;
    ImageIff(st.kernel, st.list, host);
  }

  /** The kernel mirrors the list, and no two entries share a selector. */
  ghost predicate Sound(st: State, host: Host) {
    Mirror(st, host) && Separate(st.list, host)
  }

  /** From a mirror without shared selectors, one operation leads to such a mirror exactly when it is admissible. */
  lemma StepSoundIff(st: State, op: Op, host: Host)
    requires Sendable(op) && Sound(st, host)
    ensures Sound(Step(st, op, host), host) <==> Admissible(st, op, host)
  {
    hide AfterAdd, AfterRemove, Rules, PolicySplits, Mirror, Agrees, SoleOwner, IndexOf, Has, Separate, RemoveAt;
    MirrorSplits(st, host);
    StepMirrorIff(st, op, host);
    if op.Add? && !Has(st.list, op.name) {
      SeparateAppendIff(st, op, host);
    } else if op.Remove? && IndexOf(st.list, op.name) < |st.list| {
      SeparateRemove(st.list, IndexOf(st.list, op.name), host);
    }
  }

  lemma SeparateAppendIff(st: State, op: Op, host: Host)
    requires op.Add? && Sendable(op) && Sound(st, host) && !Has(st.list, op.name)
    ensures AllSplit(st.list + [Entry(op.name, Final(op))])
    ensures Separate(st.list + [Entry(op.name, Final(op))], host) <==> Rules(op.data, host).Keys !! st.kernel.Keys
    ensures Rules(op.data, host).Keys !! st.kernel.Keys ==> Agrees(st.kernel, Rules(op.data, host))
  {
    hide Rules, PolicySplits, InStep, Final, Has, UniqueNames;
    var ws, w := Wants(st.list, host), Rules(op.data, host);
    FinalRules(op, host);
    WantsAppend(st.list, Entry(op.name, Final(op)), host);
    ApartAppendIff(st.kernel, ws, w);
  }

  lemma SeparateRemove(s: SpdSeq, i: nat, host: Host)
    requires AllSplit(s) && i < |s| && Separate(s, host)
    ensures AllSplit(RemoveAt(s, i)) && Separate(RemoveAt(s, i), host) && SoleOwner(s, i, host)
  {
    hide Rules, PolicySplits, RemoveAt;
    WantsRemove(s, i, host);
    ApartWithout(Wants(s, host), i);
  }

  // ----- whole runs

  predicate AllSendable(ops: seq<Op>) {
    forall i | 0 <= i < |ops| :: Sendable(ops[i])
  }

  ghost function Run(ops: seq<Op>, host: Host): State
    requires AllSendable(ops)
    ensures AllSplit(Run(ops, host).list)
  {
    if ops == [] then State([], map[])
    else
      var st := Run(ops[..|ops| - 1], host);
      StepKeepsSplit(st, ops[|ops| - 1], host);
      Step(st, ops[|ops| - 1], host)
  }

  lemma StepKeepsSplit(st: State, op: Op, host: Host)
    requires AllSplit(st.list) && (op.Add? ==> PolicySplits(op.data))
    ensures AllSplit(Step(st, op, host).list)
  {
    hide AfterAdd, AfterRemove, IndexOf, RemoveAt, PolicySplits, Final, Has;
    if op.Add? {
      FinalSplits(op);
    } else if IndexOf(st.list, op.name) < |st.list| {
      RemoveAtElements(st.list, IndexOf(st.list, op.name));
    }
  }

  lemma FinalSplits(op: Op)
    requires op.Add? && PolicySplits(op.data)
    ensures PolicySplits(Final(op))
  {
    hide Splits;
  }

  ghost predicate MirrorThroughout(ops: seq<Op>, host: Host)
    requires AllSendable(ops)
  {
    forall i | 0 <= i <= |ops| :: Mirror(Run(ops[..i], host), host)
  }

  ghost predicate HarmlessRun(ops: seq<Op>, host: Host)
    requires AllSendable(ops)
  {
    forall i | 0 <= i < |ops| :: Harmless(Run(ops[..i], host), ops[i], host)
  }

  /** Every operation meets a state in which its selectors are free. */
  ghost predicate AdmissibleRun(ops: seq<Op>, host: Host)
    requires AllSendable(ops)
  {
    forall i | 0 <= i < |ops| :: Admissible(Run(ops[..i], host), ops[i], host)
  }

  /** The entry was configured by some operation of the run and differs from it in its index only. */
  ghost predicate ComesFrom(e: Entry<SpdData>, ops: seq<Op>) {
    exists i :: 0 <= i < |ops| && ops[i].Add? && ops[i].name == e.name && e.data == ops[i].data.(index := e.data.index)
  }

  ghost predicate AllComeFrom(s: SpdSeq, ops: seq<Op>) {
    forall i | 0 <= i < |s| :: ComesFrom(s[i], ops)
  }

  lemma RunUnfolds(ops: seq<Op>, i: nat, host: Host)
    requires AllSendable(ops) && i < |ops|
    ensures Run(ops[..i + 1], host) == Step(Run(ops[..i], host), ops[i], host)
  {
    hide Step, Sendable;
    assert ops[..i + 1][..i] == ops[..i];
  }

  lemma EmptyIsSound(host: Host)
    ensures Sound(State([], map[]), host)
  {
    NothingDemanded<Selector, Rule>();
    assert Wants([], host) == [];
  }

  /**
   The kernel mirrors the list at every point of a run if and only if every addition finds no
   rule but its own in its place, and every entry removed shares no selector.
   */
  lemma MirrorThroughoutIff(ops: seq<Op>, host: Host)
    requires AllSendable(ops)
    ensures MirrorThroughout(ops, host) <==> HarmlessRun(ops, host)
  {
    hide Mirror, Harmless, Sendable, Step, Run;
    forall i | 0 <= i < |ops|
      ensures Mirror(Run(ops[..i], host), host) ==>
                (Mirror(Run(ops[..i + 1], host), host) <==> Harmless(Run(ops[..i], host), ops[i], host))
    {
      RunUnfolds(ops, i, host);
      if Mirror(Run(ops[..i], host), host) {
        StepMirrorIff(Run(ops[..i], host), ops[i], host);
      }
    }
    if HarmlessRun(ops, host) {
      HarmlessKeepsMirror(ops, |ops|, host);
    }
    if MirrorThroughout(ops, host) {
      forall i | 0 <= i < |ops|
        ensures Harmless(Run(ops[..i], host), ops[i], host)
      {
        assert Mirror(Run(ops[..i], host), host) && Mirror(Run(ops[..i + 1], host), host);
      }
    }
  }

  lemma {:induction false} HarmlessKeepsMirror(ops: seq<Op>, n: nat, host: Host)
    requires AllSendable(ops) && HarmlessRun(ops, host) && n <= |ops|
    ensures forall i | 0 <= i <= n :: Mirror(Run(ops[..i], host), host)
  {
    hide Mirror, Harmless, Sendable, Step;
    if n == 0 {
      EmptyMirrors(host);
    } else {
      HarmlessKeepsMirror(ops, n - 1, host);
      RunUnfolds(ops, n - 1, host);
      StepMirrorIff(Run(ops[..n - 1], host), ops[n - 1], host);
    }
  }

  lemma EmptyMirrors(host: Host)
    ensures Mirror(State([], map[]), host)
  {
    EmptyIsSound(host);
  }

  /** The kernel mirrors the list and is as large as its entries add up to. */
  ghost predicate FullMirror(st: State, host: Host) {
    Mirror(st, host) && |st.kernel| == |st.list| + CountDir(st.list, IPSEC_DIR_INBOUND)
  }

  ghost predicate FullThroughout(ops: seq<Op>, host: Host)
    requires AllSendable(ops)
  {
    forall i | 0 <= i <= |ops| :: FullMirror(Run(ops[..i], host), host)
  }

  lemma FullIsSound(st: State, host: Host)
    ensures FullMirror(st, host) <==> Sound(st, host)
  {
    hide Mirror, Separate, CountDir;
    if Mirror(st, host) {
      MirrorSizeIff(st, host);
    }
  }

  /**
   The kernel mirrors the list with one rule for each entry, and one more for each inbound one,
   at every point of a run if and only if every addition asks for free selectors.
   */
  lemma FullThroughoutIff(ops: seq<Op>, host: Host)
    requires AllSendable(ops)
    ensures FullThroughout(ops, host) <==> AdmissibleRun(ops, host)
  {
    hide FullMirror, Sound, Admissible, Sendable, Step, Run;
    forall i | 0 <= i < |ops|
      ensures FullMirror(Run(ops[..i], host), host) ==>
                (FullMirror(Run(ops[..i + 1], host), host) <==> Admissible(Run(ops[..i], host), ops[i], host))
    {
      RunUnfolds(ops, i, host);
      FullIsSound(Run(ops[..i], host), host);
      FullIsSound(Run(ops[..i + 1], host), host);
      if FullMirror(Run(ops[..i], host), host) {
        StepSoundIff(Run(ops[..i], host), ops[i], host);
      }
    }
    if AdmissibleRun(ops, host) {
      AdmissibleKeepsFull(ops, |ops|, host);
    }
    if FullThroughout(ops, host) {
      forall i | 0 <= i < |ops|
        ensures Admissible(Run(ops[..i], host), ops[i], host)
      {
        assert FullMirror(Run(ops[..i], host), host) && FullMirror(Run(ops[..i + 1], host), host);
      }
    }
  }

  lemma {:induction false} AdmissibleKeepsFull(ops: seq<Op>, n: nat, host: Host)
    requires AllSendable(ops) && AdmissibleRun(ops, host) && n <= |ops|
    ensures forall i | 0 <= i <= n :: FullMirror(Run(ops[..i], host), host)
  {
    hide FullMirror, Sound, Admissible, Sendable, Step;
    FullIsSound(Run(ops[..n], host), host);
    if n == 0 {
      EmptyIsSound(host);
    } else {
      AdmissibleKeepsFull(ops, n - 1, host);
      RunUnfolds(ops, n - 1, host);
      FullIsSound(Run(ops[..n - 1], host), host);
      StepSoundIff(Run(ops[..n - 1], host), ops[n - 1], host);
    }
  }

  /**
   After any admissible run of configured entries the kernel is the image of the list: one rule
   for each outbound entry, two for each inbound one, none shared. Every entry is as configured,
   its direction included.
   */
  lemma MirrorOverRuns(ops: seq<Op>, host: Host)
    requires AllSendable(ops) && AdmissibleRun(ops, host)
    requires forall i | 0 <= i < |ops| && ops[i].Add? :: Configured(ops[i].data)
    ensures var st := Run(ops, host);
            && Sound(st, host) && AllConfigured(st.list)
            && st.kernel == Image(st.list, host)
            && |st.kernel| == CountDir(st.list, IPSEC_DIR_OUTBOUND) + 2 * CountDir(st.list, IPSEC_DIR_INBOUND)
            && AllComeFrom(st.list, ops)
  {
    hide Run, FullMirror, Sound, PolicySplits, AdmissibleRun, Image, CountDir, AllComeFrom;
    var st := Run(ops, host);
    AdmissibleEndsFull(ops, host);
    FullIsSound(st, host);
    SoundMirrors(st, host);
    MirrorIsImage(st, host);
    OriginsKept(ops, host);
    OriginsConfigured(st.list, ops);
    DirectionsAddUp(st.list);
  }

  lemma AdmissibleEndsFull(ops: seq<Op>, host: Host)
    requires AllSendable(ops) && AdmissibleRun(ops, host)
    ensures FullMirror(Run(ops, host), host)
  {
    hide Run, FullMirror, Admissible, Sendable;
    assert ops[..|ops|] == ops;
    AdmissibleKeepsFull(ops, |ops|, host);
  }

  lemma OriginsConfigured(s: SpdSeq, ops: seq<Op>)
    requires AllComeFrom(s, ops)
    requires forall i | 0 <= i < |ops| && ops[i].Add? :: Configured(ops[i].data)
    ensures AllConfigured(s)
  {
    hide Splits;
  }

  lemma SoundMirrors(st: State, host: Host)
    ensures Sound(st, host) ==> Mirror(st, host)
    ensures FullMirror(st, host) ==> |st.kernel| == |st.list| + CountDir(st.list, IPSEC_DIR_INBOUND)
  {
  }

  /** Whatever the run, every entry comes from an addition in it. */
  lemma {:induction false} OriginsKept(ops: seq<Op>, host: Host)
    requires AllSendable(ops)
    ensures AllComeFrom(Run(ops, host).list, ops)
  {
    hide Step, PolicySplits, AllComeFrom;
    if ops == [] {
      NoneComes(ops);
    } else {
      var before := ops[..|ops| - 1];
      OriginsKept(before, host);
      StepKeepsOrigin(Run(before, host), ops, host);
    }
  }

  lemma NoneComes(ops: seq<Op>)
    ensures AllComeFrom([], ops)
  {
  }

  /** Names are unique in every reachable state, whatever the selectors. */
  lemma {:induction false} NamesStayUnique(ops: seq<Op>, host: Host)
    requires AllSendable(ops)
    ensures UniqueNames(Run(ops, host).list)
  {
    hide Sendable, Step, Final;
    if ops != [] {
      var before, op := ops[..|ops| - 1], ops[|ops| - 1];
      var st := Run(before, host);
      NamesStayUnique(before, host);
      StepNames(st, op, host);
    }
  }

  lemma StepNames(st: State, op: Op, host: Host)
    requires Sendable(op) && AllSplit(st.list) && UniqueNames(st.list)
    ensures UniqueNames(Step(st, op, host).list)
  {
    hide Step, Final, UniqueNames, RemoveFirst, PolicySplits;
    StepList(st, op, host);
    if op.Add? {
      AppendKeepsUnique(st.list, Entry(op.name, Final(op)));
    } else {
      RemoveFirstIsKeep(st.list, op.name);
    }
  }

  lemma StepList(st: State, op: Op, host: Host)
    requires AllSplit(st.list) && (op.Add? ==> PolicySplits(op.data))
    ensures Step(st, op, host).list ==
            if op.Add? then (if Has(st.list, op.name) then st.list else st.list + [Entry(op.name, Final(op))])
            else RemoveFirst(st.list, op.name)
  {
    hide AfterAdd, AfterRemove, PolicySplits, Final;
    IndexOfIsFirst(st.list, op.name);
  }

  lemma StepKeepsOrigin(st: State, ops: seq<Op>, host: Host)
    requires ops != [] && AllSplit(st.list)
    requires ops[|ops| - 1].Add? ==> PolicySplits(ops[|ops| - 1].data)
    requires AllComeFrom(st.list, ops[..|ops| - 1])
    ensures AllComeFrom(Step(st, ops[|ops| - 1], host).list, ops)
  {
    hide Step, PolicySplits, IndexOf, RemoveAt;
    var n := |ops| - 1;
    StepList(st, ops[n], host);
    forall i | 0 <= i < |st.list|
      ensures ComesFrom(st.list[i], ops)
    {
      StillComesFrom(st.list[i], ops);
    }
    if ops[n].Add? {
      FinalComesFrom(ops, n);
    } else if IndexOf(st.list, ops[n].name) < |st.list| {
      RemoveAtElements(st.list, IndexOf(st.list, ops[n].name));
    } else {
      RemoveNone(st.list, ops[n].name);
    }
  }

  lemma RemoveNone(s: SpdSeq, name: string)
    requires IndexOf(s, name) == |s|
    ensures RemoveFirst(s, name) == s
  {
  }

  lemma StillComesFrom(e: Entry<SpdData>, ops: seq<Op>)
    requires ops != [] && ComesFrom(e, ops[..|ops| - 1])
    ensures ComesFrom(e, ops)
  {
    var before := ops[..|ops| - 1];
    var i :| 0 <= i < |before| && before[i].Add? && before[i].name == e.name
             && e.data == before[i].data.(index := e.data.index);
    assert ops[i] == before[i];
  }

  lemma FinalComesFrom(ops: seq<Op>, n: nat)
    requires n < |ops| && ops[n].Add?
    ensures ComesFrom(Entry(ops[n].name, Final(ops[n])), ops)
  {
  }

  /** The messages of an entry whose selectors are taken change nothing. */
  lemma TakenSelectors(k: Database, a: SpdData, b: SpdData, host: Host)
    requires Configured(a) && Configured(b) && SelectorOf(a, host) == SelectorOf(b, host)
    requires k == Rules(a, host)
    ensures AfterAdd(k, b, None, host) == k
  {
    hide KernelAfter, AddPolicyMessage, SelectorOf, RuleOf, PolicySplits;
    DirOf(a, host);
    DirOf(b, host);
    ForwardRule(a, host);
    ForwardRule(b, host);
    AddMessageInstalls(k, b, host);
    AddMessageInstalls(k, Forward(b), host);
  }

  lemma LoneEntryHasRules(b: Entry<SpdData>, host: Host)
    requires PolicySplits(b.data)
    ensures !Mirror(State([b], map[]), host)
  {
    hide SelectorOf, RuleOf, PolicySplits;
    assert SelectorOf(b.data, host) in Rules(b.data, host);
    hide Rules;
    assert AllSplit([b]) && Wants([b], host)[0] == Rules(b.data, host);
    assert !Includes(map[], Wants([b], host)[0]);
  }

  lemma RemoveFromPair(a: Entry<SpdData>, b: Entry<SpdData>)
    ensures IndexOf([a, b], a.name) == 0 && RemoveFirst([a, b], a.name) == [b]
    ensures a.name != b.name ==> !Has([a], b.name)
  {
  }

  /**
   What happens otherwise: with two entries for one selector, in either direction, removing
   either leaves the other without any rule.
   */
  lemma SharedSelectorLosesRule(a: Entry<SpdData>, b: Entry<SpdData>, host: Host)
    requires Configured(a.data) && Configured(b.data) && a.name != b.name
    requires SelectorOf(a.data, host) == SelectorOf(b.data, host)
    ensures var k := Rules(a.data, host);
            && Step(State([a], k), Add(b.name, b.data, None, None), host) == State([a, b], k)
            && Step(State([a, b], k), Remove(a.name), host) == State([b], map[])
    ensures !Mirror(State([b], map[]), host)
  {
    hide AfterAdd, AfterRemove, Rules, SelectorOf, PolicySplits, Mirror, Has, IndexOf, RemoveAt;
    var k := Rules(a.data, host);
    TakenSelectors(k, a.data, b.data, host);
    RemoveUninstallsRules(k, a.data, host);
    assert k - k.Keys == map[];
    RemoveFromPair(a, b);
    assert [a] + [b] == [a, b];
    LoneEntryHasRules(b, host);
  }

  /** Not every shared selector is seen: with two entries of the same rules the kernel still mirrors the list. */
  lemma TwinsMirror(a: Entry<SpdData>, b: Entry<SpdData>, host: Host)
    requires PolicySplits(a.data) && PolicySplits(b.data) && a.name != b.name
    requires Rules(a.data, host) == Rules(b.data, host)
    ensures Mirror(State([a, b], Rules(a.data, host)), host) && !Separate([a, b], host)
  {
    hide SelectorOf, RuleOf, PolicySplits;
    var s, k := [a, b], Rules(a.data, host);
    assert SelectorOf(a.data, host) in k;
    hide Rules;
    assert Wants(s, host)[0] == k && Wants(s, host)[1] == k;
    forall x | x in k
      ensures Demanded(Wants(s, host), x)
    {
      assert x in Wants(s, host)[0];
    }
  }

  // ----- the store

  /** Position of the first entry with a kernel index; the length when there is none. */
  function IndexOfId(s: SpdSeq, id: int): nat {
    IndexWhere(s, (d: SpdData) => d.index == id)
  }

  /** The outbound entry just added is the one found under its index, when no other has it. */
  lemma AddedIsFoundByIndex(st: State, op: Op, host: Host, id: int)
    requires AllSplit(st.list) && op.Add? && PolicySplits(op.data) && !Has(st.list, op.name)
    requires op.data.policyDir == IPSEC_DIR_OUTBOUND && op.id == Some(id)
    requires forall i | 0 <= i < |st.list| :: st.list[i].data.index != id
    ensures var l := Step(st, op, host).list;
            IndexOfId(l, id) == |st.list| < |l| && l[|st.list|] == Entry(op.name, op.data.(index := id))
  {
    hide AfterAdd, PolicySplits;
    var l := Step(st, op, host).list;
    assert l[|st.list|].data.index == id;
    assert forall i | 0 <= i < |st.list| :: l[i] == st.list[i];
  }

  lemma SplitAppend(s: SpdSeq, e: Entry<SpdData>)
    requires AllSplit(s) && PolicySplits(e.data)
    ensures AllSplit(s + [e])
  {
    hide PolicySplits;
  }

  class Store {
    const host: Host
    const list: List<SpdData>
    ghost var kernel: Database

    ghost function Repr(): set<object>
      reads this, list
    {
      {this, list} + set n | n in list.nodes
    }

    ghost predicate Valid()
      reads Repr()
    {
      list.Valid() && AllSplit(list.Contents())
    }

    ghost function Now(): State
      reads Repr()
    {
      State(list.Contents(), kernel)
    }

    constructor (host: Host)
      ensures Valid() && Now() == State([], map[]) && this.host == host
      ensures fresh(Repr())
    {
      this.host := host;
      list := new List<SpdData>();
      kernel := map[];
    }

    /** `pf_addpolicy`: send the message, then keep the index the dump loop found, if any. */
    method PfAddPolicy(node: Node<SpdData>, id: Option<int>)
      requires PolicySplits(node.data)
      modifies this, node
      ensures kernel == KernelAfter(old(kernel), AddPolicyMessage(old(node.data), host))
      ensures node.data == Indexed(old(node.data), id)
      ensures node.name == old(node.name) && node.next == old(node.next)
    {
      hide KernelAfter, AddPolicyMessage;
      var buf, len := BuildAddPolicy(node.data, host);
      kernel := KernelAfter(kernel, buf[..len]);
      if id.Some? {
        node.data := node.data.(index := id.value);
      }
    }

    method PfDelPolicy(node: Node<SpdData>)
      requires PolicySplits(node.data)
      modifies this
      ensures kernel == KernelAfter(old(kernel), DelPolicyMessage(node.data, host))
    {
      hide KernelAfter, DelPolicyMessage;
      var buf, len := BuildDelPolicy(node.data, host);
      kernel := KernelAfter(kernel, buf[..len]);
    }

    /** The kernel side of an addition; the direction is changed for the FORWARD message only. */
    method Install(node: Node<SpdData>, id: Option<int>, forwardId: Option<int>)
      requires PolicySplits(node.data)
      modifies this, node
      ensures kernel == AfterAdd(old(kernel), old(node.data), id, host)
      ensures node.data == Final(Add(node.name, old(node.data), id, forwardId))
      ensures node.name == old(node.name) && node.next == old(node.next)
    {
      hide KernelAfter, AddPolicyMessage, Splits;
      PfAddPolicy(node, id);
      if node.data.policyDir == IPSEC_DIR_INBOUND {
        node.data := node.data.(policyDir := IPSEC_DIR_FORWARD);
        PfAddPolicy(node, forwardId);
        node.data := node.data.(policyDir := IPSEC_DIR_INBOUND);
      }
    }

    /** The kernel side of a removal; the entry is as it was afterwards. */
    method Uninstall(node: Node<SpdData>)
      requires PolicySplits(node.data)
      modifies this, node
      ensures kernel == AfterRemove(old(kernel), old(node.data), host)
      ensures node.data == old(node.data) && node.name == old(node.name) && node.next == old(node.next)
    {
      hide KernelAfter, DelPolicyMessage, Splits;
      PfDelPolicy(node);
      if node.data.policyDir == IPSEC_DIR_INBOUND {
        node.data := node.data.(policyDir := IPSEC_DIR_FORWARD);
        PfDelPolicy(node);
        node.data := node.data.(policyDir := IPSEC_DIR_INBOUND);
      }
    }

    /**
     `addSPD_entry`. `read` is what the reader made of the entry's leaves, None for an error.
     A name that is present is left alone and reported as success.
     */
    method AddEntry(name: string, read: Option<SpdData>, id: Option<int>, forwardId: Option<int>, caseValue: int)
      returns (ok: bool)
      requires Valid() && (read.Some? ==> PolicySplits(read.value))
      modifies Repr()
      ensures Valid() && fresh(Repr() - old(Repr()))
      ensures ok <==> Has(old(list.Contents()), name) || read.Some?
      ensures Has(old(list.Contents()), name) || read.None? ==> Now() == old(Now())
      ensures read.Some? && caseValue == 2 ==>
                Now() == Step(old(Now()), Add(name, read.value, id, forwardId), host)
      ensures !Has(old(list.Contents()), name) && read.Some? && caseValue != 2 ==>
                Now() == State(old(list.Contents()) + [Entry(name, read.value)], old(kernel))
    {
      hide AfterAdd, IndexOf, Has, PolicySplits, Final;
      IndexOfIsFirst(list.Contents(), name);
      var present := list.Get(name);
      if present != null {
        return true;
      }
      if read.None? {
        return false;
      }
      AddNew(name, read.value, id, forwardId, caseValue);
      return true;
    }

    /** The kernel side of an addition for the node at the end of the list. */
    method InstallLast(node: Node<SpdData>, id: Option<int>, forwardId: Option<int>)
      requires list.Valid() && list.nodes != [] && node == list.nodes[|list.nodes| - 1] && PolicySplits(node.data)
      modifies this, node
      ensures list.Valid() && kernel == AfterAdd(old(kernel), old(node.data), id, host)
      ensures var n := |list.nodes| - 1;
              list.Contents() == old(list.Contents())[..n]
                + [Entry(old(node.name), Final(Add(old(node.name), old(node.data), id, forwardId)))]
    {
      hide AfterAdd, PolicySplits, Final;
      ghost var n := |list.nodes| - 1;
      Install(node, id, forwardId);
      assert forall i | 0 <= i < n :: list.nodes[i] != node;
      assert forall i | 0 <= i < n :: list.Contents()[i] == old(list.Contents())[i];
    }

    /** The new node goes to the end of the list first, and then to the kernel. */
    method AddNew(name: string, d: SpdData, id: Option<int>, forwardId: Option<int>, caseValue: int)
      requires Valid() && PolicySplits(d)
      modifies Repr()
      ensures Valid() && fresh(Repr() - old(Repr()))
      ensures list.Contents() == old(list.Contents())
                + [Entry(name, if caseValue == 2 then Final(Add(name, d, id, forwardId)) else d)]
      ensures kernel == if caseValue == 2 then AfterAdd(old(kernel), d, id, host) else old(kernel)
    {
      hide AfterAdd, PolicySplits, Final, List<SpdData>.Valid, AllSplit;
      var node := new Node<SpdData>(name, d, null);
      list.Add(node);
      ghost var before, op := old(list.Contents()), Add(name, d, id, forwardId);
      SplitAppend(before, Entry(name, d));
      assert list.Contents()[..|before|] == before;
      if caseValue == 2 {
        FinalSplits(op);
        SplitAppend(before, Entry(name, Final(op)));
        InstallLast(node, id, forwardId);
      }
    }

    /** `removeSPD_entry`. Case 1 does nothing and reports success. */
    method RemoveEntry(name: string, caseValue: int) returns (ok: bool)
      requires Valid()
      modifies Repr()
      ensures Valid() && Repr() <= old(Repr())
      ensures ok <==> caseValue == 1 || Has(old(list.Contents()), name)
      ensures caseValue == 1 ==> Now() == old(Now())
      ensures caseValue != 1 ==> Now() == Step(old(Now()), Remove(name), host)
    {
      hide AfterRemove, IndexOf, PolicySplits, RemoveAt, Has;
      IndexOfIsFirst(list.Contents(), name);
      if caseValue == 1 {
        return true;
      }
      var node := list.Get(name);
      if node == null {
        return false;
      }
      ghost var i := IndexOf(list.Contents(), name);
      Uninstall(node);
      assert list.Contents() == old(list.Contents());
      ok := list.Delete(name);
      RemoveAtElements(old(list.nodes), i);
      RemoveAtElements(old(list.Contents()), i);
    }

    /** `get_spd_node_by_index`. */
    method GetByIndex(id: int) returns (node: Node?<SpdData>)
      requires Valid()
      ensures var i := IndexOfId(list.Contents(), id); node == if i < |list.nodes| then list.nodes[i] else null
    {
      node := list.Find((d: SpdData) => d.index == id);
    }
  }
}
