/**
 Adding an outbound policy, learning its index from the dump that follows, and finding the policy
 under that index, as the handling of SADB_ACQUIRE needs it.
 */
module PolicyIndex {
  import opened Bytes
  import opened Text
  import opened Extensions
  import opened SpdEntry
  import opened MessageBuffer
  import opened PolicyMessage
  import opened EntryList
  import opened SpdStore
  import opened Dump

  const CASE_VALUE := 2

  /** The identifier a dumped message carries, as the C int it is stored in. */
  ghost function IdOf(dump: seq<seq<byte>>, cuts: seq<seq<nat>>, i: nat): int
    requires i < |dump| && i < |cuts|
  {
    ToInt32(PolicyOf(dump[i], cuts[i]).id)
  }

  ghost predicate OnlyMatch(d: SpdData, dump: seq<seq<byte>>, cuts: seq<seq<nat>>, reqs: seq<seq<nat>>, i: nat)
    requires PolicyDump(dump, cuts, reqs)
  {
    i < |dump| && forall j | 0 <= j < |dump| :: Matches(d, dump[j], cuts[j], reqs[j]) <==> j == i
  }

  ghost predicate NoMatch(d: SpdData, dump: seq<seq<byte>>, cuts: seq<seq<nat>>, reqs: seq<seq<nat>>)
    requires PolicyDump(dump, cuts, reqs)
  {
    forall j | 0 <= j < |dump| :: !Matches(d, dump[j], cuts[j], reqs[j])
  }

  ghost predicate NewId(s: SpdSeq, id: int) {
    forall j | 0 <= j < |s| :: s[j].data.index != id
  }

  /**
   `pf_addpolicy` for a new outbound entry, dump loop included, and a look-up by the index. If the
   message at position i is the only one that matches the entry, and no other entry has its
   identifier, the node found is the one just added, and it carries that identifier.
   */
  method AddAndFind(store: Store, name: string, d: SpdData, dump: seq<seq<byte>>, ghost cuts: seq<seq<nat>>,
                    ghost reqs: seq<seq<nat>>, ghost i: nat)
    returns (node: Node?<SpdData>)
    requires store.Valid() && PolicySplits(d) && d.policyDir == IPSEC_DIR_OUTBOUND && !Has(store.list.Contents(), name)
    requires PolicyDump(dump, cuts, reqs)
    modifies store.Repr()
    ensures store.Valid() && fresh(store.Repr() - old(store.Repr()))
    ensures store.kernel == AfterAdd(old(store.kernel), d, None, store.host)
    ensures OnlyMatch(d, dump, cuts, reqs, i) ==>
              store.list.Contents() == old(store.list.Contents()) + [Entry(name, d.(index := IdOf(dump, cuts, i)))]
    ensures OnlyMatch(d, dump, cuts, reqs, i) && NewId(old(store.list.Contents()), IdOf(dump, cuts, i)) ==>
              node == store.list.nodes[|store.list.nodes| - 1]
    ensures NoMatch(d, dump, cuts, reqs) ==>
              store.list.Contents() == old(store.list.Contents()) + [Entry(name, d)]
  {
    hide Matches, PolicyDump, PolicySplits, Store.Valid, AfterAdd, Has, Step, IndexOfId,
      OnlyMatch, NoMatch, FirstMatch, NewId, AllSplit, IdOf;
    ghost var before := store.Now();
    SoundStore(store);
    var index, found;
    ghost var at;
    index, found, at := AddFromDump(store, name, d, dump, cuts, reqs);
    SoundStore(store);
    node := store.GetByIndex(index);
    if NoMatch(d, dump, cuts, reqs) {
      NoneMatchFound(d, dump, cuts, reqs, found, at);
    }
    if OnlyMatch(d, dump, cuts, reqs, i) {
      OnlyMatchFound(d, dump, cuts, reqs, i, found, at);
      if NewId(before.list, index) {
        NewIdIsFound(before, Add(name, d, Some(index), None), store.host, index);
        StepAdds(before, Add(name, d, Some(index), None), store.host);
      }
    }
  }

  lemma SoundStore(store: Store)
    requires store.Valid()
    ensures AllSplit(store.list.Contents()) && |store.list.Contents()| == |store.list.nodes|
  {
  }

  /** The addition alone; the entry has the index of the first match in the dump, if any. */
  method AddFromDump(store: Store, name: string, d: SpdData, dump: seq<seq<byte>>, ghost cuts: seq<seq<nat>>,
                     ghost reqs: seq<seq<nat>>)
    returns (index: int, found: bool, ghost at: nat)
    requires store.Valid() && PolicySplits(d) && d.policyDir == IPSEC_DIR_OUTBOUND && !Has(store.list.Contents(), name)
    requires PolicyDump(dump, cuts, reqs)
    modifies store.Repr()
    ensures store.Valid() && fresh(store.Repr() - old(store.Repr()))
    ensures store.Now() == State(old(store.list.Contents()) + [Entry(name, if found then d.(index := index) else d)],
                                 AfterAdd(old(store.kernel), d, None, store.host))
    ensures found ==> at < |dump| && at < |cuts| && FirstMatch(d, dump, cuts, reqs, at) && index == IdOf(dump, cuts, at)
    ensures !found ==> NoMatch(d, dump, cuts, reqs)
  {
    hide Matches, PolicyDumped, PolicyOf, PolicySplits, Store.Valid, AfterAdd, Has, Step, AllSplit, ToInt32, FirstMatch;
    SoundStore(store);
    SplitParts(d);
    index, found, at := DiscoverIndex(d, dump, cuts, reqs);
    var id := if found then Some(index) else None;
    StepAdds(store.Now(), Add(name, d, id, None), store.host);
    var ok := store.AddEntry(name, Some(d), id, None, CASE_VALUE);
  }

  lemma StepAdds(st: State, op: Op, host: Host)
    requires AllSplit(st.list) && op.Add? && PolicySplits(op.data) && !Has(st.list, op.name)
    requires op.data.policyDir == IPSEC_DIR_OUTBOUND
    ensures Step(st, op, host) ==
            State(st.list + [Entry(op.name, if op.id.Some? then op.data.(index := op.id.value) else op.data)],
                  AfterAdd(st.kernel, op.data, None, host))
  {
    hide KernelAfter, AddPolicyMessage, PolicySplits;
  }

  lemma NewIdIsFound(st: State, op: Op, host: Host, id: int)
    requires AllSplit(st.list) && op.Add? && PolicySplits(op.data) && !Has(st.list, op.name)
    requires op.data.policyDir == IPSEC_DIR_OUTBOUND && op.id == Some(id) && NewId(st.list, id)
    ensures IndexOfId(Step(st, op, host).list, id) == |st.list|
  {
    hide Step, PolicySplits, Has, AllSplit, IndexOfId;
    AddedIsFoundByIndex(st, op, host, id);
  }

  lemma NoneMatchFound(d: SpdData, dump: seq<seq<byte>>, cuts: seq<seq<nat>>, reqs: seq<seq<nat>>, found: bool, at: nat)
    requires PolicyDump(dump, cuts, reqs)
    requires NoMatch(d, dump, cuts, reqs)
    requires found ==> at < |dump| && FirstMatch(d, dump, cuts, reqs, at)
    ensures !found
  {
    hide Matches, PolicyDumped;
  }

  lemma OnlyMatchFound(d: SpdData, dump: seq<seq<byte>>, cuts: seq<seq<nat>>, reqs: seq<seq<nat>>, i: nat,
                       found: bool, at: nat)
    requires PolicyDump(dump, cuts, reqs) && OnlyMatch(d, dump, cuts, reqs, i)
    requires found ==> at < |dump| && FirstMatch(d, dump, cuts, reqs, at)
    requires !found ==> NoMatch(d, dump, cuts, reqs)
    ensures found && at == i
  {
    hide Matches, PolicyDumped;
    assert Matches(d, dump[i], cuts[i], reqs[i]);
    if found {
      OnlyMatchIsFirst(d, dump, cuts, reqs, i, at);
    }
  }

  lemma SplitParts(d: SpdData)
    requires PolicySplits(d)
    ensures GetIp(d.localSubnet).Some? && GetIp(d.remoteSubnet).Some?
  {
  }
}
