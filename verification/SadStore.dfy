/**
 The list of security associations, the messages sent for them, and the callback that keeps
 both in step with the configuration.
 */
module SadStore {
  import opened Bytes
  import opened Text
  import opened Wire
  import opened SadEntry
  import opened MessageBuffer
  import opened SaMessage
  import opened EntryList
  import opened ChangeStream
  import opened SadReader
  import Paths
  import SadSchema
  import SadOrder

  type SadSeq = seq<Entry<SadData>>

  datatype State = State(list: SadSeq, sent: seq<seq<byte>>)

  /** What the source needs of an entry to build all three messages for it. */
  predicate Buildable(d: SadData) {
    Addable(d) && SubnetsSplit(d)
  }

  predicate AllBuildable(s: SadSeq) {
    forall i | 0 <= i < |s| :: Buildable(s[i].data)
  }

  /** An addition: the entry at the end, SADB_ADD and then SADB_GET for it. */
  function Added(st: State, name: string, d: SadData, host: Host): State {
    if Buildable(d) then
      State(st.list + [Entry(name, d)], st.sent + [AddMessage(d, host), NamingMessage(SADB_GET, d, host)])
    else st
  }

  function Farewell(d: SadData, host: Host): seq<seq<byte>>
    requires SubnetsSplit(d)
  {
    [NamingMessage(SADB_GET, d, host), NamingMessage(SADB_DELETE, d, host)]
  }

  /** A removal: the first entry of the name, SADB_GET and then SADB_DELETE for it. */
  function Removed(st: State, name: string, host: Host): State {
    var i := IndexOf(st.list, name);
    if i < |st.list| && Buildable(st.list[i].data) then
      State(RemoveFirst(st.list, name),
            st.sent + Farewell(st.list[i].data, host))
    else st
  }

  /** Names are not checked when an association is added, and reading errors are lost. */
  ghost function SadBackend(host: Host): Backend<State, SadData> {
    Backend(
      BLANK_SAD, SadApply, false,
      (st: State, name: string) => false,
      (d: SadData) => Buildable(d),
      (st: State, name: string, d: SadData) => Added(st, name, d, host),
      (st: State, name: string) => IndexOf(st.list, name) < |st.list|,
      (st: State, name: string) => Removed(st, name, host))
  }

  // ----- whole entries

  /** The entry that the leaves of a created block build. */
  ghost function Built(path: string, x: Block): SadData {
    Fold(BLANK_SAD, Created, EntryPath(path, x.name), x.leaves, SadApply).entry
  }

  ghost function Entries(path: string, blocks: seq<Block>): SadSeq {
    if blocks == [] then [] else [Entry(blocks[0].name, Built(path, blocks[0]))] + Entries(path, blocks[1..])
  }

  function MessagesOf(e: Entry<SadData>, host: Host): seq<seq<byte>>
    requires Buildable(e.data)
  {
    [AddMessage(e.data, host), NamingMessage(SADB_GET, e.data, host)]
  }

  function Messages(s: SadSeq, host: Host): seq<seq<byte>>
    requires AllBuildable(s)
  {
    if s == [] then [] else MessagesOf(s[0], host) + Messages(s[1..], host)
  }

  lemma {:induction false} CreationsRun(path: string, blocks: seq<Block>, st: State, host: Host)
    requires (forall i | 0 <= i < |blocks| :: blocks[i].created) && AllBuildable(Entries(path, blocks))
    ensures var es := Entries(path, blocks);
            RunBlocks(path, blocks, st, SadBackend(host)) == Done(State(st.list + es, st.sent + Messages(es, host)))
    decreases |blocks|
  {
    hide Buildable, MessagesOf, Built, RunBlocks, Added, SadBackend;
    var es := Entries(path, blocks);
    if blocks == [] {
      NothingToRun(path, st, SadBackend(host));
      assert st.list + es == st.list && st.sent + Messages(es, host) == st.sent;
    } else {
      var rest, e := blocks[1..], es[0];
      assert es[1..] == Entries(path, rest);
      FirstIsBuilt(path, blocks, st, host);
      AddedSends(st, e, host);
      CreationsRun(path, rest, Added(st, e.name, e.data, host), host);
      Assoc(st.list, [e], es[1..]);
      Assoc(st.sent, MessagesOf(e, host), Messages(es[1..], host));
    }
  }

  lemma Assoc<T>(a: seq<T>, b: seq<T>, c: seq<T>)
    ensures a + (b + c) == a + b + c
  {
  }

  /**
   A transaction that creates associations appends each of them as read up to a bad protocol, in
   the order of the stream, and sends an SADB_ADD and an SADB_GET for each.
   */
  lemma CreationsArrive(path: string, blocks: seq<Block>, st: State, host: Host)
    requires WellSequenced(blocks) && (forall i | 0 <= i < |blocks| :: blocks[i].created)
    requires AllBuildable(Entries(path, blocks))
    ensures var es := Entries(path, blocks);
            Drive(Stream(path, blocks), st, SadBackend(host)) == Done(State(st.list + es, st.sent + Messages(es, host)))
  {
    hide Drive, Stream, RunBlocks, WellSequenced, Entries, AllBuildable, SadBackend, Messages;
    DriverRunsBlocks(path, blocks, st, SadBackend(host));
    CreationsRun(path, blocks, st, host);
  }

  lemma AddedSends(st: State, e: Entry<SadData>, host: Host)
    requires Buildable(e.data)
    ensures Added(st, e.name, e.data, host) == State(st.list + [e], st.sent + MessagesOf(e, host))
  {
    hide Buildable, AddMessage, NamingMessage;
  }

  lemma FirstIsBuilt(path: string, blocks: seq<Block>, st: State, host: Host)
    requires blocks != [] && blocks[0].created
    ensures Buildable(Built(path, blocks[0])) ==>
              RunBlocks(path, blocks, st, SadBackend(host)) ==
              RunBlocks(path, blocks[1..], Added(st, blocks[0].name, Built(path, blocks[0]), host), SadBackend(host))
  {
    hide Fold, Buildable, Added, EntryPath;
  }

  /**
   A created association is built from its leaves up to the first bad protocol, and this. That
   is all of them exactly when none but the last is a bad protocol.
   */
  lemma LeavesArriveIff(path: string, x: Block)
    ensures var cs := Changes(Created, EntryPath(path, x.name), x.leaves);
            && Built(path, x) == ApplyAll(BLANK_SAD, cs[..ReadLength(cs)])
            && (ReadLength(cs) == |cs| <==> forall i | 0 <= i < |cs| - 1 :: Accepted(cs[i]))
  {
    hide Accepted, ApplyAll, Fold;
    FoldReads(BLANK_SAD, Created, EntryPath(path, x.name), x.leaves);
    ReadLengthIff(Changes(Created, EntryPath(path, x.name), x.leaves));
  }

  /** The settings of an association with an inner protocol in front of its SPI. */
  function ProtocolFirst(local: string, remote: string, protocol: Value, spi: nat): seq<SadOrder.Setting> {
    [SadOrder.Setting(SadSchema.NLocalPrefix, Str(local)), SadOrder.Setting(SadSchema.NRemotePrefix, Str(remote)),
     SadOrder.Setting(SadSchema.NInnerProtocol, protocol), SadOrder.Setting(SadSchema.NSpi, Num(spi))]
  }

  /** An association with a bad protocol is added all the same, without the leaves behind it. */
  lemma BadProtocolIsAdded(name: string, local: string, remote: string, bad: Value, spi: nat, st: State, host: Host)
    requires Quotable(name) && Splits(local) && Splits(remote) && ProtocolOf(bad) > 256
    ensures var d := BLANK_SAD.(localSubnet := local, remoteSubnet := remote, innerProtocol := ProtocolOf(bad));
            var x := Block(true, name, SadOrder.LeavesOf(ProtocolFirst(local, remote, bad, spi)));
            Drive(Stream(Paths.Join(SadSchema.SAD_LIST), [x]), st, SadBackend(host)) == Done(Added(st, name, d, host))
  {
    hide Drive, Stream, Splits, Added, Buildable, SadBackend, RunBlocks, ProtocolFirst, Built, WellNamed, Paths.Join,
      ProtocolOf;
    var path, x := Paths.Join(SadSchema.SAD_LIST), Block(true, name,
                                                         SadOrder.LeavesOf(ProtocolFirst(local, remote, bad, spi)));
    BadProtocolRead(name, local, remote, bad, spi);
    SadOrder.SettingsAreNotNames(name, true, ProtocolFirst(local, remote, bad, spi));
    FourSettings(local, remote, bad, spi);
    SplitIsBuildable(Built(path, x));
    DriverRunsBlocks(path, [x], st, SadBackend(host));
    FirstIsBuilt(path, [x], st, host);
    assert [x][1..] == [];
    NothingToRun(path, Added(st, name, Built(path, x), host), SadBackend(host));
  }

  lemma FourSettings(local: string, remote: string, bad: Value, spi: nat)
    ensures |ProtocolFirst(local, remote, bad, spi)| == 4
  {
  }

  lemma SplitIsBuildable(d: SadData)
    requires SubnetsSplit(d) && d.encryptionKey == d.integrityKey == []
    ensures Buildable(d)
  {
    hide Splits;
  }

  lemma BadProtocolRead(name: string, local: string, remote: string, bad: Value, spi: nat)
    requires ProtocolOf(bad) > 256
    ensures Built(Paths.Join(SadSchema.SAD_LIST),
                  Block(true, name, SadOrder.LeavesOf(ProtocolFirst(local, remote, bad, spi)))) ==
            BLANK_SAD.(localSubnet := local, remoteSubnet := remote, innerProtocol := ProtocolOf(bad))
  {
    hide Fold, EntryPath, Paths.Join, ProtocolOf;
    var l := SadOrder.Setting(SadSchema.NLocalPrefix, Str(local));
    var r := SadOrder.Setting(SadSchema.NRemotePrefix, Str(remote));
    var p, s := SadOrder.Setting(SadSchema.NInnerProtocol, bad), SadOrder.Setting(SadSchema.NSpi, Num(spi));
    var d := BLANK_SAD.(localSubnet := local);
    var e := d.(remoteSubnet := remote);
    assert [l, r, p, s] == [l] + [r, p, s] && [r, p, s] == [r] + [p, s];
    SadOrder.ReadStep(BLANK_SAD, name, l, [r, p, s]);
    SadOrder.ReadStep(d, name, r, [p, s]);
    SadOrder.BadProtocolLosesSpi(e, name, bad, spi);
    assert SadOrder.Pair(SadSchema.NInnerProtocol, bad, SadSchema.NSpi, Num(spi)) == [p, s];
  }

  /** A transaction that deletes one association is its removal, which is how a request to delete comes back. */
  lemma DeletionArrives(path: string, name: string, leaves: seq<Leaf>, st: State, host: Host)
    requires WellNamed(Block(false, name, leaves)) && Has(st.list, name)
    ensures Drive(Stream(path, [Block(false, name, leaves)]), st, SadBackend(host)) == Done(Removed(st, name, host))
  {
    hide Drive, Stream, Removed, Fold, WellNamed, IndexOf;
    var b := SadBackend(host);
    IndexOfIsFirst(st.list, name);
    DriverRunsBlocks(path, [Block(false, name, leaves)], st, b);
    assert [Block(false, name, leaves)][1..] == [];
    NothingToRun(path, Removed(st, name, host), b);
  }

  /**
   Removing the name just added gives the old list back when the name was new. Otherwise the
   older entry of the name is the one that goes, and the new one stays.
   */
  lemma RemoveUndoesAdd(st: State, name: string, d: SadData, host: Host)
    requires Buildable(d) && AllBuildable(st.list)
    ensures var l := Removed(Added(st, name, d, host), name, host).list;
            && (!Has(st.list, name) ==> l == st.list)
            && (Has(st.list, name) ==> l == RemoveFirst(st.list, name) + [Entry(name, d)])
  {
    hide Buildable, IndexOf, AddMessage, NamingMessage;
    var s, e := st.list, Entry(name, d);
    IndexOfIsFirst(s, name);
    IndexOfIsFirst(s + [e], name);
    assert (s + [e])[|s|] == e;
    var i, j := IndexOf(s, name), IndexOf(s + [e], name);
    assert i == j by {
      if j < |s| {
        assert (s + [e])[j] == s[j];
      }
      if i < |s| {
        assert (s + [e])[i] == s[i];
      }
    }
    assert (s + [e])[..|s|] == s;
  }

  lemma BuildableAppend(s: SadSeq, e: Entry<SadData>)
    requires AllBuildable(s) && Buildable(e.data)
    ensures AllBuildable(s + [e])
  {
    hide Buildable;
  }

  class Store {
    const host: Host
    const list: List<SadData>
    var sent: seq<seq<byte>>

    ghost function Repr(): set<object>
      reads this, list
    {
      {this, list} + set n | n in list.nodes
    }

    ghost predicate Valid()
      reads Repr()
    {
      list.Valid() && AllBuildable(list.Contents())
    }

    ghost function Now(): State
      reads Repr()
    {
      State(list.Contents(), sent)
    }

    constructor (host: Host)
      ensures Valid() && Now() == State([], []) && this.host == host && fresh(Repr())
    {
      this.host := host;
      list := new List<SadData>();
      sent := [];
    }

    /** `addSAD_entry` after the entry has been read. */
    method AddEntry(name: string, d: SadData)
      requires Valid() && Buildable(d)
      modifies Repr()
      ensures Valid() && Now() == Added(old(Now()), name, d, host)
      ensures list.Contents() == old(list.Contents()) + [Entry(name, d)]
      ensures sent == old(sent) + [AddMessage(d, host), NamingMessage(SADB_GET, d, host)]
      ensures fresh(Repr() - old(Repr()))
    {
      hide AddMessage, NamingMessage, Buildable, AllBuildable, List<SadData>.Valid;
      var node := new Node<SadData>(name, d, null);
      list.Add(node);
      BuildableAppend(old(list.Contents()), Entry(name, d));
      Announce(d);
    }

    /** `pf_addsad` and then `pf_getsad`. */
    method Announce(d: SadData)
      requires Buildable(d)
      modifies this`sent
      ensures sent == old(sent) + [AddMessage(d, host), NamingMessage(SADB_GET, d, host)]
    {
      hide AddMessage, NamingMessage, Addable, SubnetsSplit;
      var add, len := BuildAdd(d, host);
      sent := sent + [add[..len]];
      var get, n := BuildNaming(SADB_GET, d, host);
      sent := sent + [get[..n]];
    }

    /** `removeSAD_entry`: false, and nothing done, when the name is unknown. */
    method RemoveEntry(name: string) returns (ok: bool)
      requires Valid()
      modifies Repr()
      ensures Valid() && Now() == Removed(old(Now()), name, host)
      ensures ok <==> Has(old(list.Contents()), name)
      ensures var i, was := IndexOf(old(list.Contents()), name), old(list.Contents());
              if i == |was| then sent == old(sent)
              else SubnetsSplit(was[i].data)
                   && sent == old(sent) + [NamingMessage(SADB_GET, was[i].data, host),
                                           NamingMessage(SADB_DELETE, was[i].data, host)]
      ensures Repr() <= old(Repr())
    {
      hide AddMessage, NamingMessage, Addable, SubnetsSplit, IndexOf, RemoveAt, Has;
      IndexOfIsFirst(list.Contents(), name);
      var node := list.Get(name);
      if node == null {
        return false;
      }
      ghost var i := IndexOf(list.Contents(), name);
      assert Buildable(list.Contents()[i].data);
      var get, n := BuildNaming(SADB_GET, node.data, host);
      sent := sent + [get[..n]];
      var del, m := BuildNaming(SADB_DELETE, node.data, host);
      sent := sent + [del[..m]];
      assert sent == old(sent) + Farewell(node.data, host);
      ok := list.Delete(name);
      RemoveAtElements(old(list.nodes), i);
      RemoveAtElements(old(list.Contents()), i);
    }

    /** One round of the callback's loop, on a change just taken from the iterator. */
    method OneChange(it: Iter, x: Change) returns (ok: bool)
      requires Valid() && it.Valid() && it !in Repr() && !Drive([x] + it.Rest(), Now(), SadBackend(host)).Crashed?
      modifies Repr(), it
      ensures Valid() && it.Valid() && |it.Rest()| <= |old(it.Rest())|
      ensures fresh(Repr() - old(Repr())) && it !in Repr()
      ensures Drive([x] + old(it.Rest()), old(Now()), SadBackend(host)) ==
              if ok then Drive(it.Rest(), Now(), SadBackend(host)) else Failed(Now())
    {
      hide EndsInName, ReadFrom, Added, AllBuildable, List<SadData>.Valid, Buildable, IndexOf, Has;
      ghost var cs := [x] + it.Rest();
      assert cs[1..] == it.Rest();
      ok := true;
      if (x.op != Created && x.op != Deleted) || !EndsInName(x.path) {
        return;
      }
      var name := x.value.text;
      if x.op == Created {
        var status, entry := ReadEntry(it, EntryPathOf(x.path), BLANK_SAD, SadApply);
        if status == Missing {
          return false;
        }
        AddEntry(name, entry);
      } else {
        IndexOfIsFirst(list.Contents(), name);
        ok := RemoveEntry(name);
      }
    }

    /**
     `sad_entry_change_cb`. The result and the final state are those of the specified loop over
     the changes; the caller's changes must not make the source follow a null reference.
     */
    method ChangeCallback(it: Iter, isChange: bool) returns (ok: bool)
      requires Valid() && it.Valid() && it !in Repr()
      requires isChange ==> !Drive(it.Rest(), Now(), SadBackend(host)).Crashed?
      modifies Repr(), it
      ensures Valid() && fresh(Repr() - old(Repr()))
      ensures !isChange ==> ok && Now() == old(Now())
      ensures isChange ==>
                Drive(old(it.Rest()), old(Now()), SadBackend(host)) == if ok then Done(Now()) else Failed(Now())
    {
      hide Drive, SadBackend, Valid, Now;
      if !isChange {
        return true;
      }
      ghost var b := SadBackend(host);
      ghost var outcome := Drive(it.Rest(), Now(), b);
      while true
        invariant it.Valid() && Valid()
        invariant fresh(Repr() - old(Repr())) && it !in Repr()
        invariant Drive(it.Rest(), Now(), b) == outcome
        decreases |it.Rest()|
      {
        ghost var rest := it.Rest();
        var c := it.Next();
        if c.None? {
          DriveEnds(Now(), b);
          return true;
        }
        assert rest == [c.value] + it.Rest();
        ok := OneChange(it, c.value);
        if !ok {
          return false;
        }
      }
    }
  }
}
