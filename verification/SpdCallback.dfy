/**
 The callback for policy changes: the change-stream loop over the policy store. It is proved exactly
 over which transactions made of whole entries the kernel stays the mirror of the list.
 */
module SpdCallback {
  import opened Text
  import opened SpdEntry
  import opened MessageBuffer
  import opened PolicyMessage
  import opened EntryList
  import opened SpdStore
  import opened ChangeStream
  import opened SpdReader

  /** What the dump loops find for the policy of a name and for its FORWARD companion. */
  type Ids = string -> (Option<int>, Option<int>)

  const CASE_VALUE := 2

  function OpFor(name: string, d: SpdData, ids: Ids): Op {
    Add(name, d, ids(name).0, ids(name).1)
  }

  ghost function Stepped(st: State, op: Op, host: Host): (r: State)
    ensures AllSplit(st.list) ==> AllSplit(r.list)
  {
    if AllSplit(st.list) && Sendable(op) then
      StepKeepsSplit(st, op, host);
      Step(st, op, host)
    else st
  }

  /** A present name is skipped unread, and a reading error fails the transaction. */
  ghost function SpdBackend(host: Host, ids: Ids): Backend<State, SpdData> {
    Backend(
      BLANK_SPD, SpdApply, true,
      (st: State, name: string) => Has(st.list, name),
      (d: SpdData) => PolicySplits(d),
      (st: State, name: string, d: SpdData) => Stepped(st, OpFor(name, d, ids), host),
      (st: State, name: string) => IndexOf(st.list, name) < |st.list|,
      (st: State, name: string) => Stepped(st, Remove(name), host))
  }

  // ----- the loop

  lemma RemoveUnknown(st: State, name: string, host: Host)
    requires AllSplit(st.list)
    ensures !Has(st.list, name) ==> Step(st, Remove(name), host) == st
  {
    IndexOfIsFirst(st.list, name);
  }

  /** One round of the callback's loop, on a change just taken from the iterator. */
  method OneChange(store: Store, it: Iter, x: Change, ids: Ids) returns (ok: bool)
    requires store.Valid() && it.Valid() && it !in store.Repr()
    requires !Drive([x] + it.Rest(), store.Now(), SpdBackend(store.host, ids)).Crashed?
    modifies store.Repr(), it
    ensures store.Valid() && it.Valid() && |it.Rest()| <= |old(it.Rest())|
    ensures fresh(store.Repr() - old(store.Repr())) && it !in store.Repr()
    ensures Drive([x] + old(it.Rest()), old(store.Now()), SpdBackend(store.host, ids)) ==
            if ok then Drive(it.Rest(), store.Now(), SpdBackend(store.host, ids)) else Failed(store.Now())
  {
    hide EndsInName, ReadFrom, Step, PolicySplits, List<SpdData>.Valid, IndexOf, Has;
    ghost var cs := [x] + it.Rest();
    assert cs[1..] == it.Rest();
    ok := true;
    if (x.op != Created && x.op != Deleted) || !EndsInName(x.path) {
      return;
    }
    var name := x.value.text;
    IndexOfIsFirst(store.list.Contents(), name);
    if x.op == Deleted {
      RemoveUnknown(store.Now(), name, store.host);
      ok := store.RemoveEntry(name, CASE_VALUE);
      return;
    }
    var present := store.list.Get(name);
    if present != null {
      return;
    }
    var status, entry := ReadEntry(it, EntryPathOf(x.path), BLANK_SPD, SpdApply);
    var read := if status == Completed then Some(entry) else None;
    assert store.Now() == old(store.Now());
    ghost var r := ReadFrom(old(it.Rest()), EntryPathOf(x.path), BLANK_SPD, SpdApply);
    assert status == Completed ==> r == Reading(false, entry, it.Rest());
    assert status == Stopped ==> r.stopped;
    ok := store.AddEntry(name, read, ids(name).0, ids(name).1, CASE_VALUE);
    assert status == Completed ==> store.Now() == Stepped(old(store.Now()), OpFor(name, entry, ids), store.host);
  }

  /**
   `spd_entry_change_cb`. The result and the final state are those of the specified loop over
   the changes; the caller's changes must not make the source follow a null reference.
   */
  method ChangeCallback(store: Store, it: Iter, ids: Ids, isChange: bool) returns (ok: bool)
    requires store.Valid() && it.Valid() && it !in store.Repr()
    requires isChange ==> !Drive(it.Rest(), store.Now(), SpdBackend(store.host, ids)).Crashed?
    modifies store.Repr(), it
    ensures store.Valid() && fresh(store.Repr() - old(store.Repr()))
    ensures !isChange ==> ok && store.Now() == old(store.Now())
    ensures isChange ==>
              Drive(old(it.Rest()), old(store.Now()), SpdBackend(store.host, ids)) ==
              if ok then Done(store.Now()) else Failed(store.Now())
  {
    hide Drive, SpdBackend, Store.Valid, Store.Now;
    if !isChange {
      return true;
    }
    ghost var b := SpdBackend(store.host, ids);
    ghost var outcome := Drive(it.Rest(), store.Now(), b);
    while true
      invariant it.Valid() && store.Valid()
      invariant fresh(store.Repr() - old(store.Repr())) && it !in store.Repr()
      invariant Drive(it.Rest(), store.Now(), b) == outcome
      decreases |it.Rest()|
    {
      ghost var rest := it.Rest();
      var c := it.Next();
      if c.None? {
        DriveEnds(store.Now(), b);
        return true;
      }
      assert rest == [c.value] + it.Rest();
      ok := OneChange(store, it, c.value, ids);
      if !ok {
        return false;
      }
    }
  }

  // ----- whole transactions

  /** What the reader makes of a created entry. */
  ghost function Built(path: string, x: Block): Applied<SpdData> {
    Fold(BLANK_SPD, Created, EntryPath(path, x.name), x.leaves, SpdApply)
  }

  /** The operation an entry of the transaction stands for. */
  ghost function OpOf(path: string, x: Block, ids: Ids): Op {
    if x.created then OpFor(x.name, Built(path, x).entry, ids) else Remove(x.name)
  }

  /** The transaction ends at this entry: a bad leaf in a new policy, or an unknown name to delete. */
  ghost predicate EndsAt(path: string, x: Block, st: State) {
    !Has(st.list, x.name) && (x.created ==> Built(path, x).Stop?)
  }

  /** What is kept: that the kernel mirrors the list; in full, that it also has a rule for each entry. */
  ghost predicate Kept(st: State, host: Host, full: bool) {
    if full then FullMirror(st, host) else Mirror(st, host)
  }

  ghost predicate Keeps(st: State, op: Op, host: Host, full: bool)
    requires AllSplit(st.list) && Sendable(op)
  {
    if full then Admissible(st, op, host) else Harmless(st, op, host)
  }

  /**
   Every policy that the transaction gets to create has subnets that split, and every operation is
   harmless when its turn comes; in full, also asks for free selectors.
   */
  ghost predicate KeepingBlocks(path: string, blocks: seq<Block>, st: State, host: Host, ids: Ids, full: bool)
    requires AllSplit(st.list)
  {
    blocks != [] ==>
      var x, op, rest := blocks[0], OpOf(path, blocks[0], ids), blocks[1..];
      if x.created && Has(st.list, x.name) then KeepingBlocks(path, rest, st, host, ids, full)
      else if EndsAt(path, x, st) then true
      else
        && Sendable(op) && Keeps(st, op, host, full)
        && KeepingBlocks(path, rest, Stepped(st, op, host), host, ids, full)
  }

  ghost predicate KeptAt(r: Outcome<State>, host: Host, full: bool) {
    !r.Crashed? && Kept(r.state, host, full)
  }

  /** It is kept behind every entry of the transaction. */
  ghost predicate KeptAlong(path: string, blocks: seq<Block>, st: State, host: Host, ids: Ids, full: bool) {
    forall i | 0 <= i <= |blocks| :: KeptAt(RunBlocks(path, blocks[..i], st, SpdBackend(host, ids)), host, full)
  }

  /**
   Over a transaction, whether it runs to the end or fails on a bad leaf or an unknown name, the
   kernel mirrors the list behind every entry if and only if every operation is harmless. In full:
   with a rule for each entry, if and only if every new policy asks for free selectors.
   */
  lemma {:induction false} TransactionMirrorIff(path: string, blocks: seq<Block>, st: State, host: Host, ids: Ids,
                                                full: bool)
    requires AllSplit(st.list) && Kept(st, host, full)
    ensures KeptAlong(path, blocks, st, host, ids, full) <==> KeepingBlocks(path, blocks, st, host, ids, full)
    decreases |blocks|
  {
    hide RunBlocks, SpdBackend, Built, Kept, Keeps, Has, Stepped, KeptAlong, PolicySplits;
    if blocks == [] {
      NothingIsKept(path, st, host, ids, full);
      return;
    }
    var x, op, rest := blocks[0], OpOf(path, blocks[0], ids), blocks[1..];
    if x.created && Has(st.list, x.name) {
      forall i | 0 < i <= |blocks| {
        KnownBlock(path, blocks[..i], st, host, ids);
      }
      AlongUnfolds(path, blocks, st, st, host, ids, full);
      TransactionMirrorIff(path, rest, st, host, ids, full);
    } else if EndsAt(path, x, st) {
      EndKeeps(path, blocks, st, host, ids, full);
    } else if !Sendable(op) {
      CrashKeepsNothing(path, blocks, st, host, ids, full);
    } else {
      var next := Stepped(st, op, host);
      forall i | 0 < i <= |blocks| {
        BlockRuns(path, blocks[..i], st, host, ids);
      }
      AlongUnfolds(path, blocks, st, next, host, ids, full);
      StepKeptIff(st, op, host, full);
      if Kept(next, host, full) {
        TransactionMirrorIff(path, rest, next, host, ids, full);
      } else if KeptAlong(path, rest, next, host, ids, full) {
        AlongStarts(path, rest, next, host, ids, full);
      }
    }
  }

  /** So the callback leaves such a mirror behind. */
  lemma TransactionKeepsMirror(path: string, blocks: seq<Block>, st: State, host: Host, ids: Ids, full: bool)
    requires WellSequenced(blocks) && AllSplit(st.list) && Kept(st, host, full)
    requires KeepingBlocks(path, blocks, st, host, ids, full)
    ensures var r := Drive(Stream(path, blocks), st, SpdBackend(host, ids)); !r.Crashed? && Kept(r.state, host, full)
  {
    hide Drive, Stream, WellSequenced, Kept, KeepingBlocks, SpdBackend, RunBlocks;
    DriverRunsBlocks(path, blocks, st, SpdBackend(host, ids));
    TransactionMirrorIff(path, blocks, st, host, ids, full);
    assert blocks[..|blocks|] == blocks;
  }

  lemma NothingIsKept(path: string, st: State, host: Host, ids: Ids, full: bool)
    ensures KeptAlong(path, [], st, host, ids, full) <==> Kept(st, host, full)
  {
    hide Kept;
    var none: seq<Block> := [];
    assert none[..0] == none;
    NothingToRun(path, st, SpdBackend(host, ids));
  }

  lemma AlongStarts(path: string, blocks: seq<Block>, st: State, host: Host, ids: Ids, full: bool)
    requires KeptAlong(path, blocks, st, host, ids, full)
    ensures Kept(st, host, full)
  {
    hide Kept;
    assert blocks[..0] == [];
    NothingToRun(path, st, SpdBackend(host, ids));
  }

  /** If the first entry leads from one state to the next, the rest of the transaction decides. */
  lemma AlongUnfolds(path: string, blocks: seq<Block>, st: State, next: State, host: Host, ids: Ids, full: bool)
    requires blocks != [] && Kept(st, host, full)
    requires forall i | 0 < i <= |blocks| ::
               RunBlocks(path, blocks[..i], st, SpdBackend(host, ids)) ==
               RunBlocks(path, blocks[..i][1..], next, SpdBackend(host, ids))
    ensures KeptAlong(path, blocks, st, host, ids, full) <==> KeptAlong(path, blocks[1..], next, host, ids, full)
  {
    hide Kept, RunBlocks, SpdBackend;
    var rest, b := blocks[1..], SpdBackend(host, ids);
    assert blocks[..0] == [];
    NothingToRun(path, st, b);
    forall i | 0 <= i <= |rest|
      ensures RunBlocks(path, rest[..i], next, b) == RunBlocks(path, blocks[..i + 1], st, b)
    {
      assert blocks[..i + 1][1..] == rest[..i];
    }
    if KeptAlong(path, rest, next, host, ids, full) {
      forall i | 0 <= i <= |blocks|
        ensures KeptAt(RunBlocks(path, blocks[..i], st, b), host, full)
      {
        if i > 0 {
          assert KeptAt(RunBlocks(path, rest[..i - 1], next, b), host, full);
        }
      }
    }
  }

  lemma EndKeeps(path: string, blocks: seq<Block>, st: State, host: Host, ids: Ids, full: bool)
    requires blocks != [] && EndsAt(path, blocks[0], st) && Kept(st, host, full)
    ensures KeptAlong(path, blocks, st, host, ids, full)
  {
    hide Kept, RunBlocks, SpdBackend, Built, Has;
    forall i | 0 <= i <= |blocks|
      ensures KeptAt(RunBlocks(path, blocks[..i], st, SpdBackend(host, ids)), host, full)
    {
      if i == 0 {
        NothingToRun(path, st, SpdBackend(host, ids));
      } else {
        EndingBlock(path, blocks[..i], st, host, ids);
      }
    }
  }

  lemma CrashKeepsNothing(path: string, blocks: seq<Block>, st: State, host: Host, ids: Ids, full: bool)
    requires blocks != [] && !Has(st.list, blocks[0].name) && !EndsAt(path, blocks[0], st)
    requires !Sendable(OpOf(path, blocks[0], ids))
    ensures !KeptAlong(path, blocks, st, host, ids, full)
  {
    hide Kept, Fold, Has, Stepped, PolicySplits;
    assert blocks[..1][0] == blocks[0];
    assert RunBlocks(path, blocks[..1], st, SpdBackend(host, ids)).Crashed?;
  }

  lemma StepKeptIff(st: State, op: Op, host: Host, full: bool)
    requires AllSplit(st.list) && Sendable(op) && Kept(st, host, full)
    ensures Kept(Stepped(st, op, host), host, full) <==> Keeps(st, op, host, full)
  {
    hide Mirror, FullMirror, Sound, Step, Harmless, Admissible, PolicySplits;
    StepKeepsSplit(st, op, host);
    if full {
      FullIsSound(st, host);
      FullIsSound(Step(st, op, host), host);
      StepSoundIff(st, op, host);
    } else {
      StepMirrorIff(st, op, host);
    }
  }

  // What each kind of block does.

  lemma KnownBlock(path: string, blocks: seq<Block>, st: State, host: Host, ids: Ids)
    requires blocks != [] && blocks[0].created && Has(st.list, blocks[0].name)
    ensures var b := SpdBackend(host, ids); RunBlocks(path, blocks, st, b) == RunBlocks(path, blocks[1..], st, b)
  {
    hide Fold, Stepped, Has;
  }

  lemma EndingBlock(path: string, blocks: seq<Block>, st: State, host: Host, ids: Ids)
    requires blocks != [] && EndsAt(path, blocks[0], st)
    ensures RunBlocks(path, blocks, st, SpdBackend(host, ids)) == Failed(st)
  {
    hide Fold, Stepped, Has, IndexOf;
    IndexOfIsFirst(st.list, blocks[0].name);
  }

  lemma BlockRuns(path: string, blocks: seq<Block>, st: State, host: Host, ids: Ids)
    requires blocks != [] && !EndsAt(path, blocks[0], st) && (blocks[0].created ==> !Has(st.list, blocks[0].name))
    requires Sendable(OpOf(path, blocks[0], ids))
    ensures RunBlocks(path, blocks, st, SpdBackend(host, ids)) ==
            RunBlocks(path, blocks[1..], Stepped(st, OpOf(path, blocks[0], ids), host), SpdBackend(host, ids))
  {
    hide Fold, Stepped, Has, IndexOf, PolicySplits;
    IndexOfIsFirst(st.list, blocks[0].name);
  }
}
