/**
 The driver over any stream of whole entries, seen through a backend that only logs what it is
 told to do: which streams are dispatched entry by entry, and what becomes of the others.
 */
module StreamLog {
  import opened Text
  import opened ChangeStream

  /** One dispatch: an addition or a removal, and the name. */
  datatype Dispatch = Dispatch(created: bool, name: string)

  type Log = seq<Dispatch>

  datatype Nothing = Nothing

  function Ignore(e: Nothing, c: Change): Applied<Nothing> {
    Next(e)
  }

  /** Nothing is known, every removal succeeds, and no leaf is bad. */
  ghost function LogBackend(): Backend<Log, Nothing> {
    Backend(
      Nothing, Ignore, false,
      (s: Log, name: string) => false,
      (e: Nothing) => true,
      (s: Log, name: string, e: Nothing) => s + [Dispatch(true, name)],
      (s: Log, name: string) => true,
      (s: Log, name: string) => s + [Dispatch(false, name)])
  }

  function Dispatches(blocks: seq<Block>): (l: Log)
    ensures |l| == |blocks|
  {
    if blocks == [] then [] else [Dispatch(blocks[0].created, blocks[0].name)] + Dispatches(blocks[1..])
  }

  predicate AllWellNamed(blocks: seq<Block>) {
    forall i | 0 <= i < |blocks| :: WellNamed(blocks[i])
  }

  // ----- well-sequenced streams

  lemma {:induction false} BlocksAreLogged(list: string, blocks: seq<Block>, s: Log)
    ensures RunBlocks(list, blocks, s, LogBackend()) == Done(s + Dispatches(blocks))
    decreases |blocks|
  {
    var b := LogBackend();
    if blocks == [] {
      NothingToRun(list, s, b);
      assert s + Dispatches(blocks) == s;
    } else {
      var x, rest := blocks[0], blocks[1..];
      var next := s + [Dispatch(x.created, x.name)];
      BlocksAreLogged(list, rest, next);
      assert next + Dispatches(rest) == s + Dispatches(blocks);
    }
  }

  // ----- streams that are not

  /** How many entries in front have this name. */
  function Repeats(name: string, blocks: seq<Block>): (k: nat)
    ensures k <= |blocks|
    ensures k < |blocks| ==> blocks[k].name != name
  {
    if blocks == [] || blocks[0].name != name then 0 else 1 + Repeats(name, blocks[1..])
  }

  function Behind(cs: seq<Change>): (r: seq<Change>) {
    if cs == [] then [] else cs[1..]
  }

  lemma {:induction false} ReadsThrough(cs: seq<Change>, tail: seq<Change>, path: string)
    requires AllWithin(cs, path)
    ensures ReadFrom(cs + tail, path, Nothing, Ignore) == ReadFrom(tail, path, Nothing, Ignore)
    decreases |cs|
  {
    if cs == [] {
      assert cs + tail == tail;
    } else {
      assert (cs + tail)[1..] == cs[1..] + tail && (cs + tail)[0] == cs[0];
      ReadsThrough(cs[1..], tail, path);
    }
  }

  /** The reader swallows all entries of its name, and the list node of the next one. */
  lemma {:induction false} SwallowsRepeats(list: string, name: string, blocks: seq<Block>)
    requires AllWellNamed(blocks) && Quotable(name)
    ensures ReadFrom(Stream(list, blocks), EntryPath(list, name), Nothing, Ignore) ==
            Reading(false, Nothing, Behind(Stream(list, blocks[Repeats(name, blocks)..])))
    decreases |blocks|
  {
    hide EntryPath, WellNamed, Quotable;
    var p := EntryPath(list, name);
    if blocks != [] {
      var x, rest, cs := blocks[0], blocks[1..], Stream(list, blocks);
      StreamUnfolds(list, blocks);
      NameIsQuotable(x);
      if x.name == name {
        var leaves := LeafChanges(OperOf(x), p, x.leaves);
        LeavesAreWithin(OperOf(x), p, x.leaves);
        var front := [ListNode(list, x), NameLeaf(list, x)] + leaves;
        assert cs == front + Stream(list, rest);
        ReadsThrough(front, Stream(list, rest), p);
        SwallowsRepeats(list, name, rest);
        assert blocks[Repeats(name, blocks)..] == rest[Repeats(name, rest)..];
      } else {
        EntryPathsDiffer(list, name, x.name, "");
        assert EntryPath(list, x.name) + "" == EntryPath(list, x.name);
        assert blocks[0..] == blocks;
      }
    }
  }

  lemma NameIsQuotable(x: Block)
    requires WellNamed(x)
    ensures Quotable(x.name)
  {
  }

  /** A created entry with nothing behind its name fails; else it is logged, and its repeats are not. */
  lemma CreatedIsLogged(list: string, blocks: seq<Block>, s: Log)
    requires AllWellNamed(blocks) && blocks != [] && blocks[0].created
    ensures var x, rest, b := blocks[0], blocks[1..], LogBackend();
            Drive(Stream(list, blocks)[1..], s, b) ==
            if x.leaves == [] && rest == [] then Failed(s)
            else Drive(Behind(Stream(list, rest[Repeats(x.name, rest)..])), s + [Dispatch(true, x.name)], b)
  {
    hide EntryPath, EndsInName;
    var x, rest, b := blocks[0], blocks[1..], LogBackend();
    var p, cs := EntryPath(list, x.name), Stream(list, blocks);
    StreamUnfolds(list, blocks);
    NamesUnfold(list, x);
    var leaves := LeafChanges(OperOf(x), p, x.leaves);
    LeavesAreWithin(OperOf(x), p, x.leaves);
    ReadsThrough(leaves, Stream(list, rest), p);
    SwallowsRepeats(list, x.name, rest);
    if rest != [] {
      StreamUnfolds(list, rest);
    }
    assert cs[1..][1..] == leaves + Stream(list, rest);
    assert leaves == [] <==> x.leaves == [];
  }

  /** Not all n entries have been dispatched. */
  predicate Misses(r: Outcome<Log>, s: Log, n: nat) {
    r.Failed? || (r.Done? && |r.state| < |s| + n)
  }

  predicate AtMost(r: Outcome<Log>, s: Log, n: nat) {
    r.Failed? || (r.Done? && |r.state| <= |s| + n)
  }

  lemma {:induction false} UnsequencedMisses(list: string, blocks: seq<Block>, s: Log)
    requires AllWellNamed(blocks)
    ensures var r := Drive(Behind(Stream(list, blocks)), s, LogBackend());
            && Drive(Stream(list, blocks), s, LogBackend()) == r
            && AtMost(r, s, |blocks|) && (!WellSequenced(blocks) ==> Misses(r, s, |blocks|))
    decreases |blocks|
  {
    hide WellNamed, WellSequenced, LogBackend;
    var b := LogBackend();
    if blocks == [] {
      DriveEnds(s, b);
      EmptyIsSequenced();
      return;
    }
    var x, rest, cs := blocks[0], blocks[1..], Stream(list, blocks);
    assert AllWellNamed(rest);
    ListNodeIsSkipped(list, blocks, s);
    SequencedUnfolds(blocks);
    if x.created {
      CreatedIsLogged(list, blocks, s);
      var k := Repeats(x.name, rest);
      if x.leaves != [] || rest != [] {
        UnsequencedMisses(list, rest[k..], s + [Dispatch(true, x.name)]);
        assert rest[0..] == rest;
      }
    } else {
      DeletedIsLogged(list, blocks, s);
      UnsequencedMisses(list, rest, s + [Dispatch(false, x.name)]);
    }
  }

  lemma EmptyIsSequenced()
    ensures WellSequenced([])
  {
  }

  lemma ListNodeIsSkipped(list: string, blocks: seq<Block>, s: Log)
    requires blocks != []
    ensures var cs := Stream(list, blocks);
            cs != [] && Drive(cs, s, LogBackend()) == Drive(cs[1..], s, LogBackend())
  {
    StreamUnfolds(list, blocks);
    NamesUnfold(list, blocks[0]);
  }

  lemma DeletedIsLogged(list: string, blocks: seq<Block>, s: Log)
    requires AllWellNamed(blocks) && blocks != [] && !blocks[0].created
    ensures Drive(Stream(list, blocks)[1..], s, LogBackend()) ==
            Drive(Stream(list, blocks[1..]), s + [Dispatch(false, blocks[0].name)], LogBackend())
  {
    var x, rest := blocks[0], blocks[1..];
    StreamUnfolds(list, blocks);
    NamesUnfold(list, x);
    LeavesAreSkipped(list, x, x.leaves, Stream(list, rest), s + [Dispatch(false, x.name)], LogBackend());
  }

  /** What the first entry adds to the condition. */
  lemma SequencedUnfolds(blocks: seq<Block>)
    requires blocks != [] && AllWellNamed(blocks)
    ensures var x, rest := blocks[0], blocks[1..];
            WellSequenced(blocks) <==>
              && WellSequenced(rest)
              && (x.created ==> if rest == [] then x.leaves != [] else Repeats(x.name, rest) == 0)
  {
    hide WellNamed;
    var rest := blocks[1..];
    assert forall i | 0 <= i < |rest| :: rest[i] == blocks[i + 1];
    if WellSequenced(rest) && rest != [] && (blocks[0].created ==> blocks[0].name != rest[0].name) {
      forall i | 0 <= i < |blocks| - 1 && blocks[i].created
        ensures blocks[i].name != blocks[i + 1].name
      {
        if i > 0 {
          assert blocks[i] == rest[i - 1] && blocks[i + 1] == rest[i];
        }
      }
    }
  }

  /**
   A stream of whole entries is dispatched entry by entry, each once and in order, if and only if
   no created entry is followed by its own name and the last one, if created, has a leaf.
   */
  lemma DispatchedIff(list: string, blocks: seq<Block>)
    requires AllWellNamed(blocks)
    ensures Drive(Stream(list, blocks), [], LogBackend()) == Done(Dispatches(blocks)) <==> WellSequenced(blocks)
  {
    hide WellNamed, WellSequenced, LogBackend, Drive, Stream;
    if WellSequenced(blocks) {
      DriverRunsBlocks(list, blocks, [], LogBackend());
      BlocksAreLogged(list, blocks, []);
      assert [] + Dispatches(blocks) == Dispatches(blocks);
    } else {
      UnsequencedMisses(list, blocks, []);
    }
  }
}
