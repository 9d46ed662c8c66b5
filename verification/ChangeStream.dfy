/**
 The change stream of a configuration transaction, and the two loops that share its iterator:
 the callback, and the reader that the callback calls for each new entry. The reader looks one
 change too far and drops it.
 */
module ChangeStream {
  import opened Text

  datatype Oper = Created | Deleted | Modified | Moved

  datatype Value = Str(text: string) | Num(num: nat) | Flag(flag: bool)

  /** One change; `value` is the new value of a creation and the old value of anything else. */
  datatype Change = Change(op: Oper, path: string, value: Value)

  class Iter {
    const changes: seq<Change>
    var pos: nat

    ghost predicate Valid()
      reads this
    {
      pos <= |changes|
    }

    ghost function Rest(): seq<Change>
      requires Valid()
      reads this
    {
      changes[pos..]
    }

    constructor (changes: seq<Change>)
      ensures Valid() && Rest() == changes && this.changes == changes
    {
      this.changes, pos := changes, 0;
    }

    method Next() returns (c: Option<Change>)
      requires Valid()
      modifies this
      ensures Valid()
      ensures if old(Rest()) == [] then c == None && Rest() == []
              else c == Some(old(Rest())[0]) && Rest() == old(Rest())[1..]
    {
      if pos == |changes| {
        return None;
      }
      c, pos := Some(changes[pos]), pos + 1;
    }
  }

  // ----- the reader

  /** What one leaf does to an entry: update it, or also end the reading with an error. */
  datatype Applied<+E> = Next(entry: E) | Stop(entry: E)

  datatype Reading<+E> = Reading(stopped: bool, entry: E, rest: seq<Change>)

  /** The loop of both readers: it ends behind the first change outside the entry. */
  function ReadFrom<E>(cs: seq<Change>, path: string, e: E, apply: (E, Change) -> Applied<E>): (r: Reading<E>)
    ensures |r.rest| <= |cs|
    decreases |cs|
  {
    if cs == [] then Reading(false, e, [])
    else if !(path <= cs[0].path) then Reading(false, e, cs[1..])
    else
      match apply(e, cs[0])
      case Stop(e') => Reading(true, e', cs[1..])
      case Next(e') => ReadFrom(cs[1..], path, e', apply)
  }

  datatype Status = Missing | Completed | Stopped

  /** `readSAD_entry` and `readSPD_entry`, which differ in what a leaf does. */
  method ReadEntry<E>(it: Iter, path: string, blank: E, apply: (E, Change) -> Applied<E>)
    returns (status: Status, entry: E)
    requires it.Valid()
    modifies it
    ensures it.Valid()
    ensures status == Missing <==> old(it.Rest()) == []
    ensures status == Missing ==> it.Rest() == [] && entry == blank
    ensures status != Missing ==>
              Reading(status == Stopped, entry, it.Rest()) == ReadFrom(old(it.Rest()), path, blank, apply)
  {
    entry := blank;
    var c := it.Next();
    if c.None? {
      return Missing, entry;
    }
    ghost var pending := old(it.Rest());
    while c.Some?
      invariant it.Valid()
      invariant c.Some? ==> pending != [] && c.value == pending[0] && it.Rest() == pending[1..]
      invariant c.None? ==> pending == [] && it.Rest() == []
      invariant ReadFrom(pending, path, entry, apply) == ReadFrom(old(it.Rest()), path, blank, apply)
      decreases |pending|
    {
      if !(path <= c.value.path) {
        return Completed, entry;
      }
      var r := apply(entry, c.value);
      entry := r.entry;
      if r.Stop? {
        return Stopped, entry;
      }
      pending := pending[1..];
      c := it.Next();
    }
    return Completed, entry;
  }

  // ----- the callback

  /** `new_entry`: the path of the change ends in "name". */
  predicate EndsInName(s: string) {
    |s| >= 4 && s[|s| - 4..] == "name"
  }

  /** `get_new_xpath`: the entry's path, without "/name". */
  function EntryPathOf(path: string): string
    requires |path| >= 5
  {
    path[..|path| - 5]
  }

  datatype Outcome<+S> = Done(state: S) | Failed(state: S) | Crashed

  /**
   What distinguishes the two lists: how a leaf is applied, whether a reading error counts,
   when an addition is skipped without reading, what the entry must satisfy for the kernel
   message to be built, and what adding and removing do. Removing fails on an unknown name.
   */
  datatype Backend<!S, !E> = Backend(
    blank: E,
    apply: (E, Change) -> Applied<E>,
    strict: bool,
    known: (S, string) -> bool,
    fit: E -> bool,
    add: (S, string, E) -> S,
    present: (S, string) -> bool,
    remove: (S, string) -> S)

  /** The callback from the change at the front of cs on. */
  ghost function Drive<S, E>(cs: seq<Change>, s: S, b: Backend<S, E>): Outcome<S>
    decreases |cs|
  {
    if cs == [] then Done(s)
    else
      var c, rest := cs[0], cs[1..];
      if (c.op != Created && c.op != Deleted) || !EndsInName(c.path) then Drive(rest, s, b)
      else if !c.value.Str? || |c.path| < 5 then Crashed
      else if c.op == Deleted then
        if b.present(s, c.value.text) then Drive(rest, b.remove(s, c.value.text), b) else Failed(s)
      else if b.known(s, c.value.text) then Drive(rest, s, b)
      else if rest == [] then Failed(s)
      else
        var r := ReadFrom(rest, EntryPathOf(c.path), b.blank, b.apply);
        if r.stopped && b.strict then Failed(s)
        else if !b.fit(r.entry) then Crashed
        else Drive(r.rest, b.add(s, c.value.text, r.entry), b)
  }

  lemma DriveEnds<S, E>(s: S, b: Backend<S, E>)
    ensures Drive([], s, b) == Done(s)
  {
  }

  /** Anything that ends in these four letters is taken for a name, and nothing else. */
  lemma EndsInNameIff(s: string)
    ensures EndsInName(s) <==> exists front: string :: s == front + "name"
  {
    if EndsInName(s) {
      assert s == s[..|s| - 4] + "name";
    }
    if front: string :| s == front + "name" {
      assert s[|s| - 4..] == "name";
    }
  }

  /** Changes that neither create nor delete do nothing to the lists when they reach the callback. */
  lemma {:induction false} OthersDoNothing<S, E>(cs: seq<Change>, s: S, b: Backend<S, E>)
    requires forall i | 0 <= i < |cs| :: cs[i].op == Modified || cs[i].op == Moved
    ensures Drive(cs, s, b) == Done(s)
    decreases |cs|
  {
    if cs != [] {
      assert forall i | 0 <= i < |cs[1..]| :: cs[1..][i] == cs[i + 1];
      OthersDoNothing(cs[1..], s, b);
    }
  }

  // ----- streams made of whole entries

  /** A leaf of an entry: its path below the entry, and its value. */
  datatype Leaf = Leaf(below: string, value: Value)

  /** All changes of one entry, created or deleted as a whole. */
  datatype Block = Block(created: bool, name: string, leaves: seq<Leaf>)

  /** The quotes around a key in a path: single ones, unless the key contains one. */
  function Quote(name: string): char {
    if '\'' in name then '"' else '\''
  }

  /** The name can be quoted: it does not contain both kinds. */
  predicate Quotable(name: string) {
    Quote(name) !in name
  }

  function EntryPath(list: string, name: string): string {
    list + "[name=" + [Quote(name)] + name + [Quote(name)] + "]"
  }

  function OperOf(b: Block): Oper {
    if b.created then Created else Deleted
  }

  function LeafChanges(op: Oper, entry: string, leaves: seq<Leaf>): seq<Change> {
    if leaves == [] then []
    else [Change(op, entry + leaves[0].below, leaves[0].value)] + LeafChanges(op, entry, leaves[1..])
  }

  function ListNode(list: string, b: Block): Change {
    Change(OperOf(b), EntryPath(list, b.name), Flag(true))
  }

  function NameLeaf(list: string, b: Block): Change {
    Change(OperOf(b), EntryPath(list, b.name) + "/name", Str(b.name))
  }

  function Stream(list: string, blocks: seq<Block>): seq<Change> {
    if blocks == [] then []
    else
      var b := blocks[0];
      [ListNode(list, b), NameLeaf(list, b)] + LeafChanges(OperOf(b), EntryPath(list, b.name), b.leaves)
      + Stream(list, blocks[1..])
  }

  /** Names are quoted in paths, and only the name leaf of an entry ends in "name". */
  predicate WellNamed(b: Block) {
    && Quotable(b.name)
    && forall i | 0 <= i < |b.leaves| :: !EndsInName(b.leaves[i].below)
  }

  /** No created entry is followed by one of its name; what is created last has a leaf to read. */
  predicate WellSequenced(blocks: seq<Block>) {
    && (forall i | 0 <= i < |blocks| :: WellNamed(blocks[i]))
    && (forall i | 0 <= i < |blocks| - 1 && blocks[i].created :: blocks[i].name != blocks[i + 1].name)
    && (blocks != [] ==> blocks[|blocks| - 1].created ==> blocks[|blocks| - 1].leaves != [])
  }

  /** An entry's leaves applied in order, up to the first that ends the reading. */
  function Fold<E>(e: E, op: Oper, entry: string, leaves: seq<Leaf>, apply: (E, Change) -> Applied<E>): Applied<E> {
    if leaves == [] then Next(e)
    else
      match apply(e, Change(op, entry + leaves[0].below, leaves[0].value))
      case Stop(e') => Stop(e')
      case Next(e') => Fold(e', op, entry, leaves[1..], apply)
  }

  /** Each entry dispatched once, in order, until one fails. */
  ghost function RunBlocks<S, E>(list: string, blocks: seq<Block>, s: S, b: Backend<S, E>): Outcome<S> {
    if blocks == [] then Done(s)
    else
      var x := blocks[0];
      if !x.created then
        if b.present(s, x.name) then RunBlocks(list, blocks[1..], b.remove(s, x.name), b) else Failed(s)
      else if b.known(s, x.name) then RunBlocks(list, blocks[1..], s, b)
      else
        var r := Fold(b.blank, Created, EntryPath(list, x.name), x.leaves, b.apply);
        if r.Stop? && b.strict then Failed(s)
        else if !b.fit(r.entry) then Crashed
        else RunBlocks(list, blocks[1..], b.add(s, x.name, r.entry), b)
  }

  lemma NothingToRun<S, E>(path: string, s: S, b: Backend<S, E>)
    ensures RunBlocks(path, [], s, b) == Done(s)
  {
  }

  /** For example. */
  lemma EntryPathSamples()
    ensures EntryPath("/a/b", "x") == "/a/b[name='x']" && EntryPath("/a/b", "x'y") == "/a/b[name=\"x'y\"]"
  {
    var t := "x'y";
    assert t[1] == '\'';
    assert "/a/b" + "[name=" == "/a/b[name=";
  }

  /** The quoted key makes entry paths prefix-free. */
  lemma EntryPathsDiffer(list: string, x: string, y: string, below: string)
    requires Quotable(x) && Quotable(y)
    ensures EntryPath(list, x) <= EntryPath(list, y) + below <==> x == y
  {
    var p, q := EntryPath(list, x), EntryPath(list, y) + below;
    var head, a, b := list + "[name=", Quote(x), Quote(y);
    var s, t := x + [a] + "]", y + [b] + ("]" + below);
    assert p == head + ([a] + s) && q == head + ([b] + t);
    if p <= q {
      assert p[|head|] == a && q[|head|] == b && p[|head|] == q[|head|];
      assert s == p[|head| + 1..] && t == q[|head| + 1..];
      assert t[..|s|] == s;
      QuotesAgree(a, x, y, "]", "]" + below);
    }
  }

  function QuoteAt(c: char, s: string): nat {
    if s == "" || s[0] == c then 0 else 1 + QuoteAt(c, s[1..])
  }

  lemma {:induction false} QuoteAfter(c: char, x: string, t: string)
    requires c !in x
    ensures QuoteAt(c, x + [c] + t) == |x|
    decreases |x|
  {
    if x != "" {
      assert (x + [c] + t)[1..] == x[1..] + [c] + t;
      QuoteAfter(c, x[1..], t);
    }
  }

  lemma QuotesAgree(c: char, x: string, y: string, t: string, u: string)
    requires c !in x && c !in y
    requires x + [c] + t <= y + [c] + u
    ensures x == y
  {
    var s := (y + [c] + u)[|x + [c] + t|..];
    assert y + [c] + u == x + [c] + (t + s);
    QuoteAfter(c, x, t + s);
    QuoteAfter(c, y, u);
    assert (y + [c] + u)[..|y|] == y && (x + [c] + (t + s))[..|x|] == x;
  }

  // ----- the driver on such streams

  lemma LeafIsNotNamed(list: string, name: string, below: string)
    requires !EndsInName(below)
    ensures !EndsInName(EntryPath(list, name) + below)
  {
    var p := EntryPath(list, name) + below;
    if |below| >= 4 {
      assert p[|p| - 4..] == below[|below| - 4..];
    } else {
      assert p[|p| - 1 - |below|] == ']';
      assert |p| >= 4 ==> p[|p| - 4..][3 - |below|] == ']';
    }
  }

  /** Leaves that reach the callback itself are passed over. */
  lemma {:induction false} LeavesAreSkipped<S, E>(list: string, x: Block, leaves: seq<Leaf>, tail: seq<Change>, s: S,
                                                  b: Backend<S, E>)
    requires forall i | 0 <= i < |leaves| :: !EndsInName(leaves[i].below)
    ensures Drive(LeafChanges(OperOf(x), EntryPath(list, x.name), leaves) + tail, s, b) == Drive(tail, s, b)
    decreases |leaves|
  {
    var cs := LeafChanges(OperOf(x), EntryPath(list, x.name), leaves);
    if leaves == [] {
      assert cs + tail == tail;
    } else {
      LeafIsNotNamed(list, x.name, leaves[0].below);
      LeavesAreSkipped(list, x, leaves[1..], tail, s, b);
      assert (cs + tail)[1..] == LeafChanges(OperOf(x), EntryPath(list, x.name), leaves[1..]) + tail;
    }
  }

  /**
   The reader on an entry's leaves and what follows them: it folds the leaves, and drops the
   first change behind them. A leaf that ends the reading leaves the later ones in the stream.
   */
  lemma {:induction false} ReaderFolds<E>(list: string, x: Block, leaves: seq<Leaf>, tail: seq<Change>, e: E,
                                          apply: (E, Change) -> Applied<E>)
    returns (k: nat)
    requires tail != [] ==> !(EntryPath(list, x.name) <= tail[0].path)
    ensures k <= |leaves|
    ensures var p := EntryPath(list, x.name);
            ReadFrom(LeafChanges(OperOf(x), p, leaves) + tail, p, e, apply) ==
            match Fold(e, OperOf(x), p, leaves, apply)
            case Next(e') => Reading(false, e', if tail == [] then [] else tail[1..])
            case Stop(e') => Reading(true, e', LeafChanges(OperOf(x), p, leaves[k..]) + tail)
    decreases |leaves|
  {
    var p := EntryPath(list, x.name);
    var cs := LeafChanges(OperOf(x), p, leaves);
    k := 0;
    if leaves == [] {
      assert cs + tail == tail;
    } else {
      var c := Change(OperOf(x), p + leaves[0].below, leaves[0].value);
      assert (cs + tail)[0] == c && (cs + tail)[1..] == LeafChanges(OperOf(x), p, leaves[1..]) + tail;
      match apply(e, c)
      case Next(e') =>
        k := ReaderFolds(list, x, leaves[1..], tail, e', apply);
        assert leaves[1..][k..] == leaves[k + 1..];
        k := k + 1;
      case Stop(e') =>
        k := 1;
    }
  }

  lemma StreamUnfolds(list: string, blocks: seq<Block>)
    requires blocks != []
    ensures var x, cs := blocks[0], Stream(list, blocks);
            && cs != [] && cs[0] == ListNode(list, x) && cs[1..] != [] && cs[1..][0] == NameLeaf(list, x)
            && cs[1..][1..] == LeafChanges(OperOf(x), EntryPath(list, x.name), x.leaves) + Stream(list, blocks[1..])
  {
    hide ListNode, NameLeaf, LeafChanges, EntryPath;
    var x := blocks[0];
    var l, t := LeafChanges(OperOf(x), EntryPath(list, x.name), x.leaves), Stream(list, blocks[1..]);
    assert Stream(list, blocks) == [ListNode(list, x)] + ([NameLeaf(list, x)] + (l + t));
    assert ([NameLeaf(list, x)] + (l + t))[1..] == l + t;
  }

  lemma NamesUnfold(list: string, x: Block)
    ensures !EndsInName(ListNode(list, x).path)
    ensures var p := NameLeaf(list, x).path;
            |p| >= 5 && EndsInName(p) && EntryPathOf(p) == EntryPath(list, x.name)
  {
    var p := EntryPath(list, x.name);
    assert !EndsInName("");
    LeafIsNotNamed(list, x.name, "");
    assert p + "" == p;
    assert (p + "/name")[|p| + 1..] == "name" && (p + "/name")[..|p|] == p;
  }

  /**
   Over any stream of whole entries the callback dispatches every entry exactly once, in order,
   with its leaves up to the first that ends the reading. The one change the reader drops is
   always the next entry's list node.
   */
  lemma {:induction false} DriverRunsBlocks<S, E>(list: string, blocks: seq<Block>, s: S, b: Backend<S, E>)
    requires WellSequenced(blocks)
    ensures Drive(Stream(list, blocks), s, b) == RunBlocks(list, blocks, s, b)
    ensures blocks != [] ==> Drive(Stream(list, blocks)[1..], s, b) == RunBlocks(list, blocks, s, b)
    decreases |blocks|
  {
    if blocks != [] {
      var x, rest := blocks[0], blocks[1..];
      StreamUnfolds(list, blocks);
      NamesUnfold(list, x);
      TailSequenced(blocks);
      var leaves := LeafChanges(OperOf(x), EntryPath(list, x.name), x.leaves);
      if !x.created || b.known(s, x.name) {
        var s' := if x.created then s else b.remove(s, x.name);
        LeavesAreSkipped(list, x, x.leaves, Stream(list, rest), s', b);
        DriverRunsBlocks(list, rest, s', b);
      } else {
        CreatedBlockRuns(list, blocks, s, b);
        var r := Fold(b.blank, Created, EntryPath(list, x.name), x.leaves, b.apply);
        DriverRunsBlocks(list, rest, b.add(s, x.name, r.entry), b);
      }
    }
  }

  lemma TailSequenced(blocks: seq<Block>)
    requires WellSequenced(blocks) && blocks != []
    ensures WellSequenced(blocks[1..])
  {
    var rest := blocks[1..];
    assert forall i | 0 <= i < |rest| :: rest[i] == blocks[i + 1];
  }

  /** One created entry: after it the stream goes on at the next list node, or just behind it. */
  lemma CreatedBlockRuns<S, E>(list: string, blocks: seq<Block>, s: S, b: Backend<S, E>)
    requires WellSequenced(blocks) && blocks != [] && blocks[0].created && !b.known(s, blocks[0].name)
    ensures var x, rest := blocks[0], Stream(list, blocks[1..]);
            var r := Fold(b.blank, Created, EntryPath(list, x.name), x.leaves, b.apply);
            Drive(Stream(list, blocks)[1..], s, b) ==
            if r.Stop? && b.strict then Failed(s)
            else if !b.fit(r.entry) then Crashed
            else Drive(if r.Stop? || rest == [] then rest else rest[1..], b.add(s, x.name, r.entry), b)
  {
    var x, tail := blocks[0], Stream(list, blocks[1..]);
    var p := EntryPath(list, x.name);
    StreamUnfolds(list, blocks);
    NamesUnfold(list, x);
    if |blocks| > 1 {
      StreamUnfolds(list, blocks[1..]);
      EntryPathsDiffer(list, x.name, blocks[1].name, "");
      assert EntryPath(list, blocks[1].name) + "" == EntryPath(list, blocks[1].name);
    }
    var k := ReaderFolds(list, x, x.leaves, tail, b.blank, b.apply);
    var r := Fold(b.blank, Created, p, x.leaves, b.apply);
    if r.Stop? {
      LeavesAreSkipped(list, x, x.leaves[k..], tail, b.add(s, x.name, r.entry), b);
    }
  }

  /** The condition on the last entry is needed: created without a leaf, it is an error. */
  lemma BareLastEntryFails<S, E>(list: string, x: Block, s: S, b: Backend<S, E>)
    requires x.created && x.leaves == [] && !b.known(s, x.name)
    ensures Drive(Stream(list, [x]), s, b) == Failed(s)
  {
    var cs := Stream(list, [x]);
    StreamUnfolds(list, [x]);
    NamesUnfold(list, x);
    assert [x][1..] == [];
    assert cs[1..][1..] == [];
  }

  predicate AllWithin(cs: seq<Change>, path: string) {
    forall i | 0 <= i < |cs| :: path <= cs[i].path
  }

  lemma {:induction false} ReadsAllWithin<E>(cs: seq<Change>, path: string, e: E, apply: (E, Change) -> Applied<E>)
    requires AllWithin(cs, path)
    ensures ReadFrom(cs, path, e, apply).stopped || ReadFrom(cs, path, e, apply).rest == []
    decreases |cs|
  {
    if cs != [] {
      match apply(e, cs[0])
      case Stop(e') =>
      case Next(e') =>
        assert forall i | 0 <= i < |cs[1..]| :: cs[1..][i] == cs[i + 1];
        ReadsAllWithin(cs[1..], path, e', apply);
    }
  }

  lemma {:induction false} LeavesAreWithin(op: Oper, entry: string, leaves: seq<Leaf>)
    ensures AllWithin(LeafChanges(op, entry, leaves), entry)
    decreases |leaves|
  {
    if leaves != [] {
      LeavesAreWithin(op, entry, leaves[1..]);
    }
  }

  /**
   So is the condition on neighbours: behind a created entry another one of its name, created or
   deleted, is read as part of it and never dispatched.
   */
  lemma RepeatedNameIsSwallowed<S, E>(list: string, x: Block, y: Block, s: S, b: Backend<S, E>)
    requires x.created && y.name == x.name && !b.known(s, x.name)
    ensures var cs := Stream(list, [x, y]);
            && |cs| >= 4
            && var r := ReadFrom(cs[2..], EntryPath(list, x.name), b.blank, b.apply);
               !r.stopped ==>
                 Drive(cs, s, b) == if b.fit(r.entry) then Done(b.add(s, x.name, r.entry)) else Crashed
  {
    var cs, p := Stream(list, [x, y]), EntryPath(list, x.name);
    var one, two := LeafChanges(OperOf(x), p, x.leaves), LeafChanges(OperOf(y), p, y.leaves);
    StreamUnfolds(list, [x, y]);
    assert [x, y][1..] == [y] && [y][1..] == [];
    StreamUnfolds(list, [y]);
    NamesUnfold(list, x);
    LeavesAreWithin(OperOf(x), p, x.leaves);
    LeavesAreWithin(OperOf(y), p, y.leaves);
    var t := Stream(list, [y]);
    assert t == [ListNode(list, y), NameLeaf(list, y)] + two;
    assert cs[2..] == cs[1..][1..] == one + t;
    assert AllWithin(one + t, p);
    ReadsAllWithin(one + t, p, b.blank, b.apply);
    assert Drive(cs, s, b) == Drive(cs[1..], s, b);
    var r := ReadFrom(one + t, p, b.blank, b.apply);
    DriveEnds(b.add(s, x.name, r.entry), b);
    assert one + t != [];
  }
}
