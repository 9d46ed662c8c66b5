/**
 The order of the leaves of an association. Entries of distinct schema nodes, with one port range
 a side and no bad protocol, are read alike in every order exactly when the entry's name is safe.
 */
module SadOrder {
  import opened Text
  import opened HexKey
  import opened SadEntry
  import opened ChangeStream
  import opened SadReader
  import opened Paths
  import opened SadSchema

  /** A leaf of an entry: a node of the schema and its value. */
  datatype Setting = Setting(node: SadSchema.Node, value: Value)

  function LeafOf(x: Setting): Leaf {
    Leaf(Join(Below(x.node)), x.value)
  }

  function LeavesOf(xs: seq<Setting>): (ls: seq<Leaf>)
    ensures |ls| == |xs|
    ensures forall i | 0 <= i < |xs| :: ls[i] == LeafOf(xs[i])
  {
    seq(|xs|, i requires 0 <= i < |xs| => LeafOf(xs[i]))
  }

  function EntryOf(name: string): string {
    EntryPath(Join(SAD_LIST), name)
  }

  /** The reader on the leaves of an entry. */
  function ReadAll(d: SadData, name: string, xs: seq<Setting>): Applied<SadData> {
    Fold(d, Created, EntryOf(name), LeavesOf(xs), SadApply)
  }

  function ChangesFor(name: string, xs: seq<Setting>): (cs: seq<Change>)
    ensures |cs| == |xs|
    ensures forall i | 0 <= i < |xs| :: cs[i] == Change(Created, PathOf(name, xs[i].node), xs[i].value)
  {
    hide EntryPath, Join, Below;
    Changes(Created, EntryOf(name), LeavesOf(xs))
  }

  predicate SameSide(m: SadSchema.Node, n: SadSchema.Node) {
    m.NPortStart? && n.NPortStart? && m.local == n.local
  }

  /** No node twice, no two port ranges on one side, no bad protocol. */
  predicate ValidEntry(xs: seq<Setting>) {
    && (forall i, j | 0 <= i < j < |xs| :: xs[i].node != xs[j].node && !SameSide(xs[i].node, xs[j].node))
    && (forall i | 0 <= i < |xs| && xs[i].node == NInnerProtocol :: ProtocolOf(xs[i].value) <= 256)
  }

  // ----- safe names

  lemma MeantInjective(m: SadSchema.Node, n: SadSchema.Node)
    requires MeantBy(m) == MeantBy(n) != Ignored
    ensures m == n || SameSide(m, n)
  {
  }

  /** Distinct nodes are meant to write distinct fields. */
  lemma NodesWriteApart(m: SadSchema.Node, n: SadSchema.Node)
    requires m != n && !SameSide(m, n)
    ensures Writes(MeantBy(m)) !! Writes(MeantBy(n))
  {
    hide Writes, MeantBy, SameSide, OwnerOf;
    forall f | f in Writes(MeantBy(m))
      ensures f !in Writes(MeantBy(n))
    {
      FieldOwner(m, f);
      if f in Writes(MeantBy(n)) {
        FieldOwner(n, f);
        NothingIgnored(f);
        MeantInjective(m, n);
      }
    }
  }

  lemma NothingIgnored(f: Field)
    ensures OwnerOf(f) != Ignored
  {
  }

  lemma FieldOwner(n: SadSchema.Node, f: Field)
    requires f in Writes(MeantBy(n))
    ensures MeantBy(n) == OwnerOf(f)
  {
    hide OwnerOf, Writes;
    OwnerWrites(MeantBy(n), f);
    SearchedFields(n, f);
  }

  lemma SearchedFields(n: SadSchema.Node, f: Field)
    requires f in Writes(MeantBy(n))
    ensures MeantBy(n).Ports? || MeantBy(n).Key? ==> MeantBy(n) == OwnerOf(f)
  {
  }

  lemma SafeLeavesAreUnambiguous(name: string, xs: seq<Setting>)
    requires SafeName(name) && ValidEntry(xs)
    ensures Unambiguous(ChangesFor(name, xs))
  {
    hide TargetOf, PathOf, Writes, MeantBy, SetBy, SafeName, SameSide, ProtocolOf;
    var cs := ChangesFor(name, xs);
    SafeIff(name);
    forall i | 0 <= i < |cs|
      ensures TargetOf(cs[i].path) == MeantBy(xs[i].node) && Accepted(cs[i])
    {
      assert TargetOf(PathOf(name, xs[i].node)) == MeantBy(xs[i].node);
      ProtocolNode(xs[i].node);
    }
    forall i, j | 0 <= i < j < |cs|
      ensures WritesOf(cs[i]) !! WritesOf(cs[j])
    {
      NodesWriteApart(xs[i].node, xs[j].node);
    }
  }

  lemma ProtocolNode(n: SadSchema.Node)
    ensures MeantBy(n) == InnerProtocol <==> n == NInnerProtocol
  {
  }

  predicate Reordered(xs: seq<Setting>, ys: seq<Setting>) {
    multiset(xs) == multiset(ys)
  }

  /** Under a safe name every order of an entry's leaves reads alike, and to the end. */
  lemma SafeOrder(d: SadData, name: string, xs: seq<Setting>, ys: seq<Setting>)
    requires SafeName(name) && ValidEntry(xs) && ValidEntry(ys) && Reordered(xs, ys)
    ensures ReadAll(d, name, xs) == ReadAll(d, name, ys) && ReadAll(d, name, xs).Next?
  {
    hide SafeName, ValidEntry, PathOf, Fold, SadApply, EntryPath, Join, Unambiguous;
    SafeLeavesAreUnambiguous(name, xs);
    SafeLeavesAreUnambiguous(name, ys);
    SameElements(xs, ys);
    var cs, cs' := ChangesFor(name, xs), ChangesFor(name, ys);
    forall c
      ensures c in cs <==> c in cs'
    {
      if c in cs {
        var i :| 0 <= i < |cs| && cs[i] == c;
        var j :| 0 <= j < |ys| && ys[j] == xs[i];
        assert cs'[j] == c;
      }
      if c in cs' {
        var j :| 0 <= j < |cs'| && cs'[j] == c;
        var i :| 0 <= i < |xs| && xs[i] == ys[j];
        assert cs[i] == c;
      }
    }
    ReaderOrderIndependent(d, Created, EntryOf(name), LeavesOf(xs), LeavesOf(ys));
  }

  lemma SameElements(xs: seq<Setting>, ys: seq<Setting>)
    requires Reordered(xs, ys)
    ensures forall i | 0 <= i < |xs| :: xs[i] in ys
    ensures forall i | 0 <= i < |ys| :: ys[i] in xs
  {
    forall i | 0 <= i < |xs|
      ensures xs[i] in ys
    {
      assert xs[i] in multiset(xs);
    }
    forall i | 0 <= i < |ys|
      ensures ys[i] in xs
    {
      assert ys[i] in multiset(ys);
    }
  }

  // ----- unsafe names

  /** Two leaves, one after the other. */
  lemma TwoLeaves(d: SadData, name: string, x: Setting, y: Setting)
    requires x.node != NInnerProtocol && y.node != NInnerProtocol
    ensures var e := ApplyTarget(d, SetBy(name, x.node), x.value).entry;
            ReadAll(d, name, [x, y]) == Next(ApplyTarget(e, SetBy(name, y.node), y.value).entry)
  {
    hide TargetOf, PathOf, SetBy, ApplyTarget, EntryPath, Join;
    var cs := ChangesFor(name, [x, y]);
    SchemaTarget(name, x.node);
    SchemaTarget(name, y.node);
    NotProtocol(name, x.node);
    NotProtocol(name, y.node);
    FoldIsApplyAll(d, Created, EntryOf(name), LeavesOf([x, y]));
    ApplyAllFront(d, cs);
    assert cs[1..] == [cs[1]];
    ApplyAllFront(SadApply(d, cs[0]).entry, cs[1..]);
    assert cs[1..][1..] == [];
  }

  lemma NotProtocol(name: string, n: SadSchema.Node)
    requires n != NInnerProtocol
    ensures SetBy(name, n) != InnerProtocol
  {
    hide Contains;
  }

  /** Whatever the leaves of an entry of this name, their order does not matter. */
  ghost predicate OrderFree(name: string) {
    forall d, xs, ys | ValidEntry(xs) && ValidEntry(ys) && Reordered(xs, ys) ::
      ReadAll(d, name, xs) == ReadAll(d, name, ys)
  }

  function Pair(m: SadSchema.Node, v: Value, n: SadSchema.Node, w: Value): seq<Setting> {
    [Setting(m, v), Setting(n, w)]
  }

  lemma PairIsValid(m: SadSchema.Node, v: Value, n: SadSchema.Node, w: Value)
    requires m != n && !SameSide(m, n) && m != NInnerProtocol && n != NInnerProtocol
    ensures ValidEntry(Pair(m, v, n, w)) && ValidEntry(Pair(n, w, m, v))
    ensures Reordered(Pair(m, v, n, w), Pair(n, w, m, v))
  {
    var xs, ys := Pair(m, v, n, w), Pair(n, w, m, v);
    assert multiset(xs) == multiset{xs[0], xs[1]} && multiset(ys) == multiset{ys[0], ys[1]};
  }

  lemma PortsMeet(name: string, v: nat, w: nat)
    requires v < 0x1_0000 && w < 0x1_0000
    ensures var m, n := NPortStart(true, v, v), NPortStart(false, w, w);
            var e := ReadAll(BLANK_SAD, name, Pair(m, Num(v), n, Num(w))).entry;
            var e' := ReadAll(BLANK_SAD, name, Pair(n, Num(w), m, Num(v))).entry;
            && e.srcPort == (if Contains(name, "/local-ports") then w else v) && e'.srcPort == v
            && e'.dstPort == (if Contains(name, "/remote-ports") then v else w) && e.dstPort == w
  {
    hide Contains, ReadAll;
    var m, n := NPortStart(true, v, v), NPortStart(false, w, w);
    TwoLeaves(BLANK_SAD, name, Setting(m, Num(v)), Setting(n, Num(w)));
    TwoLeaves(BLANK_SAD, name, Setting(n, Num(w)), Setting(m, Num(v)));
  }

  lemma KeysMeet(name: string, v: Value, w: Value)
    ensures var e := ReadAll(BLANK_SAD, name, Pair(NEncryptionKey, v, NIntegrityKey, w)).entry;
            var e' := ReadAll(BLANK_SAD, name, Pair(NIntegrityKey, w, NEncryptionKey, v)).entry;
            && e.encryptionKey == (if Contains(name, "/encryption") then KeyOf(w) else KeyOf(v))
            && e'.encryptionKey == KeyOf(v) && e.integrityKey == KeyOf(w)
            && e'.integrityKey == (if Contains(name, "/integrity") then KeyOf(v) else KeyOf(w))
  {
    hide Contains, ReadAll, KeyOf;
    TwoLeaves(BLANK_SAD, name, Setting(NEncryptionKey, v), Setting(NIntegrityKey, w));
    TwoLeaves(BLANK_SAD, name, Setting(NIntegrityKey, w), Setting(NEncryptionKey, v));
  }

  lemma LifetimesMeet(name: string, v: nat, w: nat)
    requires v < 0x8000_0000 && w < 0x8000_0000
    ensures var m, n := NLifetime(Time, true), NLifetime(Time, false);
            var e := ReadAll(BLANK_SAD, name, Pair(m, Num(v), n, Num(w))).entry;
            var e' := ReadAll(BLANK_SAD, name, Pair(n, Num(w), m, Num(v))).entry;
            e.soft.time == (if Contains(name, "/sa-lifetime-soft") then w else v) && e'.soft.time == v
  {
    hide Contains, ReadAll, Signed32;
    Signed32Iff(v);
    Signed32Iff(w);
    var m, n := NLifetime(Time, true), NLifetime(Time, false);
    TwoLeaves(BLANK_SAD, name, Setting(m, Num(v)), Setting(n, Num(w)));
    TwoLeaves(BLANK_SAD, name, Setting(n, Num(w)), Setting(m, Num(v)));
  }

  lemma DifferentKeys()
    ensures KeyOf(Str(Canonical([1]))) != KeyOf(Str(Canonical([2])))
  {
    CanonicalRoundTrip([1]);
    CanonicalRoundTrip([2]);
    DecodesGrammar(Canonical([1]));
    DecodesGrammar(Canonical([2]));
    hide Canonical, DecodePairs, Without, HexString;
    assert KeyOf(Str(Canonical([1]))) == CutAtZero([1]) && KeyOf(Str(Canonical([2]))) == CutAtZero([2]);
    assert CutAtZero([1])[0] == 1 && CutAtZero([2])[0] == 2;
  }

  lemma FreePair(name: string, m: SadSchema.Node, v: Value, n: SadSchema.Node, w: Value)
    requires OrderFree(name) && m != n && !SameSide(m, n) && m != NInnerProtocol && n != NInnerProtocol
    ensures ReadAll(BLANK_SAD, name, Pair(m, v, n, w)) == ReadAll(BLANK_SAD, name, Pair(n, w, m, v))
  {
    hide ReadAll, ValidEntry, Reordered, Pair;
    PairIsValid(m, v, n, w);
  }

  /**
   The order of an entry's leaves never matters if and only if the name of the entry contains
   none of the parts the reader searches for.
   */
  lemma OrderFreeIff(name: string)
    ensures OrderFree(name) <==> SafeName(name)
  {
    hide ReadAll, ValidEntry, Reordered, Contains, Pair, Canonical, KeyOf;
    if SafeName(name) {
      forall d, xs, ys | ValidEntry(xs) && ValidEntry(ys) && Reordered(xs, ys)
        ensures ReadAll(d, name, xs) == ReadAll(d, name, ys)
      {
        SafeOrder(d, name, xs, ys);
      }
    }
    if OrderFree(name) {
      var v, w := Str(Canonical([1])), Str(Canonical([2]));
      FreePair(name, NPortStart(true, 1, 1), Num(1), NPortStart(false, 2, 2), Num(2));
      PortsMeet(name, 1, 2);
      FreePair(name, NEncryptionKey, v, NIntegrityKey, w);
      KeysMeet(name, v, w);
      DifferentKeys();
      FreePair(name, NLifetime(Time, true), Num(1), NLifetime(Time, false), Num(2));
      LifetimesMeet(name, 1, 2);
    }
  }

  lemma NamedAsPath()
    ensures Contains("x/encryption", "/encryption") && !Contains("x/encryption", "/integrity")
  {
    hide Contains, IsSegment;
    var name := "/encryption";
    assert "x" + name == "x/encryption";
    ContainerLiterals();
    SkipSlashless("x", name, name);
    SkipSlashless("x", name, "/integrity");
    PartOfSegment(name, name);
    PartOfSegment(name, "/integrity");
    PrefixAt("/integrity", name, 1);
  }

  /**
   Entries are named like paths, so this happens: under the name x/encryption the integrity key
   is also stored as encryption key, and which of the two stays depends on the order.
   */
  lemma SlashNameMixesKeys(v: Value, w: Value)
    ensures var e := ReadAll(BLANK_SAD, "x/encryption", Pair(NEncryptionKey, v, NIntegrityKey, w)).entry;
            e.encryptionKey == e.integrityKey == KeyOf(w)
    ensures var e := ReadAll(BLANK_SAD, "x/encryption", Pair(NIntegrityKey, w, NEncryptionKey, v)).entry;
            e.encryptionKey == KeyOf(v) && e.integrityKey == KeyOf(w)
    ensures TargetOf(PathOf("x/encryption", NIntegrityKey)) == Key(true, true)
  {
    hide ReadAll, Pair, KeyOf, TargetOf, PathOf, Contains;
    var name := "x/encryption";
    KeysMeet(name, v, w);
    NamedAsPath();
    SchemaTarget(name, NIntegrityKey);
  }

  /** Two port ranges on one side write one field under every name, and the last one stays. */
  lemma LastRangeStays(name: string, local: bool, v: nat, w: nat)
    requires v < 0x1_0000 && w < 0x1_0000
    ensures var m, n := NPortStart(local, v, v), NPortStart(local, w, w);
            var e := ReadAll(BLANK_SAD, name, Pair(m, Num(v), n, Num(w))).entry;
            (if local then e.srcPort else e.dstPort) == w
  {
    hide Contains, ReadAll;
    var m, n := NPortStart(local, v, v), NPortStart(local, w, w);
    TwoLeaves(BLANK_SAD, name, Setting(m, Num(v)), Setting(n, Num(w)));
  }

  /** The reader takes the first leaf, and goes on unless that ends the reading. */
  lemma ReadStep(d: SadData, name: string, x: Setting, rest: seq<Setting>)
    ensures ReadAll(d, name, [x] + rest) ==
            match ApplyTarget(d, SetBy(name, x.node), x.value)
            case Stop(e) => Stop(e)
            case Next(e) => ReadAll(e, name, rest)
  {
    hide TargetOf, EntryPath, Join, Below, ApplyTarget, SetBy;
    SchemaTarget(name, x.node);
    var ls := LeavesOf([x] + rest);
    assert ls[1..] == LeavesOf(rest);
    assert EntryOf(name) + ls[0].below == PathOf(name, x.node);
  }

  /** A leaf behind a bad inner protocol is lost: the SPI of this entry stays as it was. */
  lemma BadProtocolLosesSpi(d: SadData, name: string, bad: Value, spi: nat)
    requires ProtocolOf(bad) > 256
    ensures ReadAll(d, name, Pair(NInnerProtocol, bad, NSpi, Num(spi))) == Stop(d.(innerProtocol := ProtocolOf(bad)))
  {
    hide ReadAll, ProtocolOf;
    var x, y := Setting(NInnerProtocol, bad), Setting(NSpi, Num(spi));
    ReadStep(d, name, x, [y]);
    assert [x] + [y] == Pair(NInnerProtocol, bad, NSpi, Num(spi));
  }

  /** What the schema allows for an inner protocol: eight bits, or any. */
  predicate IsUint8OrAny(v: Value) {
    v == Str("any") || (v.Num? && v.num < 0x100)
  }

  /** With the values the schema allows for it, an inner protocol never ends the reading. */
  lemma SchemaProtocolsAreRead(d: SadData, name: string, xs: seq<Setting>)
    requires forall i | 0 <= i < |xs| && xs[i].node == NInnerProtocol :: IsUint8OrAny(xs[i].value)
    ensures ReadAll(d, name, xs).Next?
  {
    hide TargetOf, PathOf, SetBy, Fold, SadApply, EntryPath, Join, ProtocolOf, IsUint8OrAny;
    var cs := ChangesFor(name, xs);
    forall i | 0 <= i < |cs|
      ensures Accepted(cs[i])
    {
      SchemaTarget(name, xs[i].node);
      ProtocolOnly(name, xs[i].node);
      Uint8OrAnyFits(xs[i].value);
    }
    ReadToEndIff(d, Created, EntryOf(name), LeavesOf(xs));
  }

  lemma Uint8OrAnyFits(v: Value)
    ensures IsUint8OrAny(v) ==> ProtocolOf(v) <= 256
  {
  }

  lemma ProtocolOnly(name: string, n: SadSchema.Node)
    ensures SetBy(name, n) == InnerProtocol ==> n == NInnerProtocol
  {
    if n != NInnerProtocol {
      NotProtocol(name, n);
    }
  }

  // ----- leaves in the stream

  predicate EndsUnlikeName(s: string) {
    |s| >= 3 && !(s[|s| - 1] == 'e' && s[|s| - 2] == 'm' && s[|s| - 3] == 'a')
  }

  lemma UnreadIsNotName(n: SadSchema.Node)
    requires MeantBy(n) == Ignored
    ensures EndsUnlikeName(NodeName(n))
  {
    hide Decimal, Dotted;
  }

  lemma ReadIsNotName(n: SadSchema.Node)
    requires MeantBy(n) != Ignored
    ensures EndsUnlikeName(NodeName(n))
  {
  }

  lemma NameEnds(s: string)
    requires |s| >= 3
    ensures EndsInName(s) ==> s[|s| - 1] == 'e' && s[|s| - 2] == 'm' && s[|s| - 3] == 'a'
  {
    if |s| >= 4 {
      var t := s[|s| - 4..];
      assert t[1] == s[|s| - 3] && t[2] == s[|s| - 2] && t[3] == s[|s| - 1];
    }
  }

  /** A path ends like its last segment. */
  lemma LastSegmentDecides(segments: seq<string>)
    requires segments != [] && EndsUnlikeName(segments[|segments| - 1])
    ensures !EndsInName(Join(segments))
  {
    hide Join;
    var n := |segments| - 1;
    var s, t := Join(segments), segments[n];
    JoinEnds(segments);
    assert s == Join(segments[..n]) + t;
    assert s[|s| - 1] == t[|t| - 1] && s[|s| - 2] == t[|t| - 2] && s[|s| - 3] == t[|t| - 3];
    NameEnds(s);
  }

  /** No leaf of the schema is taken for the name of its entry. */
  lemma SettingsAreNotNames(name: string, created: bool, xs: seq<Setting>)
    requires Quotable(name)
    ensures WellNamed(Block(created, name, LeavesOf(xs)))
  {
    hide Join, NodeName, Container, MeantBy;
    forall i | 0 <= i < |xs|
      ensures !EndsInName(LeavesOf(xs)[i].below)
    {
      var n := xs[i].node;
      if MeantBy(n) == Ignored {
        UnreadIsNotName(n);
      } else {
        ReadIsNotName(n);
      }
      assert Below(n)[..|Below(n)| - 1] == Container(n);
      LastSegmentDecides(Below(n));
    }
  }
}
