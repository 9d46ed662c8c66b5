/**
 An association written as leaves of the schema, in any order, is read back as that association,
 exactly unless the entry's name misdirects a leaf. The values are those of the schema: numbers,
 texts of an enumeration with what they stand for, and hexadecimal texts.
 */
module SadReadBack {
  import opened Bytes
  import opened Text
  import opened HexKey
  import opened SadEntry
  import opened ChangeStream
  import opened SadReader
  import opened Paths
  import opened SadSchema
  import opened SadOrder
  import KeyPipeline

  // ----- texts of an enumeration

  predicate IsLower(s: string) {
    forall k | 0 <= k < |s| :: 'a' <= s[k] <= 'z'
  }

  /** The text in lower-case letters, or with some of them in upper case. */
  predicate Spells(s: string, word: string) {
    |s| == |word| && forall k | 0 <= k < |s| :: s[k] == word[k] || s[k] as int + 32 == word[k] as int
  }

  lemma SpellsUnfolds(s: string, word: string)
    requires s != "" && word != ""
    ensures Spells(s, word) <==>
              (s[0] == word[0] || s[0] as int + 32 == word[0] as int) && Spells(s[1..], word[1..])
  {
    var t, u := s[1..], word[1..];
    assert forall k | 0 < k < |s| :: s[k] == t[k - 1];
    assert forall k | 0 < k < |word| :: word[k] == u[k - 1];
    assert forall k | 0 <= k < |t| :: t[k] == s[k + 1];
    assert forall k | 0 <= k < |u| :: u[k] == word[k + 1];
  }

  lemma {:induction false} LowerCaseIff(s: string, word: string)
    requires IsLower(word)
    ensures LowerCase(s) == word <==> Spells(s, word)
    decreases |s|
  {
    if s != "" && word != "" {
      SpellsUnfolds(s, word);
      LowerCaseIff(s[1..], word[1..]);
      hide Spells;
      var l := LowerCase(s);
      assert l[1..] == LowerCase(s[1..]);
      assert l == [l[0]] + l[1..] && word == [word[0]] + word[1..];
    }
  }

  /** The mode of an association: 2 for tunnel, 1 for transport, in any spelling; other texts change nothing. */
  lemma ModeIsRead(d: SadData, name: string, text: string)
    ensures SadApply(d, Change(Created, PathOf(name, NMode), Str(text))) ==
            Next(d.(ipsecMode := if Spells(text, "tunnel") then 2
                                 else if Spells(text, "transport") then 1
                                 else d.ipsecMode))
  {
    hide TargetOf, PathOf, LowerCase, Spells;
    SchemaTarget(name, NMode);
    LowerCaseIff(text, "tunnel");
    LowerCaseIff(text, "transport");
    OneSpelling(text);
  }

  lemma OneSpelling(text: string)
    ensures !(Spells(text, "tunnel") && Spells(text, "transport"))
  {
  }

  lemma SpellingsOfTunnel()
    ensures Spells("tunnel", "tunnel") && Spells("TUNNEL", "tunnel") && Spells("Tunnel", "tunnel")
    ensures !Spells("Tunnels", "tunnel") && !Spells("tunnek", "tunnel")
  {
    assert "tunnek"[5] != "tunnel"[5];
  }

  /** The other choices are compared letter by letter; other texts change nothing. */
  lemma ChoicesAreRead(d: SadData, name: string, text: string)
    ensures SadApply(d, Change(Created, PathOf(name, NDfBit), Str(text))) ==
            Next(d.(dfBit := if text == "clear" then 0 else if text == "set" then 1
                             else if text == "copy" then 2 else d.dfBit))
    ensures SadApply(d, Change(Created, PathOf(name, NProtocolParameters), Str(text))) ==
            Next(d.(protocolParameters := if text == "esp" then 50 else d.protocolParameters))
  {
    hide TargetOf, PathOf;
    SchemaTarget(name, NDfBit);
    SchemaTarget(name, NProtocolParameters);
  }

  /** Of texts an inner protocol is only any, which is 256; another one is read as no number. */
  lemma AnyProtocolIsRead(d: SadData, name: string, text: string)
    ensures SadApply(d, Change(Created, PathOf(name, NInnerProtocol), Str(text))) ==
            Next(d.(innerProtocol := if text == "any" then 256 else 0))
  {
    hide TargetOf, PathOf;
    SchemaTarget(name, NInnerProtocol);
  }

  /** Three names the reader knows and the schema does not, behind any path. */
  lemma UnlistedNamesAreRead(d: SadData, a: string, n: nat, b: bool)
    ensures SadApply(d, Change(Created, a + "/seq-number-counter", Num(n))) == Next(d.(seqNumberCounter := n))
    ensures SadApply(d, Change(Created, a + "/anti-replay-window", Num(n))) == Next(d.(antiReplayWindow := n))
    ensures SadApply(d, Change(Created, a + "/ecn", Flag(b))) == Next(d.(ecn := b))
  {
    hide TargetNamed, LastSegment, IsSegment;
    UnlistedNames(a);
    UnlistedSegments();
    LastAfter(a, "/seq-number-counter");
    LastAfter(a, "/anti-replay-window");
    LastAfter(a, "/ecn");
  }

  lemma UnlistedSegments()
    ensures SegmentOf(SeqNumberCounter) == "/seq-number-counter" && SegmentOf(AntiReplayWindow) == "/anti-replay-window"
    ensures SegmentOf(Ecn) == "/ecn" && Plain(SeqNumberCounter) && Plain(AntiReplayWindow) && Plain(Ecn)
    ensures IsSegment("/seq-number-counter") && IsSegment("/anti-replay-window") && IsSegment("/ecn")
  {
  }

  lemma UnlistedNames(a: string)
    ensures TargetNamed("/seq-number-counter", a + "/seq-number-counter") == SeqNumberCounter
    ensures TargetNamed("/anti-replay-window", a + "/anti-replay-window") == AntiReplayWindow
    ensures TargetNamed("/ecn", a + "/ecn") == Ecn
  {
    hide TargetNamed, SegmentOf, IsSegment, Plain;
    UnlistedSegments();
    PlainName(SeqNumberCounter, a + "/seq-number-counter");
    PlainName(AntiReplayWindow, a + "/anti-replay-window");
    PlainName(Ecn, a + "/ecn");
  }

  /** A new entry is zero, false and empty everywhere. */
  lemma BlankIsZero(f: Field)
    ensures Get(BLANK_SAD, f) in {N(0), B(false), S(""), K([])}
    ensures Unread(BLANK_SAD) == (0, false, Lifetimes(0, 0, 0, 0))
  {
  }

  // ----- what the leaves of an association say

  function LimitOn(d: SadData, kind: Kind, soft: bool): nat {
    var l := if soft then d.soft else d.hard;
    match kind
    case Time => l.time
    case Octets => l.octets
    case Packets => l.packets
    case Idle => l.idle
  }

  predicate IsHexOf(v: Value, key: seq<byte>) {
    v.Str? && HexString(v.text) && Denoted(v.text) == key
  }

  /** The leaf has the value that the association has there. */
  predicate Gives(d: SadData, n: SadSchema.Node, v: Value) {
    match n
    case NReqId => v == Num(d.reqId)
    case NSpi => v == Num(d.spi) && d.spi < 0x1_0000_0000
    case NExtSeqNum => v == Flag(d.extSeqNum)
    case NSeqOverflow => v == Flag(d.seqOverflow)
    case NLocalPrefix => v == Str(d.localSubnet)
    case NRemotePrefix => v == Str(d.remoteSubnet)
    case NInnerProtocol => (v == Str("any") && d.innerProtocol == 256) || (v == Num(d.innerProtocol) && v.num < 256)
    case NPortStart(local, _, _) => v == Num(if local then d.srcPort else d.dstPort) && v.num < 0x1_0000
    case NProtocolParameters => v == Str("esp") && d.protocolParameters == 50
    case NMode =>
      v.Str? && ((Spells(v.text, "transport") && d.ipsecMode == 1) || (Spells(v.text, "tunnel") && d.ipsecMode == 2))
    case NEncryptionAlgorithm => v == Num(d.encryptionAlg) && v.num < 0x8000
    case NEncryptionKey => IsHexOf(v, d.encryptionKey)
    case NIv => IsHexOf(v, d.encryptionIv)
    case NIntegrityAlgorithm => v == Num(d.integrityAlg) && v.num < 0x8000
    case NIntegrityKey => IsHexOf(v, d.integrityKey)
    case NLifetime(kind, soft) => v == Num(LimitOn(d, kind, soft)) && v.num < 0x8000_0000
    case NTunnelLocal => v == Str(d.tunnelLocal)
    case NTunnelRemote => v == Str(d.tunnelRemote)
    case NDfBit =>
      || (v == Str("clear") && d.dfBit == 0) || (v == Str("set") && d.dfBit == 1) || (v == Str("copy") && d.dfBit == 2)
    case NBypassDscp => v == Flag(d.bypassDscp)
    case _ => true
  }

  ghost predicate Mentioned(xs: seq<Setting>, f: Field) {
    exists i :: 0 <= i < |xs| && f in Writes(MeantBy(xs[i].node))
  }

  /** Every leaf gives the association's value, and what no leaf is about is as in a new entry. */
  ghost predicate Describes(d: SadData, xs: seq<Setting>) {
    && Unread(d) == Unread(BLANK_SAD)
    && (forall i | 0 <= i < |xs| :: Gives(d, xs[i].node, xs[i].value))
    && (forall f: Field :: Mentioned(xs, f) || Get(d, f) == Get(BLANK_SAD, f))
  }

  // ----- one leaf

  lemma NumbersMean(d: SadData, n: SadSchema.Node, v: Value, f: Field, was: Content)
    requires Gives(d, n, v) && f in Writes(MeantBy(n))
    requires n.NReqId? || n.NSpi? || n.NEncryptionAlgorithm? || n.NIntegrityAlgorithm? || n.NPortStart?
    ensures Meaning(f, v, was) == Get(d, f)
  {
  }

  lemma SwitchesMean(d: SadData, n: SadSchema.Node, v: Value, f: Field, was: Content)
    requires Gives(d, n, v) && f in Writes(MeantBy(n))
    requires n.NExtSeqNum? || n.NSeqOverflow? || n.NBypassDscp? || n.NLocalPrefix? || n.NRemotePrefix?
          || n.NTunnelLocal? || n.NTunnelRemote?
    ensures Meaning(f, v, was) == Get(d, f)
  {
  }

  lemma ProtocolMeans(d: SadData, v: Value, was: Content)
    requires Gives(d, NInnerProtocol, v)
    ensures Meaning(FInnerProtocol, v, was) == Get(d, FInnerProtocol)
  {
  }

  lemma DfBitMeans(d: SadData, v: Value, was: nat)
    requires Gives(d, NDfBit, v)
    ensures Meaning(FDfBit, v, N(was)) == Get(d, FDfBit)
  {
  }

  lemma ParametersMean(d: SadData, v: Value, was: nat)
    requires Gives(d, NProtocolParameters, v)
    ensures Meaning(FProtocolParameters, v, N(was)) == Get(d, FProtocolParameters)
  {
  }

  lemma ModeMeans(d: SadData, v: Value, was: nat)
    requires Gives(d, NMode, v)
    ensures Meaning(FMode, v, N(was)) == Get(d, FMode)
  {
    hide LowerCase, Spells;
    LowerCaseIff(v.text, "tunnel");
    LowerCaseIff(v.text, "transport");
  }

  lemma KeysMean(d: SadData, n: SadSchema.Node, v: Value, f: Field, was: Content)
    requires Gives(d, n, v) && f in Writes(MeantBy(n))
    requires n.NEncryptionKey? || n.NIntegrityKey? || n.NIv?
    ensures Meaning(f, v, was) == Get(d, f)
  {
    hide KeyOf, HexString, HexKey.Denoted;
    KeyPipeline.StoredKeyIff(v.text);
  }

  lemma LimitMeans(d: SadData, n: SadSchema.Node, v: Value, f: Field, was: Content)
    requires n.NLifetime? && Gives(d, n, v) && f in Writes(MeantBy(n))
    ensures Meaning(f, v, was) == Get(d, f)
  {
  }

  lemma ChoiceFields(n: SadSchema.Node, f: Field)
    requires f in Writes(MeantBy(n))
    ensures n.NInnerProtocol? ==> f == FInnerProtocol
    ensures n.NProtocolParameters? ==> f == FProtocolParameters
    ensures n.NDfBit? ==> f == FDfBit
    ensures n.NMode? ==> f == FMode
  {
  }

  lemma ChoicesAreNumbers(e: SadData)
    ensures Get(e, FProtocolParameters).N? && Get(e, FDfBit).N? && Get(e, FMode).N?
  {
  }

  /** A leaf directed to its own field gives it the association's value, whatever was there. */
  lemma LeafMeans(d: SadData, e: SadData, n: SadSchema.Node, v: Value, f: Field)
    requires Gives(d, n, v) && f in Writes(MeantBy(n))
    ensures Meaning(f, v, Get(e, f)) == Get(d, f)
  {
    hide Gives, Meaning, Get, Writes;
    ChoiceFields(n, f);
    ChoicesAreNumbers(e);
    if n.NReqId? || n.NSpi? || n.NEncryptionAlgorithm? || n.NIntegrityAlgorithm? || n.NPortStart? {
      NumbersMean(d, n, v, f, Get(e, f));
    } else if n.NExtSeqNum? || n.NSeqOverflow? || n.NBypassDscp? || n.NLocalPrefix? || n.NRemotePrefix?
           || n.NTunnelLocal? || n.NTunnelRemote? {
      SwitchesMean(d, n, v, f, Get(e, f));
    } else if n.NInnerProtocol? {
      ProtocolMeans(d, v, Get(e, f));
    } else if n.NProtocolParameters? {
      ParametersMean(d, v, Get(e, f).n);
    } else if n.NDfBit? {
      DfBitMeans(d, v, Get(e, f).n);
    } else if n.NMode? {
      ModeMeans(d, v, Get(e, f).n);
    } else if n.NEncryptionKey? || n.NIntegrityKey? || n.NIv? {
      KeysMean(d, n, v, f, Get(e, f));
    } else if n.NLifetime? {
      LimitMeans(d, n, v, f, Get(e, f));
    } else {
      NothingWritten(n);
    }
  }

  lemma NothingWritten(n: SadSchema.Node)
    requires MeantBy(n) == Ignored
    ensures Writes(MeantBy(n)) == {}
  {
  }

  lemma GivenIsAccepted(d: SadData, e: SadData, n: SadSchema.Node, v: Value)
    requires Gives(d, n, v)
    ensures ApplyTarget(e, MeantBy(n), v).Next?
  {
    hide Spells, IsHexOf, LimitOn, KeyOf, ModeOf, DfBitOf, ProtocolParametersOf, Signed16, Signed32, SetLimit;
  }

  /** What agreed still does, and what the leaf is about now does. */
  lemma LeafAdvances(d: SadData, e: SadData, name: string, x: Setting, f: Field)
    requires Gives(d, x.node, x.value) && SadSchema.Evades(name, x.node)
    ensures var r := ApplyTarget(e, SetBy(name, x.node), x.value);
            && r.Next? && Unread(r.entry) == Unread(e)
            && (Get(e, f) == Get(d, f) || f in Writes(MeantBy(x.node)) ==> Get(r.entry, f) == Get(d, f))
  {
    hide Gives, Meaning, Get, Writes, ApplyTarget, Contains, Unread;
    EvadingIsMeant(name, x.node);
    ApplyWrites(e, MeantBy(x.node), x.value, f);
    ApplyKeepsUnread(e, MeantBy(x.node), x.value);
    GivenIsAccepted(d, e, x.node, x.value);
    if f in Writes(MeantBy(x.node)) {
      LeafMeans(d, e, x.node, x.value, f);
    }
  }

  lemma EvadingIsMeant(name: string, n: SadSchema.Node)
    requires SadSchema.Evades(name, n)
    ensures SetBy(name, n) == MeantBy(n)
  {
    hide Contains;
  }

  // ----- all leaves

  lemma MentionedUnfolds(x: Setting, rest: seq<Setting>, f: Field)
    ensures Mentioned([x] + rest, f) <==> f in Writes(MeantBy(x.node)) || Mentioned(rest, f)
  {
    hide Writes, MeantBy;
    var xs := [x] + rest;
    if f in Writes(MeantBy(x.node)) {
      assert xs[0] == x;
    }
    if i :| 0 <= i < |rest| && f in Writes(MeantBy(rest[i].node)) {
      assert xs[i + 1] == rest[i];
    }
    if i :| 0 <= i < |xs| && f in Writes(MeantBy(xs[i].node)) {
      assert i > 0 ==> xs[i] == rest[i - 1];
    }
  }

  lemma {:induction false} ReadsField(d: SadData, e: SadData, name: string, xs: seq<Setting>, f: Field)
    requires forall i | 0 <= i < |xs| :: Gives(d, xs[i].node, xs[i].value) && SadSchema.Evades(name, xs[i].node)
    ensures var r := ReadAll(e, name, xs);
            && r.Next? && Unread(r.entry) == Unread(e)
            && (Get(e, f) == Get(d, f) || Mentioned(xs, f) ==> Get(r.entry, f) == Get(d, f))
    decreases |xs|
  {
    hide ReadAll, Gives, SadSchema.Evades, Get, Unread, ApplyTarget, SetBy, Mentioned, Writes, MeantBy;
    if xs == [] {
      NothingToRead(e, name, f);
    } else {
      var x, rest := xs[0], xs[1..];
      assert xs == [x] + rest && forall i | 0 <= i < |rest| :: rest[i] == xs[i + 1];
      ReadStep(e, name, x, rest);
      LeafAdvances(d, e, name, x, f);
      MentionedUnfolds(x, rest, f);
      ReadsField(d, ApplyTarget(e, SetBy(name, x.node), x.value).entry, name, rest, f);
    }
  }

  lemma NothingToRead(e: SadData, name: string, f: Field)
    ensures ReadAll(e, name, []) == Next(e) && !Mentioned([], f)
  {
  }

  /** Where no leaf is misdirected the association is read back, whatever the order of its leaves. */
  lemma AssociationReturns(name: string, d: SadData, xs: seq<Setting>)
    requires Describes(d, xs) && forall i | 0 <= i < |xs| :: SadSchema.Evades(name, xs[i].node)
    ensures ReadAll(BLANK_SAD, name, xs) == Next(d)
  {
    hide ReadAll, Gives, SadSchema.Evades, Get, Unread, Mentioned;
    var r := ReadAll(BLANK_SAD, name, xs);
    forall f
      ensures Get(r.entry, f) == Get(d, f)
    {
      ReadsField(d, BLANK_SAD, name, xs, f);
    }
    ReadsField(d, BLANK_SAD, name, xs, FSpi);
    FieldsDetermine(r.entry, d);
  }

  /** Every association that leaves describe is read back under this name, in every order of its leaves. */
  ghost predicate ReadsBack(name: string) {
    forall d, xs | Describes(d, xs) :: ReadAll(BLANK_SAD, name, xs) == Next(d)
  }

  // ----- unsafe names

  /** An entry that differs from a new one in what two leaves say. */
  lemma PairDescribes(d: SadData, m: SadSchema.Node, v: Value, n: SadSchema.Node, w: Value)
    requires Gives(d, m, v) && Gives(d, n, w) && Unread(d) == Unread(BLANK_SAD)
    requires forall f: Field :: f in Writes(MeantBy(m)) || f in Writes(MeantBy(n)) || Get(d, f) == Get(BLANK_SAD, f)
    ensures Describes(d, Pair(m, v, n, w)) && Describes(d, Pair(n, w, m, v))
  {
    hide Gives, Unread, Writes, MeantBy, Get;
    var xs, ys := Pair(m, v, n, w), Pair(n, w, m, v);
    assert xs[0].node == m && xs[1].node == n && ys[0].node == n && ys[1].node == m;
    forall f: Field
      ensures Mentioned(xs, f) || Get(d, f) == Get(BLANK_SAD, f)
      ensures Mentioned(ys, f) || Get(d, f) == Get(BLANK_SAD, f)
    {
      if f in Writes(MeantBy(m)) {
        assert f in Writes(MeantBy(xs[0].node)) && f in Writes(MeantBy(ys[1].node));
      } else if f in Writes(MeantBy(n)) {
        assert f in Writes(MeantBy(xs[1].node)) && f in Writes(MeantBy(ys[0].node));
      }
    }
  }

  lemma PortsAreDescribed()
    ensures var m, n := NPortStart(true, 1, 1), NPortStart(false, 2, 2);
            var d := BLANK_SAD.(srcPort := 1, dstPort := 2);
            Describes(d, Pair(m, Num(1), n, Num(2))) && Describes(d, Pair(n, Num(2), m, Num(1)))
  {
    hide Describes;
    var m, n := NPortStart(true, 1, 1), NPortStart(false, 2, 2);
    PairDescribes(BLANK_SAD.(srcPort := 1, dstPort := 2), m, Num(1), n, Num(2));
  }

  lemma LifetimesAreDescribed()
    ensures var d := BLANK_SAD.(soft := NO_LIFETIMES.(time := 1), hard := NO_LIFETIMES.(time := 2));
            Describes(d, Pair(NLifetime(Time, true), Num(1), NLifetime(Time, false), Num(2)))
  {
    hide Describes;
    var d := BLANK_SAD.(soft := NO_LIFETIMES.(time := 1), hard := NO_LIFETIMES.(time := 2));
    PairDescribes(d, NLifetime(Time, true), Num(1), NLifetime(Time, false), Num(2));
  }

  lemma KeysAreDescribed(v: Value, w: Value)
    requires IsHexOf(v, [1]) && IsHexOf(w, [2])
    ensures var d := BLANK_SAD.(encryptionKey := [1], integrityKey := [2]);
            && Describes(d, Pair(NEncryptionKey, v, NIntegrityKey, w))
            && Describes(d, Pair(NIntegrityKey, w, NEncryptionKey, v))
  {
    hide Describes, IsHexOf;
    PairDescribes(BLANK_SAD.(encryptionKey := [1], integrityKey := [2]), NEncryptionKey, v, NIntegrityKey, w);
  }

  lemma SampleKeys()
    ensures KeyOf(Str(Canonical([1]))) == [1] && KeyOf(Str(Canonical([2]))) == [2]
    ensures IsHexOf(Str(Canonical([1])), [1]) && IsHexOf(Str(Canonical([2])), [2])
  {
    hide Canonical, DecodePairs, Without;
    CanonicalRoundTrip([1]);
    CanonicalRoundTrip([2]);
    assert CutAtZero([1]) == [1] && CutAtZero([2]) == [2];
  }

  /** Associations are read back under a name if and only if it contains none of the five parts. */
  lemma ReadsBackIff(name: string)
    ensures ReadsBack(name) <==> SadSchema.SafeName(name)
  {
    hide ReadAll, Describes, Contains, Pair, Canonical, KeyOf, SadSchema.Evades;
    if SadSchema.SafeName(name) {
      forall d, xs: seq<Setting> | Describes(d, xs)
        ensures ReadAll(BLANK_SAD, name, xs) == Next(d)
      {
        forall i | 0 <= i < |xs| {
          SafeEvades(name, xs[i].node);
        }
        AssociationReturns(name, d, xs);
      }
    }
    if ReadsBack(name) {
      PortsAreDescribed();
      PortsMeet(name, 1, 2);
      SampleKeys();
      KeysAreDescribed(Str(Canonical([1])), Str(Canonical([2])));
      KeysMeet(name, Str(Canonical([1])), Str(Canonical([2])));
      LifetimesAreDescribed();
      LifetimesMeet(name, 1, 2);
    }
  }
}
