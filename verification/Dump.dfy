/**
 The two dump loops (RFC 2367, section 3.1.10): the one that learns the index the kernel gave a
 policy, and the one that reads the current lifetime of an association. A dump is the sequence
 of messages the kernel answers with; sequence number 0 marks the last.
 */
module Dump {
  import opened Bytes
  import opened Text
  import opened Wire
  import opened Extensions
  import opened SadEntry
  import opened SpdEntry
  import opened MessageBuffer
  import opened Walks

  function SequenceNumber(m: seq<byte>): nat
    requires |m| >= 16
  {
    U32At(m, 8)
  }

  lemma SequenceIsRead(m: seq<byte>)
    requires |m| >= 16
    ensures SequenceNumber(m) == ReadHeader(m[..16]).sequence
  {
    assert m[..16][8..12] == m[8..12];
  }

  // ----- learning a policy index

  /** The variables the loop fills from each message. */
  datatype Dumped = Dumped(index: int, dir: nat, req: Requested, local: string, remote: string)

  function AddressText(e: seq<byte>): string
    requires |e| >= 24
  {
    var a := ReadAddress(e);
    SockText(a.quad, a.port)
  }

  /** A dumped policy: the policy with whole requests in it, and two IPv4 addresses. */
  ghost predicate PolicyDumped(m: seq<byte>, exts: seq<nat>, reqs: seq<nat>) {
    && Delivered(m, exts) && Roomy(m, exts)
    && Body(m, exts, SADB_X_EXT_POLICY) != [] && RequestTiles(Body(m, exts, SADB_X_EXT_POLICY), 16, reqs)
    && Body(m, exts, SADB_EXT_ADDRESS_SRC) != [] && Body(m, exts, SADB_EXT_ADDRESS_DST) != []
    && ReadAddress(Body(m, exts, SADB_EXT_ADDRESS_SRC)).family == AF_INET
    && ReadAddress(Body(m, exts, SADB_EXT_ADDRESS_DST)).family == AF_INET
  }

  ghost function PolicyOf(m: seq<byte>, exts: seq<nat>): PolicyView {
    if WellFormed(m, exts) && |Body(m, exts, SADB_X_EXT_POLICY)| >= 16 then ReadPolicy(Body(m, exts, SADB_X_EXT_POLICY))
    else PolicyView(0, 0, 0, 0)
  }

  /** One message of the dump: the three extensions it must have decide every variable used. */
  method PolicyWalk(m: seq<byte>, was: Dumped, ghost exts: seq<nat>, ghost reqs: seq<nat>)
    returns (t: Dumped, left: int)
    requires PolicyDumped(m, exts, reqs)
    ensures left == 0
    ensures t.index == ToInt32(PolicyOf(m, exts).id) && t.dir == PolicyOf(m, exts).dir
    ensures t.req == LastRequest(Body(m, exts, SADB_X_EXT_POLICY), 16, reqs, was.req)
    ensures t.local == AddressText(Body(m, exts, SADB_EXT_ADDRESS_SRC))
    ensures t.remote == AddressText(Body(m, exts, SADB_EXT_ADDRESS_DST))
  {
    hide Walking, Seen, SliceAt, Body, ReadPolicy, AddressText, ToInt32, RequestTiles, LastRequest;
    WalkStarts(m, exts);
    t, left := was, |m| - 16;
    var off: nat := 16;
    ghost var k := 0;
    while left > 0
      invariant k <= |exts| && Walking(m, exts, k, off, left)
      invariant var p := Seen(m, exts, k, SADB_X_EXT_POLICY);
                if p == [] then t.req == was.req
                else p == Body(m, exts, SADB_X_EXT_POLICY)
                     && t.index == ToInt32(PolicyOf(m, exts).id) && t.dir == PolicyOf(m, exts).dir
                     && t.req == LastRequest(p, 16, reqs, was.req)
      invariant var s := Seen(m, exts, k, SADB_EXT_ADDRESS_SRC);
                s != [] ==> s == Body(m, exts, SADB_EXT_ADDRESS_SRC) && t.local == AddressText(s)
      invariant var s := Seen(m, exts, k, SADB_EXT_ADDRESS_DST);
                s != [] ==> s == Body(m, exts, SADB_EXT_ADDRESS_DST) && t.remote == AddressText(s)
      decreases left
    {
      WalkStep(m, exts, k, off, left);
      MetIsBody(m, exts, k);
      var ty, e := U16At(m, off + 2), SliceAt(m, off);
      if ty == SADB_X_EXT_POLICY {
        var p := ReadPolicy(e);
        var r, end := RequestWalk(e, t.req, reqs);
        t := t.(index := ToInt32(p.id), dir := p.dir, req := r);
      } else if ty == SADB_EXT_ADDRESS_SRC {
        t := t.(local := AddressText(e));
      } else if ty == SADB_EXT_ADDRESS_DST {
        t := t.(remote := AddressText(e));
      }
      left, off, k := left - 8 * U16At(m, off), off + 8 * U16At(m, off), k + 1;
    }
    WalkEnds(m, exts, k, off, left);
  }

  /** A policy as it was put on the wire: its direction and identifier, and an address with its port as text. */
  lemma PolicyAsWritten(m: seq<byte>, exts: seq<nat>, words: nat, ty: nat, dir: nat, id: nat, rest: seq<byte>)
    requires WellFormed(m, exts) && Body(m, exts, 18) == PolicyHeader(words, ty, dir, id) + rest
    ensures PolicyOf(m, exts).dir == dir % 256 && PolicyOf(m, exts).id == id % 0x1_0000_0000
  {
    hide WellFormed, Body, ReadPolicy, PolicyHeader;
    PolicyReads(words, ty, dir, id, rest);
  }

  lemma AddressAsWritten(ty: nat, proto: nat, prefixlen: nat, port: nat, quad: Quad, pad: Pad)
    requires port < 0x1_0000
    ensures AddressText(Address(ty, proto, prefixlen, port, quad, pad)) == SockText(quad, port)
  {
    hide Address, ReadAddress, SockText;
    AddressReads(ty, proto, prefixlen, port, quad, pad);
  }

  /** The comparison of the source: both address texts, and the direction. */
  ghost predicate Matches(d: SpdData, m: seq<byte>, exts: seq<nat>, reqs: seq<nat>)
    requires PolicyDumped(m, exts, reqs)
  {
    && GetIp(d.localSubnet) == Some(AddressText(Body(m, exts, SADB_EXT_ADDRESS_SRC)))
    && GetIp(d.remoteSubnet) == Some(AddressText(Body(m, exts, SADB_EXT_ADDRESS_DST)))
    && d.policyDir == PolicyOf(m, exts).dir
  }

  /** A dump of policies that ends: its last message, and only that one, is numbered 0. */
  ghost predicate PolicyDump(dump: seq<seq<byte>>, cuts: seq<seq<nat>>, reqs: seq<seq<nat>>) {
    && |dump| == |cuts| == |reqs| && |dump| > 0
    && (forall i | 0 <= i < |dump| :: |dump[i]| >= 16 && PolicyDumped(dump[i], cuts[i], reqs[i]))
    && (forall i | 0 <= i < |dump| :: SequenceNumber(dump[i]) == 0 <==> i == |dump| - 1)
  }

  /** The first matching message decides; without one the index stays. */
  ghost predicate FirstMatch(d: SpdData, dump: seq<seq<byte>>, cuts: seq<seq<nat>>, reqs: seq<seq<nat>>, i: nat)
    requires PolicyDump(dump, cuts, reqs) && i < |dump|
  {
    && Matches(d, dump[i], cuts[i], reqs[i])
    && forall j | 0 <= j < i :: !Matches(d, dump[j], cuts[j], reqs[j])
  }

  /** The dump part of `pf_addpolicy`: the index the entry has afterwards. */
  method DiscoverIndex(d: SpdData, dump: seq<seq<byte>>, ghost cuts: seq<seq<nat>>, ghost reqs: seq<seq<nat>>)
    returns (index: int, found: bool, ghost at: nat)
    requires PolicyDump(dump, cuts, reqs)
    requires GetIp(d.localSubnet).Some? && GetIp(d.remoteSubnet).Some?
    ensures found ==> at < |dump| && FirstMatch(d, dump, cuts, reqs, at)
    ensures found ==> index == ToInt32(PolicyOf(dump[at], cuts[at]).id)
    ensures !found ==> index == d.index && forall j | 0 <= j < |dump| :: !Matches(d, dump[j], cuts[j], reqs[j])
  {
    hide Matches, PolicyDumped, PolicyOf, GetIp;
    index, found, at := d.index, false, 0;
    var t := Dumped(0, 0, Requested(0, 0), "", "");
    var i, gotEof := 0, false;
    while !gotEof
      invariant 0 <= i <= |dump| && index == d.index && !found
      invariant forall j | 0 <= j < i :: !Matches(d, dump[j], cuts[j], reqs[j])
      invariant if gotEof then i == |dump| else i < |dump|
      decreases |dump| - i, !gotEof
    {
      var left;
      t, left := PolicyWalk(dump[i], t, cuts[i], reqs[i]);
      MatchesIs(d, dump[i], cuts[i], reqs[i]);
      if GetIp(d.localSubnet).value == t.local && GetIp(d.remoteSubnet).value == t.remote && d.policyDir == t.dir {
        index, found, at := t.index, true, i;
        return;
      }
      gotEof, i := SequenceNumber(dump[i]) == 0, i + 1;
    }
  }

  /** When one dumped policy matches and no other does, its identifier becomes the index. */
  lemma OnlyMatchIsFirst(d: SpdData, dump: seq<seq<byte>>, cuts: seq<seq<nat>>, reqs: seq<seq<nat>>, i: nat, at: nat)
    requires PolicyDump(dump, cuts, reqs) && i < |dump| && at < |dump| && FirstMatch(d, dump, cuts, reqs, at)
    requires forall j | 0 <= j < |dump| :: Matches(d, dump[j], cuts[j], reqs[j]) <==> j == i
    ensures at == i
  {
  }

  lemma MatchesIs(d: SpdData, m: seq<byte>, exts: seq<nat>, reqs: seq<nat>)
    requires PolicyDumped(m, exts, reqs)
    ensures Matches(d, m, exts, reqs) <==>
              && GetIp(d.localSubnet) == Some(AddressText(Body(m, exts, SADB_EXT_ADDRESS_SRC)))
              && GetIp(d.remoteSubnet) == Some(AddressText(Body(m, exts, SADB_EXT_ADDRESS_DST)))
              && d.policyDir == PolicyOf(m, exts).dir
  {
  }

  /**
   For an entry whose subnets are written with dotted addresses, a dumped policy matches
   exactly when addresses and direction agree and both of its ports are zero.
   */
  lemma MatchIsAddresses(d: SpdData, a: Quad, b: Quad, m: seq<byte>, exts: seq<nat>, reqs: seq<nat>)
    requires PolicyDumped(m, exts, reqs)
    requires GetIp(d.localSubnet) == Some(Dotted(a)) && GetIp(d.remoteSubnet) == Some(Dotted(b))
    ensures var src := ReadAddress(Body(m, exts, SADB_EXT_ADDRESS_SRC));
            var dst := ReadAddress(Body(m, exts, SADB_EXT_ADDRESS_DST));
            Matches(d, m, exts, reqs) <==>
              src.quad == a && dst.quad == b && src.port == 0 && dst.port == 0 && d.policyDir == PolicyOf(m, exts).dir
  {
    hide Dotted, WellFormed, Body, RequestTiles, ReadAddress;
    var src, dst := ReadAddress(Body(m, exts, SADB_EXT_ADDRESS_SRC)), ReadAddress(Body(m, exts, SADB_EXT_ADDRESS_DST));
    if SockText(src.quad, src.port) == Dotted(a) {
      SockTextDetermines(src.quad, src.port, a);
    }
    if SockText(dst.quad, dst.port) == Dotted(b) {
      SockTextDetermines(dst.quad, dst.port, b);
    }
    BareText(a);
    BareText(b);
  }

  lemma BareText(a: Quad)
    ensures SockText(a, 0) == Dotted(a)
  {
    assert Dotted(a) + "" == Dotted(a);
  }

  // ----- the current lifetime of an association

  /** The checks of the loop on the header of a message of `|m|` received octets. */
  predicate Passes(m: seq<byte>)
    requires |m| >= 16
  {
    |m| == 8 * MsgWords(m) && U8At(m, 0) == PF_KEY_V2 && |m| != 16
  }

  lemma PassesIff(m: seq<byte>)
    requires |m| >= 16
    ensures Passes(m) <==> |m| == 8 * ReadHeader(m[..16]).words && ReadHeader(m[..16]).version == 2 && |m| != 16
  {
    assert m[..16][4..6] == m[4..6];
  }

  /** A dumped association: its SA and its current lifetime, in either order. */
  ghost predicate AssociationDumped(m: seq<byte>, exts: seq<nat>) {
    && Delivered(m, exts) && Roomy(m, exts)
    && Body(m, exts, SADB_EXT_SA) != [] && Body(m, exts, SADB_EXT_LIFETIME_CURRENT) != []
  }

  ghost function SpiIn(m: seq<byte>, exts: seq<nat>): nat
    requires AssociationDumped(m, exts)
  {
    ReadSa(Body(m, exts, SADB_EXT_SA)).spi
  }

  /** An SPI is found as it was put on the wire. */
  lemma SpiAsWritten(m: seq<byte>, exts: seq<nat>, n: nat, replay: nat, state: nat, auth: nat, encrypt: nat)
    requires AssociationDumped(m, exts) && Body(m, exts, 1) == Sa(n, replay, state, auth, encrypt)
    ensures SpiIn(m, exts) == n % 0x1_0000_0000
  {
    hide WellFormed, Body, ReadSa, Sa;
    SaReads(n, replay, state, auth, encrypt);
  }

  /** The entry holds the four fields of the message's current lifetime, each in its place. */
  ghost predicate HasCurrent(l: Lifetimes, m: seq<byte>, exts: seq<nat>)
    requires AssociationDumped(m, exts)
  {
    var v := ReadLifetime(Body(m, exts, 2));
    l.packets == v.allocations && l.octets == v.octets && l.time == v.addtime && l.idle == v.usetime
  }

  /** For a lifetime as the kernel writes it: packets are its allocations, idle is its time of use. */
  lemma CurrentAsWritten(l: Lifetimes, m: seq<byte>, exts: seq<nat>, packets: nat, octets: nat, add: nat, use: nat)
    requires AssociationDumped(m, exts) && HasCurrent(l, m, exts)
    requires Body(m, exts, 2) == Lifetime(2, packets, octets, add, use)
    requires packets < 0x1_0000_0000 && octets < 0x1_0000_0000_0000_0000
    requires add < 0x1_0000_0000_0000_0000 && use < 0x1_0000_0000_0000_0000
    ensures l.packets == packets && l.octets == octets && l.time == add && l.idle == use
  {
    hide WellFormed, Body, ReadLifetime, Lifetime;
    LifetimeReads(2, packets, octets, add, use);
  }

  /** One message: whether it carries the SPI, and the lifetimes it writes into the entry. */
  method LifetimeWalk(m: seq<byte>, spi: nat, was: Lifetimes, ghost exts: seq<nat>)
    returns (found: bool, current: Lifetimes, left: int)
    requires AssociationDumped(m, exts)
    ensures left == 0
    ensures found <==> SpiIn(m, exts) == spi
    ensures HasCurrent(current, m, exts)
  {
    hide Walking, Seen, SliceAt, Body, ReadSa, ReadLifetime;
    WalkStarts(m, exts);
    found, current, left := false, was, |m| - 16;
    var off: nat := 16;
    ghost var k := 0;
    while left > 0
      invariant k <= |exts| && Walking(m, exts, k, off, left)
      invariant var s := Seen(m, exts, k, SADB_EXT_SA);
                (s != [] ==> s == Body(m, exts, SADB_EXT_SA)) && (found <==> s != [] && SpiIn(m, exts) == spi)
      invariant var s := Seen(m, exts, k, SADB_EXT_LIFETIME_CURRENT);
                s != [] ==> s == Body(m, exts, SADB_EXT_LIFETIME_CURRENT) && HasCurrent(current, m, exts)
      decreases left
    {
      WalkStep(m, exts, k, off, left);
      MetIsBody(m, exts, k);
      var ty, e := U16At(m, off + 2), SliceAt(m, off);
      if ty == SADB_EXT_SA {
        if ReadSa(e).spi == spi {
          found := true;
        }
      } else if ty == SADB_EXT_LIFETIME_CURRENT {
        var l := ReadLifetime(e);
        current := Lifetimes(l.octets, l.allocations, l.addtime, if l.usetime == 0 then 0 else l.usetime);
      }
      left, off, k := left - 8 * U16At(m, off), off + 8 * U16At(m, off), k + 1;
    }
    WalkEnds(m, exts, k, off, left);
  }

  datatype Answer = Ok | NotFound | OperationFailed

  /** A dump whose messages are associations wherever they pass the checks, and which ends. */
  ghost predicate SaDump(dump: seq<seq<byte>>, cuts: seq<seq<nat>>) {
    && |dump| == |cuts| && |dump| > 0
    && (forall i | 0 <= i < |dump| :: |dump[i]| >= 16 && (Passes(dump[i]) ==> AssociationDumped(dump[i], cuts[i])))
    && SequenceNumber(dump[|dump| - 1]) == 0
  }

  /** The loop gets as far as message k: nothing before it stops the search. */
  ghost predicate Reached(spi: nat, dump: seq<seq<byte>>, cuts: seq<seq<nat>>, k: nat)
    requires SaDump(dump, cuts) && k < |dump|
  {
    forall j | 0 <= j < k :: Passes(dump[j]) && SpiIn(dump[j], cuts[j]) != spi && SequenceNumber(dump[j]) != 0
  }

  ghost predicate Answers(spi: nat, dump: seq<seq<byte>>, cuts: seq<seq<nat>>, k: nat, a: Answer)
    requires SaDump(dump, cuts) && k < |dump|
  {
    && Reached(spi, dump, cuts, k)
    && match a
       case Ok => Passes(dump[k]) && SpiIn(dump[k], cuts[k]) == spi
       case NotFound => Passes(dump[k]) && SpiIn(dump[k], cuts[k]) != spi && SequenceNumber(dump[k]) == 0
       case OperationFailed => !Passes(dump[k])
  }

  /**
   `pf_get_sad_lifetime_current_by_spi`. The answer is the one the deciding message gives; the
   four current fields are those of that message, or of the last message read before a
   failure, whichever association they belong to.
   */
  method LifetimeQuery(d: SadData, dump: seq<seq<byte>>, ghost cuts: seq<seq<nat>>)
    returns (rc: Answer, d': SadData, ghost at: nat)
    requires SaDump(dump, cuts)
    ensures at < |dump| && Answers(d.spi, dump, cuts, at, rc)
    ensures d' == d.(current := d'.current)
    ensures rc == OperationFailed && at == 0 ==> d'.current == d.current
    ensures rc != OperationFailed ==> HasCurrent(d'.current, dump[at], cuts[at])
    ensures rc == OperationFailed && at > 0 ==> HasCurrent(d'.current, dump[at - 1], cuts[at - 1])
  {
    hide AssociationDumped, SpiIn, HasCurrent, SequenceNumber, MsgWords;
    d', at := d, 0;
    var i, gotEof := 0, false;
    while !gotEof
      invariant 0 <= i <= |dump| && d' == d.(current := d'.current)
      invariant !gotEof ==> i < |dump| && Reached(d.spi, dump, cuts, i)
      invariant gotEof ==> i > 0 && Answers(d.spi, dump, cuts, i - 1, NotFound)
      invariant if i == 0 then d' == d
                else Passes(dump[i - 1]) && HasCurrent(d'.current, dump[i - 1], cuts[i - 1])
      decreases |dump| - i, !gotEof
    {
      at := i;
      var m := dump[i];
      if |m| != 8 * MsgWords(m) {
        return OperationFailed, d', i;
      }
      if U8At(m, 0) != PF_KEY_V2 {
        return OperationFailed, d', i;
      }
      if |m| == 16 {
        return OperationFailed, d', i;
      }
      var found, current, left := LifetimeWalk(m, d.spi, d'.current, cuts[i]);
      d' := d'.(current := current);
      if found {
        return Ok, d', i;
      }
      gotEof, i := SequenceNumber(m) == 0, i + 1;
    }
    return NotFound, d', i - 1;
  }

  /** The deciding message is unique, so the answer is a function of the dump. */
  lemma AnswerUnique(spi: nat, dump: seq<seq<byte>>, cuts: seq<seq<nat>>, k: nat, a: Answer, k': nat, a': Answer)
    requires SaDump(dump, cuts) && k < |dump| && k' < |dump|
    requires Answers(spi, dump, cuts, k, a) && Answers(spi, dump, cuts, k', a')
    ensures k == k' && a == a'
  {
    hide AssociationDumped, SpiIn;
  }

  /**
   Over a dump of sound messages the query succeeds if and only if some message up to the first
   one numbered 0 carries the SPI.
   */
  lemma FoundIff(spi: nat, dump: seq<seq<byte>>, cuts: seq<seq<nat>>, k: nat, a: Answer)
    requires SaDump(dump, cuts) && k < |dump| && Answers(spi, dump, cuts, k, a)
    requires forall i | 0 <= i < |dump| :: Passes(dump[i])
    ensures a == Ok <==> exists i :: 0 <= i < |dump| && SpiIn(dump[i], cuts[i]) == spi
                                     && forall j | 0 <= j < i :: SequenceNumber(dump[j]) != 0
    ensures a == Ok ==> SpiIn(dump[k], cuts[k]) == spi && forall j | 0 <= j < k :: SpiIn(dump[j], cuts[j]) != spi
  {
    hide AssociationDumped, SpiIn;
  }
}
