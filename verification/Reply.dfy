/**
 Sending a request and picking its reply: drain what is queued, send, and receive until a
 message carries our process id. What comes back is safe to hand to the parser.
 */
module Reply {
  import opened Bytes
  import opened Wire
  import opened Extensions
  import opened MessageBuffer
  import Parser

  /** What one recv does: a datagram, an interruption, or any other failure. */
  datatype Recv = Datagram(octets: seq<byte>) | Interrupted | Failure

  /** What one send does: everything goes out, it is to be tried again, or it fails. */
  datatype Send = Whole | Again | Broken

  /** The call's result; Waiting when the events run out and the call has not returned. */
  datatype Outcome = Got(reply: seq<byte>) | Error | Waiting

  /** A datagram is cut to the buffer it is received in. */
  function Cut(o: seq<byte>): seq<byte> {
    if |o| > BUFFER_SIZE then o[..BUFFER_SIZE] else o
  }

  function PidOf(m: seq<byte>): nat
    requires |m| >= 16
  {
    U32At(m, 12)
  }

  predicate IsReply(e: Recv, pid: nat) {
    e.Datagram? && Framed(Cut(e.octets)) && PidOf(Cut(e.octets)) == pid
  }

  /** An event the receive loop passes over. */
  predicate Skipped(e: Recv, pid: nat) {
    e.Interrupted? || (e.Datagram? && Framed(Cut(e.octets)) && PidOf(Cut(e.octets)) != pid)
  }

  class Socket {
    var events: seq<Recv>
    var sends: seq<Send>
    var sent: seq<seq<byte>>

    constructor (events: seq<Recv>, sends: seq<Send>)
      ensures this.events == events && this.sends == sends && sent == []
    {
      this.events, this.sends, sent := events, sends, [];
    }
  }

  // ----- the three loops

  /** The events left after draining: those behind the first failure. */
  function Drained(evs: seq<Recv>): seq<Recv> {
    if evs == [] then [] else if evs[0].Failure? then evs[1..] else Drained(evs[1..])
  }

  /** The outcome of the first send that need not be tried again. */
  function SendOutcome(s: seq<Send>): Outcome {
    if s == [] then Waiting
    else if s[0].Whole? then Got([])
    else if s[0].Broken? then Error
    else SendOutcome(s[1..])
  }

  /** Draining takes everything up to the first failure, and it. */
  lemma {:induction false} DrainedBehind(before: seq<Recv>, behind: seq<Recv>)
    requires Failure !in before
    ensures Drained(before + [Failure] + behind) == behind && Drained(before) == []
    decreases |before|
  {
    var all := before + [Failure] + behind;
    if before == [] {
      assert all[1..] == behind;
    } else {
      assert all[1..] == before[1..] + [Failure] + behind;
      DrainedBehind(before[1..], behind);
    }
  }

  /** Sending is tried again as long as it asks for that; what comes first otherwise decides. */
  lemma {:induction false} SendIff(s: seq<Send>, k: nat)
    requires k <= |s| && forall j | 0 <= j < k :: s[j] == Again
    ensures k == |s| ==> SendOutcome(s) == Waiting
    ensures k < |s| && s[k] == Whole ==> SendOutcome(s) == Got([])
    ensures k < |s| && s[k] == Broken ==> SendOutcome(s) == Error
    decreases k
  {
    if k > 0 {
      assert forall j | 0 <= j < k - 1 :: s[1..][j] == s[j + 1];
      SendIff(s[1..], k - 1);
    }
  }

  /** A datagram of up to 4096 octets is received whole, a longer one up to there. */
  lemma CutAtBuffer(o: seq<byte>)
    ensures |o| <= 4096 ==> Cut(o) == o
    ensures |o| > 4096 ==> |Cut(o)| == 4096 && Cut(o) <= o
  {
  }

  lemma PidIsRead(m: seq<byte>)
    requires |m| >= 16
    ensures PidOf(m) == ReadHeader(m[..16]).pid
  {
    assert m[..16][12..16] == m[12..16];
  }

  /** The outcome of receiving, by the position of the first event that decides it. */
  ghost predicate Decides(evs: seq<Recv>, pid: nat, k: nat, r: Outcome) {
    && k <= |evs| && (forall j | 0 <= j < k :: Skipped(evs[j], pid))
    && (r.Waiting? <==> k == |evs|)
    && (r.Got? ==> k < |evs| && IsReply(evs[k], pid) && r.reply == Cut(evs[k].octets))
    && (r.Error? ==> k < |evs| && !Skipped(evs[k], pid) && !IsReply(evs[k], pid))
  }

  /** The request as it goes out: its announced length, with our process id written into it. */
  function Stamped(request: seq<byte>, pid: nat): seq<byte>
    requires Framed(request)
  {
    request[..12] + Le(pid, 4) + request[16..8 * MsgWords(request)]
  }

  lemma StampedIsOurs(request: seq<byte>, pid: nat, exts: seq<nat>)
    requires WellFormed(request, exts) && pid < 0x1_0000_0000
    ensures var m := Stamped(request, pid);
            && WellFormed(m, exts) && |m| == 8 * MsgWords(request) && PidOf(m) == pid
            && forall k | 0 <= k < |m| && !(12 <= k < 16) :: m[k] == request[k]
  {
    hide Le, FromLe, Tiles;
    var m, n := Stamped(request, pid), MsgWords(request);
    assert m[12..16] == Le(pid, 4);
    LeRoundTrip(pid, 4);
    Widths();
    assert m[4..6] == request[4..6];
    SameBody(request, m, HEADER_WORDS, n, exts);
    TilesBounds(request, HEADER_WORDS, n, exts);
    forall i | 0 <= i < |exts|
      ensures ExtType(m, exts[i]) == ExtType(request, exts[i])
    {
      var w := exts[i];
      assert m[8 * w + 2..8 * w + 4] == request[8 * w + 2..8 * w + 4];
    }
  }

  lemma {:induction false} SameBody(m: seq<byte>, m': seq<byte>, a: nat, b: nat, exts: seq<nat>)
    requires HEADER_WORDS <= a && 8 * b <= |m| && |m'| >= 8 * b
    requires forall k | 16 <= k < 8 * b :: m[k] == m'[k]
    ensures Tiles(m, a, b, exts) <==> Tiles(m', a, b, exts)
    decreases |exts|
  {
    if exts != [] && a < b {
      assert m[8 * a..8 * a + 2] == m'[8 * a..8 * a + 2];
      SameBody(m, m', a + ExtWords(m, a), b, exts[1..]);
    }
  }

  method Drain(s: Socket) returns (returned: bool)
    modifies s
    ensures s.events == Drained(old(s.events)) && s.sends == old(s.sends) && s.sent == old(s.sent)
    ensures returned <==> Failure in old(s.events)
  {
    while s.events != []
      invariant Drained(s.events) == Drained(old(s.events)) && s.sends == old(s.sends) && s.sent == old(s.sent)
      invariant Failure in s.events <==> Failure in old(s.events)
      decreases |s.events|
    {
      var e := s.events[0];
      assert s.events == [e] + s.events[1..];
      s.events := s.events[1..];
      if e.Failure? {
        return true;
      }
    }
    return false;
  }

  method Transmit(s: Socket, m: seq<byte>) returns (r: Outcome)
    modifies s
    ensures r == SendOutcome(old(s.sends)) && s.events == old(s.events)
    ensures s.sent == old(s.sent) + if r.Got? then [m] else []
  {
    while s.sends != []
      invariant SendOutcome(s.sends) == SendOutcome(old(s.sends))
      invariant s.events == old(s.events) && s.sent == old(s.sent)
      decreases |s.sends|
    {
      var x := s.sends[0];
      s.sends := s.sends[1..];
      if x.Whole? {
        s.sent := s.sent + [m];
        return Got([]);
      }
      if x.Broken? {
        return Error;
      }
    }
    return Waiting;
  }

  method Receive(s: Socket, pid: nat) returns (r: Outcome, ghost k: nat)
    modifies s
    ensures Decides(old(s.events), pid, k, r) && s.sent == old(s.sent)
    ensures k < |old(s.events)| ==> s.events == old(s.events)[k + 1..]
  {
    k := 0;
    while s.events != []
      invariant k <= |old(s.events)| && s.events == old(s.events)[k..] && s.sent == old(s.sent)
      invariant forall j | 0 <= j < k :: Skipped(old(s.events)[j], pid)
      decreases |s.events|
    {
      var e := s.events[0];
      s.events := s.events[1..];
      if e.Failure? {
        return Error, k;
      }
      if e.Datagram? {
        var buf := Cut(e.octets);
        if |buf| < 16 || MsgWords(buf) < HEADER_WORDS {
          return Error, k;
        }
        if MsgWords(buf) > |buf| / 8 {
          return Error, k;
        }
        if PidOf(buf) == pid {
          return Got(buf), k;
        }
      }
      k := k + 1;
    }
    return Waiting, k;
  }

  /**
   `pfkey_send_socket`: 0 and a reply, 1, or no return while nothing more arrives. The type of
   the reply is compared but a mismatch is only logged.
   */
  method SendSocket(s: Socket, request: seq<byte>, pid: nat) returns (r: Outcome, ghost k: nat)
    requires Framed(request)
    modifies s
    ensures Failure !in old(s.events) ==> r == Waiting && s.sent == old(s.sent)
    ensures Failure in old(s.events) && !SendOutcome(old(s.sends)).Got? ==>
              r == SendOutcome(old(s.sends)) && s.sent == old(s.sent)
    ensures Failure in old(s.events) && SendOutcome(old(s.sends)).Got? ==>
              && Decides(Drained(old(s.events)), pid, k, r)
              && s.sent == old(s.sent) + [Stamped(request, pid)]
    ensures r.Got? ==> Framed(r.reply) && PidOf(r.reply) == pid && |r.reply| <= BUFFER_SIZE
  {
    k := 0;
    var drained := Drain(s);
    if !drained {
      return Waiting, 0;
    }
    var out := Transmit(s, Stamped(request, pid));
    if !out.Got? {
      return out, 0;
    }
    r, k := Receive(s, pid);
  }

  /**
   A reply is returned exactly when the first event that is not passed over is a complete
   message with our process id, and then it is that message.
   */
  lemma ReplyIff(evs: seq<Recv>, pid: nat, k: nat, r: Outcome, m: seq<byte>)
    requires Decides(evs, pid, k, r)
    ensures r == Got(m) <==>
            exists i :: 0 <= i < |evs| && IsReply(evs[i], pid) && Cut(evs[i].octets) == m
                        && forall j | 0 <= j < i :: Skipped(evs[j], pid)
  {
    if i :| 0 <= i < |evs| && IsReply(evs[i], pid) && Cut(evs[i].octets) == m
            && forall j | 0 <= j < i :: Skipped(evs[j], pid) {
      assert !Skipped(evs[i], pid);
      assert i == k;
    }
  }

  /** The events determine the outcome. */
  lemma OutcomeUnique(evs: seq<Recv>, pid: nat, k: nat, r: Outcome, k': nat, r': Outcome)
    requires Decides(evs, pid, k, r) && Decides(evs, pid, k', r')
    ensures k == k' && r == r'
  {
  }

  /**
   Send a request and parse what comes back: the parser's demand is met by the checks on the
   reply, and its verdict depends on the announced octets only.
   */
  method Exchange(s: Socket, request: seq<byte>, pid: nat, out: array<nat>) returns (rc: int, r: Outcome)
    requires Framed(request) && out.Length == SADB_EXT_MAX + 1
    modifies s, out
    ensures r.Got? ==>
              Framed(r.reply) && (rc == 0 <==> exists exts :: WellFormed(r.reply[..8 * MsgWords(r.reply)], exts))
    ensures !r.Got? ==> rc == 1 && out[..] == old(out[..])
  {
    ghost var k;
    r, k := SendSocket(s, request, pid);
    if !r.Got? {
      return 1, r;
    }
    ghost var run, w;
    rc, run, w := Parser.ParseMessage(r.reply, out);
    AnnouncedOnly(r.reply);
  }

  lemma AnnouncedOnly(m: seq<byte>)
    requires Framed(m)
    ensures (exists exts :: WellFormed(m, exts)) <==> exists exts :: WellFormed(m[..8 * MsgWords(m)], exts)
  {
    hide WellFormed;
    var a := m[..8 * MsgWords(m)];
    assert a + m[|a|..] == m;
    FrontIsFramed(m);
    forall exts
      ensures WellFormed(a, exts) <==> WellFormed(m, exts)
    {
      Parser.ParseIsLocal(a, m[|a|..], exts);
    }
  }

  lemma FrontIsFramed(m: seq<byte>)
    requires Framed(m)
    ensures Framed(m[..8 * MsgWords(m)]) && MsgWords(m[..8 * MsgWords(m)]) == MsgWords(m)
  {
    var a := m[..8 * MsgWords(m)];
    assert a[4..6] == m[4..6];
  }

  // ----- lengths in words

  /** PFKEY_ALIGN, as the mask the source writes. */
  function PfkeyAlign(len: bv32): bv32 {
    (len + 7) & !7
  }

  /** Short of overflow the mask gives the least multiple of 8 that is not below the length. */
  lemma AlignIsLeastMultiple(len: bv32, m: bv32)
    requires len <= 0xFFFF_FFF8
    ensures PfkeyAlign(len) % 8 == 0 && len <= PfkeyAlign(len) && PfkeyAlign(len) - len < 8
    ensures m % 8 == 0 && len <= m ==> PfkeyAlign(len) <= m
  {
  }
}
