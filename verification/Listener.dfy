/**
 The thread that listens for SADB_ACQUIRE and SADB_EXPIRE. It keeps one result code across
 messages: a hard expiry is acted on only while the last notification succeeded.
 */
module Listener {
  import opened Bytes
  import opened Text
  import opened Wire
  import opened Extensions
  import opened SadEntry
  import opened MessageBuffer
  import opened SaMessage
  import opened Walks
  import opened EntryList
  import opened SadStore

  /** How far a notification gets. A path that cannot be created is not reported as a failure. */
  datatype Notice = NotCreated | PathFails | SendFails | Sent

  /** How far a request to delete the entry from the configuration gets. */
  datatype Request = NoSession | Rejected | Applied

  /** The associations and the messages sent for them, and whether the result code is OK. */
  datatype Watch = Watch(store: State, ok: bool)

  /** The C int is widened to an unsigned long before it is compared. */
  predicate HasSpi(d: SadData, spi: int) {
    d.spi == if spi < 0 then spi + 0x1_0000_0000_0000_0000 else spi
  }

  /** Position of the first entry with the SPI; the length when there is none. */
  function IndexOfSpi(s: SadSeq, spi: int): nat {
    IndexWhere(s, (d: SadData) => HasSpi(d, spi))
  }

  /** `send_sa_expire_notification`: OK, or not. */
  predicate Notified(s: SadSeq, spi: int, notice: Notice) {
    notice.NotCreated? || (IndexOfSpi(s, spi) < |s| && !notice.SendFails?)
  }

  /** `send_delete_SAD_request`: None when it follows a null reference. */
  function AfterRequest(st: State, spi: int, request: Request, host: Host): Option<State> {
    var i := IndexOfSpi(st.list, spi);
    if request.NoSession? then Some(st)
    else if i == |st.list| then None
    else if request.Rejected? then Some(st)
    else Some(Removed(st, st.list[i].name, host))
  }

  function AfterExpiry(w: Watch, spi: int, hard: bool, notice: Notice, request: Request, host: Host): Option<Watch> {
    if !hard then Some(Watch(w.store, Notified(w.store.list, spi, notice)))
    else if !w.ok then Some(w)
    else
      match AfterRequest(w.store, spi, request, host)
      case None => None
      case Some(st) => Some(Watch(st, Notified(w.store.list, spi, notice)))
  }

  /** An SPI on the wire finds entries that have it exactly when it is below 2^31. */
  lemma WireSpiFinds(d: SadData, n: nat)
    requires d.spi < 0x1_0000_0000 && n < 0x1_0000_0000
    ensures HasSpi(d, ToInt32(n)) <==> d.spi == n < 0x8000_0000
  {
  }

  /**
   A hard expiry follows a null reference exactly when the result code is OK, a session can be
   had, and no entry is found for the SPI; by `WireSpiFinds` that is so for every SPI from 2^31.
   */
  lemma HardExpiryCrashesIff(w: Watch, spi: int, notice: Notice, request: Request, host: Host)
    ensures AfterExpiry(w, spi, true, notice, request, host).None? <==>
            w.ok && !request.NoSession? && forall j | 0 <= j < |w.store.list| :: !HasSpi(w.store.list[j].data, spi)
  {
    hide Removed;
  }

  /** Exactly entry k has this SPI, as a number. */
  predicate OnlyWith(s: SadSeq, n: nat, k: nat) {
    k < |s| && forall i | 0 <= i < |s| :: s[i].data.spi == n <==> i == k
  }

  /** The message's association carries this SPI, in network order. */
  ghost predicate CarriesSpi(m: seq<byte>, exts: seq<nat>, n: nat) {
    WellFormed(m, exts) && |Body(m, exts, 1)| >= 16 && ReadSa(Body(m, exts, 1)).spi == n
  }

  // ----- the listener

  /** The reaction to an SADB_EXPIRE, in terms of the extensions the parser's table locates. */
  ghost function AfterMessage(m: seq<byte>, exts: seq<nat>, w: Watch, notice: Notice, request: Request,
                              host: Host): Option<Watch>
    requires WellFormed(m, exts)
  {
    AfterExpiry(w, SpiInt(Body(m, exts, SADB_EXT_SA)), Body(m, exts, SADB_EXT_LIFETIME_HARD) != [],
                notice, request, host)
  }

  /**
   An expiry whose SPI is below 2^31 and that of exactly one entry: a hard one that is met with OK
   and applied removes the entry's name, a soft one that is sent leaves the result OK.
   */
  lemma ExpiryMeansEntry(m: seq<byte>, exts: seq<nat>, w: Watch, notice: Notice, request: Request, host: Host,
                         n: nat, k: nat)
    requires CarriesSpi(m, exts, n) && n < 0x8000_0000 && OnlyWith(w.store.list, n, k)
    ensures var hard, r := Body(m, exts, 3) != [], AfterMessage(m, exts, w, notice, request, host);
            && (hard && w.ok && request.Applied? ==>
                  r == Some(Watch(Removed(w.store, w.store.list[k].name, host), !notice.SendFails?)))
            && (hard && !w.ok ==> r == Some(w))
            && (!hard ==> r == Some(Watch(w.store, !notice.SendFails?)))
  {
    hide Removed, ReadSa, Body, WellFormed;
    var sa := Body(m, exts, 1);
    assert SpiInt(sa) == n by {
      IntOf32(n);
    }
    OnlyIsFound(w.store.list, n, k);
  }

  lemma OnlyIsFound(s: SadSeq, n: nat, k: nat)
    requires OnlyWith(s, n, k)
    ensures IndexOfSpi(s, n) == k
  {
    var i := IndexOfSpi(s, n);
    assert HasSpi(s[k].data, n);
    if i < |s| {
      assert HasSpi(s[i].data, n);
    }
  }

  /**
   What a round of the thread does about an SPI that the message carries in network order, that is
   below 2^31 and that of exactly one entry.
   */
  ghost predicate ActsOnEntry(m: seq<byte>, exts: seq<nat>, before: Watch, after: Watch, notice: Notice,
                              request: Request, host: Host) {
    forall n: nat, k: nat | n < 0x8000_0000 && CarriesSpi(m, exts, n) && OnlyWith(before.store.list, n, k) ::
      && (Body(m, exts, 3) != [] && before.ok && notice.Sent? && request.Applied? ==>
            after == Watch(Removed(before.store, before.store.list[k].name, host), true))
      && (Body(m, exts, 3) == [] && notice.Sent? ==> after == Watch(before.store, true))
  }

  lemma ExpiryActs(m: seq<byte>, exts: seq<nat>, before: Watch, after: Watch, notice: Notice, request: Request,
                   host: Host)
    requires WellFormed(m, exts) && AfterMessage(m, exts, before, notice, request, host) == Some(after)
    ensures ActsOnEntry(m, exts, before, after, notice, request, host)
  {
    hide Removed, AfterMessage, CarriesSpi, OnlyWith, Body, WellFormed;
    forall n: nat, k: nat | n < 0x8000_0000 && CarriesSpi(m, exts, n) && OnlyWith(before.store.list, n, k) {
      ExpiryMeansEntry(m, exts, before, notice, request, host, n, k);
    }
  }

  ghost predicate Crashless(m: seq<byte>, exts: seq<nat>, w: Watch, notice: Notice, request: Request, host: Host)
    requires |m| >= 16
  {
    U8At(m, 1) == SADB_EXPIRE && WellFormed(m, exts) ==>
      AfterMessage(m, exts, w, notice, request, host).Some?
  }

  class Thread {
    const store: Store
    var ok: bool

    ghost predicate Valid()
      reads this, store.Repr()
    {
      store.Valid() && this !in store.Repr()
    }

    ghost function Now(): Watch
      reads this, store.Repr()
    {
      Watch(store.Now(), ok)
    }

    constructor (store: Store)
      requires store.Valid()
      ensures Valid() && Now() == Watch(store.Now(), true) && this.store == store
    {
      this.store, ok := store, true;
    }

    /** `send_delete_SAD_request`; an applied request comes back as a removal in the callback. */
    method RequestDelete(spi: int, request: Request)
      requires Valid() && AfterRequest(store.Now(), spi, request, store.host).Some?
      modifies store.Repr()
      ensures Valid() && store.Repr() <= old(store.Repr()) && ok == old(ok)
      ensures AfterRequest(old(store.Now()), spi, request, store.host) == Some(store.Now())
    {
      hide Removed, List<SadData>.Valid, AllBuildable;
      if request.NoSession? {
        return;
      }
      var node := store.list.Find((d: SadData) => HasSpi(d, spi));
      if request.Applied? {
        var removed := store.RemoveEntry(node.name);
      }
    }

    /**
     One round of the thread's loop. Anything but SADB_ACQUIRE and SADB_EXPIRE is ignored, and an
     SADB_ACQUIRE is only read.
     */
    method Handle(m: seq<byte>, ghost exts: seq<nat>, notice: Notice, request: Request)
      requires Valid() && |m| >= 16
      requires U8At(m, 1) in {SADB_ACQUIRE, SADB_EXPIRE} ==> Delivered(m, exts) && Roomy(m, exts)
      requires Crashless(m, exts, Now(), notice, request, store.host)
      modifies this, store.Repr()
      ensures Valid() && store.Repr() <= old(store.Repr())
      ensures U8At(m, 1) != SADB_EXPIRE ==> Now() == old(Now())
      ensures U8At(m, 1) == SADB_EXPIRE ==>
                AfterMessage(m, exts, old(Now()), notice, request, store.host) == Some(Now())
      ensures U8At(m, 1) == 8 ==> ActsOnEntry(m, exts, old(Now()), Now(), notice, request, store.host)
    {
      hide Store.Valid, WellFormed, Roomy, SpiInt, Body, AfterExpiry, ActsOnEntry;
      var ty := U8At(m, 1);
      if ty == SADB_ACQUIRE {
        var index, left := AcquireWalk(m, exts);
      } else if ty == SADB_EXPIRE {
        var spi, hard, left := ExpireWalk(m, exts);
        React(spi, hard, notice, request);
        ExpiryActs(m, exts, old(Now()), Now(), notice, request, store.host);
      }
    }

    /** What is done about an expiry once its SPI is known. */
    method React(spi: int, hard: bool, notice: Notice, request: Request)
      requires Valid() && AfterExpiry(Now(), spi, hard, notice, request, store.host).Some?
      modifies this, store.Repr()
      ensures Valid() && store.Repr() <= old(store.Repr())
      ensures AfterExpiry(old(Now()), spi, hard, notice, request, store.host) == Some(Now())
    {
      hide Removed, Store.Valid, AfterRequest;
      if hard {
        if ok {
          var notified := Notify(spi, notice);
          RequestDelete(spi, request);
          ok := notified;
        }
      } else {
        ok := Notify(spi, notice);
      }
    }

    method Notify(spi: int, notice: Notice) returns (done: bool)
      requires Valid()
      ensures done == Notified(store.list.Contents(), spi, notice)
      ensures done <==>
                notice.NotCreated? ||
                (!notice.SendFails? && exists e :: e in store.list.Contents() && HasSpi(e.data, spi))
    {
      hide Store.Repr;
      if notice.NotCreated? {
        return true;
      }
      var node := store.list.Find((d: SadData) => HasSpi(d, spi));
      return node != null && !notice.SendFails?;
    }
  }
}
