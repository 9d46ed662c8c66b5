/**
 Whole runs of configuration changes and expiries. When nothing goes wrong the list is what was
 configured less what was withdrawn and what expired hard. One failed notification is enough to
 stop hard expiries from being acted on.
 */
module ExpiryRuns {
  import opened Text
  import opened SadEntry
  import opened MessageBuffer
  import opened EntryList
  import opened SadStore
  import opened Listener

  datatype Event =
    | Configure(name: string, data: SadData)
    | Withdraw(name: string)
    | Expire(spi: int, hard: bool, notice: Notice, request: Request)

  function After(w: Watch, ev: Event, host: Host): Option<Watch> {
    match ev
    case Configure(name, d) => Some(w.(store := Added(w.store, name, d, host)))
    case Withdraw(name) => Some(w.(store := Removed(w.store, name, host)))
    case Expire(spi, hard, notice, request) => AfterExpiry(w, spi, hard, notice, request, host)
  }

  function Run(w: Watch, evs: seq<Event>, host: Host): Option<Watch> {
    if evs == [] then Some(w)
    else
      match Run(w, evs[..|evs| - 1], host)
      case None => None
      case Some(v) => After(v, evs[|evs| - 1], host)
  }

  // ----- runs in which everything succeeds

  const START := Watch(State([], []), true)

  /** Exactly one entry has the SPI. */
  predicate OnlyAt(s: SadSeq, spi: int, k: nat) {
    k < |s| && forall i | 0 <= i < |s| :: HasSpi(s[i].data, spi) <==> i == k
  }

  ghost predicate Orderly(w: Option<Watch>, ev: Event) {
    w.Some? ==>
      var s := w.value.store.list;
      match ev
      case Configure(name, d) => Buildable(d) && !Has(s, name)
      case Withdraw(name) => Has(s, name)
      case Expire(spi, hard, notice, request) => notice.Sent? && request.Applied? && exists k :: OnlyAt(s, spi, k)
  }

  ghost predicate OrderlyRun(evs: seq<Event>, host: Host) {
    forall i | 0 <= i < |evs| :: Orderly(Run(START, evs[..i], host), evs[i])
  }

  /** The event takes the entry away. */
  predicate Hits(ev: Event, e: Entry<SadData>) {
    match ev
    case Configure(_, _) => false
    case Withdraw(name) => e.name == name
    case Expire(spi, hard, _, _) => hard && HasSpi(e.data, spi)
  }

  predicate Spared(e: Entry<SadData>, evs: seq<Event>) {
    forall i | 0 <= i < |evs| :: !Hits(evs[i], e)
  }

  function EntryOf(ev: Event): SadSeq {
    if ev.Configure? then [Entry(ev.name, ev.data)] else []
  }

  /** The entry an event configures, unless a later event takes it away. */
  function Lasting(ev: Event, later: seq<Event>): SadSeq {
    if ev.Configure? && Spared(Entry(ev.name, ev.data), later) then EntryOf(ev) else []
  }

  /** The entries configured by a run that no later event takes away, in order. */
  function Alive(evs: seq<Event>): SadSeq {
    if evs == [] then [] else Lasting(evs[0], evs[1..]) + Alive(evs[1..])
  }

  function SparedBy(s: SadSeq, ev: Event): SadSeq {
    Keep(s, (e: Entry<SadData>) => !Hits(ev, e))
  }

  lemma SparedAppend(e: Entry<SadData>, evs: seq<Event>, ev: Event)
    ensures Spared(e, evs + [ev]) <==> Spared(e, evs) && !Hits(ev, e)
  {
    hide Hits;
    assert (evs + [ev])[|evs|] == ev;
    assert forall i | 0 <= i < |evs| :: (evs + [ev])[i] == evs[i];
  }

  lemma KeepFront<E>(s: seq<Entry<E>>, p: Entry<E> -> bool)
    requires s != []
    ensures Keep(s, p) == (if p(s[0]) then [s[0]] else []) + Keep(s[1..], p)
  {
  }

  lemma {:induction false} KeepConcat<E>(s: seq<Entry<E>>, t: seq<Entry<E>>, p: Entry<E> -> bool)
    ensures Keep(s + t, p) == Keep(s, p) + Keep(t, p)
  {
    if s == [] {
      assert s + t == t;
    } else {
      assert (s + t)[1..] == s[1..] + t && (s + t)[0] == s[0];
      KeepConcat(s[1..], t, p);
      KeepFront(s, p);
      KeepFront(s + t, p);
      hide Keep;
      Assoc(if p(s[0]) then [s[0]] else [], Keep(s[1..], p), Keep(t, p));
    }
  }

  lemma KeepOne<E>(e: Entry<E>, p: Entry<E> -> bool)
    ensures Keep([e], p) == if p(e) then [e] else []
  {
    KeepConcat([e], [], p);
    assert [e][1..] == [];
  }

  lemma LastingAppend(x: Event, later: seq<Event>, ev: Event)
    ensures Lasting(x, later + [ev]) == SparedBy(Lasting(x, later), ev)
  {
    hide Hits, Spared;
    if x.Configure? {
      var e := Entry(x.name, x.data);
      SparedAppend(e, later, ev);
      KeepOne(e, (e: Entry<SadData>) => !Hits(ev, e));
    }
  }

  /** One more event filters what was alive, and a configuration adds its entry. */
  lemma {:induction false} AliveAppend(evs: seq<Event>, ev: Event)
    ensures Alive(evs + [ev]) == SparedBy(Alive(evs), ev) + EntryOf(ev)
  {
    if evs == [] {
      assert [] + [ev] == [ev];
      assert [ev][1..] == [];
    } else {
      hide Lasting, EntryOf, Hits, Keep;
      var x, rest := evs[0], evs[1..];
      assert (evs + [ev])[1..] == rest + [ev];
      AliveAppend(rest, ev);
      LastingAppend(x, rest, ev);
      KeepConcat(Lasting(x, rest), Alive(rest), (e: Entry<SadData>) => !Hits(ev, e));
      Assoc(SparedBy(Lasting(x, rest), ev), SparedBy(Alive(rest), ev), EntryOf(ev));
    }
  }

  ghost predicate Sound(w: Watch) {
    w.ok && AllBuildable(w.store.list) && UniqueNames(w.store.list)
  }

  /** An orderly event filters the list, appends, and keeps everything in order. */
  lemma EventFilters(w: Watch, ev: Event, host: Host)
    requires Sound(w) && Orderly(Some(w), ev)
    ensures var w' := After(w, ev, host);
            w'.Some? && Sound(w'.value) && w'.value.store.list == SparedBy(w.store.list, ev) + EntryOf(ev)
  {
    hide Buildable, HasSpi, Keep, AfterExpiry;
    var s := w.store.list;
    match ev
    case Configure(name, d) =>
      KeepAll(s, (e: Entry<SadData>) => !Hits(ev, e));
      AppendKeepsUnique(s, Entry(name, d));
    case Withdraw(name) =>
      RemovalFilters(w.store, name, host);
      KeepSame(s, (e: Entry<SadData>) => !Hits(ev, e), (e: Entry<SadData>) => e.name != name);
    case Expire(_, _, _, _) =>
      ExpiryEventFilters(w, ev, host);
  }

  lemma ExpiryEventFilters(w: Watch, ev: Event, host: Host)
    requires ev.Expire? && Sound(w) && Orderly(Some(w), ev)
    ensures var w' := After(w, ev, host);
            w'.Some? && Sound(w'.value) && w'.value.store.list == SparedBy(w.store.list, ev)
  {
    hide HasSpi, Keep, Removed, AllBuildable, UniqueNames;
    var s := w.store.list;
    var k: nat :| OnlyAt(s, ev.spi, k);
    assert HasSpi(s[k].data, ev.spi);
    assert IndexOfSpi(s, ev.spi) == k;
    if ev.hard {
      ExpiryFilters(w.store, ev.spi, k, host);
      KeepSame(s, (e: Entry<SadData>) => !Hits(ev, e), (e: Entry<SadData>) => !HasSpi(e.data, ev.spi));
    } else {
      KeepAll(s, (e: Entry<SadData>) => !Hits(ev, e));
    }
  }

  lemma {:induction false} KeepSame<E>(s: seq<Entry<E>>, p: Entry<E> -> bool, q: Entry<E> -> bool)
    requires forall i | 0 <= i < |s| :: p(s[i]) == q(s[i])
    ensures Keep(s, p) == Keep(s, q)
  {
    if s != [] {
      KeepSame(s[1..], p, q);
    }
  }

  lemma RemovalFilters(st: State, name: string, host: Host)
    requires AllBuildable(st.list) && UniqueNames(st.list) && Has(st.list, name)
    ensures var l := Removed(st, name, host).list;
            l == Keep(st.list, (e: Entry<SadData>) => e.name != name) && AllBuildable(l) && UniqueNames(l)
  {
    hide Buildable, IndexOf, RemoveAt, Keep;
    IndexOfIsFirst(st.list, name);
    RemoveFirstIsKeep(st.list, name);
    RemoveAtElements(st.list, IndexOf(st.list, name));
  }

  lemma ExpiryFilters(st: State, spi: int, k: nat, host: Host)
    requires AllBuildable(st.list) && UniqueNames(st.list) && OnlyAt(st.list, spi, k)
    ensures var l := Removed(st, st.list[k].name, host).list;
            l == Keep(st.list, (e: Entry<SadData>) => !HasSpi(e.data, spi)) && AllBuildable(l) && UniqueNames(l)
  {
    hide Buildable, HasSpi, IndexOf, RemoveAt, Keep;
    var name := st.list[k].name;
    RemovalFilters(st, name, host);
    IndexOfIsFirst(st.list, name);
    assert IndexOf(st.list, name) == k;
    KeepAllBut(st.list, (e: Entry<SadData>) => !HasSpi(e.data, spi), k);
  }

  /**
   After any run of configurations, withdrawals and expiries in which every expiring SPI is that
   of exactly one entry and every notification and request succeeds, the list is exactly what
   was configured and not taken away later, in the order of configuration.
   */
  lemma {:induction false} OrderlyRunsKeepTheLiving(evs: seq<Event>, host: Host)
    requires OrderlyRun(evs, host)
    ensures var w := Run(START, evs, host); w.Some? && Sound(w.value) && w.value.store.list == Alive(evs)
    decreases |evs|
  {
    hide After, Orderly, Hits, Spared;
    if evs != [] {
      var before, ev := evs[..|evs| - 1], evs[|evs| - 1];
      assert evs == before + [ev];
      assert forall i | 0 <= i < |before| :: before[..i] == evs[..i] && before[i] == evs[i];
      OrderlyRunsKeepTheLiving(before, host);
      assert Orderly(Run(START, evs[..|before|], host), evs[|before|]);
      EventFilters(Run(START, before, host).value, ev, host);
      AliveAppend(before, ev);
    }
  }

  // ----- after a failed notification

  /** No soft expiry of the run is notified when its turn comes. */
  ghost predicate Unheard(w: Watch, evs: seq<Event>, host: Host) {
    forall i | 0 <= i < |evs| ::
      evs[i].Expire? && !evs[i].hard ==>
        Run(w, evs[..i], host).None? || !Notified(Run(w, evs[..i], host).value.store.list, evs[i].spi, evs[i].notice)
  }

  /** The same run without its expiries. */
  function Quiet(st: State, evs: seq<Event>, host: Host): State {
    if evs == [] then st
    else
      var v := Quiet(st, evs[..|evs| - 1], host);
      match evs[|evs| - 1]
      case Configure(name, d) => Added(v, name, d, host)
      case Withdraw(name) => Removed(v, name, host)
      case Expire(_, _, _, _) => v
  }

  /**
   Once the result code is not OK it stays so until a soft expiry is notified. Until then hard
   expiries neither notify, nor delete, nor crash: the list changes by configuration only.
   */
  lemma {:induction false} FailureSticks(w: Watch, evs: seq<Event>, host: Host)
    requires !w.ok && Unheard(w, evs, host)
    ensures Run(w, evs, host) == Some(Watch(Quiet(w.store, evs, host), false))
    decreases |evs|
  {
    hide Added, Removed, Notified, AfterRequest;
    if evs != [] {
      var before := evs[..|evs| - 1];
      assert forall i | 0 <= i <= |before| :: before[..i] == evs[..i];
      FailureSticks(w, before, host);
      assert evs[..|before|] == before;
    }
  }

  /** One expiry decides the result code: a soft one always, a hard one only while it is OK. */
  lemma ExpiryDecides(w: Watch, spi: int, hard: bool, notice: Notice, request: Request, host: Host)
    requires AllBuildable(w.store.list)
    requires AfterExpiry(w, spi, hard, notice, request, host).Some?
    ensures var w' := AfterExpiry(w, spi, hard, notice, request, host).value;
            && (w'.ok <==> (w.ok || !hard) && Notified(w.store.list, spi, notice))
            && (w'.store != w.store <==> hard && w.ok && request.Applied?)
            && |w'.store.list| == |w.store.list| - (if hard && w.ok && request.Applied? then 1 else 0)
  {
    hide Buildable, IndexOf, RemoveAt, Notified;
    var s, i := w.store.list, IndexOfSpi(w.store.list, spi);
    if hard && w.ok && request.Applied? {
      IndexOfIsFirst(s, s[i].name);
      RemoveAtElements(s, IndexOf(s, s[i].name));
    }
  }
}
