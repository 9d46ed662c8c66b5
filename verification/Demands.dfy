/**
 A database kept for a list of entries, each of which demands some records. It is in step with
 the list when it holds every record as it is demanded, and no other. Additions do not overwrite.
 */
module Demands {
  import opened EntryList

  ghost predicate Includes<K, V>(k: map<K, V>, w: map<K, V>) {
    forall x | x in w :: x in k && k[x] == w[x]
  }

  ghost predicate Demanded<K, V>(ws: seq<map<K, V>>, x: K) {
    exists i :: 0 <= i < |ws| && x in ws[i]
  }

  ghost predicate DemandedBeside<K, V>(ws: seq<map<K, V>>, i: nat, x: K) {
    exists j :: 0 <= j < |ws| && j != i && x in ws[j]
  }

  ghost predicate InStep<K, V>(k: map<K, V>, ws: seq<map<K, V>>) {
    && (forall i | 0 <= i < |ws| :: Includes(k, ws[i]))
    && (forall x | x in k :: Demanded(ws, x))
  }

  /** Where the database already has a record, it is the one demanded. */
  ghost predicate Agrees<K, V>(k: map<K, V>, w: map<K, V>) {
    forall x | x in w && x in k :: k[x] == w[x]
  }

  /** No record is demanded twice. */
  ghost predicate Apart<K, V>(ws: seq<map<K, V>>) {
    forall i, j | 0 <= i < j < |ws| :: ws[i].Keys !! ws[j].Keys
  }

  /** `gone` is what entry i alone demands, as far as anything demands it. */
  ghost predicate TakesExactly<K, V>(ws: seq<map<K, V>>, i: nat, gone: set<K>) {
    forall j, x | 0 <= j < |ws| && x in ws[j] :: x in gone <==> !DemandedBeside(ws, i, x)
  }

  lemma NothingDemanded<K, V>()
    ensures InStep<K, V>(map[], [])
  {
  }

  lemma IncludesMore<K, V>(k: map<K, V>, w: map<K, V>, v: map<K, V>)
    requires Includes(k, v)
    ensures Includes(w + k, v)
  {
  }

  lemma IncludesNewIff<K, V>(k: map<K, V>, w: map<K, V>)
    ensures Includes(w + k, w) <==> Agrees(k, w)
  {
  }

  lemma DemandedMore<K, V>(ws: seq<map<K, V>>, w: map<K, V>, x: K)
    ensures Demanded(ws + [w], x) <==> Demanded(ws, x) || x in w
  {
    var all := ws + [w];
    assert all[|ws|] == w;
    if i :| 0 <= i < |ws| && x in ws[i] {
      assert all[i] == ws[i];
    }
  }

  /** An addition keeps the database in step exactly when it meets no other record of its keys. */
  lemma AppendIff<K, V>(k: map<K, V>, ws: seq<map<K, V>>, w: map<K, V>)
    requires InStep(k, ws)
    ensures InStep(w + k, ws + [w]) <==> Agrees(k, w)
  {
    hide Includes, Demanded, Agrees;
    var all := ws + [w];
    assert all[|ws|] == w;
    IncludesNewIff(k, w);
    forall i | 0 <= i < |ws|
      ensures Includes(w + k, all[i])
    {
      IncludesMore(k, w, ws[i]);
    }
    forall x | x in w + k
      ensures Demanded(all, x)
    {
      DemandedMore(ws, w, x);
    }
  }

  lemma DemandedAfter<K, V>(ws: seq<map<K, V>>, i: nat, x: K)
    requires i < |ws|
    ensures Demanded(RemoveAt(ws, i), x) <==> DemandedBeside(ws, i, x)
  {
    RemoveAtElements(ws, i);
    var r := RemoveAt(ws, i);
    if j :| 0 <= j < |r| && x in r[j] {
      assert r[j] == ws[if j < i then j else j + 1];
    }
    if j :| 0 <= j < |ws| && j != i && x in ws[j] {
      assert ws[j] == r[if j < i then j else j - 1];
    }
  }

  lemma DemandedIsHeld<K, V>(k: map<K, V>, ws: seq<map<K, V>>, x: K)
    requires InStep(k, ws)
    ensures x in k <==> Demanded(ws, x)
  {
    if i :| 0 <= i < |ws| && x in ws[i] {
      assert Includes(k, ws[i]);
    }
  }

  lemma InStepTakes<K, V>(k: map<K, V>, ws: seq<map<K, V>>, i: nat, gone: set<K>)
    requires InStep(k, ws) && i < |ws| && InStep(k - gone, RemoveAt(ws, i))
    ensures TakesExactly(ws, i, gone)
  {
    hide RemoveAt, InStep, Demanded, DemandedBeside;
    forall j, x | 0 <= j < |ws| && x in ws[j]
      ensures x in gone <==> !DemandedBeside(ws, i, x)
    {
      InRangeDemanded(ws, j, x);
      DemandedIsHeld(k, ws, x);
      DemandedIsHeld(k - gone, RemoveAt(ws, i), x);
      DemandedAfter(ws, i, x);
    }
  }

  lemma InRangeDemanded<K, V>(ws: seq<map<K, V>>, j: nat, x: K)
    requires j < |ws| && x in ws[j]
    ensures Demanded(ws, x)
  {
  }

  lemma OthersStay<K, V>(k: map<K, V>, ws: seq<map<K, V>>, i: nat, gone: set<K>, l: nat)
    requires InStep(k, ws) && i < |ws| && TakesExactly(ws, i, gone) && l < |ws| && l != i
    ensures Includes(k - gone, ws[l])
  {
    assert Includes(k, ws[l]);
    forall x | x in ws[l]
      ensures x in k - gone && (k - gone)[x] == ws[l][x]
    {
      assert DemandedBeside(ws, i, x);
    }
  }

  lemma NothingElseStays<K, V>(k: map<K, V>, ws: seq<map<K, V>>, i: nat, gone: set<K>, x: K)
    requires InStep(k, ws) && i < |ws| && TakesExactly(ws, i, gone) && x in k - gone
    ensures Demanded(RemoveAt(ws, i), x)
  {
    hide RemoveAt;
    var l :| 0 <= l < |ws| && x in ws[l];
    DemandedAfter(ws, i, x);
  }

  lemma TakingIsInStep<K, V>(k: map<K, V>, ws: seq<map<K, V>>, i: nat, gone: set<K>)
    requires InStep(k, ws) && i < |ws| && TakesExactly(ws, i, gone)
    ensures InStep(k - gone, RemoveAt(ws, i))
  {
    hide RemoveAt, TakesExactly, Includes, Demanded;
    var r := RemoveAt(ws, i);
    RemoveAtElements(ws, i);
    forall j | 0 <= j < |r|
      ensures Includes(k - gone, r[j])
    {
      OthersStay(k, ws, i, gone, if j < i then j else j + 1);
    }
    forall x | x in k - gone
      ensures Demanded(r, x)
    {
      NothingElseStays(k, ws, i, gone, x);
    }
  }

  /** A removal keeps the database in step exactly when it takes what the entry alone demands. */
  lemma RemoveIff<K, V>(k: map<K, V>, ws: seq<map<K, V>>, i: nat, gone: set<K>)
    requires InStep(k, ws) && i < |ws|
    ensures InStep(k - gone, RemoveAt(ws, i)) <==> TakesExactly(ws, i, gone)
  {
    hide RemoveAt, InStep, TakesExactly;
    if InStep(k - gone, RemoveAt(ws, i)) {
      InStepTakes(k, ws, i, gone);
    }
    if TakesExactly(ws, i, gone) {
      TakingIsInStep(k, ws, i, gone);
    }
  }

  /** To take all that an entry demands is right exactly when no other entry demands any of it. */
  lemma TakesOwnIff<K, V>(ws: seq<map<K, V>>, i: nat)
    requires i < |ws|
    ensures TakesExactly(ws, i, ws[i].Keys) <==>
              forall j | 0 <= j < |ws| && j != i :: ws[j].Keys !! ws[i].Keys
  {
    if TakesExactly(ws, i, ws[i].Keys) {
      forall j | 0 <= j < |ws| && j != i
        ensures ws[j].Keys !! ws[i].Keys
      {
        if x :| x in ws[j].Keys && x in ws[i].Keys {
          assert Demanded(ws, x) && DemandedBeside(ws, i, x);
        }
      }
    }
  }

  // ----- demands that are apart

  lemma ApartAppendIff<K, V>(k: map<K, V>, ws: seq<map<K, V>>, w: map<K, V>)
    requires InStep(k, ws) && Apart(ws)
    ensures Apart(ws + [w]) <==> w.Keys !! k.Keys
  {
    var all := ws + [w];
    assert all[|ws|] == w && forall i | 0 <= i < |ws| :: all[i] == ws[i];
    if Apart(all) {
      forall x | x in k.Keys
        ensures x !in w.Keys
      {
        var i :| 0 <= i < |ws| && x in ws[i];
        assert all[i].Keys !! all[|ws|].Keys;
      }
    }
    if w.Keys !! k.Keys {
      forall i | 0 <= i < |ws|
        ensures ws[i].Keys !! w.Keys
      {
        assert Includes(k, ws[i]);
      }
    }
  }

  lemma ApartWithout<K, V>(ws: seq<map<K, V>>, i: nat)
    requires Apart(ws) && i < |ws|
    ensures Apart(RemoveAt(ws, i))
  {
    hide RemoveAt;
    RemoveAtElements(ws, i);
    var r := RemoveAt(ws, i);
    forall j | 0 <= j < |r|
      ensures r[j] == ws[if j < i then j else j + 1]
    {
    }
  }

  // ----- how much it holds

  ghost function Total<K, V>(ws: seq<map<K, V>>): nat {
    if ws == [] then 0 else Total(ws[..|ws| - 1]) + |ws[|ws| - 1]|
  }

  ghost function AllKeys<K, V>(ws: seq<map<K, V>>): set<K> {
    if ws == [] then {} else AllKeys(ws[..|ws| - 1]) + ws[|ws| - 1].Keys
  }

  lemma {:induction false} AllKeysDemanded<K, V>(ws: seq<map<K, V>>, x: K)
    ensures x in AllKeys(ws) <==> Demanded(ws, x)
  {
    if ws != [] {
      var t := ws[..|ws| - 1];
      AllKeysDemanded(t, x);
      if i :| 0 <= i < |t| && x in t[i] {
        assert ws[i] == t[i];
      }
      if i :| 0 <= i < |ws| && x in ws[i] {
        assert i < |t| ==> t[i] == ws[i];
      }
    }
  }

  lemma ApartUnfolds<K, V>(ws: seq<map<K, V>>)
    requires ws != []
    ensures var t, w := ws[..|ws| - 1], ws[|ws| - 1];
            Apart(ws) <==> Apart(t) && AllKeys(t) !! w.Keys
  {
    hide AllKeys;
    var t, w := ws[..|ws| - 1], ws[|ws| - 1];
    if Apart(ws) {
      forall x | x in AllKeys(t)
        ensures x !in w.Keys
      {
        AllKeysDemanded(t, x);
        var i :| 0 <= i < |t| && x in t[i];
        assert ws[i] == t[i];
      }
    }
    if Apart(t) && AllKeys(t) !! w.Keys {
      forall i, j | 0 <= i < j < |ws|
        ensures ws[i].Keys !! ws[j].Keys
      {
        if j == |t| {
          forall x | x in ws[i]
            ensures x !in w
          {
            assert x in t[i];
            AllKeysDemanded(t, x);
          }
        } else {
          assert ws[i] == t[i] && ws[j] == t[j];
        }
      }
    }
  }

  lemma UnionSize<T>(a: set<T>, b: set<T>)
    ensures |a + b| == |a| + |b| - |a * b|
    ensures |a * b| == 0 <==> a !! b
  {
    if x :| x in a && x in b {
      assert x in a * b;
    } else {
      assert a * b == {};
    }
  }

  lemma {:induction false} KeysCount<K, V>(ws: seq<map<K, V>>)
    ensures |AllKeys(ws)| <= Total(ws)
    ensures |AllKeys(ws)| == Total(ws) <==> Apart(ws)
  {
    if ws != [] {
      var t, w := ws[..|ws| - 1], ws[|ws| - 1];
      KeysCount(t);
      ApartUnfolds(ws);
      UnionSize(AllKeys(t), w.Keys);
      assert |w.Keys| == |w|;
    }
  }

  /** A database in step holds as many records as are demanded, exactly when none is demanded twice. */
  lemma SizeIff<K, V>(k: map<K, V>, ws: seq<map<K, V>>)
    requires InStep(k, ws)
    ensures |k| == Total(ws) <==> Apart(ws)
  {
    hide InStep, Demanded, AllKeys;
    forall x | x in k.Keys
      ensures x in AllKeys(ws)
    {
      DemandedIsHeld(k, ws, x);
      AllKeysDemanded(ws, x);
    }
    forall x | x in AllKeys(ws)
      ensures x in k.Keys
    {
      DemandedIsHeld(k, ws, x);
      AllKeysDemanded(ws, x);
    }
    assert k.Keys == AllKeys(ws);
    assert |k.Keys| == |k|;
    KeysCount(ws);
  }
}
