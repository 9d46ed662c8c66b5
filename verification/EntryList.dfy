/**
 The daemon's singly linked lists of entries, and the sequences they stand for. One class
 serves both lists: they differ only in what an entry holds.
 */
module EntryList {

  datatype Entry<+E> = Entry(name: string, data: E)

  // ----- entries as a sequence

  /** Position of the first entry with the name; the length when there is none. */
  function IndexOf<E>(s: seq<Entry<E>>, name: string): (i: nat)
    ensures i <= |s|
  {
    if s == [] || s[0].name == name then 0 else 1 + IndexOf(s[1..], name)
  }

  /** Position of the first entry whose contents have the property; the length when there is none. */
  function IndexWhere<E>(s: seq<Entry<E>>, p: E -> bool): (i: nat)
    ensures i <= |s| && (i < |s| ==> p(s[i].data))
    ensures forall j | 0 <= j < i :: !p(s[j].data)
  {
    if s == [] || p(s[0].data) then 0
    else
      assert forall j | 0 < j < |s| :: s[j] == s[1..][j - 1];
      1 + IndexWhere(s[1..], p)
  }

  predicate Has<E>(s: seq<Entry<E>>, name: string) {
    exists i :: 0 <= i < |s| && s[i].name == name
  }

  predicate UniqueNames<E>(s: seq<Entry<E>>) {
    forall i, j | 0 <= i < j < |s| :: s[i].name != s[j].name
  }

  function RemoveAt<T>(s: seq<T>, i: nat): seq<T> {
    if i < |s| then s[..i] + s[i + 1..] else s
  }

  function RemoveFirst<E>(s: seq<Entry<E>>, name: string): seq<Entry<E>> {
    RemoveAt(s, IndexOf(s, name))
  }

  function Keep<E>(s: seq<Entry<E>>, p: Entry<E> -> bool): (r: seq<Entry<E>>) {
    if s == [] then [] else (if p(s[0]) then [s[0]] else []) + Keep(s[1..], p)
  }

  lemma {:induction false} IndexOfIsFirst<E>(s: seq<Entry<E>>, name: string)
    ensures var i := IndexOf(s, name);
            && (i < |s| <==> Has(s, name))
            && (i < |s| ==> s[i].name == name)
            && forall j | 0 <= j < i :: s[j].name != name
  {
    if s != [] && s[0].name != name {
      IndexOfIsFirst(s[1..], name);
      var i := IndexOf(s, name);
      assert forall j | 0 < j < i :: s[j] == s[1..][j - 1];
      if k :| 0 <= k < |s| && s[k].name == name {
        assert s[1..][k - 1].name == name;
      }
    }
  }

  lemma FirstIsIndexOf<E>(s: seq<Entry<E>>, name: string, i: nat)
    requires i <= |s| && (i < |s| ==> s[i].name == name)
    requires forall j | 0 <= j < i :: s[j].name != name
    ensures IndexOf(s, name) == i
  {
    IndexOfIsFirst(s, name);
  }

  lemma {:induction false} KeepAppend<E>(s: seq<Entry<E>>, e: Entry<E>, p: Entry<E> -> bool)
    ensures Keep(s + [e], p) == Keep(s, p) + (if p(e) then [e] else [])
  {
    if s == [] {
      assert s + [e] == [e];
    } else {
      KeepAppend(s[1..], e, p);
      assert (s + [e])[1..] == s[1..] + [e];
    }
  }

  lemma {:induction false} KeepAll<E>(s: seq<Entry<E>>, p: Entry<E> -> bool)
    requires forall i | 0 <= i < |s| :: p(s[i])
    ensures Keep(s, p) == s
  {
    if s != [] {
      KeepAll(s[1..], p);
    }
  }

  lemma RemoveAtElements<T>(s: seq<T>, i: nat)
    requires i < |s|
    ensures |RemoveAt(s, i)| == |s| - 1
    ensures forall j | 0 <= j < i :: RemoveAt(s, i)[j] == s[j]
    ensures forall j | i <= j < |s| - 1 :: RemoveAt(s, i)[j] == s[j + 1]
  {
  }

  lemma RemoveAtTail<T>(s: seq<T>, k: nat)
    requires 0 < k < |s|
    ensures RemoveAt(s, k) == [s[0]] + RemoveAt(s[1..], k - 1)
  {
  }

  /** Where p rules out exactly one entry, filtering removes that entry and nothing else. */
  lemma {:induction false} KeepAllBut<E>(s: seq<Entry<E>>, p: Entry<E> -> bool, k: nat)
    requires k < |s| && !p(s[k])
    requires forall i | 0 <= i < |s| && i != k :: p(s[i])
    ensures Keep(s, p) == RemoveAt(s, k)
  {
    var t := s[1..];
    if k == 0 {
      KeepAll(t, p);
      assert RemoveAt(s, 0) == t;
    } else {
      KeepAllBut(t, p, k - 1);
      hide Keep;
      RemoveAtTail(s, k);
    }
  }

  /** With distinct names, removing the first match is removing every match. */
  lemma RemoveFirstIsKeep<E>(s: seq<Entry<E>>, name: string)
    requires UniqueNames(s)
    ensures RemoveFirst(s, name) == Keep(s, (e: Entry<E>) => e.name != name)
    ensures UniqueNames(RemoveFirst(s, name)) && !Has(RemoveFirst(s, name), name)
  {
    var p := (e: Entry<E>) => e.name != name;
    var i := IndexOf(s, name);
    IndexOfIsFirst(s, name);
    if i < |s| {
      KeepAllBut(s, p, i);
    } else {
      KeepAll(s, p);
    }
  }

  lemma EmptyRemoves<E>(name: string)
    ensures RemoveFirst<E>([], name) == [] && RemoveAt<Node<E>>([], IndexOf<E>([], name)) == []
  {
  }

  lemma AppendKeepsUnique<E>(s: seq<Entry<E>>, e: Entry<E>)
    requires UniqueNames(s)
    ensures UniqueNames(s + [e]) <==> !Has(s, e.name)
  {
    if i :| 0 <= i < |s| && s[i].name == e.name {
      assert (s + [e])[i].name == (s + [e])[|s|].name;
    }
  }

  // ----- the list

  class Node<E> {
    var name: string
    var data: E
    var next: Node?<E>

    constructor (name: string, data: E, next: Node?<E>)
      ensures this.name == name && this.data == data && this.next == next
    {
      this.name, this.data, this.next := name, data, next;
    }
  }

  class List<E> {
    var head: Node?<E>
    ghost var nodes: seq<Node<E>>

    /** The links run through `nodes` in order, without a cycle, and then stop. */
    ghost predicate Valid()
      reads this, nodes
    {
      && head == (if nodes == [] then null else nodes[0])
      && (forall i, j | 0 <= i < j < |nodes| :: nodes[i] != nodes[j])
      && forall i {:trigger nodes[i].next} | 0 <= i < |nodes| ::
             nodes[i].next == if i + 1 < |nodes| then nodes[i + 1] else null
    }

    ghost function Contents(): (s: seq<Entry<E>>)
      reads this, nodes
      ensures |s| == |nodes|
      ensures forall i | 0 <= i < |s| :: s[i] == Entry(nodes[i].name, nodes[i].data)
    {
      seq(|nodes|, i requires 0 <= i < |nodes| reads this, nodes => Entry(nodes[i].name, nodes[i].data))
    }

    constructor ()
      ensures Valid() && nodes == [] && Contents() == []
    {
      head, nodes := null, [];
    }

    /**
     `add_sad_node` and `add_spd_node`. The new node's link is cleared only on an empty list,
     so the list stays well linked exactly when it was empty or the link was already null.
     */
    method Add(node: Node<E>)
      requires Valid() && node !in nodes
      modifies this, nodes, node
      ensures nodes == old(nodes) + [node]
      ensures Contents() == old(Contents()) + [Entry(node.name, node.data)]
      ensures node.name == old(node.name) && node.data == old(node.data)
      ensures Valid() <==> old(nodes) == [] || old(node.next) == null
    {
      if head == null {
        head := node;
        node.next := null;
      } else {
        var n := head;
        ghost var k := 0;
        while n.next != null
          invariant 0 <= k < |nodes| && n == nodes[k]
          decreases |nodes| - k
          modifies {}
        {
          n, k := n.next, k + 1;
        }
        n.next := node;
      }
      nodes := nodes + [node];
      ghost var last := |nodes| - 1;
      assert nodes[last] == node && node.next == if last == 0 then null else old(node.next);
      assert forall i | 0 <= i < last :: nodes[i].next == nodes[i + 1];
    }

    /** `get_sad_node` and `get_spd_node`: the first entry with the name, or null. */
    method Get(name: string) returns (node: Node?<E>)
      requires Valid()
      ensures var i := IndexOf(Contents(), name); node == if i < |nodes| then nodes[i] else null
    {
      node := head;
      ghost var k := 0;
      while node != null
        invariant 0 <= k <= |nodes| && node == (if k < |nodes| then nodes[k] else null)
        invariant forall j | 0 <= j < k :: nodes[j].name != name
        decreases |nodes| - k
      {
        if node.name == name {
          break;
        }
        node, k := node.next, k + 1;
      }
      FirstIsIndexOf(Contents(), name, k);
    }

    /** `get_sad_node_by_spi` and `get_spd_node_by_index`: the first entry with the property. */
    method Find(p: E -> bool) returns (node: Node?<E>)
      requires Valid()
      ensures var i := IndexWhere(Contents(), p); node == if i < |nodes| then nodes[i] else null
    {
      node := head;
      ghost var k := 0;
      while node != null
        invariant 0 <= k <= |nodes| && node == (if k < |nodes| then nodes[k] else null)
        invariant forall j | 0 <= j < k :: !p(nodes[j].data)
        decreases |nodes| - k
      {
        if p(node.data) {
          break;
        }
        node, k := node.next, k + 1;
      }
      assert forall j | 0 <= j < |nodes| :: Contents()[j].data == nodes[j].data;
    }

    /**
     `del_sad_node` and `del_spd_node`: false only on an empty list. On any other list the
     source runs off the end unless the name is present.
     */
    method Delete(name: string) returns (ok: bool)
      requires Valid() && (nodes != [] ==> Has(Contents(), name))
      modifies this, nodes
      ensures Valid() && ok == (old(nodes) != [])
      ensures nodes == RemoveAt(old(nodes), IndexOf(old(Contents()), name))
      ensures Contents() == RemoveFirst(old(Contents()), name)
    {
      hide IndexOf, RemoveAt;
      if head == null {
        EmptyRemoves<E>(name);
        return false;
      }
      var node, prev := Locate(name);
      ghost var i := IndexOf(Contents(), name);
      Unlink(node, prev, i);
      RemoveAtElements(old(nodes), i);
      RemoveAtElements(old(Contents()), i);
      assert Contents() == RemoveAt(old(Contents()), i);
      return true;
    }

    method Unlink(node: Node<E>, prev: Node<E>, ghost i: nat)
      requires Valid() && i < |nodes| && node == nodes[i]
      requires i > 0 ==> prev == nodes[i - 1]
      modifies this, nodes
      ensures Valid() && nodes == RemoveAt(old(nodes), i)
      ensures forall n | n in old(nodes) :: n.name == old(n.name) && n.data == old(n.data)
    {
      ghost var was := nodes;
      RemoveAtElements(was, i);
      hide RemoveAt;
      if node == head {
        head := head.next;
      } else {
        prev.next := node.next;
      }
      nodes := RemoveAt(was, i);
    }

    /** The node to delete, and the one before it unless it is the first. */
    method Locate(name: string) returns (node: Node<E>, prev: Node<E>)
      requires Valid() && Has(Contents(), name)
      ensures var i := IndexOf(Contents(), name);
              i < |nodes| && node == nodes[i] && (i > 0 ==> prev == nodes[i - 1])
    {
      ghost var i := IndexOf(Contents(), name);
      IndexOfIsFirst(Contents(), name);
      node, prev := head, head;
      ghost var k := 0;
      while node.name != name
        invariant 0 <= k <= i && node == nodes[k]
        invariant k > 0 ==> prev == nodes[k - 1]
        decreases i - k
      {
        node, prev, k := node.next, node, k + 1;
      }
    }
  }
}
