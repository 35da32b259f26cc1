/**
 The intrusive circular doubly linked list that holds the registered alarms. A list is a head node and, in
 order of the next pointers, the nodes registered on it; the ghost argument nodes names that order.
 */
module AlarmList {
  import opened Words

  /** An alarm structure: its two links and its 32-bit time with the rollover flag. The head uses the links only. */
  class Alarm {
    var next: Alarm?
    var previous: Alarm?
    var time: UInt32
    var rollover: bool

    constructor ()
      ensures next == null && previous == null
    {
      next, previous, time, rollover := null, null, 0, false;
    }
  }

  ghost predicate SelfLinked(a: Alarm)
    reads a`next, a`previous
  {
    a.next == a && a.previous == a
  }

  ghost predicate Distinct(nodes: seq<Alarm>)
  {
    forall i, j :: 0 <= i < j < |nodes| ==> nodes[i] != nodes[j]
  }

  ghost function Succ(i: nat, n: nat): nat { if i + 1 == n then 0 else i + 1 }

  /** One well-formed circular list in both directions. The cycle names its nodes in order, the head first. */
  ghost predicate Ring(cycle: seq<Alarm>)
    reads cycle`next, cycle`previous
  {
    && cycle != [] && Distinct(cycle)
    && (forall i {:trigger cycle[i].next} :: 0 <= i < |cycle| ==> cycle[i].next == cycle[Succ(i, |cycle|)])
    && (forall i {:trigger cycle[i].next} :: 0 <= i < |cycle| ==> cycle[Succ(i, |cycle|)].previous == cycle[i])
  }

  /** Both links of a registered node lead to registered nodes. */
  lemma LinksStayInCycle(cycle: seq<Alarm>, a: Alarm)
    requires Ring(cycle) && a in cycle
    ensures a.next in cycle && a.previous in cycle
  {
    var k :| 0 <= k < |cycle| && cycle[k] == a;
    assert cycle[k].next == cycle[Succ(k, |cycle|)];
    var j := if k == 0 then |cycle| - 1 else k - 1;
    assert cycle[j].next == cycle[k];
  }

  /** A sequence without one of its elements. */
  ghost function Without(nodes: seq<Alarm>, a: Alarm): (s: seq<Alarm>)
    ensures |s| <= |nodes|
    ensures a !in nodes ==> s == nodes
    ensures forall x :: x in s ==> x in nodes
    ensures forall x :: x in nodes && x != a ==> x in s
  {
    if nodes == [] then []
    else if nodes[0] == a then nodes[1..]
    else [nodes[0]] + Without(nodes[1..], a)
  }

  lemma {:induction false} WithoutAt(nodes: seq<Alarm>, k: nat)
    requires k < |nodes| && Distinct(nodes)
    ensures Without(nodes, nodes[k]) == nodes[..k] + nodes[k + 1..]
  {
    if k == 0 {
      assert nodes[..0] == [];
    } else {
      var tail := nodes[1..];
      assert tail[k - 1] == nodes[k] && tail[k..] == nodes[k + 1..];
      WithoutAt(tail, k - 1);
      assert nodes[..k] == [nodes[0]] + tail[..k - 1];
    }
  }

  lemma WithoutKeepsDistinct(nodes: seq<Alarm>, a: Alarm)
    requires Distinct(nodes)
    ensures Distinct(Without(nodes, a)) && a !in Without(nodes, a)
  {
    if a in nodes {
      var k :| 0 <= k < |nodes| && nodes[k] == a;
      WithoutAt(nodes, k);
    }
  }

  lemma {:induction false} WithoutSplit(s: seq<Alarm>, t: seq<Alarm>, a: Alarm)
    requires a !in s || a !in t
    ensures Without(s + t, a) == Without(s, a) + Without(t, a)
  {
    if s == [] {
      assert s + t == t;
    } else {
      assert (s + t)[1..] == s[1..] + t;
      if s[0] != a {
        WithoutSplit(s[1..], t, a);
      }
    }
  }

  /** alt_llist_insert: the entry becomes the first node. */
  method Insert(list: Alarm, entry: Alarm, ghost cycle: seq<Alarm>)
    requires Ring(cycle) && cycle[0] == list && entry !in cycle
    modifies {list, entry, list.next}`next, {list, entry, list.next}`previous
    ensures Ring([list, entry] + cycle[1..])
  {
    ghost var grown := [list, entry] + cycle[1..];
    entry.previous := list;
    entry.next := list.next;
    list.next.previous := entry;
    list.next := entry;
    forall i | 0 <= i < |grown|
      ensures grown[i].next == grown[Succ(i, |grown|)] && grown[Succ(i, |grown|)].previous == grown[i]
    {
      if i > 1 {
        assert grown[i] == cycle[i - 1] && cycle[i - 1].next == cycle[Succ(i - 1, |cycle|)];
      }
    }
  }

  /** The links of a cycle whose node k has been bypassed: its neighbours point at each other. */
  ghost predicate Bypassed(cycle: seq<Alarm>, k: nat)
    requires 0 < k < |cycle|
    reads cycle`next, cycle`previous
  {
    && Distinct(cycle)
    && cycle[k - 1].next == cycle[Succ(k, |cycle|)] && cycle[Succ(k, |cycle|)].previous == cycle[k - 1]
    && forall i {:trigger cycle[i].next} :: 0 <= i < |cycle| && i != k - 1 && i != k ==>
         cycle[i].next == cycle[Succ(i, |cycle|)] && cycle[Succ(i, |cycle|)].previous == cycle[i]
  }

  lemma BypassedIsRing(cycle: seq<Alarm>, k: nat)
    requires 0 < k < |cycle| && Bypassed(cycle, k)
    ensures Ring(cycle[..k] + cycle[k + 1..])
  {
    var rest := cycle[..k] + cycle[k + 1..];
    forall i | 0 <= i < |rest|
      ensures rest[i].next == rest[Succ(i, |rest|)] && rest[Succ(i, |rest|)].previous == rest[i]
    {
      if i == k - 1 {
        assert rest[i] == cycle[k - 1] && rest[Succ(i, |rest|)] == cycle[Succ(k, |cycle|)];
      } else {
        var j := if i < k then i else i + 1;
        assert rest[i] == cycle[j] && rest[Succ(i, |rest|)] == cycle[Succ(j, |cycle|)];
        assert cycle[j].next == cycle[Succ(j, |cycle|)];
      }
    }
  }

  /** The first two stores of a removal join the neighbours of the entry. */
  method Bypass(entry: Alarm, ghost cycle: seq<Alarm>, ghost k: nat)
    requires Ring(cycle) && (entry in cycle || SelfLinked(entry))
    requires entry in cycle ==> 0 < k < |cycle| && cycle[k] == entry
    modifies {entry.previous}`next, {entry.next}`previous
    ensures entry in cycle ==> Ring(cycle[..k] + cycle[k + 1..])
    ensures entry !in cycle ==> unchanged(entry)
  {
    if entry in cycle {
      assert cycle[k - 1].next == entry && cycle[k].next == cycle[Succ(k, |cycle|)];
    }
    entry.next.previous := entry.previous;
    entry.previous.next := entry.next;
    if entry in cycle {
      BypassedIsRing(cycle, k);
    }
  }

  /**
   alt_llist_remove: the neighbours are joined and the entry is linked to itself. On an entry that is linked
   to itself already the same four stores change nothing, so a second removal is harmless.
   */
  method Remove(entry: Alarm, ghost cycle: seq<Alarm>)
    requires Ring(cycle) && entry != cycle[0] && (entry in cycle || SelfLinked(entry))
    modifies {entry, entry.next, entry.previous}`next, {entry, entry.next, entry.previous}`previous
    ensures Ring(Without(cycle, entry)) && SelfLinked(entry)
    ensures entry !in cycle ==> unchanged(entry)
  {
    ghost var k: nat :| entry in cycle ==> 0 < k < |cycle| && cycle[k] == entry;
    if entry in cycle {
      WithoutAt(cycle, k);
      WithoutKeepsDistinct(cycle, entry);
      assert cycle[k].next == cycle[Succ(k, |cycle|)];
    }
    Bypass(entry, cycle, k);
    entry.previous := entry;
    entry.next := entry;
  }

  /** Following next pointers k times. */
  ghost function Follow(a: Alarm, k: nat, heap: set<Alarm>): (b: Alarm?)
    reads heap`next
  {
    if k == 0 then a
    else if a !in heap || a.next == null then null
    else Follow(a.next, k - 1, heap)
  }

  /** From a registered node the traversal reaches the head, after exactly the nodes that are left. */
  lemma {:induction false} FollowReachesHead(cycle: seq<Alarm>, i: nat, heap: set<Alarm>)
    requires Ring(cycle) && 0 < i < |cycle| && forall a :: a in cycle ==> a in heap
    ensures Follow(cycle[i], |cycle| - i, heap) == cycle[0]
    decreases |cycle| - i
  {
    assert cycle[i].next == cycle[Succ(i, |cycle|)];
    if i == |cycle| - 1 {
    } else {
      FollowReachesHead(cycle, i + 1, heap);
    }
  }

  /** From a node that was removed, and so is linked to itself, the traversal never reaches the head. */
  lemma {:induction false} FollowNeverReachesHead(head: Alarm, a: Alarm, k: nat, heap: set<Alarm>)
    requires SelfLinked(a) && a != head && a in heap
    ensures Follow(a, k, heap) != head
  {
    if k == 0 {
    } else {
      FollowNeverReachesHead(head, a, k - 1, heap);
    }
  }

  /** The traversal from a saved successor ends exactly when that successor is still registered. */
  lemma TraversalEndsIff(cycle: seq<Alarm>, saved: Alarm, heap: set<Alarm>)
    requires Ring(cycle) && saved != cycle[0] && saved in heap && forall a :: a in cycle ==> a in heap
    requires saved in cycle || SelfLinked(saved)
    ensures (exists k: nat :: Follow(saved, k, heap) == cycle[0]) <==> saved in cycle
  {
    if saved in cycle {
      var i :| 0 <= i < |cycle| && cycle[i] == saved;
      FollowReachesHead(cycle, i, heap);
    } else {
      forall k: nat
        ensures Follow(saved, k, heap) != cycle[0]
      {
        FollowNeverReachesHead(cycle[0], saved, k, heap);
      }
    }
  }
}
