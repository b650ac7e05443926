/** The kernel's pointer-based list: a doubly linked list with head, tail and a count,
    proved to behave as a sequence. */
module LinkedQueue {

  // ---------- sequences ----------

  function Removed<T>(s: seq<T>, k: nat): seq<T>
    requires k < |s|
  {
    s[..k] + s[k + 1..]
  }

  /** Index of the first `e`, or -1. */
  function IndexIn<T(==)>(s: seq<T>, e: T): (r: int)
    ensures -1 <= r < |s|
    ensures r >= 0 ==> s[r] == e
    ensures r < 0 ==> e !in s
    ensures forall k :: 0 <= k < r ==> s[k] != e
  {
    if s == [] then -1
    else if s[0] == e then 0
    else
      var r := IndexIn(s[1..], e);
      if r < 0 then -1 else r + 1
  }

  ghost predicate Distinct<T>(s: seq<T>)
  {
    forall i, j :: 0 <= i < j < |s| ==> s[i] != s[j]
  }

  /** `s` without the elements of `drop`, in order. */
  ghost function Without<T>(s: seq<T>, drop: set<T>): seq<T>
  {
    if s == [] then []
    else if s[0] in drop then Without(s[1..], drop)
    else [s[0]] + Without(s[1..], drop)
  }

  /** The loop of `Remove(e)` from index `i` on: it deletes at `i` and still moves on, so the
      element that moves into place `i` is not looked at. */
  function RemoveLoop<T(==)>(s: seq<T>, i: nat, e: T): seq<T>
    decreases |s| - i
  {
    if i >= |s| then s
    else if s[i] == e then RemoveLoop(Removed(s, i), i + 1, e)
    else RemoveLoop(s, i + 1, e)
  }

  /** What is left of `s` by that loop, read off the sequence. */
  function Survivors<T(==)>(s: seq<T>, e: T): seq<T>
  {
    if s == [] then []
    else if s[0] != e then [s[0]] + Survivors(s[1..], e)
    else if |s| == 1 then []
    else [s[1]] + Survivors(s[2..], e)
  }

  lemma {:induction false} RemoveLoopSurvivors<T>(s: seq<T>, i: nat, e: T)
    requires i <= |s|
    ensures RemoveLoop(s, i, e) == s[..i] + Survivors(s[i..], e)
    decreases |s| - i
  {
    if i < |s| {
      if s[i] == e {
        var t := Removed(s, i);
        if i + 1 < |s| {
          RemoveLoopSurvivors(t, i + 1, e);
          assert t[..i + 1] == s[..i] + [s[i + 1]] && t[i + 1..] == s[i + 2..] == s[i..][2..];
        } else {
          assert t == s[..i];
        }
      } else {
        RemoveLoopSurvivors(s, i + 1, e);
        assert s[..i + 1] == s[..i] + [s[i]] && s[i..][1..] == s[i + 1..];
      }
    }
  }

  /** Two neighbours of `s` both equal `e`. */
  ghost predicate Adjacent<T>(s: seq<T>, e: T)
  {
    |s| >= 2 && ((s[0] == e && s[1] == e) || Adjacent(s[1..], e))
  }

  lemma {:induction false} SurvivorsKeep<T>(s: seq<T>, e: T)
    ensures e in Survivors(s, e) <==> Adjacent(s, e)
    decreases |s|
  {
    if s != [] {
      if s[0] != e {
        SurvivorsKeep(s[1..], e);
      } else if |s| > 1 {
        SurvivorsKeep(s[2..], e);
        assert s[1..][1..] == s[2..];
      }
    }
  }

  /** `Remove(e)` gets rid of every `e` exactly when no two of them are neighbours. */
  lemma RemoveAllIff<T>(s: seq<T>, e: T)
    ensures e !in RemoveLoop(s, 0, e) <==> !Adjacent(s, e)
  {
    RemoveLoopSurvivors(s, 0, e);
    SurvivorsKeep(s, e);
    assert s[0..] == s && s[..0] == [];
  }

  lemma SurvivorsTail<T>(s: seq<T>, e: T)
    requires s != [] && s[0] != e
    ensures Survivors(s, e) == [s[0]] + Survivors(s[1..], e)
  {
  }

  lemma {:induction false} SurvivorsWithout<T>(s: seq<T>, e: T)
    requires !Adjacent(s, e)
    ensures Survivors(s, e) == Without(s, {e})
    decreases |s|
  {
    if s != [] {
      if |s| > 1 { SurvivorsWithout(s[1..], e); }
      if s[0] == e && |s| > 1 {
        SurvivorsTail(s[1..], e);
        assert s[1..][1..] == s[2..];
      }
    }
  }

  /** ...and then removes exactly those and keeps the order of the rest. On a list without
      duplicates it therefore always removes just `e`. */
  lemma RemoveIsWithout<T>(s: seq<T>, e: T)
    requires !Adjacent(s, e)
    ensures RemoveLoop(s, 0, e) == Without(s, {e})
  {
    RemoveLoopSurvivors(s, 0, e);
    SurvivorsWithout(s, e);
    assert s[0..] == s && s[..0] == [];
  }

  lemma {:induction false} DistinctNotAdjacent<T>(s: seq<T>, e: T)
    requires Distinct(s)
    ensures !Adjacent(s, e)
  {
    if |s| >= 2 {
      assert s[0] != s[1];
      DistinctNotAdjacent(s[1..], e);
    }
  }

  // ---------- the pointer code ----------

  class QueueNode<T> {
    const data: T
    var next: QueueNode?<T>
    var prev: QueueNode?<T>

    constructor (e: T)
      ensures data == e && next == null && prev == null
    {
      data, next, prev := e, null, null;
    }
  }

  ghost function DataOf<T>(ns: seq<QueueNode<T>>): (s: seq<T>)
    ensures |s| == |ns| && forall k :: 0 <= k < |ns| ==> s[k] == ns[k].data
  {
    seq(|ns|, k requires 0 <= k < |ns| => ns[k].data)
  }

  /** The `k`-th node, or null outside the list. */
  ghost function NodeAt<T>(ns: seq<QueueNode<T>>, k: int): QueueNode?<T>
  {
    if 0 <= k < |ns| then ns[k] else null
  }

  ghost function NodeSet<T>(ns: seq<QueueNode<T>>): set<QueueNode<T>>
  {
    set n | n in ns
  }

  /** Node `k` points to its neighbours. */
  ghost predicate LinkedAt<T>(ns: seq<QueueNode<T>>, k: int)
    requires 0 <= k < |ns|
    reads ns[k]
  {
    ns[k].next == NodeAt(ns, k + 1) && ns[k].prev == NodeAt(ns, k - 1)
  }

  function Inserted<T>(s: seq<T>, k: nat, e: T): seq<T>
    requires k <= |s|
  {
    s[..k] + [e] + s[k..]
  }

  /** Node `i` points to its neighbours, with `n` standing between node `k - 1` and node `k`. */
  ghost predicate InsertAt<T>(ns: seq<QueueNode<T>>, k: nat, n: QueueNode<T>, i: int)
    requires 0 <= i < |ns|
    reads ns[i]
  {
    && ns[i].next == (if i == k - 1 then n else NodeAt(ns, i + 1))
    && ns[i].prev == (if i == k then n else NodeAt(ns, i - 1))
  }

  lemma InsertedNodes<T>(ns: seq<QueueNode<T>>, k: nat, n: QueueNode<T>, i: int)
    requires k <= |ns|
    ensures NodeAt(Inserted(ns, k, n), i) ==
            if i < k then NodeAt(ns, i) else if i == k then n else NodeAt(ns, i - 1)
  {
  }

  lemma InsertLinked<T>(ns: seq<QueueNode<T>>, k: nat, n: QueueNode<T>, i: nat)
    requires k <= |ns| && i <= |ns|
    requires forall j :: 0 <= j < |ns| ==> InsertAt(ns, k, n, j)
    requires n.next == NodeAt(ns, k) && n.prev == NodeAt(ns, k - 1)
    ensures |Inserted(ns, k, n)| == |ns| + 1 && LinkedAt(Inserted(ns, k, n), i)
  {
    var m := Inserted(ns, k, n);
    InsertedNodes(ns, k, n, i - 1);
    InsertedNodes(ns, k, n, i);
    InsertedNodes(ns, k, n, i + 1);
    if i < k {
      assert InsertAt(ns, k, n, i);
    } else if i > k {
      assert InsertAt(ns, k, n, i - 1);
    }
  }

  lemma DistinctInserted<T>(s: seq<T>, k: nat, e: T)
    requires k <= |s| && Distinct(s) && e !in s
    ensures Distinct(Inserted(s, k, e))
  {
    var t := Inserted(s, k, e);
    forall i, j | 0 <= i < j < |t| ensures t[i] != t[j] {
      assert t[i] == if i < k then s[i] else if i == k then e else s[i - 1];
      assert t[j] == if j < k then s[j] else if j == k then e else s[j - 1];
    }
  }

  /** Node `i` points to its neighbours, with node `k` bypassed. */
  ghost predicate BypassAt<T>(ns: seq<QueueNode<T>>, k: nat, i: int)
    requires 0 <= i < |ns|
    reads ns[i]
  {
    && ns[i].next == NodeAt(ns, if i == k - 1 then k + 1 else i + 1)
    && ns[i].prev == NodeAt(ns, if i == k + 1 then k - 1 else i - 1)
  }

  lemma RemovedNodes<T>(ns: seq<QueueNode<T>>, k: nat, i: int)
    requires k < |ns|
    ensures NodeAt(Removed(ns, k), i) == NodeAt(ns, if i < k then i else i + 1)
  {
  }

  lemma RemoveLinked<T>(ns: seq<QueueNode<T>>, k: nat, i: nat)
    requires k < |ns| && i < |ns| - 1
    requires forall j :: 0 <= j < |ns| && j != k ==> BypassAt(ns, k, j)
    ensures |Removed(ns, k)| == |ns| - 1 && LinkedAt(Removed(ns, k), i)
  {
    RemovedNodes(ns, k, i - 1);
    RemovedNodes(ns, k, i);
    RemovedNodes(ns, k, i + 1);
    if i < k {
      assert BypassAt(ns, k, i);
    } else {
      assert BypassAt(ns, k, i + 1);
    }
  }

  lemma DistinctRemoved<T>(s: seq<T>, k: nat)
    requires k < |s| && Distinct(s)
    ensures Distinct(Removed(s, k))
  {
    var t := Removed(s, k);
    forall i, j | 0 <= i < j < |t| ensures t[i] != t[j] {
      assert t[i] == s[if i < k then i else i + 1];
      assert t[j] == s[if j < k then j else j + 1];
    }
  }

  lemma DataInserted<T>(ns: seq<QueueNode<T>>, k: nat, n: QueueNode<T>)
    requires k <= |ns|
    ensures DataOf(Inserted(ns, k, n)) == Inserted(DataOf(ns), k, n.data)
  {
  }

  lemma DataRemoved<T>(ns: seq<QueueNode<T>>, k: nat)
    requires k < |ns|
    ensures DataOf(Removed(ns, k)) == Removed(DataOf(ns), k)
  {
  }

  class Queue<T(==)> {
    var head: QueueNode?<T>
    var tail: QueueNode?<T>
    var size: int
    /** The nodes from head to tail. */
    ghost var nodes: seq<QueueNode<T>>

    ghost predicate Valid()
      reads this, nodes
    {
      && size == |nodes| && Distinct(nodes)
      && head == NodeAt(nodes, 0) && tail == NodeAt(nodes, |nodes| - 1)
      && (forall k :: 0 <= k < |nodes| ==> LinkedAt(nodes, k))
    }

    /** The sequence the queue stands for. */
    ghost function Contents(): seq<T>
      reads this
    {
      DataOf(nodes)
    }

    constructor ()
      ensures Valid() && nodes == [] && Contents() == []
    {
      head, tail, size, nodes := null, null, 0, [];
    }

    method Size() returns (n: int)
      requires Valid()
      ensures n == |Contents()|
    {
      n := size;
    }

    /** Insert before `pos`, node `k` of the list, or at the end when `pos` is null. */
    method InsertInternal(e: T, pos: QueueNode?<T>, ghost k: nat) returns (n: QueueNode<T>)
      requires Valid() && k <= |nodes| && pos == NodeAt(nodes, k)
      modifies this, NodeSet(nodes)
      ensures Valid() && fresh(n) && n.data == e && nodes == Inserted(old(nodes), k, n)
    {
      n := new QueueNode(e);
      ghost var ns := nodes;
      size := size + 1;
      assert k < |ns| ==> LinkedAt(ns, k);
      n.next := pos;
      if pos != null {
        n.prev := pos.prev;
        pos.prev := n;
      } else {
        n.prev := tail;
        tail := n;
      }
      assert n.prev == NodeAt(ns, k - 1);
      if n.prev != null {
        n.prev.next := n;
      } else {
        head := n;
      }
      nodes := Inserted(ns, k, n);
      forall i | 0 <= i < |ns| ensures InsertAt(ns, k, n, i) {
        assert old(LinkedAt(ns, i));
      }
      DistinctInserted(ns, k, n);
      InsertedNodes(ns, k, n, 0);
      InsertedNodes(ns, k, n, |ns|);
      forall i | 0 <= i < |nodes| ensures LinkedAt(nodes, i) {
        InsertLinked(ns, k, n, i);
      }
    }

    method PushBack(e: T)
      requires Valid()
      modifies this, NodeSet(nodes)
      ensures Valid() && fresh(NodeSet(nodes) - NodeSet(old(nodes))) && Contents() == old(Contents()) + [e]
    {
      ghost var ns := nodes;
      var n := InsertInternal(e, null, |nodes|);
      DataInserted(ns, |ns|, n);
    }

    method PushFront(e: T)
      requires Valid()
      modifies this, NodeSet(nodes)
      ensures Valid() && fresh(NodeSet(nodes) - NodeSet(old(nodes))) && Contents() == [e] + old(Contents())
    {
      ghost var ns := nodes;
      var n := InsertInternal(e, head, 0);
      DataInserted(ns, 0, n);
    }

    /** Unlink node `k`. (Its storage is freed; it is simply no longer a node here.) */
    method RemoveInternal(pos: QueueNode?<T>, ghost k: nat)
      requires Valid() && pos == NodeAt(nodes, k)
      modifies this, NodeSet(nodes)
      ensures Valid()
      ensures nodes == if k < |old(nodes)| then Removed(old(nodes), k) else old(nodes)
    {
      if pos != null {
        ghost var ns := nodes;
        assert LinkedAt(ns, k);
        if pos.prev != null {
          pos.prev.next := pos.next;
        }
        if pos.next != null {
          pos.next.prev := pos.prev;
        }
        if pos == head {
          head := pos.next;
        }
        if pos == tail {
          tail := pos.prev;
        }
        size := size - 1;
        nodes := Removed(ns, k);
        forall i | 0 <= i < |ns| && i != k ensures BypassAt(ns, k, i) {
          assert old(LinkedAt(ns, i));
        }
        DistinctRemoved(ns, k);
        RemovedNodes(ns, k, 0);
        RemovedNodes(ns, k, |ns| - 2);
        forall i | 0 <= i < |nodes| ensures LinkedAt(nodes, i) {
          RemoveLinked(ns, k, i);
        }
      }
    }

    /** Walk `index` steps from the head. A negative index walks nowhere. */
    method Walk(index: int) returns (cur: QueueNode?<T>)
      requires Valid() && index <= |nodes|
      ensures cur == NodeAt(nodes, if index < 0 then 0 else index)
    {
      cur := head;
      var i := 0;
      while i < index
        invariant 0 <= i && (i <= index || i == 0)
        invariant cur == NodeAt(nodes, i)
      {
        assert LinkedAt(nodes, i);
        cur := cur.next;
        i := i + 1;
      }
    }

    method GetAt(index: int) returns (e: T)
      requires Valid() && index < |Contents()| && Contents() != []
      ensures e == Contents()[if index < 0 then 0 else index]
    {
      var cur := Walk(index);
      e := cur.data;
    }

    /** A negative index removes the first element; the index just past the end, or any on an
        empty list up to that, removes nothing. */
    method RemoveAt(index: int)
      requires Valid() && index <= |Contents()|
      modifies this, NodeSet(nodes)
      ensures Valid() && NodeSet(nodes) <= NodeSet(old(nodes))
      ensures var s := old(Contents());
              if s == [] || index == |s| then Contents() == s
              else if index < 0 then Contents() == s[1..]
              else Contents() == s[..index] + s[index + 1..]
    {
      var cur := Walk(index);
      ghost var ns := nodes;
      ghost var k := if index < 0 then 0 else index;
      RemoveInternal(cur, k);
      if k < |ns| {
        DataRemoved(ns, k);
      }
    }

    method IndexOf(e: T) returns (r: int)
      requires Valid()
      ensures r == IndexIn(Contents(), e)
    {
      var i := 0;
      while i < size
        invariant 0 <= i <= |Contents()|
        invariant forall k :: 0 <= k < i ==> Contents()[k] != e
      {
        var d := GetAt(i);
        if d == e {
          return i;
        }
        i := i + 1;
      }
      r := -1;
    }

    method RemoveValue(e: T)
      requires Valid()
      modifies this, NodeSet(nodes)
      ensures Valid() && NodeSet(nodes) <= NodeSet(old(nodes))
      ensures Contents() == RemoveLoop(old(Contents()), 0, e)
    {
      var i := 0;
      while i < size
        invariant Valid() && 0 <= i && NodeSet(nodes) <= NodeSet(old(nodes))
        invariant RemoveLoop(Contents(), i, e) == RemoveLoop(old(Contents()), 0, e)
        decreases |Contents()| - i
      {
        ghost var before := Contents();
        var d := GetAt(i);
        if d == e {
          RemoveAt(i);
          assert Contents() == Removed(before, i);
        }
        assert RemoveLoop(before, i, e) == RemoveLoop(Contents(), i + 1, e);
        i := i + 1;
      }
    }

    method Clear()
      requires Valid()
      modifies this
      ensures Valid() && nodes == [] && Contents() == []
    {
      var current := head;
      ghost var k := 0;
      while current != null
        invariant 0 <= k <= |nodes| && current == NodeAt(nodes, k) && Valid()
        decreases |nodes| - k
      {
        assert LinkedAt(nodes, k);
        var next := current.next;
        current, k := next, k + 1;
      }
      size, head, tail, nodes := 0, null, null, [];
    }
  }
}
