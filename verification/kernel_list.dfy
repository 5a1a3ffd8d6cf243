/**
  The linked integer lists of kernel/list.c: a sentinel node and singly linked blocks. The kernel uses them as
  stacks (free semaphore ids), queues (semaphore waiters) and sets (children).
 */
module IntList {
  import opened Sequences

  class Node {
    var element: int
    var next: Node?

    constructor (element: int, next: Node?)
      ensures this.element == element && this.next == next
    {
      this.element, this.next := element, next;
    }
  }

  class List {
    const head: Node
    ghost var nodes: seq<Node>      // the sentinel first
    ghost var contents: seq<int>

    ghost predicate Valid()
      reads this, nodes
    {
      && |nodes| == |contents| + 1 && nodes[0] == head
      && (forall i, j {:trigger nodes[i], nodes[j]} :: 0 <= i < j < |nodes| ==> nodes[i] != nodes[j])
      && (forall i {:trigger nodes[i].next} :: 0 <= i < |nodes| ==> nodes[i].next == if i + 1 < |nodes| then nodes[i + 1] else null)
      && (forall i {:trigger contents[i]} :: 0 <= i < |contents| ==> nodes[i + 1].element == contents[i])
    }

    /** list_new. */
    constructor ()
      ensures Valid() && contents == [] && fresh(nodes)
    {
      var sentinel := new Node(-1, null);
      head := sentinel;
      nodes, contents := [sentinel], [];
    }

    /** list_is_empty. */
    method IsEmpty() returns (b: bool)
      requires Valid()
      ensures b <==> contents == []
    {
      assert nodes[0].next == if 1 < |nodes| then nodes[1] else null;
      b := head.next == null;
    }

    /** list_put_first. */
    method PutFirst(x: int)
      requires Valid() && x >= 0
      modifies this, nodes
      ensures Valid() && contents == [x] + old(contents) && fresh(set n | n in nodes && n !in old(nodes))
    {
      assert nodes[0].next == if 1 < |nodes| then nodes[1] else null;
      var block := new Node(x, head.next);
      head.next := block;
      ghost var old_nodes := nodes;
      nodes := [nodes[0], block] + nodes[1..];
      contents := [x] + contents;
      assert forall i {:trigger nodes[i]} :: 2 <= i < |nodes| ==> nodes[i] == old_nodes[i - 1];
    }

    /** list_get_first: used as a stack with put_first. */
    method GetFirst() returns (x: int)
      requires Valid()
      modifies this, nodes
      ensures Valid()
      ensures if old(contents) == [] then x == -1 && contents == [] else x == old(contents)[0] && contents == old(contents)[1..]
    {
      assert nodes[0].next == if 1 < |nodes| then nodes[1] else null;
      if head.next == null { return -1; }
      assert nodes[1].next == if 2 < |nodes| then nodes[2] else null;
      assert nodes[1].element == contents[0];
      x := head.next.element;
      head.next := head.next.next;
      ghost var old_nodes := nodes;
      nodes := [nodes[0]] + nodes[2..];
      contents := contents[1..];
      assert forall i {:trigger nodes[i]} :: 1 <= i < |nodes| ==> nodes[i] == old_nodes[i + 1];
    }

    /** list_get_last: used as a queue with put_first. */
    method GetLast() returns (x: int)
      requires Valid()
      modifies this, nodes
      ensures Valid()
      ensures if old(contents) == [] then x == -1 && contents == []
              else x == old(contents)[|old(contents)| - 1] && contents == DropLast(old(contents))
    {
      assert nodes[0].next == if 1 < |nodes| then nodes[1] else null;
      if head.next == null { return -1; }
      var l := head;
      ghost var k := 0;
      while l.next.next != null
        invariant 0 <= k < |nodes| - 1 && l == nodes[k] && l.next == nodes[k + 1]
        decreases |nodes| - k
      {
        assert nodes[k + 1].next == if k + 2 < |nodes| then nodes[k + 2] else null;
        l := l.next;
        k := k + 1;
      }
      assert nodes[k + 1].next == if k + 2 < |nodes| then nodes[k + 2] else null;
      assert contents[k] == nodes[k + 1].element;
      x := l.next.element;
      l.next := null;
      nodes := nodes[..k + 1];
      contents := contents[..k];
    }

    /** list_lookup. */
    method Lookup(x: int) returns (b: bool)
      requires Valid()
      ensures b <==> x in contents
    {
      assert nodes[0].next == if 1 < |nodes| then nodes[1] else null;
      var l := head.next;
      ghost var k := 0;
      while l != null
        invariant 0 <= k <= |contents| && l == if k < |contents| then nodes[k + 1] else null
        invariant x !in contents[..k]
        decreases |contents| - k
      {
        assert contents[k] == nodes[k + 1].element;
        if l.element == x { return true; }
        assert nodes[k + 1].next == if k + 2 < |nodes| then nodes[k + 2] else null;
        assert contents[..k + 1] == contents[..k] + [contents[k]];
        l := l.next;
        k := k + 1;
      }
      assert contents[..k] == contents;
      b := false;
    }

    /** list_delete: removes the first occurrence, or reports -1. */
    method Delete(e: int) returns (r: int)
      requires Valid() && e >= 0
      modifies this, nodes
      ensures Valid() && contents == Without(old(contents), e)
      ensures r == if e in old(contents) then e else -1
    {
      assert nodes[0].next == if 1 < |nodes| then nodes[1] else null;
      if head.next == null { return -1; }
      var l := head;
      ghost var k := 0;
      while l.next.element != e
        invariant 0 <= k < |contents| && l == nodes[k] && l.next == nodes[k + 1]
        invariant e !in contents[..k]
        decreases |contents| - k
      {
        assert contents[k] == nodes[k + 1].element;
        assert contents[..k + 1] == contents[..k] + [contents[k]];
        assert nodes[k + 1].next == if k + 2 < |nodes| then nodes[k + 2] else null;
        l := l.next;
        k := k + 1;
        if l.next == null {
          assert contents[..k] == contents;
          return -1;
        }
      }
      assert contents[k] == nodes[k + 1].element && contents[k] == e;
      FirstAt(contents, e, k);
      assert nodes[k + 1].next == if k + 2 < |nodes| then nodes[k + 2] else null;
      ghost var old_nodes := nodes;
      l.next := l.next.next;
      nodes := nodes[..k + 1] + nodes[k + 2..];
      contents := RemoveAt(contents, k);
      assert forall i {:trigger nodes[i]} :: k + 1 <= i < |nodes| ==> nodes[i] == old_nodes[i + 1];
      r := e;
    }
  }

  /** The iterator of a list; it stands on the node of the element read last, on the sentinel at first. */
  class Iterator {
    var pos: Node
    const list: List
    ghost var seen: nat

    ghost predicate Valid()
      reads this, list, list.nodes
    {
      list.Valid() && seen <= |list.contents| && pos == list.nodes[seen]
    }

    /** list_iterator. */
    constructor (l: List)
      requires l.Valid()
      ensures Valid() && list == l && seen == 0
    {
      pos, list, seen := l.head, l, 0;
    }

    /** list_iterator_has_next. */
    method HasNext() returns (b: bool)
      requires Valid()
      ensures b <==> seen < |list.contents|
    {
      assert list.nodes[seen].next == if seen + 1 < |list.nodes| then list.nodes[seen + 1] else null;
      b := pos.next != null;
    }

    /** list_iterator_next. */
    method Next() returns (x: int)
      requires Valid() && seen < |list.contents|
      modifies this
      ensures Valid() && seen == old(seen) + 1 && x == list.contents[old(seen)]
    {
      assert list.nodes[seen].next == if seen + 1 < |list.nodes| then list.nodes[seen + 1] else null;
      assert list.contents[seen] == list.nodes[seen + 1].element;
      pos := pos.next;
      seen := seen + 1;
      x := pos.element;
    }
  }

  /** The loop of exit, kill and waitpid over a list: every element, once, in order. */
  method ReadAll(l: List) returns (s: seq<int>)
    requires l.Valid()
    ensures s == l.contents
  {
    s := [];
    var it := new Iterator(l);
    var more := it.HasNext();
    while more
      invariant it.Valid() && it.list == l && fresh(it)
      invariant s == l.contents[..it.seen] && (more <==> it.seen < |l.contents|)
      decreases |l.contents| - it.seen
    {
      var x := it.Next();
      s := s + [x];
      more := it.HasNext();
    }
  }

  lemma {:induction false} FirstAt(s: seq<int>, x: int, k: nat)
    requires k < |s| && s[k] == x && x !in s[..k]
    ensures x in s && IndexOf(s, x) == k
  {
    if k > 0 {
      assert s[0] != x by { assert s[..k][0] == s[0]; }
      assert s[1..][..k - 1] == s[..k][1..];
      FirstAt(s[1..], x, k - 1);
    }
  }

  /** Arrival order: put_first and get_last on the list are append and take on the queue of arrivals. */
  function Arrivals(s: seq<int>): seq<int> {
    if s == [] then [] else Arrivals(s[1..]) + [s[0]]
  }

  lemma {:induction false} ArrivalsAreFifo(s: seq<int>)
    requires s != []
    ensures Arrivals(s) == [s[|s| - 1]] + Arrivals(DropLast(s))
  {
    if |s| > 1 {
      ArrivalsAreFifo(s[1..]);
      assert DropLast(s)[1..] == DropLast(s[1..]);
      assert s[1..][|s[1..]| - 1] == s[|s| - 1];
    }
  }
}
