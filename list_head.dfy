/**
 * The circular doubly linked list with a sentinel that queue.c builds on
 * (the kernel-style `struct list_head`), over an arena of nodes addressed by
 * index. Node 0 is the sentinel (the queue head); every other node is an
 * `element_t`, whose string payload is `val[n]`.
 */
module ListHead {
  import opened Wrappers
  import opened CString
  import opened Ring

  class Arena {
    /** `node->next`, `node->prev` and `element->value`, one slot per node. */
    const next: array<nat>
    const prev: array<nat>
    const val: array<string>
    /** Nodes 1 .. used-1 have been handed out by the allocator. */
    var used: nat

    /** The elements reachable from the sentinel, in forward order. */
    ghost var Nodes: seq<nat>
    /** The payloads of those elements: the queue's abstract value. */
    ghost var Contents: seq<string>

    /** The node at position k of the ring; every position outside the list is the sentinel. */
    ghost function At(k: int): nat
      reads this
    {
      Pos(Nodes, k)
    }

    ghost predicate Valid()
      reads this, next, prev, val
    {
      next != prev &&
      next.Length == prev.Length == val.Length &&
      IsRing(next[..], prev[..], Nodes, used) &&
      |Contents| == |Nodes| &&
      (forall i :: 0 <= i < |Nodes| ==> val[Nodes[i]] == Contents[i] && NulFree(Contents[i]))
    }

    /** Room for the sentinel and `capacity` element nodes; the sentinel is initialised. */
    constructor (capacity: nat)
      ensures Valid() && fresh(next) && fresh(prev) && fresh(val)
      ensures next.Length == capacity + 1 && used == 1
      ensures next[0] == 0 && prev[0] == 0 && Contents == [] && Nodes == []
    {
      next := new nat[capacity + 1];
      prev := new nat[capacity + 1];
      val := new string[capacity + 1](_ => "");
      used := 1;
      new;
      InitListHead();
    }

    /** INIT_LIST_HEAD: the sentinel points to itself both ways. */
    method InitListHead()
      requires next != prev && next.Length == prev.Length == val.Length
      requires 1 <= used <= next.Length
      modifies this`Nodes, this`Contents, next, prev
      ensures Valid()
      ensures next[0] == 0 && prev[0] == 0 && Contents == [] && Nodes == []
    {
      next[0] := 0;
      prev[0] := 0;
      Nodes := [];
      Contents := [];
      EmptyRing(next[..], prev[..], used);
    }

    /** list_empty: the sentinel's successor is the sentinel. */
    function ListEmpty(): (b: bool)
      reads this, next, prev, val
      requires Valid()
      ensures b <==> Contents == []
    {
      assert |Nodes| > 0 ==> next[..][0] == Nodes[0] && Nodes[0] >= 1;
      next[0] == 0
    }

    /** list_first_entry: the successor of the sentinel. */
    function FirstEntry(): (n: nat)
      reads this, next, prev, val
      requires Valid() && Contents != []
      ensures n == Nodes[0] && 1 <= n < used && val[n] == Contents[0]
    {
      assert next[..][0] == Nodes[0];
      next[0]
    }

    /** list_last_entry: the predecessor of the sentinel. */
    function LastEntry(): (n: nat)
      reads this, next, prev, val
      requires Valid() && Contents != []
      ensures n == Nodes[|Nodes| - 1] && 1 <= n < used && val[n] == Contents[|Contents| - 1]
    {
      assert prev[..][0] == Nodes[|Nodes| - 1];
      prev[0]
    }

    /** The node reached from the sentinel after k steps along `next`. */
    ghost function Walk(k: nat): nat
      reads this, next
    {
      if k == 0 then 0
      else
        var m := Walk(k - 1);
        if m < next.Length then next[m] else 0
    }

    /**
     * Forward traversal (list_for_each_entry) from the sentinel visits the
     * elements in order and is back at the sentinel after exactly |Contents| elements.
     */
    lemma {:induction false} WalkVisitsInOrder(k: nat)
      requires Valid() && k <= |Nodes| + 1
      ensures Walk(k) == At(k - 1)
      ensures 1 <= k <= |Nodes| ==> Walk(k) != 0 && val[Walk(k)] == Contents[k - 1]
      ensures k == |Nodes| + 1 ==> Walk(k) == 0
    {
      if k == 1 {
        assert next[..][0] == At(0);
      } else if k >= 2 {
        WalkVisitsInOrder(k - 1);
        assert next[..][Nodes[k - 2]] == At(k - 1);
      }
    }

    /** The back-pointer invariant: every node of the ring is its neighbours' neighbour. */
    lemma BackPointers()
      requires Valid()
      ensures next[prev[0]] == 0 && prev[next[0]] == 0
      ensures forall i :: 0 <= i < |Nodes| ==>
        next[prev[Nodes[i]]] == Nodes[i] && prev[next[Nodes[i]]] == Nodes[i]
    {
    }

    /** malloc of one node: fails when the allocator says so or the arena is exhausted. */
    method Malloc(ok: bool) returns (n: Option<nat>)
      requires Valid()
      modifies this`used
      ensures Valid()
      ensures n.Some? <==> ok && old(used) < next.Length
      ensures n.Some? ==> n.value == old(used) && used == old(used) + 1 && n.value !in Nodes
      ensures n.None? ==> used == old(used)
    {
      if ok && used < next.Length {
        Widen(next[..], prev[..], Nodes, used);
        n := Some(used);
        used := used + 1;
      } else {
        n := None;
      }
    }

    /** free of the node Malloc has just handed out and that was never linked. */
    method FreeLast(n: nat)
      requires Valid() && n >= 1 && n == used - 1 && n !in Nodes
      modifies this`used
      ensures Valid() && used == n
    {
      Narrow(next[..], prev[..], Nodes, used);
      used := n;
    }

    /** Store the payload of an allocated node that is not linked. */
    method SetValue(n: nat, s: string)
      requires Valid() && 1 <= n < used && n !in Nodes
      modifies val
      ensures Valid()
      ensures val[n] == s && forall m :: 0 <= m < val.Length && m != n ==> val[m] == old(val[m])
    {
      val[n] := s;
    }

    /** list_add(node, head): link an unlinked node right after the sentinel. */
    method ListAdd(n: nat)
      requires Valid() && 1 <= n < used && n !in Nodes && NulFree(val[n])
      modifies this`Nodes, this`Contents, next, prev
      ensures Valid()
      ensures Nodes == [n] + old(Nodes) && Contents == [val[n]] + old(Contents)
    {
      AddFront(next[..], prev[..], Nodes, used, n);
      var first := next[0];
      prev[first] := n;
      next[n] := first;
      prev[n] := 0;
      next[0] := n;
      Nodes := [n] + Nodes;
      Contents := [val[n]] + Contents;
    }

    /** list_add_tail(node, head): link an unlinked node right before the sentinel. */
    method ListAddTail(n: nat)
      requires Valid() && 1 <= n < used && n !in Nodes && NulFree(val[n])
      modifies this`Nodes, this`Contents, next, prev
      ensures Valid()
      ensures Nodes == old(Nodes) + [n] && Contents == old(Contents) + [val[n]]
    {
      AddBack(next[..], prev[..], Nodes, used, n);
      var last := prev[0];
      next[last] := n;
      next[n] := 0;
      prev[n] := last;
      prev[0] := n;
      Nodes := Nodes + [n];
      Contents := Contents + [val[n]];
    }

    /** list_del(node): unlink the element at position k by joining its two neighbours. */
    method ListDel(n: nat, ghost k: nat)
      requires Valid() && k < |Nodes| && Nodes[k] == n
      modifies this`Nodes, this`Contents, next, prev
      ensures Valid()
      ensures Nodes == old(Nodes[..k] + Nodes[k + 1..])
      ensures Contents == old(Contents[..k] + Contents[k + 1..])
      ensures n !in Nodes
    {
      ghost var nxs, pvs := next[..], prev[..];
      Unlink(nxs, pvs, Nodes, used, k);
      var nx := next[n];
      var pv := prev[n];
      prev[nx] := pv;
      next[pv] := nx;
      assert next[..] == nxs[pv := nx] && prev[..] == pvs[nx := pv];
      Nodes := Without(Nodes, k);
      Contents := Without(Contents, k);
    }
  }
}
