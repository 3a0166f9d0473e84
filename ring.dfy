/**
 * The link invariant of a sentinel-anchored circular doubly linked list,
 * stated on the contents of the `next` and `prev` arrays: node 0 is the
 * sentinel, `nodes` lists the elements in forward order, every element is
 * below `limit`, and following `next` from any node reaches the one after
 * it, `prev` the one before it, the sentinel closing the circle.
 */
module Ring {
  /** The node at position k of the ring; every position outside the list is the sentinel. */
  function Pos(nodes: seq<nat>, k: int): nat {
    if 0 <= k < |nodes| then nodes[k] else 0
  }

  ghost predicate Distinct(nodes: seq<nat>) {
    forall i, j :: 0 <= i < j < |nodes| ==> nodes[i] != nodes[j]
  }

  ghost predicate IsRing(nxt: seq<nat>, prv: seq<nat>, nodes: seq<nat>, limit: nat) {
    |nxt| == |prv| >= limit >= 1 &&
    (forall i :: 0 <= i < |nodes| ==> 1 <= nodes[i] < limit) &&
    Distinct(nodes) &&
    nxt[0] == Pos(nodes, 0) && prv[0] == Pos(nodes, |nodes| - 1) &&
    (forall i {:trigger nxt[nodes[i]]} :: 0 <= i < |nodes| ==> nxt[nodes[i]] == Pos(nodes, i + 1)) &&
    (forall i {:trigger prv[nodes[i]]} :: 0 <= i < |nodes| ==> prv[nodes[i]] == Pos(nodes, i - 1))
  }

  /** The sequence with its element at position k taken out. */
  function Without<T>(s: seq<T>, k: nat): (r: seq<T>)
    requires k < |s|
    ensures |r| == |s| - 1
    ensures forall i :: 0 <= i < |r| ==> r[i] == if i < k then s[i] else s[i + 1]
  {
    s[..k] + s[k + 1..]
  }

  /** INIT_LIST_HEAD's result: the sentinel alone is a ring. */
  lemma EmptyRing(nxt: seq<nat>, prv: seq<nat>, limit: nat)
    requires |nxt| == |prv| >= limit >= 1 && nxt[0] == 0 && prv[0] == 0
    ensures IsRing(nxt, prv, [], limit)
  {
  }

  /** Handing out one more node keeps the ring valid. */
  lemma Widen(nxt: seq<nat>, prv: seq<nat>, nodes: seq<nat>, limit: nat)
    requires IsRing(nxt, prv, nodes, limit) && limit < |nxt|
    ensures IsRing(nxt, prv, nodes, limit + 1)
  {
  }

  /** Taking back the last node handed out keeps the ring valid when that node is not linked. */
  lemma Narrow(nxt: seq<nat>, prv: seq<nat>, nodes: seq<nat>, limit: nat)
    requires IsRing(nxt, prv, nodes, limit) && limit >= 2 && limit - 1 !in nodes
    ensures IsRing(nxt, prv, nodes, limit - 1)
  {
  }

  /** Splicing an unlinked node in right after the sentinel (list_add) yields the ring with it in front. */
  lemma AddFront(nxt: seq<nat>, prv: seq<nat>, nodes: seq<nat>, limit: nat, n: nat)
    requires IsRing(nxt, prv, nodes, limit) && 1 <= n < limit && n !in nodes
    ensures IsRing(nxt[n := nxt[0]][0 := n], prv[nxt[0] := n][n := 0], [n] + nodes, limit)
  {
  }

  /** Splicing an unlinked node in right before the sentinel (list_add_tail) yields the ring with it at the back. */
  lemma AddBack(nxt: seq<nat>, prv: seq<nat>, nodes: seq<nat>, limit: nat, n: nat)
    requires IsRing(nxt, prv, nodes, limit) && 1 <= n < limit && n !in nodes
    ensures IsRing(nxt[prv[0] := n][n := 0], prv[n := prv[0]][0 := n], nodes + [n], limit)
  {
  }

  /**
   * For the element at position k, prev and next are its neighbours in the
   * forward order, and joining them (list_del) yields the ring without it.
   */
  lemma Unlink(nxt: seq<nat>, prv: seq<nat>, nodes: seq<nat>, limit: nat, k: nat)
    requires IsRing(nxt, prv, nodes, limit) && k < |nodes|
    ensures prv[nodes[k]] == Pos(nodes, k - 1) && nxt[nodes[k]] == Pos(nodes, k + 1)
    ensures IsRing(nxt[prv[nodes[k]] := nxt[nodes[k]]], prv[nxt[nodes[k]] := prv[nodes[k]]],
                   Without(nodes, k), limit)
    ensures nodes[k] !in Without(nodes, k)
  {
    var pv, nx := Pos(nodes, k - 1), Pos(nodes, k + 1);
    assert nxt[nodes[k]] == nx && prv[nodes[k]] == pv;
    UnlinkAt(nxt, prv, nodes, limit, k, pv, nx);
  }

  /** Unlink with the two neighbours named; proved in three parts, each a small obligation. */
  lemma UnlinkAt(nxt: seq<nat>, prv: seq<nat>, nodes: seq<nat>, limit: nat, k: nat, pv: nat, nx: nat)
    requires IsRing(nxt, prv, nodes, limit) && k < |nodes|
    requires pv == Pos(nodes, k - 1) && nx == Pos(nodes, k + 1)
    ensures IsRing(nxt[pv := nx], prv[nx := pv], Without(nodes, k), limit)
    ensures nodes[k] !in Without(nodes, k)
  {
    WithoutDistinct(nodes, k);
    UnlinkNext(nxt, prv, nodes, limit, k, pv, nx);
    UnlinkPrev(nxt, prv, nodes, limit, k, pv, nx);
  }

  /** Taking one element out of a list of distinct nodes leaves distinct nodes, without that one. */
  lemma WithoutDistinct(nodes: seq<nat>, k: nat)
    requires Distinct(nodes) && k < |nodes|
    ensures Distinct(Without(nodes, k)) && nodes[k] !in Without(nodes, k)
  {
  }

  /** After list_del, `next` takes every remaining node to its successor. */
  lemma UnlinkNext(nxt: seq<nat>, prv: seq<nat>, nodes: seq<nat>, limit: nat, k: nat, pv: nat, nx: nat)
    requires IsRing(nxt, prv, nodes, limit) && k < |nodes|
    requires pv == Pos(nodes, k - 1) && nx == Pos(nodes, k + 1)
    ensures nxt[pv := nx][0] == Pos(Without(nodes, k), 0)
    ensures forall i {:trigger nxt[pv := nx][Without(nodes, k)[i]]} :: 0 <= i < |nodes| - 1 ==>
      nxt[pv := nx][Without(nodes, k)[i]] == Pos(Without(nodes, k), i + 1)
  {
  }

  /** After list_del, `prev` takes every remaining node to its predecessor. */
  lemma UnlinkPrev(nxt: seq<nat>, prv: seq<nat>, nodes: seq<nat>, limit: nat, k: nat, pv: nat, nx: nat)
    requires IsRing(nxt, prv, nodes, limit) && k < |nodes|
    requires pv == Pos(nodes, k - 1) && nx == Pos(nodes, k + 1)
    ensures prv[nx := pv][0] == Pos(Without(nodes, k), |nodes| - 2)
    ensures forall i {:trigger prv[nx := pv][Without(nodes, k)[i]]} :: 0 <= i < |nodes| - 1 ==>
      prv[nx := pv][Without(nodes, k)[i]] == Pos(Without(nodes, k), i - 1)
  {
  }
}
