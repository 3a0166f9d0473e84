/**
 * The string queue of queue.c. A queue is a pointer to its sentinel
 * (`struct list_head *head`), here a possibly-null `Arena`; each function
 * tolerates a NULL head as the C code does.
 */
module Queue {
  import opened Wrappers
  import opened CString
  import opened Ring
  import opened ListHead

  /** What a queue operation may change: nothing at all for a NULL head. */
  function Footprint(head: Arena?): set<object> {
    if head == null then {} else {head, head.next, head.prev, head.val}
  }

  /** q_new: an empty queue, or NULL when the head cannot be allocated. */
  method New(mallocOk: bool, capacity: nat) returns (head: Arena?)
    ensures mallocOk <==> head != null
    ensures head != null ==> fresh(Footprint(head)) && head.Valid()
    ensures head != null ==> head.next[0] == 0 && head.prev[0] == 0 && head.Contents == []
    ensures head != null ==> head.used == 1 && head.next.Length == capacity + 1
  {
    if !mallocOk {
      return null;
    }
    head := new Arena(capacity);
  }

  /** q_free: every element is unlinked, front to back; the storage itself is not modelled. */
  method Free(head: Arena?)
    requires head != null ==> head.Valid()
    modifies Footprint(head)
    ensures head != null ==> head.Valid() && head.Contents == [] && head.used == old(head.used)
    ensures head != null ==> unchanged(head.val)
  {
    if head == null {
      return;
    }
    // list_for_each_entry_safe: `safe` is read before `entry` is unlinked
    var entry := head.next[0];
    var safe := head.next[entry];
    assert head.next[..][0] == head.At(0);
    assert entry != 0 ==> head.next[..][head.Nodes[0]] == head.At(1);
    while entry != 0
      invariant head.Valid() && head.used == old(head.used) && unchanged(head.val)
      invariant entry == head.At(0) && safe == head.At(1)
      decreases |head.Nodes|
    {
      head.ListDel(entry, 0);
      entry := safe;
      assert head.next[..][entry] == head.At(1) by {
        if entry == 0 {
          assert head.next[..][0] == head.At(0);
        } else {
          assert head.next[..][head.Nodes[0]] == head.At(1);
        }
      }
      safe := head.next[entry];
    }
    assert head.next[..][0] == head.At(0);
  }

  /** q_insert_head: a copy of `s` becomes the first element. */
  method InsertHead(head: Arena?, s: Option<string>, mallocOk: bool, strdupOk: bool) returns (ok: bool)
    requires head != null ==> head.Valid()
    requires s.Some? ==> NulFree(s.value)
    modifies Footprint(head)
    ensures head != null ==> head.Valid()
    ensures ok <==> head != null && s.Some? && mallocOk && old(head.used) < head.next.Length && strdupOk
    ensures ok ==> head.Contents == [s.value] + old(head.Contents)
    ensures ok ==> head.Nodes == [old(head.used)] + old(head.Nodes) && head.used == old(head.used) + 1
    ensures !ok && head != null ==> unchanged(head) && unchanged(head.next, head.prev, head.val)
    ensures head != null ==>
      forall m :: 0 <= m < head.val.Length && m != old(head.used) ==> head.val[m] == old(head.val[m])
  {
    if head == null || s.None? {
      return false;
    }
    var node := head.Malloc(mallocOk);
    if node.None? {
      return false;
    }
    if !strdupOk {
      head.FreeLast(node.value);
      return false;
    }
    head.SetValue(node.value, s.value);
    head.ListAdd(node.value);
    return true;
  }

  /** q_insert_tail: a copy of `s` becomes the last element. */
  method InsertTail(head: Arena?, s: Option<string>, mallocOk: bool, strdupOk: bool) returns (ok: bool)
    requires head != null ==> head.Valid()
    requires s.Some? ==> NulFree(s.value)
    modifies Footprint(head)
    ensures head != null ==> head.Valid()
    ensures ok <==> head != null && s.Some? && mallocOk && old(head.used) < head.next.Length && strdupOk
    ensures ok ==> head.Contents == old(head.Contents) + [s.value]
    ensures ok ==> head.Nodes == old(head.Nodes) + [old(head.used)] && head.used == old(head.used) + 1
    ensures !ok && head != null ==> unchanged(head) && unchanged(head.next, head.prev, head.val)
    ensures head != null ==>
      forall m :: 0 <= m < head.val.Length && m != old(head.used) ==> head.val[m] == old(head.val[m])
  {
    if head == null || s.None? {
      return false;
    }
    var node := head.Malloc(mallocOk);
    if node.None? {
      return false;
    }
    if !strdupOk {
      head.FreeLast(node.value);
      return false;
    }
    head.SetValue(node.value, s.value);
    head.ListAddTail(node.value);
    return true;
  }

  /** Copy the removed value out: `strncpy(sp, value, bufsize - 1); sp[bufsize - 1] = '\0';`. */
  method CopyToBuffer(sp: array<char>, value: string, bufsize: nat)
    requires 1 <= bufsize <= sp.Length && NulFree(value)
    modifies sp
    ensures sp[..bufsize] == CopyOut(value, bufsize)
    ensures sp[bufsize..] == old(sp[bufsize..])
  {
    Strncpy(sp, value, bufsize - 1);
    sp[bufsize - 1] := NUL;
    assert sp[..bufsize] == sp[..bufsize - 1] + [sp[bufsize - 1]];
  }

  /** q_remove_head: unlink the first element and hand it to the caller. */
  method RemoveHead(head: Arena?, sp: array?<char>, bufsize: nat) returns (e: Option<nat>)
    requires head != null ==> head.Valid()
    requires sp != null && head != null && head.Contents != [] ==> 1 <= bufsize <= sp.Length
    modifies Footprint(head), sp
    ensures head != null ==> head.Valid() && head.used == old(head.used) && unchanged(head.val)
    ensures e.None? <==> head == null || old(head.Contents) == []
    ensures e.None? && head != null ==> unchanged(head) && unchanged(head.next, head.prev)
    ensures e.None? && sp != null ==> unchanged(sp)
    ensures e.Some? ==> e.value == old(head.Nodes[0]) && head.val[e.value] == old(head.Contents[0])
    ensures e.Some? ==> head.Contents == old(head.Contents[1..]) && head.Nodes == old(head.Nodes[1..])
    ensures e.Some? ==> e.value !in head.Nodes
    ensures e.Some? && sp != null ==>
      sp[..bufsize] == CopyOut(old(head.Contents[0]), bufsize) && sp[bufsize..] == old(sp[bufsize..])
  {
    if head == null || head.ListEmpty() {
      return None;
    }
    var oldHead := head.FirstEntry();
    ghost var nodes, contents := head.Nodes, head.Contents;
    assert nodes[..0] == [] && contents[..0] == [];
    assert [] + nodes[1..] == nodes[1..] && [] + contents[1..] == contents[1..];
    head.ListDel(oldHead, 0);
    if sp != null {
      CopyToBuffer(sp, head.val[oldHead], bufsize);
    }
    return Some(oldHead);
  }

  /** q_remove_tail: unlink the last element and hand it to the caller. */
  method RemoveTail(head: Arena?, sp: array?<char>, bufsize: nat) returns (e: Option<nat>)
    requires head != null ==> head.Valid()
    requires sp != null && head != null && head.Contents != [] ==> 1 <= bufsize <= sp.Length
    modifies Footprint(head), sp
    ensures head != null ==> head.Valid() && head.used == old(head.used) && unchanged(head.val)
    ensures e.None? <==> head == null || old(head.Contents) == []
    ensures e.None? && head != null ==> unchanged(head) && unchanged(head.next, head.prev)
    ensures e.None? && sp != null ==> unchanged(sp)
    ensures e.Some? ==> e.value == old(head.Nodes[|head.Nodes| - 1])
    ensures e.Some? ==> head.val[e.value] == old(head.Contents[|head.Contents| - 1])
    ensures e.Some? ==> head.Contents == old(head.Contents[..|head.Contents| - 1])
    ensures e.Some? ==> head.Nodes == old(head.Nodes[..|head.Nodes| - 1])
    ensures e.Some? ==> e.value !in head.Nodes
    ensures e.Some? && sp != null ==>
      sp[..bufsize] == CopyOut(old(head.Contents[|head.Contents| - 1]), bufsize)
      && sp[bufsize..] == old(sp[bufsize..])
  {
    if head == null || head.ListEmpty() {
      return None;
    }
    var oldTail := head.LastEntry();
    ghost var k, nodes, contents := |head.Nodes| - 1, head.Nodes, head.Contents;
    assert nodes[k + 1..] == [] && contents[k + 1..] == [];
    assert nodes[..k] + [] == nodes[..k] && contents[..k] + [] == contents[..k];
    head.ListDel(oldTail, k);
    if sp != null {
      CopyToBuffer(sp, head.val[oldTail], bufsize);
    }
    return Some(oldTail);
  }

  /** q_size: count the elements by one forward traversal. */
  method Size(head: Arena?) returns (count: int)
    requires head != null ==> head.Valid()
    ensures head == null ==> count == 0
    ensures head != null ==> count == |head.Contents|
  {
    if head == null {
      return 0;
    }
    count := 0;
    var entry := head.next[0];
    assert head.next[..][0] == head.At(0);
    while entry != 0
      invariant 0 <= count <= |head.Nodes|
      invariant entry == head.At(count)
      decreases |head.Nodes| - count
    {
      assert head.next[..][head.Nodes[count]] == head.At(count + 1);
      count := count + 1;
      entry := head.next[entry];
    }
  }

  /** q_delete_mid: unlink the element at index size/2 of the forward order. */
  method DeleteMid(head: Arena?) returns (ok: bool)
    requires head != null ==> head.Valid()
    modifies Footprint(head)
    ensures head != null ==> head.Valid() && head.used == old(head.used) && unchanged(head.val)
    ensures ok <==> head != null && old(head.Contents) != []
    ensures !ok && head != null ==> unchanged(head) && unchanged(head.next, head.prev)
    ensures ok ==> var m := |old(head.Contents)| / 2;
      head.Contents == old(head.Contents[..m] + head.Contents[m + 1..]) &&
      head.Nodes == old(head.Nodes[..m] + head.Nodes[m + 1..])
  {
    if head == null || head.ListEmpty() {
      return false;
    }
    var size := Size(head);
    var mid := size / 2;
    var i := 0;
    var entry := head.next[0];
    assert head.next[..][0] == head.At(0);
    while entry != 0
      invariant 0 <= i <= mid
      invariant entry == head.At(i)
      invariant unchanged(head) && unchanged(head.next, head.prev, head.val)
      decreases size - i
    {
      if i == mid {
        head.ListDel(entry, i);
        return true;
      }
      assert head.next[..][head.Nodes[i]] == head.At(i + 1);
      i := i + 1;
      entry := head.next[entry];
    }
    assert false;
    return false;
  }
}
