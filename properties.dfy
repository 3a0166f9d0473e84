/**
 * What a caller of the queue can conclude from the contracts alone: each
 * insertion is undone by the removal at the same end, and a string short
 * enough for the buffer comes back out of it unchanged.
 */
module QueueProperties {
  import opened Wrappers
  import opened CString
  import opened ListHead
  import opened Queue

  /** q_insert_head followed by q_remove_head restores the queue and returns the inserted string. */
  method HeadRoundTrip(head: Arena, s: string)
    requires head.Valid() && head.used < head.next.Length && NulFree(s)
    modifies Footprint(head)
    ensures head.Valid() && head.Contents == old(head.Contents)
  {
    var ok := InsertHead(head, Some(s), true, true);
    assert ok;
    var e := RemoveHead(head, null, 0);
    assert e.Some? && head.val[e.value] == s;
  }

  /** q_insert_tail followed by q_remove_tail restores the queue and returns the inserted string. */
  method TailRoundTrip(head: Arena, s: string)
    requires head.Valid() && head.used < head.next.Length && NulFree(s)
    modifies Footprint(head)
    ensures head.Valid() && head.Contents == old(head.Contents)
  {
    var ok := InsertTail(head, Some(s), true, true);
    assert ok;
    var e := RemoveTail(head, null, 0);
    assert e.Some? && head.val[e.value] == s;
  }

  /**
   * On an empty queue, q_insert_tail then q_remove_head into a buffer of
   * bufsize characters leaves the queue empty and the buffer holding the
   * string cut to bufsize-1 characters: the whole string when it fits.
   */
  method BufferRoundTrip(head: Arena, s: string, sp: array<char>, bufsize: nat)
    requires head.Valid() && head.Contents == [] && head.used < head.next.Length && NulFree(s)
    requires 1 <= bufsize <= sp.Length
    modifies Footprint(head), sp
    ensures head.Valid() && head.Contents == []
    ensures CStr(sp[..bufsize]) == s[..Min(|s|, bufsize - 1)]
    ensures |s| < bufsize ==> CStr(sp[..bufsize]) == s
  {
    var ok := InsertTail(head, Some(s), true, true);
    assert ok && head.Contents == [s];
    var e := RemoveHead(head, sp, bufsize);
    CopyOutReadsBack(s, bufsize);
  }

  /** A queue that fails every allocation stays as it was under both insertions. */
  method FailedInsertsChangeNothing(head: Arena, s: string, strdupOk: bool)
    requires head.Valid() && NulFree(s)
    modifies Footprint(head)
    ensures head.Valid() && head.Contents == old(head.Contents) && unchanged(head.next, head.prev)
  {
    var ok := InsertHead(head, Some(s), false, strdupOk);
    ok := InsertTail(head, Some(s), true, false);
    ok := InsertHead(head, None, true, true);
  }

  /** q_new followed by q_insert_tail, with every allocation succeeding, gives a queue of size 1. */
  method NewThenInsert(s: string, capacity: nat) returns (head: Arena?)
    requires 1 <= capacity && NulFree(s)
    ensures head != null && head.Valid() && head.Contents == [s]
  {
    head := New(true, capacity);
    var ok := InsertTail(head, Some(s), true, true);
    assert ok;
    var n := Size(head);
    assert n == 1;
  }

  /**
   * An element handed out by q_remove_head keeps its string through a later
   * q_insert_tail and through q_free, as separately allocated memory does.
   */
  method DetachedElementSurvives(head: Arena, s: string) returns (e: nat)
    requires head.Valid() && head.Contents != [] && NulFree(s)
    modifies Footprint(head)
    ensures head.Valid() && head.Contents == []
    ensures e < head.val.Length && head.val[e] == old(head.Contents[0])
  {
    var r := RemoveHead(head, null, 0);
    e := r.value;
    var ok := InsertTail(head, Some(s), true, true);
    Free(head);
  }
}
