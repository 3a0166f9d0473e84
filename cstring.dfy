/**
 * C strings as the queue sees them: payloads hold no NUL character, and the
 * copy-out into a caller buffer is `strncpy` followed by an explicit terminator.
 */
module CString {
  const NUL: char := '\0'

  /** A payload that can be stored as a C string: no embedded NUL. */
  predicate NulFree(s: string) {
    NUL !in s
  }

  /** The C string a buffer holds: every character before its first NUL. */
  function CStr(buf: seq<char>): (s: string)
    ensures |s| <= |buf| && s == buf[..|s|]
    ensures NulFree(s)
    ensures |s| < |buf| ==> buf[|s|] == NUL
  {
    if buf == [] || buf[0] == NUL then [] else [buf[0]] + CStr(buf[1..])
  }

  /** The n characters `strncpy(dst, src, n)` writes: src's characters, then NUL padding. */
  function Padded(src: string, n: nat): (r: seq<char>)
    ensures |r| == n
  {
    if n == 0 then []
    else if src == [] then [NUL] + Padded([], n - 1)
    else [src[0]] + Padded(src[1..], n - 1)
  }

  /** The first `bufsize` characters of the caller buffer after a removal copies `v` out. */
  function CopyOut(v: string, bufsize: nat): (r: seq<char>)
    requires bufsize >= 1
    ensures |r| == bufsize && r[bufsize - 1] == NUL
  {
    Padded(v, bufsize - 1) + [NUL]
  }

  /** Padded keeps the source's characters in front and fills the rest with NUL. */
  lemma {:induction false} PaddedAt(src: string, n: nat, i: nat)
    requires i < n
    ensures Padded(src, n)[i] == if i < |src| then src[i] else NUL
  {
    if i > 0 {
      if src == [] {
        PaddedAt([], n - 1, i - 1);
      } else {
        PaddedAt(src[1..], n - 1, i - 1);
      }
    }
  }

  /** Reading a C string back stops at the first NUL after a NUL-free prefix. */
  lemma {:induction false} CStrOfTerminated(p: string, rest: seq<char>)
    requires NulFree(p)
    requires rest != [] && rest[0] == NUL
    ensures CStr(p + rest) == p
  {
    if p == [] {
      assert p + rest == rest;
    } else {
      assert (p + rest)[0] == p[0];
      assert (p + rest)[1..] == p[1..] + rest;
      CStrOfTerminated(p[1..], rest);
    }
  }

  /** The copied-out buffer holds the first min(|v|, bufsize-1) characters of `v` and NULs after them. */
  lemma CopyOutShape(v: string, bufsize: nat)
    requires bufsize >= 1
    ensures forall i :: 0 <= i < bufsize ==>
      CopyOut(v, bufsize)[i] == if i < |v| && i < bufsize - 1 then v[i] else NUL
  {
    forall i | 0 <= i < bufsize
      ensures CopyOut(v, bufsize)[i] == if i < |v| && i < bufsize - 1 then v[i] else NUL
    {
      if i < bufsize - 1 {
        PaddedAt(v, bufsize - 1, i);
      }
    }
  }

  /** Read back as a C string, the copied-out buffer is `v` cut to bufsize-1 characters. */
  lemma CopyOutReadsBack(v: string, bufsize: nat)
    requires NulFree(v) && bufsize >= 1
    ensures CStr(CopyOut(v, bufsize)) == v[..Min(|v|, bufsize - 1)]
    ensures |v| < bufsize ==> CStr(CopyOut(v, bufsize)) == v
  {
    var m := Min(|v|, bufsize - 1);
    var b := CopyOut(v, bufsize);
    CopyOutShape(v, bufsize);
    assert b == v[..m] + b[m..] by {
      assert forall i :: 0 <= i < m ==> b[i] == v[i];
    }
    assert NulFree(v[..m]) by {
      assert forall i :: 0 <= i < m ==> v[..m][i] == v[i];
    }
    CStrOfTerminated(v[..m], b[m..]);
    assert v[..|v|] == v;
  }

  function Min(a: int, b: int): int {
    if a < b then a else b
  }

  /** `strncpy(dst, src, n)` for a NUL-free `src`: exactly dst[0..n) is written. */
  method Strncpy(dst: array<char>, src: string, n: nat)
    requires n <= dst.Length && NulFree(src)
    modifies dst
    ensures dst[..n] == Padded(src, n)
    ensures dst[n..] == old(dst[n..])
  {
    var i := 0;
    while i < n
      invariant 0 <= i <= n
      invariant forall k :: 0 <= k < i ==> dst[k] == if k < |src| then src[k] else NUL
      invariant dst[n..] == old(dst[n..])
    {
      dst[i] := if i < |src| then src[i] else NUL;
      i := i + 1;
    }
    forall k | 0 <= k < n ensures dst[..n][k] == Padded(src, n)[k] {
      PaddedAt(src, n, k);
    }
  }
}
