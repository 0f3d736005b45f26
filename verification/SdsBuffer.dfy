/** The growable, NUL-terminated byte buffer of `sds.c`. */
module SdsBuffer {
  import opened ByteStrings

  const MAX_PREALLOC: nat := 1024 * 1024

  /** The part of `s` between two inclusive positions; a negative position counts from the end. */
  function Slice(s: Bytes, start: int, end: int): Bytes {
    var n := |s|;
    var lo := if start >= 0 then start else if n + start < 0 then 0 else n + start;
    var hi := if end >= n then n - 1 else if end >= 0 then end else if n + end < 0 then 0 else n + end;
    if lo <= hi < n then s[lo..hi + 1] else []
  }

  /** The number stands for the place `k` of `n`: counted from either end, and beyond an end for that end. */
  predicate StandsFor(i: int, k: nat, n: nat) {
    k < n && (i == k || i == k - n || (k == 0 && i + n <= 0) || (k == n - 1 && i >= n))
  }

  /** The middle of a string is kept when the two numbers stand for its first and its last place. */
  lemma SliceKeeps(front: Bytes, mid: Bytes, back: Bytes, i: int, j: int)
    requires mid != [] && i < |front + mid + back|
    requires StandsFor(i, |front|, |front + mid + back|) && StandsFor(j, |front + mid| - 1, |front + mid + back|)
    ensures Slice(front + mid + back, i, j) == mid
  {
    var s := front + mid + back;
    assert s[|front|..|front + mid|] == mid;
  }

  /** Nothing is kept when the first place is behind the last, or behind the end. */
  lemma SliceDrops(s: Bytes, i: int, j: int, first: nat, last: nat)
    requires StandsFor(i, first, |s|) && StandsFor(j, last, |s|) && (first > last || i >= |s|)
    ensures Slice(s, i, j) == []
  {
  }

  class Sds {
    var len: nat
    var free: nat
    var buf: array<Byte>

    /** The header agrees with the allocation. */
    ghost predicate Sized()
      reads this, buf
    {
      buf.Length == len + free + 1
    }

    /** Between two calls, the contents are also followed by a NUL byte. */
    ghost predicate Valid()
      reads this, buf
    {
      Sized() && buf[len] == NUL
    }

    ghost function Contents(): Bytes
      reads this, buf
      requires Sized()
    {
      buf[..len]
    }

    /** `sdsempty` */
    constructor ()
      ensures Valid() && fresh(buf)
      ensures Contents() == []
    {
      len, free := 0, 0;
      buf := new Byte[1][NUL];
    }

    /** `sdsMakeRoomFor`: grows the allocation, if need be to twice the new length. */
    method MakeRoomFor(addlen: nat)
      requires Sized()
      modifies this
      ensures Sized() && (buf == old(buf) || fresh(buf)) && buf[len] == old(buf[len])
      ensures Contents() == old(Contents()) && len == old(len)
      ensures free >= addlen
      ensures old(free) >= addlen ==> buf == old(buf) && free == old(free)
      ensures old(free) < addlen ==>
                free == addlen + (if len + addlen < MAX_PREALLOC then len + addlen else MAX_PREALLOC)
    {
      if free >= addlen { return; }
      var newlen := len + addlen;
      if newlen < MAX_PREALLOC {
        newlen := newlen * 2;
      } else {
        newlen := newlen + MAX_PREALLOC;
      }
      var newbuf := new Byte[newlen + 1](_ => NUL);
      forall i | 0 <= i <= len {
        newbuf[i] := buf[i];
      }
      buf := newbuf;
      free := newlen - len;
    }

    /** `sdscatlen` */
    method CatLen(t: Bytes)
      requires Valid()
      modifies this, buf
      ensures Valid() && (buf == old(buf) || fresh(buf))
      ensures Contents() == old(Contents()) + t
      ensures len == old(len) + |t|
      ensures old(free) >= |t| ==> buf == old(buf) && free == old(free) - |t|
    {
      var curlen := len;
      MakeRoomFor(|t|);
      forall i | 0 <= i < |t| {
        buf[curlen + i] := t[i];
      }
      len := curlen + |t|;
      free := free - |t|;
      buf[curlen + |t|] := NUL;
    }

    /** The index arithmetic of `sdsrange`: where the kept part starts and how long it is. */
    static method RangeBounds(len: nat, start: int, end: int) returns (lo: nat, newlen: nat)
      requires len > 0
      ensures lo + newlen <= len || newlen == 0
      ensures forall s: Bytes | |s| == len :: Slice(s, start, end) == if newlen == 0 then [] else s[lo..lo + newlen]
    {
      var first, last := start, end;
      if first < 0 {
        first := len + first;
        if first < 0 { first := 0; }
      }
      if last < 0 {
        last := len + last;
        if last < 0 { last := 0; }
      }
      var kept: int := if first > last then 0 else last - first + 1;
      if kept != 0 {
        if first >= len {
          kept := 0;
        } else if last >= len {
          last := len - 1;
          kept := if first > last then 0 else last - first + 1;
        }
      } else {
        first := 0;
      }
      lo, newlen := first, kept;
    }

    /** `sdsrange` */
    method Range(start: int, end: int)
      requires Valid()
      modifies this, buf
      ensures Valid() && buf == old(buf)
      ensures Contents() == Slice(old(Contents()), start, end)
    {
      if len == 0 { return; }
      ghost var s := Contents();
      var lo, newlen := RangeBounds(len, start, end);
      if lo != 0 && newlen != 0 {
        forall i | 0 <= i < newlen {
          buf[i] := buf[lo + i];
        }
      }
      assert forall i | 0 <= i < newlen :: buf[i] == s[lo + i];
      buf[newlen] := NUL;
      free := free + (len - newlen);
      len := newlen;
    }
  }
}
