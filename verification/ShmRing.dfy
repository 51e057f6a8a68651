/** The byte ring of mmlib/shm_queue/shm_queue.cpp on values: stretches that may straddle the end,
    length-prefixed records, and the unsigned arithmetic on head and tail. */
module ShmRing {
  import opened Common

  const HEADER := 4

  // ----- stretches of the ring

  /** The n bytes from offset p on, continuing at offset 0 past the end. */
  function Ring(d: seq<byte>, p: nat, n: nat): (s: seq<byte>)
    requires p < |d| && n <= |d|
    ensures |s| == n
  {
    if p + n <= |d| then d[p..p + n] else d[p..] + d[..p + n - |d|]
  }

  lemma RingAt(d: seq<byte>, p: nat, n: nat, i: nat)
    requires p < |d| && i < n <= |d|
    ensures Ring(d, p, n)[i] == d[RingIndex(|d|, p, i)]
  {
  }

  lemma RingSplit(d: seq<byte>, p: nat, m: nat, n: nat)
    requires p < |d| && m + n <= |d|
    ensures Ring(d, p, m + n) == Ring(d, p, m) + Ring(d, RingIndex(|d|, p, m), n)
  {
  }

  lemma RingTake(d: seq<byte>, p: nat, m: nat, n: nat)
    requires p < |d| && m <= n <= |d|
    ensures Ring(d, p, n)[..m] == Ring(d, p, m)
    ensures Ring(d, p, n)[m..] == Ring(d, RingIndex(|d|, p, m), n - m)
  {
    RingSplit(d, p, m, n - m);
  }

  /** Writing s from offset p on. */
  function RingPut(d: seq<byte>, p: nat, s: seq<byte>): (r: seq<byte>)
    requires p < |d| && |s| <= |d|
    ensures |r| == |d|
  {
    if p + |s| <= |d| then d[..p] + s + d[p + |s|..]
    else
      var k := |d| - p;
      s[k..] + d[|s| - k..p] + s[..k]
  }

  lemma RingPutGet(d: seq<byte>, p: nat, s: seq<byte>)
    requires p < |d| && |s| <= |d|
    ensures Ring(RingPut(d, p, s), p, |s|) == s
  {
    if p + |s| > |d| {
      var k := |d| - p;
      var r := RingPut(d, p, s);
      assert r[p..] == s[..k] && r[..|s| - k] == s[k..];
    }
  }

  /** What lies before the written stretch is untouched, as long as both fit. */
  lemma RingPutFrame(d: seq<byte>, q: nat, n: nat, s: seq<byte>)
    requires q < |d| && n + |s| <= |d|
    ensures Ring(RingPut(d, RingIndex(|d|, q, n), s), q, n) == Ring(d, q, n)
  {
    var p := RingIndex(|d|, q, n);
    var r := RingPut(d, p, s);
    forall i | 0 <= i < n
      ensures Ring(r, q, n)[i] == Ring(d, q, n)[i]
    {
      RingAt(r, q, n, i);
      RingAt(d, q, n, i);
    }
  }

  /** memcpy: writing s from offset at on, without reaching the end. */
  function Put(d: seq<byte>, at: nat, s: seq<byte>): (r: seq<byte>)
    requires at + |s| <= |d|
    ensures |r| == |d|
  {
    d[..at] + s + d[at + |s|..]
  }

  lemma PutTwice(d: seq<byte>, at: nat, a: seq<byte>, b: seq<byte>)
    requires at + |a| + |b| <= |d|
    ensures Put(Put(d, at, a), at + |a|, b) == Put(d, at, a + b)
  {
  }

  lemma PutIsRingPut(d: seq<byte>, at: nat, s: seq<byte>)
    requires at < |d| && at + |s| <= |d|
    ensures Put(d, at, s) == RingPut(d, at, s)
  {
  }

  /** Writing up to the end and on from the start. */
  lemma PutWrap(d: seq<byte>, at: nat, a: seq<byte>, b: seq<byte>)
    requires at < |d| && at + |a| == |d| && |b| <= at
    ensures Put(Put(d, at, a), 0, b) == RingPut(d, at, a + b)
  {
    if b == [] {
      assert a + b == a;
    }
  }

  // ----- records

  /** A record: its length in four bytes, then its bytes. */
  function Frame(r: seq<byte>): (s: seq<byte>)
    requires |r| < 0x1_0000_0000
    ensures |s| == |r| + HEADER
  {
    Bytes32(|r|) + r
  }

  ghost predicate Record(r: seq<byte>) {
    0 < |r| < 0x1_0000_0000 - HEADER
  }

  ghost predicate Records(q: seq<seq<byte>>) {
    forall i | 0 <= i < |q| :: Record(q[i])
  }

  ghost function Frames(q: seq<seq<byte>>): seq<byte>
    requires Records(q)
  {
    if q == [] then [] else Frame(q[0]) + Frames(q[1..])
  }

  lemma {:induction false} FramesSnoc(q: seq<seq<byte>>, r: seq<byte>)
    requires Records(q) && Record(r)
    ensures Records(q + [r]) && Frames(q + [r]) == Frames(q) + Frame(r)
  {
    assert Records(q + [r]);
    if q == [] {
      assert q + [r] == [r];
      assert Frames([r]) == Frame(r) + Frames([]) == Frame(r);
    } else {
      FramesSnoc(q[1..], r);
      assert (q + [r])[1..] == q[1..] + [r];
      assert Frames(q + [r]) == Frame(q[0]) + (Frames(q[1..]) + Frame(r));
    }
  }

  /** The length field of a record at the start of a stretch. */
  lemma LengthOfFrame(s: seq<byte>, r: seq<byte>)
    requires |r| < 0x1_0000_0000 && |s| >= HEADER && s[..HEADER] == Frame(r)[..HEADER]
    ensures Value(WordAt(s, 0)) == |r|
  {
    assert s[0..4] == s[..HEADER] == Bytes32(|r|);
    WordAtSlice(s, 0, Bytes32(|r|));
    Bytes32RoundTrip(|r|);
  }

  // ----- head and tail

  /** FreeSpace: one byte is always kept free, so head == tail means empty. */
  function FreeSpace(size: nat, head: nat, tail: nat): nat {
    if tail >= head then U32(size - (tail - head) - 1) else U32(head - tail - 1)
  }

  function UsedSpace(size: nat, head: nat, tail: nat): nat {
    if tail >= head then U32(tail - head) else U32(size - (head - tail))
  }

  /** AddOffset, in unsigned arithmetic. */
  function AddOffset(size: nat, offset: nat, n: nat): nat
    requires size > 0
  {
    U32(offset + n) % size
  }

  /** The queue's length comes from a signed size, so it is below 2^31. */
  ghost predicate Sized(size: nat) {
    0 < size < 0x8000_0000
  }

  /** No wrap-around in the space computations. */
  lemma SpacesExact(size: nat, head: nat, tail: nat)
    requires Sized(size) && head < size && tail < size
    ensures UsedSpace(size, head, tail) == if tail >= head then tail - head else size - (head - tail)
    ensures FreeSpace(size, head, tail) == if tail >= head then size - (tail - head) - 1 else head - tail - 1
  {
  }

  lemma SpaceBalance(size: nat, head: nat, tail: nat)
    requires Sized(size) && head < size && tail < size
    ensures UsedSpace(size, head, tail) + FreeSpace(size, head, tail) == size - 1
    ensures tail == RingIndex(size, head, UsedSpace(size, head, tail))
    ensures UsedSpace(size, head, tail) == 0 <==> head == tail
  {
    SpacesExact(size, head, tail);
  }

  lemma ModOnce(v: nat, size: nat)
    requires size > 0 && v < 2 * size
    ensures v % size == if v < size then v else v - size
  {
    if v >= size {
      var w := v - size;
      assert v == w + size * 1;
      assert v / size == 1 && v == size * (v / size) + v % size;
    }
  }

  /** Moving an offset within the ring never overflows. */
  lemma AddOffsetIsIndex(size: nat, offset: nat, n: nat)
    requires Sized(size) && offset < size && n <= size
    ensures AddOffset(size, offset, n) == RingIndex(size, offset, n)
  {
    ModOnce(offset + n, size);
  }

  lemma UsedAfterTail(size: nat, head: nat, tail: nat, n: nat)
    requires Sized(size) && head < size && tail < size && n <= FreeSpace(size, head, tail)
    ensures n <= size && RingIndex(size, tail, n) < size
    ensures UsedSpace(size, head, RingIndex(size, tail, n)) == UsedSpace(size, head, tail) + n
  {
    SpacesExact(size, head, tail);
    SpacesExact(size, head, RingIndex(size, tail, n));
    hide UsedSpace, FreeSpace;
  }

  lemma UsedAfterHead(size: nat, head: nat, tail: nat, n: nat)
    requires Sized(size) && head < size && tail < size && n <= UsedSpace(size, head, tail)
    ensures n <= size && RingIndex(size, head, n) < size
    ensures UsedSpace(size, RingIndex(size, head, n), tail) == UsedSpace(size, head, tail) - n
  {
    SpacesExact(size, head, tail);
    SpacesExact(size, RingIndex(size, head, n), tail);
    hide UsedSpace, FreeSpace;
  }

  /** node_size is uiDataLen + 4 cut to 32 bits: exact below 2^32 - 4, and beyond that so small
      that the space test is meaningless. */
  function NodeSize(len: nat): nat {
    U32(len + HEADER)
  }

  lemma NodeSizeExact(len: nat)
    requires len < 0x1_0000_0000
    ensures NodeSize(len) == len + HEADER <==> len < 0x1_0000_0000 - HEADER
    ensures len >= 0x1_0000_0000 - HEADER ==> NodeSize(len) < HEADER
  {
  }

  /** The space test lets through only what fits, if and only if the length does not wrap or the wrapped
      size is refused all the same; a record of 2^32 - 4 bytes always passes. */
  lemma SpaceTest(size: nat, head: nat, tail: nat, len: nat)
    requires Sized(size) && head < size && tail < size && len < 0x1_0000_0000
    ensures
      var free := FreeSpace(size, head, tail);
      (NodeSize(len) <= free ==> len + HEADER <= free) <==> len < 0x1_0000_0000 - HEADER || NodeSize(len) > free
    ensures len == 0x1_0000_0000 - HEADER ==> NodeSize(len) <= FreeSpace(size, head, tail) < len
  {
    SpacesExact(size, head, tail);
    NodeSizeExact(len);
    hide FreeSpace;
  }

  // ----- a queue of records in the ring

  /** The stretch from off to tail holds exactly the records q. */
  ghost predicate Queued(d: seq<byte>, off: nat, tail: nat, q: seq<seq<byte>>) {
    && Sized(|d|) && off < |d| && tail < |d|
    && Records(q)
    && |Frames(q)| == UsedSpace(|d|, off, tail)
    && Ring(d, off, |Frames(q)|) == Frames(q)
  }

  lemma QueuedRoom(d: seq<byte>, off: nat, tail: nat, q: seq<seq<byte>>)
    requires Queued(d, off, tail, q)
    ensures |Frames(q)| < |d|
    ensures tail == RingIndex(|d|, off, |Frames(q)|)
    ensures q == [] <==> UsedSpace(|d|, off, tail) < HEADER
  {
    SpaceBalance(|d|, off, tail);
  }

  /** The record at the head, and the queue behind it. */
  lemma QueuedHead(d: seq<byte>, off: nat, tail: nat, q: seq<seq<byte>>)
    requires Queued(d, off, tail, q) && q != []
    ensures |q[0]| + HEADER <= UsedSpace(|d|, off, tail) < |d|
    ensures Ring(d, off, |q[0]| + HEADER) == Frame(q[0])
    ensures Value(WordAt(Ring(d, off, HEADER), 0)) == |q[0]|
    ensures Queued(d, AddOffset(|d|, off, |q[0]| + HEADER), tail, q[1..])
  {
    QueuedRoom(d, off, tail, q);
    var n := |q[0]| + HEADER;
    var f := Frames(q);
    RingTake(d, off, n, |f|);
    assert f[..n] == Frame(q[0]) && f[n..] == Frames(q[1..]);
    RingTake(d, off, HEADER, n);
    LengthOfFrame(Ring(d, off, HEADER), q[0]);
    AddOffsetIsIndex(|d|, off, n);
    UsedAfterHead(|d|, off, tail, n);
  }

  /** Writing a frame at the tail and moving the tail enqueues the record. */
  lemma QueuedSnoc(d: seq<byte>, d': seq<byte>, off: nat, tail: nat, q: seq<seq<byte>>, r: seq<byte>)
    requires Queued(d, off, tail, q) && Record(r)
    requires |r| + HEADER <= FreeSpace(|d|, off, tail)
    requires |d'| == |d|
    requires Ring(d', off, |Frames(q)|) == Ring(d, off, |Frames(q)|)
    requires |r| + HEADER <= |d| && Ring(d', tail, |r| + HEADER) == Frame(r)
    ensures Queued(d', off, AddOffset(|d|, tail, |r| + HEADER), q + [r])
  {
    var n := |r| + HEADER;
    QueuedRoom(d, off, tail, q);
    SpaceBalance(|d|, off, tail);
    FramesSnoc(q, r);
    AddOffsetIsIndex(|d|, tail, n);
    UsedAfterTail(|d|, off, tail, n);
    RingSplit(d', off, |Frames(q)|, n);
  }
}
