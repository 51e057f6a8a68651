/** CShmQueue (mmlib/shm_queue/shm_queue.cpp) as a FIFO of byte strings.  Locks and the
    attachment of the shared segment are left to the caller; each method runs alone here, the
    interleavings of a producer and a consumer are the subject of ShmProtocol. */
module ShmQueue {
  import opened Common
  import opened ShmRing

  const SUCCESS := 0
  const E_FULL := -604
  const E_EMPTY := -605
  const E_DATALEN := -606
  const E_PARAM := -609
  const E_MALLOC := -610
  const E_INQUEUE_LEN := -611

  class ShmQueue {
    const data: array<byte>
    var head: nat
    var tail: nat
    /** m_pMsgPeekBuf: holds a message that is not contiguous in the ring. */
    var peekBuf: Option<seq<byte>>

    ghost var Contents: seq<seq<byte>>

    ghost predicate Valid()
      reads this, data
    {
      Queued(data[..], head, tail, Contents)
    }

    constructor (memory: array<byte>)
      requires Sized(memory.Length)
      ensures Valid() && Contents == [] && data == memory && peekBuf == None
    {
      data := memory;
      head, tail, peekBuf := 0, 0, None;
      Contents := [];
    }

    /** memcpy into the ring's memory. */
    method Memcpy(at: nat, s: seq<byte>)
      requires at + |s| <= data.Length
      modifies data
      ensures data[..] == Put(old(data[..]), at, s)
    {
      hide Put;
      ghost var d := data[..];
      PutNone(d, at);
      for i := 0 to |s|
        invariant data[..] == Put(d, at, s[..i])
      {
        PutSnoc(d, at, s[..i], s[i]);
        assert s[..i] + [s[i]] == s[..i + 1];
        data[at + i] := s[i];
        assert data[..] == Put(d, at, s[..i])[at + i := s[i]];
      }
      assert s[..|s|] == s;
    }

    method CopyDataInQueue(pData: seq<byte>, offset: nat)
      requires offset < data.Length && Record(pData) && |pData| + HEADER <= data.Length
      modifies data
      ensures data[..] == RingPut(old(data[..]), offset, Frame(pData))
    {
      hide Put, RingPut, Bytes32;
      ghost var d := data[..];
      var len := Bytes32(|pData|);
      var endFree := data.Length - offset;
      if endFree >= HEADER {
        Memcpy(offset, len);
        endFree := endFree - HEADER;
        if endFree >= |pData| {
          Memcpy(offset + HEADER, pData);
          PutTwice(d, offset, len, pData);
          PutIsRingPut(d, offset, Frame(pData));
        } else if endFree > 0 {
          var first, rest := pData[..endFree], pData[endFree..];
          Memcpy(offset + HEADER, first);
          Memcpy(0, rest);
          PutTwice(d, offset, len, first);
          PutWrap(d, offset, len + first, rest);
          assert len + first + rest == Frame(pData);
        } else {
          Memcpy(0, pData);
          PutWrap(d, offset, len, pData);
        }
      } else {
        var remain := HEADER - endFree;
        var first, rest := len[..endFree], len[endFree..];
        Memcpy(offset, first);
        Memcpy(0, rest);
        Memcpy(remain, pData);
        PutTwice(Put(d, offset, first), 0, rest, pData);
        PutWrap(d, offset, first, rest + pData);
        assert first + (rest + pData) == Frame(pData);
      }
    }

    /** The bytes of the ring from offset on, taken in two parts when they straddle the end. */
    method DataLen(offset: nat) returns (len: nat)
      requires offset < data.Length && HEADER <= data.Length
      ensures len == Value(WordAt(Ring(data[..], offset, HEADER), 0))
    {
      var endUsed := data.Length - offset;
      if endUsed >= HEADER {
        len := Value(WordAt(data[offset..offset + HEADER], 0));
      } else {
        var remain := HEADER - endUsed;
        len := Value(WordAt(data[offset..] + data[..remain], 0));
      }
    }

    /** InQueue: empty data and a full ring are refused, anything else goes to the back. */
    method InQueue(pData: seq<byte>) returns (rc: int)
      requires Valid() && |pData| < 0x1_0000_0000 - HEADER
      modifies this, data
      ensures Valid() && head == old(head) && peekBuf == old(peekBuf)
      ensures rc == if |pData| == 0 then E_INQUEUE_LEN
                    else if |pData| + HEADER > FreeSpace(data.Length, old(head), old(tail)) then E_FULL
                    else SUCCESS
      ensures Contents == if rc == SUCCESS then old(Contents) + [pData] else old(Contents)
      ensures rc != SUCCESS ==> data[..] == old(data[..]) && tail == old(tail)
    {
      if |pData| == 0 {
        return E_INQUEUE_LEN;
      }
      var nodeSize := NodeSize(|pData|);
      NodeSizeExact(|pData|);
      if nodeSize > FreeSpace(data.Length, head, tail) {
        return E_FULL;
      }
      ghost var d := data[..];
      QueuedRoom(d, head, tail, Contents);
      SpaceBalance(data.Length, head, tail);
      CopyDataInQueue(pData, tail);
      RingPutGet(d, tail, Frame(pData));
      RingPutFrame(d, head, |Frames(Contents)|, Frame(pData));
      QueuedSnoc(d, data[..], head, tail, Contents, pData);
      tail := AddOffset(data.Length, tail, nodeSize);
      Contents := Contents + [pData];
      return SUCCESS;
    }

    method CopyOut(buf: array<byte>, at: nat, p: nat, n: nat)
      requires p + n <= data.Length && at + n <= buf.Length && buf != data
      modifies buf
      ensures buf[..] == Put(old(buf[..]), at, data[p..p + n])
    {
      for i := 0 to n
        invariant buf[..] == Put(old(buf[..]), at, data[p..p + i])
      {
        buf[at + i] := data[p + i];
      }
    }

    /** Copies the record r that starts at offset, or reports its length when the buffer is too small. */
    method CopyDataOutQueue(buf: array<byte>, cap: nat, offset: nat, ghost r: seq<byte>) returns (rc: int, len: nat)
      requires offset < data.Length && |r| + HEADER < data.Length && |r| < 0x1_0000_0000
      requires Ring(data[..], offset, |r| + HEADER) == Frame(r)
      requires cap <= buf.Length && buf != data
      modifies buf
      ensures len == |r|
      ensures rc == if |r| > cap then E_DATALEN else SUCCESS
      ensures buf[..] == if rc == SUCCESS then Put(old(buf[..]), 0, r) else old(buf[..])
    {
      hide Put, Bytes32, WordAt, Ring;
      ghost var d := data[..];
      FrameParts(d, offset, r);
      len := DataLen(offset);
      var endUsed := data.Length - offset;
      var start: nat;
      if endUsed >= HEADER {
        endUsed := endUsed - HEADER;
        start := if endUsed == 0 then 0 else offset + HEADER;
      } else {
        start := HEADER - endUsed;
        endUsed := 0;
      }
      if len > cap {
        return E_DATALEN, len;
      }
      if endUsed >= len {
        CopyOut(buf, 0, start, len);
      } else if endUsed > 0 {
        var remain := len - endUsed;
        ghost var b := buf[..];
        CopyOut(buf, 0, start, endUsed);
        CopyOut(buf, endUsed, 0, remain);
        PutTwice(b, 0, d[start..start + endUsed], d[0..remain]);
        assert d[start..start + endUsed] + d[0..remain] == d[offset + HEADER..] + d[..remain] == r;
      } else {
        CopyOut(buf, 0, start, len);
      }
      return SUCCESS, len;
    }

    /** OutQueue: takes the head record; one that does not fit the buffer is dropped. */
    method OutQueue(buf: array<byte>, cap: nat) returns (rc: int, len: nat)
      requires Valid() && cap <= buf.Length && buf != data
      modifies this, buf
      ensures Valid() && tail == old(tail) && data[..] == old(data[..]) && peekBuf == old(peekBuf)
      ensures rc == if old(Contents) == [] then E_EMPTY else if |old(Contents)[0]| > cap then E_DATALEN else SUCCESS
      ensures old(Contents) == [] ==> Contents == [] && len == cap
      ensures old(Contents) != [] ==> Contents == old(Contents)[1..] && len == |old(Contents)[0]|
      ensures buf[..] == if rc == SUCCESS then Put(old(buf[..]), 0, old(Contents)[0]) else old(buf[..])
    {
      QueuedRoom(data[..], head, tail, Contents);
      var used := UsedSpace(data.Length, head, tail);
      if used < HEADER {
        return E_EMPTY, cap;
      }
      QueuedHead(data[..], head, tail, Contents);
      rc, len := CopyDataOutQueue(buf, cap, head, Contents[0]);
      head := AddOffset(data.Length, head, len + HEADER);
      Contents := Contents[1..];
    }

    /** The signed variant: a buffer length that is not positive is a parameter error. */
    method OutQueueInt(buf: array<byte>, iDataLen: int) returns (rc: int, len: int)
      requires Valid() && iDataLen <= buf.Length && buf != data
      modifies this, buf
      ensures Valid() && data[..] == old(data[..])
      ensures iDataLen <= 0 ==> rc == E_PARAM && len == iDataLen && Contents == old(Contents) && buf[..] == old(buf[..])
      ensures iDataLen > 0 && old(Contents) == [] ==> rc == E_EMPTY && Contents == []
      ensures iDataLen > 0 && old(Contents) != [] ==> Contents == old(Contents)[1..]
      ensures iDataLen > 0 && old(Contents) != [] ==> rc == if |old(Contents)[0]| > iDataLen then E_DATALEN else SUCCESS
      ensures if rc == SUCCESS then len == |old(Contents)[0]| && buf[..] == Put(old(buf[..]), 0, old(Contents)[0])
              else len == iDataLen && buf[..] == old(buf[..])
    {
      if iDataLen > 0 {
        var n;
        rc, n := OutQueue(buf, iDataLen);
        len := if rc != SUCCESS then iDataLen else n;
      } else {
        rc, len := E_PARAM, iDataLen;
      }
    }

    /** MsgPeek: the message is seen in place, or through the peek buffer when it straddles the end.
        mallocOk stands for the allocator's answer. */
    method MsgPeek(mallocOk: bool) returns (rc: int, inRing: bool, start: nat, len: nat)
      requires Valid()
      modifies this`peekBuf
      ensures Valid()
      ensures rc == E_EMPTY <==> Contents == []
      ensures rc == SUCCESS || rc == E_EMPTY || (rc == E_MALLOC && !mallocOk)
      ensures mallocOk && Contents != [] ==> rc == SUCCESS
      ensures rc == E_EMPTY || (inRing && rc == SUCCESS) ==> peekBuf == old(peekBuf)
      ensures Contents != [] ==> len == |Contents[0]|
      ensures rc == SUCCESS && inRing ==> start + len <= data.Length && data[start..start + len] == Contents[0]
      ensures rc == SUCCESS && !inRing ==> peekBuf == Some(Contents[0])
    {
      hide Bytes32, WordAt, Ring, Queued, UsedSpace;
      rc, inRing, start, len := E_EMPTY, true, 0, 0;
      ghost var d := data[..];
      HeadParts(d, head, tail, Contents);
      var used := UsedSpace(data.Length, head, tail);
      if used < HEADER {
        return;
      }
      len := DataLen(head);
      var endUsed := data.Length - head;
      rc := SUCCESS;
      if endUsed >= HEADER {
        endUsed := endUsed - HEADER;
        if endUsed == 0 {
          start := 0;
        } else {
          if endUsed < len {
            if !mallocOk {
              peekBuf := None;
              rc := E_MALLOC;
              return;
            }
            var remain := len - endUsed;
            peekBuf := Some(data[head + HEADER..head + HEADER + endUsed] + data[..remain]);
            inRing := false;
            assert peekBuf.value == d[head + HEADER..] + d[..remain] == Contents[0];
            return;
          }
          start := head + HEADER;
        }
      } else {
        start := HEADER - endUsed;
      }
    }

    /** ReleaseMsg drops the head record, if any. */
    method ReleaseMsg()
      requires Valid()
      modifies this
      ensures Valid() && tail == old(tail)
      ensures old(Contents) == [] ==> Contents == [] && head == old(head) && peekBuf == old(peekBuf)
      ensures old(Contents) != [] ==> Contents == old(Contents)[1..] && peekBuf == None
    {
      QueuedRoom(data[..], head, tail, Contents);
      var used := UsedSpace(data.Length, head, tail);
      if used < HEADER {
        return;
      }
      QueuedHead(data[..], head, tail, Contents);
      var len := DataLen(head);
      head := AddOffset(data.Length, head, len + HEADER);
      Contents := Contents[1..];
      peekBuf := None;
    }

    /** GetNum walks the length fields. */
    method GetNum() returns (num: nat)
      requires Valid()
      ensures num == |Contents|
    {
      num := 0;
      var offset := head;
      QueuedRoom(data[..], offset, tail, Contents);
      while UsedSpace(data.Length, offset, tail) >= HEADER
        invariant num <= |Contents| && Queued(data[..], offset, tail, Contents[num..])
        decreases |Contents| - num
      {
        QueuedRoom(data[..], offset, tail, Contents[num..]);
        QueuedHead(data[..], offset, tail, Contents[num..]);
        var len := DataLen(offset);
        offset := AddOffset(data.Length, offset, len + HEADER);
        assert Contents[num..][1..] == Contents[num + 1..];
        num := num + 1;
      }
      QueuedRoom(data[..], offset, tail, Contents[num..]);
    }

    /** GetAllQueueData collects every record in order and takes none. */
    method GetAllQueueData() returns (all: seq<seq<byte>>)
      requires Valid()
      ensures all == Contents
    {
      hide Bytes32, WordAt, Ring, Frames;
      all := [];
      var offset: nat := head;
      ghost var d := data[..];
      while UsedSpace(data.Length, offset, tail) >= HEADER
        invariant |all| <= |Contents| && all == Contents[..|all|]
        invariant Queued(d, offset, tail, Contents[|all|..])
        decreases |Contents| - |all|
      {
        ghost var rest := Contents[|all|..];
        QueuedRoom(d, offset, tail, rest);
        QueuedHead(d, offset, tail, rest);
        FrameParts(d, offset, rest[0]);
        var len := DataLen(offset);
        var str: seq<byte>;
        if offset + HEADER + len <= data.Length {
          str := data[offset + HEADER..offset + HEADER + len];
        } else if offset + HEADER < data.Length {
          var endLen := data.Length - offset - HEADER;
          str := data[offset + HEADER..offset + HEADER + endLen] + data[..len - endLen];
        } else {
          var startLen := HEADER - (data.Length - offset);
          str := data[startLen..startLen + len];
        }
        assert str == rest[0];
        offset := AddOffset(data.Length, offset, len + HEADER);
        assert Contents[|all|..][1..] == Contents[|all| + 1..];
        all := all + [str];
      }
      QueuedRoom(d, offset, tail, Contents[|all|..]);
    }

    method Clean()
      requires Valid()
      modifies this
      ensures Valid() && Contents == [] && peekBuf == old(peekBuf)
    {
      head, tail := 0, 0;
      Contents := [];
    }
  }

  lemma PutNone(d: seq<byte>, at: nat)
    requires at <= |d|
    ensures Put(d, at, []) == d
  {
  }

  lemma PutSnoc(d: seq<byte>, at: nat, s: seq<byte>, b: byte)
    requires at + |s| < |d|
    ensures Put(d, at, s)[at + |s| := b] == Put(d, at, s + [b])
  {
  }

  /** Length field and body of a framed record, wherever the end of the ring falls. */
  lemma FrameParts(d: seq<byte>, offset: nat, r: seq<byte>)
    requires offset < |d| && |r| + HEADER < |d| && |r| < 0x1_0000_0000
    requires Ring(d, offset, |r| + HEADER) == Frame(r)
    ensures Value(WordAt(Ring(d, offset, HEADER), 0)) == |r|
    ensures
      var toEnd := |d| - offset;
      if toEnd <= HEADER then d[HEADER - toEnd..HEADER - toEnd + |r|] == r
      else if toEnd >= HEADER + |r| then d[offset + HEADER..offset + HEADER + |r|] == r
      else d[offset + HEADER..] + d[..|r| + HEADER - toEnd] == r
  {
    hide Bytes32, WordAt, Ring;
    RingTake(d, offset, HEADER, |r| + HEADER);
    LengthOfFrame(Ring(d, offset, HEADER), r);
    assert Frame(r)[HEADER..] == r;
    BodyParts(d, offset, r);
  }

  /** What MsgPeek finds at the head. */
  lemma HeadParts(d: seq<byte>, offset: nat, tail: nat, q: seq<seq<byte>>)
    requires Queued(d, offset, tail, q)
    ensures offset < |d|
    ensures q == [] <==> UsedSpace(|d|, offset, tail) < HEADER
    ensures q != [] ==>
              && HEADER <= UsedSpace(|d|, offset, tail) < |d|
              && |q[0]| + HEADER < |d| && Value(WordAt(Ring(d, offset, HEADER), 0)) == |q[0]|
              && var toEnd := |d| - offset;
                 if toEnd <= HEADER then d[HEADER - toEnd..HEADER - toEnd + |q[0]|] == q[0]
                 else if toEnd >= HEADER + |q[0]| then d[offset + HEADER..offset + HEADER + |q[0]|] == q[0]
                 else d[offset + HEADER..] + d[..|q[0]| + HEADER - toEnd] == q[0]
  {
    hide Ring, UsedSpace, Bytes32, WordAt, Frames;
    QueuedRoom(d, offset, tail, q);
    if q != [] {
      QueuedHead(d, offset, tail, q);
      FrameParts(d, offset, q[0]);
    }
  }

  lemma BodyParts(d: seq<byte>, offset: nat, r: seq<byte>)
    requires offset < |d| && |r| + HEADER < |d|
    requires Ring(d, RingIndex(|d|, offset, HEADER), |r|) == r
    ensures
      var toEnd := |d| - offset;
      if toEnd <= HEADER then d[HEADER - toEnd..HEADER - toEnd + |r|] == r
      else if toEnd >= HEADER + |r| then d[offset + HEADER..offset + HEADER + |r|] == r
      else d[offset + HEADER..] + d[..|r| + HEADER - toEnd] == r
  {
  }
}
