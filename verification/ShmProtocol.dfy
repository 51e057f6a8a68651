/** The shared-memory queue as a producer/consumer protocol (mmlib/shm_queue/shm_queue.cpp).

    Producers hold semaphore 0 and consumers semaphore 1, so one producer and one consumer run at
    the same time over the same bytes.  InQueue is split into reading head, writing the record's
    bytes one by one in any order, and publishing tail; OutQueue into reading tail, reading the length and
    then the body byte by byte, each in any order, and publishing head.  Every interleaving of these steps is a run. */
module ShmProtocol {
  import opened Common
  import opened ShmRing

  /** A producer between calls, or copying a record, with the frame positions still to be written. */
  datatype Producer = PIdle | PCopy(msg: seq<byte>, pending: set<nat>)

  /** A consumer between calls, or with the bytes it has read so far, by their distance from head. */
  datatype Consumer = CIdle | CRead(cap: nat, got: map<nat, byte>)

  /** What a finished OutQueue returned. */
  datatype Result = Delivered(msg: seq<byte>, cap: nat) | Dropped(len: nat, cap: nat)

  datatype State = State(
    mem: seq<byte>, head: nat, tail: nat, producer: Producer, consumer: Consumer,
    published: seq<seq<byte>>, returned: seq<Result>)

  datatype Step =
    | Enqueue(msg: seq<byte>)
    | Write(at: nat)
    | PublishTail
    | Dequeue(cap: nat)
    | Read(at: nat)
    | PublishHead

  function Init(mem: seq<byte>): State {
    State(mem, 0, 0, PIdle, CIdle, [], [])
  }

  predicate HasLength(got: map<nat, byte>) {
    0 in got && 1 in got && 2 in got && 3 in got
  }

  function LengthRead(got: map<nat, byte>): nat
    requires HasLength(got)
  {
    Value(Word(got[0], got[1], got[2], got[3]))
  }

  /** The consumer may read the length, and once it has that, the body if the buffer can take it. */
  predicate MayRead(c: Consumer, at: nat) {
    c.CRead? && (at < HEADER || (HasLength(c.got) && at < LengthRead(c.got) + HEADER && LengthRead(c.got) <= c.cap))
  }

  /** The consumer has the length, and the body too unless it is too long for the buffer. */
  predicate ReadDone(c: Consumer) {
    && c.CRead? && HasLength(c.got)
    && (LengthRead(c.got) > c.cap || forall k: nat | k < LengthRead(c.got) + HEADER :: k in c.got)
  }

  function BodyRead(c: Consumer): seq<byte>
    requires ReadDone(c) && LengthRead(c.got) <= c.cap
  {
    seq(LengthRead(c.got), i requires 0 <= i < LengthRead(c.got) => c.got[HEADER + i])
  }

  /** One step; a step that is not enabled changes nothing. */
  function Next(s: State, step: Step): (r: State)
    requires s.head < |s.mem| && s.tail < |s.mem|
    ensures |r.mem| == |s.mem| && r.head < |r.mem| && r.tail < |r.mem|
  {
    var size := |s.mem|;
    match step
    case Enqueue(msg) =>
      if s.producer.PIdle? && 0 < |msg| < 0x1_0000_0000 - HEADER
         && NodeSize(|msg|) <= FreeSpace(size, s.head, s.tail)
      then s.(producer := PCopy(msg, Below(|msg| + HEADER)))
      else s
    case Write(at) =>
      if s.producer.PCopy? && at in s.producer.pending && at < |s.producer.msg| + HEADER <= size
         && |s.producer.msg| < 0x1_0000_0000
      then s.(mem := s.mem[RingIndex(size, s.tail, at) := Frame(s.producer.msg)[at]],
              producer := PCopy(s.producer.msg, s.producer.pending - {at}))
      else s
    case PublishTail =>
      if s.producer.PCopy? && s.producer.pending == {}
      then s.(tail := AddOffset(size, s.tail, NodeSize(|s.producer.msg|)), producer := PIdle,
              published := s.published + [s.producer.msg])
      else s
    case Dequeue(cap) =>
      if s.consumer.CIdle? && UsedSpace(size, s.head, s.tail) >= HEADER
      then s.(consumer := CRead(cap, map[]))
      else s
    case Read(at) =>
      if MayRead(s.consumer, at) && at < size
      then s.(consumer := CRead(s.consumer.cap, s.consumer.got[at := s.mem[RingIndex(size, s.head, at)]]))
      else s
    case PublishHead =>
      if ReadDone(s.consumer)
      then
        var len := LengthRead(s.consumer.got);
        s.(head := AddOffset(size, s.head, len + HEADER), consumer := CIdle,
           returned := s.returned + [if len > s.consumer.cap then Dropped(len, s.consumer.cap)
                                    else Delivered(BodyRead(s.consumer), s.consumer.cap)])
      else s
  }

  // ----- the invariant

  ghost predicate Matches(r: Result, msg: seq<byte>) {
    match r
    case Delivered(m, cap) => m == msg && |msg| <= cap
    case Dropped(len, cap) => len == |msg| && |msg| > cap
  }

  ghost predicate InOrder(returned: seq<Result>, published: seq<seq<byte>>) {
    && |returned| <= |published|
    && forall i | 0 <= i < |returned| :: Matches(returned[i], published[i])
  }

  /** The producer stays within the room it saw, and what it has written is still there. */
  ghost predicate ProducerOk(s: State)
    requires Sized(|s.mem|) && s.head < |s.mem| && s.tail < |s.mem|
  {
    s.producer.PCopy? ==>
      var msg, n := s.producer.msg, |s.producer.msg| + HEADER;
      && Record(msg) && n <= FreeSpace(|s.mem|, s.head, s.tail)
      && n <= |s.mem|
      && (forall i | i in s.producer.pending :: i < n)
      && forall i | 0 <= i < n && i !in s.producer.pending :: s.mem[RingIndex(|s.mem|, s.tail, i)] == Frame(msg)[i]
  }

  /** The consumer has read bytes of the oldest record. */
  ghost predicate ConsumerOk(c: Consumer, q: seq<seq<byte>>) {
    c.CRead? ==>
      && q != [] && Record(q[0])
      && forall k | k in c.got :: k < |q[0]| + HEADER && c.got[k] == Frame(q[0])[k]
  }

  ghost predicate Inv(s: State) {
    && InOrder(s.returned, s.published)
    && Queued(s.mem, s.head, s.tail, s.published[|s.returned|..])
    && ProducerOk(s)
    && ConsumerOk(s.consumer, s.published[|s.returned|..])
  }

  lemma InvSized(s: State)
    requires Inv(s)
    ensures |s.mem| > 0 && s.head < |s.mem| && s.tail < |s.mem|
  {
  }

  lemma InitInv(mem: seq<byte>)
    requires Sized(|mem|)
    ensures Inv(Init(mem))
  {
  }

  /** The positions the producer may write are none of those between head and tail. */
  lemma WritesAreFree(size: nat, head: nat, tail: nat, at: nat, k: nat)
    requires Sized(size) && head < size && tail < size
    requires at < FreeSpace(size, head, tail) && k < UsedSpace(size, head, tail)
    ensures at <= size && k <= size
    ensures RingIndex(size, tail, at) != RingIndex(size, head, k)
  {
    SpacesExact(size, head, tail);
  }

  /** A write behind tail does not touch the records between head and tail. */
  lemma RecordsStay(mem: seq<byte>, head: nat, tail: nat, at: nat, b: byte)
    requires Sized(|mem|) && head < |mem| && tail < |mem| && at < FreeSpace(|mem|, head, tail)
    ensures at <= |mem| && UsedSpace(|mem|, head, tail) <= |mem|
    ensures Ring(mem[RingIndex(|mem|, tail, at) := b], head, UsedSpace(|mem|, head, tail)) ==
            Ring(mem, head, UsedSpace(|mem|, head, tail))
  {
    SpacesExact(|mem|, head, tail);
    var used := UsedSpace(|mem|, head, tail);
    var mem' := mem[RingIndex(|mem|, tail, at) := b];
    forall k | 0 <= k < used
      ensures Ring(mem', head, used)[k] == Ring(mem, head, used)[k]
    {
      RingAt(mem', head, used, k);
      RingAt(mem, head, used, k);
      WritesAreFree(|mem|, head, tail, at, k);
    }
  }

  lemma WriteInv(s: State, at: nat)
    requires Inv(s)
    ensures Inv(Next(s, Write(at)))
  {
    hide Bytes32, WordAt, Frames, Ring, FreeSpace, UsedSpace;
    if Next(s, Write(at)) != s {
      RecordsStay(s.mem, s.head, s.tail, at, Frame(s.producer.msg)[at]);
    }
  }

  lemma PublishTailInv(s: State)
    requires Inv(s)
    ensures Inv(Next(s, PublishTail))
  {
    var s' := Next(s, PublishTail);
    if s' != s {
      var q, msg, n := s.published[|s.returned|..], s.producer.msg, |s.producer.msg| + HEADER;
      NodeSizeExact(|msg|);
      forall i | 0 <= i < n
        ensures Ring(s.mem, s.tail, n)[i] == Frame(msg)[i]
      {
        RingAt(s.mem, s.tail, n, i);
      }
      assert Ring(s.mem, s.tail, n) == Frame(msg);
      QueuedRoom(s.mem, s.head, s.tail, q);
      QueuedSnoc(s.mem, s.mem, s.head, s.tail, q, msg);
      assert s'.published[|s.returned|..] == q + [msg];
    }
  }

  lemma DequeueInv(s: State, cap: nat)
    requires Inv(s)
    ensures Inv(Next(s, Dequeue(cap)))
  {
    QueuedRoom(s.mem, s.head, s.tail, s.published[|s.returned|..]);
    if Next(s, Dequeue(cap)) != s {
      assert Record(s.published[|s.returned|..][0]);
    }
  }

  /** The length the consumer has read is that of the oldest record. */
  lemma LengthIsRight(c: Consumer, q: seq<seq<byte>>)
    requires ConsumerOk(c, q) && c.CRead? && HasLength(c.got)
    ensures LengthRead(c.got) == |q[0]|
  {
    var header := [c.got[0], c.got[1], c.got[2], c.got[3]];
    assert header == Frame(q[0])[..HEADER];
    LengthOfFrame(header, q[0]);
  }

  lemma ReadInv(s: State, at: nat)
    requires Inv(s)
    ensures Inv(Next(s, Read(at)))
  {
    hide Bytes32, WordAt, Ring, UsedSpace, FreeSpace, ProducerOk;
    var s' := Next(s, Read(at));
    if s' != s {
      var q, c := s.published[|s.returned|..], s.consumer;
      QueuedHead(s.mem, s.head, s.tail, q);
      if HasLength(c.got) {
        LengthIsRight(c, q);
      }
      RingAt(s.mem, s.head, |q[0]| + HEADER, at);
      ProducerSame(s, s');
    }
  }

  lemma ProducerSame(s: State, s': State)
    requires Sized(|s.mem|) && s.head < |s.mem| && s.tail < |s.mem| && ProducerOk(s)
    requires s'.mem == s.mem && s'.head == s.head && s'.tail == s.tail && s'.producer == s.producer
    ensures ProducerOk(s')
  {
  }

  lemma PublishHeadInv(s: State)
    requires Inv(s)
    ensures Inv(Next(s, PublishHead))
  {
    hide Bytes32, WordAt, Ring, UsedSpace, FreeSpace, AddOffset, RingIndex;
    var s' := Next(s, PublishHead);
    if s' != s {
      var q, c := s.published[|s.returned|..], s.consumer;
      QueuedHead(s.mem, s.head, s.tail, q);
      LengthIsRight(c, q);
      var n := |q[0]| + HEADER;
      AddOffsetIsIndex(|s.mem|, s.head, n);
      UsedAfterHead(|s.mem|, s.head, s.tail, n);
      SpaceBalance(|s.mem|, s.head, s.tail);
      SpaceBalance(|s.mem|, s'.head, s.tail);
      assert s'.published[|s'.returned|..] == q[1..];
      assert s.published[|s.returned|] == q[0];
      if |q[0]| <= c.cap {
        assert BodyRead(c) == q[0];
      }
    }
  }

  lemma EnqueueInv(s: State, msg: seq<byte>)
    requires Inv(s)
    ensures Inv(Next(s, Enqueue(msg)))
  {
    if |msg| < 0x1_0000_0000 {
      NodeSizeExact(|msg|);
      SpacesExact(|s.mem|, s.head, s.tail);
    }
  }

  lemma NextInv(s: State, step: Step)
    requires Inv(s)
    ensures Inv(Next(s, step))
  {
    hide Next, Queued, ProducerOk, ConsumerOk, InOrder;
    assert |s.mem| > 0 && s.head < |s.mem| && s.tail < |s.mem| by {
      InvSized(s);
    }
    match step
    case Enqueue(msg) => EnqueueInv(s, msg);
    case Write(at) => WriteInv(s, at);
    case PublishTail => PublishTailInv(s);
    case Dequeue(cap) => DequeueInv(s, cap);
    case Read(at) => ReadInv(s, at);
    case PublishHead => PublishHeadInv(s);
  }

  // ----- whole runs

  /** The state after the steps, in order. */
  ghost function Run(mem: seq<byte>, steps: seq<Step>): (s: State)
    requires Sized(|mem|)
    ensures |s.mem| == |mem| && s.head < |s.mem| && s.tail < |s.mem|
  {
    if steps == [] then Init(mem) else Next(Run(mem, steps[..|steps| - 1]), steps[|steps| - 1])
  }

  lemma {:induction false} RunInv(mem: seq<byte>, steps: seq<Step>)
    requires Sized(|mem|)
    ensures Inv(Run(mem, steps))
  {
    hide Next, Inv;
    if steps == [] {
      InitInv(mem);
    } else {
      var before := steps[..|steps| - 1];
      RunInv(mem, before);
      NextInv(Run(mem, before), steps[|steps| - 1]);
    }
  }

  /** FIFO under every interleaving: what OutQueue calls have returned so far is, call by call,
      what InQueue calls have published, in order; a record is dropped exactly when it is longer
      than the buffer it was offered. */
  lemma ReceivedInOrder(mem: seq<byte>, steps: seq<Step>)
    requires Sized(|mem|)
    ensures
      var s := Run(mem, steps);
      && |s.returned| <= |s.published|
      && forall i | 0 <= i < |s.returned| ::
           var msg, cap := s.published[i], s.returned[i].cap;
           s.returned[i] == if |msg| <= cap then Delivered(msg, cap) else Dropped(|msg|, cap)
  {
    var s := Run(mem, steps);
    RunInv(mem, steps);
    forall i | 0 <= i < |s.returned|
      ensures Matches(s.returned[i], s.published[i])
    {
    }
  }

  /** No step of a run overwrites a byte that is published and not yet released. */
  lemma UnreadBytesStay(mem: seq<byte>, steps: seq<Step>, step: Step, k: nat)
    requires Sized(|mem|)
    ensures
      var s := Run(mem, steps);
      k < UsedSpace(|s.mem|, s.head, s.tail) ==>
        && k <= |s.mem|
        && var p := RingIndex(|s.mem|, s.head, k);
        Next(s, step).mem[p] == s.mem[p]
  {
    var s := Run(mem, steps);
    RunInv(mem, steps);
    SpacesExact(|s.mem|, s.head, s.tail);
    if k < UsedSpace(|s.mem|, s.head, s.tail) && step.Write? && Next(s, step) != s {
      WritesAreFree(|s.mem|, s.head, s.tail, step.at, k);
    }
  }
}
