/** That the two ends of the shared-memory queue (mmlib/shm_queue/shm_queue.cpp) get on with it: in every
    reachable state of ShmProtocol a call that is under way can go on, and a call that runs to its end has done
    its work, whatever the other side does meanwhile. */
module ShmProgress {
  import opened Common
  import opened ShmRing
  import opened ShmProtocol

  /** The records that are published and not yet released. */
  function Unread(s: State): seq<seq<byte>>
    requires |s.returned| <= |s.published|
  {
    s.published[|s.returned|..]
  }

  /** The bytes that records take in the ring, each with its length. */
  function Load(q: seq<seq<byte>>): nat {
    if q == [] then 0 else |q[0]| + 4 + Load(q[1..])
  }

  lemma {:induction false} LoadIs(q: seq<seq<byte>>)
    requires Records(q)
    ensures Load(q) == |Frames(q)|
  {
    if q != [] {
      LoadIs(q[1..]);
    }
  }

  lemma LoadUsed(s: State)
    requires Inv(s)
    ensures s.head < |s.mem| && s.tail < |s.mem| && |s.returned| <= |s.published|
    ensures Load(Unread(s)) == UsedSpace(|s.mem|, s.head, s.tail)
    ensures UsedSpace(|s.mem|, s.head, s.tail) + FreeSpace(|s.mem|, s.head, s.tail) == |s.mem| - 1
  {
    LoadIs(Unread(s));
    SpaceBalance(|s.mem|, s.head, s.tail);
    hide Frames, FreeSpace, UsedSpace, Ring;
  }

  /** What OutQueue is to return for a record. */
  function Expected(msg: seq<byte>, cap: nat): Result {
    if |msg| <= cap then Delivered(msg, cap) else Dropped(|msg|, cap)
  }

  predicate ByProducer(step: Step) {
    step.Enqueue? || step.Write? || step.PublishTail?
  }

  /** Each side leaves the other alone. */
  lemma SidesApart(s: State, step: Step)
    requires s.head < |s.mem| && s.tail < |s.mem|
    ensures
      var s' := Next(s, step);
      && (ByProducer(step) ==> s'.head == s.head && s'.consumer == s.consumer && s'.returned == s.returned)
      && (!ByProducer(step) ==>
          s'.mem == s.mem && s'.tail == s.tail && s'.producer == s.producer && s'.published == s.published)
  {
  }

  // ----- the producer

  /** InQueue begins to copy exactly if the record fits beside those that are unread. */
  lemma EnqueueStarts(s: State, msg: seq<byte>)
    requires Inv(s) && s.producer.PIdle? && 0 < |msg| < 0x1_0000_0000 - 4
    ensures s.head < |s.mem| && s.tail < |s.mem|
    ensures Next(s, Enqueue(msg)) ==
            if |msg| + 4 + Load(Unread(s)) < |s.mem| then s.(producer := PCopy(msg, Below(|msg| + 4))) else s
  {
    LoadUsed(s);
    NodeSizeExact(|msg|);
    hide Inv, FreeSpace, UsedSpace, NodeSize, Below, Load;
  }

  /** Every byte that is pending can be written, and is then no longer pending. */
  lemma WriteGoesOn(s: State, at: nat)
    requires Inv(s) && s.producer.PCopy? && at in s.producer.pending
    ensures s.head < |s.mem| && s.tail < |s.mem|
    ensures Next(s, Write(at)).producer == PCopy(s.producer.msg, s.producer.pending - {at})
    ensures Next(s, Write(at)).published == s.published
  {
    hide Frames, FreeSpace, UsedSpace, Ring;
  }

  /** And when all are written the record is published. */
  lemma PublishGoesOn(s: State)
    requires Inv(s) && s.producer.PCopy? && s.producer.pending == {}
    ensures s.head < |s.mem| && s.tail < |s.mem|
    ensures Next(s, PublishTail).producer == PIdle && Next(s, PublishTail).published == s.published + [s.producer.msg]
  {
    hide Frames, FreeSpace, UsedSpace, Ring;
  }

  function ProducerPart(steps: seq<Step>): seq<Step> {
    if steps == [] then []
    else ProducerPart(steps[..|steps| - 1]) + if ByProducer(steps[|steps| - 1]) then [steps[|steps| - 1]] else []
  }

  /** The steps of one InQueue call. */
  function InQueueSteps(msg: seq<byte>): (steps: seq<Step>)
    ensures |steps| == |msg| + 6
  {
    [Enqueue(msg)] + seq(|msg| + 4, i requires 0 <= i => Write(i)) + [PublishTail]
  }

  /** The producer, k steps into the call. */
  ghost predicate ProducerAt(s: State, s': State, msg: seq<byte>, k: nat) {
    if k == 0 then
      && s'.producer == PIdle && s'.published == s.published
      && |s.returned| <= |s.published| && |s'.returned| <= |s'.published|
      && Load(Unread(s')) <= Load(Unread(s))
    else if k <= |msg| + 5 then
      s'.producer == PCopy(msg, Below(|msg| + 4) - Below(k - 1)) && s'.published == s.published
    else s'.producer == PIdle && s'.published == s.published + [msg]
  }

  lemma RunMore(mem: seq<byte>, steps: seq<Step>, step: Step)
    requires Sized(|mem|)
    ensures Run(mem, steps + [step]) == Next(Run(mem, steps), step)
  {
    assert (steps + [step])[..|steps|] == steps;
    hide Next;
  }

  lemma FewerFrames(s: State, step: Step)
    requires Inv(s) && Inv(Next(s, step)) && !ByProducer(step)
    ensures Load(Unread(Next(s, step))) <= Load(Unread(s))
  {
    SidesApart(s, step);
    var s' := Next(s, step);
    if s'.returned != s.returned {
      assert step.PublishHead? && |s'.returned| == |s.returned| + 1;
      assert Unread(s') == Unread(s)[1..];
    }
  }

  lemma ProducerStep(s: State, s': State, msg: seq<byte>, k: nat)
    requires Inv(s') && k < |msg| + 6 && ProducerAt(s, s', msg, k) && 0 < |msg| < 0x1_0000_0000 - 4
    requires |s.returned| <= |s.published| && |msg| + 4 + Load(Unread(s)) < |s'.mem|
    ensures s'.head < |s'.mem| && s'.tail < |s'.mem|
    ensures ProducerAt(s, Next(s', InQueueSteps(msg)[k]), msg, k + 1)
  {
    InvSized(s');
    hide Inv, Next, Load;
    if k == 0 {
      BeginsCopy(s', msg);
    } else if k <= |msg| + 4 {
      CopiesOn(s', msg, k);
    } else {
      assert Below(|msg| + 4) - Below(|msg| + 4) == {};
      PublishGoesOn(s');
    }
  }

  lemma BeginsCopy(s: State, msg: seq<byte>)
    requires Inv(s) && s.producer.PIdle? && 0 < |msg| < 0x1_0000_0000 - 4
    requires |s.returned| <= |s.published| && |msg| + 4 + Load(Unread(s)) < |s.mem|
    ensures s.head < |s.mem| && s.tail < |s.mem|
    ensures
      var s' := Next(s, InQueueSteps(msg)[0]);
      s'.producer == PCopy(msg, Below(|msg| + 4) - Below(0)) && s'.published == s.published
  {
    hide Inv, Next, Load;
    EnqueueStarts(s, msg);
    assert Below(|msg| + 4) - Below(0) == Below(|msg| + 4);
  }

  lemma CopiesOn(s: State, msg: seq<byte>, k: nat)
    requires Inv(s) && 1 <= k <= |msg| + 4 && s.producer == PCopy(msg, Below(|msg| + 4) - Below(k - 1))
    ensures s.head < |s.mem| && s.tail < |s.mem|
    ensures
      var s' := Next(s, InQueueSteps(msg)[k]);
      s'.producer == PCopy(msg, Below(|msg| + 4) - Below(k)) && s'.published == s.published
  {
    InvSized(s);
    hide Inv, Next, Below, InQueueSteps;
    WriteIs(msg, k);
    OneLess(|msg| + 4, k);
    WriteGoesOn(s, k - 1);
  }

  lemma WriteIs(msg: seq<byte>, k: nat)
    requires 1 <= k <= |msg| + 4
    ensures InQueueSteps(msg)[k] == Write(k - 1)
  {
  }

  lemma OneLess(n: nat, k: nat)
    requires 1 <= k <= n
    ensures k - 1 in Below(n) - Below(k - 1)
    ensures Below(n) - Below(k - 1) - {k - 1} == Below(n) - Below(k)
  {
  }

  lemma InvOrder(s: State)
    requires Inv(s)
    ensures |s.returned| <= |s.published|
  {
  }

  lemma {:induction false} InQueuePart(mem: seq<byte>, steps: seq<Step>, more: seq<Step>, msg: seq<byte>, k: nat)
    requires Sized(|mem|) && 0 < |msg| < 0x1_0000_0000 - 4 && k <= |msg| + 6
    requires
      var s := Run(mem, steps);
      s.producer.PIdle? && |s.returned| <= |s.published| && |msg| + 4 + Load(Unread(s)) < |mem|
    requires ProducerPart(more) == InQueueSteps(msg)[..k]
    ensures ProducerAt(Run(mem, steps), Run(mem, steps + more), msg, k)
    decreases |more|
  {
    hide Inv, Next, Load, Run, ProducerAt, Below;
    if more == [] {
      assert steps + more == steps;
      StillThere(Run(mem, steps), msg);
    } else {
      var init, step := more[..|more| - 1], more[|more| - 1];
      var s, s' := Run(mem, steps), Run(mem, steps + init);
      assert steps + more == steps + init + [step];
      RunMore(mem, steps + init, step);
      RunInv(mem, steps + init);
      NextInv(s', step);
      if ByProducer(step) {
        assert k > 0 && ProducerPart(init) == InQueueSteps(msg)[..k - 1] && step == InQueueSteps(msg)[k - 1] by {
          LastOf(ProducerPart(init), step, InQueueSteps(msg), k);
        }
        InQueuePart(mem, steps, init, msg, k - 1);
        ProducerStep(s, s', msg, k - 1);
      } else {
        assert ProducerPart(init) + [] == ProducerPart(init);
        InQueuePart(mem, steps, init, msg, k);
        OthersKeep(s, s', step, msg, k);
      }
    }
  }

  lemma StillThere(s: State, msg: seq<byte>)
    requires s.producer.PIdle? && |s.returned| <= |s.published|
    ensures ProducerAt(s, s, msg, 0)
  {
  }

  lemma OthersKeep(s: State, s': State, step: Step, msg: seq<byte>, k: nat)
    requires Inv(s') && Inv(Next(s', step)) && !ByProducer(step) && ProducerAt(s, s', msg, k)
    ensures ProducerAt(s, Next(s', step), msg, k)
  {
    SidesApart(s', step);
    FewerFrames(s', step);
    InvOrder(Next(s', step));
    hide Inv, Next, Load;
  }

  lemma LastOf<T>(a: seq<T>, x: T, all: seq<T>, k: nat)
    requires k <= |all| && a + [x] == all[..k]
    ensures k > 0 && a == all[..k - 1] && x == all[k - 1]
  {
    assert |all[..k]| == |a| + 1;
    assert (a + [x])[..|a|] == a && (a + [x])[|a|] == x;
    assert all[..k][..k - 1] == all[..k - 1];
  }

  /** An InQueue call that runs to its end, with any steps of the consumer between its own: the record, which
      fitted when the call began, is published. */
  lemma InQueueCall(mem: seq<byte>, steps: seq<Step>, more: seq<Step>, msg: seq<byte>)
    requires Sized(|mem|) && 0 < |msg| < 0x1_0000_0000 - 4
    requires
      var s := Run(mem, steps);
      s.producer.PIdle? && |s.returned| <= |s.published| && |msg| + 4 + Load(Unread(s)) < |mem|
    requires ProducerPart(more) == InQueueSteps(msg)
    ensures
      var s, s' := Run(mem, steps), Run(mem, steps + more);
      s'.producer.PIdle? && s'.published == s.published + [msg]
  {
    hide Run, Load;
    assert InQueueSteps(msg)[..|msg| + 6] == InQueueSteps(msg);
    InQueuePart(mem, steps, more, msg, |msg| + 6);
  }

  // ----- the consumer

  /** How many bytes OutQueue reads: a record that is too long for the buffer is only measured. */
  function Needed(msg: seq<byte>, cap: nat): nat {
    if |msg| <= cap then |msg| + 4 else 4
  }

  /** OutQueue begins to read exactly if a record is unread. */
  lemma DequeueStarts(s: State, cap: nat)
    requires Inv(s) && s.consumer.CIdle?
    ensures s.head < |s.mem| && s.tail < |s.mem| && |s.returned| <= |s.published|
    ensures Next(s, Dequeue(cap)) == if Unread(s) != [] then s.(consumer := CRead(cap, map[])) else s
  {
    QueuedRoom(s.mem, s.head, s.tail, s.published[|s.returned|..]);
    hide Frames, FreeSpace, UsedSpace, Ring;
  }

  /** The length can be read byte by byte, and then the body, if the buffer takes it; what is read are the
      record's bytes. */
  lemma ReadGoesOn(s: State, at: nat)
    requires Inv(s) && s.consumer.CRead?
    requires |s.returned| <= |s.published| && Unread(s) != [] && at < Needed(Unread(s)[0], s.consumer.cap)
    requires at < 4 || HasLength(s.consumer.got)
    ensures s.head < |s.mem| && s.tail < |s.mem|
    ensures Next(s, Read(at)).consumer.CRead? && Next(s, Read(at)).consumer.cap == s.consumer.cap
    ensures Next(s, Read(at)).consumer.got.Keys == s.consumer.got.Keys + {at}
    ensures Next(s, Read(at)).returned == s.returned
  {
    QueuedHead(s.mem, s.head, s.tail, Unread(s));
    if HasLength(s.consumer.got) {
      LengthIsRight(s.consumer, Unread(s));
    }
    hide Frames, FreeSpace, UsedSpace, Ring, Queued, ProducerOk, LengthRead;
  }

  lemma Covers(got: map<nat, byte>, n: nat)
    requires got.Keys == Below(n)
    ensures forall k: nat | k < n :: k in got
  {
    assert forall k: nat | k < n :: k in got.Keys;
  }

  lemma AllRead(c: Consumer, q: seq<seq<byte>>)
    requires ConsumerOk(c, q) && c.CRead? && q != [] && c.got.Keys == Below(Needed(q[0], c.cap))
    ensures ReadDone(c) && LengthRead(c.got) == |q[0]|
    ensures |q[0]| <= c.cap ==> BodyRead(c) == q[0]
  {
    hide LengthRead, Frame;
    Covers(c.got, Needed(q[0], c.cap));
    hide Below;
    LengthIsRight(c, q);
    if |q[0]| <= c.cap {
      BodyIs(c, q[0]);
    }
  }

  /** And when all are read OutQueue returns the record, or its length. */
  lemma ReturnGoesOn(s: State)
    requires Inv(s) && s.consumer.CRead? && |s.returned| <= |s.published| && Unread(s) != []
    requires s.consumer.got.Keys == Below(Needed(Unread(s)[0], s.consumer.cap))
    ensures s.head < |s.mem| && s.tail < |s.mem|
    ensures Next(s, PublishHead).consumer == CIdle
    ensures Next(s, PublishHead).returned == s.returned + [Expected(Unread(s)[0], s.consumer.cap)]
  {
    InvSized(s);
    assert ConsumerOk(s.consumer, Unread(s));
    hide Inv, Unread, ConsumerOk, BodyRead, ReadDone, LengthRead, AddOffset, Below, Needed, Frames, Queued, ProducerOk;
    AllRead(s.consumer, Unread(s));
  }

  lemma BodyIs(c: Consumer, msg: seq<byte>)
    requires ReadDone(c) && LengthRead(c.got) == |msg| <= c.cap && Record(msg)
    requires forall k | k in c.got :: k < |msg| + HEADER && c.got[k] == Frame(msg)[k]
    ensures BodyRead(c) == msg
  {
    hide LengthRead;
  }

  function ConsumerPart(steps: seq<Step>): seq<Step> {
    if steps == [] then []
    else ConsumerPart(steps[..|steps| - 1]) + if ByProducer(steps[|steps| - 1]) then [] else [steps[|steps| - 1]]
  }

  /** The steps of one OutQueue call that finds this record. */
  function OutQueueSteps(msg: seq<byte>, cap: nat): (steps: seq<Step>)
    ensures |steps| == Needed(msg, cap) + 2
  {
    [Dequeue(cap)] + seq(Needed(msg, cap), i requires 0 <= i => Read(i)) + [PublishHead]
  }

  /** The consumer, k steps into the call. */
  ghost predicate ConsumerAt(s: State, s': State, msg: seq<byte>, cap: nat, k: nat) {
    && s.published <= s'.published
    && if k == 0 then s'.consumer == CIdle && s'.returned == s.returned
       else if k <= Needed(msg, cap) + 1 then
         && s'.consumer.CRead? && s'.consumer.cap == cap && s'.consumer.got.Keys == Below(k - 1)
         && s'.returned == s.returned
       else s'.consumer == CIdle && s'.returned == s.returned + [Expected(msg, cap)]
  }

  /** The oldest unread record stays so until it is released. */
  lemma StillOldest(s: State, s': State)
    requires |s.returned| <= |s.published| && Unread(s) != []
    requires s.published <= s'.published && s'.returned == s.returned
    ensures |s'.returned| <= |s'.published| && Unread(s') != [] && Unread(s')[0] == Unread(s)[0]
  {
  }

  lemma ConsumerStep(s: State, s': State, cap: nat, k: nat)
    requires Inv(s') && |s.returned| <= |s.published| && Unread(s) != [] && k < Needed(Unread(s)[0], cap) + 2
    requires ConsumerAt(s, s', Unread(s)[0], cap, k)
    ensures s'.head < |s'.mem| && s'.tail < |s'.mem|
    ensures ConsumerAt(s, Next(s', OutQueueSteps(Unread(s)[0], cap)[k]), Unread(s)[0], cap, k + 1)
  {
    var msg := Unread(s)[0];
    InvSized(s');
    hide Inv, Next, HasLength, Unread, Below, OutQueueSteps, Expected;
    KeepsPublished(s', OutQueueSteps(msg, cap)[k]);
    if k == 0 {
      StillOldest(s, s');
      BeginsRead(s', cap);
    } else if k <= Needed(msg, cap) {
      StillOldest(s, s');
      ReadsOn(s', cap, k);
    } else {
      StillOldest(s, s');
      Returns(s', cap);
    }
  }

  lemma KeepsPublished(s: State, step: Step)
    requires s.head < |s.mem| && s.tail < |s.mem|
    ensures s.published <= Next(s, step).published
  {
  }

  lemma BeginsRead(s: State, cap: nat)
    requires Inv(s) && s.consumer.CIdle? && |s.returned| <= |s.published| && Unread(s) != []
    ensures s.head < |s.mem| && s.tail < |s.mem|
    ensures
      var s' := Next(s, OutQueueSteps(Unread(s)[0], cap)[0]);
      s'.consumer.CRead? && s'.consumer.cap == cap && s'.consumer.got.Keys == Below(0) && s'.returned == s.returned
  {
    hide Inv, Next, Unread, Needed;
    DequeueStarts(s, cap);
  }

  lemma ReadsOn(s: State, cap: nat, k: nat)
    requires Inv(s) && |s.returned| <= |s.published| && Unread(s) != [] && 1 <= k <= Needed(Unread(s)[0], cap)
    requires s.consumer.CRead? && s.consumer.cap == cap && s.consumer.got.Keys == Below(k - 1)
    ensures s.head < |s.mem| && s.tail < |s.mem|
    ensures
      var s' := Next(s, OutQueueSteps(Unread(s)[0], cap)[k]);
      s'.consumer.CRead? && s'.consumer.cap == cap && s'.consumer.got.Keys == Below(k) && s'.returned == s.returned
  {
    hide Inv, Next, Unread, Needed, HasLength;
    assert OutQueueSteps(Unread(s)[0], cap)[k] == Read(k - 1);
    LengthThere(s.consumer.got, k - 1);
    ReadGoesOn(s, k - 1);
    assert Below(k - 1) + {k - 1} == Below(k);
  }

  lemma Returns(s: State, cap: nat)
    requires Inv(s) && |s.returned| <= |s.published| && Unread(s) != []
    requires s.consumer.CRead? && s.consumer.cap == cap && s.consumer.got.Keys == Below(Needed(Unread(s)[0], cap))
    ensures s.head < |s.mem| && s.tail < |s.mem|
    ensures
      var s' := Next(s, OutQueueSteps(Unread(s)[0], cap)[Needed(Unread(s)[0], cap) + 1]);
      s'.consumer == CIdle && s'.returned == s.returned + [Expected(Unread(s)[0], cap)]
  {
    hide Inv, Next, Unread, Needed, Below, Expected;
    ReturnGoesOn(s);
  }

  lemma LengthThere(got: map<nat, byte>, k: nat)
    requires got.Keys == Below(k)
    ensures k >= 4 ==> HasLength(got)
  {
    if k >= 4 {
      assert 0 in got.Keys && 1 in got.Keys && 2 in got.Keys && 3 in got.Keys;
    }
  }

  lemma ProducerKeeps(s: State, s': State, step: Step, msg: seq<byte>, cap: nat, k: nat)
    requires s'.head < |s'.mem| && s'.tail < |s'.mem| && ByProducer(step) && ConsumerAt(s, s', msg, cap, k)
    ensures ConsumerAt(s, Next(s', step), msg, cap, k)
  {
    SidesApart(s', step);
    hide Frame, FreeSpace, RingIndex, NodeSize, AddOffset;
    assert s'.published <= Next(s', step).published;
  }

  lemma {:induction false} OutQueuePart(mem: seq<byte>, steps: seq<Step>, more: seq<Step>, cap: nat, k: nat)
    requires Sized(|mem|)
    requires
      var s := Run(mem, steps);
      s.consumer.CIdle? && |s.returned| <= |s.published| && Unread(s) != [] && k <= Needed(Unread(s)[0], cap) + 2
    requires ConsumerPart(more) == OutQueueSteps(Unread(Run(mem, steps))[0], cap)[..k]
    ensures ConsumerAt(Run(mem, steps), Run(mem, steps + more), Unread(Run(mem, steps))[0], cap, k)
    decreases |more|
  {
    hide Inv, Next, Run, ConsumerAt, Below;
    var s := Run(mem, steps);
    var msg := Unread(s)[0];
    if more == [] {
      assert steps + more == steps;
      NotBegun(s, msg, cap);
    } else {
      var init, step := more[..|more| - 1], more[|more| - 1];
      var s' := Run(mem, steps + init);
      assert steps + more == steps + init + [step];
      RunMore(mem, steps + init, step);
      RunInv(mem, steps + init);
      if ByProducer(step) {
        assert ConsumerPart(init) + [] == ConsumerPart(init);
        OutQueuePart(mem, steps, init, cap, k);
        ProducerKeeps(s, s', step, msg, cap, k);
      } else {
        LastOf(ConsumerPart(init), step, OutQueueSteps(msg, cap), k);
        OutQueuePart(mem, steps, init, cap, k - 1);
        ConsumerStep(s, s', cap, k - 1);
      }
    }
  }

  lemma NotBegun(s: State, msg: seq<byte>, cap: nat)
    requires s.consumer.CIdle?
    ensures ConsumerAt(s, s, msg, cap, 0)
  {
  }

  /** An OutQueue call that runs to its end, with any steps of the producer between its own: it returns the
      oldest record, or its length if the buffer is too small. */
  lemma OutQueueCall(mem: seq<byte>, steps: seq<Step>, more: seq<Step>, cap: nat)
    requires Sized(|mem|)
    requires
      var s := Run(mem, steps);
      s.consumer.CIdle? && |s.returned| <= |s.published| && Unread(s) != []
    requires ConsumerPart(more) == OutQueueSteps(Unread(Run(mem, steps))[0], cap)
    ensures
      var s, s' := Run(mem, steps), Run(mem, steps + more);
      s'.consumer.CIdle? && s'.returned == s.returned + [Expected(Unread(s)[0], cap)]
  {
    hide Run;
    var all := OutQueueSteps(Unread(Run(mem, steps))[0], cap);
    assert all[..|all|] == all;
    OutQueuePart(mem, steps, more, cap, |all|);
  }
}
