/** CTimerPool (mmlib/timer_pool/timer_pool.h): the timer wheel in its arena.  Each method is proved
    to do to the linked lists what TimerWheel says on sequences of timers. */
module TimerPool {
  import opened Common
  import opened TimerBuckets
  import opened TimerWheel
  import opened TimerLinks
  import FixedPool

  const SUCCESS := 0
  const ERROR := -1
  const POOL_FULL := 101
  const TIMER_NOT_EXIST := 102

  /** ullTimerID: the node's offset and its random number. */
  datatype TimerId = TimerId(offset: int, random: nat)

  function IdOf(t: Timer): TimerId {
    TimerId(NODES + t.node, t.random)
  }

  function Ids(ts: seq<Timer>): seq<TimerId> {
    seq(|ts|, i requires 0 <= i < |ts| => IdOf(ts[i]))
  }

  function Params(ts: seq<Timer>): seq<int> {
    seq(|ts|, i requires 0 <= i < |ts| => ts[i].param)
  }

  /** The node's fields hold the timer's data. */
  ghost predicate Stored(n: nat, expire: seq<int>, random: seq<int>, param: seq<int>, lists: Lists) {
    && |expire| == |random| == |param| == n
    && forall b: nat, i: nat | b < |lists| && i < |lists[b]| ::
         StoredAt(n, expire, random, param, lists[b][i])
  }

  ghost predicate StoredAt(n: nat, expire: seq<int>, random: seq<int>, param: seq<int>, t: Timer) {
    && |expire| == |random| == |param| == n
    && t.node < n && expire[t.node] == t.Due() && random[t.node] == t.random && param[t.node] == t.param
  }

  /** The pool's used nodes are the listed ones. */
  ghost predicate InUse(bits: seq<bv8>, n: nat, lists: Lists)
    requires |bits| == (n + 7) / 8
  {
    forall k: nat | k < n :: FixedPool.UsedIn(bits, k) <==> Listed(lists, k)
  }

  /** All links, of pending and of free nodes, stay inside the arena. */
  ghost predicate Inside(next: seq<int>, prev: seq<int>) {
    && |next| == |prev|
    && (forall x | 0 <= x < |next| :: 0 <= next[x] < |next|)
    && forall x | 0 <= x < |prev| :: 0 <= prev[x] < |prev|
  }

  class TimerPool {
    const n: nat
    const pool: FixedPool.Pool
    const next: array<int>
    const prev: array<int>
    const expire: array<int>
    const random: array<int>
    const param: array<int>
    var timerNodeNum: int
    var c1: nat
    var c2: nat
    var c3: nat
    var c4: nat
    var c5: nat

    ghost var Lists: Lists
    ghost var Now: int
    /** How many timers were added so far. */
    ghost var Serial: nat

    function Pointers(): Pointers
      reads this
    {
      TimerBuckets.Pointers(c1, c2, c3, c4, c5)
    }

    ghost function Abs(): Wheel
      reads this
    {
      Wheel(Pointers(), Now, Lists)
    }

    ghost predicate Separated()
    {
      && pool.freeList != next && pool.freeList != prev && pool.freeList != expire && pool.freeList != random &&
          pool.freeList != param
      && (var bits: object := pool.usedBit;
          bits != next && bits != prev && bits != expire && bits != random && bits != param)
      && next != prev && next != expire && next != random && next != param
      && prev != expire && prev != random && prev != param
      && expire != random && expire != param && random != param
      && next.Length == prev.Length == NODES + n && expire.Length == random.Length == param.Length == n
      && pool.n == n
    }

    /** The lists are well linked and the nodes hold their timers. */
    ghost predicate Linked()
      reads this`Lists, next, prev, expire, random, param
    {
      && Separated() && |Lists| == BUCKETS
      && Chains(next[..], prev[..], Lists) && Inside(next[..], prev[..])
      && Stored(n, expire[..], random[..], param[..], Lists)
    }

    ghost predicate Valid()
      reads this, pool, pool.freeList, pool.usedBit, next, prev, expire, random, param
    {
      Ready() && Pointers().Valid() && |Lists| == BUCKETS
    }

    ghost predicate Ready()
      reads this`Lists, this`timerNodeNum, pool, pool.freeList, pool.usedBit, next, prev, expire, random, param
    {
      && Linked() && |Lists| == BUCKETS && pool.n == n && pool.usedBit.Length == (n + 7) / 8
      && pool.Valid() && InUse(pool.usedBit[..], n, Lists)
      && timerNodeNum == Total(Lists)
    }

    /** Init with the clear flag: no links, an empty pool. */
    constructor (nodeNum: nat, now: int)
      requires nodeNum >= 2
      ensures Valid() && n == nodeNum && Now == now && Serial == 0
      ensures Pointers() == TimerBuckets.Pointers(0, 0, 0, 0, 0)
      ensures forall b: nat | b < BUCKETS :: Lists[b] == []
      ensures fresh(pool) && fresh(pool.freeList) && fresh(pool.usedBit)
      ensures fresh(next) && fresh(prev) && fresh(expire) && fresh(random) && fresh(param)
    {
      n := nodeNum;
      pool := new FixedPool.Pool(nodeNum);
      next := new int[NODES + nodeNum](_ => 0);
      prev := new int[NODES + nodeNum](_ => 0);
      expire := new int[nodeNum](_ => 0);
      random := new int[nodeNum](_ => 0);
      param := new int[nodeNum](_ => 0);
      timerNodeNum := 0;
      c1, c2, c3, c4, c5 := 0, 0, 0, 0, 0;
      Lists := seq(BUCKETS, _ => []);
      Now, Serial := now, 0;
      new;
      hide Linked, InUse, FixedPool.Pool.Valid, Total;
      EmptyPending(Lists);
      FreshLinks();
      FreshPool();
    }

    lemma FreshLinks()
      requires Separated() && |Lists| == BUCKETS && forall b: nat | b < BUCKETS :: Lists[b] == []
      requires forall x | 0 <= x < NODES + n :: next[x] == prev[x] == 0
      ensures Linked()
    {
      hide Chains, Stored, Inside;
      NoTimers(n, next[..], prev[..], expire[..], random[..], param[..], Lists);
    }

    lemma FreshPool()
      requires pool.Valid() && pool.n == n && pool.Free == seq(n - 1, i => i)
      requires forall b: nat | b < |Lists| :: Lists[b] == []
      ensures pool.usedBit.Length == (n + 7) / 8 && InUse(pool.usedBit[..], n, Lists)
    {
      hide InUse;
      NoneInUse(pool.usedBit[..], n, pool.Free, Lists);
    }

    // ----- list surgery

    /** off lies between before and after: as the i-th node of bucket b, or as a free node with links that
        were left in it. */
    ghost predicate Between(before: int, off: int, after: int, b: nat, i: nat, listed: bool)
      reads this`Lists, next, prev
    {
      && next.Length == prev.Length == NODES + n && |Lists| == BUCKETS
      && if listed then
           && b < BUCKETS && i < |Lists[b]|
           && before == At(Lists, b, i) && off == At(Lists, b, i + 1) && after == At(Lists, b, i + 2)
         else
           && NODES <= off < NODES + n && !Listed(Lists, off - NODES)
           && before == prev[off] != 0 && after == next[off]
    }

    /** Unlinks the node at off; before and after are its neighbours. */
    method Detach(before: int, off: int, after: int, ghost b: nat, ghost i: nat, ghost listed: bool)
      requires Linked() && Between(before, off, after, b, i, listed)
      modifies next, prev, this`Lists
      ensures pool.Valid() == old(pool.Valid()) && pool.usedBit[..] == old(pool.usedBit[..])
      ensures Separated() && Lists == if listed then RemoveAt(old(Lists), b, i) else old(Lists)
      ensures listed ==> Linked() && prev[off] == old(prev[off])
      ensures forall x | 0 <= x < prev.Length && old(prev[x]) != 0 :: prev[x] != 0
    {
      hide Separate, Chains, Listed, Stored, Inside;
      ghost var nx, pv := next[..], prev[..];
      if listed {
        LinksAround(nx, pv, Lists, b, i);
      } else {
        InsideAt(nx, pv, off);
      }
      next[before] := next[off];
      if after > 0 {
        prev[after] := prev[off];
      }
      if listed {
        Unlink(nx, pv, Lists, b, i, next[..], prev[..]);
        InsideUnlink(nx, pv, off, next[..], prev[..]);
        StoredRemove(n, expire[..], random[..], param[..], Lists, b, i);
        Lists := RemoveAt(Lists, b, i);
      }
    }

    /** Links the node at off in behind the head of bucket b. */
    method Attach(b: nat, off: int, ghost t: Timer)
      requires Linked() && b < BUCKETS && !Listed(Lists, t.node) && off == NODES + t.node
      requires StoredAt(n, expire[..], random[..], param[..], t)
      modifies next, prev, this`Lists
      ensures pool.Valid() == old(pool.Valid()) && pool.usedBit[..] == old(pool.usedBit[..])
      ensures Linked() && Lists == PushFront(old(Lists), b, t)
      ensures forall x | 0 <= x < prev.Length && old(prev[x]) != 0 :: prev[x] != 0
    {
      hide Separate, Chains, Listed, Stored, Inside;
      ghost var nx, pv := next[..], prev[..];
      HeadLinks(nx, pv, Lists, b);
      InsideAt(nx, pv, b + 1);
      next[off] := next[b + 1];
      prev[off] := b + 1;
      if next[b + 1] > 0 {
        prev[next[b + 1]] := off;
      }
      next[b + 1] := off;
      Link(nx, pv, Lists, b, t, next[..], prev[..]);
      InsideLink(nx, pv, b, off, next[..], prev[..]);
      StoredPush(n, expire[..], random[..], param[..], Lists, b, t);
      Lists := PushFront(Lists, b, t);
    }

    // ----- adding and deleting

    /** Fills in the free node k and links it in behind the head of bucket b. */
    method Place(b: nat, k: nat, due: int, rnd: nat, timerParam: int, ghost t: Timer)
      requires Linked() && b < BUCKETS && k < n && !Listed(Lists, k)
      requires t.node == k && t.Due() == due && t.random == rnd && t.param == timerParam
      modifies this`Lists, next, prev, expire, random, param
      ensures pool.Valid() == old(pool.Valid()) && pool.usedBit[..] == old(pool.usedBit[..])
      ensures Linked() && Lists == PushFront(old(Lists), b, t)
    {
      hide Chains, Listed, Stored, Inside, StoredAt, FixedPool.RingHolds, FixedPool.BitsHold;
      StoredFill(n, expire[..], random[..], param[..], Lists, t);
      ghost var ex, ra, pa := expire[..], random[..], param[..];
      expire[k], random[k], param[k] := due, rnd, timerParam;
      assert expire[..] == ex[k := due] && random[..] == ra[k := rnd] && param[..] == pa[k := timerParam];
      Attach(b, NODES + k, t);
    }

    /** The node k, just taken from the pool, becomes a timer in bucket b. */
    method Enter(b: nat, k: nat, due: int, rnd: nat, timerParam: int, ghost t: Timer, ghost bits: seq<bv8>)
      requires Linked() && b < BUCKETS && k < n && !Listed(Lists, k) && pool.Valid() && timerNodeNum == Total(Lists)
      requires t.node == k && t.Due() == due && t.random == rnd && t.param == timerParam
      requires |bits| == pool.usedBit.Length == (n + 7) / 8 && InUse(bits, n, Lists)
      requires forall j: nat | j < n :: FixedPool.UsedIn(pool.usedBit[..], j) == (j == k || FixedPool.UsedIn(bits, j))
      modifies this`Lists, this`timerNodeNum, next, prev, expire, random, param
      ensures Ready() && Lists == PushFront(old(Lists), b, t)
    {
      hide Linked, Listed, InUse, FixedPool.UsedIn, Total, FixedPool.Pool.Valid, PushFront;
      LinkedSeparate();
      Place(b, k, due, rnd, timerParam, t);
      InUsePush(bits, pool.usedBit[..], n, old(Lists), b, t);
      PushPending(old(Lists), b, t);
      timerNodeNum := timerNodeNum + 1;
      LinkedSeparate();
    }

    /** AddTimer with an interval of whole ticks, in milliseconds. */
    method AddTimer(interval: nat, timerParam: int, now: int, rnd: nat) returns (rc: int, id: TimerId)
      requires Valid() && now == Now && interval < 0x1_0000_0000 && interval % 10 == 0
      modifies this, next, prev, expire, random, param, pool, pool.freeList, pool.usedBit
      ensures Valid() && Now == old(Now) && Pointers() == old(Pointers())
      ensures rc == if interval == 0 then ERROR else if |old(pool.Free)| == 1 then POOL_FULL else SUCCESS
      ensures rc != SUCCESS ==> Lists == old(Lists) && Serial == old(Serial) && pool.Free == old(pool.Free)
      ensures rc == SUCCESS ==>
                var t := Timer(old(pool.Free)[0], rnd, timerParam, now, interval / 10, Pointers(), old(Serial));
                && !Listed(old(Lists), t.node)
                && Lists == PushFront(old(Lists), AddBucket(Pointers(), interval / 10), t)
                && Serial == old(Serial) + 1 && id == IdOf(t)
    {
      hide Linked, Listed, InUse, AddBucket, FixedPool.UsedIn, Total, FixedPool.Pool.Valid, PushFront;
      LinkedSeparate();
      id := TimerId(0, 0);
      if interval == 0 {
        return ERROR, id;
      }
      ghost var bits := pool.usedBit[..];
      var node := pool.AllocateNode();
      if node == None {
        assert Linked();
        InUseSame(bits, pool.usedBit[..], n, Lists);
        return POOL_FULL, id;
      }
      var k := node.value;
      var ticks := interval / 10;
      var b := AddBucket(Pointers(), ticks);
      ghost var t := Timer(k, rnd, timerParam, now, ticks, Pointers(), Serial);
      NotInUse(bits, n, Lists, k);
      Enter(b, k, now + ticks, rnd, timerParam, t, bits);
      Serial := Serial + 1;
      return SUCCESS, TimerId(NODES + k, rnd);
    }

    /** Unlinks the node at off and gives it back to the pool, which takes no notice of a free node. */
    method Drop(before: int, off: int, after: int, ghost b: nat, ghost i: nat, ghost listed: bool)
      requires Ready() && (listed || timerNodeNum > 0) && Between(before, off, after, b, i, listed)
      modifies this`Lists, this`timerNodeNum, next, prev, pool, pool.freeList, pool.usedBit
      ensures Separated() && timerNodeNum == old(timerNodeNum) - 1
      ensures Lists == if listed then RemoveAt(old(Lists), b, i) else old(Lists)
      ensures listed ==> Ready() && At(Lists, b, i + 1) == after && prev[off] == old(prev[off])
      ensures forall x | 0 <= x < prev.Length && old(prev[x]) != 0 :: prev[x] != 0
    {
      hide Linked, InUse, FixedPool.UsedIn, Total, FixedPool.Pool.Valid, RemoveAt, Listed, Separate,
           FixedPool.Pool.Marked, FixedPool.Bit;
      ghost var bits := pool.usedBit[..];
      if listed {
        NodeInUse(b, i);
        RemovePending(Lists, b, i);
      }
      assert Separated() && pool.Valid() by {
        LinkedSeparate();
      }
      Detach(before, off, after, b, i, listed);
      timerNodeNum := timerNodeNum - 1;
      timerNodeNum := if timerNodeNum < 0 then 0 else timerNodeNum;
      GiveBack(off - NODES);
      if listed {
        InUseRemove(bits, pool.usedBit[..], n, old(Lists), b, i);
        PlaceAfterRemove(old(Lists), b, i, b, i + 1);
      }
    }

    /** The node goes back to the pool; the links are untouched. */
    method GiveBack(k: int)
      requires Separated() && pool.Valid() && 0 <= k < n
      modifies pool, pool.freeList, pool.usedBit
      ensures Separated() && pool.Valid() && (old(Linked()) ==> Linked())
      ensures forall j: nat | j < n ::
              FixedPool.UsedIn(pool.usedBit[..], j) == (FixedPool.UsedIn(old(pool.usedBit[..]), j) && j != k)
    {
      hide FixedPool.UsedIn, FixedPool.Pool.Valid, FixedPool.Pool.Marked, FixedPool.Bit, Chains, Stored, Inside;
      var rc := pool.ReleaseNode(k, true);
    }

    lemma NodeInUse(b: nat, i: nat)
      requires Ready() && b < BUCKETS && i < |Lists[b]|
      ensures Separate(Lists) && Lists[b][i].node < n && FixedPool.UsedIn(pool.usedBit[..], Lists[b][i].node)
      ensures pool.Valid() && Separated()
    {
      hide Separate, FixedPool.UsedIn, FixedPool.RingHolds, FixedPool.BitsHold;
      ListedInUse(pool.usedBit[..], n, expire[..], random[..], param[..], Lists, b, i);
    }

    /** The id of a timer that is gone, whose node still has its links and shows its random number. */
    ghost predicate Dead(id: TimerId)
      requires Separated()
      reads this`Lists, this`timerNodeNum, prev, random
    {
      && timerNodeNum > 0 && NODES <= id.offset < NODES + n
      && prev[id.offset] != 0 && random[id.offset - NODES] == id.random
      && !Listed(Lists, id.offset - NODES)
    }

    /** DelTimer, on the id of a node.  A dead id is not noticed: the node is unlinked once more, and the
        counter is then one short of the pending timers.  This breaks the pool, and only this does; every
        id that was deleted is dead while other timers are left. */
    method DelTimer(id: TimerId) returns (rc: int)
      requires Valid()
      requires 0 < id.offset < NODES + n ==> id.offset >= NODES
      modifies this`Lists, this`timerNodeNum, next, prev, pool, pool.freeList, pool.usedBit
      ensures Separated() && (Valid() <==> !old(Dead(id)))
      ensures rc == SUCCESS && Valid() ==> exists b: nat, i: nat ::
                b < BUCKETS && i < |old(Lists)[b]| && IdOf(old(Lists)[b][i]) == id &&
                    Lists == RemoveAt(old(Lists), b, i)
      ensures rc == SUCCESS && Valid() && timerNodeNum > 0 ==> Dead(id)
      ensures !Valid() ==> rc == SUCCESS && Lists == old(Lists) && timerNodeNum == Total(Lists) - 1
      ensures rc != SUCCESS ==> Lists == old(Lists)
      ensures rc != SUCCESS ==> forall b: nat, i: nat | b < BUCKETS && i < |Lists[b]| :: IdOf(Lists[b][i]) != id
      ensures rc == if old(timerNodeNum) == 0 then TIMER_NOT_EXIST
                    else if id.offset <= 0 || id.offset >= NODES + n then ERROR
                    else if old(prev[id.offset]) == 0 then ERROR
                    else if random[id.offset - NODES] != id.random then TIMER_NOT_EXIST
                    else SUCCESS
    {
      hide Linked, InUse, FixedPool.Pool.Valid, Total, Between, Listed, RemoveAt;
      LinkedSeparate();
      IdsShown();
      if timerNodeNum == 0 {
        TotalZero(Lists);
        return TIMER_NOT_EXIST;
      }
      if id.offset <= 0 || id.offset >= NODES + n {
        return ERROR;
      }
      if prev[id.offset] == 0 {
        FreshNode(id.offset);
        return ERROR;
      }
      if random[id.offset - NODES] != id.random {
        return TIMER_NOT_EXIST;
      }
      ghost var listed, b: nat, i: nat := Listed(Lists, id.offset - NODES), 0, 0;
      if listed {
        b, i := Find(id.offset);
      } else {
        LeftLinks(id.offset);
      }
      Drop(prev[id.offset], id.offset, next[id.offset], b, i, listed);
      return SUCCESS;
    }

    /** The place of a pending timer, and what its node shows. */
    lemma Find(off: int) returns (b: nat, i: nat)
      requires Ready() && NODES <= off < NODES + n && Listed(Lists, off - NODES)
      ensures Separated() && Between(prev[off], off, next[off], b, i, true)
      ensures b < BUCKETS && i < |Lists[b]| && IdOf(Lists[b][i]) == TimerId(off, random[off - NODES])
      ensures !Listed(RemoveAt(Lists, b, i), off - NODES)
    {
      hide Separate, Chains, InUse, Total, Inside, FixedPool.Pool.Valid;
      b, i :| b < BUCKETS && i < |Lists[b]| && Lists[b][i].node == off - NODES;
      LinksAround(next[..], prev[..], Lists, b, i);
      LinkedSeparate();
      RemoveListed(Lists, b, i);
    }

    lemma FreshNode(off: int)
      requires Linked() && NODES <= off < NODES + n && prev[off] == 0
      ensures forall b: nat, i: nat | b < BUCKETS && i < |Lists[b]| :: Lists[b][i].node != off - NODES
    {
      hide Chains, Stored, Inside;
      ListedHasPrev(next[..], prev[..], Lists, off);
    }

    lemma IdsShown()
      requires Linked()
      ensures forall b: nat, i: nat | b < BUCKETS && i < |Lists[b]| ::
                Lists[b][i].node < n && random[Lists[b][i].node] == Lists[b][i].random
    {
      hide Chains, Inside;
    }

    lemma LeftLinks(off: int)
      requires Ready() && NODES <= off < NODES + n && prev[off] != 0 && !Listed(Lists, off - NODES)
      ensures Between(prev[off], off, next[off], 0, 0, false)
    {
    }

    lemma LinkedSeparate()
      requires Linked()
      ensures Separated() && Separate(Lists) && |Lists| == BUCKETS
    {
    }

    // ----- a tick

    /** Migrate: TBk's bucket src, down one wheel, whose first bucket is dst and which has num buckets
        of width ticks each. */
    method Migrate(dst: nat, num: nat, width: nat, src: nat, now: int)
      requires Ready() && T2 <= src < BUCKETS
      requires dst == WheelBelow(src) && num == (if src < T3 then TB1_NUM else TB_NUM) && width == Width(src)
      modifies this`Lists, next, prev
      ensures Ready() && |Lists| == BUCKETS && Lists == TimerWheel.Migrate(old(Lists), src, now)
      ensures forall x | 0 <= x < prev.Length && old(prev[x]) != 0 :: prev[x] != 0
    {
      hide Linked, InUse, Total, FixedPool.Pool.Valid, TimerWheel.Migrate, MigrateIndex;
      HeadStored(src);
      if next[src + 1] == 0 {
        MigrateStep(Lists, src, now);
        return;
      }
      var node, before := next[src + 1], src + 1;
      var after := next[node];
      while node != 0
        invariant Ready()
        invariant TimerWheel.Migrate(Lists, src, now) == TimerWheel.Migrate(old(Lists), src, now)
        invariant forall x | 0 <= x < prev.Length && old(prev[x]) != 0 :: prev[x] != 0
        invariant node == At(Lists, src, 1) && (node != 0 ==> after == At(Lists, src, 2))
        decreases |Lists[src]|
      {
        ghost var t := Lists[src][0];
        HeadStored(src);
        var interval := MigrateIndex(expire[node - NODES] - now, width, num);
        TargetIs(src, t.Due() - now);
        MigrateStep(Lists, src, now);
        MoveHead(before, node, after, src, dst + interval);
        node := after;
        if node != 0 {
          HeadStored(src);
          after := next[node];
        }
      }
      MigrateStep(Lists, src, now);
    }

    /** What the head of a bucket and its first node show. */
    lemma HeadStored(b: nat)
      requires Linked() && b < BUCKETS
      ensures Separated() && |Lists| == BUCKETS && b + 1 < next.Length && next[b + 1] == At(Lists, b, 1)
      ensures Lists[b] != [] ==>
                var off := At(Lists, b, 1);
                && StoredAt(n, expire[..], random[..], param[..], Lists[b][0])
                && 0 < off < next.Length && next[off] == At(Lists, b, 2)
    {
      HeadLinks(next[..], prev[..], Lists, b);
      if Lists[b] != [] {
        LinksAround(next[..], prev[..], Lists, b, 0);
      }
    }

    /** One turn of Migrate's loop: the first timer of bucket src goes to bucket dst. */
    method MoveHead(before: int, off: int, after: int, ghost src: nat, dst: nat)
      requires Ready() && src < BUCKETS && Lists[src] != [] && dst < BUCKETS
      requires before == src + 1 && off == At(Lists, src, 1) && after == At(Lists, src, 2)
      modifies this`Lists, next, prev
      ensures Ready() && Lists == PushFront(RemoveAt(old(Lists), src, 0), dst, old(Lists)[src][0])
      ensures dst != src ==> At(Lists, src, 1) == after
      ensures forall x | 0 <= x < prev.Length && old(prev[x]) != 0 :: prev[x] != 0
    {
      hide Linked, InUse, FixedPool.UsedIn, Total, FixedPool.Pool.Valid, RemoveAt, PushFront, Listed;
      ghost var t := Lists[src][0];
      NodeInUse(src, 0);
      HeadStored(src);
      PlaceAfterRemove(Lists, src, 0, src, 1);
      Detach(before, off, after, src, 0, true);
      PlaceAfterPush(Lists, dst, t, src, 1);
      RemovePending(old(Lists), src, 0);
      InUseMove(pool.usedBit[..], n, old(Lists), src, dst);
      assert Lists == RemoveAt(old(Lists), src, 0) && |Lists| == BUCKETS;
      Attach(dst, off, t);
      PushPending(RemoveAt(old(Lists), src, 0), dst, t);
    }

    /** The bucket under TB1's pointer is emptied and its timers reported, in list order.  Their ids are dead
        while other timers are left. */
    method Fire() returns (ids: seq<TimerId>, params: seq<int>)
      requires Valid()
      modifies this`Lists, this`timerNodeNum, next, prev, pool, pool.freeList, pool.usedBit
      ensures Valid() && Lists == old(Lists)[c1 := []]
      ensures ids == Ids(old(Lists)[c1]) && params == Params(old(Lists)[c1])
      ensures timerNodeNum > 0 ==> forall i | 0 <= i < |old(Lists)[c1]| :: Dead(IdOf(old(Lists)[c1][i]))
    {
      hide Linked, InUse, Total, FixedPool.Pool.Valid, Ids, Params, RemoveAt;
      ids, params := [], [];
      ghost var l, lists := Lists[c1], Lists;
      PendingShown(c1);
      HeadStored(c1);
      var node, before := next[c1 + 1], c1 + 1;
      var after := 0;
      if node != 0 {
        after := next[node];
      }
      ghost var j := 0;
      NoneFired(lists, c1);
      while node != 0
        invariant Ready() && j <= |l| && Lists == lists[c1 := l[j..]]
        invariant ids == Ids(l[..j]) && params == Params(l[..j])
        invariant forall x | 0 <= x < prev.Length && old(prev[x]) != 0 :: prev[x] != 0
        invariant node == At(Lists, c1, 1) && (node != 0 ==> after == At(Lists, c1, 2))
        decreases |l| - j
      {
        HeadStored(c1);
        params := params + [param[node - NODES]];
        ids := ids + [TimerId(node, random[node - NODES])];
        FiredOne(lists, c1, j);
        Drop(before, node, after, c1, 0, true);
        j := j + 1;
        node := after;
        if node != 0 {
          HeadStored(c1);
          after := next[node];
        }
      }
      assert l[..j] == l && l[j..] == [];
      NoLongerListed(lists, c1);
    }

    /** What the nodes of a bucket show. */
    lemma PendingShown(b: nat)
      requires Linked() && b < BUCKETS
      ensures Separated() && Separate(Lists) && |Lists| == BUCKETS
      ensures forall i | 0 <= i < |Lists[b]| ::
                var k := Lists[b][i].node;
                k < n && prev[NODES + k] != 0 && random[k] == Lists[b][i].random
    {
      hide Chains, Inside;
      LinkedSeparate();
      forall i | 0 <= i < |Lists[b]|
        ensures
          var k := Lists[b][i].node;
          k < n && prev[NODES + k] != 0 && random[k] == Lists[b][i].random
      {
        LinksAround(next[..], prev[..], Lists, b, i);
        assert StoredAt(n, expire[..], random[..], param[..], Lists[b][i]);
      }
    }

    /** GetTimerInternal, at tick now. */
    method GetTimerInternal(now: int) returns (ids: seq<TimerId>, params: seq<int>)
      requires Valid() && now == Now + 1
      modifies this, next, prev, pool, pool.freeList, pool.usedBit
      ensures Valid() && Abs() == old(Abs()).Tick().0 && Serial == old(Serial)
      ensures ids == Ids(old(Abs()).Tick().1) && params == Params(old(Abs()).Tick().1)
      ensures timerNodeNum > 0 ==>
                forall i | 0 <= i < |old(Abs()).Tick().1| :: Dead(IdOf(old(Abs()).Tick().1[i]))
    {
      hide Linked, InUse, Total, FixedPool.Pool.Valid, TimerWheel.Migrate, Cascade;
      ids, params := [], [];
      Now := now;
      if timerNodeNum == 0 {
        return;
      }
      ids, params := Fire();
      if timerNodeNum == 0 {
        return;
      }
      ghost var bits, lists := pool.usedBit[..], Lists;
      LinkedSeparate();
      Turn(now);
      SameListed(bits, n, lists, Lists);
    }

    /** The second half of GetTimerInternal: the pointers advance and due buckets move down. */
    method Turn(now: int)
      requires Valid() && now == Now
      modifies this`Lists, this`c1, this`c2, this`c3, this`c4, this`c5, next, prev
      ensures Valid() && Pointers() == old(Pointers()).Next()
      ensures Lists == if old(c1) < 255 then old(Lists) else Cascade(old(Pointers()), old(Lists), now, 2)
      ensures forall x | 0 <= x < prev.Length && old(prev[x]) != 0 :: prev[x] != 0
    {
      hide Ready, TimerWheel.Migrate, Cascade;
      ghost var p := Pointers();
      c1 := c1 + 1;
      if c1 == TB1_NUM {
        CascadeFrom(p, Lists, now, 2);
        Migrate(0, TB1_NUM, 1, T2 + c2, now);
        c1 := 0;
        c2 := c2 + 1;
        if c2 == TB_NUM {
          TurnTB3(now, p);
        }
      }
    }

    /** The part of the turn nested under a full turn of TB2. */
    method TurnTB3(now: int, ghost p: TimerBuckets.Pointers)
      requires Ready() && |Lists| == BUCKETS && p.Valid()
      requires c2 == TB_NUM && c3 == p.c3 && c4 == p.c4 && c5 == p.c5
      modifies this`Lists, this`c2, this`c3, this`c4, this`c5, next, prev
      ensures Ready() && |Lists| == BUCKETS
      ensures c2 == 0 && (p.c3 < 63 ==> c3 == p.c3 + 1 && c4 == p.c4 && c5 == p.c5)
      ensures p.c3 == 63 ==>
                c3 == 0 && if p.c4 < 63 then c4 == p.c4 + 1 && c5 == p.c5 else c4 == 0 && c5 == (p.c5 + 1) % TB_NUM
      ensures Lists == Cascade(p, old(Lists), now, 3)
      ensures forall x | 0 <= x < prev.Length && old(prev[x]) != 0 :: prev[x] != 0
    {
      hide Ready, TimerWheel.Migrate, Cascade;
      CascadeFrom(p, Lists, now, 3);
      Migrate(T2, TB_NUM, P1, T3 + c3, now);
      c2 := 0;
      c3 := c3 + 1;
      if c3 == TB_NUM {
        CascadeFrom(p, Lists, now, 4);
        Migrate(T3, TB_NUM, P2, T4 + c4, now);
        c3 := 0;
        c4 := c4 + 1;
        if c4 == TB_NUM {
          CascadeFrom(p, Lists, now, 5);
          Migrate(T4, TB_NUM, P3, T5 + c5, now);
          c4 := 0;
          c5 := c5 + 1;
          c5 := c5 % TB_NUM;
        }
      }
    }
  }

  /** The state after Init. */
  lemma NoTimers(n: nat, next: seq<int>, prev: seq<int>, expire: seq<int>, random: seq<int>, param: seq<int>,
      lists: Lists)
    requires |lists| == BUCKETS && forall b: nat | b < BUCKETS :: lists[b] == []
    requires |next| == |prev| >= NODES && forall x | 0 <= x < |next| :: next[x] == prev[x] == 0
    requires |expire| == |random| == |param| == n
    ensures Chains(next, prev, lists) && Inside(next, prev) && Stored(n, expire, random, param, lists)
  {
  }

  lemma NoneInUse(bits: seq<bv8>, n: nat, free: seq<nat>, lists: Lists)
    requires n >= 2 && FixedPool.BitsHold(bits, n, free) && free == seq(n - 1, i => i)
    requires forall b: nat | b < |lists| :: lists[b] == []
    ensures InUse(bits, n, lists)
  {
    hide FixedPool.UsedIn;
    forall k: nat | k < n
      ensures !FixedPool.UsedIn(bits, k)
    {
      assert k < n - 1 ==> free[k] == k;
    }
  }

  lemma LinksAround(next: seq<int>, prev: seq<int>, lists: Lists, b: nat, i: nat)
    requires Chains(next, prev, lists) && b < BUCKETS && i < |lists[b]|
    ensures
      var before, off, after := At(lists, b, i), At(lists, b, i + 1), At(lists, b, i + 2);
      && 0 < before < |next| && 0 < off < |next| && 0 <= after < |prev| == |next|
      && next[before] == off && prev[off] == before && next[off] == after && off != before && off != after
  {
    PlaceUnique(lists, b, i + 1, b, i);
    assert LinkedAt(next, prev, lists, b, i) && LinkedAt(next, prev, lists, b, i + 1);
  }

  lemma InsideAt(next: seq<int>, prev: seq<int>, x: int)
    requires Inside(next, prev) && 0 <= x < |next|
    ensures |next| == |prev| && 0 <= next[x] < |next| && 0 <= prev[x] < |prev|
  {
  }

  lemma InsideUnlink(next: seq<int>, prev: seq<int>, off: int, next': seq<int>, prev': seq<int>)
    requires Inside(next, prev) && 0 <= off < |next|
    requires 0 <= prev[off] < |next| && 0 <= next[off] < |prev|
    requires next' == next[prev[off] := next[off]]
    requires prev' == if next[off] > 0 then prev[next[off] := prev[off]] else prev
    ensures Inside(next', prev')
  {
  }

  lemma InsideLink(next: seq<int>, prev: seq<int>, b: nat, off: int, next': seq<int>, prev': seq<int>)
    requires Inside(next, prev) && 0 <= off < |next| && b + 1 < |next| && 0 <= next[b + 1] < |prev|
    requires next' == next[off := next[b + 1]][b + 1 := off]
    requires
      var p := prev[off := b + 1];
      prev' == if next[b + 1] > 0 then p[next[b + 1] := off] else p
    ensures Inside(next', prev')
  {
  }

  lemma HeadLinks(next: seq<int>, prev: seq<int>, lists: Lists, b: nat)
    requires Chains(next, prev, lists) && b < BUCKETS
    ensures b + 1 < |next| && 0 <= next[b + 1] == At(lists, b, 1) < |prev| == |next|
  {
    assert LinkedAt(next, prev, lists, b, 0);
  }

  lemma StoredRemove(n: nat, expire: seq<int>, random: seq<int>, param: seq<int>, lists: Lists, b: nat, i: nat)
    requires Stored(n, expire, random, param, lists) && b < |lists| && i < |lists[b]|
    ensures Stored(n, expire, random, param, RemoveAt(lists, b, i))
  {
    var lists' := RemoveAt(lists, b, i);
    forall c: nat, j: nat | c < |lists'| && j < |lists'[c]|
      ensures lists'[c][j] == lists[c][Before(b, i, c, j)]
    {
    }
  }

  lemma StoredPush(n: nat, expire: seq<int>, random: seq<int>, param: seq<int>, lists: Lists, b: nat, t: Timer)
    requires Stored(n, expire, random, param, lists) && b < |lists| && StoredAt(n, expire, random, param, t)
    ensures Stored(n, expire, random, param, PushFront(lists, b, t))
  {
    var lists' := PushFront(lists, b, t);
    forall c: nat, j: nat | c < |lists'| && j < |lists'[c]|
      ensures lists'[c][j] == if c == b && j == 0 then t else lists[c][if c == b then j - 1 else j]
    {
    }
  }

  // ----- the fired timers

  lemma NoneFired(lists: Lists, c: nat)
    requires c < |lists|
    ensures lists[c := lists[c][0..]] == lists
    ensures Ids(lists[c][..0]) == [] && Params(lists[c][..0]) == []
  {
  }

  lemma FiredOne(lists: Lists, c: nat, j: nat)
    requires c < |lists| && j < |lists[c]|
    ensures RemoveAt(lists[c := lists[c][j..]], c, 0) == lists[c := lists[c][j + 1..]]
    ensures Ids(lists[c][..j + 1]) == Ids(lists[c][..j]) + [IdOf(lists[c][j])]
    ensures Params(lists[c][..j + 1]) == Params(lists[c][..j]) + [lists[c][j].param]
  {
    var l := lists[c][j..];
    assert l[..0] + l[1..] == lists[c][j + 1..];
  }

  // ----- the pool and the lists

  lemma InUseSame(bits: seq<bv8>, bits': seq<bv8>, n: nat, lists: Lists)
    requires |bits| == |bits'| == (n + 7) / 8 && InUse(bits, n, lists)
    requires forall k: nat | k < n :: FixedPool.UsedIn(bits', k) == FixedPool.UsedIn(bits, k)
    ensures InUse(bits', n, lists)
  {
  }

  /** The used bits tell which nodes are listed. */
  lemma SameListed(bits: seq<bv8>, n: nat, lists: Lists, lists': Lists)
    requires |bits| == (n + 7) / 8 && InUse(bits, n, lists) && InUse(bits, n, lists')
    ensures forall k: nat | k < n :: Listed(lists, k) <==> Listed(lists', k)
  {
    hide Listed, FixedPool.UsedIn;
  }

  /** The timers of an emptied bucket are in no list. */
  lemma NoLongerListed(lists: Lists, c: nat)
    requires c < |lists| && Separate(lists)
    ensures forall i | 0 <= i < |lists[c]| :: !Listed(lists[c := []], lists[c][i].node)
  {
  }

  lemma NotInUse(bits: seq<bv8>, n: nat, lists: Lists, k: nat)
    requires |bits| == (n + 7) / 8 && InUse(bits, n, lists) && k < n && !FixedPool.UsedIn(bits, k)
    ensures !Listed(lists, k)
  {
  }

  lemma ListedInUse(bits: seq<bv8>, n: nat, expire: seq<int>, random: seq<int>, param: seq<int>, lists: Lists, b: nat,
      i: nat)
    requires |bits| == (n + 7) / 8 && InUse(bits, n, lists) && Stored(n, expire, random, param, lists)
    requires b < |lists| && i < |lists[b]|
    ensures lists[b][i].node < n && FixedPool.UsedIn(bits, lists[b][i].node)
  {
    assert StoredAt(n, expire, random, param, lists[b][i]);
    assert Listed(lists, lists[b][i].node);
  }

  lemma InUsePush(bits: seq<bv8>, bits': seq<bv8>, n: nat, lists: Lists, b: nat, t: Timer)
    requires |bits| == |bits'| == (n + 7) / 8 && InUse(bits, n, lists) && b < |lists|
    requires forall k: nat | k < n :: FixedPool.UsedIn(bits', k) == (k == t.node || FixedPool.UsedIn(bits, k))
    ensures InUse(bits', n, PushFront(lists, b, t))
  {
    hide Listed;
    PushListed(lists, b, t);
  }

  lemma InUseRemove(bits: seq<bv8>, bits': seq<bv8>, n: nat, lists: Lists, b: nat, i: nat)
    requires |bits| == |bits'| == (n + 7) / 8 && InUse(bits, n, lists) && b < |lists| && i < |lists[b]| &&
             Separate(lists)
    requires forall k: nat | k < n :: FixedPool.UsedIn(bits', k) == (k != lists[b][i].node && FixedPool.UsedIn(bits, k))
    ensures InUse(bits', n, RemoveAt(lists, b, i))
  {
    hide Listed;
    RemoveListed(lists, b, i);
  }

  /** Moving a timer to another bucket leaves the set of listed nodes as it was. */
  lemma InUseMove(bits: seq<bv8>, n: nat, lists: Lists, src: nat, dst: nat)
    requires |bits| == (n + 7) / 8 && InUse(bits, n, lists) && src < |lists| && lists[src] != [] && Separate(lists) &&
             dst < |lists|
    ensures !Listed(RemoveAt(lists, src, 0), lists[src][0].node)
    ensures InUse(bits, n, PushFront(RemoveAt(lists, src, 0), dst, lists[src][0]))
  {
    var t := lists[src][0];
    assert Listed(lists, t.node);
    hide Listed;
    RemoveListed(lists, src, 0);
    PushListed(RemoveAt(lists, src, 0), dst, t);
  }

  /** Writing a free node's fields disturbs no pending timer. */
  lemma StoredFill(n: nat, expire: seq<int>, random: seq<int>, param: seq<int>, lists: Lists, t: Timer)
    requires Stored(n, expire, random, param, lists) && t.node < n && !Listed(lists, t.node)
    ensures Stored(n, expire[t.node := t.Due()], random[t.node := t.random], param[t.node := t.param], lists)
    ensures StoredAt(n, expire[t.node := t.Due()], random[t.node := t.random], param[t.node := t.param], t)
  {
    forall b: nat, i: nat | b < |lists| && i < |lists[b]|
      ensures StoredAt(n, expire[t.node := t.Due()], random[t.node := t.random], param[t.node := t.param], lists[b][i])
    {
      assert StoredAt(n, expire, random, param, lists[b][i]);
      assert Listed(lists, lists[b][i].node);
    }
  }

  lemma ListedHasPrev(next: seq<int>, prev: seq<int>, lists: Lists, off: int)
    requires Chains(next, prev, lists) && NODES <= off < |prev| && prev[off] == 0
    ensures !Listed(lists, off - NODES)
  {
    if b: nat, i: nat :| b < |lists| && i < |lists[b]| && lists[b][i].node == off - NODES {
      LinksAround(next, prev, lists, b, i);
    }
  }

  // ----- what Migrate computes

  /** First bucket of the wheel below the one src lies in. */
  function WheelBelow(src: nat): nat {
    if src < T3 then 0 else if src < T4 then T2 else if src < T5 then T3 else T4
  }

  /** Ticks per bucket of that wheel. */
  function Width(src: nat): (w: nat)
    ensures w > 0
  {
    if src < T3 then 1 else if src < T4 then P1 else if src < T5 then P2 else P3
  }

  lemma TargetIs(src: nat, rem: int)
    requires T2 <= src < BUCKETS
    ensures Target(src, rem) == WheelBelow(src) + MigrateIndex(rem, Width(src), if src < T3 then TB1_NUM else TB_NUM)
    ensures Target(src, rem) < T5 && Target(src, rem) != src
  {
    TargetBelow(src, rem);
  }

  lemma MigrateStep(lists: Lists, src: nat, now: int)
    requires |lists| == BUCKETS && T2 <= src < BUCKETS
    ensures lists[src] == [] ==> TimerWheel.Migrate(lists, src, now) == lists
    ensures lists[src] != [] ==>
              TimerWheel.Migrate(lists, src, now) ==
              TimerWheel.Migrate(PushFront(RemoveAt(lists, src, 0), Target(src, lists[src][0].Due() - now),
                  lists[src][0]), src, now)
  {
  }

  lemma CascadeFrom(p: TimerBuckets.Pointers, lists: Lists, now: int, k: nat)
    requires p.Valid() && |lists| == BUCKETS && 2 <= k <= 5
    ensures
      var lists' := TimerWheel.Migrate(lists, Source(p, k), now);
      Cascade(p, lists, now, k) == if k < 5 && LastBucket(p, k) then Cascade(p, lists', now, k + 1) else lists'
  {
  }
}
