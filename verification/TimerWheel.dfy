/** The timer wheel of mmlib/timer_pool/timer_pool.h as a value: which timers each of its 512
    buckets holds, in list order.  Over every run of adds, deletions and ticks no timer is lost,
    doubled, early or late. */
module TimerWheel {
  import opened Common
  import opened TimerBuckets

  /** A pending timer: the pool node it lies in, its uiRandom and TimerParam, the tick it was added
      after and its interval, and for the specification where the wheel then stood and which
      addition it was. */
  datatype Timer = Timer(node: nat, random: nat, param: int, start: int, interval: nat, from: Pointers, serial: nat) {
    function Due(): int {
      start + interval
    }

    ghost function Late(): nat
      requires from.Valid()
    {
      Slack(AddBucket(from, interval))
    }
  }

  type Lists = seq<seq<Timer>>

  // ----- operations on the lists

  /** Migrate: empties bucket src from the head on, pushing each timer to its bucket one wheel down. */
  function Migrate(lists: Lists, src: nat, now: int): (r: Lists)
    requires |lists| == BUCKETS && T2 <= src < BUCKETS
    ensures |r| == BUCKETS
    decreases |lists[src]|
  {
    if lists[src] == [] then lists
    else
      var t := lists[src][0];
      Migrate(PushFront(RemoveAt(lists, src, 0), Target(src, t.Due() - now), t), src, now)
  }

  /** The bucket of wheel TBk under its pointer. */
  function Source(p: Pointers, k: nat): (b: nat)
    requires p.Valid() && 2 <= k <= 5
    ensures T2 <= b < BUCKETS
  {
    if k == 2 then T2 + p.c2 else if k == 3 then T3 + p.c3 else if k == 4 then T4 + p.c4 else T5 + p.c5
  }

  predicate LastBucket(p: Pointers, k: nat)
    requires 2 <= k <= 5
  {
    (if k == 2 then p.c2 else if k == 3 then p.c3 else if k == 4 then p.c4 else p.c5) == 63
  }

  /** The migrations of one tick from wheel TBk on, given where the pointers were before it. */
  function Cascade(p: Pointers, lists: Lists, now: int, k: nat): (r: Lists)
    requires p.Valid() && |lists| == BUCKETS && 2 <= k <= 5
    ensures |r| == BUCKETS
    decreases 5 - k
  {
    var lists' := Migrate(lists, Source(p, k), now);
    if k < 5 && LastBucket(p, k) then Cascade(p, lists', now, k + 1) else lists'
  }

  datatype Wheel = Wheel(p: Pointers, now: int, lists: Lists) {
    predicate WellFormed() {
      p.Valid() && |lists| == BUCKETS
    }

    /** The pointers turn by one and the buckets that come up move down, after the fired timers
        have left. */
    function Turn(left: Lists): (w: Wheel)
      requires WellFormed() && |left| == BUCKETS
      ensures w.WellFormed() && w.now == now + 1
    {
      Wheel(p.Next(), now + 1, if p.c1 < 255 then left else Cascade(p, left, now + 1, 2))
    }

    /** One call of GetTimerInternal, at tick now + 1.  An empty wheel stands still. */
    function Tick(): (r: (Wheel, seq<Timer>))
      requires WellFormed()
      ensures r.0.WellFormed() && r.0.now == now + 1
    {
      if Total(lists) == 0 then (this.(now := now + 1), [])
      else
        var fired := lists[p.c1];
        var left := lists[p.c1 := []];
        if Total(left) == 0 then (Wheel(p, now + 1, left), fired)
        else (Turn(left), fired)
    }

    ghost predicate AllOnTime()
      requires WellFormed()
    {
      forall b: nat, t | b < BUCKETS && t in lists[b] ::
        t.from.Valid() && OnTime(p, b, t.Due() - now, t.Late())
    }
  }

  /** All pending timers, with repetitions if there were any. */
  ghost function Pending(lists: Lists): (m: multiset<Timer>)
    ensures |m| == Total(lists)
  {
    if lists == [] then multiset{} else Pending(lists[..|lists| - 1]) + multiset(lists[|lists| - 1])
  }

  lemma AddBoth<T>(a: multiset<T>, b: multiset<T>, c: multiset<T>, d: multiset<T>, e: multiset<T>)
    requires a + b == c + d
    ensures (a + e) + b == (c + e) + d
  {
    forall t: T
      ensures ((a + e) + b)[t] == ((c + e) + d)[t]
    {
      assert (a + b)[t] == (c + d)[t];
    }
  }

  lemma CancelBoth<T>(a: multiset<T>, b: multiset<T>, c: multiset<T>, d: multiset<T>)
    requires a + b == c + (d + b)
    ensures a == c + d
  {
    forall t: T
      ensures a[t] == (c + d)[t]
    {
      assert (a + b)[t] == (c + (d + b))[t];
    }
  }

  lemma {:induction false} PendingUpdate(lists: Lists, b: nat, l: seq<Timer>)
    requires b < |lists|
    ensures Pending(lists[b := l]) + multiset(lists[b]) == Pending(lists) + multiset(l)
  {
    var lists', last := lists[b := l], |lists| - 1;
    if b == last {
      assert lists'[..last] == lists[..last];
    } else {
      PendingUpdate(lists[..last], b, l);
      assert lists'[..last] == lists[..last][b := l];
      assert lists'[last] == lists[last] && lists[..last][b] == lists[b];
      AddBoth(Pending(lists'[..last]), multiset(lists[b]), Pending(lists[..last]), multiset(l), multiset(lists[last]));
    }
  }

  lemma {:induction false} PendingIn(lists: Lists, t: Timer)
    ensures t in Pending(lists) <==> exists b: nat :: b < |lists| && t in lists[b]
  {
    if lists != [] {
      var last := |lists| - 1;
      PendingIn(lists[..last], t);
      if b: nat :| b < |lists[..last]| && t in lists[..last][b] {
        assert t in lists[b];
      }
      if b: nat :| b < |lists| && t in lists[b] {
        if b < last {
          assert t in lists[..last][b];
        }
      }
    }
  }

  lemma PushPending(lists: Lists, b: nat, t: Timer)
    requires b < |lists|
    ensures Pending(PushFront(lists, b, t)) == Pending(lists) + multiset{t}
  {
    hide Pending;
    PendingUpdate(lists, b, [t] + lists[b]);
    CancelBoth(Pending(PushFront(lists, b, t)), multiset(lists[b]), Pending(lists), multiset{t});
  }

  lemma RemovePending(lists: Lists, b: nat, i: nat)
    requires b < |lists| && i < |lists[b]|
    ensures Pending(RemoveAt(lists, b, i)) + multiset{lists[b][i]} == Pending(lists)
  {
    hide Pending;
    var l := lists[b];
    var l' := l[..i] + l[i + 1..];
    PendingUpdate(lists, b, l');
    assert l == l[..i] + [l[i]] + l[i + 1..];
    CancelBoth(Pending(lists), multiset(l'), Pending(RemoveAt(lists, b, i)), multiset{l[i]});
  }

  /** Migrating neither loses nor doubles a timer. */
  lemma {:induction false} MigratePending(lists: Lists, src: nat, now: int)
    requires |lists| == BUCKETS && T2 <= src < BUCKETS
    ensures Pending(Migrate(lists, src, now)) == Pending(lists)
    decreases |lists[src]|
  {
    hide Target, Pending;
    if lists[src] != [] {
      var t := lists[src][0];
      var dst := Target(src, t.Due() - now);
      TargetBelow(src, t.Due() - now);
      RemovePending(lists, src, 0);
      PushPending(RemoveAt(lists, src, 0), dst, t);
      MigratePending(PushFront(RemoveAt(lists, src, 0), dst, t), src, now);
    }
  }

  lemma {:induction false} CascadePending(p: Pointers, lists: Lists, now: int, k: nat)
    requires p.Valid() && |lists| == BUCKETS && 2 <= k <= 5
    ensures Pending(Cascade(p, lists, now, k)) == Pending(lists)
    decreases 5 - k
  {
    hide Pending, Migrate, Source;
    MigratePending(lists, Source(p, k), now);
    if k < 5 && LastBucket(p, k) {
      CascadePending(p, Migrate(lists, Source(p, k), now), now, k + 1);
    }
  }

  /** First bucket of the wheel above the one b lies in. */
  function WheelEnd(b: nat): nat {
    if b < T2 then T2 else if b < T3 then T3 else if b < T4 then T4 else if b < T5 then T5 else BUCKETS
  }

  lemma TargetBelow(b: nat, rem: int)
    requires T2 <= b < BUCKETS
    ensures WheelEnd(Target(b, rem)) <= b
    ensures Target(b, rem) < b
  {
  }

  // ----- deadlines

  /** In the middle of a tick: timers in the buckets that satisfy early are still where they were,
      all others are where they belong after it. */
  ghost predicate Midway(p: Pointers, lists: Lists, now: int, early: nat -> bool)
    requires p.Valid() && |lists| == BUCKETS
  {
    forall b: nat, t | b < BUCKETS && t in lists[b] ::
      t.from.Valid()
      && if early(b) then OnTime(p, b, t.Due() - now + 1, t.Late()) else OnTime(p.Next(), b, t.Due() - now, t.Late())
  }

  /** The buckets of TB2 .. TB5 that come up, from bucket lim on. */
  ghost function Sources(p: Pointers, lim: nat): nat -> bool
    requires p.Valid()
  {
    (b: nat) => lim <= b < BUCKETS && Calls(p, b) == 1
  }

  lemma {:induction false} MigrateOnTime(p: Pointers, lists: Lists, src: nat, now: int, lim: nat)
    requires p.Valid() && |lists| == BUCKETS && T2 <= src < lim && src < BUCKETS && Calls(p, src) == 1
    requires Midway(p, lists, now, (b: nat) => b == src || Sources(p, lim)(b))
    ensures Midway(p, Migrate(lists, src, now), now, Sources(p, lim))
    decreases |lists[src]|
  {
    hide OnTime, Calls, Target, Slack, AddBucket;
    if lists[src] != [] {
      var t := lists[src][0];
      var dst := Target(src, t.Due() - now);
      TargetBelow(src, t.Due() - now);
      assert t in lists[src];
      MoveOnTime(p, src, t.Due() - now + 1, t.Late());
      var lists' := PushFront(RemoveAt(lists, src, 0), dst, t);
      forall b: nat, u | b < BUCKETS && u in lists'[b]
        ensures u in lists[b] || (b == dst && u == t)
      {
      }
      assert !(dst == src || Sources(p, lim)(dst));
      MigrateOnTime(p, lists', src, now, lim);
    }
  }

  /** Every wheel below TBk is at its last bucket, so that TBk's pointer turns too. */
  predicate Reached(p: Pointers, k: nat)
    requires 2 <= k <= 6
  {
    p.c1 == 255 && (k > 2 ==> p.c2 == 63) && (k > 3 ==> p.c3 == 63) && (k > 4 ==> p.c4 == 63)
  }

  function Start(k: nat): nat
    requires 2 <= k <= 6
  {
    if k == 2 then T2 else if k == 3 then T3 else if k == 4 then T4 else if k == 5 then T5 else BUCKETS
  }

  /** In each wheel at most one bucket comes up. */
  lemma OneSource(p: Pointers, k: nat, b: nat)
    requires p.Valid() && 2 <= k <= 5 && Start(k) <= b < BUCKETS
    ensures Calls(p, b) == 1 && b < Start(k + 1) <==> Reached(p, k) && b == Source(p, k)
    ensures Calls(p, b) == 1 && b >= Start(k + 1) ==> k < 5 && Reached(p, k + 1)
  {
    ComesUp(p, b);
  }

  lemma {:induction false} CascadeOnTime(p: Pointers, lists: Lists, now: int, k: nat)
    requires p.Valid() && |lists| == BUCKETS && 2 <= k <= 5 && Reached(p, k)
    requires Midway(p, lists, now, Sources(p, Start(k)))
    ensures Midway(p, Cascade(p, lists, now, k), now, _ => false)
    decreases 5 - k
  {
    hide OnTime, Calls, Slack, AddBucket, Migrate, Source;
    var src := Source(p, k);
    SourceInside(p, k);
    forall b: nat | b < BUCKETS
      ensures Sources(p, Start(k))(b) == (b == src || Sources(p, Start(k + 1))(b))
    {
      if b >= Start(k) {
        OneSource(p, k, b);
      }
    }
    OneSource(p, k, src);
    MigrateOnTime(p, lists, src, now, Start(k + 1));
    if k < 5 && LastBucket(p, k) {
      CascadeOnTime(p, Migrate(lists, src, now), now, k + 1);
    } else {
      var lists' := Migrate(lists, src, now);
      forall b: nat, t | b < BUCKETS && t in lists'[b]
        ensures !Sources(p, Start(k + 1))(b)
      {
        if b >= Start(k + 1) {
          OneSource(p, k, b);
        }
      }
    }
  }

  lemma SourceInside(p: Pointers, k: nat)
    requires p.Valid() && 2 <= k <= 5
    ensures Start(k) <= Source(p, k) < Start(k + 1)
  {
  }

  /** Unless TB1 is at its last bucket nothing moves. */
  lemma NoCascade(p: Pointers, b: nat)
    requires p.Valid() && T2 <= b < BUCKETS && p.c1 < 255
    ensures Calls(p, b) != 1
  {
    ComesUp(p, b);
  }

  /** Before any bucket is moved, the others are already where they belong after the tick. */
  lemma TickBegins(w: Wheel)
    requires w.WellFormed() && w.AllOnTime()
    ensures Midway(w.p, w.lists[w.p.c1 := []], w.now + 1, Sources(w.p, T2))
  {
    hide OnTime, Calls, Slack, AddBucket;
    var lists := w.lists[w.p.c1 := []];
    forall b: nat, t: Timer | b < BUCKETS && t in lists[b] && !Sources(w.p, T2)(b)
      ensures OnTime(w.p.Next(), b, t.Due() - (w.now + 1), t.Late())
    {
      assert t in w.lists[b];
      ComesUp(w.p, b);
      StayOnTime(w.p, b, t.Due() - w.now, t.Late());
    }
  }

  lemma {:induction false} TotalZero(lists: Lists)
    requires Total(lists) == 0
    ensures forall b: nat | b < |lists| :: lists[b] == []
  {
    if lists != [] {
      TotalZero(lists[..|lists| - 1]);
      forall b: nat | b < |lists|
        ensures lists[b] == []
      {
        assert b < |lists| - 1 ==> lists[..|lists| - 1][b] == lists[b];
      }
    }
  }

  /** The pointers' turn, with the cascade it may start. */
  lemma TurnOnTime(w: Wheel, left: Lists)
    requires w.WellFormed() && w.AllOnTime() && left == w.lists[w.p.c1 := []]
    ensures w.Turn(left).WellFormed() && w.Turn(left).AllOnTime()
  {
    hide OnTime, Calls, Slack, AddBucket, Cascade, Source;
    TickBegins(w);
    if w.p.c1 == 255 {
      CascadeOnTime(w.p, left, w.now + 1, 2);
    } else {
      forall b: nat | T2 <= b < BUCKETS
        ensures Calls(w.p, b) != 1
      {
        NoCascade(w.p, b);
      }
    }
  }

  /** A tick keeps every remaining timer on time, and what it fires is due. */
  lemma TickOnTime(w: Wheel)
    requires w.WellFormed() && w.AllOnTime()
    ensures w.Tick().0.AllOnTime()
    ensures forall t | t in w.Tick().1 :: t.from.Valid() && t.Due() <= w.now + 1 <= t.Due() + t.Late()
  {
    hide OnTime, Calls, Slack, AddBucket, Wheel.Turn, Total;
    var left := w.lists[w.p.c1 := []];
    if Total(w.lists) == 0 {
      TotalZero(w.lists);
    } else {
      FiredDue(w);
      if Total(left) == 0 {
        TotalZero(left);
      } else {
        TurnOnTime(w, left);
      }
    }
  }

  lemma FiredDue(w: Wheel)
    requires w.WellFormed() && w.AllOnTime()
    ensures forall t | t in w.lists[w.p.c1] :: t.from.Valid() && t.Due() <= w.now + 1 <= t.Due() + t.Late()
  {
  }

  lemma TickPending(w: Wheel)
    requires w.WellFormed()
    ensures Pending(w.lists) == Pending(w.Tick().0.lists) + multiset(w.Tick().1)
  {
    hide Pending, Total;
    if Total(w.lists) != 0 {
      PendingUpdate(w.lists, w.p.c1, []);
      if w.p.c1 == 255 {
        CascadePending(w.p, w.lists[w.p.c1 := []], w.now + 1, 2);
      }
    }
  }

  // ----- runs

  /** A wheel with its history: every timer ever added, the fired ones with their ticks, and the
      deleted ones. */
  datatype System = System(w: Wheel, added: seq<Timer>, fired: seq<Timer>, firedAt: seq<int>, deleted: seq<Timer>)

  ghost predicate Initial(s: System) {
    && s.w.WellFormed() && (forall b: nat | b < BUCKETS :: s.w.lists[b] == [])
    && s.added == [] && s.fired == [] && s.firedAt == [] && s.deleted == []
  }

  /** AddTimer with an interval of d ticks, into a free node. */
  ghost predicate Add(s: System, s': System, t: Timer) {
    && s.w.WellFormed()
    && t.start == s.w.now && t.from == s.w.p && t.serial == |s.added|
    && 0 <= t.interval <= 0x1_0000_0000 / 10
    && s' == s.(w := s.w.(lists := PushFront(s.w.lists, AddBucket(s.w.p, t.interval), t)), added := s.added + [t])
  }

  ghost predicate Delete(s: System, s': System, b: nat, i: nat) {
    && s.w.WellFormed() && b < BUCKETS && i < |s.w.lists[b]|
    && s' == s.(w := s.w.(lists := RemoveAt(s.w.lists, b, i)), deleted := s.deleted + [s.w.lists[b][i]])
  }

  ghost predicate Elapse(s: System, s': System) {
    && s.w.WellFormed()
    && var (w, fired) := s.w.Tick();
       s' == s.(w := w, fired := s.fired + fired, firedAt := s.firedAt + seq(|fired|, _ => w.now))
  }

  ghost predicate Next(s: System, s': System) {
    || (exists t :: Add(s, s', t))
    || (exists b, i :: Delete(s, s', b, i))
    || Elapse(s, s')
  }

  ghost predicate Run(states: seq<System>) {
    && |states| > 0 && Initial(states[0])
    && forall i | 0 <= i < |states| - 1 :: Next(states[i], states[i + 1])
  }

  ghost predicate Inv(s: System) {
    && s.w.WellFormed() && s.w.AllOnTime()
    && Pending(s.w.lists) + multiset(s.fired) + multiset(s.deleted) == multiset(s.added)
    && (forall i | 0 <= i < |s.added| :: s.added[i].serial == i && Accepted(s.added[i]))
    && |s.firedAt| == |s.fired|
    && forall i | 0 <= i < |s.fired| :: Met(s.fired[i], s.firedAt[i])
  }

  /** t was added with an interval that AddTimer can be given. */
  ghost predicate Accepted(t: Timer) {
    t.from.Valid() && t.interval <= 0x1_0000_0000 / 10
  }

  /** t met its deadline by firing at this tick. */
  ghost predicate Met(t: Timer, tick: int) {
    t.from.Valid() && t.Due() <= tick <= t.Due() + t.Late()
  }

  lemma AddKeeps(s: System, s': System, t: Timer)
    requires Inv(s) && Add(s, s', t)
    ensures Inv(s')
  {
    hide OnTime, Calls, Pending, AddBucket, Slack;
    var b := AddBucket(s.w.p, t.interval);
    PushPending(s.w.lists, b, t);
    AddOnTime(s.w.p, t.interval);
    forall c: nat, u | c < BUCKETS && u in s'.w.lists[c]
      ensures u in s.w.lists[c] || (c == b && u == t)
    {
    }
  }

  lemma DeleteKeeps(s: System, s': System, b: nat, i: nat)
    requires Inv(s) && Delete(s, s', b, i)
    ensures Inv(s')
  {
    hide OnTime, Calls, Pending, AddBucket, Slack;
    RemovePending(s.w.lists, b, i);
    forall c: nat, u | c < BUCKETS && u in s'.w.lists[c]
      ensures u in s.w.lists[c]
    {
    }
  }

  lemma ElapseKeeps(s: System, s': System)
    requires Inv(s) && Elapse(s, s')
    ensures Inv(s')
  {
    hide OnTime, Calls, Pending, AddBucket, Slack, Wheel.Tick, Wheel.AllOnTime;
    TickOnTime(s.w);
    TickPending(s.w);
    var fired := s.w.Tick().1;
    forall i | 0 <= i < |s'.fired|
      ensures Met(s'.fired[i], s'.firedAt[i])
    {
      if i >= |s.fired| {
        assert s'.fired[i] == fired[i - |s.fired|];
        assert s'.fired[i] in fired;
      }
    }
  }

  lemma {:induction false} RunInv(states: seq<System>)
    requires Run(states)
    ensures Inv(states[|states| - 1])
  {
    hide Inv, Add, Delete, Elapse;
    var last := |states| - 1;
    if last == 0 {
      InitialInv(states[0]);
    } else {
      var s, s' := states[last - 1], states[last];
      RunInv(states[..last]);
      assert Next(s, s');
      if t :| Add(s, s', t) {
        AddKeeps(s, s', t);
      } else if b, i :| Delete(s, s', b, i) {
        DeleteKeeps(s, s', b, i);
      } else {
        ElapseKeeps(s, s');
      }
    }
  }

  lemma InitialInv(s: System)
    requires Initial(s)
    ensures Inv(s)
  {
    EmptyPending(s.w.lists);
  }

  lemma {:induction false} EmptyPending(lists: Lists)
    requires forall b: nat | b < |lists| :: lists[b] == []
    ensures Pending(lists) == multiset{}
  {
    if lists != [] {
      EmptyPending(lists[..|lists| - 1]);
    }
  }

  lemma {:induction false} OnceAdded(added: seq<Timer>, t: Timer)
    requires forall i | 0 <= i < |added| :: added[i].serial == i
    ensures multiset(added)[t] <= 1
  {
    if added != [] {
      var last := |added| - 1;
      assert added == added[..last] + [added[last]];
      OnceAdded(added[..last], t);
      if t == added[last] {
        assert t !in added[..last];
      }
    }
  }

  /** Conservation: in every reachable state an added timer is pending in one place of one bucket,
      or was fired once, or was deleted once, and only one of these; and nothing else is. */
  lemma Conservation(states: seq<System>, t: Timer)
    requires Run(states)
    ensures
      var s := states[|states| - 1];
      Pending(s.w.lists)[t] + multiset(s.fired)[t] + multiset(s.deleted)[t] == if t in s.added then 1 else 0
  {
    RunInv(states);
    var s := states[|states| - 1];
    OnceAdded(s.added, t);
    assert (Pending(s.w.lists) + multiset(s.fired) + multiset(s.deleted))[t] == multiset(s.added)[t];
  }

  lemma PendingNotOverdue(p: Pointers, b: nat, rem: int, slack: nat)
    requires p.Valid() && b < BUCKETS && OnTime(p, b, rem, slack)
    ensures rem + slack > 0
  {
  }

  /** Deadlines, over every run: a timer fires only in its window of ticks, and once the window is
      over it is no longer pending.  The window is two ticks wide for every interval that
      ExactRange gives. */
  lemma Deadline(states: seq<System>, t: Timer)
    requires Run(states)
    ensures
      var s := states[|states| - 1];
      && |s.firedAt| == |s.fired|
      && (forall i | 0 <= i < |s.fired| && s.fired[i] == t ::
           t.from.Valid() && t.Due() <= s.firedAt[i] <= t.Due() + t.Late())
      && (t in Pending(s.w.lists) ==> t.from.Valid() && s.w.now < t.Due() + t.Late())
  {
    hide OnTime, AddBucket, Slack, Pending;
    RunInv(states);
    var s := states[|states| - 1];
    PendingIn(s.w.lists, t);
    if b: nat :| b < BUCKETS && t in s.w.lists[b] {
      PendingNotOverdue(s.w.p, b, t.Due() - s.w.now, t.Late());
    }
  }

  /** With an interval below the range of TB4 a timer that is not deleted has fired exactly once,
      on the d-th or the next tick after it was added, as soon as those ticks have gone by. */
  lemma FiresOnTime(states: seq<System>, t: Timer)
    requires Run(states)
    requires
      var s := states[|states| - 1];
      t in s.added && t !in s.deleted && s.w.now > t.start + t.interval
    requires t.interval < P1 || t.interval < (TB1_NUM - t.from.c1) + (TB_NUM - t.from.c2) * P1 + P3
    ensures
      var s := states[|states| - 1];
      && multiset(s.fired)[t] == 1
      && |s.firedAt| == |s.fired|
      && forall i | 0 <= i < |s.fired| && s.fired[i] == t ::
           s.firedAt[i] == t.start + t.interval || s.firedAt[i] == t.start + t.interval + 1
  {
    hide AddBucket, Slack, Pending, Run;
    RunInv(states);
    ExactRange(t.from, t.interval);
    Conservation(states, t);
    Deadline(states, t);
  }
}
