/** Where the hierarchical timer wheel (mmlib/timer_pool/timer_pool.h) puts a timer, when its bucket
    comes up, and how the two fit: the arithmetic behind the deadlines.

    The clock is idealised: one call of GetTimerInternal per 10 ms tick, all times in ticks.
    Buckets are numbered as they lie in memory: 256 of wheel TB1, then 64 each of TB2 .. TB5. */
module TimerBuckets {
  import opened Common

  const TB1_NUM := 256
  const TB_NUM := 64
  const BUCKETS := 512

  const T2 := 256       // first bucket of TB2
  const T3 := 320
  const T4 := 384
  const T5 := 448

  // ticks per bucket of TB2 .. TB5
  const P1 := 0x100
  const P2 := 0x4000
  const P3 := 0x10_0000
  const P4 := 0x400_0000

  /** uiTB1CurPt .. uiTB5CurPt. */
  datatype Pointers = Pointers(c1: nat, c2: nat, c3: nat, c4: nat, c5: nat) {
    predicate Valid() {
      c1 < TB1_NUM && c2 < TB_NUM && c3 < TB_NUM && c4 < TB_NUM && c5 < TB_NUM
    }

    /** One turn of TB1, with its carries. */
    function Next(): (p: Pointers)
      requires Valid()
      ensures p.Valid()
    {
      if c1 + 1 < TB1_NUM then this.(c1 := c1 + 1)
      else if c2 + 1 < TB_NUM then Pointers(0, c2 + 1, c3, c4, c5)
      else if c3 + 1 < TB_NUM then Pointers(0, 0, c3 + 1, c4, c5)
      else if c4 + 1 < TB_NUM then Pointers(0, 0, 0, c4 + 1, c5)
      else Pointers(0, 0, 0, 0, (c5 + 1) % TB_NUM)
    }
  }

  /** Steps from c forward to i around a wheel of n buckets. */
  function Ahead(i: nat, c: nat, n: nat): (k: nat)
    requires i < n && c < n
    ensures k < n
  {
    if i >= c then i - c else i - c + n
  }

  /** In how many calls of GetTimerInternal bucket b comes up: is fired if it is in TB1, moved down
      a wheel otherwise. */
  function Calls(p: Pointers, b: nat): (m: nat)
    requires p.Valid() && b < BUCKETS
    ensures m >= 1
  {
    if b < T2 then Ahead(b, p.c1, TB1_NUM) + 1
    else if b < T3 then TB1_NUM - p.c1 + P1 * Ahead(b - T2, p.c2, TB_NUM)
    else if b < T4 then TB1_NUM - p.c1 + P1 * (63 - p.c2) + P2 * Ahead(b - T3, p.c3, TB_NUM)
    else if b < T5 then
      TB1_NUM - p.c1 + P1 * (63 - p.c2) + P2 * (63 - p.c3) + P3 * Ahead(b - T4, p.c4, TB_NUM)
    else
      TB1_NUM - p.c1 + P1 * (63 - p.c2) + P2 * (63 - p.c3) + P3 * (63 - p.c4) + P4 * Ahead(b - T5, p.c5, TB_NUM)
  }

  // ----- AddTimer

  /** The bucket AddTimer picks for an interval of d ticks, in unsigned arithmetic. */
  function AddBucket(p: Pointers, d: nat): (b: nat)
    requires p.Valid()
    ensures b < BUCKETS
  {
    if d / P1 == 0 then (p.c1 + d) % TB1_NUM
    else
      var r1 := U32(d - (TB1_NUM - p.c1));
      if r1 / P2 == 0 then T2 + (p.c2 + r1 / P1) % TB_NUM
      else
        var r2 := U32(r1 - (TB_NUM - p.c2) * P1);
        if r2 / P3 == 0 then T3 + (p.c3 + r2 / P2) % TB_NUM
        else
          var r3 := U32(r2 - (TB_NUM - p.c3) * P2);
          if r3 / P4 == 0 then T4 + (p.c4 + r3 / P3) % TB_NUM
          else
            var r4 := U32(r3 - (TB_NUM - p.c4) * P3);
            T5 + (p.c5 + r4 / P4) % TB_NUM
  }

  /** How late a timer can be: one tick in TB1 .. TB3, more when it starts higher up. */
  function Slack(b: nat): nat {
    if b < T4 then 1 else if b < T5 then 257 else 16641
  }

  /** A timer due in rem ticks is on time in bucket b: it will not fire early, and it will fire at
      most slack ticks late. */
  predicate OnTime(p: Pointers, b: nat, rem: int, slack: nat)
    requires p.Valid() && b < BUCKETS
  {
    var m := Calls(p, b);
    && slack >= 1
    && if b < T2 then rem <= m <= rem + slack
       else if b < T3 then rem - m <= 255 && m + 1 - rem <= slack
       else if b < T4 then rem - m <= P2 + 255 && (rem - m >= P1 || m + P1 + 1 - rem <= slack)
       else if b < T5 then
         rem - m <= P3 + P2 + 255 && rem - m >= 0 && slack >= 257 && (rem - m >= P2 || m + P2 + P1 + 1 - rem <= slack)
       else rem - m <= P4 + P3 + P2 + 255 && rem - m >= P3 && slack >= 16641
  }

  lemma ModWheel(c: nat, k: nat, n: nat)
    requires c < n && k < n && (n == TB1_NUM || n == TB_NUM)
    ensures (c + k) % n == if c + k < n then c + k else c + k - n
    ensures Ahead((c + k) % n, c, n) == k
  {
    if n == TB1_NUM {
      assert (c + k) % TB1_NUM == if c + k < TB1_NUM then c + k else c + k - TB1_NUM;
    } else {
      assert (c + k) % TB_NUM == if c + k < TB_NUM then c + k else c + k - TB_NUM;
    }
  }

  lemma AddSecond(p: Pointers, r1: nat)
    requires p.Valid() && r1 < P2
    ensures OnTime(p, T2 + (p.c2 + r1 / P1) % TB_NUM, r1 + (TB1_NUM - p.c1), 1)
  {
    ModWheel(p.c2, r1 / P1, TB_NUM);
  }

  lemma AddThird(p: Pointers, r2: nat)
    requires p.Valid() && r2 < P3
    ensures OnTime(p, T3 + (p.c3 + r2 / P2) % TB_NUM, r2 + (TB_NUM - p.c2) * P1 + (TB1_NUM - p.c1), 1)
  {
    ModWheel(p.c3, r2 / P2, TB_NUM);
  }

  lemma AddFourth(p: Pointers, r3: nat)
    requires p.Valid() && r3 < P4
    ensures OnTime(p, T4 + (p.c4 + r3 / P3) % TB_NUM,
                   r3 + (TB_NUM - p.c3) * P2 + (TB_NUM - p.c2) * P1 + (TB1_NUM - p.c1), 257)
  {
    ModWheel(p.c4, r3 / P3, TB_NUM);
  }

  lemma AddFifth(p: Pointers, r4: nat)
    requires p.Valid() && r4 < 64 * P4
    ensures OnTime(p, T5 + (p.c5 + r4 / P4) % TB_NUM,
                   r4 + (TB_NUM - p.c4) * P3 + (TB_NUM - p.c3) * P2 + (TB_NUM - p.c2) * P1 + (TB1_NUM - p.c1), 16641)
  {
    ModWheel(p.c5, r4 / P4, TB_NUM);
  }

  // what is left of an interval on the way up the wheels, in exact arithmetic

  function Rest1(p: Pointers, d: nat): int {
    d - (TB1_NUM - p.c1)
  }

  function Rest2(p: Pointers, d: nat): int {
    Rest1(p, d) - (TB_NUM - p.c2) * P1
  }

  function Rest3(p: Pointers, d: nat): int {
    Rest2(p, d) - (TB_NUM - p.c3) * P2
  }

  function Rest4(p: Pointers, d: nat): int {
    Rest3(p, d) - (TB_NUM - p.c4) * P3
  }

  /** None of the differences that AddTimer forms is negative. */
  predicate NoUnderflow(p: Pointers, d: nat) {
    && (d / P1 != 0 ==> Rest1(p, d) >= 0)
    && (d / P1 != 0 && Rest1(p, d) / P2 != 0 ==> Rest2(p, d) >= 0)
    && (d / P1 != 0 && Rest1(p, d) / P2 != 0 && Rest2(p, d) / P3 != 0 ==> Rest3(p, d) >= 0)
    && (d / P1 != 0 && Rest1(p, d) / P2 != 0 && Rest2(p, d) / P3 != 0 && Rest3(p, d) / P4 != 0 ==> Rest4(p, d) >= 0)
  }

  lemma NeverUnderflows(p: Pointers, d: nat)
    requires p.Valid()
    ensures NoUnderflow(p, d)
  {
  }

  lemma Exact(p: Pointers, d: nat, v: int)
    requires p.Valid() && d <= 0x1_0000_0000 / 10 && v >= 0
    requires v == Rest1(p, d) || v == Rest2(p, d) || v == Rest3(p, d) || v == Rest4(p, d)
    ensures U32(v) == v
  {
  }

  /** The level-by-level subtractions never underflow, and the timer starts on time, for every
      interval a 32-bit millisecond count can express. */
  lemma AddOnTime(p: Pointers, d: nat)
    requires p.Valid() && d <= 0x1_0000_0000 / 10
    ensures NoUnderflow(p, d)
    ensures OnTime(p, AddBucket(p, d), d, Slack(AddBucket(p, d)))
  {
    NeverUnderflows(p, d);
    hide OnTime, U32, Calls, Ahead;
    if d / P1 == 0 {
      AddFirst(p, d);
    } else {
      AddAbove(p, d);
    }
  }

  lemma AddAbove(p: Pointers, d: nat)
    requires p.Valid() && P1 <= d <= 0x1_0000_0000 / 10 && NoUnderflow(p, d)
    ensures OnTime(p, AddBucket(p, d), d, Slack(AddBucket(p, d)))
  {
    hide OnTime, U32, Calls, Ahead;
    var r1 := Rest1(p, d);
    Exact(p, d, r1);
    if r1 / P2 == 0 {
      AddSecond(p, r1);
    } else {
      var r2 := Rest2(p, d);
      Exact(p, d, r2);
      if r2 / P3 == 0 {
        AddThird(p, r2);
      } else {
        var r3 := Rest3(p, d);
        Exact(p, d, r3);
        if r3 / P4 == 0 {
          AddFourth(p, r3);
        } else {
          var r4 := Rest4(p, d);
          Exact(p, d, r4);
          AddFifth(p, r4);
        }
      }
    }
  }

  lemma AddFirst(p: Pointers, d: nat)
    requires p.Valid() && d < P1
    ensures OnTime(p, (p.c1 + d) % TB1_NUM, d, 1)
  {
    ModWheel(p.c1, d, TB1_NUM);
  }

  /** Which timers have a one-tick deadline: those that start in TB1 .. TB3. */
  lemma ExactRange(p: Pointers, d: nat)
    requires p.Valid() && d <= 0x1_0000_0000 / 10
    ensures Slack(AddBucket(p, d)) == 1 <==>
            d < P1 || d < (TB1_NUM - p.c1) + (TB_NUM - p.c2) * P1 + P3
  {
  }

  // ----- a tick

  /** Every other bucket comes one call closer. */
  lemma CallsNext(p: Pointers, b: nat)
    requires p.Valid() && b < BUCKETS && Calls(p, b) > 1
    ensures Calls(p.Next(), b) == Calls(p, b) - 1
  {
    hide Ahead;
    if b < T2 {
      AheadNext(b, p.c1, TB1_NUM);
    } else if b < T3 {
      AheadNext(b - T2, p.c2, TB_NUM);
    } else if b < T4 {
      AheadNext(b - T3, p.c3, TB_NUM);
    } else if b < T5 {
      AheadNext(b - T4, p.c4, TB_NUM);
    } else {
      AheadNext(b - T5, p.c5, TB_NUM);
    }
  }

  lemma AheadNext(i: nat, c: nat, n: nat)
    requires i < n && c < n
    ensures Ahead(i, c, n) > 0 ==> Ahead(i, if c + 1 < n then c + 1 else 0, n) == Ahead(i, c, n) - 1
  {
  }

  lemma StayOnTime(p: Pointers, b: nat, rem: int, slack: nat)
    requires p.Valid() && b < BUCKETS && Calls(p, b) > 1 && OnTime(p, b, rem, slack)
    ensures OnTime(p.Next(), b, rem - 1, slack)
  {
    hide Calls;
    CallsNext(p, b);
  }

  /** A bucket comes up in this call exactly when it is under its wheel's pointer and all lower
      wheels are at their last bucket. */
  lemma ComesUp(p: Pointers, b: nat)
    requires p.Valid() && b < BUCKETS
    ensures Calls(p, b) == 1 <==>
      if b < T2 then b == p.c1
      else if b < T3 then p.c1 == 255 && b == T2 + p.c2
      else if b < T4 then p.c1 == 255 && p.c2 == 63 && b == T3 + p.c3
      else if b < T5 then p.c1 == 255 && p.c2 == 63 && p.c3 == 63 && b == T4 + p.c4
      else p.c1 == 255 && p.c2 == 63 && p.c3 == 63 && p.c4 == 63 && b == T5 + p.c5
  {
  }

  /** The bucket offset Migrate computes in a wheel of num buckets of width ticks each, for a timer
      with rem ticks left (0 when it is overdue). */
  function MigrateIndex(rem: int, width: nat, num: nat): (i: nat)
    requires width > 0 && num > 0
    ensures i < num
  {
    var interval := (if rem > 0 then rem else 0) / width;
    var i := if interval > 0 then interval - 1 else interval;
    if i >= num then num - 1 else i
  }

  /** Where a timer in a bucket of TB2 .. TB5 goes when the bucket comes up. */
  function Target(b: nat, rem: int): (t: nat)
    requires T2 <= b < BUCKETS
    ensures t < T5
  {
    if b < T3 then MigrateIndex(rem, 1, TB1_NUM)
    else if b < T4 then T2 + MigrateIndex(rem, P1, TB_NUM)
    else if b < T5 then T3 + MigrateIndex(rem, P2, TB_NUM)
    else T4 + MigrateIndex(rem, P3, TB_NUM)
  }

  lemma MoveToFirst(p: Pointers, b: nat, rem: int, slack: nat)
    requires p.Valid() && T2 <= b < T3 && Calls(p, b) == 1 && OnTime(p, b, rem, slack)
    ensures OnTime(p.Next(), Target(b, rem - 1), rem - 1, slack)
  {
    ComesUp(p, b);
  }

  lemma MoveToSecond(p: Pointers, b: nat, rem: int, slack: nat)
    requires p.Valid() && T3 <= b < T4 && Calls(p, b) == 1 && OnTime(p, b, rem, slack)
    ensures OnTime(p.Next(), Target(b, rem - 1), rem - 1, slack)
  {
    ComesUp(p, b);
  }

  lemma MoveToThird(p: Pointers, b: nat, rem: int, slack: nat)
    requires p.Valid() && T4 <= b < T5 && Calls(p, b) == 1 && OnTime(p, b, rem, slack)
    ensures OnTime(p.Next(), Target(b, rem - 1), rem - 1, slack)
  {
    ComesUp(p, b);
  }

  lemma MoveToFourth(p: Pointers, b: nat, rem: int, slack: nat)
    requires p.Valid() && T5 <= b < BUCKETS && Calls(p, b) == 1 && OnTime(p, b, rem, slack)
    ensures OnTime(p.Next(), Target(b, rem - 1), rem - 1, slack)
  {
    ComesUp(p, b);
  }

  /** Moving down a wheel keeps a timer on time, at every level. */
  lemma MoveOnTime(p: Pointers, b: nat, rem: int, slack: nat)
    requires p.Valid() && T2 <= b < BUCKETS && Calls(p, b) == 1
    requires OnTime(p, b, rem, slack)
    ensures OnTime(p.Next(), Target(b, rem - 1), rem - 1, slack)
  {
    hide *;
    if b < T3 {
      MoveToFirst(p, b, rem, slack);
    } else if b < T4 {
      MoveToSecond(p, b, rem, slack);
    } else if b < T5 {
      MoveToThird(p, b, rem, slack);
    } else {
      MoveToFourth(p, b, rem, slack);
    }
  }
}
