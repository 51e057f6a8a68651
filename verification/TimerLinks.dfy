/** The doubly linked bucket lists of mmlib/timer_pool/timer_pool.h as arrays of links.  Offset 0 is
    null, offset b + 1 is bucket b, offset NODES + k is pool node k. */
module TimerLinks {
  import opened Common
  import opened TimerBuckets
  import opened TimerWheel

  const NODES := 513

  /** The offset at place i of bucket b's list: 0 is the bucket itself, past the end is null. */
  function At(lists: Lists, b: nat, i: nat): int
    requires b < |lists|
  {
    if i == 0 then b + 1 else if i <= |lists[b]| then NODES + lists[b][i - 1].node else 0
  }

  /** No node is in two places. */
  ghost predicate Separate(lists: Lists) {
    forall b: nat, i: nat, c: nat, j: nat |
      b < |lists| && i < |lists[b]| && c < |lists| && j < |lists[c]| && lists[b][i].node == lists[c][j].node ::
      b == c && i == j
  }

  /** Place i of bucket b is linked to the next one, and back. */
  ghost predicate LinkedAt(next: seq<int>, prev: seq<int>, lists: Lists, b: nat, i: nat)
    requires b < |lists|
  {
    var x, y := At(lists, b, i), At(lists, b, i + 1);
    0 < x < |next| && 0 <= y < |prev| && next[x] == y && (y > 0 ==> prev[y] == x)
  }

  ghost predicate Chains(next: seq<int>, prev: seq<int>, lists: Lists) {
    && |lists| == BUCKETS && Separate(lists) && |next| == |prev| >= NODES
    && forall b: nat, i: nat | b < BUCKETS && i <= |lists[b]| :: LinkedAt(next, prev, lists, b, i)
  }

  lemma PlaceUnique(lists: Lists, b: nat, i: nat, c: nat, j: nat)
    requires |lists| == BUCKETS && Separate(lists)
    requires b < BUCKETS && i <= |lists[b]| && c < BUCKETS && j <= |lists[c]|
    ensures At(lists, b, i) == At(lists, c, j) ==> b == c && i == j
  {
  }

  ghost predicate Listed(lists: Lists, k: nat) {
    exists b: nat, i: nat :: b < |lists| && i < |lists[b]| && lists[b][i].node == k
  }

  lemma PushListed(lists: Lists, b: nat, t: Timer)
    requires b < |lists|
    ensures forall k: nat :: Listed(PushFront(lists, b, t), k) <==> k == t.node || Listed(lists, k)
    ensures Separate(lists) && !Listed(lists, t.node) ==> Separate(PushFront(lists, b, t))
  {
    var lists' := PushFront(lists, b, t);
    forall k: nat
      ensures Listed(lists', k) <==> k == t.node || Listed(lists, k)
    {
      if c: nat, i: nat :| c < |lists| && i < |lists[c]| && lists[c][i].node == k {
        assert lists'[c][if c == b then i + 1 else i].node == k;
      }
      assert lists'[b][0] == t;
      if c: nat, i: nat :| c < |lists'| && i < |lists'[c]| && lists'[c][i].node == k {
        assert c != b ==> lists[c][i].node == k;
        assert c == b && i > 0 ==> lists[c][i - 1].node == k;
      }
    }
    if Separate(lists) && !Listed(lists, t.node) {
      forall c: nat, i: nat | c < |lists| && i < |lists'[c]|
        ensures if c == b && i == 0 then lists'[c][i] == t
                else lists'[c][i] == lists[c][if c == b then i - 1 else i] && lists'[c][i].node != t.node
      {
      }
    }
  }

  lemma RemoveListed(lists: Lists, b: nat, i: nat)
    requires b < |lists| && i < |lists[b]| && Separate(lists)
    ensures forall k: nat :: Listed(RemoveAt(lists, b, i), k) <==> k != lists[b][i].node && Listed(lists, k)
    ensures Separate(RemoveAt(lists, b, i))
  {
    var lists' := RemoveAt(lists, b, i);
    forall c: nat, j: nat | c < |lists| && j < |lists'[c]|
      ensures lists'[c][j] == lists[c][Before(b, i, c, j)]
    {
    }
    forall k: nat
      ensures Listed(lists', k) <==> k != lists[b][i].node && Listed(lists, k)
    {
      if c: nat, j: nat :| c < |lists'| && j < |lists'[c]| && lists'[c][j].node == k {
        assert lists[c][Before(b, i, c, j)].node == k;
      }
      if k != lists[b][i].node {
        if c: nat, j: nat :| c < |lists| && j < |lists[c]| && lists[c][j].node == k {
          assert lists'[c][if c == b && j > i then j - 1 else j].node == k;
        }
      }
    }
  }

  /** Inserting a node that is in no list behind the head of bucket b. */
  lemma Link(next: seq<int>, prev: seq<int>, lists: Lists, b: nat, t: Timer, next': seq<int>, prev': seq<int>)
    requires Chains(next, prev, lists) && b < BUCKETS && !Listed(lists, t.node) && NODES + t.node < |next|
    requires next' == next[NODES + t.node := next[b + 1]][b + 1 := NODES + t.node]
    requires var p := prev[NODES + t.node := b + 1];
             && 0 <= next[b + 1] < |prev|
             && prev' == if next[b + 1] > 0 then p[next[b + 1] := NODES + t.node] else p
    ensures Chains(next', prev', PushFront(lists, b, t))
  {
    hide Separate;
    PushListed(lists, b, t);
    var lists' := PushFront(lists, b, t);
    assert lists[b] != [] ==> Listed(lists, lists[b][0].node);
    assert LinkedAt(next, prev, lists, b, 0);
    forall c: nat, i: nat | c < BUCKETS && i <= |lists'[c]|
      ensures LinkedAt(next', prev', lists', c, i)
    {
      PlaceAfterPush(lists, b, t, c, i);
      PlaceAfterPush(lists, b, t, c, i + 1);
      if c != b {
        LinkElsewhere(next, prev, lists, b, t, next', prev', c, i);
      } else if i >= 2 {
        LinkElsewhere(next, prev, lists, b, t, next', prev', c, i - 1);
      }
    }
  }

  lemma PlaceAfterPush(lists: Lists, b: nat, t: Timer, c: nat, i: nat)
    requires b < |lists| && c < |lists|
    ensures At(PushFront(lists, b, t), c, i) ==
            if c != b || i == 0 then At(lists, c, i) else if i == 1 then NODES + t.node else At(lists, c, i - 1)
  {
  }

  /** Links other than those around the insertion stay. */
  lemma LinkElsewhere(next: seq<int>, prev: seq<int>, lists: Lists, b: nat, t: Timer, next': seq<int>, prev': seq<int>,
                      c: nat, i: nat)
    requires Chains(next, prev, lists) && b < BUCKETS && !Listed(lists, t.node) && NODES + t.node < |next|
    requires next' == next[NODES + t.node := next[b + 1]][b + 1 := NODES + t.node]
    requires var p := prev[NODES + t.node := b + 1];
             && 0 <= next[b + 1] < |prev|
             && prev' == if next[b + 1] > 0 then p[next[b + 1] := NODES + t.node] else p
    requires c < BUCKETS && i <= |lists[c]| && (c != b || i >= 1)
    ensures LinkedAt(next', prev', lists, c, i)
  {
    hide Separate;
    var x, y := At(lists, c, i), At(lists, c, i + 1);
    assert LinkedAt(next, prev, lists, c, i);
    assert LinkedAt(next, prev, lists, b, 0);
    assert i > 0 ==> Listed(lists, lists[c][i - 1].node);
    assert i < |lists[c]| ==> Listed(lists, lists[c][i].node);
    PlaceUnique(lists, c, i, b, 0);
    if i < |lists[c]| && lists[b] != [] {
      PlaceUnique(lists, c, i + 1, b, 1);
    }
  }

  /** Taking the i-th timer out of bucket b. */
  lemma Unlink(next: seq<int>, prev: seq<int>, lists: Lists, b: nat, i: nat, next': seq<int>, prev': seq<int>)
    requires Chains(next, prev, lists) && b < BUCKETS && i < |lists[b]|
    requires var off := NODES + lists[b][i].node;
             && 0 <= off < |next|
             && 0 <= prev[off] < |next| && 0 <= next[off] < |prev|
             && next' == next[prev[off] := next[off]]
             && prev' == if next[off] > 0 then prev[next[off] := prev[off]] else prev
    ensures Chains(next', prev', RemoveAt(lists, b, i))
  {
    hide Separate;
    RemoveListed(lists, b, i);
    var lists' := RemoveAt(lists, b, i);
    assert LinkedAt(next, prev, lists, b, i) && LinkedAt(next, prev, lists, b, i + 1);
    forall c: nat, j: nat | c < BUCKETS && j <= |lists'[c]|
      ensures LinkedAt(next', prev', lists', c, j)
    {
      PlaceAfterRemove(lists, b, i, c, j);
      PlaceAfterRemove(lists, b, i, c, j + 1);
      if c == b && j == i {
      } else {
        UnlinkElsewhere(next, prev, lists, b, i, next', prev', c, if c == b && j > i then j + 1 else j);
      }
    }
  }

  lemma PlaceAfterRemove(lists: Lists, b: nat, i: nat, c: nat, j: nat)
    requires b < |lists| && i < |lists[b]| && c < |lists|
    ensures At(RemoveAt(lists, b, i), c, j) == At(lists, c, if c == b && j > i then j + 1 else j)
  {
  }

  lemma UnlinkElsewhere(next: seq<int>, prev: seq<int>, lists: Lists, b: nat, i: nat, next': seq<int>, prev': seq<int>,
                        c: nat, j: nat)
    requires Chains(next, prev, lists) && b < BUCKETS && i < |lists[b]|
    requires var off := NODES + lists[b][i].node;
             && 0 <= off < |next|
             && 0 <= prev[off] < |next| && 0 <= next[off] < |prev|
             && next' == next[prev[off] := next[off]]
             && prev' == if next[off] > 0 then prev[next[off] := prev[off]] else prev
    requires c < BUCKETS && j <= |lists[c]| && (c != b || j < i || j > i + 1)
    ensures LinkedAt(next', prev', lists, c, j)
  {
    hide Separate;
    var x, y := At(lists, c, j), At(lists, c, j + 1);
    assert LinkedAt(next, prev, lists, b, i) && LinkedAt(next, prev, lists, b, i + 1);
    assert LinkedAt(next, prev, lists, c, j);
    PlaceUnique(lists, c, j, b, i);
    if j < |lists[c]| && i + 1 < |lists[b]| {
      PlaceUnique(lists, c, j + 1, b, i + 2);
    }
  }
}
