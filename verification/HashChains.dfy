/** Singly linked lists of array nodes, as mmlib/hash_list/hash_list_nolock.h keeps them: one per
    bucket and one of free nodes.  Node 0 is the null pointer. */
module HashChains {
  import opened Common

  type Chains = seq<seq<nat>>

  /** The node at place i of list b; null past the end. */
  function Place(lists: Chains, b: nat, i: nat): nat
    requires b < |lists|
  {
    if i < |lists[b]| then lists[b][i] else 0
  }

  /** No node is in two places. */
  ghost predicate Separate(lists: Chains) {
    forall b: nat, i: nat, c: nat, j: nat |
      b < |lists| && i < |lists[b]| && c < |lists| && j < |lists[c]| && lists[b][i] == lists[c][j] :: b == c && i == j
  }

  /** heads and next link the nodes of every list in order, ending in null. */
  ghost predicate Linked(next: seq<int>, heads: seq<int>, lists: Chains) {
    && |heads| == |lists|
    && (forall b: nat | b < |lists| :: heads[b] == Place(lists, b, 0))
    && forall b: nat, i: nat | b < |lists| && i < |lists[b]| :: LinkedAt(next, lists, b, i)
  }

  /** The node at place i of list b is linked to the next one. */
  ghost predicate LinkedAt(next: seq<int>, lists: Chains, b: nat, i: nat)
    requires b < |lists| && i < |lists[b]|
  {
    0 < Place(lists, b, i) < |next| && next[Place(lists, b, i)] == Place(lists, b, i + 1)
  }

  ghost predicate Listed(lists: Chains, n: nat) {
    exists b: nat, i: nat :: b < |lists| && i < |lists[b]| && lists[b][i] == n
  }

  lemma {:induction false} TotalUpdate(lists: Chains, b: nat, l: seq<nat>)
    requires b < |lists|
    ensures Total(lists[b := l]) == Total(lists) - |lists[b]| + |l|
  {
    var last := |lists| - 1;
    if b == last {
      assert lists[b := l][..last] == lists[..last];
    } else {
      TotalUpdate(lists[..last], b, l);
      assert lists[b := l][..last] == lists[..last][b := l];
    }
  }

  lemma RemoveParts(lists: Chains, b: nat, i: nat)
    requires b < |lists| && i < |lists[b]|
    ensures forall c: nat, j: nat | c < |lists| && j < |RemoveAt(lists, b, i)[c]| ::
              && Before(b, i, c, j) < |lists[c]|
              && RemoveAt(lists, b, i)[c][j] == lists[c][Before(b, i, c, j)]
  {
  }

  lemma RemoveListed(lists: Chains, b: nat, i: nat)
    requires b < |lists| && i < |lists[b]| && Separate(lists)
    ensures Separate(RemoveAt(lists, b, i)) && !Listed(RemoveAt(lists, b, i), lists[b][i])
    ensures Total(RemoveAt(lists, b, i)) == Total(lists) - 1
  {
    RemoveParts(lists, b, i);
    TotalUpdate(lists, b, lists[b][..i] + lists[b][i + 1..]);
  }

  lemma PlaceAfterPush(lists: Chains, b: nat, n: nat, c: nat, j: nat)
    requires b < |lists| && c < |lists|
    ensures Place(PushFront(lists, b, n), c, j) ==
            if c != b then Place(lists, c, j) else if j == 0 then n else Place(lists, c, j - 1)
  {
  }

  lemma PlaceAfterRemove(lists: Chains, b: nat, i: nat, c: nat, j: nat)
    requires b < |lists| && i < |lists[b]| && c < |lists|
    ensures Place(RemoveAt(lists, b, i), c, j) == Place(lists, c, Before(b, i, c, j))
  {
  }

  lemma PushParts(lists: Chains, b: nat, n: nat)
    requires b < |lists|
    ensures forall c: nat, j: nat | c < |lists| && j < |PushFront(lists, b, n)[c]| ::
              if c == b && j == 0 then PushFront(lists, b, n)[c][j] == n
              else var k: int := if c == b then j - 1 else j;
                   0 <= k < |lists[c]| && PushFront(lists, b, n)[c][j] == lists[c][k]
  {
  }

  lemma PushSeparate(lists: Chains, b: nat, n: nat)
    requires b < |lists| && Separate(lists) && !Listed(lists, n)
    ensures Separate(PushFront(lists, b, n))
  {
    PushParts(lists, b, n);
    hide PushFront;
    assert forall c: nat, j: nat | c < |lists| && j < |lists[c]| :: lists[c][j] != n;
  }

  lemma PushListed(lists: Chains, b: nat, n: nat)
    requires b < |lists|
    ensures Total(PushFront(lists, b, n)) == Total(lists) + 1
  {
    TotalUpdate(lists, b, [n] + lists[b]);
  }

  /** Unlinking the i-th node of list b from its predecessor, a node or the head. */
  lemma Unlink(next: seq<int>, heads: seq<int>, lists: Chains, b: nat, i: nat, next': seq<int>, heads': seq<int>)
    requires Linked(next, heads, lists) && Separate(lists) && b < |heads| == |lists| && i < |lists[b]|
    requires var n := lists[b][i];
             && 0 < n < |next|
             && if i == 0 then next' == next && heads' == heads[b := next[n]]
                else 0 < lists[b][i - 1] < |next| && next' == next[lists[b][i - 1] := next[n]] && heads' == heads
    ensures Linked(next', heads', RemoveAt(lists, b, i))
  {
    var lists' := RemoveAt(lists, b, i);
    assert LinkedAt(next, lists, b, i);
    forall c: nat | c < |lists'|
      ensures heads'[c] == Place(lists', c, 0)
    {
      PlaceAfterRemove(lists, b, i, c, 0);
    }
    forall c: nat, j: nat | c < |lists'| && j < |lists'[c]|
      ensures LinkedAt(next', lists', c, j)
    {
      var k := Before(b, i, c, j);
      PlaceAfterRemove(lists, b, i, c, j);
      PlaceAfterRemove(lists, b, i, c, j + 1);
      assert LinkedAt(next, lists, c, k);
      if i > 0 {
        assert lists[c][k] == lists[b][i - 1] ==> c == b && k == i - 1;
      }
    }
  }

  /** Linking a node that is in no list in front of list b. */
  lemma Link(next: seq<int>, heads: seq<int>, lists: Chains, b: nat, n: nat)
    requires Linked(next, heads, lists) && b < |heads| == |lists| && !Listed(lists, n) && 0 < n < |next|
    ensures Linked(next[n := heads[b]], heads[b := n], PushFront(lists, b, n))
  {
    var lists', next' := PushFront(lists, b, n), next[n := heads[b]];
    forall c: nat | c < |lists'|
      ensures heads[b := n][c] == Place(lists', c, 0)
    {
      PlaceAfterPush(lists, b, n, c, 0);
    }
    forall c: nat, j: nat | c < |lists'| && j < |lists'[c]|
      ensures LinkedAt(next', lists', c, j)
    {
      PlaceAfterPush(lists, b, n, c, j);
      PlaceAfterPush(lists, b, n, c, j + 1);
      if c != b || j > 0 {
        var k := if c == b then j - 1 else j;
        assert LinkedAt(next, lists, c, k);
        assert Listed(lists, lists[c][k]);
      }
    }
  }

  /** A node moves from place i of list b to the front of list c. */
  function Moved(lists: Chains, b: nat, i: nat, c: nat): (r: Chains)
    requires b < |lists| && i < |lists[b]| && c < |lists|
    ensures |r| == |lists|
  {
    PushFront(RemoveAt(lists, b, i), c, lists[b][i])
  }

  lemma MovedShape(lists: Chains, b: nat, i: nat, c: nat)
    requires b < |lists| && i < |lists[b]| && c < |lists| && Separate(lists) && b != c
    ensures Separate(Moved(lists, b, i, c)) && Total(Moved(lists, b, i, c)) == Total(lists)
    ensures forall x: nat | x < |lists| ::
              |Moved(lists, b, i, c)[x]| == |lists[x]| + (if x == c then 1 else 0) - (if x == b then 1 else 0)
  {
    RemoveListed(lists, b, i);
    PushSeparate(RemoveAt(lists, b, i), c, lists[b][i]);
    PushListed(RemoveAt(lists, b, i), c, lists[b][i]);
    hide Separate, Total;
  }

  /** Moving a node, on the links: it is unlinked from its predecessor, then linked to the other head. */
  lemma MovedLinks(next: seq<int>, heads: seq<int>, lists: Chains, b: nat, i: nat, c: nat, next': seq<int>,
      heads': seq<int>)
    requires Linked(next, heads, lists) && Separate(lists) && b < |heads| == |lists| && i < |lists[b]| &&
             c < |lists| && b != c
    requires var n := lists[b][i];
             && 0 < n < |next|
             && if i == 0 then next' == next && heads' == heads[b := next[n]]
                else 0 < lists[b][i - 1] < |next| && next' == next[lists[b][i - 1] := next[n]] && heads' == heads
    ensures Linked(next'[lists[b][i] := heads'[c]], heads'[c := lists[b][i]], Moved(lists, b, i, c))
  {
    hide Linked;
    RemoveListed(lists, b, i);
    Unlink(next, heads, lists, b, i, next', heads');
    Link(next', heads', RemoveAt(lists, b, i), c, lists[b][i]);
  }

  // ----- counting

  ghost function All(lists: Chains): (e: set<nat>)
    ensures forall n: nat :: n in e <==> Listed(lists, n)
  {
    if lists == [] then {}
    else
      var last := |lists| - 1;
      assert forall n: nat :: Listed(lists, n) <==> Listed(lists[..last], n) || n in lists[last] by {
        forall n: nat
          ensures Listed(lists, n) <==> Listed(lists[..last], n) || n in lists[last]
        {
          ListedLast(lists, n);
        }
      }
      All(lists[..last]) + Elements(lists[last])
  }

  lemma ListedLast(lists: Chains, n: nat)
    requires lists != []
    ensures Listed(lists, n) <==> Listed(lists[..|lists| - 1], n) || n in lists[|lists| - 1]
  {
    var last := |lists| - 1;
    if b: nat, i: nat :| b < last && i < |lists[b]| && lists[b][i] == n {
      assert lists[..last][b][i] == n;
    }
    if Listed(lists[..last], n) {
      var b: nat, i: nat :| b < last && i < |lists[..last][b]| && lists[..last][b][i] == n;
      assert lists[b][i] == n;
    }
  }

  lemma SeparateParts(lists: Chains, l: seq<nat>)
    requires Separate(lists) && lists != [] && l == lists[|lists| - 1]
    ensures Separate(lists[..|lists| - 1])
    ensures forall i: nat, j: nat | i < j < |l| :: l[i] != l[j]
  {
    assert forall b: nat | b < |lists| - 1 :: lists[..|lists| - 1][b] == lists[b];
  }

  lemma LastApart(lists: Chains, n: nat)
    requires Separate(lists) && lists != [] && Listed(lists[..|lists| - 1], n)
    ensures n !in lists[|lists| - 1]
  {
    var last := |lists| - 1;
    var b: nat, i: nat :| b < last && i < |lists[..last][b]| && lists[..last][b][i] == n;
    assert lists[b][i] == n;
  }

  lemma {:induction false} AllSize(lists: Chains)
    requires Separate(lists)
    ensures |All(lists)| == Total(lists)
  {
    hide Separate, Listed;
    if lists != [] {
      var last := |lists| - 1;
      SeparateParts(lists, lists[last]);
      AllSize(lists[..last]);
      ElementsSize(lists[last]);
      forall n | n in All(lists[..last])
        ensures n !in Elements(lists[last])
      {
        LastApart(lists, n);
      }
      assert All(lists[..last]) !! Elements(lists[last]);
    }
  }

  ghost function NonNull(n: nat): (s: set<nat>)
    requires n > 0
    ensures |s| == n - 1 && forall k: nat :: k in s <==> 0 < k < n
  {
    if n == 1 then {} else NonNull(n - 1) + {n - 1}
  }

  /** Lists of n - 1 distinct nodes below n hold them all. */
  lemma Partition(lists: Chains, n: nat, k: nat)
    requires Separate(lists) && Total(lists) == n - 1 && 0 < k < n
    requires forall m: nat | Listed(lists, m) :: 0 < m < n
    ensures Listed(lists, k)
  {
    hide *;
    AllSize(lists);
    FullSubset(All(lists), NonNull(n));
  }
}
