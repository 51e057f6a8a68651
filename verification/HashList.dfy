/** CHashListNoLock (mmlib/hash_list/hash_list_nolock.h): a chained hash table over an array of data
    nodes with a free list.  Each operation is proved against a finite map of capacity dataNum - 1. */
module HashList {
  import opened Common
  import opened HashChains

  const SUCCESS := 0
  const ERROR := -1
  const E_NO_SPACE := -104
  const E_NO_NODE := -105
  const E_NODE_EXIST := -106
  const E_VERIFY_INDEX_HASHVAL := -108
  const E_VERIFY_INDEX_DATANUM := -109
  const E_VERIFY_DATA_PTR := -110
  const E_VERIFY_HEAD_USEDDATANUM := -111
  const E_VERIFY_HEAD_TOTALDATANUM := -113

  /** The node in place i of bucket h holds an entry of the map, under a key that hashes to h. */
  ghost predicate EntryAt(key: seq<nat>, data: seq<int>, lists: Chains, index: nat, m: map<nat, int>, h: nat, i: nat)
    requires h < |lists| && i < |lists[h]| && index > 0
  {
    var n := lists[h][i];
    n < |key| == |data| && key[n] % index == h && key[n] in m && m[key[n]] == data[n]
  }

  ghost predicate Found(key: seq<nat>, lists: Chains, h: nat, i: nat, k: nat)
    requires h < |lists|
  {
    i < |lists[h]| && lists[h][i] < |key| && key[lists[h][i]] == k
  }

  /** The buckets hold exactly the entries of m, each once. */
  ghost predicate Holds(key: seq<nat>, data: seq<int>, lists: Chains, index: nat, m: map<nat, int>) {
    && index > 0 && |lists| == index + 1
    && (forall h: nat, i: nat | h < index && i < |lists[h]| :: EntryAt(key, data, lists, index, m, h, i))
    && (forall k | k in m :: exists i: nat :: Found(key, lists, k % index, i, k))
    && forall h: nat, i: nat, j: nat | h < index && i < |lists[h]| && j < |lists[h]| ::
        SameKeySamePlace(key, lists, h, i, j)
  }

  ghost predicate SameKeySamePlace(key: seq<nat>, lists: Chains, h: nat, i: nat, j: nat)
    requires h < |lists| && i < |lists[h]| && j < |lists[h]|
  {
    lists[h][i] < |key| && lists[h][j] < |key| && key[lists[h][i]] == key[lists[h][j]] ==> i == j
  }

  lemma HoldsInsert(key: seq<nat>, data: seq<int>, lists: Chains, index: nat, m: map<nat, int>, n: nat, k: nat, v: int,
                    lists': Chains)
    requires Holds(key, data, lists, index, m) && Separate(lists) && k !in m && n < |key| == |data|
    requires |lists[index]| > 0 && lists[index][0] == n
    requires lists' == Moved(lists, index, 0, k % index)
    ensures Holds(key[n := k], data[n := v], lists', index, m[k := v])
  {
    hide EntryAt, Found, SameKeySamePlace, Moved;
    var key', data', m' := key[n := k], data[n := v], m[k := v];
    forall h: nat, i: nat | h < index && i < |lists'[h]|
      ensures EntryAt(key', data', lists', index, m', h, i)
    {
      InsertedEntry(key, data, lists, index, m, n, k, v, lists', h, i);
    }
    forall k' | k' in m'
      ensures exists i: nat :: Found(key', lists', k' % index, i, k')
    {
      InsertedFound(key, data, lists, index, m, n, k, v, lists', k', key');
    }
    forall h: nat, i: nat, j: nat | h < index && i < |lists'[h]| && j < |lists'[h]|
      ensures SameKeySamePlace(key', lists', h, i, j)
    {
      InsertedUnique(key, data, lists, index, m, n, k, v, lists', h, i, j);
    }
  }

  /** What an insertion does to place i of bucket h. */
  lemma InsertedPlace(lists: Chains, index: nat, h0: nat, n: nat, lists': Chains, h: nat, i: nat)
    requires |lists| == index + 1 && Separate(lists) && h0 < index && h < index
    requires |lists[index]| > 0 && lists[index][0] == n
    requires lists' == Moved(lists, index, 0, h0)
    ensures |lists'[h]| == |lists[h]| + if h == h0 then 1 else 0
    ensures i < |lists'[h]| ==>
              if h == h0 && i == 0 then lists'[h][i] == n
              else lists'[h][i] == lists[h][if h == h0 then i - 1 else i] && lists'[h][i] != n
  {
    if i < |lists'[h]| && !(h == h0 && i == 0) {
      assert lists'[h][i] == lists[h][if h == h0 then i - 1 else i];
    }
  }

  lemma InsertedEntry(key: seq<nat>, data: seq<int>, lists: Chains, index: nat, m: map<nat, int>, n: nat, k: nat,
                      v: int, lists': Chains, h: nat, i: nat)
    requires Holds(key, data, lists, index, m) && Separate(lists) && k !in m && n < |key| == |data|
    requires |lists[index]| > 0 && lists[index][0] == n
    requires lists' == Moved(lists, index, 0, k % index)
    requires h < index && i < |lists'[h]|
    ensures EntryAt(key[n := k], data[n := v], lists', index, m[k := v], h, i)
  {
    hide Separate, Moved;
    var h0 := k % index;
    InsertedPlace(lists, index, h0, n, lists', h, i);
    if h != h0 || i > 0 {
      assert EntryAt(key, data, lists, index, m, h, if h == h0 then i - 1 else i);
    }
  }

  lemma InsertedFound(key: seq<nat>, data: seq<int>, lists: Chains, index: nat, m: map<nat, int>, n: nat, k: nat,
                      v: int, lists': Chains, k': nat, key': seq<nat>)
    requires Holds(key, data, lists, index, m) && Separate(lists) && k !in m && n < |key| == |data|
    requires |lists[index]| > 0 && lists[index][0] == n
    requires lists' == Moved(lists, index, 0, k % index)
    requires (k' == k || k' in m) && key' == key[n := k]
    ensures exists i: nat :: Found(key', lists', k' % index, i, k')
  {
    hide Separate, Moved, EntryAt, SameKeySamePlace;
    var h0, h := k % index, k' % index;
    if k' == k {
      InsertedPlace(lists, index, h0, n, lists', h0, 0);
      assert Found(key', lists', h0, 0, k);
    } else {
      var i: nat :| Found(key, lists, h, i, k');
      var j := if h == h0 then i + 1 else i;
      InsertedPlace(lists, index, h0, n, lists', h, j);
      assert Found(key', lists', h, j, k');
    }
  }

  lemma InsertedUnique(key: seq<nat>, data: seq<int>, lists: Chains, index: nat, m: map<nat, int>, n: nat, k: nat,
                       v: int, lists': Chains, h: nat, i: nat, j: nat)
    requires Holds(key, data, lists, index, m) && Separate(lists) && k !in m && n < |key| == |data|
    requires |lists[index]| > 0 && lists[index][0] == n
    requires lists' == Moved(lists, index, 0, k % index)
    requires h < index && i < |lists'[h]| && j < |lists'[h]|
    ensures SameKeySamePlace(key[n := k], lists', h, i, j)
  {
    hide Separate, Moved, Found;
    var h0 := k % index;
    InsertedPlace(lists, index, h0, n, lists', h, i);
    InsertedPlace(lists, index, h0, n, lists', h, j);
    var a := if h == h0 then i - 1 else i;
    var b := if h == h0 then j - 1 else j;
    if a >= 0 {
      assert EntryAt(key, data, lists, index, m, h, a);
    }
    if b >= 0 {
      assert EntryAt(key, data, lists, index, m, h, b);
    }
    if a >= 0 && b >= 0 {
      assert SameKeySamePlace(key, lists, h, a, b);
    }
  }

  lemma HoldsUpdate(key: seq<nat>, data: seq<int>, lists: Chains, index: nat, m: map<nat, int>, h: nat, i: nat, v: int)
    requires Holds(key, data, lists, index, m) && Separate(lists) && h < index && i < |lists[h]|
    requires |key| == |data| && lists[h][i] < |key|
    ensures Holds(key, data[lists[h][i] := v], lists, index, m[key[lists[h][i]] := v])
  {
    var n := lists[h][i];
    var k, data' := key[n], data[n := v];
    var m' := m[k := v];
    assert EntryAt(key, data, lists, index, m, h, i);
    forall c: nat, j: nat | c < index && j < |lists[c]|
      ensures EntryAt(key, data', lists, index, m', c, j)
    {
      assert EntryAt(key, data, lists, index, m, c, j);
      if key[lists[c][j]] == k {
        assert SameKeySamePlace(key, lists, h, i, j);
      }
    }
  }

  lemma HoldsRemove(key: seq<nat>, data: seq<int>, lists: Chains, index: nat, m: map<nat, int>, h: nat, i: nat,
      lists': Chains)
    requires Holds(key, data, lists, index, m) && h < index && i < |lists[h]| && lists[h][i] < |key|
    requires lists' == Moved(lists, h, i, index)
    ensures Holds(key, data, lists', index, m - {key[lists[h][i]]})
  {
    var k := key[lists[h][i]];
    RemoveParts(lists, h, i);
    assert EntryAt(key, data, lists, index, m, h, i);
    forall c: nat, j: nat | c < index && j < |lists'[c]|
      ensures EntryAt(key, data, lists', index, m - {k}, c, j)
      ensures Before(h, i, c, j) < |lists[c]| && lists'[c][j] == lists[c][Before(h, i, c, j)]
    {
      assert lists'[c][j] == lists[c][Before(h, i, c, j)];
      assert EntryAt(key, data, lists, index, m, c, Before(h, i, c, j));
      if c == h {
        assert SameKeySamePlace(key, lists, h, i, Before(h, i, c, j));
      }
    }
    forall k' | k' in m - {k}
      ensures exists j: nat :: Found(key, lists', k' % index, j, k')
    {
      var j: nat :| Found(key, lists, k' % index, j, k');
      assert Found(key, lists', k' % index, if k' % index == h && j > i then j - 1 else j, k');
    }
    forall c: nat, j: nat, l: nat | c < index && j < |lists'[c]| && l < |lists'[c]|
      ensures SameKeySamePlace(key, lists', c, j, l)
    {
      assert SameKeySamePlace(key, lists, c, Before(h, i, c, j), Before(h, i, c, l));
    }
  }

  lemma NotFound(key: seq<nat>, data: seq<int>, lists: Chains, index: nat, m: map<nat, int>, k: nat)
    requires Holds(key, data, lists, index, m)
    requires forall i: nat | i < |lists[k % index]| :: lists[k % index][i] < |key| && key[lists[k % index][i]] != k
    ensures k !in m
  {
  }

  lemma WhereFound(key: seq<nat>, data: seq<int>, lists: Chains, index: nat, m: map<nat, int>, h: nat, i: nat)
    requires Holds(key, data, lists, index, m) && h < index && i < |lists[h]|
    ensures EntryAt(key, data, lists, index, m, h, i)
  {
  }

  lemma PlaceLinked(next: seq<int>, heads: seq<int>, lists: Chains, b: nat, i: nat)
    requires Linked(next, heads, lists) && b < |lists|
    ensures heads[b] == Place(lists, b, 0)
    ensures i < |lists[b]| ==> 0 < lists[b][i] < |next| && next[lists[b][i]] == Place(lists, b, i + 1)
    ensures Place(lists, b, i) == 0 <==> i >= |lists[b]|
  {
    assert i < |lists[b]| ==> LinkedAt(next, lists, b, i);
  }

  /** Following next from first leads through the nodes of walk, and then to end. */
  ghost predicate Walk(next: seq<int>, first: int, walk: seq<nat>, end: int) {
    && first == WalkAt(walk, end, 0)
    && forall i: nat | i < |walk| :: StepAt(next, walk, end, i)
  }

  ghost predicate StepAt(next: seq<int>, walk: seq<nat>, end: int, i: nat)
    requires i < |walk|
  {
    0 < walk[i] < |next| && next[walk[i]] == WalkAt(walk, end, i + 1)
  }

  function WalkAt(walk: seq<nat>, end: int, i: nat): int {
    if i < |walk| then walk[i] else end
  }

  /** Where Verify's loops stop. */
  predicate Ends(end: int, n: nat) {
    end == 0 || end > n
  }

  lemma LinkedWalk(next: seq<int>, heads: seq<int>, lists: Chains, b: nat)
    requires Linked(next, heads, lists) && b < |lists|
    ensures Walk(next, heads[b], lists[b], 0)
  {
    PlaceLinked(next, heads, lists, b, 0);
    forall i: nat | i < |lists[b]|
      ensures StepAt(next, lists[b], 0, i)
    {
      PlaceLinked(next, heads, lists, b, i);
    }
  }

  /** There is only one way to go. */
  lemma OneWalk(next: seq<int>, first: int, walk: seq<nat>, end: int, walk': seq<nat>, end': int)
    requires Walk(next, first, walk, end) && Walk(next, first, walk', end')
    requires Ends(end, |next|) && Ends(end', |next|)
    ensures walk == walk' && end == end'
  {
    var n := Min(|walk|, |walk'|);
    SameSteps(next, first, walk, end, walk', end', n);
    assert n < |walk| ==> StepAt(next, walk, end, n);
    assert n < |walk'| ==> StepAt(next, walk', end', n);
  }

  lemma {:induction false} SameSteps(next: seq<int>, first: int, walk: seq<nat>, end: int, walk': seq<nat>, end': int,
      n: nat)
    requires Walk(next, first, walk, end) && Walk(next, first, walk', end') && n <= |walk| && n <= |walk'|
    ensures forall i | 0 <= i < n :: walk[i] == walk'[i]
    ensures WalkAt(walk, end, n) == WalkAt(walk', end', n)
  {
    if n > 0 {
      SameSteps(next, first, walk, end, walk', end', n - 1);
      assert StepAt(next, walk, end, n - 1) && StepAt(next, walk', end', n - 1);
    }
  }

  /** The links, counters and entries all describe the same buckets and free list, and every node
      but the null one is in one of them. */
  ghost predicate Consistent(next: seq<int>, heads: seq<int>, bucketNum: seq<int>, key: seq<nat>, data: seq<int>,
                             usedNum: int, lists: Chains, index: nat, m: map<nat, int>)
  {
    && index > 0 && |lists| == |heads| == index + 1 && |bucketNum| == index && |next| == |key| == |data| >= 1
    && Separate(lists) && Linked(next, heads, lists) && Total(lists) == |next| - 1
    && (forall h: nat | h < index :: bucketNum[h] == |lists[h]|)
    && usedNum == |next| - |lists[index]| == |m| + 1
    && Holds(key, data, lists, index, m)
  }

  lemma ConsistentInsert(next: seq<int>, heads: seq<int>, bucketNum: seq<int>, key: seq<nat>, data: seq<int>,
                         usedNum: int, lists: Chains, index: nat, m: map<nat, int>, k: nat, v: int)
    requires Consistent(next, heads, bucketNum, key, data, usedNum, lists, index, m) && k !in m && lists[index] != []
    ensures
      var h, n := k % index, lists[index][0];
      && 0 < n < |next| && n == heads[index]
      && Consistent(next[n := heads[h]], heads[index := next[n]][h := n], bucketNum[h := bucketNum[h] + 1],
                    key[n := k], data[n := v], usedNum + 1, Moved(lists, index, 0, h), index, m[k := v])
  {
    hide Separate, Linked, Holds, Total, Moved;
    var h, n := k % index, lists[index][0];
    PlaceLinked(next, heads, lists, index, 0);
    MovedShape(lists, index, 0, h);
    MovedLinks(next, heads, lists, index, 0, h, next, heads[index := next[n]]);
    HoldsInsert(key, data, lists, index, m, n, k, v, Moved(lists, index, 0, h));
    MapWith(m, k, v);
  }

  lemma ConsistentRemove(next: seq<int>, heads: seq<int>, bucketNum: seq<int>, key: seq<nat>, data: seq<int>,
                         usedNum: int, lists: Chains, index: nat, m: map<nat, int>, h: nat, i: nat)
    requires Consistent(next, heads, bucketNum, key, data, usedNum, lists, index, m) && h < index && i < |lists[h]|
    ensures
      var n := lists[h][i];
      && 0 < n < |next| && (i > 0 ==> 0 < lists[h][i - 1] < |next| && lists[h][i - 1] != n)
      && var (next', heads') := if i == 0 then (next, heads[h := next[n]])
          else (next[lists[h][i - 1] := next[n]], heads);
         Consistent(next'[n := heads[index]], heads'[index := n], bucketNum[h := bucketNum[h] - 1],
                    key, data, usedNum - 1, Moved(lists, h, i, index), index, m - {key[n]})
  {
    hide Linked, Holds, Total, Moved;
    var n := lists[h][i];
    PlaceLinked(next, heads, lists, h, i);
    if i > 0 {
      PlaceLinked(next, heads, lists, h, i - 1);
    }
    MovedShape(lists, h, i, index);
    WhereFound(key, data, lists, index, m, h, i);
    hide Separate;
    var (next', heads') := if i == 0 then (next, heads[h := next[n]]) else (next[lists[h][i - 1] := next[n]], heads);
    MovedLinks(next, heads, lists, h, i, index, next', heads');
    HoldsRemove(key, data, lists, index, m, h, i, Moved(lists, h, i, index));
    MapWithout(m, key[n]);
  }

  /** The free list is empty exactly when dataNum - 1 entries are stored. */
  lemma FreeLeft(next: seq<int>, heads: seq<int>, bucketNum: seq<int>, key: seq<nat>, data: seq<int>,
                 usedNum: int, lists: Chains, index: nat, m: map<nat, int>)
    requires Consistent(next, heads, bucketNum, key, data, usedNum, lists, index, m)
    ensures heads[index] < |next|
    ensures lists[index] == [] <==> heads[index] <= 0
    ensures lists[index] == [] <==> |m| >= |next| - 1
    ensures lists[index] == [] <==> |next| - usedNum <= 0
  {
    hide Separate, Linked, Holds, Total;
    PlaceLinked(next, heads, lists, index, 0);
  }

  /** The lists after Clear: empty buckets, and all nodes free. */
  function Cleared(index: nat, n: nat): Chains
    requires n > 0
  {
    seq(index, _ => []) + [seq(n - 1, i requires 0 <= i => i + 1)]
  }

  lemma {:induction false} TotalOfEmpty(lists: Chains)
    requires forall b: nat | b < |lists| :: lists[b] == []
    ensures Total(lists) == 0
  {
    if lists != [] {
      TotalOfEmpty(lists[..|lists| - 1]);
    }
  }

  lemma ClearedConsistent(next: seq<int>, heads: seq<int>, bucketNum: seq<int>, key: seq<nat>, data: seq<int>,
      index: nat)
    requires index > 0 && |heads| == index + 1 && |bucketNum| == index && |next| == |key| == |data| >= 2
    requires forall b: nat | b < index :: heads[b] == 0 && bucketNum[b] == 0
    requires heads[index] == 1 && next[|next| - 1] == 0 && forall i | 1 <= i < |next| - 1 :: next[i] == i + 1
    ensures Consistent(next, heads, bucketNum, key, data, 1, Cleared(index, |next|), index, map[])
  {
    var lists := Cleared(index, |next|);
    assert lists[..index] == seq(index, _ => []);
    TotalOfEmpty(lists[..index]);
    hide Total;
    forall b: nat, i: nat | b < |lists| && i < |lists[b]|
      ensures b == index && lists[b][i] == i + 1 && LinkedAt(next, lists, b, i)
    {
    }
    assert Total(lists) == |next| - 1 by {
      TotalLast(lists);
    }
  }

  lemma TotalLast(lists: Chains)
    requires lists != []
    ensures Total(lists) == Total(lists[..|lists| - 1]) + |lists[|lists| - 1]|
  {
  }

  ghost predicate Nodes(l: seq<nat>, keys: seq<nat>, values: seq<int>) {
    |keys| == |values| && forall i: nat | i < |l| :: 0 < l[i] < |keys|
  }

  /** l holds exactly the entries whose keys hash to h, each once. */
  ghost predicate BucketOf(l: seq<nat>, keys: seq<nat>, values: seq<int>, index: nat, m: map<nat, int>, h: nat) {
    && Nodes(l, keys, values) && index > 0
    && (forall i: nat | i < |l| :: keys[l[i]] in m && keys[l[i]] % index == h && m[keys[l[i]]] == values[l[i]])
    && (forall k | k in m && k % index == h :: exists i: nat :: i < |l| && l[i] < |keys| && keys[l[i]] == k)
    && forall i: nat, j: nat | i < j < |l| :: keys[l[i]] != keys[l[j]]
  }

  lemma EntriesOf(next: seq<int>, heads: seq<int>, bucketNum: seq<int>, key: seq<nat>, data: seq<int>,
                  usedNum: int, lists: Chains, index: nat, m: map<nat, int>, h: nat)
    requires Consistent(next, heads, bucketNum, key, data, usedNum, lists, index, m) && h < index
    ensures bucketNum[h] == |lists[h]| && Nodes(lists[h], key, data) && BucketOf(lists[h], key, data, index, m, h)
  {
    forall i: nat | i < |lists[h]|
      ensures 0 < lists[h][i] && EntryAt(key, data, lists, index, m, h, i)
    {
      PlaceLinked(next, heads, lists, h, i);
    }
    hide Separate, Linked, Total;
    forall k | k in m && k % index == h
      ensures exists i: nat :: i < |lists[h]| && lists[h][i] < |key| && key[lists[h][i]] == k
    {
      var i: nat :| Found(key, lists, k % index, i, k);
    }
    forall i: nat, j: nat | i < j < |lists[h]|
      ensures key[lists[h][i]] != key[lists[h][j]]
    {
      assert SameKeySamePlace(key, lists, h, i, j);
    }
  }

  lemma ChainOf(next: seq<int>, heads: seq<int>, bucketNum: seq<int>, key: seq<nat>, data: seq<int>,
                usedNum: int, lists: Chains, index: nat, m: map<nat, int>, h: nat, i: nat)
    requires Consistent(next, heads, bucketNum, key, data, usedNum, lists, index, m) && h < index
    ensures heads[h] == if lists[h] == [] then 0 else lists[h][0]
    ensures i < |lists[h]| ==>
              0 < lists[h][i] < |next| && next[lists[h][i]] == if i + 1 < |lists[h]| then lists[h][i + 1] else 0
  {
    PlaceLinked(next, heads, lists, h, i);
  }

  // ----- ProcessAll

  /** What the callback has been given after j nodes of l. */
  ghost function Given(l: seq<nat>, keys: seq<nat>, values: seq<int>, j: nat): (s: seq<(nat, int)>)
    requires Nodes(l, keys, values) && j <= |l|
  {
    if j == 0 then [] else Given(l, keys, values, j - 1) + [(keys[l[j - 1]], values[l[j - 1]])]
  }

  /** What it has removed. */
  ghost function Dropped(l: seq<nat>, keys: seq<nat>, values: seq<int>, j: nat, drop: (nat, int) -> bool): (d: set<nat>)
    requires Nodes(l, keys, values) && j <= |l|
  {
    if j == 0 then {}
    else Dropped(l, keys, values, j - 1, drop) + if drop(keys[l[j - 1]], values[l[j - 1]]) then {keys[l[j - 1]]} else {}
  }

  lemma {:induction false} GivenIs(l: seq<nat>, keys: seq<nat>, values: seq<int>, j: nat)
    requires Nodes(l, keys, values) && j <= |l|
    ensures |Given(l, keys, values, j)| == j
    ensures forall i: nat | i < j :: Given(l, keys, values, j)[i] == (keys[l[i]], values[l[i]])
  {
    if j > 0 {
      GivenIs(l, keys, values, j - 1);
    }
  }

  lemma {:induction false} DroppedIs(l: seq<nat>, keys: seq<nat>, values: seq<int>, j: nat, drop: (nat, int) -> bool,
      k: nat)
    requires Nodes(l, keys, values) && j <= |l|
    ensures k in Dropped(l, keys, values, j, drop) <==>
            exists i: nat :: i < j && keys[l[i]] == k && drop(k, values[l[i]])
  {
    if j > 0 {
      DroppedIs(l, keys, values, j - 1, drop, k);
    }
  }

  lemma KeptStep(kept: seq<nat>, l: seq<nat>, j: nat)
    requires j < |l|
    ensures (kept + l[j..])[|kept|] == l[j] && |kept + l[j..]| == |kept| + |l| - j
    ensures |kept + l[j..]| > |kept| + 1 ==> (kept + l[j..])[|kept| + 1] == l[j + 1]
    ensures (kept + l[j..])[..|kept|] + (kept + l[j..])[|kept| + 1..] == kept + l[j + 1..]
    ensures kept + [l[j]] + l[j + 1..] == kept + l[j..]
  {
  }

  /** A sweep of bucket h saw every entry of the bucket exactly once, and removed those it should. */
  ghost predicate Swept(m: map<nat, int>, seen: seq<(nat, int)>, m': map<nat, int>, index: nat, h: nat,
      drop: (nat, int) -> bool)
    requires index > 0
  {
    && (forall p: (nat, int) :: p in seen <==> p.0 in m && p.0 % index == h && p.1 == m[p.0])
    && (forall i, j | 0 <= i < j < |seen| :: seen[i].0 != seen[j].0)
    && m' == map k: nat | k in m && !(k % index == h && drop(k, m[k])) :: m[k]
  }

  lemma SweepPlan(next: seq<int>, heads: seq<int>, bucketNum: seq<int>, key: seq<nat>, data: seq<int>,
                  usedNum: int, lists: Chains, index: nat, m: map<nat, int>, h: nat, drop: (nat, int) -> bool)
    requires Consistent(next, heads, bucketNum, key, data, usedNum, lists, index, m) && h < index
    ensures bucketNum[h] == |lists[h]| && Nodes(lists[h], key, data)
    ensures Swept(m, Given(lists[h], key, data, |lists[h]|), m - Dropped(lists[h], key, data, |lists[h]|, drop),
            index, h, drop)
  {
    hide Given, Dropped, BucketOf, Nodes;
    EntriesOf(next, heads, bucketNum, key, data, usedNum, lists, index, m, h);
    hide Consistent;
    GivenAll(lists[h], key, data, index, m, h);
    DroppedAll(lists[h], key, data, index, m, h, drop);
  }

  lemma GivenAll(l: seq<nat>, keys: seq<nat>, values: seq<int>, index: nat, m: map<nat, int>, h: nat)
    requires Nodes(l, keys, values) && BucketOf(l, keys, values, index, m, h)
    ensures forall p: (nat, int) :: p in Given(l, keys, values, |l|) <==> p.0 in m && p.0 % index == h && p.1 == m[p.0]
    ensures |Given(l, keys, values, |l|)| == |l|
    ensures forall i, j | 0 <= i < j < |l| :: Given(l, keys, values, |l|)[i].0 != Given(l, keys, values, |l|)[j].0
  {
    var s := Given(l, keys, values, |l|);
    GivenIs(l, keys, values, |l|);
    hide Given;
    forall p: (nat, int) | p.0 in m && p.0 % index == h && p.1 == m[p.0]
      ensures p in s
    {
      var i: nat :| i < |l| && keys[l[i]] == p.0;
      assert s[i] == p;
    }
  }

  lemma DroppedAll(l: seq<nat>, keys: seq<nat>, values: seq<int>, index: nat, m: map<nat, int>, h: nat,
      drop: (nat, int) -> bool)
    requires Nodes(l, keys, values) && BucketOf(l, keys, values, index, m, h)
    ensures m - Dropped(l, keys, values, |l|, drop) == map k: nat | k in m && !(k % index == h && drop(k, m[k])) :: m[k]
  {
    var d := Dropped(l, keys, values, |l|, drop);
    hide Dropped;
    forall k: nat | k in m
      ensures k in d <==> k % index == h && drop(k, m[k])
    {
      DroppedIs(l, keys, values, |l|, drop, k);
    }
  }

  lemma NoneGiven(l: seq<nat>, keys: seq<nat>, values: seq<int>, drop: (nat, int) -> bool, m: map<nat, int>)
    requires Nodes(l, keys, values)
    ensures m - Dropped(l, keys, values, 0, drop) == m
    ensures Given(l, keys, values, 0) == [] && Dropped(l, keys, values, 0, drop) == {}
  {
  }

  lemma GivenStep(l: seq<nat>, keys: seq<nat>, values: seq<int>, j: nat, drop: (nat, int) -> bool)
    requires Nodes(l, keys, values) && j < |l|
    ensures Given(l, keys, values, j + 1) == Given(l, keys, values, j) + [(keys[l[j]], values[l[j]])]
    ensures Dropped(l, keys, values, j + 1, drop) ==
            Dropped(l, keys, values, j, drop) + if drop(keys[l[j]], values[l[j]]) then {keys[l[j]]} else {}
    ensures !drop(keys[l[j]], values[l[j]]) ==>
            Dropped(l, keys, values, j + 1, drop) == Dropped(l, keys, values, j, drop)
  {
  }

  lemma WithoutBoth(m: map<nat, int>, d: set<nat>, k: nat)
    ensures m - d - {k} == m - (d + {k})
  {
  }

  lemma MovedOut(lists: Chains, b: nat, i: nat, c: nat)
    requires b < |lists| && i < |lists[b]| && c < |lists| && b != c
    ensures Moved(lists, b, i, c)[b] == lists[b][..i] + lists[b][i + 1..]
  {
  }

  lemma MapWith(m: map<nat, int>, k: nat, v: int)
    ensures |m[k := v]| == |m| + if k in m then 0 else 1
  {
    assert m[k := v].Keys == m.Keys + {k};
  }

  lemma MapWithout(m: map<nat, int>, k: nat)
    ensures |m - {k}| == |m| - if k in m then 1 else 0
    ensures k !in m ==> m - {k} == m
  {
    assert (m - {k}).Keys == m.Keys - {k};
  }

  lemma HeadsMoved(heads: seq<int>, buckets: seq<int>, free: int, h: nat, n: int)
    requires |heads| == |buckets| + 1 && h < |buckets| && buckets[h] == n
    requires forall i | 0 <= i < |buckets| && i != h :: buckets[i] == heads[i]
    ensures buckets + [free] == heads[|buckets| := free][h := n]
  {
  }

  class HashList {
    const indexNum: nat
    const dataNum: nat
    const hashVal: array<int>
    const bucketNum: array<int>
    const bucketHead: array<int>
    const next: array<int>
    const key: array<nat>
    const data: array<int>
    var usedNum: int
    var freeHead: int

    /** The nodes of each bucket in order, and last the free ones. */
    ghost var Lists: Chains
    ghost var Map: map<nat, int>

    function Hash(k: nat): (h: nat)
      requires indexNum > 0
      ensures h < indexNum
    {
      k % indexNum
    }

    ghost function Heads(): seq<int>
      reads this`freeHead, bucketHead
    {
      bucketHead[..] + [freeHead]
    }

    ghost predicate Memory() {
      && indexNum >= 1 && dataNum >= 2
      && hashVal.Length == bucketNum.Length == bucketHead.Length == indexNum
      && next.Length == key.Length == data.Length == dataNum
      && hashVal != bucketNum && hashVal != bucketHead && hashVal != next && hashVal != data
      && bucketNum != bucketHead && bucketNum != next && bucketNum != data
      && bucketHead != next && bucketHead != data && next != data
      && (var keys: object := key;
          keys != hashVal && keys != bucketNum && keys != bucketHead && keys != next && keys != data)
    }

    /** The memory given to Init. */
    constructor (iIndexNum: nat, iDataNum: nat)
      requires iIndexNum >= 1 && iDataNum >= 2
      ensures Memory() && indexNum == iIndexNum && dataNum == iDataNum
    {
      indexNum, dataNum := iIndexNum, iDataNum;
      hashVal := new int[iIndexNum];
      bucketNum := new int[iIndexNum];
      bucketHead := new int[iIndexNum];
      next := new int[iDataNum];
      key := new nat[iDataNum];
      data := new int[iDataNum];
      usedNum, freeHead := 0, 0;
      Lists, Map := [], map[];
    }

    /** Every node but the null one is in exactly one place of one bucket or of the free list. */
    lemma NodesPartition(k: nat)
      requires Valid() && 0 < k < dataNum
      ensures Listed(Lists, k)
      ensures forall b: nat, i: nat, c: nat, j: nat |
                b < |Lists| && i < |Lists[b]| && c < |Lists| && j < |Lists[c]| && Lists[b][i] == k &&
                    Lists[c][j] == k ::
                b == c && i == j
    {
      hide Total, Holds;
      forall m: nat | Listed(Lists, m)
        ensures 0 < m < dataNum
      {
        var b: nat, i: nat :| b < |Lists| && i < |Lists[b]| && Lists[b][i] == m;
        PlaceLinked(next[..], Heads(), Lists, b, i);
      }
      Partition(Lists, dataNum, k);
    }

    ghost predicate Valid()
      reads this, hashVal, bucketNum, bucketHead, next, key, data
    {
      && Memory() && |Lists| == indexNum + 1 && |Heads()| == indexNum + 1
      && (forall h | 0 <= h < indexNum :: hashVal[h] == h)
      && Consistent(next[..], Heads(), bucketNum[..], key[..], data[..], usedNum, Lists, indexNum, Map)
    }

    /** The search loop of Insert, Update, Remove and Get. */
    method Find(k: nat) returns (node: nat, last: nat, ghost i: nat)
      requires Valid()
      ensures node == 0 <==> k !in Map
      ensures node != 0 ==>
                && i < |Lists[k % indexNum]| && Lists[k % indexNum][i] == node < dataNum && key[node] == k
                && Map[k] == data[node]
                && last == if i == 0 then 0 else Lists[k % indexNum][i - 1]
    {
      hide Separate, Linked, Holds, Total;
      ghost var h := k % indexNum;
      PlaceLinked(next[..], Heads(), Lists, h, 0);
      var p := bucketHead[Hash(k)];
      last, i := 0, 0;
      while p != 0 && key[p] != k
        invariant 0 <= p < dataNum && i <= |Lists[h]| && p == Place(Lists, h, i)
        invariant p == 0 <==> i == |Lists[h]|
        invariant last == if i == 0 then 0 else Lists[h][i - 1]
        invariant forall j: nat | j < i :: Lists[h][j] < key.Length && key[Lists[h][j]] != k
        decreases |Lists[h]| - i
      {
        PlaceLinked(next[..], Heads(), Lists, h, i);
        PlaceLinked(next[..], Heads(), Lists, h, i + 1);
        last, p, i := p, next[p], i + 1;
      }
      if p == 0 {
        NotFound(key[..], data[..], Lists, indexNum, Map, k);
      } else {
        WhereFound(key[..], data[..], Lists, indexNum, Map, h, i);
      }
      node := p;
    }

    method Insert(k: nat, v: int) returns (rc: int)
      requires Valid()
      modifies this, bucketNum, bucketHead, next, key, data
      ensures Valid()
      ensures rc == if k in old(Map) then E_NODE_EXIST else if |old(Map)| >= dataNum - 1 then E_NO_SPACE else SUCCESS
      ensures Map == if rc == SUCCESS then old(Map)[k := v] else old(Map)
    {
      hide Consistent, Moved;
      var h := Hash(k);
      var node, last, i := Find(k);
      if node > 0 {
        return E_NODE_EXIST;
      }
      ghost var nx, heads, buckets := next[..], Heads(), bucketNum[..];
      FreeLeft(nx, heads, buckets, key[..], data[..], usedNum, Lists, indexNum, Map);
      var free := GetFreeNode();
      if free <= 0 {
        return free;
      }
      ConsistentInsert(nx, heads, buckets, key[..], data[..], usedNum - 1, Lists, indexNum, Map, k, v);
      key[free] := k;
      next[free] := bucketHead[h];
      data[free] := v;
      bucketHead[h] := free;
      bucketNum[h] := bucketNum[h] + 1;
      Lists := Moved(Lists, indexNum, 0, h);
      Map := Map[k := v];
      HeadsMoved(heads, bucketHead[..], freeHead, h, free);
      return SUCCESS;
    }

    method GetFreeNode() returns (free: int)
      requires Memory() && freeHead < dataNum
      modifies this`usedNum, this`freeHead
      ensures
        if dataNum - old(usedNum) <= 0 || old(freeHead) <= 0 then
          free == E_NO_SPACE && usedNum == old(usedNum) && freeHead == old(freeHead)
        else free == old(freeHead) && usedNum == old(usedNum) + 1 && freeHead == next[free]
    {
      free := freeHead;
      if dataNum - usedNum <= 0 || free <= 0 {
        free := E_NO_SPACE;
      } else {
        usedNum := usedNum + 1;
        freeHead := next[free];
      }
    }

    method Update(k: nat, v: int) returns (rc: int)
      requires Valid()
      modifies this`Map, data
      ensures Valid()
      ensures rc == if k in old(Map) then SUCCESS else E_NO_NODE
      ensures Map == if k in old(Map) then old(Map)[k := v] else old(Map)
    {
      hide Separate, Linked, Holds, Total;
      var node, last, i := Find(k);
      if node > 0 {
        HoldsUpdate(key[..], data[..], Lists, indexNum, Map, k % indexNum, i, v);
        MapWith(Map, k, v);
        data[node] := v;
        Map := Map[k := v];
        return SUCCESS;
      }
      return E_NO_NODE;
    }

    method Remove(k: nat) returns (rc: int, ghost i: nat)
      requires Valid()
      modifies this, bucketNum, bucketHead, next
      ensures Valid()
      ensures rc == if k in old(Map) then SUCCESS else E_NO_NODE
      ensures Map == old(Map) - {k}
      ensures rc == SUCCESS ==>
                var l := old(Lists)[k % indexNum];
                i < |l| && l[i] < dataNum && key[l[i]] == k
                && Lists == Moved(old(Lists), k % indexNum, i, indexNum)
    {
      hide Consistent, Moved;
      var h := Hash(k);
      rc := SUCCESS;
      var node, last;
      node, last, i := Find(k);
      MapWithout(Map, k);
      if node > 0 {
        rc := TakeOut(h, node, last, i);
      } else {
        rc := E_NO_NODE;
      }
    }

    /** The part of Remove that takes the i-th node out of its bucket and recycles it. */
    method TakeOut(h: nat, node: nat, last: nat, ghost i: nat) returns (rc: int)
      requires Valid() && h < indexNum && i < |Lists[h]| && Lists[h][i] == node < dataNum
      requires last == if i == 0 then 0 else Lists[h][i - 1]
      modifies this, bucketNum, bucketHead, next
      ensures Valid() && rc == SUCCESS
      ensures Map == old(Map) - {key[node]} && Lists == Moved(old(Lists), h, i, indexNum)
    {
      hide Consistent, Moved;
      ConsistentRemove(next[..], Heads(), bucketNum[..], key[..], data[..], usedNum, Lists, indexNum, Map, h, i);
      Detach(h, node, last);
      bucketNum[h] := bucketNum[h] - 1;
      rc := RecycleNode(node);
      Lists := Moved(Lists, h, i, indexNum);
      Map := Map - {key[node]};
    }

    /** The part of Remove that takes a node out of its bucket's chain. */
    method Detach(h: nat, node: nat, last: nat)
      requires Memory() && h < indexNum && 0 < node < dataNum && last < dataNum
      modifies bucketHead, next
      ensures last == 0 ==> next[..] == old(next[..]) && Heads() == old(Heads())[h := next[node]]
      ensures last != 0 ==> next[..] == old(next[..])[last := old(next[..])[node]] && Heads() == old(Heads())
    {
      if last == 0 {
        bucketHead[h] := next[node];
      } else {
        next[last] := next[node];
      }
    }

    method RecycleNode(node: nat) returns (rc: int)
      requires Memory() && 0 < node < dataNum
      modifies this`usedNum, this`freeHead, next
      ensures rc == SUCCESS && usedNum == old(usedNum) - 1
      ensures next[..] == old(next[..])[node := old(Heads())[indexNum]] && Heads() == old(Heads())[indexNum := node]
    {
      if node == 0 || node > dataNum {
        return ERROR;
      }
      usedNum := usedNum - 1;
      next[node] := freeHead;
      freeHead := node;
      return SUCCESS;
    }

    method Get(k: nat) returns (rc: int, v: int)
      requires Valid()
      ensures rc == if k in Map then SUCCESS else E_NO_NODE
      ensures rc == SUCCESS ==> v == Map[k]
    {
      var node, last, i := Find(k);
      if node > 0 {
        return SUCCESS, data[node];
      }
      return E_NO_NODE, 0;
    }

    /** The loops of Verify; walk and end say where they lead. */
    method ChainLength(first: int, ghost walk: seq<nat>, ghost end: int) returns (n: nat, ok: bool)
      requires Memory() && Walk(next[..], first, walk, end) && Ends(end, dataNum)
      ensures ok <==> end == 0
      ensures ok ==> n == |walk|
    {
      var p := first;
      n := 0;
      while p != 0
        invariant n <= |walk| && p == WalkAt(walk, end, n)
        decreases |walk| - n
      {
        assert n < |walk| ==> StepAt(next[..], walk, end, n);
        n := n + 1;
        if p > dataNum {
          return n, false;
        }
        p := next[p];
      }
      assert n < |walk| ==> StepAt(next[..], walk, end, n);
      return n, true;
    }

    /** Verify, on memory that may be damaged, as long as its chains lead somewhere: to null or past the
        nodes.  It succeeds exactly if they all lead to null and the hash values and counters are right; it
        does not look for nodes in two places or under the wrong key. */
    method Verify(ghost walks: Chains, ghost ends: seq<int>) returns (rc: int)
      requires Memory() && |walks| == |ends| == indexNum + 1 && |Heads()| == indexNum + 1
      requires forall b | 0 <= b <= indexNum :: Walk(next[..], Heads()[b], walks[b], ends[b]) && Ends(ends[b], dataNum)
      ensures rc == SUCCESS <==>
              && (forall b | 0 <= b <= indexNum :: ends[b] == 0)
              && (forall i | 0 <= i < indexNum :: hashVal[i] == i && bucketNum[i] == |walks[i]|)
              && usedNum == 1 + Total(walks[..indexNum]) && |walks[indexNum]| + usedNum == dataNum
      ensures Valid() ==> rc == SUCCESS
    {
      hide Separate, Holds, Linked, Walk;
      if Valid() {
        ValidWalks(walks, ends);
      }
      var used := 1;
      for i := 0 to indexNum
        invariant used == 1 + Total(walks[..i])
        invariant forall b | 0 <= b < i :: ends[b] == 0 && hashVal[b] == b && bucketNum[b] == |walks[b]|
      {
        if hashVal[i] != i {
          return E_VERIFY_INDEX_HASHVAL;
        }
        assert Heads()[i] == bucketHead[i];
        var n, ok := ChainLength(bucketHead[i], walks[i], ends[i]);
        if !ok {
          return E_VERIFY_DATA_PTR;
        }
        if n != bucketNum[i] {
          return E_VERIFY_INDEX_DATANUM;
        }
        assert walks[..i + 1][..i] == walks[..i];
        used := used + n;
      }
      if used != usedNum {
        return E_VERIFY_HEAD_USEDDATANUM;
      }
      var free, ok := ChainLength(freeHead, walks[indexNum], ends[indexNum]);
      if !ok {
        return E_VERIFY_DATA_PTR;
      }
      if free + usedNum != dataNum {
        return E_VERIFY_HEAD_TOTALDATANUM;
      }
      return SUCCESS;
    }

    /** In a valid table the walks are the lists. */
    lemma ValidWalks(walks: Chains, ends: seq<int>)
      requires Valid() && |walks| == |ends| == indexNum + 1
      requires forall b | 0 <= b <= indexNum :: Walk(next[..], Heads()[b], walks[b], ends[b]) && Ends(ends[b], dataNum)
      ensures walks == Lists && forall b | 0 <= b <= indexNum :: ends[b] == 0
      ensures usedNum == 1 + Total(Lists[..indexNum]) && |Lists[indexNum]| + usedNum == dataNum
      ensures forall i | 0 <= i < indexNum :: hashVal[i] == i && bucketNum[i] == |Lists[i]|
    {
      hide Separate, Holds, Linked, Walk;
      forall b: nat | b <= indexNum
        ensures walks[b] == Lists[b] && ends[b] == 0
      {
        LinkedWalk(next[..], Heads(), Lists, b);
        OneWalk(next[..], Heads()[b], walks[b], ends[b], Lists[b], 0);
      }
      assert Lists[..indexNum] == Lists[..|Lists| - 1];
    }

    /** Clear: no entries, all nodes but the null one free. */
    method Clear()
      requires Memory()
      modifies this, hashVal, bucketNum, bucketHead, next
      ensures Valid() && Map == map[]
    {
      usedNum, freeHead := 1, 1;
      for i := 0 to indexNum
        invariant usedNum == freeHead == 1
        invariant forall j | 0 <= j < i :: hashVal[j] == j && bucketNum[j] == 0 && bucketHead[j] == 0
      {
        hashVal[i], bucketNum[i], bucketHead[i] := i, 0, 0;
      }
      for i := 1 to dataNum
        invariant usedNum == freeHead == 1
        invariant forall j | 1 <= j < i :: next[j] == j + 1
        invariant forall j | 0 <= j < indexNum :: hashVal[j] == j && bucketNum[j] == 0 && bucketHead[j] == 0
      {
        next[i] := i + 1;
      }
      next[dataNum - 1] := 0;
      hide Consistent;
      ClearedConsistent(next[..], Heads(), bucketNum[..], key[..], data[..], indexNum);
      Lists := Cleared(indexNum, dataNum);
      Map := map[];
    }

    /** ProcessAll on one bucket, with a callback that removes the current entry when drop says so.
        It sees every entry of the bucket exactly once. */
    method ProcessAll(index: nat, drop: (nat, int) -> bool) returns (seen: seq<(nat, int)>)
      requires Valid() && index < indexNum
      modifies this, bucketNum, bucketHead, next
      ensures Valid()
      ensures Swept(old(Map), seen, Map, indexNum, index, drop)
    {
      hide Consistent, Moved, Given, Dropped, Swept;
      seen := [];
      ghost var l, keys, values, m0 := Lists[index], key[..], data[..], Map;
      ghost var kept: seq<nat>, j: nat := [], 0;
      SweepPlan(next[..], Heads(), bucketNum[..], keys, values, usedNum, Lists, indexNum, Map, index, drop);
      ChainOf(next[..], Heads(), bucketNum[..], keys, values, usedNum, Lists, indexNum, Map, index, 0);
      NoneGiven(l, keys, values, drop, m0);
      if bucketNum[index] > 0 {
        var p := bucketHead[index];
        while p != 0
          invariant Valid() && key[..] == keys && data[..] == values
          invariant j <= |l| && Lists[index] == kept + l[j..] && p == (if j < |l| then l[j] else 0)
          invariant seen == Given(l, keys, values, j) && Map == m0 - Dropped(l, keys, values, j, drop)
          decreases |l| - j
        {
          GivenStep(l, keys, values, j, drop);
          WithoutBoth(m0, Dropped(l, keys, values, j, drop), keys[p]);
          seen := seen + [(key[p], data[p])];
          p, kept := Visit(p, drop, index, l, kept, j);
          j := j + 1;
        }
      }
    }

    /** One turn of ProcessAll's loop: the next node is read before the callback. */
    method Visit(p: nat, drop: (nat, int) -> bool, ghost index: nat, ghost l: seq<nat>, ghost kept: seq<nat>,
        ghost j: nat)
      returns (after: int, ghost kept': seq<nat>)
      requires Valid() && index < indexNum && j < |l| && Lists[index] == kept + l[j..] && p == l[j] < dataNum
      modifies this, bucketNum, bucketHead, next
      ensures Valid() && Lists[index] == kept' + l[j + 1..]
      ensures after == if j + 1 < |l| then l[j + 1] else 0
      ensures Map == if drop(key[p], data[p]) then old(Map) - {key[p]} else old(Map)
    {
      hide Consistent;
      KeptStep(kept, l, j);
      ChainOf(next[..], Heads(), bucketNum[..], key[..], data[..], usedNum, Lists, indexNum, Map, index, |kept|);
      after := next[p];
      kept' := kept;
      if drop(key[p], data[p]) {
        RemoveCurrent(p, index, |kept|);
      } else {
        kept' := kept + [l[j]];
      }
    }

    /** The callback removes the entry it was given, which is in place i of its bucket. */
    method RemoveCurrent(node: nat, ghost h: nat, ghost i: nat)
      requires Valid() && h < indexNum && i < |Lists[h]| && Lists[h][i] == node < dataNum
      modifies this, bucketNum, bucketHead, next
      ensures Valid() && Map == old(Map) - {key[node]}
      ensures Lists[h] == old(Lists)[h][..i] + old(Lists)[h][i + 1..]
    {
      hide Consistent, Moved;
      EntriesOf(next[..], Heads(), bucketNum[..], key[..], data[..], usedNum, Lists, indexNum, Map, h);
      ghost var lists := Lists;
      var rc, j := Remove(key[node]);
      MovedOut(lists, h, j, indexNum);
    }
  }
}
