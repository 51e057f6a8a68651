/** CMemPool (mmlib/mem_pool/mem_pool.h): several maps of at most MAP_BLOCK_DATA_NUM entries a block,
    each a chain of blocks taken from one shared fixed-size pool. */
module BlockChains {
  import opened Common
  import opened HashChains
  import FixedPool

  const MAP_BLOCK_DATA_NUM := 50

  const SUCCESS := 0
  const MEM_POOL_NOT_INITED := -103
  const INVALID_MAP_HANDLE := -104
  const NODE_NOT_EXIST := -105
  const NODE_EXIST := -106
  const MEM_POOL_ALLOCATE_FAILED := -107
  const MEM_POOL_RELEASE_FAILED := -108

  type Entry = (nat, int)

  // ----- chains of blocks; -1 ends a chain

  function BlockAt(l: seq<nat>, i: nat): int {
    if i < |l| then l[i] else -1
  }

  ghost predicate BlockLinked(next: seq<int>, entries: seq<seq<Entry>>, lists: Chains, h: nat, i: nat)
    requires h < |lists| && i < |lists[h]|
  {
    var k := lists[h][i];
    && k < |next| == |entries|
    && next[k] == BlockAt(lists[h], i + 1)
    && |entries[k]| <= MAP_BLOCK_DATA_NUM
    && (i + 1 < |lists[h]| ==> |entries[k]| == MAP_BLOCK_DATA_NUM)
  }

  /** Chain h is empty or starts with block h; only its last block may have room. */
  ghost predicate WellLinked(next: seq<int>, entries: seq<seq<Entry>>, lists: Chains) {
    && |lists| == |next| == |entries| && Separate(lists)
    && (forall h: nat | h < |lists| && lists[h] != [] :: lists[h][0] == h)
    && forall h: nat, i: nat | h < |lists| && i < |lists[h]| :: BlockLinked(next, entries, lists, h, i)
  }

  function Block(entries: seq<seq<Entry>>, k: nat): seq<Entry> {
    if k < |entries| then entries[k] else []
  }

  /** The entries along a chain. */
  function Concat(entries: seq<seq<Entry>>, l: seq<nat>): seq<Entry> {
    if l == [] then [] else Block(entries, l[0]) + Concat(entries, l[1..])
  }

  lemma {:induction false} ConcatSame(entries: seq<seq<Entry>>, entries': seq<seq<Entry>>, l: seq<nat>)
    requires forall i: nat | i < |l| :: Block(entries, l[i]) == Block(entries', l[i])
    ensures Concat(entries, l) == Concat(entries', l)
  {
    if l != [] {
      ConcatSame(entries, entries', l[1..]);
    }
  }

  lemma {:induction false} ConcatSplit(entries: seq<seq<Entry>>, l: seq<nat>, m: seq<nat>)
    ensures Concat(entries, l + m) == Concat(entries, l) + Concat(entries, m)
  {
    hide Block;
    if l == [] {
      assert l + m == m;
    } else {
      ConcatSplit(entries, l[1..], m);
      assert (l + m)[1..] == l[1..] + m && (l + m)[0] == l[0];
      assert Concat(entries, l + m) == Block(entries, l[0]) + (Concat(entries, l[1..]) + Concat(entries, m));
    }
  }

  lemma ConcatOne(entries: seq<seq<Entry>>, k: nat)
    ensures Concat(entries, [k]) == Block(entries, k)
  {
    assert [k][1..] == [];
  }

  lemma ConcatUpTo(entries: seq<seq<Entry>>, l: seq<nat>, i: nat)
    requires i < |l|
    ensures Concat(entries, l[..i + 1]) == Concat(entries, l[..i]) + Block(entries, l[i])
    ensures Concat(entries, l) == Concat(entries, l[..i]) + Block(entries, l[i]) + Concat(entries, l[i + 1..])
  {
    assert l[..i + 1] == l[..i] + [l[i]];
    assert l == l[..i + 1] + l[i + 1..];
    ConcatSplit(entries, l[..i], [l[i]]);
    ConcatOne(entries, l[i]);
    ConcatSplit(entries, l[..i + 1], l[i + 1..]);
  }

  predicate HasKey(s: seq<Entry>, key: nat) {
    exists i: nat :: i < |s| && s[i].0 == key
  }

  lemma HasKeySplit(a: seq<Entry>, b: seq<Entry>, key: nat)
    ensures HasKey(a + b, key) <==> HasKey(a, key) || HasKey(b, key)
  {
    if i: nat :| i < |a| && a[i].0 == key {
      assert (a + b)[i].0 == key;
    }
    if i: nat :| i < |b| && b[i].0 == key {
      assert (a + b)[|a| + i].0 == key;
    }
  }

  /** The data of the first entry under key. */
  function Lookup(s: seq<Entry>, key: nat): Option<int> {
    if s == [] then None else if s[0].0 == key then Some(s[0].1) else Lookup(s[1..], key)
  }

  lemma {:induction false} LookupSplit(a: seq<Entry>, b: seq<Entry>, key: nat)
    ensures Lookup(a + b, key) == if HasKey(a, key) then Lookup(a, key) else Lookup(b, key)
    ensures HasKey(a, key) <==> Lookup(a, key).Some?
  {
    if a == [] {
      assert a + b == b;
    } else {
      LookupSplit(a[1..], b, key);
      assert (a + b)[1..] == a[1..] + b;
      assert [a[0]] + a[1..] == a;
      HasKeySplit([a[0]], a[1..], key);
      assert HasKey([a[0]], key) <==> [a[0]][0].0 == key;
    }
  }

  // ----- what the operations do to the chains

  lemma BlocksOf(next: seq<int>, entries: seq<seq<Entry>>, lists: Chains, h: nat)
    requires WellLinked(next, entries, lists) && h < |lists|
    ensures forall k | k in lists[h] :: k < |entries| && |entries[k]| <= MAP_BLOCK_DATA_NUM && Listed(lists, k)
    ensures forall i: nat | i < |lists[h]| :: lists[h][i] < |next| && next[lists[h][i]] == BlockAt(lists[h], i + 1)
    ensures lists[h] != [] ==> lists[h][0] == h
  {
    forall i: nat | i < |lists[h]|
      ensures BlockLinked(next, entries, lists, h, i) && Listed(lists, lists[h][i])
    {
    }
  }

  lemma OwnBlock(next: seq<int>, entries: seq<seq<Entry>>, lists: Chains, k: nat)
    requires WellLinked(next, entries, lists) && k < |lists|
    ensures lists[k] != [] ==> Listed(lists, k)
  {
    if lists[k] != [] {
      assert lists[k][0] == k;
    }
  }

  /** A new map: one empty block. */
  lemma NewChain(next: seq<int>, entries: seq<seq<Entry>>, lists: Chains, k: nat)
    requires WellLinked(next, entries, lists) && k < |lists| && !Listed(lists, k)
    ensures lists[k] == []
    ensures WellLinked(next[k := -1], entries[k := []], lists[k := [k]])
    ensures forall m: nat :: Listed(lists[k := [k]], m) <==> m == k || Listed(lists, m)
  {
    OwnBlock(next, entries, lists, k);
    AppendBlock(lists, k, k);
    assert lists[k] + [k] == [k];
    AppendListed(lists, k, k);
    var next', entries', lists' := next[k := -1], entries[k := []], lists[k := [k]];
    forall h: nat, i: nat | h < |lists| && i < |lists'[h]|
      ensures BlockLinked(next', entries', lists', h, i)
    {
      if h != k {
        assert BlockLinked(next, entries, lists, h, i) && Listed(lists, lists[h][i]);
      }
    }
  }

  lemma AppendBlock(lists: Chains, h: nat, k: nat)
    requires Separate(lists) && h < |lists| && !Listed(lists, k)
    ensures Separate(lists[h := lists[h] + [k]])
  {
    var lists' := lists[h := lists[h] + [k]];
    assert forall c: nat, j: nat | c < |lists| && j < |lists[c]| :: lists[c][j] != k;
    forall c: nat, j: nat | c < |lists'| && j < |lists'[c]|
      ensures if c == h && j == |lists[h]| then lists'[c][j] == k else j < |lists[c]| && lists'[c][j] == lists[c][j]
    {
    }
  }

  lemma AppendListed(lists: Chains, h: nat, k: nat)
    requires h < |lists|
    ensures forall m: nat :: Listed(lists[h := lists[h] + [k]], m) <==> m == k || Listed(lists, m)
  {
    var lists' := lists[h := lists[h] + [k]];
    forall m: nat
      ensures Listed(lists', m) <==> m == k || Listed(lists, m)
    {
      assert lists'[h][|lists[h]|] == k;
      if c: nat, j: nat :| c < |lists| && j < |lists[c]| && lists[c][j] == m {
        assert lists'[c][j] == m;
      }
    }
  }

  /** A further, empty block behind a full one. */
  lemma GrowChain(next: seq<int>, entries: seq<seq<Entry>>, lists: Chains, h: nat, last: nat, k: nat)
    requires WellLinked(next, entries, lists) && h < |lists| && lists[h] != [] && lists[h][|lists[h]| - 1] == last
    requires k < |lists| && !Listed(lists, k) && last < |entries| && |entries[last]| == MAP_BLOCK_DATA_NUM
    ensures WellLinked(next[k := -1][last := k], entries[k := []], lists[h := lists[h] + [k]])
    ensures forall m: nat :: Listed(lists[h := lists[h] + [k]], m) <==> m == k || Listed(lists, m)
  {
    var next', entries', lists' := next[k := -1][last := k], entries[k := []], lists[h := lists[h] + [k]];
    AppendBlock(lists, h, k);
    AppendListed(lists, h, k);
    forall c: nat, j: nat | c < |lists| && j < |lists'[c]|
      ensures BlockLinked(next', entries', lists', c, j)
    {
      if j < |lists[c]| {
        assert lists'[c][j] == lists[c][j];
        assert BlockLinked(next, entries, lists, c, j) && Listed(lists, lists[c][j]);
        assert lists[c][j] == last ==> c == h && j == |lists[h]| - 1;
      } else {
        assert Listed(lists, last);
      }
    }
  }

  /** A further entry in the last block. */
  lemma FillBlock(next: seq<int>, entries: seq<seq<Entry>>, lists: Chains, h: nat, last: nat, e: Entry)
    requires WellLinked(next, entries, lists) && h < |lists| && lists[h] != [] && lists[h][|lists[h]| - 1] == last
    requires last < |entries| && |entries[last]| < MAP_BLOCK_DATA_NUM
    ensures WellLinked(next, entries[last := entries[last] + [e]], lists)
  {
    var entries' := entries[last := entries[last] + [e]];
    forall c: nat, j: nat | c < |lists| && j < |lists[c]|
      ensures BlockLinked(next, entries', lists, c, j)
    {
      assert BlockLinked(next, entries, lists, c, j);
      assert lists[c][j] == last ==> c == h && j == |lists[h]| - 1;
    }
  }

  lemma DropChain(next: seq<int>, entries: seq<seq<Entry>>, lists: Chains, h: nat)
    requires WellLinked(next, entries, lists) && h < |lists|
    ensures WellLinked(next, entries, lists[h := []])
    ensures forall m: nat :: Listed(lists[h := []], m) <==> Listed(lists, m) && m !in lists[h]
  {
    var lists' := lists[h := []];
    forall c: nat, j: nat | c < |lists'| && j < |lists'[c]|
      ensures BlockLinked(next, entries, lists', c, j)
    {
      assert BlockLinked(next, entries, lists, c, j);
    }
    forall m: nat
      ensures Listed(lists', m) <==> Listed(lists, m) && m !in lists[h]
    {
      if Listed(lists, m) && m !in lists[h] {
        var c: nat, j: nat :| c < |lists| && j < |lists[c]| && lists[c][j] == m;
        assert lists'[c][j] == m;
      }
      if c: nat, j: nat :| c < |lists'| && j < |lists'[c]| && lists'[c][j] == m {
        assert lists[c][j] == m;
      }
    }
  }

  ghost predicate InUse(bits: seq<bv8>, n: nat, lists: Chains)
    requires |bits| == (n + 7) / 8
  {
    forall k: nat | k < n :: FixedPool.UsedIn(bits, k) <==> Listed(lists, k)
  }

  /** All maps that live in one pool, and the one the object is set to. */
  class MemPool {
    const inited: bool
    const pool: FixedPool.Pool
    const next: array<int>
    /** The first iUsedDataNum keys and data of each block. */
    const entries: array<seq<Entry>>
    var mapHandle: int

    /** The blocks of the map with handle h, empty if there is none. */
    ghost var Lists: Chains

    ghost function Contents(h: nat): seq<Entry>
      requires h < |Lists|
      reads this`Lists, entries
    {
      Concat(entries[..], Lists[h])
    }

    ghost predicate Valid()
      reads this, pool, pool.freeList, pool.usedBit, next, entries
    {
      && pool.Valid() && pool.n == |Lists| == next.Length == entries.Length && pool.usedBit.Length == (pool.n + 7) / 8
      && next != pool.freeList && (var bits: object := pool.usedBit; bits != next && bits != entries)
      && (var e: object := entries; e != next && e != pool.freeList)
      && WellLinked(next[..], entries[..], Lists)
      && InUse(pool.usedBit[..], pool.n, Lists)
      && (0 <= mapHandle < pool.n ==> Lists[mapHandle] != [])
    }

    /** InitMemPool with the clear flag. */
    constructor (nodeNum: nat)
      requires nodeNum >= 2
      ensures Valid() && inited && mapHandle == -1
      ensures forall h: nat | h < |Lists| :: Lists[h] == []
      ensures fresh(pool) && fresh(pool.freeList) && fresh(pool.usedBit) && fresh(next) && fresh(entries)
    {
      inited := true;
      pool := new FixedPool.Pool(nodeNum);
      next := new int[nodeNum];
      entries := new seq<Entry>[nodeNum](_ => []);
      mapHandle := -1;
      Lists := seq(nodeNum, _ => []);
      new;
      NoneInUse(pool.usedBit[..], nodeNum, pool.Free);
    }

    /** NewMap: an empty map in a block of its own. */
    method NewMap() returns (rc: int)
      requires Valid()
      modifies this, pool, pool.freeList, pool.usedBit, next, entries
      ensures Valid()
      ensures rc < 0 ==> Lists == old(Lists) && mapHandle == old(mapHandle) && pool.Free == old(pool.Free)
      ensures rc < 0 ==> rc == if !inited then MEM_POOL_NOT_INITED else MEM_POOL_ALLOCATE_FAILED
      ensures rc < 0 <==> !inited || |old(pool.Free)| == 1
      ensures rc >= 0 ==>
                && rc < |Lists| && mapHandle == rc && !Listed(old(Lists), rc) && old(Lists)[rc] == []
                && Lists == old(Lists)[rc := [rc]] && Contents(rc) == []
                && pool.Free == old(pool.Free)[1..]
      ensures forall h: nat | h < |Lists| && h != rc :: Contents(h) == old(Contents(h))
    {
      hide WellLinked, InUse, Listed, FixedPool.UsedIn, FixedPool.Pool.Valid;
      if !inited {
        return MEM_POOL_NOT_INITED;
      }
      ghost var bits, nx, es, lists := pool.usedBit[..], next[..], entries[..], Lists;
      var node := pool.AllocateNode();
      if node == None {
        InUseSame(bits, pool.usedBit[..], pool.n, Lists);
        return MEM_POOL_ALLOCATE_FAILED;
      }
      var k := node.value;
      NotInUse(bits, pool.n, Lists, k);
      NewChain(nx, es, lists, k);
      entries[k] := [];
      next[k] := -1;
      Lists := lists[k := [k]];
      InUseAlso(bits, pool.usedBit[..], pool.n, lists, Lists, k);
      NotIn(lists, k);
      OthersSame(es, entries[..], lists, k, k);
      ConcatOne(entries[..], k);
      mapHandle := k;
      return k;
    }

    /** InitWithHandle: sets the object to another live map. */
    method InitWithHandle(iMapHandle: int) returns (rc: int)
      requires Valid() && (0 <= iMapHandle < pool.n ==> Lists[iMapHandle] != [])
      modifies this`mapHandle
      ensures Valid()
      ensures rc == if !inited then MEM_POOL_NOT_INITED
                    else if iMapHandle < 0 || iMapHandle >= pool.n then INVALID_MAP_HANDLE else SUCCESS
      ensures mapHandle == if rc == SUCCESS then iMapHandle else old(mapHandle)
    {
      if !inited {
        return MEM_POOL_NOT_INITED;
      }
      if iMapHandle < 0 || iMapHandle >= pool.n {
        return INVALID_MAP_HANDLE;
      }
      mapHandle := iMapHandle;
      return SUCCESS;
    }

    function Usable(): (rc: int)
      reads this`mapHandle
    {
      if !inited then MEM_POOL_NOT_INITED
      else if mapHandle < 0 || mapHandle >= pool.n then INVALID_MAP_HANDLE else SUCCESS
    }

    /** GetNode: the data stored under key. */
    method GetNode(key: nat) returns (rc: int, data: int)
      requires Valid()
      ensures Usable() != SUCCESS ==> rc == Usable()
      ensures Usable() == SUCCESS ==>
                match Lookup(Contents(mapHandle), key)
                case None => rc == NODE_NOT_EXIST
                case Some(v) => rc == SUCCESS && data == v
    {
      hide WellLinked, InUse, Lookup;
      data := 0;
      if !inited {
        return MEM_POOL_NOT_INITED, data;
      }
      if mapHandle < 0 || mapHandle >= pool.n {
        return INVALID_MAP_HANDLE, data;
      }
      ghost var l, es := Lists[mapHandle], entries[..];
      BlocksOf(next[..], es, Lists, mapHandle);
      var block := mapHandle;
      ghost var j := 0;
      while block != -1
        invariant j <= |l| && block == BlockAt(l, j) && (block == -1 <==> j == |l|)
        invariant !HasKey(Concat(es, l[..j]), key)
        decreases |l| - j
      {
        var found, v := FindIn(entries[block], key);
        ConcatUpTo(es, l, j);
        HasKeySplit(Concat(es, l[..j]), es[block], key);
        if found {
          FirstFound(Concat(es, l[..j]), es[block], Concat(es, l[j + 1..]), key);
          return SUCCESS, v;
        }
        block := next[block];
        j := j + 1;
      }
      assert l[..j] == l;
      LookupSplit(Contents(mapHandle), [], key);
      return NODE_NOT_EXIST, data;
    }

    /** The inner loop of GetNode and InsertNode. */
    static method FindIn(block: seq<Entry>, key: nat) returns (found: bool, v: int)
      ensures found <==> HasKey(block, key)
      ensures found ==> Lookup(block, key) == Some(v)
    {
      for i := 0 to |block|
        invariant !HasKey(block[..i], key)
      {
        assert block[..i + 1] == block[..i] + [block[i]];
        HasKeySplit(block[..i], [block[i]], key);
        if block[i].0 == key {
          LookupSplit(block[..i], block[i..], key);
          assert block == block[..i] + block[i..];
          assert HasKey(block, key);
          return true, block[i].1;
        }
        assert HasKey([block[i]], key) <==> [block[i]][0].0 == key;
      }
      assert block[..|block|] == block;
      return false, 0;
    }

    /** GetAllNode: the data in insertion order. */
    method GetAllNode() returns (rc: int, all: seq<int>)
      requires Valid()
      ensures rc == Usable()
      ensures rc == SUCCESS ==> all == DataOf(Contents(mapHandle))
    {
      hide WellLinked, InUse, DataOf, Concat, FixedPool.Pool.Valid;
      DataOfNone(entries[..]);
      all := [];
      if !inited {
        return MEM_POOL_NOT_INITED, all;
      }
      if mapHandle < 0 || mapHandle >= pool.n {
        return INVALID_MAP_HANDLE, all;
      }
      ghost var l, es := Lists[mapHandle], entries[..];
      BlocksOf(next[..], es, Lists, mapHandle);
      var block := mapHandle;
      ghost var j := 0;
      while block != -1
        invariant j <= |l| && block == BlockAt(l, j) && (block == -1 <==> j == |l|)
        invariant all == DataOf(Concat(es, l[..j]))
        decreases |l| - j
      {
        ConcatUpTo(es, l, j);
        DataOfSplit(Concat(es, l[..j]), entries[block]);
        all := all + DataOf(entries[block]);
        block := next[block];
        j := j + 1;
      }
      assert l[..j] == l;
      return SUCCESS, all;
    }

    /** InsertNode: a new entry at the end of the map, in a further block when the last is full.  It
        touches no other map. */
    method InsertNode(key: nat, data: int) returns (rc: int)
      requires Valid()
      modifies this`Lists, pool, pool.freeList, pool.usedBit, next, entries
      ensures Valid()
      ensures rc == if Usable() != SUCCESS then Usable()
                    else if HasKey(old(Contents(mapHandle)), key) then NODE_EXIST
                    else if |old(pool.Free)| == 1
                            && |old(Contents(mapHandle))| == MAP_BLOCK_DATA_NUM * |old(Lists)[mapHandle]|
                    then MEM_POOL_ALLOCATE_FAILED
                    else SUCCESS
      ensures rc == SUCCESS ==> Contents(mapHandle) == old(Contents(mapHandle)) + [(key, data)]
      ensures rc != SUCCESS ==> Lists == old(Lists) && entries[..] == old(entries[..]) && pool.Free == old(pool.Free)
      ensures forall h: nat | h < |Lists| && h != mapHandle ::
              Contents(h) == old(Contents(h)) && Lists[h] == old(Lists)[h]
    {
      hide WellLinked, InUse, Listed, Concat, FixedPool.UsedIn, FixedPool.Pool.Valid;
      if !inited {
        return MEM_POOL_NOT_INITED;
      }
      if mapHandle < 0 || mapHandle >= pool.n {
        return INVALID_MAP_HANDLE;
      }
      var found, last := FindLast(key);
      if found {
        return NODE_EXIST;
      }
      ChainSize(next[..], entries[..], Lists, mapHandle);
      if |entries[last]| == MAP_BLOCK_DATA_NUM {
        var added := Grow(last);
        if added == -1 {
          return MEM_POOL_ALLOCATE_FAILED;
        }
        last := added;
      }
      Append(last, (key, data));
      return SUCCESS;
    }

    /** The search of InsertNode: it also finds the last block. */
    method FindLast(key: nat) returns (found: bool, last: nat)
      requires Valid() && 0 <= mapHandle < pool.n
      ensures found <==> HasKey(Contents(mapHandle), key)
      ensures !found ==> last == Lists[mapHandle][|Lists[mapHandle]| - 1]
    {
      hide WellLinked, InUse, Lookup, Concat, HasKey, FixedPool.Pool.Valid;
      ghost var l, es := Lists[mapHandle], entries[..];
      BlocksOf(next[..], es, Lists, mapHandle);
      NoKey(es, key);
      var block := mapHandle;
      last := mapHandle;
      ghost var j := 0;
      while block != -1
        invariant j <= |l| && block == BlockAt(l, j) && (block == -1 <==> j == |l|)
        invariant j > 0 ==> last == l[j - 1]
        invariant !HasKey(Concat(es, l[..j]), key)
        decreases |l| - j
      {
        var here, v := FindIn(entries[block], key);
        ConcatUpTo(es, l, j);
        HasKeySplit(Concat(es, l[..j]), es[block], key);
        HasKeySplit(Concat(es, l[..j + 1]), Concat(es, l[j + 1..]), key);
        if here {
          return true, last;
        }
        last := block;
        block := next[block];
        j := j + 1;
      }
      assert l[..j] == l;
      return false, last;
    }

    /** A further, empty block behind the full last one; -1 if the pool is exhausted. */
    method Grow(last: nat) returns (k: int)
      requires Valid() && 0 <= mapHandle < pool.n && last == Lists[mapHandle][|Lists[mapHandle]| - 1]
      requires last < entries.Length && |entries[last]| == MAP_BLOCK_DATA_NUM
      modifies this`Lists, pool, pool.freeList, pool.usedBit, next, entries
      ensures Valid()
      ensures k == -1 <==> |old(pool.Free)| == 1
      ensures k == -1 ==> Lists == old(Lists) && entries[..] == old(entries[..]) && pool.Free == old(pool.Free)
      ensures k != -1 ==>
                0 <= k < |Lists| && Lists == old(Lists)[mapHandle := old(Lists)[mapHandle] + [k]] && entries[k] == []
      ensures forall h: nat | h < |Lists| :: Contents(h) == old(Contents(h))
    {
      hide WellLinked, InUse, Listed, Concat, FixedPool.UsedIn, FixedPool.Pool.Valid;
      ghost var bits, nx, es, lists := pool.usedBit[..], next[..], entries[..], Lists;
      var node := pool.AllocateNode();
      if node == None {
        InUseSame(bits, pool.usedBit[..], pool.n, Lists);
        return -1;
      }
      k := node.value;
      NotInUse(bits, pool.n, Lists, node.value);
      GrowChain(nx, es, lists, mapHandle, last, node.value);
      entries[k] := [];
      next[k] := -1;
      next[last] := k;
      Lists := lists[mapHandle := lists[mapHandle] + [node.value]];
      InUseAlso(bits, pool.usedBit[..], pool.n, lists, Lists, node.value);
      NotIn(lists, node.value);
      OthersSame(es, entries[..], lists, |lists|, node.value);
      ConcatSplit(entries[..], lists[mapHandle], [node.value]);
      ConcatOne(entries[..], node.value);
    }

    /** One more entry in the last block, which has room. */
    method Append(last: nat, e: Entry)
      requires Valid() && 0 <= mapHandle < pool.n && last == Lists[mapHandle][|Lists[mapHandle]| - 1]
      requires last < entries.Length && |entries[last]| < MAP_BLOCK_DATA_NUM
      modifies entries
      ensures Valid() && Contents(mapHandle) == old(Contents(mapHandle)) + [e]
      ensures forall h: nat | h < |Lists| && h != mapHandle :: Contents(h) == old(Contents(h))
    {
      hide WellLinked, InUse, Listed, Concat, FixedPool.UsedIn, FixedPool.Pool.Valid;
      ghost var es, l := entries[..], Lists[mapHandle];
      FillBlock(next[..], es, Lists, mapHandle, last, e);
      LastAlone(next[..], es, Lists, mapHandle);
      entries[last] := entries[last] + [e];
      OthersSame(es, entries[..], Lists, mapHandle, last);
      var init := |l| - 1;
      ConcatUpTo(es, l, init);
      ConcatUpTo(entries[..], l, init);
      assert l[..init + 1] == l;
      ConcatSame(es, entries[..], l[..init]);
    }

    /** ReleaseMap's loop over the blocks of the list l. */
    method ReleaseBlocks(first: int, ghost l: seq<nat>) returns (ok: bool)
      requires pool.Valid() && next.Length == pool.n && pool.usedBit.Length == (pool.n + 7) / 8
      requires next != pool.freeList && var bits: object := pool.usedBit; bits != next
      requires first == BlockAt(l, 0)
      requires forall i: nat | i < |l| :: l[i] < pool.n && next[l[i]] == BlockAt(l, i + 1)
      requires forall i: nat | i < |l| :: FixedPool.UsedIn(pool.usedBit[..], l[i]) && l[i] !in l[..i]
      modifies pool, pool.freeList, pool.usedBit
      ensures pool.Valid() && ok && pool.Free == old(pool.Free) + l
      ensures forall k: nat | k < pool.n ::
              FixedPool.UsedIn(pool.usedBit[..], k) == (FixedPool.UsedIn(old(pool.usedBit[..]), k) && k !in l)
    {
      hide FixedPool.UsedIn, FixedPool.Pool.Valid, FixedPool.Pool.Marked, FixedPool.Bit;
      var block := first;
      ghost var j := 0;
      while block != -1
        invariant pool.Valid() && j <= |l| && block == BlockAt(l, j)
        invariant pool.Free == old(pool.Free) + l[..j]
        invariant forall k: nat | k < pool.n ::
                    FixedPool.UsedIn(pool.usedBit[..], k) ==
                        (FixedPool.UsedIn(old(pool.usedBit[..]), k) && k !in l[..j])
        decreases |l| - j
      {
        var lastBlock := block;
        block := next[block];
        ReleasedStep(l, j);
        var ret := pool.ReleaseNode(lastBlock, true);
        if ret != FixedPool.SUCCESS {
          return false;
        }
        j := j + 1;
      }
      assert l[..j] == l;
      return true;
    }

    /** ReleaseMap: exactly the map's own blocks go back to the pool. */
    method ReleaseMap() returns (rc: int)
      requires Valid()
      modifies this, pool, pool.freeList, pool.usedBit
      ensures Valid() && rc == old(Usable())
      ensures rc != SUCCESS ==> Lists == old(Lists) && mapHandle == old(mapHandle) && pool.Free == old(pool.Free)
      ensures rc == SUCCESS ==>
                && mapHandle == -1 && Lists == old(Lists)[old(mapHandle) := []]
                && pool.Free == old(pool.Free) + old(Lists)[old(mapHandle)]
      ensures forall h: nat | h < |Lists| && h != old(mapHandle) :: Contents(h) == old(Contents(h))
    {
      hide WellLinked, InUse, Listed, Concat, FixedPool.UsedIn, FixedPool.Pool.Valid, FixedPool.Pool.Marked,
           FixedPool.Bit;
      if !inited {
        return MEM_POOL_NOT_INITED;
      }
      if mapHandle < 0 || mapHandle >= pool.n {
        return INVALID_MAP_HANDLE;
      }
      ghost var l, free, bits, h := Lists[mapHandle], pool.Free, pool.usedBit[..], mapHandle;
      BlocksOf(next[..], entries[..], Lists, mapHandle);
      BlocksInUse(next[..], entries[..], Lists, mapHandle, bits);
      var ok := ReleaseBlocks(mapHandle, l);
      if !ok {
        return MEM_POOL_RELEASE_FAILED;
      }
      DropChain(next[..], entries[..], Lists, h);
      InUseWithout(bits, pool.usedBit[..], pool.n, Lists, h);
      Lists := Lists[h := []];
      mapHandle := -1;
      return SUCCESS;
    }
  }

  function DataOf(s: seq<Entry>): seq<int> {
    seq(|s|, i requires 0 <= i < |s| => s[i].1)
  }

  /** The first entry with the key is in the middle part. */
  lemma FirstFound(a: seq<Entry>, b: seq<Entry>, c: seq<Entry>, key: nat)
    requires !HasKey(a, key) && HasKey(b, key)
    ensures Lookup(a + b + c, key) == Lookup(b, key)
  {
    LookupSplit(a, b, key);
    HasKeySplit(a, b, key);
    LookupSplit(a + b, c, key);
  }

  lemma NoKey(entries: seq<seq<Entry>>, key: nat)
    ensures !HasKey(Concat(entries, []), key)
  {
  }

  /** All blocks but the last are full. */
  lemma {:induction false} FullPrefix(entries: seq<seq<Entry>>, l: seq<nat>)
    requires forall i: nat | i < |l| :: |Block(entries, l[i])| == MAP_BLOCK_DATA_NUM
    ensures |Concat(entries, l)| == MAP_BLOCK_DATA_NUM * |l|
  {
    if l != [] {
      FullPrefix(entries, l[1..]);
    }
  }

  lemma ChainSize(next: seq<int>, entries: seq<seq<Entry>>, lists: Chains, h: nat)
    requires WellLinked(next, entries, lists) && h < |lists| && lists[h] != []
    ensures
      var last := lists[h][|lists[h]| - 1];
      && last < |entries| && |entries[last]| <= MAP_BLOCK_DATA_NUM
      && |Concat(entries, lists[h])| == MAP_BLOCK_DATA_NUM * (|lists[h]| - 1) + |entries[last]|
  {
    var l := lists[h];
    var init := |l| - 1;
    assert BlockLinked(next, entries, lists, h, init);
    forall i: nat | i < init
      ensures |Block(entries, l[..init][i])| == MAP_BLOCK_DATA_NUM
    {
      assert BlockLinked(next, entries, lists, h, i);
    }
    FullPrefix(entries, l[..init]);
    ConcatUpTo(entries, l, init);
    assert l[..init + 1] == l;
  }

  /** A chain's last block is in no other chain, nor earlier in its own. */
  lemma LastAlone(next: seq<int>, entries: seq<seq<Entry>>, lists: Chains, h: nat)
    requires WellLinked(next, entries, lists) && h < |lists| && lists[h] != []
    ensures forall c: nat | c < |lists| && c != h :: lists[h][|lists[h]| - 1] !in lists[c]
    ensures forall i: nat | i < |lists[h]| - 1 :: lists[h][i] != lists[h][|lists[h]| - 1]
  {
    forall c: nat | c < |lists| && c != h
      ensures lists[h][|lists[h]| - 1] !in lists[c]
    {
    }
  }

  lemma BlocksInUse(next: seq<int>, entries: seq<seq<Entry>>, lists: Chains, h: nat, bits: seq<bv8>)
    requires WellLinked(next, entries, lists) && h < |lists| && |bits| == (|lists| + 7) / 8 &&
             InUse(bits, |lists|, lists)
    ensures forall i: nat | i < |lists[h]| :: lists[h][i] < |lists| && FixedPool.UsedIn(bits, lists[h][i])
    ensures forall i: nat | i < |lists[h]| :: lists[h][i] !in lists[h][..i]
  {
    hide FixedPool.UsedIn;
    forall i: nat | i < |lists[h]|
      ensures BlockLinked(next, entries, lists, h, i) && Listed(lists, lists[h][i])
    {
    }
    forall i: nat | i < |lists[h]|
      ensures lists[h][i] !in lists[h][..i]
    {
    }
  }

  lemma ReleasedStep(l: seq<nat>, j: nat)
    requires j < |l|
    ensures l[..j + 1] == l[..j] + [l[j]]
    ensures forall k: nat :: k in l[..j + 1] <==> k in l[..j] || k == l[j]
  {
    assert l[..j + 1] == l[..j] + [l[j]];
  }

  lemma InUseWithout(bits: seq<bv8>, bits': seq<bv8>, n: nat, lists: Chains, h: nat)
    requires |bits| == |bits'| == (n + 7) / 8 && InUse(bits, n, lists) && h < |lists|
    requires forall j: nat | j < n :: FixedPool.UsedIn(bits', j) == (FixedPool.UsedIn(bits, j) && j !in lists[h])
    requires forall m: nat :: Listed(lists[h := []], m) <==> Listed(lists, m) && m !in lists[h]
    ensures InUse(bits', n, lists[h := []])
  {
  }

  /** An insertion answers later searches for its key, and changes no other answer. */
  lemma LookupAfterInsert(s: seq<Entry>, key: nat, data: int, other: nat)
    requires !HasKey(s, key)
    ensures Lookup(s + [(key, data)], key) == Some(data)
    ensures other != key ==> Lookup(s + [(key, data)], other) == Lookup(s, other)
  {
    var e := [(key, data)];
    LookupSplit(s, e, key);
    LookupSplit(s, e, other);
    assert e[1..] == [];
    assert Lookup(e, key) == Some(data) && (other != key ==> Lookup(e, other) == None);
  }

  lemma NotIn(lists: Chains, k: nat)
    requires !Listed(lists, k)
    ensures forall c: nat | c < |lists| :: k !in lists[c]
  {
  }

  lemma DataOfNone(entries: seq<seq<Entry>>)
    ensures DataOf(Concat(entries, [])) == []
  {
  }

  lemma DataOfSplit(a: seq<Entry>, b: seq<Entry>)
    ensures DataOf(a + b) == DataOf(a) + DataOf(b)
  {
  }

  lemma OthersSame(entries: seq<seq<Entry>>, entries': seq<seq<Entry>>, lists: Chains, h: nat, changed: nat)
    requires |entries'| == |entries| && forall k: nat | k < |entries| && k != changed :: entries'[k] == entries[k]
    requires forall c: nat | c < |lists| && c != h :: changed !in lists[c]
    ensures forall c: nat | c < |lists| && c != h :: Concat(entries', lists[c]) == Concat(entries, lists[c])
  {
    forall c: nat | c < |lists| && c != h
      ensures Concat(entries', lists[c]) == Concat(entries, lists[c])
    {
      ConcatSame(entries, entries', lists[c]);
    }
  }

  lemma NoneInUse(bits: seq<bv8>, n: nat, free: seq<nat>)
    requires n >= 2 && FixedPool.BitsHold(bits, n, free) && free == seq(n - 1, i => i)
    ensures InUse(bits, n, seq(n, _ => []))
  {
    hide FixedPool.UsedIn;
    forall k: nat | k < n
      ensures !FixedPool.UsedIn(bits, k)
    {
      assert k < n - 1 ==> free[k] == k;
    }
  }

  lemma InUseSame(bits: seq<bv8>, bits': seq<bv8>, n: nat, lists: Chains)
    requires |bits| == |bits'| == (n + 7) / 8 && InUse(bits, n, lists)
    requires forall k: nat | k < n :: FixedPool.UsedIn(bits', k) == FixedPool.UsedIn(bits, k)
    ensures InUse(bits', n, lists)
  {
  }

  lemma NotInUse(bits: seq<bv8>, n: nat, lists: Chains, k: nat)
    requires |bits| == (n + 7) / 8 && InUse(bits, n, lists) && k < n && !FixedPool.UsedIn(bits, k)
    ensures !Listed(lists, k)
  {
  }

  lemma InUseAlso(bits: seq<bv8>, bits': seq<bv8>, n: nat, lists: Chains, lists': Chains, k: nat)
    requires |bits| == |bits'| == (n + 7) / 8 && InUse(bits, n, lists)
    requires forall j: nat | j < n :: FixedPool.UsedIn(bits', j) == (j == k || FixedPool.UsedIn(bits, j))
    requires forall m: nat :: Listed(lists', m) <==> m == k || Listed(lists, m)
    ensures InUse(bits', n, lists')
  {
  }
}
