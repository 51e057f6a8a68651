/** CFixedsizeMemPool (mmlib/mem_pool/fixedsize_mem_pool.h): nodes 0 .. N-1, a circular list of
    free nodes and a bitmap of used ones.  Nodes are indices here; what they hold is up to the
    user of the pool. */
module FixedPool {
  import opened Common

  const SUCCESS := 0
  const E_DATAP_ERR := -103
  const E_VERIFY_CYCLE_LIST_ERR := -104
  const E_VERIFY_USEDNODE_NUM := -105
  const E_VERIFY_USEDBIT_FLAG := -106

  // ----- the bitmap

  /** 1 << k in a byte. */
  function Mask(k: nat): bv8
    requires k < 8
  {
    if k == 0 then 1 else if k == 1 then 2 else if k == 2 then 4 else if k == 3 then 8
    else if k == 4 then 16 else if k == 5 then 32 else if k == 6 then 64 else 128
  }

  predicate Bit(b: bv8, k: nat)
    requires k < 8
  {
    b & Mask(k) != 0
  }

  lemma SetBit(b: bv8, k: nat, j: nat)
    requires k < 8 && j < 8
    ensures Bit(b | Mask(k), j) == (j == k || Bit(b, j))
  {
    MaskBits(b, Mask(k), Mask(j));
    MasksDiffer(k, j);
  }

  lemma ClearBit(b: bv8, k: nat, j: nat)
    requires k < 8 && j < 8
    ensures Bit(b & !Mask(k), j) == (j != k && Bit(b, j))
  {
    MaskBits(b, Mask(k), Mask(j));
    MasksDiffer(k, j);
  }

  lemma MasksDiffer(k: nat, j: nat)
    requires k < 8 && j < 8
    ensures Mask(k) != 0
    ensures j != k ==> Mask(k) & Mask(j) == 0
  {
  }

  lemma MaskBits(b: bv8, m: bv8, n: bv8)
    ensures m & n == 0 ==> (b | m) & n == b & n && (b & !m) & n == b & n
    ensures (b | m) & m == m && (b & !m) & m == 0
  {
  }

  // ----- the ring of free nodes

  /** The ring from head to tail holds free, in order. */
  ghost predicate RingHolds(list: seq<int>, head: nat, tail: nat, free: seq<nat>) {
    var n := |list|;
    && n >= 2 && head < n && tail < n
    && 1 <= |free| <= n - 1
    && tail == RingIndex(n, head, |free|)
    && (forall i | 0 <= i < |free| :: list[RingIndex(n, head, i)] == free[i])
    && Distinct(free)
    && (forall i | 0 <= i < |free| :: free[i] < n - 1)
    && (forall i | 0 <= i < n :: 0 <= list[i] < n)
  }

  /** The full test: the ring's head and tail are adjacent exactly when one free node is left. */
  lemma NextPosition(n: nat, head: nat, count: nat)
    requires n >= 2 && head < n && 1 <= count <= n - 1
    ensures (head + 1) % n == RingIndex(n, head, 1)
    ensures (head + 1) % n == RingIndex(n, head, count) <==> count == 1
  {
    if head + 1 == n {
      assert (head + 1) % n == 0;
    }
  }

  lemma RingPop(list: seq<int>, head: nat, tail: nat, free: seq<nat>)
    requires RingHolds(list, head, tail, free) && |free| > 1
    ensures list[head] == free[0]
    ensures RingHolds(list, RingIndex(|list|, head, 1), tail, free[1..])
    ensures free[0] !in free[1..]
  {
    assert RingIndex(|list|, head, 0) == head;
    var head' := RingIndex(|list|, head, 1);
    forall i | 0 <= i < |free| - 1
      ensures list[RingIndex(|list|, head', i)] == free[1..][i]
    {
      assert RingIndex(|list|, head', i) == RingIndex(|list|, head, i + 1);
    }
  }

  lemma RingPush(list: seq<int>, head: nat, tail: nat, free: seq<nat>, k: nat)
    requires RingHolds(list, head, tail, free) && |free| < |list| - 1
    requires k < |list| - 1 && k !in free
    ensures RingHolds(list[tail := k], head, RingIndex(|list|, tail, 1), free + [k])
  {
    var list', free' := list[tail := k], free + [k];
    forall i | 0 <= i < |free'|
      ensures list'[RingIndex(|list|, head, i)] == free'[i]
    {
      if i < |free| {
        assert RingIndex(|list|, head, i) != tail;
      }
    }
  }

  predicate UsedIn(bits: seq<bv8>, k: nat)
    requires k / 8 < |bits|
  {
    Bit(bits[k / 8], k % 8)
  }

  lemma BitsSet(bits: seq<bv8>, k: nat, j: nat)
    requires k / 8 < |bits| && j / 8 < |bits|
    ensures UsedIn(bits[k / 8 := bits[k / 8] | Mask(k % 8)], j) == (j == k || UsedIn(bits, j))
  {
    hide Bit, Mask;
    if j / 8 == k / 8 {
      SetBit(bits[k / 8], k % 8, j % 8);
    }
  }

  lemma BitsCleared(bits: seq<bv8>, k: nat, j: nat)
    requires k / 8 < |bits| && j / 8 < |bits|
    ensures UsedIn(bits[k / 8 := bits[k / 8] & !Mask(k % 8)], j) == (j != k && UsedIn(bits, j))
  {
    hide Bit, Mask;
    if j / 8 == k / 8 {
      ClearBit(bits[k / 8], k % 8, j % 8);
    }
  }

  /** Nodes 0 .. n-2 are either free or in use; the last one is never handed out, and the bits behind
      it stay clear. */
  ghost predicate BitsHold(bits: seq<bv8>, n: nat, free: seq<nat>) {
    && |bits| == (n + 7) / 8
    && forall k: nat | k < 8 * |bits| :: UsedIn(bits, k) <==> k < n - 1 && k !in free
  }

  lemma BitsPop(bits: seq<bv8>, bits': seq<bv8>, n: nat, free: seq<nat>)
    requires BitsHold(bits, n, free) && |free| > 0 && free[0] < n - 1 && free[0] !in free[1..]
    requires bits' == bits[free[0] / 8 := bits[free[0] / 8] | Mask(free[0] % 8)]
    ensures BitsHold(bits', n, free[1..])
    ensures forall j: nat | j < 8 * |bits| :: UsedIn(bits', j) == (j == free[0] || UsedIn(bits, j))
    ensures !UsedIn(bits, free[0])
  {
    hide Bit, Mask;
    assert free[0] in free;
    forall j: nat | j < 8 * |bits|
      ensures UsedIn(bits', j) == (j == free[0] || UsedIn(bits, j))
      ensures j in free <==> j == free[0] || j in free[1..]
    {
      BitsSet(bits, free[0], j);
      assert free == [free[0]] + free[1..];
    }
  }

  lemma BitsPush(bits: seq<bv8>, bits': seq<bv8>, n: nat, free: seq<nat>, k: nat)
    requires BitsHold(bits, n, free) && k < n && UsedIn(bits, k)
    requires bits' == bits[k / 8 := bits[k / 8] & !Mask(k % 8)]
    ensures BitsHold(bits', n, free + [k])
    ensures forall j: nat | j < 8 * |bits| :: UsedIn(bits', j) == (j != k && UsedIn(bits, j))
  {
    hide Bit, Mask;
    forall j: nat | j < 8 * |bits|
      ensures UsedIn(bits', j) == (j != k && UsedIn(bits, j))
      ensures j in free + [k] <==> j == k || j in free
    {
      BitsCleared(bits, k, j);
    }
  }

  /** No ring of the pool holds a list with an entry past the last node. */
  lemma PastTheEnd(list: seq<int>, i: nat, head: nat, tail: nat, free: seq<nat>)
    requires i < |list| && list[i] >= |list|
    ensures !RingHolds(list, head, tail, free)
  {
  }

  lemma EmptyByte(k: nat)
    requires k < 8
    ensures !Bit(0, k)
  {
  }

  // ----- counting used nodes

  ghost function UsedSet(bits: seq<bv8>, n: nat): (u: set<nat>)
    requires |bits| == (n + 7) / 8
    ensures forall k: nat :: k in u <==> k < n && UsedIn(bits, k)
  {
    UsedBelow(bits, n, n)
  }

  ghost function UsedBelow(bits: seq<bv8>, n: nat, m: nat): (u: set<nat>)
    requires |bits| == (n + 7) / 8 && m <= n
    ensures forall k: nat :: k in u <==> k < m && UsedIn(bits, k)
  {
    if m == 0 then {} else UsedBelow(bits, n, m - 1) + if UsedIn(bits, m - 1) then {m - 1} else {}
  }

  lemma UsedBelowNone(bits: seq<bv8>, n: nat)
    requires |bits| == (n + 7) / 8
    ensures UsedBelow(bits, n, 0) == {}
  {
  }

  lemma UsedBelowStep(bits: seq<bv8>, n: nat, m: nat)
    requires |bits| == (n + 7) / 8 && m < n
    ensures |UsedBelow(bits, n, m + 1)| == |UsedBelow(bits, n, m)| + if UsedIn(bits, m) then 1 else 0
  {
    hide UsedIn;
  }

  /** While a node is in use the ring is not full. */
  lemma UsedLeavesRoom(list: seq<int>, bits: seq<bv8>, head: nat, tail: nat, free: seq<nat>, k: nat)
    requires RingHolds(list, head, tail, free) && BitsHold(bits, |list|, free)
    requires k < |list| && UsedIn(bits, k)
    ensures |free| < |list| - 1
  {
    hide Bit, Mask;
    var n := |list|;
    if |free| == n - 1 {
      var e := Elements(free);
      ElementsSize(free);
      assert e <= Below(n - 1);
      assert |Below(n - 1) - {k}| == n - 2;
      SubsetSize(e, Below(n - 1) - {k});
    }
  }

  /** A node in use goes behind the free ones. */
  lemma Released(list: seq<int>, bits: seq<bv8>, head: nat, tail: nat, free: seq<nat>, k: nat)
    requires RingHolds(list, head, tail, free) && BitsHold(bits, |list|, free)
    requires k < |list| && UsedIn(bits, k)
    ensures tail < |list| && k / 8 < |bits|
    ensures
      var bits' := bits[k / 8 := bits[k / 8] & !Mask(k % 8)];
      && RingHolds(list[tail := k], head, (tail + 1) % |list|, free + [k])
      && BitsHold(bits', |list|, free + [k])
      && forall j: nat | j < |list| :: UsedIn(bits', j) == (j != k && UsedIn(bits, j))
  {
    hide Bit, Mask;
    UsedLeavesRoom(list, bits, head, tail, free, k);
    RingPush(list, head, tail, free, k);
    NextPosition(|list|, tail, 1);
    BitsPush(bits, bits[k / 8 := bits[k / 8] & !Mask(k % 8)], |list|, free, k);
  }

  class Pool {
    const n: nat
    const freeList: array<int>
    const usedBit: array<bv8>
    var usedNodeNum: int
    var freeHead: nat
    var freeTail: nat
    var getNextPos: nat
    /** The byte behind the bitmap: the first byte of the data. */
    var firstData: bv8

    /** The free nodes, in the order they will be handed out. */
    ghost var Free: seq<nat>

    predicate Used(k: nat)
      requires k < n && usedBit.Length == (n + 7) / 8
      reads usedBit
    {
      UsedIn(usedBit[..], k)
    }

    /** What holds even when the ring or the bitmap is damaged. */
    predicate Shaped()
      reads this
    {
      && freeList.Length == n && usedBit.Length == (n + 7) / 8
      && freeHead < n && freeTail < n
    }

    ghost predicate Valid()
      reads this, freeList, usedBit
    {
      && freeList.Length == n && usedBit.Length == (n + 7) / 8
      && RingHolds(freeList[..], freeHead, freeTail, Free)
      && BitsHold(usedBit[..], n, Free)
      && usedNodeNum == n - 1 - |Free|
    }

    /** Init with the clear flag. */
    constructor (nodeNum: nat)
      requires nodeNum >= 2
      ensures Valid() && n == nodeNum && usedNodeNum == 0
      ensures Free == seq(nodeNum - 1, i => i)
      ensures fresh(freeList) && fresh(usedBit)
    {
      n := nodeNum;
      freeList := new int[nodeNum](i => i);
      usedBit := new bv8[(nodeNum + 7) / 8](_ => 0);
      usedNodeNum, freeHead, freeTail, getNextPos, firstData := 0, 0, nodeNum - 1, 0, 0;
      Free := seq(nodeNum - 1, i => i);
      new;
      forall k: nat | k < 8 * usedBit.Length
        ensures UsedIn(usedBit[..], k) <==> k < n - 1 && k !in Free
      {
        assert k < n - 1 ==> Free[k] == k;
        EmptyByte(k % 8);
      }
    }

    /** AllocateNode: None when a single free node is left. */
    method AllocateNode() returns (node: Option<nat>)
      requires Valid()
      modifies this, freeList, usedBit
      ensures Valid() && getNextPos == old(getNextPos) && firstData == old(firstData)
      ensures node == None <==> |old(Free)| == 1
      ensures node == None ==> Free == old(Free)
      ensures node.Some? ==> node.value == old(Free)[0] && Free == old(Free)[1..] && node.value < n - 1
      ensures node.Some? ==> !old(Used(node.value))
      ensures forall k: nat | k < n :: UsedIn(usedBit[..], k) == (node == Some(k) || UsedIn(old(usedBit[..]), k))
    {
      hide Bit, Mask;
      NextPosition(n, freeHead, |Free|);
      if (freeHead + 1) % n == freeTail {
        return None;
      }
      RingPop(freeList[..], freeHead, freeTail, Free);
      ghost var bits := usedBit[..];
      var k: nat := freeList[freeHead];
      usedBit[k / 8] := usedBit[k / 8] | Mask(k % 8);
      BitsPop(bits, usedBit[..], n, Free);
      freeHead := (freeHead + 1) % n;
      usedNodeNum := usedNodeNum + 1;
      Free := Free[1..];
      return Some(k);
    }

    /** What ReleaseNode reads as the bit of index p: the range test lets p == n through, and with n a
        multiple of 8 that bit is in the data. */
    predicate Marked(p: nat)
      requires Shaped() && p <= n
      reads this, usedBit
    {
      if p / 8 < usedBit.Length then UsedIn(usedBit[..], p) else Bit(firstData, p % 8)
    }

    /** ReleaseNode on the node at index p (aligned: the pointer is at the start of a node).  A node in
        use goes to the end of the free ring, any other is left alone.  The one call that damages the pool
        is that for the index n when it is a multiple of 8 and bit 0 of the data is set: n then is in the
        ring and that bit is cleared. */
    method ReleaseNode(p: int, aligned: bool) returns (rc: int)
      requires Valid()
      modifies this, freeList, usedBit
      ensures Shaped() && getNextPos == old(getNextPos)
      ensures rc == if p < 0 || p > n || !aligned then E_DATAP_ERR else SUCCESS
      ensures Valid() <==> !(aligned && p == n && old(Marked(n)))
      ensures old(Marked(n)) <==> n % 8 == 0 && Bit(old(firstData), 0)
      ensures
        var taken := aligned && 0 <= p < n && old(Used(p));
        && Free == (if taken then old(Free) + [p] else old(Free))
        && forall k: nat | k < n :: UsedIn(usedBit[..], k) == (UsedIn(old(usedBit[..]), k) && !(taken && k == p))
      ensures Valid() ==> firstData == old(firstData)
      ensures !Valid() ==> freeList[..] == old(freeList[..])[old(freeTail) := n] && firstData == old(firstData) & !1
    {
      hide Bit, Mask, UsedIn, RingHolds, BitsHold;
      ValidShape();
      if p < 0 || p > n || !aligned {
        return E_DATAP_ERR;
      }
      if !Marked(p) {
        return SUCCESS;
      }
      TakeBack(p);
      return SUCCESS;
    }

    /** The second half of ReleaseNode: p goes into the ring, and its bit is cleared. */
    method TakeBack(p: nat)
      requires Valid() && p <= n && Marked(p)
      modifies this, freeList, usedBit
      ensures Shaped() && getNextPos == old(getNextPos)
      ensures p < n ==> Valid() && Free == old(Free) + [p] && firstData == old(firstData)
      ensures p < n ==> forall k: nat | k < n :: UsedIn(usedBit[..], k) == (k != p && UsedIn(old(usedBit[..]), k))
      ensures p == n ==> !Valid() && Free == old(Free) && usedBit[..] == old(usedBit[..])
      ensures p == n ==> freeList[..] == old(freeList[..])[old(freeTail) := n] && firstData == old(firstData) & !1
    {
      hide Bit, Mask, UsedIn, RingHolds, BitsHold;
      ValidShape();
      ghost var list := freeList[..];
      freeList[freeTail] := p;
      assert freeList[..] == list[freeTail := p];
      ClearMark(p);
      freeTail := (freeTail + 1) % n;
      usedNodeNum := usedNodeNum - 1;
      if p < n {
        Released(list, old(usedBit[..]), freeHead, old(freeTail), Free, p);
        Free := Free + [p];
      } else {
        PastTheEnd(freeList[..], old(freeTail), freeHead, freeTail, Free);
      }
    }

    /** Clears the bit that Marked reads. */
    method ClearMark(p: nat)
      requires Shaped() && p <= n
      modifies usedBit, `firstData
      ensures p / 8 < usedBit.Length ==>
                && usedBit[..] == old(usedBit[..])[p / 8 := old(usedBit[p / 8]) & !Mask(p % 8)]
                && firstData == old(firstData)
      ensures p / 8 >= usedBit.Length ==> usedBit[..] == old(usedBit[..]) && firstData == old(firstData) & !1
    {
      if p / 8 < usedBit.Length {
        usedBit[p / 8] := usedBit[p / 8] & !Mask(p % 8);
      } else {
        firstData := firstData & !Mask(p % 8);
      }
    }

    lemma ValidShape()
      requires Valid()
      ensures Shaped() && n >= 2
      ensures Marked(n) <==> n % 8 == 0 && Bit(firstData, 0)
    {
      hide Bit, Mask, UsedIn;
    }

    /** Used and free nodes add up, counted over the bitmap. */
    lemma UsedCount()
      requires Valid()
      ensures |UsedSet(usedBit[..], n)| == usedNodeNum
    {
      hide Bit, Mask;
      var u, e := UsedSet(usedBit[..], n), Elements(Free);
      ElementsSize(Free);
      assert u == Below(n - 1) - e;
      assert e <= Below(n - 1);
      assert |Below(n - 1) - e| == |Below(n - 1)| - |e|;
    }

    /** Verify: the free ring holds no index past the last node, and the counter agrees with the ring and
        with the bitmap.  All of this is so in every reachable state. */
    method Verify() returns (rc: int)
      requires Shaped()
      ensures Valid() ==> rc == SUCCESS
      ensures rc == E_VERIFY_CYCLE_LIST_ERR <==> exists i :: 0 <= i < n && freeList[i] >= n
      ensures rc == SUCCESS ==> |UsedSet(usedBit[..], n)| == usedNodeNum == n - ((freeTail + n - freeHead) % n + 1)
    {
      hide UsedSet, UsedIn, Bit, Mask;
      for i := 0 to n
        invariant forall j | 0 <= j < i :: freeList[j] < n
      {
        if freeList[i] >= n {
          assert !Valid() by {
            PastTheEnd(freeList[..], i, freeHead, freeTail, Free);
          }
          return E_VERIFY_CYCLE_LIST_ERR;
        }
      }
      if Valid() {
        CountAround(n, freeHead, |Free|);
        UsedCount();
      }
      if n - (((freeTail + n) - freeHead) % n + 1) != usedNodeNum {
        return E_VERIFY_USEDNODE_NUM;
      }
      var count := CountUsed();
      if count != usedNodeNum {
        return E_VERIFY_USEDBIT_FLAG;
      }
      return SUCCESS;
    }

    /** Verify's count of the bits that are set. */
    method CountUsed() returns (count: int)
      requires Shaped()
      ensures count == |UsedSet(usedBit[..], n)|
    {
      hide UsedIn, UsedBelow;
      ghost var bits := usedBit[..];
      assert |UsedBelow(bits, n, 0)| == 0 by {
        UsedBelowNone(bits, n);
      }
      count := 0;
      for i := 0 to n
        invariant count == |UsedBelow(bits, n, i)|
      {
        UsedBelowStep(bits, n, i);
        if UsedIn(usedBit[..], i) {
          count := count + 1;
        }
      }
    }

    /** Verify finds the damage that releasing the index n does. */
    method ReleaseThenVerify(p: int) returns (rc: int)
      requires Valid()
      modifies this, freeList, usedBit
      ensures rc == if p == n && old(Marked(n)) then E_VERIFY_CYCLE_LIST_ERR else SUCCESS
    {
      ghost var tail := freeTail;
      rc := ReleaseNode(p, true);
      assert !Valid() ==> freeList[tail] == n;
      rc := Verify();
    }

    /** GetNextNode: the next used node from the cursor on, which moves past it. */
    method GetNextNode(first: bool) returns (node: Option<nat>)
      requires Valid()
      modifies this`getNextPos
      ensures Valid()
      ensures
        var pos := if first then 0 else old(getNextPos);
        match node
        case None => getNextPos == pos && forall k: nat | pos <= k < n :: !Used(k)
        case Some(k) => pos <= k < n && Used(k) && getNextPos == k + 1 && forall j: nat | pos <= j < k :: !Used(j)
    {
      hide Bit, Mask;
      if first {
        getNextPos := 0;
      }
      node := None;
      var i, pos := getNextPos, getNextPos;
      ghost var bits := usedBit[..];
      while i < n
        invariant pos == getNextPos <= i && usedBit[..] == bits
        invariant forall k: nat | pos <= k < i && k < n :: !UsedIn(bits, k)
      {
        if UsedIn(usedBit[..], i) {
          node := Some(i);
          getNextPos := i + 1;
          assert usedBit[..] == bits;
          return;
        }
        i := i + 1;
      }
    }
  }

  lemma CountAround(n: nat, head: nat, count: nat)
    requires n >= 2 && head < n && count < n
    ensures ((RingIndex(n, head, count) + n) - head) % n == count
  {
    var d := (RingIndex(n, head, count) + n) - head;
    if head + count < n {
      assert d == count + n;
      assert (count + n) % n == count;
    } else {
      assert d == count;
    }
  }
}
