/** A Variant's children (mmlib/amf/variant.cpp): a map with string keys, kept sorted, in which the keys
    "_i_0", "_i_1", ... are the elements of an array. */
module Amf3Children {
  import opened Common
  import opened Amf3Values

  /** std::string's order. */
  predicate Less(a: Str, b: Str)
    decreases |a|
  {
    if b == [] then false
    else if a == [] then true
    else if a[0] != b[0] then a[0] < b[0]
    else Less(a[1..], b[1..])
  }

  lemma {:induction false} LessTotal(a: Str, b: Str)
    ensures a == b || Less(a, b) || Less(b, a)
    ensures !(Less(a, b) && Less(b, a))
    ensures !Less(a, a)
    decreases |a|
  {
    if a != [] {
      LessTotal(a[1..], a[1..]);
      if b != [] && a[0] == b[0] {
        LessTotal(a[1..], b[1..]);
        assert a == [a[0]] + a[1..] && b == [b[0]] + b[1..];
      }
    }
  }

  ghost predicate Sorted(c: Children) {
    forall i, j | 0 <= i < j < |c| :: Less(c[i].0, c[j].0)
  }

  /** Subscript and assignment. */
  function Put(c: Children, k: Str, v: Variant): Children {
    if c == [] then [(k, v)]
    else if c[0].0 == k then [(k, v)] + c[1..]
    else if Less(k, c[0].0) then [(k, v)] + c
    else [c[0]] + Put(c[1..], k, v)
  }

  /** The child under a key, and a fresh one (V_NULL) if there is none. */
  function Get(c: Children, k: Str): Variant {
    if c == [] then Null else if c[0].0 == k then c[0].1 else Get(c[1..], k)
  }

  predicate HasKey(c: Children, k: Str) {
    c != [] && (c[0].0 == k || HasKey(c[1..], k))
  }

  lemma {:induction false} KeyAt(c: Children, k: Str)
    ensures HasKey(c, k) <==> exists i :: 0 <= i < |c| && c[i].0 == k
    ensures !HasKey(c, k) ==> Get(c, k) == Null
  {
    if c != [] {
      KeyAt(c[1..], k);
      if HasKey(c[1..], k) {
        var i :| 0 <= i < |c[1..]| && c[1..][i].0 == k;
        assert c[i + 1].0 == k;
      }
      if i :| 0 <= i < |c| && c[i].0 == k {
        assert i > 0 ==> c[1..][i - 1].0 == k;
      }
    }
  }

  /** A key above all others goes to the end. */
  lemma {:induction false} PutLast(c: Children, k: Str, v: Variant)
    requires forall i | 0 <= i < |c| :: Less(c[i].0, k)
    ensures Put(c, k, v) == c + [(k, v)]
    ensures Get(c, k) == Null
  {
    if c != [] {
      LessTotal(c[0].0, k);
      assert c[1..] + [(k, v)] == (c + [(k, v)])[1..];
      PutLast(c[1..], k, v);
    }
  }

  // ----- parts of a map

  /** The children whose keys are wanted. */
  function Filter(c: Children, want: Str -> bool): Children {
    if c == [] then []
    else (if want(c[0].0) then [c[0]] else []) + Filter(c[1..], want)
  }

  lemma {:induction false} FilterKeys(c: Children, want: Str -> bool)
    ensures forall i | 0 <= i < |Filter(c, want)| :: want(Filter(c, want)[i].0) && exists j ::
            0 <= j < |c| && c[j] == Filter(c, want)[i]
  {
    if c != [] {
      var f, rest := Filter(c, want), Filter(c[1..], want);
      FilterKeys(c[1..], want);
      forall i | 0 <= i < |f|
        ensures want(f[i].0) && exists j :: 0 <= j < |c| && c[j] == f[i]
      {
        if want(c[0].0) && i == 0 {
          assert c[0] == f[0];
        } else {
          var i' := if want(c[0].0) then i - 1 else i;
          assert f[i] == rest[i'];
          var j :| 0 <= j < |c[1..]| && c[1..][j] == rest[i'];
          assert c[j + 1] == f[i];
        }
      }
    }
  }

  lemma {:induction false} FilterSame(c: Children, want: Str -> bool, want': Str -> bool)
    requires forall i | 0 <= i < |c| :: want(c[i].0) == want'(c[i].0)
    ensures Filter(c, want) == Filter(c, want')
  {
    if c != [] {
      FilterSame(c[1..], want, want');
    }
  }

  lemma {:induction false} FilterAll(c: Children, want: Str -> bool)
    requires forall i | 0 <= i < |c| :: want(c[i].0)
    ensures Filter(c, want) == c
  {
    if c != [] {
      FilterAll(c[1..], want);
    }
  }

  lemma FilterPutFirst(c: Children, want: Str -> bool, want': Str -> bool)
    requires Sorted(c) && c != [] && !want(c[0].0)
    requires forall i | 0 <= i < |c| :: want'(c[i].0) == (want(c[i].0) || i == 0)
    ensures Put(Filter(c, want), c[0].0, c[0].1) == Filter(c, want')
    ensures Get(Filter(c, want), c[0].0) == Null
  {
    hide Less, Put, Get;
    var rest := Filter(c[1..], want);
    FilterKeys(c[1..], want);
    forall i | 0 <= i < |rest|
      ensures Less(c[0].0, rest[i].0)
    {
      var l :| 0 <= l < |c[1..]| && c[1..][l] == rest[i];
      assert c[l + 1].0 == rest[i].0;
    }
    PutFirst(rest, c[0].0, c[0].1);
    FilterSame(c[1..], want, want');
    assert Filter(c, want) == rest;
  }

  /** Putting a child back where a filter had taken it out. */
  lemma {:induction false} FilterPut(c: Children, want: Str -> bool, want': Str -> bool, j: nat)
    requires Sorted(c) && j < |c| && !want(c[j].0)
    requires forall i | 0 <= i < |c| :: want'(c[i].0) == (want(c[i].0) || i == j)
    ensures Put(Filter(c, want), c[j].0, c[j].1) == Filter(c, want')
    ensures Get(Filter(c, want), c[j].0) == Null
  {
    hide Less, Put, Get;
    if j == 0 {
      FilterPutFirst(c, want, want');
    } else {
      var rest := Filter(c[1..], want);
      SortedTail(c);
      FilterPut(c[1..], want, want', j - 1);
      PutBehind(rest, c[0], c[j].0, c[j].1);
      assert Filter(c, want) == if want(c[0].0) then [c[0]] + rest else rest;
    }
  }

  lemma PutBehind(c: Children, e: (Str, Variant), k: Str, v: Variant)
    requires Less(e.0, k)
    ensures Put([e] + c, k, v) == [e] + Put(c, k, v) && Get([e] + c, k) == Get(c, k)
  {
    LessTotal(e.0, k);
    assert ([e] + c)[1..] == c;
  }

  lemma SortedTail(c: Children)
    requires Sorted(c) && c != []
    ensures Sorted(c[1..])
  {
  }

  lemma PutFirst(c: Children, k: Str, v: Variant)
    requires forall i | 0 <= i < |c| :: Less(k, c[i].0)
    ensures Put(c, k, v) == [(k, v)] + c && Get(c, k) == Null
  {
    if c != [] {
      LessTotal(k, c[0].0);
    }
    forall i | 0 <= i < |c|
      ensures c[i].0 != k
    {
      LessTotal(k, c[i].0);
    }
    KeyAt(c, k);
  }

  // ----- array elements

  function Decimal(i: nat): (s: Str)
    ensures |s| > 0
  {
    if i < 10 then [48 + i] else Decimal(i / 10) + [48 + i % 10]
  }

  /** The number that decimal digits stand for. */
  function Number(s: Str): nat
    requires forall i | 0 <= i < |s| :: 48 <= s[i] <= 57
  {
    if s == [] then 0 else Number(s[..|s| - 1]) * 10 + (s[|s| - 1] as int - 48)
  }

  /** Decimal digits without a leading zero. */
  lemma {:induction false} DecimalIs(i: nat)
    ensures forall k | 0 <= k < |Decimal(i)| :: 48 <= Decimal(i)[k] <= 57
    ensures Number(Decimal(i)) == i && (i > 0 ==> Decimal(i)[0] != 48)
  {
    if i >= 10 {
      DecimalIs(i / 10);
      assert Decimal(i)[..|Decimal(i)| - 1] == Decimal(i / 10);
    }
  }

  /** "_i_" and the index in decimal. */
  function IndexKey(i: nat): Str {
    [95, 105, 95] + Decimal(i)
  }

  lemma {:induction false} DecimalInjective(i: nat, j: nat)
    requires Decimal(i) == Decimal(j)
    ensures i == j
  {
    var a, b := Decimal(i), Decimal(j);
    assert a[|a| - 1] == 48 + i % 10;
    assert b[|b| - 1] == 48 + j % 10;
    if i < 10 || j < 10 {
      assert |a| == 1;
    } else {
      assert a[..|a| - 1] == Decimal(i / 10);
      assert b[..|b| - 1] == Decimal(j / 10);
      DecimalInjective(i / 10, j / 10);
    }
  }

  lemma IndexKeyInjective(i: nat, j: nat)
    requires IndexKey(i) == IndexKey(j)
    ensures i == j
  {
    assert IndexKey(i)[3..] == Decimal(i);
    assert IndexKey(j)[3..] == Decimal(j);
    DecimalInjective(i, j);
  }

  /** MapDenseSize: how many elements there are from 0 on, counting from i. */
  function DenseFrom(c: Children, i: nat): (n: nat)
    requires i <= |c|
    ensures i <= n <= |c|
    ensures forall j: nat | i <= j < n :: HasKey(c, IndexKey(j))
    decreases |c| - i
  {
    if i < |c| && HasKey(c, IndexKey(i)) then DenseFrom(c, i + 1) else i
  }

  function DenseSize(c: Children): (n: nat)
    ensures n <= |c|
    ensures forall j: nat | j < n :: HasKey(c, IndexKey(j))
  {
    DenseFrom(c, 0)
  }

  /** k is the key of an element below n. */
  predicate Dense(k: Str, n: nat) {
    n > 0 && (k == IndexKey(n - 1) || Dense(k, n - 1))
  }

  lemma {:induction false} DenseIs(k: Str, n: nat)
    ensures Dense(k, n) <==> exists i: nat :: i < n && k == IndexKey(i)
  {
    if n > 0 {
      DenseIs(k, n - 1);
      if Dense(k, n - 1) {
        var i: nat :| i < n - 1 && k == IndexKey(i);
      }
    }
  }
}
