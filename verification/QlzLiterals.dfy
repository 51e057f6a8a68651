/** Inputs in which the compressor of mmlib/quicklz/quicklz.c finds nothing to copy, exactly; among them are
    blocks of bytes over and over, when their pieces share buckets. */
module QlzLiterals {
  import opened Common
  import opened QlzTokens
  import opened QlzStream
  import opened QlzGreedy
  import opened QlzCompressor
  import opened QlzCodec
  import opened QlzRepeats

  ghost predicate AllLiteral(ts: seq<Token>, n: nat)
    requires n <= |ts|
  {
    forall i | 0 <= i < n :: ts[i].Literal?
  }

  /** The last of the first n places whose three bytes have bucket h. */
  function LastPlace(x: seq<byte>, n: nat, h: nat): (o: Option<nat>)
    requires n <= |x|
    ensures o.Some? ==> o.value < n && o.value + 4 <= |x| && HashAt(x, o.value) == h
    ensures forall k | 0 <= k < n && k + 4 <= |x| && HashAt(x, k) == h :: o.Some? && k <= o.value
  {
    if n == 0 then None
    else if n - 1 + 4 <= |x| && HashAt(x, n - 1) == h then Some(n - 1)
    else LastPlace(x, n - 1, h)
  }

  /** The bytes at o may be used at t: the same three, not those at the very beginning, and three or more
      back; or one back in a run of equal bytes. */
  ghost predicate Copyable(x: seq<byte>, o: nat, t: nat)
    requires o < t && t + 11 <= |x|
  {
    && o != 0 && x[o..o + 3] == x[t..t + 3]
    && (t - o > 2 || (t - o == 1 && t > 3 && forall i | t - 3 <= i <= t + 3 :: x[i] == x[t]))
  }

  /** The last place in the bucket of t, if any, may not be used at t. */
  ghost predicate Fresh(x: seq<byte>, t: nat)
    requires t + 11 <= |x|
  {
    var o := LastPlace(x, t, HashAt(x, t));
    o.Some? ==> !Copyable(x, o.value, t)
  }

  lemma {:induction false} StartsArePlaces(x: seq<byte>, n: nat, h: nat)
    requires n <= |Parse(x)| && AllLiteral(Parse(x), n)
    ensures Start(Parse(x), n) == n <= |x| && LastStart(x, Parse(x), n, h) == LastPlace(x, n, h)
  {
    hide Parse, HashAt, Start;
    WholeInput(x);
    FirstLiterals(Parse(x), n);
    if n > 0 {
      StartsArePlaces(x, n - 1, h);
      TokenAt(x, n - 1);
    }
  }

  lemma LiteralExactly(x: seq<byte>, n: nat)
    requires n < |Parse(x)| && AllLiteral(Parse(x), n)
    ensures Parse(x)[n].Literal? <==> n + 11 <= |x| ==> Fresh(x, n)
  {
    hide Parse, HashAt, Start, LastStart, LastPlace;
    TokenAt(x, n);
    StartsArePlaces(x, n, 0);
    if n + 11 <= |x| {
      var h := HashAt(x, n);
      StartsArePlaces(x, n, h);
      LastPlaceBefore(x, n, h);
    }
  }

  lemma LastPlaceBefore(x: seq<byte>, n: nat, h: nat)
    requires n <= |x|
    ensures LastPlace(x, n, h).Some? ==> LastPlace(x, n, h).value < n
  {
  }

  lemma {:induction false} FreshSoFar(x: seq<byte>, n: nat)
    requires n <= |Parse(x)|
    ensures AllLiteral(Parse(x), n) <==> forall t: nat | t < n && t + 11 <= |x| :: Fresh(x, t)
  {
    hide Parse, Fresh;
    if n > 0 {
      FreshSoFar(x, n - 1);
      if AllLiteral(Parse(x), n - 1) {
        LiteralExactly(x, n - 1);
      }
    }
  }

  /** Exactly when an input is all literals. */
  lemma FindsNothing(x: seq<byte>)
    ensures AllLiteral(Parse(x), |Parse(x)|) <==> forall t: nat | t + 11 <= |x| :: Fresh(x, t)
  {
    hide Parse, Fresh;
    FreshSoFar(x, |Parse(x)|);
    if AllLiteral(Parse(x), |Parse(x)|) {
      WholeInput(x);
      FirstLiterals(Parse(x), |Parse(x)|);
    }
  }

  /** Such an input is stored. */
  lemma LiteralsStored(x: seq<byte>)
    requires |x| >= 83 && AllLiteral(Parse(x), |Parse(x)|)
    ensures Abandoned(x) && PackedSize(x) == |x| + HeaderSize(|x|)
  {
    hide Parse, Body;
    var n := (|x| - 11) / 31 * 31;
    WholeInput(x);
    FirstLiterals(Parse(x), |Parse(x)|);
    FirstLiterals(Parse(x), n);
    assert TooLongAt(Parse(x), |x|, n);
  }

  // ----- a block over and over

  function Piece(x: seq<byte>, i: nat): seq<byte>
    requires i + 3 <= |x|
  {
    x[i..i + 3]
  }

  ghost predicate DifferentPieces(x: seq<byte>, p: nat)
    requires p + 2 <= |x|
  {
    forall i, j | 0 <= i < j < p :: Piece(x, i) != Piece(x, j)
  }

  /** Piece i has its bucket in common with another. */
  ghost predicate Shared(x: seq<byte>, p: nat, i: nat)
    requires i < p && p + 2 <= |x|
  {
    exists j: nat :: j < p && j != i && HashAt(x, j) == HashAt(x, i)
  }

  lemma PieceMod(x: seq<byte>, p: nat, t: nat)
    requires p > 0 && Periodic(x, p) && t + 11 <= |x|
    ensures t % p <= t && Piece(x, t % p) == x[t..t + 3]
  {
    Residue(t, p);
    SameBytes(x, p, t % p, t);
    SameThree(x, t % p, t);
  }

  /** Between two places of one piece there is one of each other piece. */
  lemma PlaceBetween(p: nat, o: nat, j: nat) returns (k: nat)
    requires j < p && j != o % p
    ensures o < k < o + p && k % p == j
  {
    var i := o % p;
    k := if j > i then o + (j - i) else o + (p + j - i);
    Quotient(o, p);
    if j > i {
      SameQuotient(o / p, p, j, k);
    } else {
      OneMore(o / p, p);
      SameQuotient(o / p + 1, p, j, k);
    }
  }

  lemma SameQuotient(q: nat, p: nat, r: nat, k: nat)
    requires r < p && k == q * p + r
    ensures k % p == r
  {
    Quotient(k, p);
    var a := k / p;
    OneMore(a, p);
    OneMore(q, p);
    if a < q {
      Times(a + 1, q, p);
    } else if a > q {
      Times(q + 1, a, p);
    }
  }

  lemma OneMore(a: nat, p: nat)
    ensures (a + 1) * p == a * p + p
  {
  }

  lemma SharedFresh(x: seq<byte>, p: nat, t: nat)
    requires p >= 3 && p + 12 <= |x| && Periodic(x, p) && DifferentPieces(x, p) && t + 11 <= |x|
    requires t % p < p && Shared(x, p, t % p)
    ensures Fresh(x, t)
  {
    hide HashAt, Periodic;
    var last := LastPlace(x, t, HashAt(x, t));
    if last.Some? && Copyable(x, last.value, t) {
      var o := last.value;
      PieceMod(x, p, o);
      PieceMod(x, p, t);
      Residue(o, p);
      assert o % p == t % p;
      SameBytes(x, p, o, t);
      var j: nat :| j < p && j != t % p && HashAt(x, j) == HashAt(x, t % p);
      var k := PlaceBetween(p, o, j);
      HashMod(x, p, k);
      HashMod(x, p, t);
      assert false;
    }
  }

  lemma AloneCopied(x: seq<byte>, p: nat, i: nat)
    requires p >= 3 && 2 * p + 11 <= |x| && Periodic(x, p) && i < p && !Shared(x, p, i)
    ensures exists t: nat :: t + 11 <= |x| && !Fresh(x, t)
  {
    hide HashAt, Periodic;
    var o := if i == 0 then p else i;
    var t := o + p;
    SameQuotient(if i == 0 then 1 else 0, p, i, o);
    SameQuotient(if i == 0 then 2 else 1, p, i, t);
    SameBytes(x, p, o, t);
    SameThree(x, o, t);
    SameHash(x, o, t);
    var last := LastPlace(x, t, HashAt(x, t));
    assert last.Some? && o <= last.value;
    if last.value > o {
      HashMod(x, p, last.value);
      HashMod(x, p, t);
      NotAgain(p, o, last.value);
      assert false;
    }
    assert !Fresh(x, t);
  }

  lemma NotAgain(p: nat, o: nat, k: nat)
    requires p > 0 && o < k < o + p
    ensures k % p != o % p && k % p < p
  {
    if k % p == o % p {
      Apart(o, k, p);
    }
  }

  /** A block whose three-byte pieces are all different, six times or more: nothing is ever copied if and only
      if every piece has its bucket in common with another piece. */
  lemma BlocksFindNothing(b: seq<byte>, n: nat)
    requires |b| >= 3 && n >= 6 && |b| + 2 <= |Repeat(b, n)| && DifferentPieces(Repeat(b, n), |b|)
    ensures
      var x := Repeat(b, n);
      AllLiteral(Parse(x), |Parse(x)|) <==> forall i | 0 <= i < |b| :: Shared(x, |b|, i)
  {
    hide Parse, HashAt, Repeat, Fresh, Shared, Periodic, DifferentPieces;
    var x, p := Repeat(b, n), |b|;
    assert n * p >= 6 * p by {
      Times(6, n, p);
    }
    RepeatPeriodic(b, n);
    FindsNothing(x);
    if forall i | 0 <= i < p :: Shared(x, p, i) {
      forall t: nat | t + 11 <= |x|
        ensures Fresh(x, t)
      {
        Residue(t, p);
        SharedFresh(x, p, t);
      }
    } else {
      var i :| 0 <= i < p && !Shared(x, p, i);
      AloneCopied(x, p, i);
    }
  }

  lemma {:induction false} XorSelf(a: nat)
    ensures Xor(a, a) == 0
    decreases a
  {
    if a > 0 {
      XorSelf(a / 2);
    }
  }

  lemma HashZero(v: nat)
    requires v < 4096
    ensures HashFunc(v + 4096 * v) == 0
  {
    XorSelf(v);
    hide Xor;
    assert (v + 4096 * v) % 4096 == v && (v + 4096 * v) / 4096 == v;
  }

  lemma BucketZero(x: seq<byte>, i: nat, v: nat)
    requires i + 3 <= |x| && v < 4096
    requires x[i] as nat + 0x100 * x[i + 1] as nat + 0x1_0000 * x[i + 2] as nat == v + 4096 * v
    ensures HashAt(x, i) == 0
  {
    hide HashFunc;
    HashZero(v);
  }

  /** Three bytes whose pieces are all in bucket 0. */
  lemma OneBucket(x: seq<byte>)
    requires |x| >= 5 && x[0] == 0 && x[1] == 1 && x[2] == 16 && x[3] == 0 && x[4] == 1
    ensures DifferentPieces(x, 3) && forall i | 0 <= i < 3 :: Shared(x, 3, i)
  {
    hide HashAt;
    BucketZero(x, 0, 0x100);
    BucketZero(x, 1, 0x001);
    BucketZero(x, 2, 0x010);
    assert Piece(x, 0)[0] == 0 && Piece(x, 1)[0] == 1 && Piece(x, 2)[0] == 16;
    assert Shared(x, 3, 0) by {
      assert HashAt(x, 1) == HashAt(x, 0);
    }
    assert Shared(x, 3, 1) && Shared(x, 3, 2) by {
      assert HashAt(x, 0) == HashAt(x, 1) == HashAt(x, 2);
    }
  }

  /** Bytes 0, 1 and 16, 28 times or more: the input is stored, however long it is. */
  lemma NotEveryBlock(n: nat)
    requires n >= 28
    ensures
      var x := Repeat([0, 1, 16], n);
      Abandoned(x) && PackedSize(x) == |x| + HeaderSize(|x|)
  {
    hide Parse, Abandoned, PackedSize, AllLiteral, HashAt, Shared, DifferentPieces, Repeat;
    var b: seq<byte> := [0, 1, 16];
    var x := Repeat(b, n);
    RepeatPeriodic(b, n);
    assert x[0] == x[..3][0] && x[1] == x[..3][1] && x[2] == x[..3][2];
    OneBucket(x);
    BlocksFindNothing(b, n);
    LiteralsStored(x);
  }
}
