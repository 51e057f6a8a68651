/** How small the compressor of mmlib/quicklz/quicklz.c makes inputs that repeat themselves: a block of three
    or more bytes over and over, and a run of one byte. */
module QlzRepeats {
  import opened Common
  import opened QlzTokens
  import opened QlzStream
  import opened QlzGreedy
  import opened QlzCompressor
  import opened QlzCodec

  // ----- literals at first, then matches as long as they can be

  ghost predicate Steady(ts: seq<Token>, size: nat, a: nat) {
    && a <= |ts| && AllEncodable(ts) && Start(ts, |ts|) == size
    && (forall n | 0 <= n < a :: ts[n].Literal?)
    && forall n | a <= n < |ts| :: SteadyAt(ts, size, n)
  }

  ghost predicate SteadyAt(ts: seq<Token>, size: nat, n: nat)
    requires n < |ts|
  {
    Start(ts, n) + 11 <= size ==> ts[n].Match? && ts[n].len == Min(255, size - 4 - Start(ts, n))
  }

  lemma StartNext(ts: seq<Token>, n: nat)
    requires n < |ts| && AllEncodable(ts)
    ensures Start(ts, n + 1) == Start(ts, n) + ts[n].Span() && ts[n].Span() >= 1
    ensures |Body(ts[..n + 1])| == |Body(ts[..n])| + |TokenBytes(ts[n])|
  {
    assert ts[..n + 1][..n] == ts[..n] && ts[..n + 1] == ts[..n] + [ts[n]];
    BodySnoc(ts[..n], ts[n]);
  }

  lemma {:induction false} FirstLiterals(ts: seq<Token>, n: nat)
    requires n <= |ts| && AllEncodable(ts) && forall i | 0 <= i < n :: ts[i].Literal?
    ensures Start(ts, n) == n && |Body(ts[..n])| == n
  {
    hide Start;
    if n > 0 {
      FirstLiterals(ts, n - 1);
      StartNext(ts, n - 1);
    } else {
      NothingYet(ts);
    }
  }

  lemma NothingYet(ts: seq<Token>)
    ensures Start(ts, 0) == 0 && AllEncodable(ts[..0]) && |Body(ts[..0])| == 0
  {
  }

  /** While matches can come, each covers 255 bytes; after the last one the rest is short. */
  lemma {:induction false} SoFar(ts: seq<Token>, size: nat, a: nat, n: nat)
    requires Steady(ts, size, a) && a <= n <= |ts|
    ensures Start(ts, n) + 11 <= size ==> Start(ts, n) == a + 255 * (n - a) && |Body(ts[..n])| <= a + 3 * (n - a)
    ensures
      var m := size / 255 + 1;
      Start(ts, n) + 11 > size ==>
        |Body(ts[..n])| + (size - Start(ts, n)) <= a + 3 * m + 10 && n + (size - Start(ts, n)) <= a + m + 10
    decreases n
  {
    hide Start, Body, TokenBytes;
    if n == a {
      FirstLiterals(ts, a);
    } else {
      SoFar(ts, size, a, n - 1);
      StartNext(ts, n - 1);
      assert SteadyAt(ts, size, n - 1);
    }
  }

  /** The half-way test lets it pass. */
  lemma NeverTooLong(ts: seq<Token>, size: nat, a: nat, m: nat)
    requires Steady(ts, size, a) && size >= 4 * a && m <= |ts|
    ensures !TooLongAt(ts, size, m)
  {
    hide Body, TokenBytes;
    if m <= a {
      FirstLiterals(ts, m);
    } else if Start(ts, m) + 11 <= size {
      SoFar(ts, size, a, m);
      LongEnough(a, m - a, Start(ts, m), size);
    }
  }

  lemma LongEnough(a: nat, k: nat, pos: nat, size: nat)
    requires pos == a + 255 * k && size >= 4 * a
    ensures size / 2 < pos ==> a + 3 * k + 4 * ((a + k) / 31) <= pos - pos / 32
  {
  }

  /** What this comes to: a compressed packet of about an 80th of the input and two bytes for each byte of the
      part that is not repeated. */
  lemma SteadySize(x: seq<byte>, a: nat)
    requires x != [] && Steady(Parse(x), |x|, a) && |x| >= 4 * a
    ensures !Abandoned(x) && PackedSize(x) <= 2 * a + |x| / 80 + 40
  {
    var ts := Parse(x);
    ParseEncodable(x, 0);
    forall m | 0 <= m <= |ts|
      ensures !TooLongAt(ts, |x|, m)
    {
      NeverTooLong(ts, |x|, a, m);
    }
    SoFar(ts, |x|, a, |ts|);
    LayoutLength(ts, 0);
    assert ts[..|ts|] == ts;
  }

  // ----- where the last token start in a bucket is

  /** o is a token start among the first n. */
  ghost predicate IsStart(ts: seq<Token>, n: nat, o: nat)
    requires n <= |ts|
  {
    exists j: nat :: j < n && Start(ts, j) == o
  }

  lemma {:induction false} LastStartIs(x: seq<byte>, ts: seq<Token>, n: nat, h: nat)
    requires n <= |ts| && AllEncodable(ts)
    ensures
      var o := LastStart(x, ts, n, h);
      && (o.Some? ==>
          IsStart(ts, n, o.value) && o.value < Start(ts, n) && o.value + 4 <= |x| && HashAt(x, o.value) == h)
      && forall k: nat | IsStart(ts, n, k) && k + 4 <= |x| && HashAt(x, k) == h :: o.Some? && k <= o.value
  {
    hide HashAt, HashFunc, Start;
    if n > 0 {
      LastStartIs(x, ts, n - 1, h);
      StartNext(ts, n - 1);
      forall k: nat
        ensures IsStart(ts, n, k) <==> IsStart(ts, n - 1, k) || k == Start(ts, n - 1)
        ensures IsStart(ts, n - 1, k) ==> k < Start(ts, n - 1)
      {
        StartsGrow(ts, n - 1, k);
      }
    }
  }

  lemma {:induction false} StartsGrow(ts: seq<Token>, n: nat, k: nat)
    requires n <= |ts| && AllEncodable(ts)
    ensures IsStart(ts, n, k) ==> k < Start(ts, n)
  {
    hide Start;
    if n > 0 {
      StartsGrow(ts, n - 1, k);
      StartNext(ts, n - 1);
    }
  }

  /** Token n, and the last start in its bucket. */
  lemma TokenAt(x: seq<byte>, n: nat)
    requires n < |Parse(x)|
    ensures AllEncodable(Parse(x))
    ensures
      var ts, t := Parse(x), Start(Parse(x), n);
      && t < |x|
      && (t + 11 <= |x| ==> Chosen(x, ts, n, t, LastStart(x, ts, n, HashAt(x, t))))
      && (t + 11 > |x| ==> ts[n].Literal?)
  {
    ParseEncodable(x, 0);
    Greedy(x, n);
  }

  lemma WholeInput(x: seq<byte>)
    ensures AllEncodable(Parse(x)) && Start(Parse(x), |Parse(x)|) == |x|
  {
    ParseEncodable(x, 0);
    ParseStep(x, |Parse(x)|);
  }

  /** When the same bytes follow at o and at t, a usable match is as long as it can be. */
  lemma LongestMatch(x: seq<byte>, ts: seq<Token>, n: nat, t: nat, o: nat)
    requires n < |ts| && o < t && t + 11 <= |x| && Chosen(x, ts, n, t, Some(o)) && Usable(x, ts, n, o, t)
    requires forall i: nat | t + i < |x| :: SameAt(x, o, t, i)
    ensures ts[n].Match? && ts[n].len == Min(255, |x| - 4 - t)
  {
    hide HashAt, Usable;
    assert SameAt(x, o, t, ts[n].len);
  }

  predicate SameAt(x: seq<byte>, o: nat, t: nat, i: nat)
    requires o <= t && t + i < |x|
  {
    x[o + i] == x[t + i]
  }

  lemma SameThree(x: seq<byte>, o: nat, t: nat)
    requires o <= t && t + 11 <= |x| && forall i: nat | t + i < |x| :: SameAt(x, o, t, i)
    ensures x[o..o + 3] == x[t..t + 3]
  {
    assert SameAt(x, o, t, 0) && SameAt(x, o, t, 1) && SameAt(x, o, t, 2);
  }

  // ----- a block over and over

  function Repeat(b: seq<byte>, n: nat): (x: seq<byte>)
    ensures |x| == n * |b|
  {
    if n == 0 then [] else Repeat(b, n - 1) + b
  }

  ghost predicate Periodic(x: seq<byte>, p: nat) {
    forall i | p <= i < |x| :: x[i] == x[i - p]
  }

  lemma {:induction false} RepeatPeriodic(b: seq<byte>, n: nat)
    ensures Periodic(Repeat(b, n), |b|)
    ensures n > 0 ==> |b| <= |Repeat(b, n)| && Repeat(b, n)[..|b|] == b
    ensures n > 0 ==> |Repeat(b, n)| >= |b| && Repeat(b, n)[|Repeat(b, n)| - |b|..] == b
  {
    if n > 0 {
      var x, y := Repeat(b, n), Repeat(b, n - 1);
      RepeatPeriodic(b, n - 1);
      if n == 1 {
        assert x == b;
      } else {
        forall i | |b| <= i < |x|
          ensures x[i] == x[i - |b|]
        {
          if i >= |y| {
            assert y[|y| - |b|..][i - |y|] == y[i - |b|];
          }
        }
        assert x[..|b|] == y[..|b|];
      }
    }
  }

  /** The three-byte pieces that begin in the first period fall into different buckets. */
  ghost predicate Scattered(x: seq<byte>, p: nat)
    requires p + 2 <= |x|
  {
    forall i, j | 0 <= i < j < p :: HashAt(x, i) != HashAt(x, j)
  }

  lemma {:induction false} Shift(x: seq<byte>, p: nat, i: nat, k: nat)
    requires Periodic(x, p) && i + k * p < |x|
    ensures i < |x| && x[i + k * p] == x[i]
    decreases k
  {
    if k > 0 {
      assert k * p == (k - 1) * p + p;
      Shift(x, p, i, k - 1);
      assert x[i + k * p] == x[i + k * p - p];
    }
  }

  /** Places a whole number of periods apart see the same bytes. */
  lemma SameBytes(x: seq<byte>, p: nat, o: nat, t: nat)
    requires p > 0 && Periodic(x, p) && o <= t && o % p == t % p
    ensures forall i: nat | t + i < |x| :: SameAt(x, o, t, i)
    ensures o < t ==> t - o >= p
  {
    var k := t / p - o / p;
    Apart(o, t, p);
    forall i: nat | t + i < |x|
      ensures SameAt(x, o, t, i)
    {
      Shift(x, p, o + i, k);
    }
  }

  lemma Times(a: nat, b: nat, p: nat)
    requires a <= b
    ensures (b - a) * p == b * p - a * p && a * p <= b * p
  {
    assert (b - a) * p + a * p == (b - a + a) * p;
  }

  lemma Apart(o: nat, t: nat, p: nat)
    requires p > 0 && o <= t && o % p == t % p
    ensures t / p >= o / p && t - o == (t / p - o / p) * p
    ensures o < t ==> t - o >= p
  {
    var a, b := o / p, t / p;
    Quotient(o, p);
    Quotient(t, p);
    assert a <= b;
    Times(a, b, p);
    if a < b {
      Times(a + 1, b, p);
      assert (a + 1) * p == a * p + p;
    }
  }

  lemma Quotient(t: nat, p: nat)
    requires p > 0
    ensures t == t / p * p + t % p && t % p < p
  {
  }

  lemma Residue(t: nat, p: nat)
    requires p > 0
    ensures t % p < p && t % p <= t && (t % p) % p == t % p && p % p == 0
  {
  }

  lemma HashMod(x: seq<byte>, p: nat, t: nat)
    requires p > 0 && Periodic(x, p) && t + 3 <= |x|
    ensures t % p <= t && HashAt(x, t) == HashAt(x, t % p)
  {
    var c := t % p;
    Residue(t, p);
    SameBytes(x, p, c, t);
    SameHash(x, c, t);
  }

  lemma SameHash(x: seq<byte>, o: nat, t: nat)
    requires o <= t && t + 3 <= |x| && forall i: nat | t + i < |x| :: SameAt(x, o, t, i)
    ensures HashAt(x, o) == HashAt(x, t)
  {
    hide HashFunc;
    assert SameAt(x, o, t, 0) && SameAt(x, o, t, 1) && SameAt(x, o, t, 2);
  }

  /** The first period and one byte more are literals: no bucket has been filled by the same three bytes, and
      then only by those at the very beginning. */
  lemma {:induction false} FirstPeriod(x: seq<byte>, p: nat, n: nat)
    requires p >= 3 && p + 12 <= |x| && Periodic(x, p) && Scattered(x, p) && n <= p + 1
    ensures n <= |Parse(x)| && Start(Parse(x), n) == n && forall i | 0 <= i < n :: Parse(x)[i].Literal?
    decreases n
  {
    hide Parse, HashAt, Start, LastStart, Usable;
    var ts := Parse(x);
    WholeInput(x);
    if n == 0 {
      NothingYet(ts);
    } else {
      FirstPeriod(x, p, n - 1);
      assert n - 1 < |ts|;
      TokenAt(x, n - 1);
      StartNext(ts, n - 1);
      NoneYet(x, p, n - 1);
    }
  }

  lemma NoneYet(x: seq<byte>, p: nat, n: nat)
    requires p >= 3 && p + 12 <= |x| && Periodic(x, p) && Scattered(x, p) && n <= p
    requires n < |Parse(x)| && Start(Parse(x), n) == n
    requires Chosen(x, Parse(x), n, n, LastStart(x, Parse(x), n, HashAt(x, n)))
    ensures Parse(x)[n].Literal?
  {
    var ts, o := Parse(x), LastStart(x, Parse(x), n, HashAt(x, n));
    WholeInput(x);
    LastStartIs(x, ts, n, HashAt(x, n));
    hide Parse, HashAt, Start, LastStart;
    if o.Some? {
      if n == p {
        HashMod(x, p, p);
        assert o.value == 0;
      }
    }
  }

  lemma SameResidue(x: seq<byte>, p: nat, o: nat, t: nat)
    requires p > 0 && p + 2 <= |x| && Periodic(x, p) && Scattered(x, p) && o + 3 <= |x| && t + 3 <= |x|
    requires HashAt(x, o) == HashAt(x, t)
    ensures o % p == t % p
  {
    hide HashAt, Periodic;
    HashMod(x, p, t);
    HashMod(x, p, o);
    Residue(o, p);
    Residue(t, p);
  }

  /** After that every token is a match, as long as it can be. */
  lemma LaterMatch(x: seq<byte>, p: nat, n: nat)
    requires p >= 3 && p + 12 <= |x| && Periodic(x, p) && Scattered(x, p) && p + 1 <= n < |Parse(x)|
    ensures SteadyAt(Parse(x), |x|, n)
  {
    hide Parse, HashAt, HashFunc, Start, LastStart, Usable, Chosen, Periodic, Scattered, IsStart;
    var ts, t := Parse(x), Start(Parse(x), n);
    if t + 11 <= |x| {
      var o := LastStart(x, ts, n, HashAt(x, t));
      WholeInput(x);
      LastStartIs(x, ts, n, HashAt(x, t));
      EarlierStart(x, p, n, t);
      TokenAt(x, n);
      SameResidue(x, p, o.value, t);
      MatchBehind(x, p, ts, n, o.value, t);
    }
  }

  lemma MatchBehind(x: seq<byte>, p: nat, ts: seq<Token>, n: nat, o: nat, t: nat)
    requires p >= 3 && Periodic(x, p) && n < |ts| && 0 < o < t && t + 11 <= |x| && o % p == t % p
    requires Chosen(x, ts, n, t, Some(o))
    ensures ts[n].Match? && ts[n].len == Min(255, |x| - 4 - t)
  {
    hide Periodic, Usable, Chosen, HashAt;
    SameBytes(x, p, o, t);
    SameThree(x, o, t);
    UsableBehind(x, ts, n, o, t);
    LongestMatch(x, ts, n, t, o);
  }

  lemma UsableBehind(x: seq<byte>, ts: seq<Token>, n: nat, o: nat, t: nat)
    requires n <= |ts| && 0 < o && o + 2 < t && t + 11 <= |x| && x[o..o + 3] == x[t..t + 3]
    ensures Usable(x, ts, n, o, t)
  {
  }

  /** One of the first tokens, but not the first, starts with the same three bytes. */
  lemma EarlierStart(x: seq<byte>, p: nat, n: nat, t: nat)
    requires p >= 3 && p + 12 <= |x| && Periodic(x, p) && Scattered(x, p) && p + 1 <= n <= |Parse(x)|
    requires t + 11 <= |x|
    ensures exists k: nat :: 0 < k && k + 4 <= |x| && IsStart(Parse(x), n, k) && HashAt(x, k) == HashAt(x, t)
  {
    hide Parse, HashAt, Start, HashFunc, Scattered, Periodic;
    var k := if t % p == 0 then p else t % p;
    Residue(t, p);
    FirstPeriod(x, p, k);
    HashMod(x, p, t);
    HashMod(x, p, k);
    assert IsStart(Parse(x), n, k);
  }

  lemma PeriodicSteady(x: seq<byte>, p: nat)
    requires p >= 3 && p + 12 <= |x| && Periodic(x, p) && Scattered(x, p)
    ensures Steady(Parse(x), |x|, p + 1)
  {
    hide Parse, Start, SteadyAt, HashAt;
    WholeInput(x);
    FirstPeriod(x, p, p + 1);
    forall n | p + 1 <= n < |Parse(x)|
      ensures SteadyAt(Parse(x), |x|, n)
    {
      LaterMatch(x, p, n);
    }
  }

  /** A block of three or more bytes, six times or more: it is compressed, to about two bytes for each byte of
      the block and one for every 80 bytes of the input, provided that the three-byte pieces of the block
      fall into different buckets. */
  lemma BlocksCompress(b: seq<byte>, n: nat)
    requires |b| >= 3 && n >= 6 && |b| + 2 <= |Repeat(b, n)| && Scattered(Repeat(b, n), |b|)
    ensures !Abandoned(Repeat(b, n))
    ensures PackedSize(Repeat(b, n)) <= 2 * (|b| + 1) + n * |b| / 80 + 40
  {
    hide Parse, HashAt, Repeat, Abandoned, PackedSize, Scattered, Periodic, Steady;
    assert n * |b| >= 6 * |b| by {
      assert (n - 6) * |b| >= 0;
      assert n * |b| == (n - 6) * |b| + 6 * |b|;
    }
    RepeatPeriodic(b, n);
    PeriodicSteady(Repeat(b, n), |b|);
    SteadySize(Repeat(b, n), |b| + 1);
  }

  // ----- a run of one byte

  predicate Constant(x: seq<byte>) {
    forall i | 0 <= i < |x| :: x[i] == x[0]
  }

  lemma ConstantSame(x: seq<byte>, o: nat, t: nat)
    requires Constant(x) && o <= t
    ensures forall i: nat | t + i < |x| :: SameAt(x, o, t, i)
  {
  }

  /** Every start is in the same bucket, so that the last one is the token before. */
  lemma LastInRun(x: seq<byte>, ts: seq<Token>, n: nat, t: nat)
    requires Constant(x) && n <= |ts| && AllEncodable(ts) && t == Start(ts, n) && t + 11 <= |x|
    ensures LastStart(x, ts, n, HashAt(x, t)) == if n == 0 then None else Some(Start(ts, n - 1))
  {
    hide Start, HashAt, HashFunc;
    if n > 0 {
      StartNext(ts, n - 1);
      ConstantSame(x, Start(ts, n - 1), t);
      SameHash(x, Start(ts, n - 1), t);
    }
  }

  lemma {:induction false} FourLiterals(x: seq<byte>, n: nat)
    requires Constant(x) && |x| >= 16 && n <= 4
    ensures n <= |Parse(x)| && Start(Parse(x), n) == n && forall i | 0 <= i < n :: Parse(x)[i].Literal?
    decreases n
  {
    hide Parse, Start, HashAt, LastStart, Constant;
    var ts := Parse(x);
    WholeInput(x);
    if n == 0 {
      NothingYet(ts);
    } else {
      FourLiterals(x, n - 1);
      assert n - 1 < |ts|;
      TokenAt(x, n - 1);
      LastInRun(x, ts, n - 1, n - 1);
      StartNext(ts, n - 1);
      if n - 1 > 0 {
        FourLiterals(x, n - 2);
      }
    }
  }

  lemma {:induction false} RunMatch(x: seq<byte>, n: nat)
    requires Constant(x) && |x| >= 16 && 4 <= n < |Parse(x)|
    ensures SteadyAt(Parse(x), |x|, n)
    decreases n
  {
    hide Parse, Start, HashAt, LastStart, Usable, Chosen, Constant;
    var ts, t := Parse(x), Start(Parse(x), n);
    if t + 11 <= |x| {
      WholeInput(x);
      TokenAt(x, n);
      LastInRun(x, ts, n, t);
      StartNext(ts, n - 1);
      StartNext(ts, n - 2);
      var o := Start(ts, n - 1);
      FourLiterals(x, 3);
      FourLiterals(x, 4);
      if n > 4 {
        RunMatch(x, n - 1);
        FarEnough(ts, |x|, n - 1, t);
      }
      ConstantSame(x, o, t);
      SameThree(x, o, t);
      RunUsable(x, ts, n, o, t);
      LongestMatch(x, ts, n, t, o);
    }
  }

  /** A match before another one covers at least three bytes. */
  lemma FarEnough(ts: seq<Token>, size: nat, n: nat, t: nat)
    requires n < |ts| && SteadyAt(ts, size, n) && t == Start(ts, n) + ts[n].Span() && t + 11 <= size
    ensures t > Start(ts, n) + 2
  {
  }

  lemma RunUsable(x: seq<byte>, ts: seq<Token>, n: nat, o: nat, t: nat)
    requires Constant(x) && 4 <= n <= |ts| && 0 < o < t && t + 11 <= |x| && x[o..o + 3] == x[t..t + 3]
    requires o + 2 < t || (n == 4 == t == o + 1 && forall i | 0 <= i < 4 :: ts[i].Literal?)
    ensures Usable(x, ts, n, o, t)
  {
  }

  /** A run of 16 or more equal bytes: four literals and then matches, the first of them one byte back. */
  lemma RunsCompress(b: byte, n: nat)
    requires n >= 16
    ensures !Abandoned(seq(n, _ => b)) && PackedSize(seq(n, _ => b)) <= n / 80 + 48
  {
    hide Parse, Start, SteadyAt, Abandoned, PackedSize;
    var x := seq(n, _ => b);
    assert Constant(x);
    WholeInput(x);
    FourLiterals(x, 4);
    forall k | 4 <= k < |Parse(x)|
      ensures SteadyAt(Parse(x), |x|, k)
    {
      RunMatch(x, k);
    }
    SteadySize(x, 4);
  }
}
