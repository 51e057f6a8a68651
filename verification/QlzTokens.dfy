/** QuickLZ level 1, the token layer (mmlib/quicklz/quicklz.c).

    The compressor cuts its input into literals and matches.  A match names a hash bucket,
    not an offset, so the decompressor has to rebuild the compressor's bucket table from the
    bytes it has already produced, and its copy lags up to two positions behind.  This module
    defines both sides on values and proves that the lag never shows. */
module QlzTokens {
  import opened Common

  /** Exclusive or. */
  function Xor(a: nat, b: nat): nat
    decreases a + b
  {
    if a == 0 then b else if b == 0 then a else (a + b) % 2 + 2 * Xor(a / 2, b / 2)
  }

  lemma {:induction false} XorBound(a: nat, b: nat, n: nat)
    requires a < Pow2(n) && b < Pow2(n)
    ensures Xor(a, b) < Pow2(n)
    decreases n
  {
    if a > 0 && b > 0 {
      XorBound(a / 2, b / 2, n - 1);
    }
  }

  /** hash_func: ((i >> 12) ^ i) & 0xfff. */
  function HashFunc(i: nat): (h: nat)
    ensures h < 4096
  {
    assert Pow2(12) == 4096;
    XorBound(i % 4096, (i / 4096) % 4096, 12);
    Xor(i % 4096, (i / 4096) % 4096)
  }

  /** Bit k, counted from the lowest. */
  function BitOf(v: nat, k: nat): (b: nat)
    ensures b < 2
    decreases k
  {
    if k == 0 then v % 2 else BitOf(v / 2, k - 1)
  }

  lemma {:induction false} XorBits(a: nat, b: nat, k: nat)
    ensures BitOf(Xor(a, b), k) == (BitOf(a, k) + BitOf(b, k)) % 2
    decreases k
  {
    hide Xor;
    XorHalf(a, b);
    if k > 0 {
      XorBits(a / 2, b / 2, k - 1);
    }
  }

  lemma XorHalf(a: nat, b: nat)
    ensures Xor(a, b) % 2 == (a + b) % 2 && Xor(a, b) / 2 == Xor(a / 2, b / 2)
  {
    if a == 0 || b == 0 {
      assert Xor(a, b) == a + b && Xor(a / 2, b / 2) == a / 2 + b / 2;
    } else {
      var r, x := (a + b) % 2, Xor(a / 2, b / 2);
      assert Xor(a, b) == r + 2 * x;
      BitAndRest(r, x);
    }
  }

  lemma BitAndRest(r: nat, x: nat)
    requires r < 2
    ensures (r + 2 * x) % 2 == r && (r + 2 * x) / 2 == x
  {
  }

  /** The n lowest bits, and the bits above them. */
  function Low(v: nat, n: nat): (r: nat)
    ensures r < Pow2(n)
    decreases n
  {
    if n == 0 then 0 else v % 2 + 2 * Low(v / 2, n - 1)
  }

  function High(v: nat, n: nat): nat
    decreases n
  {
    if n == 0 then v else High(v / 2, n - 1)
  }

  lemma Doubled(p: nat, q: nat)
    ensures 2 * p * q == 2 * (p * q)
  {
  }

  lemma {:induction false} LowAndHigh(v: nat, n: nat)
    ensures v == Low(v, n) + Pow2(n) * High(v, n)
    decreases n
  {
    if n > 0 {
      LowAndHigh(v / 2, n - 1);
      Doubled(Pow2(n - 1), High(v / 2, n - 1));
    }
  }

  lemma {:induction false} LowBits(v: nat, n: nat, k: nat)
    requires k < n
    ensures BitOf(Low(v, n), k) == BitOf(v, k)
    decreases k
  {
    if k > 0 {
      LowBits(v / 2, n - 1, k - 1);
      assert Low(v, n) / 2 == Low(v / 2, n - 1);
    }
  }

  lemma {:induction false} HighBits(v: nat, n: nat, k: nat)
    ensures BitOf(High(v, n), k) == BitOf(v, k + n)
    decreases n
  {
    if n > 0 {
      HighBits(v / 2, n - 1, k);
    }
  }

  lemma Pow2Of12()
    ensures Pow2(12) == 4096
  {
  }

  lemma Parts(v: nat, lo: nat, hi: nat)
    requires v == lo + 4096 * hi && lo < 4096
    ensures v % 4096 == lo && v / 4096 == hi
  {
  }

  lemma Twelve(v: nat)
    ensures v % 4096 == Low(v, 12) && v / 4096 == High(v, 12)
  {
    Pow2Of12();
    hide *;
    LowAndHigh(v, 12);
    Parts(v, Low(v, 12), High(v, 12));
  }

  lemma HashIs(i: nat)
    ensures HashFunc(i) == Xor(Low(i, 12), Low(High(i, 12), 12))
  {
    Twelve(i);
    Twelve(i / 4096);
    hide Xor, Low, High, Pow2;
  }

  /** Bit k of a hash is the exclusive or of bits k and k + 12. */
  lemma HashBits(i: nat, k: nat)
    requires k < 12
    ensures BitOf(HashFunc(i), k) == (BitOf(i, k) + BitOf(i, k + 12)) % 2
  {
    hide *;
    HashIs(i);
    XorBits(Low(i, 12), Low(High(i, 12), 12), k);
    LowBits(i, 12, k);
    LowBits(High(i, 12), 12, k);
    HighBits(i, 12, k);
  }

  /** The compressor hashes a four-byte read, the decompressor is only sure of three bytes: the
      fourth never matters. */
  lemma HashIgnoresFourthByte(w: Word, b: byte)
    ensures HashFunc(Value(w)) == HashFunc(Value(w.(b3 := b)))
  {
    Low24(w);
    Low24(w.(b3 := b));
  }

  lemma Low24(w: Word)
    ensures Value(w) % 4096 == w.b0 + 0x100 * (w.b1 % 16)
    ensures (Value(w) / 4096) % 4096 == w.b1 / 16 + 16 * w.b2
  {
    var lo, hi := w.b0 + 0x100 * (w.b1 % 16), w.b1 / 16 + 16 * w.b2;
    assert Value(w) == lo + 4096 * (hi + 4096 * w.b3);
    assert Value(w) / 4096 == hi + 4096 * w.b3;
  }

  /** The bucket of the three bytes at p. */
  function HashAt(x: seq<byte>, p: nat): (h: nat)
    requires p + 3 <= |x|
    ensures h < 4096
  {
    var b0: nat, b1: nat, b2: nat := x[p], x[p + 1], x[p + 2];
    HashFunc(b0 + 0x100 * b1 + 0x1_0000 * b2)
  }

  /** The bucket of a fetch is that of the position it comes from. */
  lemma FetchHash(x: seq<byte>, p: nat, w: Word)
    requires p + 3 <= |x| && w.b0 == x[p] && w.b1 == x[p + 1] && w.b2 == x[p + 2]
    ensures HashFunc(Value(w)) == HashAt(x, p)
  {
    HashIgnoresFourthByte(w, 0);
    hide HashFunc;
    assert Value(w.(b3 := 0)) == w.b0 as nat + 0x100 * w.b1 as nat + 0x1_0000 * w.b2 as nat;
  }

  /** The bytes of x from o and from t agree over n positions. */
  ghost predicate Agree(x: seq<byte>, o: nat, t: nat, n: nat)
    requires o <= t && t + n <= |x|
  {
    forall i | t <= i < t + n :: x[i] == x[i - (t - o)]
  }

  // ----- tokens and the compressor's greedy parse

  datatype Token = Literal(b: byte) | Match(bucket: nat, len: nat) {
    function Span(): nat {
      match this
      case Literal(_) => 1
      case Match(_, n) => n
    }
  }

  /** Compressor state between two tokens: input position, literals since the last match,
      and the bucket table (the last token start hashed into each bucket). */
  datatype Enc = Enc(pos: nat, lits: nat, table: map<nat, nat>)

  const INITIAL_ENC := Enc(0, 0, map[])

  ghost predicate ValidEnc(x: seq<byte>, s: Enc) {
    && s.pos <= |x|
    && s.lits <= s.pos
    && forall h | h in s.table :: s.table[h] < s.pos
  }

  /** same(src - 3, 6): the three bytes before t, the one at t and the three after are equal. */
  ghost predicate InRun(x: seq<byte>, t: nat)
    requires 3 <= t && t + 4 <= |x|
  {
    forall i | t - 3 <= i < t + 4 :: x[i] == x[t - 3]
  }

  /** The main loop looks for matches up to last_matchstart only. */
  predicate InMainLoop(x: seq<byte>, pos: int) {
    pos <= |x| - 11
  }

  ghost predicate FindsMatch(x: seq<byte>, s: Enc)
    requires ValidEnc(x, s) && InMainLoop(x, s.pos)
  {
    var t := s.pos;
    var h := HashAt(x, t);
    && h in s.table
    && var o := s.table[h];
    && o != 0
    && Agree(x, o, t, 3)
    && (t - o > 2 || (t == o + 1 && s.lits >= 3 && t > 3 && InRun(x, t)))
  }

  /** remaining: a match is at most 255 long and leaves at least four literal bytes. */
  function MatchLimit(x: seq<byte>, t: nat): nat
    requires InMainLoop(x, t)
  {
    if |x| - 4 - t > 255 then 255 else |x| - 4 - t
  }

  ghost function Extend(x: seq<byte>, o: nat, t: nat, n: nat): (m: nat)
    requires o < t && InMainLoop(x, t) && n <= MatchLimit(x, t) && Agree(x, o, t, n)
    ensures n <= m <= MatchLimit(x, t)
    ensures Agree(x, o, t, m)
    ensures m == MatchLimit(x, t) || x[o + m] != x[t + m]
    decreases MatchLimit(x, t) - n
  {
    if n < MatchLimit(x, t) && x[o + n] == x[t + n] then Extend(x, o, t, n + 1) else n
  }

  ghost function NextToken(x: seq<byte>, s: Enc): (tok: Token)
    requires ValidEnc(x, s) && s.pos < |x|
    ensures s.pos + tok.Span() <= |x|
    ensures tok.Match? ==> 3 <= tok.len <= 255 && tok.bucket < 4096 && s.pos + tok.len + 4 <= |x|
    ensures tok.Match? ==> InMainLoop(x, s.pos)
  {
    if InMainLoop(x, s.pos) && FindsMatch(x, s) then
      var h := HashAt(x, s.pos);
      Match(h, Extend(x, s.table[h], s.pos, 3))
    else
      Literal(x[s.pos])
  }

  ghost function Advance(x: seq<byte>, s: Enc): (s': Enc)
    requires ValidEnc(x, s) && s.pos < |x|
    ensures ValidEnc(x, s')
    ensures s'.pos == s.pos + NextToken(x, s).Span()
  {
    var tok := NextToken(x, s);
    var table := if s.pos + 4 <= |x| then s.table[HashAt(x, s.pos) := s.pos] else s.table;
    Enc(s.pos + tok.Span(), if tok.Match? then 0 else s.lits + 1, table)
  }

  ghost function ParseFrom(x: seq<byte>, s: Enc): (ts: seq<Token>)
    requires ValidEnc(x, s)
    decreases |x| - s.pos
  {
    if s.pos == |x| then [] else [NextToken(x, s)] + ParseFrom(x, Advance(x, s))
  }

  /** The tokens the compressor produces for x. */
  ghost function Parse(x: seq<byte>): seq<Token> {
    ParseFrom(x, INITIAL_ENC)
  }

  // ----- the decompressor on tokens

  /** Decompressor state: output so far, the last position hashed, and its bucket table.  Buckets
      never written are absent: the C table is not cleared and holds arbitrary pointers there. */
  datatype Dec = Dec(out: seq<byte>, lastHashed: int, table: map<nat, nat>)

  const INITIAL_DEC := Dec([], -1, map[])

  /** update_hash_upto: enter positions lo+1 .. hi, in order. */
  function HashUpto(table: map<nat, nat>, out: seq<byte>, lo: int, hi: int): map<nat, nat>
    requires -1 <= lo
    requires hi <= lo || hi + 3 <= |out|
    decreases hi - lo
  {
    if hi <= lo then table else HashUpto(table, out, lo, hi - 1)[HashAt(out, hi) := hi]
  }

  /** memcpy_up with overlap: a forward copy, byte by byte, of n bytes starting at p. */
  function CopyForward(out: seq<byte>, p: nat, n: nat): (r: seq<byte>)
    requires p < |out|
    ensures |r| == |out| + n
    ensures r[..|out|] == out
    decreases n
  {
    if n == 0 then out else CopyForward(out + [out[p]], p + 1, n - 1)
  }

  ghost predicate ValidDec(d: Dec) {
    && -1 <= d.lastHashed < |d.out|
    && forall h | h in d.table :: d.table[h] <= d.lastHashed
  }

  lemma HashUptoBounds(table: map<nat, nat>, out: seq<byte>, lo: int, hi: int)
    requires -1 <= lo
    requires hi <= lo || hi + 3 <= |out|
    requires forall h | h in table :: table[h] <= lo
    ensures forall h | h in HashUpto(table, out, lo, hi) ::
              HashUpto(table, out, lo, hi)[h] <= Max(lo, hi)
    decreases hi - lo
  {
    if hi > lo {
      HashUptoBounds(table, out, lo, hi - 1);
    }
  }

  /** A match is decodable when its bucket holds a position of the output. */
  predicate CanDecode(d: Dec, tok: Token) {
    && -1 <= d.lastHashed < |d.out|
    && (tok.Match? ==> tok.len >= 3 && tok.bucket in d.table && d.table[tok.bucket] < |d.out|)
  }

  function DecodeToken(d: Dec, tok: Token): (r: Dec)
    requires CanDecode(d, tok)
    ensures |r.out| == |d.out| + tok.Span() && r.out[..|d.out|] == d.out
    ensures -1 <= r.lastHashed < |r.out|
  {
    match tok
    case Literal(b) =>
      var out := d.out + [b];
      Dec(out, Max(d.lastHashed, |out| - 3), HashUpto(d.table, out, d.lastHashed, |out| - 3))
    case Match(bucket, len) =>
      var out := CopyForward(d.out, d.table[bucket], len);
      Dec(out, |out| - 1, HashUpto(d.table, out, d.lastHashed, |d.out|))
  }

  /** Decodes a token sequence; None when a match names a bucket that was never filled. */
  function DecodeAll(d: Dec, ts: seq<Token>): Option<Dec>
    decreases |ts|
  {
    if ts == [] then Some(d)
    else if !CanDecode(d, ts[0]) then None
    else DecodeAll(DecodeToken(d, ts[0]), ts[1..])
  }

  // ----- synchrony

  /** The lock-step invariant.  The compressor's table is the decompressor's with the pending
      positions (at most two, and all of them literals) entered. */
  ghost predicate Synced(x: seq<byte>, s: Enc, d: Dec) {
    && ValidEnc(x, s)
    && ValidDec(d)
    && d.out == x[..s.pos]
    && d.lastHashed == s.pos - 1 - Min(s.lits, 2)
    && (s.lits > 0 ==> s.pos + 2 <= |x|)
    && s.table == HashUpto(d.table, x, d.lastHashed, s.pos - 1)
    && (s.lits >= 3 ==> HashAt(x, s.pos - 3) in d.table && d.table[HashAt(x, s.pos - 3)] == s.pos - 3)
  }

  /** Hashing pending positions changes only buckets that then hold one of those positions. */
  lemma HashUptoLookup(table: map<nat, nat>, out: seq<byte>, lo: int, hi: int, h: nat)
    requires -1 <= lo
    requires hi <= lo || hi + 3 <= |out|
    requires h in HashUpto(table, out, lo, hi) && HashUpto(table, out, lo, hi)[h] <= lo
    ensures h in table && table[h] == HashUpto(table, out, lo, hi)[h]
    decreases hi - lo
  {
    if hi > lo {
      HashUptoLookup(table, out, lo, hi - 1, h);
    }
  }

  lemma HashUptoPrefix(table: map<nat, nat>, a: seq<byte>, b: seq<byte>, lo: int, hi: int)
    requires -1 <= lo
    requires hi <= lo || (hi + 3 <= |a| && hi + 3 <= |b| && a[..hi + 3] == b[..hi + 3])
    ensures HashUpto(table, a, lo, hi) == HashUpto(table, b, lo, hi)
    decreases hi - lo
  {
    hide HashFunc;
    if hi > lo {
      assert forall i | 0 <= i < hi + 3 :: a[i] == a[..hi + 3][i] == b[i];
      HashUptoPrefix(table, a, b, lo, hi - 1);
    }
  }

  lemma CopyForwardAgrees(x: seq<byte>, p: nat, t: nat, n: nat)
    requires p < t && t + n <= |x| && Agree(x, p, t, n)
    ensures CopyForward(x[..t], p, n) == x[..t + n]
    decreases n
  {
    if n > 0 {
      assert x[t] == x[p];
      assert x[..t] + [x[..t][p]] == x[..t + 1];
      CopyForwardAgrees(x, p + 1, t + 1, n - 1);
    }
  }

  /** A match at distance one inside a run is also a match at distance three. */
  lemma RunAgrees(x: seq<byte>, t: nat, n: nat)
    requires 3 <= t && t + n <= |x| && t + 4 <= |x| && InRun(x, t) && Agree(x, t - 1, t, n)
    ensures Agree(x, t - 3, t, n)
  {
    forall i | t <= i < t + n
      ensures x[i] == x[i - 3]
    {
      RunConstant(x, t, n, i);
      if i - 3 >= t {
        RunConstant(x, t, n, i - 3);
      }
    }
  }

  lemma RunConstant(x: seq<byte>, t: nat, n: nat, i: nat)
    requires 3 <= t && t + n <= |x| && t + 4 <= |x| && InRun(x, t) && Agree(x, t - 1, t, n)
    requires t <= i < t + n
    ensures x[i] == x[t - 3]
  {
    if i > t {
      RunConstant(x, t, n, i - 1);
    }
    assert x[i] == x[i - 1];
  }

  /** Hash-table synchrony at a match: the decompressor's bucket names the compressor's position,
      at distance at least 3; or the compressor matched at distance 1 inside a run and the bucket
      names the position at distance 3 of the same run.  Either way the same bytes are copied. */
  lemma BucketsAgree(x: seq<byte>, s: Enc, d: Dec)
    requires Synced(x, s, d) && InMainLoop(x, s.pos) && FindsMatch(x, s)
    ensures NextToken(x, s).Match?
    ensures
      var tok, t := NextToken(x, s), s.pos;
      var o := s.table[tok.bucket];
      && tok.bucket in d.table
      && var p := d.table[tok.bucket];
      && ((p == o && t - o >= 3) || (o == t - 1 && p == t - 3 && InRun(x, t)))
      && Agree(x, p, t, tok.len)
      && CopyForward(d.out, p, tok.len) == x[..t + tok.len]
  {
    var tok, t := NextToken(x, s), s.pos;
    var h, o := tok.bucket, s.table[tok.bucket];
    if t - o > 2 {
      FarBucket(x, s, d, h);
    } else {
      NearBucket(x, s, d);
      RunAgrees(x, t, tok.len);
    }
    hide FindsMatch, NextToken, Extend, HashUpto, HashAt, InRun;
    CopyForwardAgrees(x, d.table[h], t, tok.len);
  }

  /** A bucket that names a position more than two bytes back is not one of the pending ones. */
  lemma FarBucket(x: seq<byte>, s: Enc, d: Dec, h: nat)
    requires Synced(x, s, d) && h in s.table && s.pos - s.table[h] > 2
    ensures h in d.table && d.table[h] == s.table[h]
  {
    hide HashAt, HashUpto;
    HashUptoLookup(d.table, x, d.lastHashed, s.pos - 1, h);
  }

  /** Behind three literals in a run the decompressor's bucket names the place three bytes back. */
  lemma NearBucket(x: seq<byte>, s: Enc, d: Dec)
    requires Synced(x, s, d) && s.lits >= 3 && s.pos + 4 <= |x| && InRun(x, s.pos)
    ensures HashAt(x, s.pos) in d.table && d.table[HashAt(x, s.pos)] == s.pos - 3
  {
    hide HashUpto, HashFunc;
    var t := s.pos;
    assert HashAt(x, t - 3) == HashAt(x, t) by {
      assert x[t - 3] == x[t] && x[t - 2] == x[t + 1] && x[t - 1] == x[t + 2];
    }
  }

  /** Entering the positions lo+1 .. hi at once or in two steps is the same. */
  lemma HashUptoSplit(table: map<nat, nat>, out: seq<byte>, lo: int, mid: int, hi: int)
    requires -1 <= lo <= mid <= hi
    requires hi <= lo || hi + 3 <= |out|
    ensures HashUpto(HashUpto(table, out, lo, mid), out, mid, hi) == HashUpto(table, out, lo, hi)
    decreases hi - mid
  {
    if mid < hi {
      HashUptoSplit(table, out, lo, mid, hi - 1);
    }
  }

  lemma AdvanceTable(x: seq<byte>, s: Enc, d: Dec)
    requires Synced(x, s, d) && s.pos + 4 <= |x|
    ensures Advance(x, s).table == HashUpto(d.table, x, d.lastHashed, s.pos)
  {
  }

  /** The table part of a literal step: the position that leaves the pending window is entered. */
  lemma LiteralTables(x: seq<byte>, table: map<nat, nat>, t: nat, lits: nat)
    requires t + 3 <= |x| && lits <= t
    requires forall h | h in table :: table[h] <= t - 1 - Min(lits, 2)
    ensures
      var lo := t - 1 - Min(lits, 2);
      var lo' := t - Min(lits + 1, 2);
      var table' := HashUpto(table, x, lo, t - 2);
      && lo' == Max(lo, t - 2)
      && HashUpto(table', x, lo', t) == HashUpto(table, x, lo, t)
      && (forall h | h in table' :: table'[h] <= lo')
      && (lits >= 2 ==> HashAt(x, t - 2) in table' && table'[HashAt(x, t - 2)] == t - 2)
  {
    var lo := t - 1 - Min(lits, 2);
    HashUptoBounds(table, x, lo, t - 2);
    if lits >= 2 {
      HashUptoSplit(table, x, lo, t - 2, t);
    }
  }

  lemma DecodeLiteral(x: seq<byte>, s: Enc, d: Dec)
    requires Synced(x, s, d) && s.pos + 4 <= |x|
    ensures
      var d' := DecodeToken(d, Literal(x[s.pos]));
      && d'.out == x[..s.pos + 1]
      && d'.lastHashed == Max(d.lastHashed, s.pos - 2)
      && d'.table == HashUpto(d.table, x, d.lastHashed, s.pos - 2)
  {
    hide HashUpto, HashAt;
    var out := d.out + [x[s.pos]];
    assert out == x[..s.pos + 1];
    HashUptoPrefix(d.table, out, x, d.lastHashed, s.pos - 2);
  }

  lemma SyncLiteral(x: seq<byte>, s: Enc, d: Dec)
    requires Synced(x, s, d) && s.pos + 4 <= |x| && NextToken(x, s).Literal?
    ensures Synced(x, Advance(x, s), DecodeToken(d, NextToken(x, s)))
  {
    var t := s.pos;
    assert NextToken(x, s) == Literal(x[t]);
    var s', d' := Advance(x, s), DecodeToken(d, Literal(x[t]));
    AdvanceTable(x, s, d);
    DecodeLiteral(x, s, d);
    LiteralTables(x, d.table, t, s.lits);
    assert s'.pos == t + 1 && s'.lits == s.lits + 1;
    assert ValidDec(d');
    assert s'.table == HashUpto(d'.table, x, d'.lastHashed, t);
  }

  lemma SyncMatch(x: seq<byte>, s: Enc, d: Dec)
    requires Synced(x, s, d) && s.pos < |x| && NextToken(x, s).Match?
    ensures CanDecode(d, NextToken(x, s))
    ensures Synced(x, Advance(x, s), DecodeToken(d, NextToken(x, s)))
  {
    hide HashAt, CopyForward;
    BucketsAgree(x, s, d);
    var s', d', t := Advance(x, s), DecodeToken(d, NextToken(x, s)), s.pos;
    assert d'.out == x[..s'.pos];
    AdvanceTable(x, s, d);
    HashUptoPrefix(d.table, d'.out, x, d.lastHashed, t);
    HashUptoBounds(d.table, x, d.lastHashed, t);
  }

  // ----- whole runs

  /** The compressor's state after n tokens of x. */
  ghost function EncAfter(x: seq<byte>, n: nat): (s: Enc)
    ensures ValidEnc(x, s)
  {
    if n == 0 then INITIAL_ENC
    else
      var s := EncAfter(x, n - 1);
      if s.pos < |x| then Advance(x, s) else s
  }

  lemma ParseSplit(x: seq<byte>, n: nat)
    requires n <= |Parse(x)|
    ensures Parse(x) == Parse(x)[..n] + ParseFrom(x, EncAfter(x, n))
  {
    hide HashAt, HashFunc, FindsMatch;
    if n > 0 {
      ParseSplit(x, n - 1);
      var rest := ParseFrom(x, EncAfter(x, n - 1));
      assert rest[0] == Parse(x)[n - 1];
      assert Parse(x)[..n] == Parse(x)[..n - 1] + [rest[0]];
    }
  }

  lemma {:induction false} DecodeAllSnoc(d: Dec, ts: seq<Token>, tok: Token)
    requires DecodeAll(d, ts).Some? && CanDecode(DecodeAll(d, ts).value, tok)
    ensures DecodeAll(d, ts + [tok]) == Some(DecodeToken(DecodeAll(d, ts).value, tok))
    decreases |ts|
  {
    if ts == [] {
      assert ts + [tok] == [tok];
    } else {
      DecodeAllSnoc(DecodeToken(d, ts[0]), ts[1..], tok);
      assert (ts + [tok])[1..] == ts[1..] + [tok];
    }
  }

  /** The decompressor has reproduced exactly the input read so far, and the two tables are in
      step as long as a match can still come. */
  ghost predicate InStep(x: seq<byte>, s: Enc, d: Dec) {
    && ValidEnc(x, s)
    && -1 <= d.lastHashed < |d.out|
    && d.out == x[..s.pos]
    && (s.pos + 4 <= |x| ==> Synced(x, s, d))
  }

  lemma StepInStep(x: seq<byte>, s: Enc, d: Dec)
    requires InStep(x, s, d) && s.pos < |x|
    ensures CanDecode(d, NextToken(x, s))
    ensures InStep(x, Advance(x, s), DecodeToken(d, NextToken(x, s)))
  {
    var tok := NextToken(x, s);
    if tok.Match? {
      SyncMatch(x, s, d);
    } else if s.pos + 4 <= |x| {
      SyncLiteral(x, s, d);
    } else {
      TailLiteral(x, s, d);
    }
  }

  lemma TailLiteral(x: seq<byte>, s: Enc, d: Dec)
    requires InStep(x, s, d) && s.pos < |x| < s.pos + 4
    ensures CanDecode(d, NextToken(x, s))
    ensures InStep(x, Advance(x, s), DecodeToken(d, NextToken(x, s)))
  {
    assert d.out + [x[s.pos]] == x[..s.pos + 1];
  }

  lemma {:induction false} LockStep(x: seq<byte>, n: nat)
    requires n <= |Parse(x)|
    ensures DecodeAll(INITIAL_DEC, Parse(x)[..n]).Some?
    ensures InStep(x, EncAfter(x, n), DecodeAll(INITIAL_DEC, Parse(x)[..n]).value)
  {
    if n > 0 {
      LockStep(x, n - 1);
      ParseSplit(x, n - 1);
      var s, d := EncAfter(x, n - 1), DecodeAll(INITIAL_DEC, Parse(x)[..n - 1]).value;
      var tok := NextToken(x, s);
      assert tok == ParseFrom(x, s)[0] == Parse(x)[n - 1];
      assert Parse(x)[..n] == Parse(x)[..n - 1] + [tok];
      StepInStep(x, s, d);
      DecodeAllSnoc(INITIAL_DEC, Parse(x)[..n - 1], tok);
    }
  }

  /** Token-level round trip, for every input. */
  lemma TokenRoundTrip(x: seq<byte>)
    ensures DecodeAll(INITIAL_DEC, Parse(x)).Some?
    ensures DecodeAll(INITIAL_DEC, Parse(x)).value.out == x
  {
    var n := |Parse(x)|;
    LockStep(x, n);
    ParseSplit(x, n);
    assert Parse(x)[..n] == Parse(x);
    assert ParseFrom(x, EncAfter(x, n)) == [];
    assert x[..|x|] == x;
  }

  /** Hash-table synchrony at every match token of every input. */
  lemma TablesAgreeAtMatches(x: seq<byte>, n: nat)
    requires n < |Parse(x)| && Parse(x)[n].Match?
    ensures
      var tok, s, d := Parse(x)[n], EncAfter(x, n), DecodeAll(INITIAL_DEC, Parse(x)[..n]);
      && d.Some? && tok.bucket in s.table && tok.bucket in d.value.table
      && var o, p := s.table[tok.bucket], d.value.table[tok.bucket];
      && ((p == o && s.pos - o >= 3) || (o == s.pos - 1 && p == s.pos - 3 && s.pos + 4 <= |x| && InRun(x, s.pos)))
      && s.pos + tok.len <= |x| && p < |d.value.out|
      && CopyForward(d.value.out, p, tok.len) == x[..s.pos + tok.len]
  {
    LockStep(x, n);
    ParseSplit(x, n);
    var s := EncAfter(x, n);
    assert NextToken(x, s) == ParseFrom(x, s)[0] == Parse(x)[n];
    BucketsAgree(x, s, DecodeAll(INITIAL_DEC, Parse(x)[..n]).value);
  }
}
