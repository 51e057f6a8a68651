/** qlz_decompress_core for level 1 without QLZ_MEMORY_SAFE, on x86-64: four bytes are copied at a
    time, so bytes beyond the current end of the output are scratch until they are overwritten. */
module QlzDecompressor {
  import opened Common
  import opened QlzTokens
  import opened QlzStream

  const HASH_VALUES := 4096
  const CWORD_LEN := 4

  // ----- copying within the output

  lemma {:induction false} CopyForwardSplit(out: seq<byte>, p: nat, m: nat, n: nat)
    requires p < |out|
    ensures p + m < |out| + m
    ensures CopyForward(out, p, m + n) == CopyForward(CopyForward(out, p, m), p + m, n)
    decreases m
  {
    if m > 0 {
      CopyForwardSplit(out + [out[p]], p + 1, m - 1, n);
    }
  }

  /** Three bytes at distance three or more are all present before the copy starts. */
  lemma CopyForwardThree(out: seq<byte>, p: nat)
    requires p + 3 <= |out|
    ensures CopyForward(out, p, 3) == out + out[p..p + 3]
  {
    var a := out + [out[p]];
    var b := a + [a[p + 1]];
    assert CopyForward(out, p, 3) == CopyForward(a, p + 1, 2) == CopyForward(b, p + 2, 1) == b + [b[p + 2]];
    assert b + [b[p + 2]] == out + out[p..p + 3];
  }

  lemma CopyForwardTake(out: seq<byte>, p: nat, n: nat, m: nat)
    requires p < |out| && n <= m
    ensures CopyForward(out, p, m)[..|out| + n] == CopyForward(out, p, n)
  {
    CopyForwardSplit(out, p, n, m - n);
  }

  /** One four-byte read and one four-byte write; three of the bytes are already final. */
  method CopyWord(dest: array<byte>, dst: nat, src: nat)
    requires src + 3 <= dst && dst + 4 <= dest.Length
    modifies dest
    ensures dest[..dst + 3] == CopyForward(old(dest[..dst]), src, 3)
    ensures forall i | dst + 4 <= i < dest.Length :: dest[i] == old(dest[i])
  {
    ghost var out := dest[..dst];
    CopyForwardThree(out, src);
    var a, b, c, d := dest[src], dest[src + 1], dest[src + 2], dest[src + 3];
    assert [a, b, c] == out[src..src + 3];
    dest[dst], dest[dst + 1], dest[dst + 2], dest[dst + 3] := a, b, c, d;
    assert dest[..dst] == out;
    assert dest[..dst + 3] == out + [a, b, c];
  }

  /** memcpy_up: whole words in steps of three bytes.  At distance three or more the first n bytes
      are those of a byte-by-byte forward copy, and at most three bytes beyond are touched. */
  method MemcpyUp(dest: array<byte>, dst: nat, src: nat, n: nat)
    requires src + 3 <= dst && n > 0 && dst + n + 3 <= dest.Length
    modifies dest
    ensures dest[..dst + n] == CopyForward(old(dest[..dst]), src, n)
    ensures forall i | dst + n + 3 <= i < dest.Length :: dest[i] == old(dest[i])
  {
    hide CopyForward;
    ghost var out := dest[..dst];
    CopyWord(dest, dst, src);
    var f := 3;
    while f < n
      invariant 3 <= f < n + 3
      invariant dest[..dst + f] == CopyForward(out, src, f)
      invariant forall i | dst + n + 3 <= i < dest.Length :: dest[i] == old(dest[i])
    {
      CopyForwardSplit(out, src, f, 3);
      CopyWord(dest, dst + f, src + f);
      f := f + 3;
    }
    if f > n {
      CopyForwardTake(out, src, n, f);
      assert dest[..dst + n] == dest[..dst + f][..dst + n];
    }
  }

  // ----- the bucket table

  /** qlz_state_decompress: the table is never cleared at level 1. */
  class DecompressState {
    const offset: array<nat>

    constructor (table: array<nat>)
      requires table.Length == HASH_VALUES
      ensures offset == table
    {
      offset := table;
    }

    ghost predicate Represents(table: map<nat, nat>)
      reads this, offset
    {
      && offset.Length == HASH_VALUES
      && forall h | h in table :: h < HASH_VALUES && offset[h] == table[h]
    }

    method UpdateHash(dest: array<byte>, p: nat, ghost out: seq<byte>, ghost table: map<nat, nat>)
      requires Represents(table) && dest != offset as object && p + 4 <= dest.Length && out == dest[..]
      modifies offset
      ensures Represents(table[HashAt(out, p) := p])
    {
      hide HashFunc, HashAt, Value;
      var fetch := Word(dest[p], dest[p + 1], dest[p + 2], dest[p + 3]);
      FetchHash(out, p, fetch);
      offset[HashFunc(Value(fetch))] := p;
    }

    /** update_hash_upto. */
    method UpdateHashUpto(dest: array<byte>, lastHashed: int, max: int, ghost table: map<nat, nat>)
      returns (lastHashed': int)
      requires Represents(table) && dest != offset as object
      requires -1 <= lastHashed && (max <= lastHashed || max + 4 <= dest.Length)
      modifies offset
      ensures lastHashed' == Max(lastHashed, max)
      ensures Represents(HashUpto(table, dest[..], lastHashed, max))
    {
      hide HashAt, HashFunc;
      lastHashed' := lastHashed;
      ghost var out, t := dest[..], table;
      while lastHashed' < max
        invariant lastHashed <= lastHashed' <= Max(lastHashed, max)
        invariant t == HashUpto(table, out, lastHashed, lastHashed') && Represents(t)
      {
        lastHashed' := lastHashed' + 1;
        UpdateHash(dest, lastHashed', out, t);
        t := t[HashAt(out, lastHashed') := lastHashed'];
      }
    }
  }

  // ----- reading the stream

  /** The compressed bytes from src on are those of the tokens still to come, the control word
      holding the flags of the next slots of them. */
  ghost predicate Reading(source: seq<byte>, ts: seq<Token>, slots: nat, src: nat, cword: nat) {
    && AllEncodable(ts) && slots <= GROUP
    && src + |Rest(ts, slots)| <= |source|
    && source[src..src + |Rest(ts, slots)|] == Rest(ts, slots)
    && cword == Control(Flags(ts, slots))
  }

  lemma SliceSplit<T>(s: seq<T>, p: nat, a: seq<T>, b: seq<T>)
    requires p + |a| + |b| <= |s| && s[p..p + |a| + |b|] == a + b
    ensures s[p..p + |a|] == a && s[p + |a|..p + |a| + |b|] == b
  {
    var w := s[p..p + |a| + |b|];
    assert s[p..p + |a|] == w[..|a|] == (a + b)[..|a|];
    assert s[p + |a|..p + |a| + |b|] == w[|a|..] == (a + b)[|a|..];
  }

  lemma ReadingReload(source: seq<byte>, ts: seq<Token>, src: nat, cword: nat)
    requires Reading(source, ts, 0, src, cword) && ts != []
    ensures src + 4 <= |source|
    ensures Reading(source, ts, GROUP, src + 4, Value(WordAt(source, src)))
  {
    var a, b := ControlBytes(ts), Rest(ts, GROUP);
    assert Rest(ts, 0) == a + b;
    SliceSplit(source, src, a, b);
    WordAtSlice(source, src, a);
    ControlFits(Flags(ts, GROUP));
    Bytes32RoundTrip(Control(Flags(ts, GROUP)));
  }

  lemma ReadingToken(source: seq<byte>, ts: seq<Token>, slots: nat, src: nat, cword: nat)
    requires Reading(source, ts, slots, src, cword) && ts != [] && slots > 0
    ensures cword != 1
    ensures cword % 2 == 1 <==> ts[0].Match?
    ensures src + |TokenBytes(ts[0])| <= |source|
    ensures source[src..src + |TokenBytes(ts[0])|] == TokenBytes(ts[0])
    ensures Reading(source, ts[1..], slots - 1, src + |TokenBytes(ts[0])|, cword / 2)
  {
    var a, b := TokenBytes(ts[0]), Rest(ts[1..], slots - 1);
    assert Rest(ts, slots) == a + b;
    SliceSplit(source, src, a, b);
    assert Flags(ts, slots)[1..] == Flags(ts[1..], slots - 1);
  }

  lemma ReadingEmptyWord(source: seq<byte>, ts: seq<Token>, slots: nat, src: nat, cword: nat)
    requires Reading(source, ts, slots, src, cword)
    ensures cword == 1 <==> slots == 0
  {
  }

  /** The last four bytes of an input are literals, so four stream bytes can always be fetched. */
  lemma FetchInBounds(x: seq<byte>, s: Enc, slots: nat)
    requires ValidEnc(x, s)
    ensures AllEncodable(ParseFrom(x, s))
    ensures |Rest(ParseFrom(x, s), slots)| >= Min(4, |x| - s.pos)
    decreases |x| - s.pos, if slots == 0 then 1 else 0
  {
    ParseFromEncodable(x, s);
    if s.pos < |x| && slots > 0 {
      FetchInBounds(x, Advance(x, s), slots - 1);
    }
  }

  lemma MatchFields(source: seq<byte>, src: nat, tok: Token)
    requires Encodable(tok) && tok.Match?
    requires src + 4 <= |source|
    requires source[src..src + |TokenBytes(tok)|] == TokenBytes(tok)
    ensures
      var v := Value(WordAt(source, src));
      && (v / 16) % 4096 == tok.bucket
      && (v % 16 != 0 ==> |TokenBytes(tok)| == 2 && v % 16 + 2 == tok.len)
      && (v % 16 == 0 ==> |TokenBytes(tok)| == 3 && source[src + 2] == tok.len)
  {
    MatchBytesRoundTrip(tok);
    LowFields(WordAt(source, src));
    var b := TokenBytes(tok);
    assert forall i {:trigger b[i]} | 0 <= i < |b| :: source[src..src + |b|][i] == source[src + i] == b[i];
    assert b[0] == source[src] && b[1] == source[src + 1];
    if |b| == 3 {
      assert b[2] == source[src + 2];
    }
  }

  lemma LowFields(w: Word)
    ensures
      var lo := (w.b0 as int) + 0x100 * (w.b1 as int);
      && Value(w) % 16 == lo % 16
      && (Value(w) / 16) % 4096 == (lo / 16) % 4096
  {
    var lo := (w.b0 as int) + 0x100 * (w.b1 as int);
    var hi := (w.b2 as int) + 0x100 * (w.b3 as int);
    assert Value(w) == lo + 0x1_0000 * hi;
    assert Value(w) / 16 == lo / 16 + 4096 * hi;
  }

  // ----- the decompression core

  /** The output so far is the input up to the compressor's position; what lies beyond is scratch. */
  ghost predicate Decoding(x: seq<byte>, view: seq<byte>, s: Enc, d: Dec, dst: nat, lastHashed: int) {
    && InStep(x, s, d)
    && dst == s.pos && |x| <= |view| && view[..dst] == x[..dst]
    && lastHashed == d.lastHashed
  }

  lemma ParseFromStep(x: seq<byte>, s: Enc)
    requires ValidEnc(x, s) && s.pos < |x|
    ensures ParseFrom(x, s) != [] && ParseFrom(x, s)[0] == NextToken(x, s)
    ensures ParseFrom(x, s)[1..] == ParseFrom(x, Advance(x, s))
  {
  }

  /** Bucket and length of a match, and where the next token starts. */
  method ReadMatch(source: seq<byte>, src: nat, ghost tok: Token) returns (hash: nat, matchlen: nat, src': nat)
    requires Encodable(tok) && tok.Match? && src + 4 <= |source|
    requires source[src..src + |TokenBytes(tok)|] == TokenBytes(tok)
    ensures hash == tok.bucket && matchlen == tok.len && src' == src + |TokenBytes(tok)|
  {
    MatchFields(source, src, tok);
    var fetch := Value(WordAt(source, src));
    hash := (fetch / 16) % 4096;
    if fetch % 16 != 0 {
      matchlen := fetch % 16 + 2;
      src' := src + 2;
    } else {
      matchlen := source[src + 2];
      src' := src + 3;
    }
  }

  /** Copies a match and enters the positions up to its start. */
  method CopyAndHash(dest: array<byte>, state: DecompressState, dst: nat, offset2: nat, matchlen: nat, lastHashed: int,
                     ghost x: seq<byte>, ghost table: map<nat, nat>)
    requires offset2 + 3 <= dst && matchlen >= 3 && dst + matchlen + 4 <= |x| <= dest.Length
    requires dest[..dst] == x[..dst]
    requires CopyForward(x[..dst], offset2, matchlen) == x[..dst + matchlen]
    requires state.Represents(table) && dest != state.offset as object && -1 <= lastHashed
    modifies dest, state.offset
    ensures dest[..dst + matchlen] == x[..dst + matchlen]
    ensures state.Represents(HashUpto(table, x[..dst + matchlen], lastHashed, dst))
    ensures forall i | |x| <= i < dest.Length :: dest[i] == old(dest[i])
  {
    MemcpyUp(dest, dst, offset2, matchlen);
    var _ := state.UpdateHashUpto(dest, lastHashed, dst, table);
    ghost var out := x[..dst + matchlen];
    assert dest[..][..dst + 3] == dest[..dst + matchlen][..dst + 3] == out[..dst + 3];
    HashUptoPrefix(table, dest[..], out, lastHashed, dst);
  }

  /** A match token. */
  method MatchTurn(source: seq<byte>, dest: array<byte>, state: DecompressState, src: nat, dst: nat, cword: nat,
                   lastHashed: int, ghost x: seq<byte>, ghost s: Enc, ghost d: Dec, ghost slots: nat)
    returns (src': nat, dst': nat, cword': nat, lastHashed': int, ghost s': Enc, ghost d': Dec)
    requires Decoding(x, dest[..], s, d, dst, lastHashed) && s.pos < |x|
    requires Reading(source, ParseFrom(x, s), slots, src, cword) && slots > 0 && cword % 2 == 1
    requires src + 4 <= |source|
    requires state.Represents(d.table) && dest != state.offset as object
    modifies dest, state.offset
    ensures ValidEnc(x, s') && Decoding(x, dest[..], s', d', dst', lastHashed')
    ensures Reading(source, ParseFrom(x, s'), slots - 1, src', cword')
    ensures state.Represents(d'.table)
    ensures dst' > dst && dst' + 4 <= |x|
    ensures forall i | |x| <= i < dest.Length :: dest[i] == old(dest[i])
  {
    hide ParseFrom, NextToken, Advance, HashAt, HashFunc, HashUpto;
    ghost var tok := NextToken(x, s);
    ParseFromStep(x, s);
    ReadingToken(source, ParseFrom(x, s), slots, src, cword);
    MatchInStep(x, s, d);
    s', d' := Advance(x, s), DecodeToken(d, tok);
    cword' := cword / 2;
    var hash, matchlen;
    hash, matchlen, src' := ReadMatch(source, src, tok);
    var offset2 := state.offset[hash];
    CopyAndHash(dest, state, dst, offset2, matchlen, lastHashed, x, d.table);
    dst' := dst + matchlen;
    lastHashed' := dst' - 1;
  }

  /** What a match needs from the lock-step invariant. */
  lemma MatchInStep(x: seq<byte>, s: Enc, d: Dec)
    requires InStep(x, s, d) && s.pos < |x| && NextToken(x, s).Match?
    ensures CanDecode(d, NextToken(x, s))
    ensures
      var tok := NextToken(x, s);
      && tok.bucket in d.table && d.table[tok.bucket] + 3 <= s.pos && s.pos + tok.len + 4 <= |x| && 3 <= tok.len
      && CopyForward(x[..s.pos], d.table[tok.bucket], tok.len) == x[..s.pos + tok.len]
      && DecodeToken(d, tok).out == x[..s.pos + tok.len]
      && DecodeToken(d, tok).lastHashed == s.pos + tok.len - 1
      && DecodeToken(d, tok).table == HashUpto(d.table, DecodeToken(d, tok).out, d.lastHashed, s.pos)
    ensures InStep(x, Advance(x, s), DecodeToken(d, NextToken(x, s)))
  {
    BucketsAgree(x, s, d);
    StepInStep(x, s, d);
  }

  /** How many literals the four low control bits announce, by their value. */
  const BITLUT: seq<nat> := [4, 0, 1, 0, 2, 0, 1, 0, 3, 0, 1, 0, 2, 0, 1, 0]

  function ShiftRight(c: nat, n: nat): nat {
    if n == 0 then c else ShiftRight(c / 2, n - 1)
  }

  /** The table entry counts the trailing zero bits, up to four. */
  lemma BitlutZeros(c: nat)
    requires c % 2 == 0
    ensures c / 2 % 2 == 1 ==> BITLUT[c % 16] == 1
    ensures c / 2 % 2 == 0 && c / 2 / 2 % 2 == 1 ==> BITLUT[c % 16] == 2
    ensures c / 2 % 2 == 0 && c / 2 / 2 % 2 == 0 && c / 2 / 2 / 2 % 2 == 1 ==> BITLUT[c % 16] == 3
    ensures c / 2 % 2 == 0 && c / 2 / 2 % 2 == 0 && c / 2 / 2 / 2 % 2 == 0 ==> BITLUT[c % 16] == 4
  {
    var k := c / 2;
    assert c % 16 == 2 * (k % 8);
  }

  lemma ControlEven(flags: seq<bool>)
    requires Control(flags) % 2 == 0
    ensures flags != [] && !flags[0] && Control(flags) / 2 == Control(flags[1..])
  {
  }

  lemma {:induction false} BitlutCountsLiterals(flags: seq<bool>)
    requires Control(flags) % 2 == 0
    ensures 1 <= BITLUT[Control(flags) % 16] <= Min(4, |flags|)
    ensures forall i | 0 <= i < BITLUT[Control(flags) % 16] :: !flags[i]
  {
    ControlEven(flags);
    BitlutZeros(Control(flags));
    var f1 := flags[1..];
    if Control(f1) % 2 == 0 {
      ControlEven(f1);
      assert !flags[1] && |flags| >= 2;
      var f2 := f1[1..];
      if Control(f2) % 2 == 0 {
        ControlEven(f2);
        assert !flags[2] && |flags| >= 3;
        var f3 := f2[1..];
        if Control(f3) % 2 == 0 {
          ControlEven(f3);
          assert !flags[3] && |flags| >= 4;
        }
      }
    }
  }

  lemma HashUptoTwice(table: map<nat, nat>, x: seq<byte>, lo: int, p: int, q: int)
    requires -1 <= lo && p <= q && (q <= lo || q + 3 <= |x|)
    ensures HashUpto(HashUpto(table, x, lo, p), x, Max(lo, p), q) == HashUpto(table, x, lo, q)
  {
    HashUptoSplit(table, x, lo, Max(lo, p), Max(lo, q));
  }

  /** The first n tokens are literals. */
  ghost predicate Literals(ts: seq<Token>, n: nat) {
    n == 0 || (ts != [] && ts[0].Literal? && Literals(ts[1..], n - 1))
  }

  ghost function LiteralBytes(ts: seq<Token>, n: nat): (b: seq<byte>)
    requires Literals(ts, n)
    ensures |b| == n <= |ts|
  {
    if n == 0 then [] else [ts[0].b] + LiteralBytes(ts[1..], n - 1)
  }

  lemma SliceCons<T>(a: seq<T>, i: nat, n: nat)
    requires n > 0 && i + n <= |a|
    ensures a[i..i + n] == [a[i]] + a[i + 1..i + 1 + (n - 1)]
  {
  }

  /** n literals in a row in the stream. */
  lemma {:induction false} ReadingRun(source: seq<byte>, ts: seq<Token>, slots: nat, src: nat, cword: nat, n: nat)
    requires Reading(source, ts, slots, src, cword) && n <= slots && Literals(ts, n)
    ensures n <= |ts|
    ensures Reading(source, ts[n..], slots - n, src + n, ShiftRight(cword, n))
    ensures src + n <= |source|
    ensures source[src..src + n] == LiteralBytes(ts, n)
    decreases n
  {
    hide ControlBytes;
    if n == 0 {
      assert ts[0..] == ts;
    } else {
      ReadingToken(source, ts, slots, src, cword);
      assert source[src..src + 1][0] == ts[0].b;
      ReadingRun(source, ts[1..], slots - 1, src + 1, cword / 2, n - 1);
      assert ts[1..][n - 1..] == ts[n..];
      SliceCons(source, src, n);
      assert slots - 1 - (n - 1) == slots - n && src + 1 + (n - 1) == src + n;
    }
  }

  /** n literals in a row on both sides. */
  lemma {:induction false} StepsSynced(x: seq<byte>, s: Enc, d: Dec, n: nat) returns (s': Enc, d': Dec)
    requires Synced(x, s, d) && s.pos + n + 3 <= |x|
    requires Literals(ParseFrom(x, s), n)
    ensures Synced(x, s', d') && s'.pos == s.pos + n && s'.lits == s.lits + n
    ensures n <= |ParseFrom(x, s)| && ParseFrom(x, s') == ParseFrom(x, s)[n..]
    ensures d'.table == HashUpto(d.table, x, d.lastHashed, s'.pos - 3)
    decreases n
  {
    hide ParseFrom, NextToken, Advance, HashAt, HashFunc;
    var ts := ParseFrom(x, s);
    if n == 0 {
      assert ts[0..] == ts;
      s', d' := s, d;
    } else {
      var s1, d1 := OneSynced(x, s, d);
      s', d' := StepsSynced(x, s1, d1, n - 1);
      assert ts[1..][n - 1..] == ts[n..];
      HashUptoTwice(d.table, x, d.lastHashed, s1.pos - 3, s'.pos - 3);
    }
  }

  lemma OneSynced(x: seq<byte>, s: Enc, d: Dec) returns (s': Enc, d': Dec)
    requires Synced(x, s, d) && s.pos + 4 <= |x|
    requires Literals(ParseFrom(x, s), 1)
    ensures Synced(x, s', d') && s'.pos == s.pos + 1 && s'.lits == s.lits + 1
    ensures ParseFrom(x, s) != [] && ParseFrom(x, s') == ParseFrom(x, s)[1..]
    ensures d'.lastHashed == Max(d.lastHashed, s'.pos - 3)
    ensures d'.table == HashUpto(d.table, x, d.lastHashed, s'.pos - 3)
  {
    ParseFromStep(x, s);
    DecodeLiteral(x, s, d);
    SyncLiteral(x, s, d);
    s', d' := Advance(x, s), DecodeToken(d, NextToken(x, s));
  }

  /** The same, for the decompressor's loop. */
  lemma StepsInStep(x: seq<byte>, s: Enc, d: Dec, n: nat) returns (s': Enc, d': Dec)
    requires InStep(x, s, d) && n > 0 && s.pos + n + 4 <= |x|
    requires Literals(ParseFrom(x, s), n)
    ensures ValidEnc(x, s') && InStep(x, s', d') && s'.pos == s.pos + n
    ensures n <= |ParseFrom(x, s)| && ParseFrom(x, s') == ParseFrom(x, s)[n..]
    ensures d'.lastHashed == Max(d.lastHashed, s'.pos - 3)
    ensures d'.table == HashUpto(d.table, x, d.lastHashed, s'.pos - 3)
  {
    s', d' := StepsSynced(x, s, d, n);
  }

  lemma {:induction false} LiteralBytesAre(x: seq<byte>, s: Enc, n: nat)
    requires ValidEnc(x, s) && s.pos + n <= |x|
    requires Literals(ParseFrom(x, s), n)
    ensures LiteralBytes(ParseFrom(x, s), n) == x[s.pos..s.pos + n]
    decreases n
  {
    hide ParseFrom, HashAt, HashFunc;
    if n > 0 {
      ParseFromStep(x, s);
      LiteralBytesAre(x, Advance(x, s), n - 1);
      SliceCons(x, s.pos, n);
    }
  }

  lemma {:induction false} LiteralsAhead(x: seq<byte>, s: Enc, n: nat)
    requires ValidEnc(x, s) && s.pos + n <= |x|
    requires forall i | 0 <= i < n && i < |ParseFrom(x, s)| :: ParseFrom(x, s)[i].Literal?
    ensures Literals(ParseFrom(x, s), n)
    decreases n
  {
    hide ParseFrom, HashAt, HashFunc;
    if n > 0 {
      var ts := ParseFrom(x, s);
      ParseFromStep(x, s);
      assert ts[0].Literal?;
      forall i | 0 <= i < n - 1 && i < |ts[1..]|
        ensures ts[1..][i].Literal?
      {
        assert ts[1..][i] == ts[i + 1];
      }
      LiteralsAhead(x, Advance(x, s), n - 1);
    }
  }

  method CopyFour(dest: array<byte>, dst: nat, source: seq<byte>, src: nat)
    requires dst + 4 <= dest.Length && src + 4 <= |source|
    modifies dest
    ensures dest[dst..dst + 4] == source[src..src + 4]
    ensures forall i | 0 <= i < dest.Length && !(dst <= i < dst + 4) :: dest[i] == old(dest[i])
  {
    dest[dst], dest[dst + 1], dest[dst + 2], dest[dst + 3] :=
      source[src], source[src + 1], source[src + 2], source[src + 3];
  }

  /** Up to four literals at once, while the end of the output is far enough away. */
  method LiteralTurn(source: seq<byte>, dest: array<byte>, state: DecompressState, src: nat, dst: nat, cword: nat,
                     lastHashed: int, ghost x: seq<byte>, ghost s: Enc, ghost d: Dec, ghost slots: nat)
    returns (src': nat, dst': nat, cword': nat, lastHashed': int, ghost s': Enc, ghost d': Dec, ghost n: nat)
    requires Decoding(x, dest[..], s, d, dst, lastHashed) && dst < |x| - 11
    requires Reading(source, ParseFrom(x, s), slots, src, cword) && slots > 0 && cword % 2 == 0
    requires src + 4 <= |source|
    requires state.Represents(d.table) && dest != state.offset as object
    modifies dest, state.offset
    ensures 1 <= n <= slots
    ensures ValidEnc(x, s') && Decoding(x, dest[..], s', d', dst', lastHashed')
    ensures Reading(source, ParseFrom(x, s'), slots - n, src', cword')
    ensures state.Represents(d'.table)
    ensures dst' > dst && dst' + 4 <= |x|
    ensures forall i | |x| <= i < dest.Length :: dest[i] == old(dest[i])
  {
    hide ParseFrom, NextToken, Advance, HashAt, HashFunc, HashUpto, Reading, Literals, LiteralBytes;
    var count := BITLUT[cword % 16];
    n := count;
    RunAhead(source, x, s, slots, src, cword, n);
    s', d' := StepsInStep(x, s, d, n);
    lastHashed' := CopyFourAndHash(source, dest, state, src, dst, count, lastHashed, x, d.table);
    cword' := ShiftRight(cword, count);
    dst' := dst + count;
    src' := src + count;
  }

  /** The table announces a run of literals: the next tokens are literals, their bytes lie at src, and the
      rest is read on behind them. */
  lemma RunAhead(source: seq<byte>, x: seq<byte>, s: Enc, slots: nat, src: nat, cword: nat, n: nat)
    requires ValidEnc(x, s) && s.pos + 11 < |x| && src + 4 <= |source|
    requires Reading(source, ParseFrom(x, s), slots, src, cword) && slots > 0 && cword % 2 == 0
    requires n == BITLUT[cword % 16]
    ensures 1 <= n <= 4 && n <= slots && Literals(ParseFrom(x, s), n) && n <= |ParseFrom(x, s)|
    ensures source[src..src + n] == x[s.pos..s.pos + n]
    ensures Reading(source, ParseFrom(x, s)[n..], slots - n, src + n, ShiftRight(cword, n))
  {
    hide ParseFrom, NextToken, Advance;
    var ts := ParseFrom(x, s);
    BitlutCountsLiterals(Flags(ts, slots));
    forall i | 0 <= i < n && i < |ts|
      ensures ts[i].Literal?
    {
      assert !Flags(ts, slots)[i];
    }
    LiteralsAhead(x, s, n);
    LiteralBytesAre(x, s, n);
    ReadingRun(source, ts, slots, src, cword, n);
  }

  /** Copies four bytes, count of which are literals, and enters the positions that leave the window. */
  method CopyFourAndHash(source: seq<byte>, dest: array<byte>, state: DecompressState, src: nat, dst: nat, count: nat,
                         lastHashed: int, ghost x: seq<byte>, ghost table: map<nat, nat>)
    returns (lastHashed': int)
    requires 1 <= count <= 4 && src + 4 <= |source| && dst + 11 < |x| <= dest.Length
    requires dest[..dst] == x[..dst] && source[src..src + count] == x[dst..dst + count]
    requires state.Represents(table) && dest != state.offset as object && -1 <= lastHashed
    modifies dest, state.offset
    ensures dest[..dst + count] == x[..dst + count]
    ensures lastHashed' == Max(lastHashed, dst + count - 3)
    ensures state.Represents(HashUpto(table, x, lastHashed, dst + count - 3))
    ensures forall i | |x| <= i < dest.Length :: dest[i] == old(dest[i])
  {
    CopyFour(dest, dst, source, src);
    AppendTaken(old(dest[..]), dest[..], x, source, dst, src, count);
    var end := dst + count;
    assert dest[..end] == dest[..][..end] == x[..end];
    if end >= 3 {
      HashUptoPrefix(table, dest[..], x, lastHashed, end - 3);
    }
    lastHashed' := state.UpdateHashUpto(dest, lastHashed, end - 3, table);
  }

  lemma AppendTaken(was: seq<byte>, now: seq<byte>, x: seq<byte>, source: seq<byte>, dst: nat, src: nat, n: nat)
    requires |was| == |now| && dst + 4 <= |now| && dst + n <= |x| && src + 4 <= |source| && n <= 4
    requires now[..dst] == was[..dst] == x[..dst]
    requires now[dst..dst + 4] == source[src..src + 4]
    requires source[src..src + n] == x[dst..dst + n]
    ensures now[..dst + n] == x[..dst + n]
  {
    assert now[dst..dst + n] == now[dst..dst + 4][..n] == source[src..src + 4][..n] == source[src..src + n];
    assert now[..dst + n] == now[..dst] + now[dst..dst + n];
    assert x[..dst + n] == x[..dst] + x[dst..dst + n];
  }

  // ----- the literal tail

  lemma {:induction false} TailIsLiteral(x: seq<byte>, s: Enc)
    requires ValidEnc(x, s) && s.pos >= |x| - 11
    requires s.pos < |x| ==> NextToken(x, s).Literal?
    ensures |ParseFrom(x, s)| == |x| - s.pos
    ensures Literals(ParseFrom(x, s), |x| - s.pos)
    ensures LiteralBytes(ParseFrom(x, s), |x| - s.pos) == x[s.pos..]
    decreases |x| - s.pos
  {
    if s.pos < |x| {
      ParseFromStep(x, s);
      TailIsLiteral(x, Advance(x, s));
      assert x[s.pos..] == [x[s.pos]] + x[s.pos + 1..];
    }
  }

  lemma {:induction false} ZeroFlags(ts: seq<Token>, k: nat)
    requires Literals(ts, |ts|)
    ensures Control(Flags(ts, k)) == Pow2(k)
    decreases k
  {
    if k > 0 {
      if ts == [] {
        assert Flags(ts, k)[1..] == Flags([], k - 1);
        ZeroFlags(ts, k - 1);
      } else {
        assert Flags(ts, k)[1..] == Flags(ts[1..], k - 1);
        ZeroFlags(ts[1..], k - 1);
      }
    }
  }

  /** Loads the next control word when the current one is used up. */
  method ReadControl(source: seq<byte>, src: nat, cword: nat, ghost ts: seq<Token>, ghost slots: nat)
    returns (src': nat, cword': nat, ghost slots': nat)
    requires Reading(source, ts, slots, src, cword) && ts != []
    ensures Reading(source, ts, slots', src', cword') && slots' > 0
    ensures if slots == 0 then src' == src + CWORD_LEN else src' == src
  {
    src', cword', slots' := src, cword, slots;
    ReadingEmptyWord(source, ts, slots, src, cword);
    if cword == 1 {
      ReadingReload(source, ts, src, cword);
      cword' := Value(WordAt(source, src));
      src' := src + CWORD_LEN;
      slots' := GROUP;
    }
  }

  /** In the tail a used-up control word is skipped, not read. */
  method SkipControl(source: seq<byte>, src: nat, cword: nat, ghost ts: seq<Token>, ghost slots: nat)
    returns (src': nat, cword': nat, ghost slots': nat)
    requires Reading(source, ts, slots, src, cword) && ts != [] && Literals(ts, |ts|)
    ensures Reading(source, ts, slots', src', cword') && slots' > 0
  {
    src', cword', slots' := src, cword, slots;
    ReadingEmptyWord(source, ts, slots, src, cword);
    if cword == 1 {
      ReadingReload(source, ts, src, cword);
      ZeroFlags(ts, GROUP);
      Pow2Of31();
      src' := src + CWORD_LEN;
      cword' := 0x8000_0000;
      slots' := GROUP;
    }
  }

  /** The rest of the output byte by byte. */
  method DecodeTail(source: seq<byte>, dest: array<byte>, size: nat, src0: nat, dst0: nat, cword0: nat,
                    ghost x: seq<byte>, ghost ts0: seq<Token>, ghost slots0: nat)
    requires size == |x| && dst0 <= |x| <= dest.Length && dest[..dst0] == x[..dst0]
    requires |ts0| == |x| - dst0 && Literals(ts0, |ts0|) && LiteralBytes(ts0, |ts0|) == x[dst0..]
    requires Reading(source, ts0, slots0, src0, cword0)
    modifies dest
    ensures dest[..|x|] == x
    ensures forall i | |x| <= i < dest.Length :: dest[i] == old(dest[i])
  {
    var src: nat, dst: nat, cword: nat := src0, dst0, cword0;
    ghost var ts, slots: nat := ts0, slots0;
    while dst < size
      invariant dst0 <= dst <= |x| && dest[..dst] == x[..dst]
      invariant |ts| == |x| - dst && Literals(ts, |ts|) && LiteralBytes(ts, |ts|) == x[dst..]
      invariant Reading(source, ts, slots, src, cword)
      invariant forall i | |x| <= i < dest.Length :: dest[i] == old(dest[i])
    {
      src, cword, slots := SkipControl(source, src, cword, ts, slots);
      TailByte(source, ts, slots, src, cword, x, dst);
      dest[dst] := source[src];
      assert dest[..dst + 1] == x[..dst + 1];
      dst := dst + 1;
      src := src + 1;
      cword := cword / 2;
      ts, slots := ts[1..], slots - 1;
    }
  }

  lemma TailByte(source: seq<byte>, ts: seq<Token>, slots: nat, src: nat, cword: nat, x: seq<byte>, dst: nat)
    requires Reading(source, ts, slots, src, cword) && slots > 0
    requires dst < |x| && |ts| == |x| - dst && Literals(ts, |ts|) && LiteralBytes(ts, |ts|) == x[dst..]
    ensures src < |source| && source[src] == x[dst]
    ensures Reading(source, ts[1..], slots - 1, src + 1, cword / 2)
    ensures Literals(ts[1..], |ts| - 1) && LiteralBytes(ts[1..], |ts| - 1) == x[dst + 1..]
  {
    TailLiterals(ts, x, dst);
    TailStream(source, ts, slots, src, cword);
  }

  lemma TailStream(source: seq<byte>, ts: seq<Token>, slots: nat, src: nat, cword: nat)
    requires Reading(source, ts, slots, src, cword) && slots > 0 && ts != [] && ts[0].Literal?
    ensures src < |source| && source[src] == ts[0].b
    ensures Reading(source, ts[1..], slots - 1, src + 1, cword / 2)
  {
    ReadingToken(source, ts, slots, src, cword);
    assert source[src..src + 1][0] == TokenBytes(ts[0])[0];
  }

  lemma TailLiterals(ts: seq<Token>, x: seq<byte>, dst: nat)
    requires dst < |x| && |ts| == |x| - dst && Literals(ts, |ts|) && LiteralBytes(ts, |ts|) == x[dst..]
    ensures ts[0].Literal? && ts[0].b == x[dst]
    ensures Literals(ts[1..], |ts| - 1) && LiteralBytes(ts[1..], |ts| - 1) == x[dst + 1..]
  {
    var b := LiteralBytes(ts[1..], |ts| - 1);
    assert x[dst..] == [ts[0].b] + b;
    assert x[dst + 1..] == x[dst..][1..] == b;
  }

  /** qlz_decompress_core, on the output of the compressor for x: whatever the destination and the
      bucket table held, the destination ends up holding x, and nothing beyond it is touched. */
  method DecompressCore(source: seq<byte>, header: nat, dest: array<byte>, size: nat, state: DecompressState,
                        ghost x: seq<byte>) returns (r: nat)
    requires size == |x| > 0 && size <= dest.Length
    requires AllEncodable(Parse(x)) && header + Max(9, |Layout(Parse(x))|) <= |source|
    requires source[header..header + |Layout(Parse(x))|] == Layout(Parse(x))
    requires state.offset.Length == HASH_VALUES && dest != state.offset as object
    modifies dest, state.offset
    ensures r == size && dest[..size] == x
    ensures forall i | size <= i < dest.Length :: dest[i] == old(dest[i])
  {
    hide NextToken, Advance, HashAt, HashFunc, HashUpto, ParseFrom, Parse, Layout, Flags, Control, Bytes32;
    var src: nat, dst: nat, cword: nat, lastHashed: int := header, 0, 1, -1;
    var lastMatchstart: int := size - 11;
    ghost var s, d, slots: nat := INITIAL_ENC, INITIAL_DEC, 0;
    StartDecoding(source, header, x, dest[..]);
    while true
      invariant ValidEnc(x, s) && Decoding(x, dest[..], s, d, dst, lastHashed)
      invariant Reading(source, ParseFrom(x, s), slots, src, cword)
      invariant state.Represents(d.table)
      invariant dst + 4 <= size || (dst == 0 && slots == 0 && src == header)
      invariant forall i | size <= i < dest.Length :: dest[i] == old(dest[i])
      decreases size - dst
    {
      ParseFromStep(x, s);
      src, cword, slots := ReadControl(source, src, cword, ParseFrom(x, s), slots);
      FetchInBounds(x, s, slots);
      var fetch := WordAt(source, src);
      if cword % 2 == 1 {
        src, dst, cword, lastHashed, s, d :=
          MatchTurn(source, dest, state, src, dst, cword, lastHashed, x, s, d, slots);
        slots := slots - 1;
      } else if dst < lastMatchstart {
        ghost var n;
        src, dst, cword, lastHashed, s, d, n :=
          LiteralTurn(source, dest, state, src, dst, cword, lastHashed, x, s, d, slots);
        slots := slots - n;
      } else {
        ReadingToken(source, ParseFrom(x, s), slots, src, cword);
        TailIsLiteral(x, s);
        DecodeTail(source, dest, size, src, dst, cword, x, ParseFrom(x, s), slots);
        var _ := state.UpdateHashUpto(dest, lastHashed, size - 4, d.table);
        return size;
      }
    }
  }

  lemma StartDecoding(source: seq<byte>, header: nat, x: seq<byte>, view: seq<byte>)
    requires AllEncodable(Parse(x)) && header + |Layout(Parse(x))| <= |source| && 0 < |x| <= |view|
    requires source[header..header + |Layout(Parse(x))|] == Layout(Parse(x))
    ensures Decoding(x, view, INITIAL_ENC, INITIAL_DEC, 0, -1)
    ensures Reading(source, ParseFrom(x, INITIAL_ENC), 0, header, 1)
  {
  }
}
