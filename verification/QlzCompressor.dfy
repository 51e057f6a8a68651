/** qlz_compress_core for level 1 without a streaming buffer, on x86-64: offsets are kept relative
    to the source and a three-byte read returns a four-byte word. */
module QlzCompressor {
  import opened Common
  import opened QlzTokens
  import opened QlzStream

  const HASH_VALUES := 4096
  const CWORD_LEN := 4
  const UNCOMPRESSED_END := 4

  /** qlz_state_compress: per bucket the last word hashed into it and its offset (0: none). */
  class CompressState {
    const cache: array<Word>
    const offset: array<nat>

    constructor ()
      ensures cache.Length == offset.Length == HASH_VALUES
      ensures fresh(cache) && fresh(offset)
    {
      cache := new Word[HASH_VALUES](_ => Word(0, 0, 0, 0));
      offset := new nat[HASH_VALUES](_ => 0);
    }

    /** Valid for an encoder state: the offsets are those of the table, position 0 counting as
        none, and an offset that is set comes with the word read there. */
    ghost predicate Represents(source: seq<byte>, table: map<nat, nat>)
      reads this, cache, offset
    {
      && cache.Length == offset.Length == HASH_VALUES
      && (forall h | h in table :: h < HASH_VALUES)
      && (forall h | 0 <= h < HASH_VALUES :: offset[h] == if h in table then table[h] else 0)
      && (forall h | 0 <= h < HASH_VALUES && offset[h] != 0 ::
            offset[h] + 4 <= |source| && cache[h] == WordAt(source, offset[h]))
    }

    /** reset_table_compress: the cached words stay. */
    method Reset(source: seq<byte>)
      requires cache.Length == offset.Length == HASH_VALUES
      modifies offset
      ensures Represents(source, map[])
    {
      for i := 0 to HASH_VALUES
        invariant forall h | 0 <= h < i :: offset[h] == 0
      {
        offset[i] := 0;
      }
    }

    method Enter(source: seq<byte>, src: nat, ghost table: map<nat, nat>)
      returns (hash: nat, cached: Word, o: nat)
      requires src + 4 <= |source|
      requires Represents(source, table)
      modifies cache, offset
      ensures hash == HashAt(source, src)
      ensures cached == old(cache[hash]) && o == old(offset[hash])
      ensures Represents(source, table[hash := src])
    {
      hide HashFunc, HashAt, Value;
      var fetch := WordAt(source, src);
      hash := HashFunc(Value(fetch));
      FetchHash(source, src, fetch);
      cached, o := cache[hash], offset[hash];
      cache[hash] := fetch;
      offset[hash] := src;
    }

    /** The literal tail still fills the table, though no match can follow. */
    method EnterTail(source: seq<byte>, src: nat)
      requires src + 4 <= |source| && cache.Length == offset.Length == HASH_VALUES
      modifies cache, offset
      ensures offset[HashAt(source, src)] == src && cache[HashAt(source, src)] == WordAt(source, src)
    {
      hide HashFunc, HashAt, Value;
      var fetch := WordAt(source, src);
      var hash := HashFunc(Value(fetch));
      FetchHash(source, src, fetch);
      offset[hash] := src;
      cache[hash] := fetch;
    }
  }

  // ----- writing

  /** fast_write with four bytes (also what x86 does for three). */
  method Write32(dest: array<byte>, at: nat, v: nat)
    requires at + 4 <= dest.Length && v < 0x1_0000_0000
    modifies dest
    ensures dest[at..at + 4] == Bytes32(v)
    ensures forall i | 0 <= i < dest.Length && !(at <= i < at + 4) :: dest[i] == old(dest[i])
  {
    dest[at] := v % 0x100;
    dest[at + 1] := (v / 0x100) % 0x100;
    dest[at + 2] := (v / 0x1_0000) % 0x100;
    dest[at + 3] := v / 0x100_0000;
  }

  method Write16(dest: array<byte>, at: nat, v: nat)
    requires at + 2 <= dest.Length && v < 0x1_0000
    modifies dest
    ensures dest[at] == v % 0x100 && dest[at + 1] == v / 0x100
    ensures forall i | 0 <= i < dest.Length && !(at <= i < at + 2) :: dest[i] == old(dest[i])
  {
    dest[at] := v % 0x100;
    dest[at + 1] := v / 0x100;
  }

  /** What the destination holds while a group fills: complete groups, room for the current
      control word, and the tokens of the current group. */
  ghost predicate Holds(view: seq<byte>, base: nat, done: seq<Token>, group: seq<Token>, cwordPtr: nat, dst: nat) {
    && AllEncodable(done) && AllEncodable(group)
    && |done| % GROUP == 0 && |group| <= GROUP
    && cwordPtr == base + |Layout(done)|
    && dst == cwordPtr + CWORD_LEN + |Body(group)|
    && dst <= |view|
    && view[base..cwordPtr] == Layout(done)
    && view[cwordPtr + CWORD_LEN..dst] == Body(group)
  }

  lemma HoldsToken(view: seq<byte>, view': seq<byte>, base: nat, done: seq<Token>, group: seq<Token>,
                   cwordPtr: nat, dst: nat, tok: Token)
    requires Holds(view, base, done, group, cwordPtr, dst) && |group| < GROUP && Encodable(tok)
    requires |view'| == |view| && dst + |TokenBytes(tok)| <= |view|
    requires view'[..dst] == view[..dst]
    requires view'[dst..dst + |TokenBytes(tok)|] == TokenBytes(tok)
    ensures Holds(view', base, done, group + [tok], cwordPtr, dst + |TokenBytes(tok)|)
  {
    hide TokenBytes, Body, Layout, Encodable;
    BodySnoc(group, tok);
    assert view'[base..cwordPtr] == view'[..dst][base..cwordPtr] == view[base..cwordPtr];
    var b := cwordPtr + CWORD_LEN;
    assert view'[b..dst] == view'[..dst][b..dst] == view[b..dst];
    assert view'[b..dst + |TokenBytes(tok)|] == view'[b..dst] + view'[dst..dst + |TokenBytes(tok)|];
  }

  /** Writing the control word of the current group completes its layout. */
  lemma HoldsWritten(view: seq<byte>, view': seq<byte>, base: nat, done: seq<Token>, group: seq<Token>,
                     cwordPtr: nat, dst: nat)
    requires Holds(view, base, done, group, cwordPtr, dst) && group != []
    requires |view'| == |view|
    requires view'[base..cwordPtr] == view[base..cwordPtr]
    requires view'[cwordPtr..cwordPtr + CWORD_LEN] == ControlBytes(group)
    requires view'[cwordPtr + CWORD_LEN..dst] == view[cwordPtr + CWORD_LEN..dst]
    ensures AllEncodable(done + group)
    ensures dst == base + |Layout(done + group)| && view'[base..dst] == Layout(done + group)
  {
    LayoutOfGroups(done, group);
    var b := cwordPtr + CWORD_LEN;
    assert view'[base..dst] == view'[base..cwordPtr] + (view'[cwordPtr..b] + view'[b..dst]);
  }

  lemma HoldsReload(view: seq<byte>, base: nat, done: seq<Token>, dst: nat)
    requires AllEncodable(done) && |done| % GROUP == 0
    requires dst == base + |Layout(done)| && dst + CWORD_LEN <= |view|
    requires view[base..dst] == Layout(done)
    ensures Holds(view, base, done, [], dst, dst + CWORD_LEN)
  {
  }

  ghost predicate Framed(dest: seq<byte>, was: seq<byte>, base: nat)
  {
    |dest| == |was| && base <= |dest| && dest[..base] == was[..base]
  }

  // ----- control words and tokens in place

  function FlagsOf(group: seq<Token>): seq<bool> {
    Flags(group, |group|)
  }

  /** The control word of a full group. */
  lemma GroupWord(cword: nat, group: seq<Token>)
    requires |group| == GROUP && Filling(cword, FlagsOf(group))
    ensures cword / 2 + 0x8000_0000 < 0x1_0000_0000
    ensures Bytes32(cword / 2 + 0x8000_0000) == ControlBytes(group)
  {
    FillingFull(cword, FlagsOf(group));
    assert FlagsOf(group) + seq(0, _ => false) == FlagsOf(group) == Flags(group, GROUP);
    FillingWritten(cword, FlagsOf(group), Flags(group, GROUP));
  }

  method StartGroup(dest: array<byte>, base: nat, cword: nat, cwordPtr: nat, dst: nat,
                    ghost done: seq<Token>, ghost group: seq<Token>)
    returns (cword': nat, cwordPtr': nat, dst': nat)
    requires Holds(dest[..], base, done, group, cwordPtr, dst)
    requires |group| == GROUP && Filling(cword, FlagsOf(group))
    requires dst + CWORD_LEN <= dest.Length
    modifies dest
    ensures Holds(dest[..], base, done + group, [], cwordPtr', dst') && dst' == dst + CWORD_LEN
    ensures Filling(cword', [])
    ensures Framed(dest[..], old(dest[..]), base)
  {
    hide Filling, Layout, Body, Bytes32, ControlBytes;
    GroupWord(cword, group);
    Write32(dest, cwordPtr, cword / 2 + 0x8000_0000);
    HoldsWritten(old(dest[..]), dest[..], base, done, group, cwordPtr, dst);
    HoldsReload(dest[..], base, done + group, dst);
    FillingStart();
    cword', cwordPtr', dst' := 0x8000_0000, dst, dst + CWORD_LEN;
  }

  method EmitMatch(dest: array<byte>, base: nat, cword: nat, cwordPtr: nat, dst: nat, hash: nat, matchlen: nat,
                   ghost done: seq<Token>, ghost group: seq<Token>)
    returns (cword': nat, dst': nat)
    requires Holds(dest[..], base, done, group, cwordPtr, dst)
    requires |group| < GROUP && Filling(cword, FlagsOf(group))
    requires dst + 4 <= dest.Length && Encodable(Match(hash, matchlen))
    modifies dest
    ensures Holds(dest[..], base, done, group + [Match(hash, matchlen)], cwordPtr, dst')
    ensures Filling(cword', FlagsOf(group + [Match(hash, matchlen)]))
    ensures Framed(dest[..], old(dest[..]), base)
  {
    hide Filling, Body, Layout, Bytes32, Pow2, FlagValue;
    ghost var tok := Match(hash, matchlen);
    FillingPush(cword, FlagsOf(group), true);
    assert FlagsOf(group + [tok]) == FlagsOf(group) + [true];
    cword' := cword / 2 + 0x8000_0000;
    if matchlen < 18 {
      Write16(dest, dst, matchlen - 2 + 16 * hash);
      dst' := dst + 2;
    } else {
      var v := matchlen * 0x1_0000 + 16 * hash;
      Write32(dest, dst, v);
      LongMatchBytes(hash, matchlen);
      assert dest[dst] == Bytes32(v)[0] && dest[dst + 1] == Bytes32(v)[1] && dest[dst + 2] == Bytes32(v)[2] by {
        assert dest[dst..dst + 4] == Bytes32(v);
      }
      dst' := dst + 3;
    }
    assert dest[..][dst..dst'] == TokenBytes(tok);
    assert dest[..][..dst] == old(dest[..])[..dst];
    HoldsToken(old(dest[..]), dest[..], base, done, group, cwordPtr, dst, tok);
  }

  lemma LongMatchBytes(hash: nat, matchlen: nat)
    requires hash < 4096 && 18 <= matchlen <= 255
    ensures Bytes32(matchlen * 0x1_0000 + 16 * hash)[..3] == TokenBytes(Match(hash, matchlen))
  {
    var v := matchlen * 0x1_0000 + 16 * hash;
    assert v / 0x100 == matchlen * 0x100 + (16 * hash) / 0x100;
    assert v / 0x1_0000 == matchlen;
  }

  method EmitLiteral(dest: array<byte>, base: nat, cword: nat, cwordPtr: nat, dst: nat, b: byte,
                     ghost done: seq<Token>, ghost group: seq<Token>)
    returns (cword': nat, dst': nat)
    requires Holds(dest[..], base, done, group, cwordPtr, dst)
    requires |group| < GROUP && Filling(cword, FlagsOf(group))
    requires dst < dest.Length
    modifies dest
    ensures Holds(dest[..], base, done, group + [Literal(b)], cwordPtr, dst')
    ensures Filling(cword', FlagsOf(group + [Literal(b)]))
    ensures Framed(dest[..], old(dest[..]), base)
  {
    FillingPush(cword, FlagsOf(group), false);
    assert FlagsOf(group + [Literal(b)]) == FlagsOf(group) + [false];
    dest[dst] := b;
    cword', dst' := cword / 2, dst + 1;
    assert dest[..][dst..dst'] == TokenBytes(Literal(b));
    assert dest[..][..dst] == old(dest[..])[..dst];
    HoldsToken(old(dest[..]), dest[..], base, done, group, cwordPtr, dst, Literal(b));
  }

  /** Shifts the sentinel down to bit 0. */
  method ShiftDown(cword: nat, ghost flags: seq<bool>) returns (c: nat)
    requires Filling(cword, flags)
    ensures c == 2 * FlagValue(flags) + 1
  {
    hide Pow2, FlagValue;
    c := cword;
    ghost var e := GROUP - |flags|;
    ghost var f := 2 * FlagValue(flags) + 1;
    ShiftEnd(c, e, f);
    while c % 2 != 1
      invariant e >= 0 && c == Pow2(e) * f
      invariant c % 2 == 1 <==> e == 0
      invariant e == 0 ==> c == f
      decreases e
    {
      Pow2Positive(e);
      HalfOf(Pow2(e - 1), f);
      c, e := c / 2, e - 1;
      ShiftEnd(c, e, f);
    }
  }

  lemma Pow2Positive(e: nat)
    requires e > 0
    ensures Pow2(e) == 2 * Pow2(e - 1)
  {
  }

  lemma ShiftEnd(c: nat, e: nat, f: nat)
    requires c == Pow2(e) * f && f % 2 == 1
    ensures c % 2 == 1 <==> e == 0
    ensures e == 0 ==> c == f
  {
    if e > 0 {
      assert c == 2 * (Pow2(e - 1) * f);
    }
  }

  /** The last control word: the unused flags are zero. */
  method FinishGroup(dest: array<byte>, base: nat, cword: nat, cwordPtr: nat, dst: nat,
                     ghost done: seq<Token>, ghost group: seq<Token>)
    requires Holds(dest[..], base, done, group, cwordPtr, dst)
    requires group != [] && Filling(cword, FlagsOf(group))
    modifies dest
    ensures AllEncodable(done + group)
    ensures dst == base + |Layout(done + group)| && dest[..][base..dst] == Layout(done + group)
    ensures Framed(dest[..], old(dest[..]), base)
  {
    var c := ShiftDown(cword, FlagsOf(group));
    assert Flags(group, GROUP) == FlagsOf(group) + seq(GROUP - |group|, _ => false);
    FillingWritten(c, FlagsOf(group), Flags(group, GROUP));
    Write32(dest, cwordPtr, c / 2 + 0x8000_0000);
    HoldsWritten(old(dest[..]), dest[..], base, done, group, cwordPtr, dst);
  }

  // ----- finding a match

  /** same: the n bytes after p all equal the one at p. */
  method Same(source: seq<byte>, p: nat, n: nat) returns (b: bool)
    requires p + n < |source|
    ensures b <==> forall i | p <= i <= p + n :: source[i] == source[p]
  {
    var k := n;
    while k > 0 && source[p + k] == source[p]
      invariant 0 <= k <= n
      invariant forall i | p + k < i <= p + n :: source[i] == source[p]
    {
      k := k - 1;
    }
    return k == 0;
  }

  /** The unrolled comparison: three bytes are known to agree. */
  method MatchLength(source: seq<byte>, o: nat, src: nat, fourthDiffers: bool) returns (matchlen: nat)
    requires o < src && InMainLoop(source, src) && Agree(source, o, src, 3)
    requires fourthDiffers <==> source[o + 3] != source[src + 3]
    ensures matchlen == Extend(source, o, src, 3)
  {
    hide Agree, Extend;
    if fourthDiffers {
      ExtendIs(source, o, src, 3, 3);
      return 3;
    }
    var p := src + 4;
    AgreeOneMore(source, o, src, 3);
    if source[o + (p - src)] == source[p] {
      AgreeOneMore(source, o, src, 4);
      p := p + 1;
      if source[o + (p - src)] == source[p] {
        AgreeOneMore(source, o, src, 5);
        p := LongMatch(source, o, src);
      }
    }
    matchlen := p - src;
    ExtendIs(source, o, src, 3, matchlen);
  }

  /** The loop, from the seventh byte on. */
  method LongMatch(source: seq<byte>, o: nat, src: nat) returns (p: nat)
    requires o < src && InMainLoop(source, src) && Agree(source, o, src, 6)
    ensures src + 6 <= p <= src + MatchLimit(source, src) && Agree(source, o, src, p - src)
    ensures p - src == MatchLimit(source, src) || source[o + (p - src)] != source[p]
  {
    hide Agree;
    p := src + 5;
    var q := |source| - 1 - UNCOMPRESSED_END - (p - 5) + 1;
    var remaining := if q > 255 then 255 else q;
    p := p + 1;
    assert remaining == MatchLimit(source, src);
    while source[o + (p - src)] == source[p] && p - src < remaining
      invariant src + 6 <= p <= src + remaining
      invariant Agree(source, o, src, p - src)
    {
      AgreeOneMore(source, o, src, p - src);
      p := p + 1;
    }
  }

  lemma AgreeOneMore(x: seq<byte>, o: nat, t: nat, n: nat)
    requires o <= t && t + n < |x| && Agree(x, o, t, n) && x[o + n] == x[t + n]
    ensures Agree(x, o, t, n + 1)
  {
  }

  /** The longest agreement is the only one that cannot be extended. */
  lemma ExtendIs(x: seq<byte>, o: nat, t: nat, n: nat, m: nat)
    requires o < t && InMainLoop(x, t) && n <= m <= MatchLimit(x, t) && Agree(x, o, t, m)
    requires m == MatchLimit(x, t) || x[o + m] != x[t + m]
    ensures Agree(x, o, t, n) && Extend(x, o, t, n) == m
    decreases m - n
  {
    if n < m {
      assert x[t + n] == x[t + n - (t - o)];
      ExtendIs(x, o, t, n + 1, m);
    }
  }

  // ----- the compression core

  ghost predicate Abandoned(x: seq<byte>) {
    AllEncodable(Parse(x)) && exists n | 0 <= n <= |Parse(x)| :: TooLongAt(Parse(x), |x|, n)
  }

  /** The part of the loop state that the parse P determines: n tokens are out, in complete groups
      and a current one, and every earlier reload passed its test. */
  ghost predicate Progress(P: seq<Token>, size: nat, n: nat, done: seq<Token>, group: seq<Token>) {
    && n <= |P| && AllEncodable(P)
    && Covered(P[..n]) <= size
    && P[..n] == done + group
    && |done| % GROUP == 0 && |group| <= GROUP
    && forall m | 0 <= m <= |done| :: !TooLongAt(P, size, m)
  }

  lemma ProgressTested(P: seq<Token>, size: nat, n: nat, done: seq<Token>, group: seq<Token>)
    requires Progress(P, size, n, done, group)
    requires |group| < GROUP || !TooLongAt(P, size, n)
    ensures forall m | 0 <= m <= n :: !TooLongAt(P, size, m)
  {
    assert n == |done| + |group|;
    forall m | 0 <= m <= n
      ensures !TooLongAt(P, size, m)
    {
      if |done| < m < n || (m == n && |group| < GROUP && group != []) {
        assert m % GROUP != 0;
      }
    }
  }

  lemma ProgressRoom(P: seq<Token>, size: nat, n: nat, done: seq<Token>, group: seq<Token>, view: seq<byte>,
                     base: nat, cwordPtr: nat, dst: nat)
    requires Progress(P, size, n, done, group)
    requires Holds(view, base, done, group, cwordPtr, dst)
    ensures |group| < GROUP ==> dst - base == Room(P, n) <= size + 300
    ensures |group| == GROUP ==> n % GROUP == 0 && dst - base == |Body(P[..n])| + 4 * (n / GROUP)
    ensures |group| == GROUP && !TooLongAt(P, size, n) ==> dst - base + 4 <= size + 300
  {
    hide TooLongAt, Covered;
    BodyAppend(done, group);
    LayoutLength(done, 0);
    assert n == |done| + |group|;
    assert |done| / GROUP * GROUP == |done|;
    if |group| < GROUP || !TooLongAt(P, size, n) {
      ProgressTested(P, size, n, done, group);
      RoomBound(P, size, n);
    }
  }

  lemma ProgressToken(P: seq<Token>, size: nat, n: nat, done: seq<Token>, group: seq<Token>)
    requires Progress(P, size, n, done, group) && |group| < GROUP && n < |P|
    requires Covered(P[..n + 1]) <= size
    ensures Progress(P, size, n + 1, done, group + [P[n]])
  {
    assert P[..n + 1] == P[..n] + [P[n]];
    assert done + (group + [P[n]]) == done + group + [P[n]];
  }

  lemma ProgressReload(P: seq<Token>, size: nat, n: nat, done: seq<Token>, group: seq<Token>)
    requires Progress(P, size, n, done, group) && |group| == GROUP
    requires !TooLongAt(P, size, n)
    ensures Progress(P, size, n, done + group, [])
  {
    assert done + group + [] == done + group;
    ProgressTested(P, size, n, done, group);
  }

  /** The match test of the main loop, on what the bucket held. */
  method Finds(source: seq<byte>, src: nat, lits: nat, hash: nat, cached: Word, o: nat, ghost s: Enc)
    returns (found: bool)
    requires ValidEnc(source, s) && src == s.pos && lits == s.lits && InMainLoop(source, src)
    requires hash == HashAt(source, src)
    requires o == if hash in s.table then s.table[hash] else 0
    requires o != 0 ==> o + 4 <= |source| && cached == WordAt(source, o)
    ensures found <==> FindsMatch(source, s)
  {
    if cached.b0 != source[src] || cached.b1 != source[src + 1] || cached.b2 != source[src + 2] || o == 0 {
      if o != 0 && FindsMatch(source, s) {
        AgreeThree(source, o, src);
      }
      return false;
    }
    AgreeThree(source, o, src);
    if src - o > 2 {
      return true;
    }
    if src == o + 1 && lits >= 3 && src > 3 {
      found := Same(source, src - 3, 6);
    } else {
      found := false;
    }
  }

  lemma AgreeThree(x: seq<byte>, o: nat, t: nat)
    requires o <= t && t + 3 <= |x|
    ensures Agree(x, o, t, 3) <==> x[o] == x[t] && x[o + 1] == x[t + 1] && x[o + 2] == x[t + 2]
  {
    if Agree(x, o, t, 3) {
      assert x[t] == x[t - (t - o)] && x[t + 1] == x[t + 1 - (t - o)] && x[t + 2] == x[t + 2 - (t - o)];
    }
  }

  /** One turn of the main loop after the control word has been seen to. */
  method EncodeToken(source: seq<byte>, dest: array<byte>, base: nat, state: CompressState,
                     src: nat, lits: nat, cword: nat, cwordPtr: nat, dst: nat,
                     ghost s: Enc, ghost done: seq<Token>, ghost group: seq<Token>)
    returns (src': nat, lits': nat, cword': nat, dst': nat)
    requires ValidEnc(source, s) && InMainLoop(source, s.pos) && src == s.pos && lits == s.lits
    requires state.Represents(source, s.table)
    requires dest != state.cache as object && dest != state.offset as object
    requires Holds(dest[..], base, done, group, cwordPtr, dst) && dst + 4 <= dest.Length
    requires |group| < GROUP && Filling(cword, FlagsOf(group))
    modifies dest, state.cache, state.offset
    ensures src' == Advance(source, s).pos && lits' == Advance(source, s).lits
    ensures state.Represents(source, Advance(source, s).table)
    ensures Holds(dest[..], base, done, group + [NextToken(source, s)], cwordPtr, dst')
    ensures Filling(cword', FlagsOf(group + [NextToken(source, s)]))
    ensures Framed(dest[..], old(dest[..]), base)
  {
    hide HashAt, HashFunc, FlagValue, Pow2, Body, Layout, Holds, Filling, Flags, Bytes32, Agree;
    var hash, cached, o := state.Enter(source, src, s.table);
    var found := Finds(source, src, lits, hash, cached, o, s);
    if found {
      var matchlen := MatchLength(source, o, src, cached.b3 != source[src + 3]);
      assert NextToken(source, s) == Match(hash, matchlen);
      cword', dst' := EmitMatch(dest, base, cword, cwordPtr, dst, hash, matchlen, done, group);
      src', lits' := src + matchlen, 0;
    } else {
      assert NextToken(source, s) == Literal(source[src]);
      cword', dst' := EmitLiteral(dest, base, cword, cwordPtr, dst, source[src], done, group);
      src', lits' := src + 1, lits + 1;
    }
  }

  /** The loop invariant shared by the main loop and the literal tail. */
  ghost predicate Running(source: seq<byte>, view: seq<byte>, was: seq<byte>, base: nat, s: Enc, n: nat,
                          done: seq<Token>, group: seq<Token>, src: nat, cword: nat, cwordPtr: nat, dst: nat) {
    && Progress(Parse(source), |source|, n, done, group)
    && AtToken(source, n, s) && src == s.pos
    && Holds(view, base, done, group, cwordPtr, dst)
    && Filling(cword, FlagsOf(group))
    && Framed(view, was, base)
  }

  lemma RunningToken(source: seq<byte>, view: seq<byte>, view': seq<byte>, was: seq<byte>, base: nat, s: Enc, n: nat,
                     done: seq<Token>, group: seq<Token>, src: nat, src': nat, cword: nat, cword': nat,
                     cwordPtr: nat, dst: nat, dst': nat)
    requires Running(source, view, was, base, s, n, done, group, src, cword, cwordPtr, dst)
    requires src < |source| && |group| < GROUP
    requires Holds(view', base, done, group + [NextToken(source, s)], cwordPtr, dst')
    requires Filling(cword', FlagsOf(group + [NextToken(source, s)]))
    requires src' == Advance(source, s).pos
    requires Framed(view', view, base)
    ensures Running(source, view', was, base, Advance(source, s), n + 1, done, group + [NextToken(source, s)],
                    src', cword', cwordPtr, dst')
  {
    AtNextToken(source, n, s);
    ProgressToken(Parse(source), |source|, n, done, group);
  }

  /** The reload of the control word; gives up when the test fails. */
  method Reload(source: seq<byte>, dest: array<byte>, base: nat, inMain: bool, src: nat, cword: nat, cwordPtr: nat,
                dst: nat, ghost was: seq<byte>, ghost s: Enc, ghost n: nat,
                ghost done: seq<Token>, ghost group: seq<Token>)
    returns (ok: bool, cword': nat, cwordPtr': nat, dst': nat, ghost done': seq<Token>, ghost group': seq<Token>)
    requires Running(source, dest[..], was, base, s, n, done, group, src, cword, cwordPtr, dst)
    requires inMain == InMainLoop(source, src) && base <= 9 && dest.Length >= |source| + 400
    modifies dest
    ensures !ok ==>
              inMain && n <= |Parse(source)| && AllEncodable(Parse(source)) && TooLongAt(Parse(source), |source|, n)
    ensures ok ==> Running(source, dest[..], was, base, s, n, done', group', src, cword', cwordPtr', dst')
    ensures ok ==> |group'| < GROUP && dst' + 4 <= dest.Length
    ensures Framed(dest[..], old(dest[..]), base)
  {
    ok, cword', cwordPtr', dst', done', group' := true, cword, cwordPtr, dst, done, group;
    FillingFull(cword, FlagsOf(group));
    ParseStep(source, n);
    ProgressRoom(Parse(source), |source|, n, done, group, dest[..], base, cwordPtr, dst);
    if cword % 2 == 1 {
      if inMain && src > |source| / 2 && dst - base > src - src / 32 {
        ok := false;
        return;
      }
      assert !TooLongAt(Parse(source), |source|, n);
      cword', cwordPtr', dst' := StartGroup(dest, base, cword, cwordPtr, dst, done, group);
      ProgressReload(Parse(source), |source|, n, done, group);
      done', group' := done + group, [];
      ProgressRoom(Parse(source), |source|, n, done', group', dest[..], base, cwordPtr', dst');
    }
  }

  /** A turn of the main loop: the control word, then a token. */
  method MainTurn(source: seq<byte>, dest: array<byte>, base: nat, state: CompressState,
                  src: nat, lits: nat, cword: nat, cwordPtr: nat, dst: nat, ghost was: seq<byte>,
                  ghost s: Enc, ghost n: nat, ghost done: seq<Token>, ghost group: seq<Token>)
    returns (ok: bool, src': nat, lits': nat, cword': nat, cwordPtr': nat, dst': nat,
             ghost s': Enc, ghost done': seq<Token>, ghost group': seq<Token>)
    requires base <= 9 && dest.Length >= |source| + 400
    requires Running(source, dest[..], was, base, s, n, done, group, src, cword, cwordPtr, dst)
    requires InMainLoop(source, src) && lits == s.lits && state.Represents(source, s.table)
    requires dest != state.cache as object && dest != state.offset as object
    modifies dest, state.cache, state.offset
    ensures !ok ==> n <= |Parse(source)| && AllEncodable(Parse(source)) && TooLongAt(Parse(source), |source|, n)
    ensures ok ==> Running(source, dest[..], was, base, s', n + 1, done', group', src', cword', cwordPtr', dst')
    ensures ok ==> src' > src && group' != [] && lits' == s'.lits && state.Represents(source, s'.table)
    ensures Framed(dest[..], old(dest[..]), base)
  {
    src', lits', s' := src, lits, s;
    ok, cword', cwordPtr', dst', done', group' :=
      Reload(source, dest, base, true, src, cword, cwordPtr, dst, was, s, n, done, group);
    if !ok {
      return;
    }
    ghost var view, cword0, dst0 := dest[..], cword', dst';
    src', lits', cword', dst' :=
      EncodeToken(source, dest, base, state, src, lits, cword', cwordPtr', dst', s, done', group');
    RunningToken(source, view, dest[..], was, base, s, n, done', group', src, src', cword0, cword',
                 cwordPtr', dst0, dst');
    s', group' := Advance(source, s), group' + [NextToken(source, s)];
  }

  /** The main loop. */
  method CompressMain(source: seq<byte>, dest: array<byte>, base: nat, state: CompressState)
    returns (ok: bool, src: nat, cword: nat, cwordPtr: nat, dst: nat,
             ghost s: Enc, ghost n: nat, ghost done: seq<Token>, ghost group: seq<Token>)
    requires 0 < |source| && base <= 9 && dest.Length >= |source| + 400
    requires state.Represents(source, map[])
    requires dest != state.cache as object && dest != state.offset as object
    modifies dest, state.cache, state.offset
    ensures !ok ==> n <= |Parse(source)| && AllEncodable(Parse(source)) && TooLongAt(Parse(source), |source|, n)
    ensures ok ==> Running(source, dest[..], old(dest[..]), base, s, n, done, group, src, cword, cwordPtr, dst)
    ensures ok ==> !InMainLoop(source, src) && (group == [] ==> done == [])
    ensures ok ==> state.cache.Length == state.offset.Length == HASH_VALUES
    ensures Framed(dest[..], old(dest[..]), base)
  {
    hide Parse, EncAfter, NextToken, Advance, Body, Covered, FlagValue;
    var lastMatchstart := |source| - 11;
    var lits := 0;
    src, cwordPtr, dst, cword := 0, base, base + CWORD_LEN, 0x8000_0000;
    s, n, done, group := INITIAL_ENC, 0, [], [];
    ok := true;
    RunningStart(source, dest[..], base);
    while src <= lastMatchstart
      invariant ok && lits >= 0 && (group == [] ==> done == [])
      invariant Running(source, dest[..], old(dest[..]), base, s, n, done, group, src, cword, cwordPtr, dst)
      invariant lits == s.lits && state.Represents(source, s.table)
      decreases |source| - src
    {
      ok, src, lits, cword, cwordPtr, dst, s, done, group :=
        MainTurn(source, dest, base, state, src, lits, cword, cwordPtr, dst, old(dest[..]), s, n, done, group);
      if !ok {
        return;
      }
      n := n + 1;
    }
  }

  lemma RunningStart(source: seq<byte>, view: seq<byte>, base: nat)
    requires |source| > 0 && base + CWORD_LEN <= |view|
    ensures Running(source, view, view, base, INITIAL_ENC, 0, [], [], 0, 0x8000_0000, base, base + CWORD_LEN)
  {
    ParseStep(source, 0);
    FillingStart();
    assert !TooLongAt(Parse(source), |source|, 0);
    assert Parse(source)[..0] == [] + [];
  }

  /** A turn of the literal tail. */
  method TailTurn(source: seq<byte>, dest: array<byte>, base: nat, state: CompressState,
                  src: nat, cword: nat, cwordPtr: nat, dst: nat, ghost was: seq<byte>,
                  ghost s: Enc, ghost n: nat, ghost done: seq<Token>, ghost group: seq<Token>)
    returns (cword': nat, cwordPtr': nat, dst': nat, ghost s': Enc, ghost done': seq<Token>, ghost group': seq<Token>)
    requires base <= 9 && dest.Length >= |source| + 400
    requires Running(source, dest[..], was, base, s, n, done, group, src, cword, cwordPtr, dst)
    requires src < |source| && !InMainLoop(source, src)
    requires state.cache.Length == state.offset.Length == HASH_VALUES
    requires dest != state.cache as object && dest != state.offset as object
    modifies dest, state.cache, state.offset
    ensures Running(source, dest[..], was, base, s', n + 1, done', group', src + 1, cword', cwordPtr', dst')
    ensures group' != []
    ensures Framed(dest[..], old(dest[..]), base)
  {
    var ok;
    ok, cword', cwordPtr', dst', done', group' :=
      Reload(source, dest, base, false, src, cword, cwordPtr, dst, was, s, n, done, group);
    assert ok;
    if src <= |source| - 4 {
      state.EnterTail(source, src);
    }
    ghost var view, cword0, dst0 := dest[..], cword', dst';
    cword', dst' := EmitLiteral(dest, base, cword', cwordPtr', dst', source[src], done', group');
    RunningToken(source, view, dest[..], was, base, s, n, done', group', src, src + 1, cword0, cword',
                 cwordPtr', dst0, dst');
    s', group' := Advance(source, s), group' + [NextToken(source, s)];
  }

  /** The bytes after the last possible match start are literals. */
  method CompressTail(source: seq<byte>, dest: array<byte>, base: nat, state: CompressState,
                      src0: nat, cword0: nat, cwordPtr0: nat, dst0: nat,
                      ghost s0: Enc, ghost n0: nat, ghost done0: seq<Token>, ghost group0: seq<Token>)
    returns (dst: nat)
    requires 0 < |source| && base <= 9 && dest.Length >= |source| + 400
    requires Running(source, dest[..], dest[..], base, s0, n0, done0, group0, src0, cword0, cwordPtr0, dst0)
    requires !InMainLoop(source, src0) && (group0 == [] ==> done0 == [])
    requires state.cache.Length == state.offset.Length == HASH_VALUES
    requires dest != state.cache as object && dest != state.offset as object
    modifies dest, state.cache, state.offset
    ensures AllEncodable(Parse(source)) && !Abandoned(source)
    ensures dst == base + |Layout(Parse(source))| <= dest.Length
    ensures dest[..][base..dst] == Layout(Parse(source))
    ensures Framed(dest[..], old(dest[..]), base)
  {
    hide Parse, EncAfter, NextToken, Advance, Body, Covered, FlagValue, TooLongAt;
    var src, cword, cwordPtr := src0, cword0, cwordPtr0;
    dst := dst0;
    ghost var s, n, done, group := s0, n0, done0, group0;
    while src < |source|
      invariant Running(source, dest[..], old(dest[..]), base, s, n, done, group, src, cword, cwordPtr, dst)
      invariant !InMainLoop(source, src) && (group == [] ==> done == [])
    {
      cword, cwordPtr, dst, s, done, group :=
        TailTurn(source, dest, base, state, src, cword, cwordPtr, dst, old(dest[..]), s, n, done, group);
      src, n := src + 1, n + 1;
    }
    RunningDone(source, dest[..], old(dest[..]), base, s, n, done, group, src, cword, cwordPtr, dst);
    FinishGroup(dest, base, cword, cwordPtr, dst, done, group);
  }

  lemma RunningDone(source: seq<byte>, view: seq<byte>, was: seq<byte>, base: nat, s: Enc, n: nat,
                    done: seq<Token>, group: seq<Token>, src: nat, cword: nat, cwordPtr: nat, dst: nat)
    requires Running(source, view, was, base, s, n, done, group, src, cword, cwordPtr, dst)
    requires src == |source| > 0 && (group == [] ==> done == [])
    ensures done + group == Parse(source) && !Abandoned(source) && group != []
  {
    var P := Parse(source);
    ParseStep(source, n);
    assert P[..n] == P;
    assert !TooLongAt(P, |source|, n);
    ProgressTested(P, |source|, n, done, group);
  }

  /** qlz_compress_core.  Returns 0 exactly when the half-way test gives up; otherwise writes the
      layout of the parse and returns its length, at least 9.  All writes stay within the
      destination of size + 400 bytes. */
  method CompressCore(source: seq<byte>, dest: array<byte>, base: nat, state: CompressState) returns (r: nat)
    requires 0 < |source| && base <= 9 && dest.Length >= |source| + 400
    requires state.Represents(source, map[])
    requires dest != state.cache as object && dest != state.offset as object
    modifies dest, state.cache, state.offset
    ensures AllEncodable(Parse(source))
    ensures r == 0 <==> Abandoned(source)
    ensures r != 0 ==> r == Max(9, |Layout(Parse(source))|) && base + |Layout(Parse(source))| <= dest.Length
    ensures r != 0 ==> dest[..][base..base + |Layout(Parse(source))|] == Layout(Parse(source))
    ensures Framed(dest[..], old(dest[..]), base)
  {
    ghost var was := dest[..];
    var ok, src, cword, cwordPtr, dst;
    ghost var s, n, done, group;
    ok, src, cword, cwordPtr, dst, s, n, done, group := CompressMain(source, dest, base, state);
    if !ok {
      return 0;
    }
    dst := CompressTail(source, dest, base, state, src, cword, cwordPtr, dst, s, n, done, group);
    return if dst - base < 9 then 9 else dst - base;
  }
}
