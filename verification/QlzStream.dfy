/** QuickLZ level 1, the byte layer (mmlib/quicklz/quicklz.c): control words, the two- and
    three-byte match forms, and how many bytes a parse needs. */
module QlzStream {
  import opened Common
  import opened QlzTokens

  /** Tokens governed by one control word. */
  const GROUP := 31

  // ----- control words

  /** A control word as the decompressor sees it: the flags still to be used, lowest bit first,
      under a sentinel bit. */
  function Control(flags: seq<bool>): (v: nat)
    ensures v >= 1
    ensures flags != [] ==> v >= 2
  {
    if flags == [] then 1 else (if flags[0] then 1 else 0) + 2 * Control(flags[1..])
  }

  /** Bit k of a control word is the k-th flag, and the highest bit that is set is the sentinel. */
  lemma {:induction false} ControlBits(flags: seq<bool>, k: nat)
    ensures BitOf(Control(flags), k) ==
            if k < |flags| then (if flags[k] then 1 else 0) else if k == |flags| then 1 else 0
    decreases k
  {
    if k > 0 {
      if flags == [] {
        ZeroBits(k - 1);
      } else {
        assert Control(flags) / 2 == Control(flags[1..]);
        ControlBits(flags[1..], k - 1);
      }
    }
  }

  lemma {:induction false} ZeroBits(k: nat)
    ensures BitOf(0, k) == 0
    decreases k
  {
    if k > 0 {
      ZeroBits(k - 1);
    }
  }

  lemma {:induction false} ControlRange(flags: seq<bool>)
    ensures Pow2(|flags|) <= Control(flags) < 2 * Pow2(|flags|)
  {
    if flags != [] {
      ControlRange(flags[1..]);
    }
  }

  lemma ControlFits(flags: seq<bool>)
    requires |flags| == GROUP
    ensures Control(flags) < 0x1_0000_0000
  {
    ControlRange(flags);
    Pow2Of31();
  }

  lemma Pow2Of31()
    ensures Pow2(31) == 0x8000_0000
  {
    assert Pow2(8) == 0x100;
    assert Pow2(16) == 0x1_0000;
    assert Pow2(24) == 0x100_0000;
  }

  /** The flags alone, without the sentinel. */
  function FlagValue(flags: seq<bool>): nat {
    if flags == [] then 0 else (if flags[0] then 1 else 0) + 2 * FlagValue(flags[1..])
  }

  lemma {:induction false} ControlIsFlagValue(flags: seq<bool>)
    ensures Control(flags) == FlagValue(flags) + Pow2(|flags|)
  {
    if flags != [] {
      ControlIsFlagValue(flags[1..]);
    }
  }

  lemma {:induction false} FlagValueSnoc(flags: seq<bool>, b: bool)
    ensures FlagValue(flags + [b]) == FlagValue(flags) + if b then Pow2(|flags|) else 0
  {
    if flags == [] {
      assert flags + [b] == [b];
      assert [b][1..] == [];
      assert FlagValue([b][1..]) == 0;
    } else {
      assert (flags + [b])[1..] == flags[1..] + [b];
      FlagValueSnoc(flags[1..], b);
    }
  }

  lemma {:induction false} FlagValuePadded(flags: seq<bool>, n: nat)
    ensures FlagValue(flags + seq(n, _ => false)) == FlagValue(flags)
  {
    if n == 0 {
      assert flags + seq(0, _ => false) == flags;
    } else {
      FlagValuePadded(flags, n - 1);
      FlagValueSnoc(flags + seq(n - 1, _ => false), false);
      assert flags + seq(n, _ => false) == flags + seq(n - 1, _ => false) + [false];
    }
  }

  lemma {:induction false} Pow2Add(a: nat, b: nat)
    ensures Pow2(a + b) == Pow2(a) * Pow2(b)
  {
    if a > 0 {
      Pow2Add(a - 1, b);
    }
  }

  /** The compressor's control word while a group fills: the flags seen so far enter at bit 31 and
      move down, and a sentinel moves down below them. */
  predicate Filling(cword: nat, flags: seq<bool>) {
    |flags| <= GROUP && cword == Pow2(GROUP - |flags|) * (2 * FlagValue(flags) + 1)
  }

  lemma FillingStart()
    ensures Filling(0x8000_0000, [])
  {
    Pow2Of31();
  }

  /** The sentinel reaches bit 0 exactly when the group is full. */
  lemma FillingFull(cword: nat, flags: seq<bool>)
    requires Filling(cword, flags)
    ensures cword % 2 == 1 <==> |flags| == GROUP
  {
    hide FlagValue;
    if |flags| < GROUP {
      var k := Pow2(GROUP - |flags| - 1) * (2 * FlagValue(flags) + 1);
      assert cword == 2 * k;
    } else {
      assert cword == 2 * FlagValue(flags) + 1;
    }
  }

  lemma FillingPush(cword: nat, flags: seq<bool>, b: bool)
    requires Filling(cword, flags) && |flags| < GROUP
    ensures Filling(cword / 2 + (if b then 0x8000_0000 else 0), flags + [b])
  {
    var k, f := |flags|, FlagValue(flags);
    var p := Pow2(GROUP - k - 1);
    assert Pow2(GROUP - k) == 2 * p;
    HalfOf(p, 2 * f + 1);
    assert cword / 2 == p * (2 * f + 1);
    FlagValueSnoc(flags, b);
    if b {
      Distribute(p, f, Pow2(k));
      Pow2Add(GROUP - k - 1, k + 1);
      assert Pow2(k + 1) == 2 * Pow2(k);
      assert GROUP - k - 1 + (k + 1) == 31;
      Pow2Of31();
    }
  }

  lemma HalfOf(p: nat, q: nat)
    ensures 2 * p * q / 2 == p * q
  {
    assert 2 * p * q == 2 * (p * q);
  }

  lemma Distribute(p: nat, f: nat, q: nat)
    ensures p * (2 * (f + q) + 1) == p * (2 * f + 1) + p * (2 * q)
  {
  }

  /** Dropping the sentinel of a full group and setting bit 31 gives the word to be written. */
  lemma FillingWritten(cword: nat, flags: seq<bool>, padded: seq<bool>)
    requires |flags| <= GROUP && cword == 2 * FlagValue(flags) + 1
    requires padded == flags + seq(GROUP - |flags|, _ => false)
    ensures cword / 2 + 0x8000_0000 == Control(padded)
    ensures Control(padded) < 0x1_0000_0000
  {
    FlagValuePadded(flags, GROUP - |flags|);
    ControlIsFlagValue(padded);
    Pow2Of31();
    ControlFits(padded);
  }

  /** The flags of the next n tokens; the last control word is padded with zero flags. */
  function Flags(ts: seq<Token>, n: nat): (f: seq<bool>)
    ensures |f| == n
    ensures forall i | 0 <= i < n :: f[i] == (i < |ts| && ts[i].Match?)
  {
    seq(n, i requires 0 <= i < n => i < |ts| && ts[i].Match?)
  }

  function ControlBytes(ts: seq<Token>): (s: seq<byte>)
    ensures |s| == 4
  {
    ControlFits(Flags(ts, GROUP));
    Bytes32(Control(Flags(ts, GROUP)))
  }

  /** Four bytes, lowest first, whose bit k tells whether the k-th token of the group is a match; bit 31 is
      set. */
  lemma ControlWord(ts: seq<Token>, k: nat)
    requires k < 32
    ensures BitOf(Value(WordAt(ControlBytes(ts), 0)), k) == if k == 31 || (k < |ts| && ts[k].Match?) then 1 else 0
  {
    ControlFits(Flags(ts, GROUP));
    Bytes32RoundTrip(Control(Flags(ts, GROUP)));
    ControlBits(Flags(ts, GROUP), k);
  }

  // ----- tokens as bytes

  predicate Encodable(tok: Token) {
    tok.Match? ==> 3 <= tok.len <= 255 && tok.bucket < 4096
  }

  predicate AllEncodable(ts: seq<Token>) {
    forall i | 0 <= i < |ts| :: Encodable(ts[i])
  }

  /** A literal is itself.  A match under 18 bytes puts the length in the low nibble of a 16-bit
      word; a longer one leaves the nibble zero and adds a length byte. */
  function TokenBytes(tok: Token): (s: seq<byte>)
    requires Encodable(tok)
    ensures 1 <= |s| <= 3 && |s| <= tok.Span()
  {
    match tok
    case Literal(b) => [b]
    case Match(bucket, len) =>
      if len < 18 then
        var v := len - 2 + 16 * bucket;
        [v % 0x100, v / 0x100]
      else
        [(16 * bucket) % 0x100, (16 * bucket) / 0x100, len]
  }

  /** Reads a match back: the low nibble decides the form, and lengths below 18 have the short one. */
  lemma MatchBytesRoundTrip(tok: Token)
    requires Encodable(tok) && tok.Match?
    ensures
      var s := TokenBytes(tok);
      |s| >= 2 &&
      var v := (s[0] as int) + 0x100 * (s[1] as int);
      && (v / 16) % 4096 == tok.bucket
      && (v % 16 != 0 ==> |s| == 2 && v % 16 + 2 == tok.len)
      && (v % 16 == 0 ==> |s| == 3 && s[2] == tok.len)
      && (|s| == 2 <==> tok.len < 18)
  {
  }

  /** The bytes that follow in the stream when ts remains to be read and the current control
      word still governs slots tokens. */
  function Rest(ts: seq<Token>, slots: nat): (s: seq<byte>)
    requires AllEncodable(ts)
    decreases |ts|, if slots == 0 then 1 else 0
  {
    if ts == [] then []
    else if slots == 0 then ControlBytes(ts) + Rest(ts, GROUP)
    else TokenBytes(ts[0]) + Rest(ts[1..], slots - 1)
  }

  function Layout(ts: seq<Token>): seq<byte>
    requires AllEncodable(ts)
  {
    Rest(ts, 0)
  }

  function Body(ts: seq<Token>): seq<byte>
    requires AllEncodable(ts)
  {
    if ts == [] then [] else TokenBytes(ts[0]) + Body(ts[1..])
  }

  lemma {:induction false} BodySnoc(ts: seq<Token>, tok: Token)
    requires AllEncodable(ts) && Encodable(tok)
    ensures AllEncodable(ts + [tok]) && Body(ts + [tok]) == Body(ts) + TokenBytes(tok)
  {
    assert AllEncodable(ts + [tok]);
    if ts == [] {
      assert ts + [tok] == [tok];
      assert Body([tok]) == TokenBytes(tok) + Body([]) == TokenBytes(tok);
    } else {
      BodySnoc(ts[1..], tok);
      assert (ts + [tok])[1..] == ts[1..] + [tok];
      assert Body(ts + [tok]) == TokenBytes(ts[0]) + (Body(ts[1..]) + TokenBytes(tok));
    }
  }

  /** A stream splits where a group of tokens ends. */
  lemma {:induction false} RestAppend(a: seq<Token>, b: seq<Token>, slots: nat)
    requires AllEncodable(a) && AllEncodable(b)
    requires |a| >= slots && (|a| - slots) % GROUP == 0
    ensures AllEncodable(a + b) && Rest(a + b, slots) == Rest(a, slots) + Layout(b)
    decreases |a|, if slots == 0 then 1 else 0
  {
    hide TokenBytes, Control;
    assert AllEncodable(a + b);
    if a == [] {
      assert a + b == b;
    } else if slots == 0 {
      RestAppend(a, b, GROUP);
      assert Flags(a + b, GROUP) == Flags(a, GROUP);
      assert Rest(a + b, 0) == ControlBytes(a) + (Rest(a, GROUP) + Layout(b));
    } else {
      assert (a + b)[1..] == a[1..] + b;
      RestAppend(a[1..], b, slots - 1);
      assert Rest(a + b, slots) == TokenBytes(a[0]) + (Rest(a[1..], slots - 1) + Layout(b));
    }
  }

  lemma {:induction false} RestBody(ts: seq<Token>, slots: nat)
    requires AllEncodable(ts) && |ts| <= slots
    ensures Rest(ts, slots) == Body(ts)
    decreases |ts|
  {
    if ts != [] {
      RestBody(ts[1..], slots - 1);
    }
  }

  /** The layout while the compressor fills a group: complete groups, the control word of the
      current one, and its tokens. */
  lemma LayoutOfGroups(done: seq<Token>, group: seq<Token>)
    requires AllEncodable(done) && AllEncodable(group)
    requires |done| % GROUP == 0 && 0 < |group| <= GROUP
    ensures AllEncodable(done + group)
    ensures Layout(done + group) == Layout(done) + (ControlBytes(group) + Body(group))
  {
    RestAppend(done, group, 0);
    LayoutOfGroup(group);
  }

  lemma LayoutOfGroup(group: seq<Token>)
    requires AllEncodable(group) && 0 < |group| <= GROUP
    ensures Layout(group) == ControlBytes(group) + Body(group)
  {
    RestBody(group, GROUP);
    assert Rest(group, 0) == ControlBytes(group) + Rest(group, GROUP);
  }

  /** Four bytes for every started group, plus the tokens. */
  lemma {:induction false} LayoutLength(ts: seq<Token>, slots: nat)
    requires AllEncodable(ts) && slots <= GROUP
    ensures |Rest(ts, slots)| == |Body(ts)| + 4 * (if |ts| <= slots then 0 else (|ts| - slots + GROUP - 1) / GROUP)
    decreases |ts|, if slots == 0 then 1 else 0
  {
    if ts != [] {
      if slots == 0 {
        LayoutLength(ts, GROUP);
        if |ts| > GROUP {
          assert (|ts| + GROUP - 1) / GROUP == (|ts| - 1) / GROUP + 1;
        }
      } else {
        LayoutLength(ts[1..], slots - 1);
      }
    }
  }

  // ----- the bytes of a parse

  lemma ParseFromEncodable(x: seq<byte>, s: Enc)
    requires ValidEnc(x, s)
    ensures AllEncodable(ParseFrom(x, s))
    decreases |x| - s.pos
  {
    if s.pos < |x| {
      ParseFromEncodable(x, Advance(x, s));
    }
  }

  lemma ParseEncodable(x: seq<byte>, n: nat)
    requires n <= |Parse(x)|
    ensures AllEncodable(Parse(x)) && AllEncodable(Parse(x)[..n])
  {
    ParseFromEncodable(x, INITIAL_ENC);
  }

  // ----- expansion

  /** Input bytes that ts stands for. */
  function Covered(ts: seq<Token>): nat {
    if ts == [] then 0 else Covered(ts[..|ts| - 1]) + ts[|ts| - 1].Span()
  }

  /** A token takes at most three bytes, and no more bytes than it stands for. */
  lemma {:induction false} BodyGrowth(ts: seq<Token>, m: nat, n: nat)
    requires m <= n <= |ts| && AllEncodable(ts)
    ensures Covered(ts[..m]) + (n - m) <= Covered(ts[..n])
    ensures |Body(ts[..m])| <= |Body(ts[..n])| <= |Body(ts[..m])| + Covered(ts[..n]) - Covered(ts[..m])
    ensures |Body(ts[..n])| <= |Body(ts[..m])| + 3 * (n - m)
    decreases n
  {
    if m < n {
      BodyGrowth(ts, m, n - 1);
      assert ts[..n] == ts[..n - 1] + [ts[n - 1]];
      BodySnoc(ts[..n - 1], ts[n - 1]);
      assert ts[..n][..n - 1] == ts[..n - 1];
    }
  }

  /** What a reload of the control word tests once half of the input is read: after n tokens the
      output is longer than the input read so far, less a 32nd. */
  predicate TooLongAt(ts: seq<Token>, size: nat, n: nat)
    requires n <= |ts| && AllEncodable(ts)
  {
    var pos := Covered(ts[..n]);
    && n > 0 && n % GROUP == 0
    && size / 2 < pos <= size - 11
    && |Body(ts[..n])| + 4 * (n / GROUP) > pos - pos / 32
  }

  /** Room needed after n tokens, the control word reserved for the next group included. */
  function Room(ts: seq<Token>, n: nat): nat
    requires n <= |ts| && AllEncodable(ts)
  {
    |Body(ts[..n])| + 4 * (n / GROUP + 1)
  }

  lemma RoomFromBoundary(ts: seq<Token>, size: nat, b: nat, n: nat)
    requires b <= n <= |ts| && AllEncodable(ts) && Covered(ts[..n]) <= size
    requires b % GROUP == 0 && n < b + 2 * GROUP
    requires Covered(ts[..b]) <= size - 11 && !TooLongAt(ts, size, b)
    ensures Room(ts, n) <= size + 300
  {
    BodyGrowth(ts, 0, b);
    BodyGrowth(ts, b, n);
    assert n / GROUP <= b / GROUP + 1;
    var pos := Covered(ts[..b]);
    if b > 0 && pos > size / 2 {
      assert |Body(ts[..b])| + 4 * (b / GROUP) <= pos;
    }
  }

  /** The expansion bound while compressing: unless the half-way test has given up, the output
      never needs more than 300 bytes over the input. */
  lemma RoomBound(ts: seq<Token>, size: nat, n: nat)
    requires n <= |ts| && AllEncodable(ts) && Covered(ts[..n]) <= size
    requires forall m | 0 <= m <= n :: !TooLongAt(ts, size, m)
    ensures Room(ts, n) <= size + 300
  {
    hide TooLongAt, Room, Body, Covered;
    var b := n / GROUP * GROUP;
    assert n < b + GROUP && b % GROUP == 0;
    if Covered(ts[..b]) <= size - 11 {
      RoomFromBoundary(ts, size, b, n);
    } else if b == 0 {
      RoomFirstGroup(ts, n);
    } else {
      BodyGrowth(ts, b, n);
      BodyGrowth(ts, b - GROUP, b);
      RoomFromBoundary(ts, size, b - GROUP, n);
    }
  }

  lemma RoomFirstGroup(ts: seq<Token>, n: nat)
    requires n <= |ts| && n < GROUP && AllEncodable(ts)
    ensures Room(ts, n) <= Covered(ts[..n]) + 4
  {
    BodyGrowth(ts, 0, n);
  }

  /** For an input under 216 bytes the layout, with a three-byte header, fits a one-byte length. */
  lemma ShortLayoutBound(ts: seq<Token>)
    requires AllEncodable(ts) && Covered(ts) < 216
    ensures |Layout(ts)| + 3 <= 255
  {
    LayoutLength(ts, 0);
    BodyGrowth(ts, 0, |ts|);
    assert ts[..|ts|] == ts;
  }

  lemma LayoutWithinRoom(ts: seq<Token>)
    requires AllEncodable(ts)
    ensures |Layout(ts)| <= Room(ts, |ts|)
  {
    LayoutLength(ts, 0);
    assert ts[..|ts|] == ts;
  }

  lemma {:induction false} BodyAppend(a: seq<Token>, b: seq<Token>)
    requires AllEncodable(a) && AllEncodable(b)
    ensures AllEncodable(a + b) && Body(a + b) == Body(a) + Body(b)
  {
    hide TokenBytes, Encodable;
    assert AllEncodable(a + b);
    if a == [] {
      assert a + b == b;
    } else {
      BodyAppend(a[1..], b);
      assert (a + b)[1..] == a[1..] + b && (a + b)[0] == a[0];
      assert Body(a + b) == TokenBytes(a[0]) + (Body(a[1..]) + Body(b));
    }
  }

  /** The tokens of a parse, one by one. */
  lemma ParseStep(x: seq<byte>, n: nat)
    requires n <= |Parse(x)|
    ensures AllEncodable(Parse(x))
    ensures Covered(Parse(x)[..n]) == EncAfter(x, n).pos
    ensures n == |Parse(x)| <==> EncAfter(x, n).pos == |x|
    ensures n < |Parse(x)| ==>
              EncAfter(x, n).pos < |x| && Parse(x)[n] == NextToken(x, EncAfter(x, n))
              && EncAfter(x, n + 1) == Advance(x, EncAfter(x, n))
  {
    ParseEncodable(x, n);
    ParseSplit(x, n);
    if n > 0 {
      ParseStep(x, n - 1);
      assert Parse(x)[..n][..n - 1] == Parse(x)[..n - 1];
    }
    if n < |Parse(x)| {
      assert Parse(x)[n] == ParseFrom(x, EncAfter(x, n))[0];
    }
  }

  /** The compressor's state n tokens into x. */
  ghost predicate AtToken(x: seq<byte>, n: nat, s: Enc) {
    n <= |Parse(x)| && ValidEnc(x, s) && s == EncAfter(x, n)
  }

  lemma AtNextToken(x: seq<byte>, n: nat, s: Enc)
    requires AtToken(x, n, s) && s.pos < |x|
    ensures n < |Parse(x)| && Parse(x)[n] == NextToken(x, s)
    ensures AtToken(x, n + 1, Advance(x, s))
    ensures Covered(Parse(x)[..n + 1]) <= |x|
  {
    ParseStep(x, n);
    ParseStep(x, n + 1);
  }
}
