/** qlz_compress and qlz_decompress: header, stored and compressed form, and the round trip. */
module QlzCodec {
  import opened Common
  import opened QlzTokens
  import opened QlzStream
  import opened QlzCompressor
  import D = QlzDecompressor

  const MAX_SIZE := 0xffffffff - 400

  /** Inputs under 216 bytes get the short header with one-byte sizes. */
  function HeaderSize(size: nat): nat {
    if size < 216 then 3 else 9
  }

  /** Bytes of the packet for x. */
  ghost function PackedSize(x: seq<byte>): nat {
    ParseEncodable(x, 0);
    HeaderSize(|x|) + if Abandoned(x) then |x| else Max(9, |Layout(Parse(x))|)
  }

  /** The expansion bound: never more than 400 bytes over the input, and short packets are
      short enough for the one-byte size fields. */
  lemma ExpansionBound(x: seq<byte>)
    requires x != []
    ensures 9 <= PackedSize(x) <= |x| + 400
    ensures |x| < 216 ==> PackedSize(x) <= 255
  {
    var P := Parse(x);
    ParseEncodable(x, 0);
    ParseStep(x, |P|);
    assert P[..|P|] == P;
    if Abandoned(x) {
      var n :| 0 <= n <= |P| && TooLongAt(P, |x|, n);
      BodyGrowth(P, 0, n);
      BodyGrowth(P, n, |P|);
    } else {
      RoomBound(P, |x|, |P|);
      LayoutWithinRoom(P);
      if |x| < 216 {
        ShortLayoutBound(P);
      }
    }
  }

  // ----- the header

  /** 4 << 0 for level 1, 1 << 6 always, 2 for the long header, 1 for compressed data. */
  function FlagByte(size: nat, compressed: bool): byte {
    68 + (if size < 216 then 0 else 2) + if compressed then 1 else 0
  }

  /** The flag byte, bit by bit: compressed, long header, level 1 in bits 2 and 3, no streaming buffer, and
      bit 6. */
  lemma FlagBits(size: nat, compressed: bool)
    ensures
      var f := FlagByte(size, compressed);
      && BitOf(f, 0) == (if compressed then 1 else 0) && BitOf(f, 1) == (if size < 216 then 0 else 1)
      && BitOf(f, 2) == 1 && BitOf(f, 3) == 0 && BitOf(f, 4) == 0 && BitOf(f, 5) == 0 && BitOf(f, 6) == 1
      && BitOf(f, 7) == 0
  {
  }

  /** When the input is stored: exactly if at the end of some group, past the half of the input and with
      eleven bytes or more left, the output so far is longer than the input so far less a 32nd. */
  lemma StoredExactly(x: seq<byte>)
    ensures AllEncodable(Parse(x))
    ensures Abandoned(x) <==>
            exists n: nat :: 0 < n <= |Parse(x)| && StoredAt(Parse(x), |x|, n)
  {
    hide Parse, TooLongAt, StoredAt;
    var ts := Parse(x);
    ParseEncodable(x, 0);
    forall n: nat | n <= |ts|
      ensures TooLongAt(ts, |x|, n) <==> n > 0 && StoredAt(ts, |x|, n)
    {
      StoredIs(ts, |x|, n);
    }
  }

  lemma StoredIs(ts: seq<Token>, size: nat, n: nat)
    requires n <= |ts| && AllEncodable(ts)
    ensures TooLongAt(ts, size, n) <==> n > 0 && StoredAt(ts, size, n)
  {
    hide Layout, Body, Covered;
    if n % 31 == 0 {
      LayoutAt(ts, n);
    }
  }

  lemma LayoutAt(ts: seq<Token>, n: nat)
    requires n <= |ts| && AllEncodable(ts) && n % 31 == 0
    ensures |Layout(ts[..n])| == |Body(ts[..n])| + 4 * (n / 31)
  {
    LayoutLength(ts[..n], 0);
    hide Body, Rest;
    assert (n + 30) / 31 == n / 31;
  }

  predicate StoredAt(ts: seq<Token>, size: nat, n: nat)
    requires n <= |ts| && AllEncodable(ts)
  {
    var pos := Covered(ts[..n]);
    n % 31 == 0 && pos > size / 2 && pos + 11 <= size && |Layout(ts[..n])| > pos - pos / 32
  }

  ghost predicate HasHeader(s: seq<byte>, r: nat, size: nat, compressed: bool)
    requires r < 0x1_0000_0000 && size < 0x1_0000_0000
  {
    && |s| >= HeaderSize(size)
    && s[0] == FlagByte(size, compressed)
    && if size < 216 then s[1] as int == r && s[2] as int == size
       else s[1..5] == Bytes32(r) && s[5..9] == Bytes32(size)
  }

  /** s starts with the packet that qlz_compress makes of x.  When the packet is padded to its
      minimal length, the padding is whatever the destination held. */
  ghost predicate Packed(s: seq<byte>, x: seq<byte>) {
    && 0 < |x| <= MAX_SIZE
    && PackedSize(x) <= |s| && PackedSize(x) < 0x1_0000_0000
    && HasHeader(s, PackedSize(x), |x|, !Abandoned(x))
    && AllEncodable(Parse(x))
    && var data := if Abandoned(x) then x else Layout(Parse(x));
       var base := HeaderSize(|x|);
       base + |data| <= |s| && s[base..base + |data|] == data
  }

  /** Width of the size fields: bit 1 of the flag byte. */
  function FieldWidth(flag: byte): nat {
    if (flag / 2) % 2 == 1 then 4 else 1
  }

  /** A four-byte read masked to the field's width. */
  function ReadField(s: seq<byte>, p: nat, n: nat): nat
    requires p + 4 <= |s|
  {
    if n == 1 then Value(WordAt(s, p)) % 0x100 else Value(WordAt(s, p))
  }

  function SizeDecompressed(s: seq<byte>): nat
    requires |s| >= 9
  {
    ReadField(s, 1 + FieldWidth(s[0]), FieldWidth(s[0]))
  }

  function SizeCompressed(s: seq<byte>): nat
    requires |s| >= 9
  {
    ReadField(s, 1, FieldWidth(s[0]))
  }

  function SizeHeader(s: seq<byte>): nat
    requires |s| >= 9
  {
    2 * FieldWidth(s[0]) + 1
  }

  lemma WordOfSlice(s: seq<byte>, p: nat, v: nat)
    requires p + 4 <= |s| && v < 0x1_0000_0000 && s[p..p + 4] == Bytes32(v)
    ensures Value(WordAt(s, p)) == v
  {
    Bytes32RoundTrip(v);
    WordAtSlice(s, p, Bytes32(v));
  }

  lemma LowByte(w: Word)
    ensures Value(w) % 0x100 == w.b0
  {
    assert Value(w) == w.b0 + 0x100 * ((w.b1 as int) + 0x100 * (w.b2 as int) + 0x1_0000 * (w.b3 as int));
  }

  lemma ShortHeader(s: seq<byte>, r: nat, size: nat, compressed: bool)
    requires r < 0x1_0000_0000 && size < 216 && |s| >= 9 && HasHeader(s, r, size, compressed)
    ensures SizeCompressed(s) == r && SizeDecompressed(s) == size && SizeHeader(s) == 3
    ensures s[0] % 2 == 1 <==> compressed
  {
    hide Value;
    LowByte(WordAt(s, 1));
    LowByte(WordAt(s, 2));
  }

  lemma LongHeader(s: seq<byte>, r: nat, size: nat, compressed: bool)
    requires r < 0x1_0000_0000 && 216 <= size < 0x1_0000_0000 && |s| >= 9 && HasHeader(s, r, size, compressed)
    ensures SizeCompressed(s) == r && SizeDecompressed(s) == size && SizeHeader(s) == 9
    ensures s[0] % 2 == 1 <==> compressed
  {
    hide Value, WordAt, Bytes32;
    WordOfSlice(s, 1, r);
    WordOfSlice(s, 5, size);
  }

  /** The three size readers return the packet's sizes from its first nine bytes. */
  lemma SizesRoundTrip(s: seq<byte>, x: seq<byte>)
    requires Packed(s, x)
    ensures |s| >= 9
    ensures SizeCompressed(s) == PackedSize(x)
    ensures SizeDecompressed(s) == |x|
    ensures SizeHeader(s) == HeaderSize(|x|)
    ensures s[0] % 2 == 1 <==> !Abandoned(x)
  {
    ExpansionBound(x);
    hide Value, WordAt, Bytes32;
    if |x| < 216 {
      ShortHeader(s, PackedSize(x), |x|, !Abandoned(x));
    } else {
      LongHeader(s, PackedSize(x), |x|, !Abandoned(x));
    }
  }

  // ----- compression

  method WriteHeader(dest: array<byte>, r: nat, size: nat, compressed: bool)
    requires 0 < size && r < 0x1_0000_0000 && size < 0x1_0000_0000
    requires dest.Length >= HeaderSize(size) && (size < 216 ==> r < 256)
    modifies dest
    ensures HasHeader(dest[..], r, size, compressed)
    ensures forall i | HeaderSize(size) <= i < dest.Length :: dest[i] == old(dest[i])
  {
    if size < 216 {
      dest[0] := if compressed then 1 else 0;
      dest[1] := r;
      dest[2] := size;
    } else {
      dest[0] := if compressed then 3 else 2;
      Write32(dest, 1, r);
      Write32(dest, 5, size);
      assert dest[..][1..5] == Bytes32(r) && dest[..][5..9] == Bytes32(size);
    }
    dest[0] := dest[0] + 4 + 64;
    if size >= 216 {
      assert dest[..][1..5] == Bytes32(r) && dest[..][5..9] == Bytes32(size);
    }
  }

  method Store(source: seq<byte>, dest: array<byte>, base: nat)
    requires base + |source| <= dest.Length
    modifies dest
    ensures dest[..][base..base + |source|] == source
    ensures Framed(dest[..], old(dest[..]), base)
  {
    for i := 0 to |source|
      invariant dest[..][base..base + i] == source[..i]
      invariant dest[..][..base] == old(dest[..])[..base]
    {
      dest[base + i] := source[i];
      assert dest[..][base..base + i + 1] == dest[..][base..base + i] + [source[i]];
    }
  }

  /** qlz_compress: 0 for an empty or too long input, otherwise the length of the packet.  The
      destination must have 400 bytes more than the input, as the library asks. */
  method Compress(source: seq<byte>, dest: array<byte>, state: CompressState) returns (r: nat)
    requires dest.Length >= |source| + 400
    requires state.cache.Length == state.offset.Length == HASH_VALUES
    requires dest != state.cache as object && dest != state.offset as object
    modifies dest, state.cache, state.offset
    ensures source == [] || |source| > MAX_SIZE ==> r == 0 && dest[..] == old(dest[..])
    ensures 0 < |source| <= MAX_SIZE ==>
              r == PackedSize(source) && 9 <= r <= |source| + 400 && Packed(dest[..r], source)
  {
    hide Parse, Layout, Bytes32;
    if |source| == 0 || |source| > MAX_SIZE {
      return 0;
    }
    ExpansionBound(source);
    var base := HeaderSize(|source|);
    state.Reset(source);
    r := CompressCore(source, dest, base, state);
    r := base + r;
    var compressed := r != base;
    if r == base {
      Store(source, dest, base);
      r := |source| + base;
    }
    ghost var body := dest[..];
    WriteHeader(dest, r, |source|, compressed);
    PackedFromParts(body, dest[..], source);
  }

  lemma SliceFrame(was: seq<byte>, now: seq<byte>, r: nat, base: nat, n: nat)
    requires |was| == |now| && base + n <= r <= |now|
    requires forall i | base <= i < |now| :: now[i] == was[i]
    ensures now[..r][base..base + n] == was[base..base + n]
  {
    assert now[..r][base..base + n] == now[base..base + n];
  }

  lemma PackedFromParts(body: seq<byte>, now: seq<byte>, x: seq<byte>)
    requires 0 < |x| <= MAX_SIZE && |body| == |now| && PackedSize(x) <= |now| && PackedSize(x) < 0x1_0000_0000
    requires HasHeader(now, PackedSize(x), |x|, !Abandoned(x)) && AllEncodable(Parse(x))
    requires forall i | HeaderSize(|x|) <= i < |now| :: now[i] == body[i]
    requires
      var data := if Abandoned(x) then x else Layout(Parse(x));
      var base := HeaderSize(|x|);
      base + |data| <= |body| && body[base..base + |data|] == data
    ensures Packed(now[..PackedSize(x)], x)
  {
    hide Parse, Layout, Bytes32;
    ExpansionBound(x);
    var data, base, r := if Abandoned(x) then x else Layout(Parse(x)), HeaderSize(|x|), PackedSize(x);
    SliceFrame(body, now, r, base, |data|);
    if |x| >= 216 {
      assert now[..r][1..5] == now[1..5] && now[..r][5..9] == now[5..9];
    }
  }

  // ----- decompression

  method Copy(source: seq<byte>, p: nat, dest: array<byte>, n: nat)
    requires p + n <= |source| && n <= dest.Length
    modifies dest
    ensures dest[..n] == source[p..p + n]
    ensures forall i | n <= i < dest.Length :: dest[i] == old(dest[i])
  {
    for i := 0 to n
      invariant dest[..i] == source[p..p + i]
      invariant forall k | n <= k < dest.Length :: dest[k] == old(dest[k])
    {
      dest[i] := source[p + i];
      assert dest[..i + 1] == dest[..i] + [source[p + i]];
    }
  }

  /** qlz_decompress on a packet made from x. */
  method Decompress(source: seq<byte>, dest: array<byte>, state: D.DecompressState, ghost x: seq<byte>) returns (r: nat)
    requires Packed(source, x) && |x| <= dest.Length
    requires state.offset.Length == HASH_VALUES && dest != state.offset as object
    modifies dest, state.offset
    ensures r == |x| && dest[..r] == x
    ensures forall i | r <= i < dest.Length :: dest[i] == old(dest[i])
  {
    SizesRoundTrip(source, x);
    r := SizeDecompressed(source);
    if source[0] % 2 == 1 {
      r := D.DecompressCore(source, SizeHeader(source), dest, r, state, x);
    } else {
      Copy(source, SizeHeader(source), dest, r);
    }
  }

  /** The library's promise: what was compressed is what comes back, for every input in range and
      whatever the buffers and tables held before. */
  method RoundTrip(source: seq<byte>, packet: array<byte>, output: array<byte>,
                   compressState: CompressState, decompressState: D.DecompressState)
    returns (packed: nat, size: nat)
    requires 0 < |source| <= MAX_SIZE
    requires packet.Length >= |source| + 400 && output.Length >= |source| && packet != output
    requires compressState.cache.Length == compressState.offset.Length == HASH_VALUES
    requires decompressState.offset.Length == HASH_VALUES
    requires packet != compressState.cache as object && packet != compressState.offset as object
    requires output != decompressState.offset as object
    modifies packet, output, compressState.cache, compressState.offset, decompressState.offset
    ensures packed <= |source| + 400
    ensures size == |source| && output[..size] == source
  {
    packed := Compress(source, packet, compressState);
    size := Decompress(packet[..packed], output, decompressState, source);
  }
}
