/** The values AMF3Serializer (mmlib/amf/amf3serializer.cpp) writes and reads, and the integers they
    are made of.  A map's children are kept as std::map keeps them, sorted by key. */
module Amf3Values {
  import opened Common

  type Str = seq<byte>
  type Children = seq<(Str, Variant)>

  /** A double is its eight octets in network order. */
  datatype Variant =
    | Null
    | Undefined
    | Bool(b: bool)
    | Integer(v: int)
    | Double(octets: Str)
    | String(s: Str)
    | ByteArray(bytes: Str)
    | Map(isArray: bool, children: Children)

  // ----- U29 (section 1.3.1 of the AMF 3 specification)

  /** The k-th octet of a 32-bit value in network order. */
  function Octet(v: nat, k: nat): (b: nat)
    requires v < 0x1_0000_0000 && k < 4
    ensures b < 0x100
  {
    if k == 0 then v / 0x100_0000 else if k == 1 then (v / 0x1_0000) % 0x100 else if k == 2 then (v / 0x100) % 0x100
    else v % 0x100
  }

  /** WriteU29: nothing above 2^29 - 1. */
  function WriteU29(v: nat): (r: Option<Str>)
    requires v < 0x1_0000_0000
    ensures r.Some? <==> v < 0x2000_0000
    ensures r.Some? ==> 1 <= |r.value| <= 4
  {
    var b0, b1, b2, b3 := Octet(v, 0), Octet(v, 1), Octet(v, 2), Octet(v, 3);
    if v <= 0x7f then Some([b3])
    else if v <= 0x3fff then Some([0x80 + (2 * b2 + b3 / 0x80) % 0x80, b3 % 0x80])
    else if v <= 0x1f_ffff then
      Some([0x80 + (4 * b1 + b2 / 0x40) % 0x80, 0x80 + (2 * b2 + b3 / 0x80) % 0x80, b3 % 0x80])
    else if v <= 0x1fff_ffff then
      Some([0x80 + (4 * b0 + b1 / 0x40) % 0x80, 0x80 + (2 * b1 + b2 / 0x80) % 0x80, 0x80 + b2 % 0x80, b3])
    else None
  }

  /** ReadU29's loop, with i octets read so far. */
  function ReadU29From(s: Str, i: nat, value: nat): Option<(nat, Str)>
    requires i <= 4
    decreases 4 - i
  {
    if i == 4 then Some((value, s))
    else if s == [] then None
    else
      var b: nat := s[0];
      var value' := if i != 3 then value * 0x80 + b % 0x80 else value * 0x100 + b;
      if b < 0x80 then Some((value', s[1..])) else ReadU29From(s[1..], i + 1, value')
  }

  function ReadU29(s: Str): (r: Option<(nat, Str)>)
    ensures r.Some? ==> |r.value.1| < |s| && r.value.0 < 0x2000_0000
  {
    ReadU29Bounds(s, 0, 0);
    ReadU29From(s, 0, 0)
  }

  lemma {:induction false} ReadU29Bounds(s: Str, i: nat, value: nat)
    requires i <= 4 && value < if i == 0 then 1 else if i == 1 then 0x80 else if i == 2 then 0x4000
             else if i == 3 then 0x20_0000 else 0x2000_0000
    ensures
      var r := ReadU29From(s, i, value);
      r.Some? ==> |r.value.1| <= |s| && (i < 4 ==> |r.value.1| < |s|) && r.value.0 < 0x2000_0000
    decreases 4 - i
  {
    if i < 4 && s != [] {
      var b: nat := s[0];
      ReadU29Bounds(s[1..], i + 1, if i != 3 then value * 0x80 + b % 0x80 else value * 0x100 + b);
    }
  }

  lemma OctetsOf(v: nat)
    requires v < 0x1_0000_0000
    ensures v == Octet(v, 0) * 0x100_0000 + Octet(v, 1) * 0x1_0000 + Octet(v, 2) * 0x100 + Octet(v, 3)
  {
    assert v / 0x100_0000 == (v / 0x1_0000) / 0x100;
    assert v / 0x1_0000 == (v / 0x100) / 0x100;
  }

  lemma Remainder(x: nat, q: nat, r: nat)
    requires x == 0x80 * q + r && r < 0x80
    ensures x % 0x80 == r
  {
  }

  lemma HighLow(b: nat)
    requires b < 0x100
    ensures b == 0x80 * (b / 0x80) + b % 0x80 && b / 0x80 < 2
    ensures b == 0x40 * (b / 0x40) + b % 0x40 && b / 0x40 < 4
  {
  }

  /** The octet made of the low bits of one and the top bit of the next. */
  lemma MiddleBits(b1: nat, b2: nat)
    requires b1 < 0x100 && b2 < 0x100
    ensures (2 * b1 + b2 / 0x80) % 0x80 == 2 * (b1 % 0x40) + b2 / 0x80
  {
    HighLow(b1);
    HighLow(b2);
    Remainder(2 * b1 + b2 / 0x80, b1 / 0x40, 2 * (b1 % 0x40) + b2 / 0x80);
  }

  /** The first octet, of few bits and the top two bits of the next. */
  lemma TopBits(b0: nat, b1: nat)
    requires b0 < 0x20 && b1 < 0x100
    ensures (4 * b0 + b1 / 0x40) % 0x80 == 4 * b0 + b1 / 0x40
  {
    HighLow(b1);
    Remainder(4 * b0 + b1 / 0x40, 0, 4 * b0 + b1 / 0x40);
  }

  lemma Two(b2: nat, b3: nat)
    requires b2 < 0x40 && b3 < 0x100
    ensures (2 * b2 + b3 / 0x80) % 0x80 * 0x80 + b3 % 0x80 == 0x100 * b2 + b3
  {
    HighLow(b3);
    Remainder(2 * b2 + b3 / 0x80, 0, 2 * b2 + b3 / 0x80);
  }

  lemma Three(b1: nat, b2: nat, b3: nat)
    requires b1 < 0x20 && b2 < 0x100 && b3 < 0x100
    ensures ((4 * b1 + b2 / 0x40) % 0x80 * 0x80 + (2 * b2 + b3 / 0x80) % 0x80) * 0x80 + b3 % 0x80 ==
            0x1_0000 * b1 + 0x100 * b2 + b3
  {
    HighLow(b2);
    HighLow(b3);
    TopBits(b1, b2);
    MiddleBits(b2, b3);
  }

  lemma Four(b0: nat, b1: nat, b2: nat, b3: nat)
    requires b0 < 0x20 && b1 < 0x100 && b2 < 0x100 && b3 < 0x100
    ensures
      (((4 * b0 + b1 / 0x40) % 0x80 * 0x80 + (2 * b1 + b2 / 0x80) % 0x80) * 0x80 + b2 % 0x80) * 0x100 + b3
      == 0x100_0000 * b0 + 0x1_0000 * b1 + 0x100 * b2 + b3
  {
    HighLow(b1);
    HighLow(b2);
    TopBits(b0, b1);
    MiddleBits(b1, b2);
  }

  lemma ReadOne(s: Str, i: nat, value: nat, b: nat, rest: Str)
    requires i < 4 && b < 0x100 && s == [b] + rest
    ensures
      var value' := if i != 3 then value * 0x80 + b % 0x80 else value * 0x100 + b;
      ReadU29From(s, i, value) == if b < 0x80 || i == 3 then Some((value', rest)) else ReadU29From(rest, i + 1, value')
  {
    assert s[1..] == rest;
  }

  lemma ReadLast(x: nat, s: Str, i: nat, value: nat)
    requires i < 3 && x < 0x80
    ensures ReadU29From([x] + s, i, value) == Some((value * 0x80 + x, s))
  {
    ReadOne([x] + s, i, value, x, s);
  }

  lemma ReadMore(x: nat, t: Str, i: nat, value: nat)
    requires i < 3 && x < 0x80
    ensures ReadU29From([0x80 + x] + t, i, value) == ReadU29From(t, i + 1, value * 0x80 + x)
  {
    ReadOne([0x80 + x] + t, i, value, 0x80 + x, t);
  }

  lemma ReadFourth(x: nat, s: Str, value: nat)
    requires x < 0x100
    ensures ReadU29From([x] + s, 3, value) == Some((value * 0x100 + x, s))
  {
    ReadOne([x] + s, 3, value, x, s);
    assert ReadU29From(s, 4, value * 0x100 + x) == Some((value * 0x100 + x, s));
  }

  lemma FourOctets(v: nat, s: Str)
    requires 0x1f_ffff < v < 0x2000_0000
    ensures
      var b0, b1, b2, b3 := Octet(v, 0), Octet(v, 1), Octet(v, 2), Octet(v, 3);
      var x0, x1, x2 := (4 * b0 + b1 / 0x40) % 0x80, (2 * b1 + b2 / 0x80) % 0x80, b2 % 0x80;
      ReadU29(WriteU29(v).value + s) == Some((((x0 * 0x80 + x1) * 0x80 + x2) * 0x100 + b3, s))
  {
    hide ReadU29From, Octet;
    var b0, b1, b2, b3 := Octet(v, 0), Octet(v, 1), Octet(v, 2), Octet(v, 3);
    var x0, x1, x2 := (4 * b0 + b1 / 0x40) % 0x80, (2 * b1 + b2 / 0x80) % 0x80, b2 % 0x80;
    var w := WriteU29(v).value;
    assert w + s == [0x80 + x0] + ([0x80 + x1] + ([0x80 + x2] + ([b3] + s)));
    ReadMore(x0, [0x80 + x1] + ([0x80 + x2] + ([b3] + s)), 0, 0);
    ReadMore(x1, [0x80 + x2] + ([b3] + s), 1, x0);
    ReadMore(x2, [b3] + s, 2, x0 * 0x80 + x1);
    ReadFourth(b3, s, (x0 * 0x80 + x1) * 0x80 + x2);
  }

  lemma TwoOctets(v: nat, s: Str)
    requires 0x7f < v <= 0x3fff
    ensures
      var b2, b3 := Octet(v, 2), Octet(v, 3);
      var x0, x1 := (2 * b2 + b3 / 0x80) % 0x80, b3 % 0x80;
      ReadU29(WriteU29(v).value + s) == Some((x0 * 0x80 + x1, s))
  {
    hide ReadU29From, Octet;
    var b2, b3 := Octet(v, 2), Octet(v, 3);
    var x0, x1 := (2 * b2 + b3 / 0x80) % 0x80, b3 % 0x80;
    assert WriteU29(v).value + s == [0x80 + x0] + ([x1] + s);
    ReadMore(x0, [x1] + s, 0, 0);
    ReadLast(x1, s, 1, x0);
  }

  lemma ThreeOctets(v: nat, s: Str)
    requires 0x3fff < v <= 0x1f_ffff
    ensures
      var b1, b2, b3 := Octet(v, 1), Octet(v, 2), Octet(v, 3);
      var x0, x1, x2 := (4 * b1 + b2 / 0x40) % 0x80, (2 * b2 + b3 / 0x80) % 0x80, b3 % 0x80;
      ReadU29(WriteU29(v).value + s) == Some(((x0 * 0x80 + x1) * 0x80 + x2, s))
  {
    hide ReadU29From, Octet;
    var b1, b2, b3 := Octet(v, 1), Octet(v, 2), Octet(v, 3);
    var x0, x1, x2 := (4 * b1 + b2 / 0x40) % 0x80, (2 * b2 + b3 / 0x80) % 0x80, b3 % 0x80;
    assert WriteU29(v).value + s == [0x80 + x0] + ([0x80 + x1] + ([x2] + s));
    ReadMore(x0, [0x80 + x1] + ([x2] + s), 0, 0);
    ReadMore(x1, [x2] + s, 1, x0);
    ReadLast(x2, s, 2, x0 * 0x80 + x1);
  }

  lemma SmallOctets(v: nat)
    requires v < 0x2000_0000
    ensures Octet(v, 0) < 0x20
    ensures v <= 0x7f ==> Octet(v, 3) == v
    ensures v <= 0x3fff ==> Octet(v, 0) == Octet(v, 1) == 0 && Octet(v, 2) < 0x40
    ensures v <= 0x1f_ffff ==> Octet(v, 0) == 0 && Octet(v, 1) < 0x20
  {
  }

  lemma RoundOne(v: nat, s: Str)
    requires v <= 0x7f
    ensures ReadU29(WriteU29(v).value + s) == Some((v, s))
  {
    hide ReadU29From, Octet;
    SmallOctets(v);
    ReadLast(v, s, 0, 0);
  }

  lemma RoundTwo(v: nat, s: Str)
    requires 0x7f < v <= 0x3fff
    ensures ReadU29(WriteU29(v).value + s) == Some((v, s))
  {
    hide *;
    OctetsOf(v);
    SmallOctets(v);
    TwoOctets(v, s);
    Two(Octet(v, 2), Octet(v, 3));
  }

  lemma RoundThree(v: nat, s: Str)
    requires 0x3fff < v <= 0x1f_ffff
    ensures ReadU29(WriteU29(v).value + s) == Some((v, s))
  {
    hide *;
    OctetsOf(v);
    SmallOctets(v);
    ThreeOctets(v, s);
    Three(Octet(v, 1), Octet(v, 2), Octet(v, 3));
  }

  lemma RoundFour(v: nat, s: Str)
    requires 0x1f_ffff < v < 0x2000_0000
    ensures ReadU29(WriteU29(v).value + s) == Some((v, s))
  {
    hide *;
    OctetsOf(v);
    SmallOctets(v);
    FourOctets(v, s);
    Four(Octet(v, 0), Octet(v, 1), Octet(v, 2), Octet(v, 3));
  }

  /** Reading a written integer gives it back and touches nothing behind it. */
  lemma U29RoundTrip(v: nat, s: Str)
    requires v < 0x2000_0000
    ensures ReadU29(WriteU29(v).value + s) == Some((v, s))
  {
    hide *;
    if v <= 0x7f {
      RoundOne(v, s);
    } else if v <= 0x3fff {
      RoundTwo(v, s);
    } else if v <= 0x1f_ffff {
      RoundThree(v, s);
    } else {
      RoundFour(v, s);
    }
  }
}
