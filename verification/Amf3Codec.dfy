/** What AMF3Serializer (mmlib/amf/amf3serializer.cpp) writes for a value and reads from bytes, and that
    reading gives back what was written.  Dates, typed maps and externalizable objects are not part of
    this model; reading them fails here. */
module Amf3Codec {
  import opened Common
  import opened Amf3Values
  import opened Amf3Children

  const AMF3_UNDEFINED: byte := 0x00
  const AMF3_NULL: byte := 0x01
  const AMF3_FALSE: byte := 0x02
  const AMF3_TRUE: byte := 0x03
  const AMF3_INTEGER: byte := 0x04
  const AMF3_DOUBLE: byte := 0x05
  const AMF3_STRING: byte := 0x06
  const AMF3_ARRAY: byte := 0x09
  const AMF3_OBJECT: byte := 0x0a
  const AMF3_BYTEARRAY: byte := 0x0c

  /** "_t_": where the sealed members of an object are put. */
  const AMF3_TRAITS: Str := [95, 116, 95]

  // ----- writing

  function Concat(a: Option<Str>, b: Option<Str>): Option<Str> {
    if a.Some? && b.Some? then Some(a.value + b.value) else None
  }

  /** The length field of strings and byte arrays, and the contents; sizes are cut to 32 bits. */
  function WriteString(s: Str): Option<Str> {
    Concat(WriteU29(U32(2 * |s| + 1)), Some(s[..U32(|s|)]))
  }

  function IndexOf(c: Children, k: Str): (i: nat)
    requires HasKey(c, k)
    ensures i < |c| && c[i].0 == k && Get(c, k) == c[i].1
  {
    if c[0].0 == k then 0 else IndexOf(c[1..], k) + 1
  }

  function Write(v: Variant): (w: Option<Str>)
    ensures w.Some? ==> |w.value| >= 1
    decreases v, 1, 0
  {
    match v
    case Null => Some([AMF3_NULL])
    case Undefined => Some([AMF3_UNDEFINED])
    case Bool(b) => Some([if b then AMF3_TRUE else AMF3_FALSE])
    case Integer(n) => Concat(Some([AMF3_INTEGER]), WriteU29(U32(n)))
    case Double(octets) => Some([AMF3_DOUBLE] + octets)
    case String(s) => Concat(Some([AMF3_STRING]), WriteString(s))
    case ByteArray(s) => Concat(Some([AMF3_BYTEARRAY]), WriteString(s))
    case Map(true, c) =>
      var n := DenseSize(c);
      Concat(Some([AMF3_ARRAY]),
             Concat(WriteU29(U32(2 * n + 1)),
                 Concat(WritePairs(v, 0, n), Concat(WriteString([]), WriteElements(v, 0, n)))))
    case Map(false, c) =>
      Concat(Some([AMF3_OBJECT]),
             Concat(WriteU29(0x0b), Concat(WriteString([]), Concat(WritePairs(v, 0, 0), WriteString([])))))
  }

  /** The children from the i-th on that are not array elements below n, in order of their keys. */
  function WritePairs(v: Variant, i: nat, n: nat): Option<Str>
    requires v.Map? && i <= |v.children|
    decreases v, 0, |v.children| - i
  {
    if i == |v.children| then Some([])
    else if Dense(v.children[i].0, n) then WritePairs(v, i + 1, n)
    else Concat(WriteString(v.children[i].0), Concat(Write(v.children[i].1), WritePairs(v, i + 1, n)))
  }

  function WriteElements(v: Variant, i: nat, n: nat): Option<Str>
    requires v.Map? && i <= n && forall j: nat | j < n :: HasKey(v.children, IndexKey(j))
    decreases v, 0, n - i
  {
    if i == n then Some([])
    else
      var j := IndexOf(v.children, IndexKey(i));
      Concat(Write(v.children[j].1), WriteElements(v, i + 1, n))
  }

  // ----- reading

  datatype Traits = Traits(isDynamic: bool, names: seq<Str>)

  /** The reference tables. */
  datatype Reader = Reader(strings: seq<Str>, byteArrays: seq<Str>, objects: seq<Variant>, traits: seq<Traits>)

  datatype Got<T> = Got(v: T, r: Reader, rest: Str)

  /** The tables only grow. */
  predicate Extends(r: Reader, r': Reader): (b: bool)
    ensures b ==> |r.objects| <= |r'.objects|
  {
    r.strings <= r'.strings && r.byteArrays <= r'.byteArrays && r.objects <= r'.objects && r.traits <= r'.traits
  }

  /** A new string, or a reference to one read before; reading past the table is undefined in the
      source and fails here. */
  function ReadString(r: Reader, s: Str): (g: Option<Got<Str>>)
    ensures g.Some? ==> |g.value.rest| < |s| && Extends(r, g.value.r)
  {
    match ReadU29(s)
    case None => None
    case Some((temp, rest)) =>
      if temp % 2 == 1 then
        var length := temp / 2;
        if length == 0 then Some(Got([], r, rest))
        else if |rest| < length then None
        else Some(Got(rest[..length], r.(strings := r.strings + [rest[..length]]), rest[length..]))
      else if temp / 2 < |r.strings| then Some(Got(r.strings[temp / 2], r, rest))
      else None
  }

  /** The test for the empty key compares printed forms, which end at a NUL. */
  predicate EndKey(k: Str) {
    k == [] || k[0] == 0
  }

  predicate Subscriptable(v: Variant) {
    v.Null? || v.Undefined? || v.Map?
  }

  function Child(v: Variant, k: Str): Variant {
    if v.Map? then Get(v.children, k) else Null
  }

  function PutChild(v: Variant, k: Str, child: Variant): Variant {
    if v.Map? then v.(children := Put(v.children, k, child)) else Map(false, [(k, child)])
  }

  function AsArray(v: Variant): Variant {
    if v.Null? then Map(true, []) else if v.Map? then v.(isArray := true) else v
  }

  /** Read, into a variant that may already hold something. */
  function Read(r: Reader, s: Str, into: Variant): (g: Option<Got<Variant>>)
    ensures g.Some? ==> |g.value.rest| < |s| && Extends(r, g.value.r)
    decreases |s|, 2
  {
    if s == [] then None
    else
      var t := s[1..];
      if s[0] == AMF3_UNDEFINED || s[0] == AMF3_NULL then Some(Got(Null, r, t))
      else if s[0] == AMF3_FALSE then Some(Got(Bool(false), r, t))
      else if s[0] == AMF3_TRUE then Some(Got(Bool(true), r, t))
      else if s[0] == AMF3_INTEGER then
        match ReadU29(t)
        case None => None
        case Some((n, rest)) => Some(Got(Integer(n), r, rest))
      else if s[0] == AMF3_DOUBLE then
        if |t| < 8 then None else Some(Got(Double(t[..8]), r, t[8..]))
      else if s[0] == AMF3_STRING then
        match ReadString(r, t)
        case None => None
        case Some(g) => Some(Got(String(g.v), g.r, g.rest))
      else if s[0] == AMF3_ARRAY then ReadArray(r, t, into)
      else if s[0] == AMF3_OBJECT then ReadObject(r, t, into)
      else if s[0] == AMF3_BYTEARRAY then ReadByteArray(r, t)
      else None
  }

  /** A byte array read by reference comes back as a string. */
  function ReadByteArray(r: Reader, s: Str): (g: Option<Got<Variant>>)
    ensures g.Some? ==> |g.value.rest| < |s| && Extends(r, g.value.r)
  {
    match ReadU29(s)
    case None => None
    case Some((temp, rest)) =>
      if temp % 2 == 1 then
        var length := temp / 2;
        if length == 0 then Some(Got(ByteArray([]), r, rest))
        else if |rest| < length then None
        else Some(Got(ByteArray(rest[..length]), r.(byteArrays := r.byteArrays + [rest[..length]]), rest[length..]))
      else if temp / 2 < |r.byteArrays| then Some(Got(String(r.byteArrays[temp / 2]), r, rest))
      else None
  }

  function ReadArray(r: Reader, s: Str, into: Variant): (g: Option<Got<Variant>>)
    ensures g.Some? ==> |g.value.rest| < |s| && Extends(r, g.value.r)
    decreases |s|, 1
  {
    match ReadU29(s)
    case None => None
    case Some((temp, rest)) =>
      if temp % 2 == 0 then
        if temp / 2 < |r.objects| then Some(Got(r.objects[temp / 2], r, rest)) else None
      else
        match ReadPairs(r, rest, into)
        case None => None
        case Some(g) =>
          match ReadElements(g.r, g.rest, g.v, 0, temp / 2)
          case None => None
          case Some(h) =>
            var v := AsArray(h.v);
            Some(Got(v, h.r.(objects := h.r.objects + [v]), h.rest))
  }

  /** Keys and values up to an empty key. */
  function ReadPairs(r: Reader, s: Str, v: Variant): (g: Option<Got<Variant>>)
    ensures g.Some? ==> |g.value.rest| < |s| && Extends(r, g.value.r)
    decreases |s|, 0
  {
    match ReadString(r, s)
    case None => None
    case Some(k) =>
      if EndKey(k.v) then Some(Got(v, k.r, k.rest))
      else if !Subscriptable(v) then None
      else
        match Read(k.r, k.rest, Child(v, k.v))
        case None => None
        case Some(g) => ReadPairs(g.r, g.rest, PutChild(v, k.v, g.v))
  }

  function ReadElements(r: Reader, s: Str, v: Variant, i: nat, n: nat): (g: Option<Got<Variant>>)
    ensures g.Some? ==> |g.value.rest| <= |s| && Extends(r, g.value.r)
    decreases |s|, 3
  {
    if i >= n then Some(Got(v, r, s))
    else if !Subscriptable(v) then None
    else
      match Read(r, s, Child(v, IndexKey(i)))
      case None => None
      case Some(g) => ReadElements(g.r, g.rest, PutChild(v, IndexKey(i), g.v), i + 1, n)
  }

  function ReadNames(r: Reader, s: Str, n: nat): (g: Option<Got<seq<Str>>>)
    ensures g.Some? ==> |g.value.rest| <= |s| && Extends(r, g.value.r)
    decreases |s|
  {
    if n == 0 then Some(Got([], r, s))
    else
      match ReadString(r, s)
      case None => None
      case Some(k) =>
        match ReadNames(k.r, k.rest, n - 1)
        case None => None
        case Some(g) => Some(g.(v := [k.v] + g.v))
  }

  /** The traits of an object: given here, or read before. */
  function ReadTraits(r: Reader, s: Str, flags: nat): (g: Option<Got<Traits>>)
    ensures g.Some? ==> |g.value.rest| <= |s| && Extends(r, g.value.r)
  {
    if (flags / 2) % 2 == 0 then
      if flags / 4 < |r.traits| then Some(Got(r.traits[flags / 4], r, s)) else None
    else
      match ReadString(r, s)
      case None => None
      case Some(c) =>
        match ReadNames(c.r, c.rest, flags / 16)
        case None => None
        case Some(g) =>
          var t := Traits((flags / 8) % 2 == 1, g.v);
          Some(Got(t, g.r.(traits := g.r.traits + [t]), g.rest))
  }

  /** The sealed members. */
  function ReadSealed(r: Reader, s: Str, v: Variant, names: seq<Str>): (g: Option<Got<Variant>>)
    ensures g.Some? ==> |g.value.rest| <= |s| && Extends(r, g.value.r)
    decreases |s|, 3
  {
    if names == [] then Some(Got(v, r, s))
    else if !Subscriptable(v) || !Subscriptable(Child(v, AMF3_TRAITS)) then None
    else
      var members := Child(v, AMF3_TRAITS);
      match Read(r, s, Child(members, names[0]))
      case None => None
      case Some(g) => ReadSealed(g.r, g.rest, PutChild(v, AMF3_TRAITS, PutChild(members, names[0], g.v)), names[1..])
  }

  function ReadObject(r: Reader, s: Str, into: Variant): (g: Option<Got<Variant>>)
    ensures g.Some? ==> |g.value.rest| < |s| && Extends(r, g.value.r)
    decreases |s|, 1
  {
    match ReadU29(s)
    case None => None
    case Some((flags, rest)) =>
      if flags % 2 == 0 then
        if flags / 2 < |r.objects| then Some(Got(r.objects[flags / 2], r, rest)) else None
      else if flags % 8 == 7 then None
      else ReadNewObject(r, rest, into, flags)
  }

  /** An object that is not a reference: its place in the table is taken before its members are read. */
  function ReadNewObject(r: Reader, s: Str, into: Variant, flags: nat): (g: Option<Got<Variant>>)
    ensures g.Some? ==> |g.value.rest| <= |s| && Extends(r, g.value.r)
    decreases |s|, 4
  {
    match ReadTraits(r.(objects := r.objects + [Null]), s, flags)
    case None => None
    case Some(t) =>
      match ReadSealed(t.r, t.rest, into, t.v.names)
      case None => None
      case Some(g) =>
        var d := if t.v.isDynamic then ReadPairs(g.r, g.rest, g.v) else Some(g);
        match d
        case None => None
        case Some(h) =>
          Some(h.(r := h.r.(objects := h.r.objects[|r.objects| := h.v])))
  }

  // ----- the round trip

  /** What a value comes back as: integers as unsigned, undefined and empty objects as null. */
  function Norm(v: Variant): Variant
    decreases v, 1, 0
  {
    match v
    case Undefined => Null
    case Integer(n) => Integer(U32(n))
    case Map(isArray, c) => if !isArray && c == [] then Null else Map(isArray, NormChildren(v, 0))
    case _ => v
  }

  function NormChildren(v: Variant, i: nat): (c: Children)
    requires v.Map? && i <= |v.children|
    ensures |c| == |v.children| - i
    ensures forall j | 0 <= j < |c| :: c[j].0 == v.children[i + j].0
    decreases v, 0, |v.children| - i
  {
    if i == |v.children| then []
    else [(v.children[i].0, Norm(v.children[i].1))] + NormChildren(v, i + 1)
  }

  const LIMIT := 0x1000_0000

  /** The values the round trip is promised for: strings, byte arrays, keys and arrays shorter than 2^28,
      integers below 2^29, children sorted as a map's are, and no key that reads as the empty one. */
  ghost predicate Plain(v: Variant)
    decreases v
  {
    match v
    case Integer(n) => U32(n) < 0x2000_0000
    case Double(octets) => |octets| == 8
    case String(s) => |s| < LIMIT
    case ByteArray(s) => |s| < LIMIT
    case Map(_, c) =>
      && Sorted(c) && DenseSize(c) < LIMIT
      && forall i | 0 <= i < |c| :: |c[i].0| < LIMIT && !EndKey(c[i].0) && Plain(c[i].1)
    case _ => true
  }

  lemma PlainParts(v: Variant)
    requires Plain(v) && v.Map?
    ensures Sorted(v.children) && DenseSize(v.children) < LIMIT
    ensures forall i | 0 <= i < |v.children| ::
              |v.children[i].0| < LIMIT && !EndKey(v.children[i].0) && Plain(v.children[i].1)
  {
  }

  function StringRead(r: Reader, s: Str): Reader {
    if s == [] then r else r.(strings := r.strings + [s])
  }

  lemma LengthField(n: nat)
    requires n < LIMIT
    ensures U32(2 * n + 1) == 2 * n + 1 && (2 * n + 1) % 2 == 1 && (2 * n + 1) / 2 == n && U32(n) == n
  {
  }

  lemma WriteStringIs(s: Str)
    requires |s| < LIMIT
    ensures WriteU29(2 * |s| + 1).Some? && WriteString(s) == Some(WriteU29(2 * |s| + 1).value + s)
  {
    LengthField(|s|);
    hide WriteU29, U32;
    assert s[..|s|] == s;
  }

  /** The length field, and what follows it. */
  lemma StringHeader(s: Str, suffix: Str)
    requires |s| < LIMIT
    ensures WriteString(s).Some? && ReadU29(WriteString(s).value + suffix) == Some((2 * |s| + 1, s + suffix))
    ensures (s + suffix)[..|s|] == s && (s + suffix)[|s|..] == suffix
  {
    WriteStringIs(s);
    hide WriteU29, ReadU29, WriteString;
    var w := WriteU29(2 * |s| + 1).value;
    assert (w + s) + suffix == w + (s + suffix);
    U29RoundTrip(2 * |s| + 1, s + suffix);
  }

  lemma StringRoundTrip(r: Reader, s: Str, suffix: Str)
    requires |s| < LIMIT
    ensures WriteString(s).Some?
    ensures ReadString(r, WriteString(s).value + suffix) == Some(Got(s, StringRead(r, s), suffix))
  {
    hide ReadU29, WriteString;
    StringHeader(s, suffix);
    LengthField(|s|);
    assert s == [] ==> s + suffix == suffix;
  }

  /** A map as it builds up while it is read. */
  function Wrap(cs: Children): Variant {
    if cs == [] then Null else Map(false, cs)
  }

  /** What is read in the end is the normal form. */
  lemma WrapWhole(v: Variant)
    requires v.Map?
    ensures Wrap([]) == Null
    ensures v.isArray ==> AsArray(Wrap(NormChildren(v, 0))) == Norm(v)
    ensures !v.isArray ==> Wrap(NormChildren(v, 0)) == Norm(v)
  {
  }

  lemma NoneDense(c: Children)
    ensures Filter(c, k => !Dense(k, 0)) == c
  {
    FilterAll(c, k => !Dense(k, 0));
  }

  lemma WrapPut(cs: Children, k: Str, v: Variant)
    ensures Subscriptable(Wrap(cs)) && Child(Wrap(cs), k) == Get(cs, k) &&
            PutChild(Wrap(cs), k, v) == Wrap(Put(cs, k, v))
  {
  }

  /** What ReadPairs adds for what WritePairs wrote. */
  function PairsOf(v: Variant, i: nat, n: nat): Children
    requires v.Map? && i <= |v.children|
    decreases |v.children| - i
  {
    if i == |v.children| then []
    else if Dense(v.children[i].0, n) then PairsOf(v, i + 1, n)
    else [(v.children[i].0, Norm(v.children[i].1))] + PairsOf(v, i + 1, n)
  }

  lemma {:induction false} PairsAreFiltered(v: Variant, i: nat, n: nat)
    requires v.Map? && i <= |v.children|
    ensures PairsOf(v, i, n) == Filter(NormChildren(v, i), k => !Dense(k, n))
    decreases |v.children| - i
  {
    if i < |v.children| {
      PairsAreFiltered(v, i + 1, n);
      assert NormChildren(v, i)[1..] == NormChildren(v, i + 1);
    }
  }

  /** The value comes back normalised, whatever follows it. */
  ghost predicate Returns(g: Option<Got<Variant>>, v: Variant, rest: Str) {
    g.Some? && g.value.v == v && g.value.rest == rest
  }

  /** One key and its value. */
  lemma ReadPair(r: Reader, k: Str, v: Variant, w: Str, s: Str, cs: Children)
    requires |k| < LIMIT && !EndKey(k) && WriteString(k).Some?
    requires Get(cs, k) == Null
    requires Returns(Read(StringRead(r, k), w + s, Null), v, s)
    ensures
      var r' := Read(StringRead(r, k), w + s, Null).value.r;
      ReadPairs(r, WriteString(k).value + (w + s), Wrap(cs)) == ReadPairs(r', s, Wrap(Put(cs, k, v)))
  {
    hide Read, EndKey, Put, Get, Wrap, Child, PutChild, Subscriptable, ReadString, WriteString, StringRead;
    StringRoundTrip(r, k, w + s);
    WrapPut(cs, k, v);
  }

  lemma ReadEnd(r: Reader, s: Str, v: Variant)
    ensures WriteString([]).Some? && Returns(ReadPairs(r, WriteString([]).value + s, v), v, s)
  {
    StringRoundTrip(r, [], s);
  }

  lemma WritePairIs(v: Variant, i: nat, n: nat, s: Str)
    requires v.Map? && i < |v.children| && !Dense(v.children[i].0, n)
    requires WriteString(v.children[i].0).Some? && Write(v.children[i].1).Some? && WritePairs(v, i + 1, n).Some?
    ensures WritePairs(v, i, n).Some?
    ensures WritePairs(v, i, n).value + s ==
            WriteString(v.children[i].0).value + (Write(v.children[i].1).value + (WritePairs(v, i + 1, n).value + s))
  {
    hide Write, WriteString, Dense;
  }

  lemma {:induction false} PairsRoundTrip(r: Reader, v: Variant, i: nat, n: nat, cs: Children, s: Str)
    requires Plain(v) && v.Map? && i <= |v.children|
    requires forall a, b | 0 <= a < |cs| && i <= b < |v.children| :: Less(cs[a].0, v.children[b].0)
    ensures WritePairs(v, i, n).Some?
    ensures Returns(ReadPairs(r, WritePairs(v, i, n).value + ([1] + s), Wrap(cs)), Wrap(cs + PairsOf(v, i, n)), s)
    decreases v, 0, |v.children| - i
  {
    hide Plain, Norm, Read, ReadPairs, Write, WriteString, EndKey, Less, Put, Get, Dense, Wrap, ReadString, WriteU29,
         Sorted;
    EmptyString();
    PlainParts(v);
    if i == |v.children| {
      ReadEnd(r, s, Wrap(cs));
      assert cs + [] == cs && [] + ([1] + s) == [1] + s;
    } else if Dense(v.children[i].0, n) {
      PairsRoundTrip(r, v, i + 1, n, cs, s);
    } else {
      var (k, u) := v.children[i];
      StringRoundTrip(r, k, []);
      PutLast(cs, k, Norm(u));
      var cs' := cs + [(k, Norm(u))];
      KeysBelow(v, i, cs, cs');
      PairsRoundTrip(r, v, i + 1, n, cs', s);
      var more := WritePairs(v, i + 1, n).value + ([1] + s);
      RoundTrip(StringRead(r, k), u, more);
      WritePairIs(v, i, n, [1] + s);
      var uw := Write(u).value;
      ReadPair(r, k, Norm(u), uw, more, cs);
      PairsRoundTrip(Read(StringRead(r, k), uw + more, Null).value.r, v, i + 1, n, cs', s);
      assert cs' + PairsOf(v, i + 1, n) == cs + PairsOf(v, i, n);
    }
  }

  lemma KeysBelow(v: Variant, i: nat, cs: Children, cs': Children)
    requires v.Map? && i < |v.children| && Sorted(v.children)
    requires forall a, b | 0 <= a < |cs| && i <= b < |v.children| :: Less(cs[a].0, v.children[b].0)
    requires |cs'| == |cs| + 1 && cs'[..|cs|] == cs && cs'[|cs|].0 == v.children[i].0
    ensures forall a, b | 0 <= a < |cs'| && i + 1 <= b < |v.children| :: Less(cs'[a].0, v.children[b].0)
  {
    forall a, b | 0 <= a < |cs'| && i + 1 <= b < |v.children|
      ensures Less(cs'[a].0, v.children[b].0)
    {
      assert a < |cs| ==> cs'[a] == cs'[..|cs|][a] == cs[a];
    }
  }

  /** The children that are there before element i is read. */
  function Before(n: nat, i: nat): Str -> bool {
    k => !Dense(k, n) || Dense(k, i)
  }

  lemma BeforeNext(c: Children, n: nat, i: nat, j: nat)
    requires Sorted(c) && i < n && j < |c| && c[j].0 == IndexKey(i)
    ensures !Before(n, i)(c[j].0)
    ensures forall l | 0 <= l < |c| :: Before(n, i + 1)(c[l].0) == (Before(n, i)(c[l].0) || l == j)
  {
    DenseIs(c[j].0, n);
    forall m: nat | m < i
      ensures IndexKey(m) != IndexKey(i)
    {
      if IndexKey(m) == IndexKey(i) {
        IndexKeyInjective(m, i);
      }
    }
    DenseIs(c[j].0, i);
    forall l | 0 <= l < |c|
      ensures Before(n, i + 1)(c[l].0) == (Before(n, i)(c[l].0) || l == j)
    {
      if l < j {
        LessTotal(c[l].0, c[j].0);
      } else if j < l {
        LessTotal(c[j].0, c[l].0);
      }
    }
  }

  /** The children read when element i is next. */
  function Partly(v: Variant, n: nat, i: nat): Children
    requires v.Map?
  {
    Filter(NormChildren(v, 0), Before(n, i))
  }

  lemma PartlyPut(v: Variant, n: nat, i: nat)
    requires v.Map? && Sorted(v.children) && i < n && HasKey(v.children, IndexKey(i))
    ensures
      var u := v.children[IndexOf(v.children, IndexKey(i))].1;
      && Subscriptable(Wrap(Partly(v, n, i))) && Child(Wrap(Partly(v, n, i)), IndexKey(i)) == Null
      && PutChild(Wrap(Partly(v, n, i)), IndexKey(i), Norm(u)) == Wrap(Partly(v, n, i + 1))
  {
    hide Less, Put, Get, Dense, IndexKey, HasKey, Filter, Before, Norm;
    var c, j := NormChildren(v, 0), IndexOf(v.children, IndexKey(i));
    NormSorted(v);
    NormAt(v, j);
    BeforeNext(c, n, i, j);
    FilterPut(c, Before(n, i), Before(n, i + 1), j);
    WrapPut(Filter(c, Before(n, i)), IndexKey(i), Norm(v.children[j].1));
  }

  lemma WriteElementIs(v: Variant, i: nat, n: nat, s: Str)
    requires v.Map? && i < n && forall j: nat | j < n :: HasKey(v.children, IndexKey(j))
    requires Write(v.children[IndexOf(v.children, IndexKey(i))].1).Some? && WriteElements(v, i + 1, n).Some?
    ensures WriteElements(v, i, n).Some?
    ensures WriteElements(v, i, n).value + s ==
            Write(v.children[IndexOf(v.children, IndexKey(i))].1).value + (WriteElements(v, i + 1, n).value + s)
  {
    hide Write, IndexKey, HasKey;
  }

  lemma ReadElement(r: Reader, s: Str, v: Variant, i: nat, n: nat, u: Variant, rest: Str)
    requires i < n && Subscriptable(v) && Child(v, IndexKey(i)) == Null
    requires Returns(Read(r, s, Null), u, rest)
    ensures Read(r, s, Null).Some?
    ensures ReadElements(r, s, v, i, n) ==
            ReadElements(Read(r, s, Null).value.r, rest, PutChild(v, IndexKey(i), u), i + 1, n)
  {
    hide Read, IndexKey;
  }

  /** The element under IndexKey(i). */
  function ElementAt(v: Variant, i: nat): Variant
    requires v.Map? && HasKey(v.children, IndexKey(i))
  {
    v.children[IndexOf(v.children, IndexKey(i))].1
  }

  lemma ElementPlain(v: Variant, i: nat)
    requires Plain(v) && v.Map? && HasKey(v.children, IndexKey(i))
    ensures Plain(ElementAt(v, i)) && ElementAt(v, i) < v
  {
    hide IndexKey, HasKey;
  }

  /** Writing and reading element i, with all that follows. */
  lemma ElementStep(r: Reader, v: Variant, i: nat, n: nat, s: Str, more: Str)
    requires Plain(v) && v.Map? && i < n && forall j: nat | j < n :: HasKey(v.children, IndexKey(j))
    requires WriteElements(v, i + 1, n).Some? && more == WriteElements(v, i + 1, n).value + s
    requires Write(ElementAt(v, i)).Some?
    requires Returns(Read(r, Write(ElementAt(v, i)).value + more, Null), Norm(ElementAt(v, i)), more)
    ensures WriteElements(v, i, n).Some? && Read(r, Write(ElementAt(v, i)).value + more, Null).Some?
    ensures
      var r' := Read(r, Write(ElementAt(v, i)).value + more, Null).value.r;
      ReadElements(r, WriteElements(v, i, n).value + s, Wrap(Partly(v, n, i)), i, n)
      == ReadElements(r', more, Wrap(Partly(v, n, i + 1)), i + 1, n)
  {
    PlainParts(v);
    hide Plain, Read, Write, Less, Put, Get, Dense, IndexKey, HasKey, Filter, Before, Norm, Sorted, ReadElements,
         WriteElements, Partly, Wrap, Child, PutChild, Subscriptable, Returns;
    PartlyPut(v, n, i);
    WriteElementIs(v, i, n, s);
    ReadElement(r, Write(ElementAt(v, i)).value + more, Wrap(Partly(v, n, i)), i, n, Norm(ElementAt(v, i)), more);
  }

  lemma ElementsEnd(r: Reader, v: Variant, n: nat, s: Str)
    requires v.Map? && forall j: nat | j < n :: HasKey(v.children, IndexKey(j))
    ensures WriteElements(v, n, n).Some?
    ensures Returns(ReadElements(r, WriteElements(v, n, n).value + s, Wrap(Partly(v, n, n)), n, n),
            Wrap(Partly(v, n, n)), s)
  {
    hide Partly, Wrap;
    assert [] + s == s;
  }

  lemma {:induction false} ElementsRoundTrip(r: Reader, v: Variant, i: nat, n: nat, s: Str)
    requires Plain(v) && v.Map? && i <= n && forall j: nat | j < n :: HasKey(v.children, IndexKey(j))
    ensures WriteElements(v, i, n).Some?
    ensures Returns(ReadElements(r, WriteElements(v, i, n).value + s, Wrap(Partly(v, n, i)), i, n),
            Wrap(Partly(v, n, n)), s)
    decreases v, 0, n - i
  {
    hide *;
    if i == n {
      ElementsEnd(r, v, n, s);
    } else {
      ElementPlain(v, i);
      ElementsRoundTrip(r, v, i + 1, n, s);
      var more := WriteElements(v, i + 1, n).value + s;
      RoundTrip(r, ElementAt(v, i), more);
      ElementStep(r, v, i, n, s, more);
      ElementsRoundTrip(Read(r, Write(ElementAt(v, i)).value + more, Null).value.r, v, i + 1, n, s);
    }
  }

  lemma NormSorted(v: Variant)
    requires v.Map? && Sorted(v.children)
    ensures Sorted(NormChildren(v, 0))
  {
  }

  lemma {:induction false} NormAt(v: Variant, j: nat)
    requires v.Map? && j < |v.children|
    ensures NormChildren(v, 0)[j] == (v.children[j].0, Norm(v.children[j].1))
  {
    NormFrom(v, 0, j);
  }

  lemma {:induction false} NormFrom(v: Variant, i: nat, j: nat)
    requires v.Map? && i <= j < |v.children|
    ensures NormChildren(v, i)[j - i] == (v.children[j].0, Norm(v.children[j].1))
    decreases j - i
  {
    if i < j {
      NormFrom(v, i + 1, j);
    }
  }

  lemma EmptyString()
    ensures WriteString([]) == Some([1])
  {
    WriteStringIs([]);
    var w := WriteU29(1).value;
    assert w == [1] && w + [] == w;
  }

  /** The parts of a written array. */
  lemma WriteArrayIs(v: Variant, s: Str)
    requires v.Map? && v.isArray && DenseSize(v.children) < LIMIT
    requires WritePairs(v, 0, DenseSize(v.children)).Some? && WriteElements(v, 0, DenseSize(v.children)).Some?
    ensures
      var n := DenseSize(v.children);
      && Write(v).Some? && WriteU29(2 * n + 1).Some?
      && Write(v).value + s ==
         [AMF3_ARRAY] + (WriteU29(2 * n + 1).value +
             (WritePairs(v, 0, n).value + ([1] + (WriteElements(v, 0, n).value + s))))
  {
    var n := DenseSize(v.children);
    EmptyString();
    LengthField(n);
    hide WriteU29, WritePairs, WriteElements, WriteString, DenseSize, U32;
    var u, pw, ew := WriteU29(2 * n + 1).value, WritePairs(v, 0, n).value, WriteElements(v, 0, n).value;
    assert Write(v) == Some([AMF3_ARRAY] + (u + (pw + ([1] + ew))));
    Regroup([AMF3_ARRAY], u, pw, [1], ew, s);
  }

  lemma Regroup(a: Str, b: Str, c: Str, d: Str, e: Str, s: Str)
    ensures (a + (b + (c + (d + e)))) + s == a + (b + (c + (d + (e + s))))
  {
  }

  lemma ArrayRoundTrip(r: Reader, v: Variant, s: Str)
    requires Plain(v) && v.Map? && v.isArray
    ensures Write(v).Some? && Returns(Read(r, Write(v).value + s, Null), Norm(v), s)
    decreases v, 0, |v.children| + 1
  {
    hide Plain, Norm, Read, ReadPairs, ReadElements, ReadArray, Less, Dense, IndexKey, HasKey, Filter, DenseSize,
         WriteString, Write, ReadU29, WriteU29, WritePairs, WriteElements, PairsOf, NormChildren, Before, Wrap,
         AsArray;
    var n, c := DenseSize(v.children), NormChildren(v, 0);
    PlainParts(v);
    WrapWhole(v);
    PairsRoundTrip(r, v, 0, n, [], []);
    ElementsRoundTrip(r, v, 0, n, s);
    WriteArrayIs(v, s);
    var u, pw, ew := WriteU29(2 * n + 1).value, WritePairs(v, 0, n).value, WriteElements(v, 0, n).value;
    var t := pw + ([1] + (ew + s));
    U29RoundTrip(2 * n + 1, t);
    PairsRoundTrip(r, v, 0, n, [], ew + s);
    PairsAreFiltered(v, 0, n);
    FilterBefore(c, n);
    assert [] + PairsOf(v, 0, n) == PairsOf(v, 0, n);
    var g := ReadPairs(r, t, Null).value;
    ElementsRoundTrip(g.r, v, 0, n, s);
    ReadArrayParts(r, n, t, u);
    ReadTyped(r, AMF3_ARRAY, u + t);
  }

  lemma FilterBefore(c: Children, n: nat)
    ensures Filter(c, k => !Dense(k, n)) == Filter(c, Before(n, 0))
    ensures Filter(c, Before(n, n)) == c
  {
    FilterSame(c, k => !Dense(k, n), Before(n, 0));
    FilterAll(c, Before(n, n));
  }

  lemma ReadTyped(r: Reader, t: byte, s: Str)
    requires t == AMF3_ARRAY || t == AMF3_OBJECT
    ensures Read(r, [t] + s, Null) == if t == AMF3_ARRAY then ReadArray(r, s, Null) else ReadObject(r, s, Null)
  {
    assert ([t] + s)[1..] == s;
  }

  lemma ReadArrayParts(r: Reader, n: nat, t: Str, u: Str)
    requires ReadU29(u + t) == Some((2 * n + 1, t))
    requires ReadPairs(r, t, Null).Some?
    requires var g := ReadPairs(r, t, Null).value; ReadElements(g.r, g.rest, g.v, 0, n).Some?
    ensures
      var g := ReadPairs(r, t, Null).value;
      var h := ReadElements(g.r, g.rest, g.v, 0, n).value;
      Returns(ReadArray(r, u + t, Null), AsArray(h.v), h.rest)
  {
    hide ReadU29, ReadPairs, ReadElements;
    assert (2 * n + 1) % 2 == 1 && (2 * n + 1) / 2 == n;
  }

  lemma WriteObjectIs(v: Variant, s: Str)
    requires v.Map? && !v.isArray && WritePairs(v, 0, 0).Some?
    ensures Write(v).Some? && Write(v).value + s ==
            [AMF3_OBJECT] + ([0x0b] + ([1] + (WritePairs(v, 0, 0).value + ([1] + s))))
  {
    EmptyString();
    assert WriteU29(0x0b) == Some([0x0b]);
    hide WriteU29, WritePairs, WriteString;
    var pw := WritePairs(v, 0, 0).value;
    assert Write(v) == Some([AMF3_OBJECT] + ([0x0b] + ([1] + (pw + [1]))));
    Regroup([AMF3_OBJECT], [0x0b], [1], pw, [1], s);
  }

  lemma ObjectRoundTrip(r: Reader, v: Variant, s: Str)
    requires Plain(v) && v.Map? && !v.isArray
    ensures Write(v).Some? && Returns(Read(r, Write(v).value + s, Null), Norm(v), s)
    decreases v, 0, |v.children| + 1
  {
    hide Plain, Norm, Read, ReadPairs, ReadObject, Less, Filter, WriteString, Write, ReadU29, WritePairs, PairsOf,
         NormChildren, ReadString, Wrap, Dense;
    var c := NormChildren(v, 0);
    EmptyString();
    WrapWhole(v);
    var r1 := r.(objects := r.objects + [Null]);
    var r2 := r1.(traits := r1.traits + [Traits(true, [])]);
    PairsRoundTrip(r2, v, 0, 0, [], s);
    WriteObjectIs(v, s);
    var body := WritePairs(v, 0, 0).value + ([1] + s);
    U29RoundTrip(0x0b, [1] + body);
    StringRoundTrip(r1, [], body);
    PairsAreFiltered(v, 0, 0);
    NoneDense(c);
    assert [] + PairsOf(v, 0, 0) == c;
    ReadObjectParts(r, [0x0b], [1], body);
    ReadTyped(r, AMF3_OBJECT, [0x0b] + ([1] + body));
  }

  lemma ReadObjectParts(r: Reader, u: Str, end: Str, body: Str)
    requires ReadU29(u + (end + body)) == Some((0x0b, end + body))
    requires
      var r1 := r.(objects := r.objects + [Null]);
      ReadString(r1, end + body) == Some(Got([], r1, body))
    requires
      var r1 := r.(objects := r.objects + [Null]);
      ReadPairs(r1.(traits := r1.traits + [Traits(true, [])]), body, Null).Some?
    ensures
      var r1 := r.(objects := r.objects + [Null]);
      var h := ReadPairs(r1.(traits := r1.traits + [Traits(true, [])]), body, Null).value;
      Returns(ReadObject(r, u + (end + body), Null), h.v, h.rest)
  {
    hide ReadPairs, ReadString, ReadU29;
    var r1 := r.(objects := r.objects + [Null]);
    assert ReadNames(r1, body, 0) == Some(Got([], r1, body));
    var r2 := r1.(traits := r1.traits + [Traits(true, [])]);
    assert ReadTraits(r1, end + body, 0x0b) == Some(Got(Traits(true, []), r2, body));
    assert ReadSealed(r2, body, Null, []) == Some(Got(Null, r2, body));
  }

  /** Round trip: reading what was written, followed by anything, gives the value back and leaves the
      rest untouched, whatever the reference tables already hold. */
  lemma RoundTrip(r: Reader, v: Variant, s: Str)
    requires Plain(v)
    ensures Write(v).Some? && Returns(Read(r, Write(v).value + s, Null), Norm(v), s)
    decreases v, 1, 0
  {
    if v.Map? {
      if v.isArray {
        ArrayRoundTrip(r, v, s);
      } else {
        ObjectRoundTrip(r, v, s);
      }
    } else {
      ScalarRoundTrip(r, v, s);
    }
  }

  lemma ScalarRoundTrip(r: Reader, v: Variant, s: Str)
    requires Plain(v) && !v.Map?
    ensures Write(v).Some? && Returns(Read(r, Write(v).value + s, Null), Norm(v), s)
  {
    hide ReadArray, ReadObject, ReadString, WriteString, ReadByteArray, ReadU29, WriteU29, U32;
    match v
    case Integer(n) =>
      var w := WriteU29(U32(n)).value;
      U29RoundTrip(U32(n), s);
      assert Write(v).value + s == [AMF3_INTEGER] + (w + s);
    case Double(octets) =>
      assert (Write(v).value + s)[1..] == octets + s;
    case String(str) =>
      StringRoundTrip(r, str, s);
      assert Write(v).value + s == [AMF3_STRING] + (WriteString(str).value + s);
    case ByteArray(str) =>
      BytesRoundTrip(r, str, s);
      assert Write(v).value + s == [AMF3_BYTEARRAY] + (WriteString(str).value + s);
    case Null =>
      assert (Write(v).value + s)[1..] == s;
    case Undefined =>
      assert (Write(v).value + s)[1..] == s;
    case Bool(_) =>
      assert (Write(v).value + s)[1..] == s;
  }

  lemma BytesRoundTrip(r: Reader, s: Str, suffix: Str)
    requires |s| < LIMIT
    ensures WriteString(s).Some? && Returns(ReadByteArray(r, WriteString(s).value + suffix), ByteArray(s), suffix)
  {
    hide ReadU29, WriteString;
    StringHeader(s, suffix);
    LengthField(|s|);
    assert s == [] ==> s + suffix == suffix;
  }

  // ----- keys that end the list

  /** An array or object whose values are all plain and whose keys are short, whatever the keys are. */
  ghost predicate PlainValues(v: Variant) {
    && v.Map? && Sorted(v.children) && DenseSize(v.children) < LIMIT
    && forall i | 0 <= i < |v.children| :: |v.children[i].0| < LIMIT && Plain(v.children[i].1)
  }

  lemma {:induction false} PairsWritten(v: Variant, i: nat, n: nat)
    requires PlainValues(v) && i <= |v.children|
    ensures WritePairs(v, i, n).Some?
    decreases |v.children| - i
  {
    hide Write, WriteString, Plain, Dense, Sorted, DenseSize;
    if i < |v.children| {
      RoundTrip(Reader([], [], [], []), v.children[i].1, []);
      WriteStringIs(v.children[i].0);
      PairsWritten(v, i + 1, n);
    }
  }

  lemma {:induction false} ElementsWritten(v: Variant, i: nat, n: nat)
    requires PlainValues(v) && i <= n && forall j: nat | j < n :: HasKey(v.children, IndexKey(j))
    ensures WriteElements(v, i, n).Some?
    decreases n - i
  {
    hide Write, WriteString, Plain, Dense, Sorted, DenseSize;
    if i < n {
      RoundTrip(Reader([], [], [], []), v.children[IndexOf(v.children, IndexKey(i))].1, []);
      ElementsWritten(v, i + 1, n);
    }
  }

  /** The keys that read as empty come first in a map. */
  lemma EndKeysFirst(c: Children, i: nat)
    requires Sorted(c) && i < |c| && EndKey(c[i].0)
    ensures EndKey(c[0].0)
  {
    if i > 0 {
      assert Less(c[0].0, c[i].0);
    }
  }

  /** An object with an empty key, or one that starts with a NUL, comes back as null, and its bytes are
      left in the buffer. */
  lemma EndKeyCuts(r: Reader, v: Variant, s: Str)
    requires PlainValues(v) && !v.isArray && v.children != [] && EndKey(v.children[0].0)
    ensures Write(v).Some?
    ensures
      var g := Read(r, Write(v).value + s, Null);
      g.Some? && g.value.v == Null && |g.value.rest| > |s|
  {
    hide Plain, Write, WritePairs, WriteString, WriteU29, ReadU29, ReadString, Read, ReadObject, Less, Sorted,
         DenseSize, Dense, ReadPairs, Norm;
    var (k, u) := v.children[0];
    PairsWritten(v, 0, 0);
    PairsWritten(v, 1, 0);
    RoundTrip(r, u, []);
    WriteStringIs(k);
    assert !Dense(k, 0) by {
      NotDense(k);
    }
    WriteObjectIs(v, s);
    var body := WritePairs(v, 0, 0).value + ([1] + s);
    var rest := Write(u).value + (WritePairs(v, 1, 0).value + ([1] + s));
    WritePairIs(v, 0, 0, [1] + s);
    var r1 := r.(objects := r.objects + [Null]);
    var r2 := r1.(traits := r1.traits + [Traits(true, [])]);
    StringRoundTrip(r2, k, rest);
    ReadStops(r2, body, k, StringRead(r2, k), rest);
    U29RoundTrip(0x0b, [1] + body);
    ElevenIs();
    EmptyString();
    StringRoundTrip(r1, [], body);
    ReadObjectParts(r, [0x0b], [1], body);
    ReadTyped(r, AMF3_OBJECT, [0x0b] + ([1] + body));
  }

  lemma NotDense(k: Str)
    ensures !Dense(k, 0)
  {
  }

  lemma ReadStops(r: Reader, s: Str, k: Str, r': Reader, rest: Str)
    requires ReadString(r, s) == Some(Got(k, r', rest)) && EndKey(k)
    ensures ReadPairs(r, s, Null) == Some(Got(Null, r', rest))
  {
  }

  lemma ElevenIs()
    ensures WriteU29(0x0b) == Some([0x0b])
  {
  }

  // ----- the same for arrays

  /** No key of v itself reads as the empty one. */
  ghost predicate Readable(v: Variant) {
    v.Map? ==> forall i | 0 <= i < |v.children| :: !EndKey(v.children[i].0)
  }

  lemma {:induction false} PutKeys(c: Children, k: Str, v: Variant)
    ensures forall i | 0 <= i < |Put(c, k, v)| :: Put(c, k, v)[i].0 == k || exists j ::
            0 <= j < |c| && c[j].0 == Put(c, k, v)[i].0
  {
    if c != [] {
      var put, rest := Put(c, k, v), Put(c[1..], k, v);
      PutKeys(c[1..], k, v);
      forall i | 0 <= i < |put| && put[i].0 != k
        ensures exists j :: 0 <= j < |c| && c[j].0 == put[i].0
      {
        if put == [c[0]] + rest && i > 0 {
          var j :| 0 <= j < |c[1..]| && c[1..][j].0 == rest[i - 1].0;
          assert c[j + 1].0 == put[i].0;
        } else if put == [(k, v)] + c {
          assert c[i - 1].0 == put[i].0;
        } else {
          assert c[i].0 == put[i].0;
        }
      }
    }
  }

  lemma PutChildReadable(v: Variant, k: Str, child: Variant)
    requires Readable(v) && !EndKey(k)
    ensures Readable(PutChild(v, k, child))
  {
    if v.Map? {
      PutKeys(v.children, k, child);
    }
  }

  /** Reading elements adds only keys of elements. */
  lemma {:induction false} ElementsReadable(r: Reader, s: Str, v: Variant, i: nat, n: nat)
    requires Readable(v)
    ensures ReadElements(r, s, v, i, n).Some? ==> Readable(ReadElements(r, s, v, i, n).value.v)
    decreases n - i
  {
    hide Read, Readable, PutChild, Child, Subscriptable;
    if i < n && Subscriptable(v) && Read(r, s, Child(v, IndexKey(i))).Some? {
      var g := Read(r, s, Child(v, IndexKey(i))).value;
      PutChildReadable(v, IndexKey(i), g.v);
      ElementsReadable(g.r, g.rest, PutChild(v, IndexKey(i), g.v), i + 1, n);
    }
  }

  lemma {:induction false} EndKeyNotDense(k: Str, n: nat)
    requires EndKey(k)
    ensures !Dense(k, n)
  {
    if n > 0 {
      EndKeyNotDense(k, n - 1);
    }
  }

  /** An array with an empty key, or one that starts with a NUL: its associative part ends there, and what
      comes back, if anything, has no such key.  Without elements it is the empty array, with bytes left
      over. */
  lemma EndKeyCutsArray(r: Reader, v: Variant, s: Str)
    requires PlainValues(v) && v.isArray && v.children != [] && EndKey(v.children[0].0)
    ensures Write(v).Some?
    ensures
      var g := Read(r, Write(v).value + s, Null);
      && (g.Some? ==> Readable(g.value.v) && g.value.v != Norm(v))
      && (DenseSize(v.children) == 0 ==> g.Some? && g.value.v == Map(true, []) && |g.value.rest| > |s|)
  {
    hide Plain, Write, WritePairs, WriteElements, WriteString, WriteU29, ReadU29, ReadString, Read, ReadArray, Less,
         Sorted, DenseSize, Dense, ReadPairs, ReadElements, Norm, Readable, IndexKey, HasKey, EndKey, AsArray,
         NormChildren;
    var n, k, u := DenseSize(v.children), v.children[0].0, v.children[0].1;
    PairsWritten(v, 0, n);
    PairsWritten(v, 1, n);
    ElementsWritten(v, 0, n);
    RoundTrip(r, u, []);
    WriteStringIs(k);
    EndKeyNotDense(k, n);
    WriteArrayIs(v, s);
    var more := [1] + (WriteElements(v, 0, n).value + s);
    var body, rest := WritePairs(v, 0, n).value + more, Write(u).value + (WritePairs(v, 1, n).value + more);
    WritePairIs(v, 0, n, more);
    StringRoundTrip(r, k, rest);
    ReadStops(r, body, k, StringRead(r, k), rest);
    U29RoundTrip(2 * n + 1, body);
    ReadTyped(r, AMF3_ARRAY, WriteU29(2 * n + 1).value + body);
    CutArray(StringRead(r, k), rest, v, n);
    ReadArrayStops(r, n, body, WriteU29(2 * n + 1).value);
  }

  /** The elements that are read from where the associative part was cut. */
  lemma CutArray(r: Reader, s: Str, v: Variant, n: nat)
    requires v.Map? && v.children != [] && EndKey(v.children[0].0)
    ensures
      var g := ReadElements(r, s, Null, 0, n);
      && (g.Some? ==> Readable(AsArray(g.value.v)) && AsArray(g.value.v) != Norm(v))
      && (n == 0 ==> g == Some(Got(Null, r, s)) && AsArray(Null) == Map(true, []))
  {
    hide ReadElements, EndKey, Norm, NormChildren;
    assert Readable(Null);
    ElementsReadable(r, s, Null, 0, n);
    NoElements(r, s);
    NormKey(v);
  }

  lemma NoElements(r: Reader, s: Str)
    ensures ReadElements(r, s, Null, 0, 0) == Some(Got(Null, r, s))
  {
  }

  lemma NormKey(v: Variant)
    requires v.Map? && v.children != [] && EndKey(v.children[0].0)
    ensures !Readable(Norm(v))
  {
    assert NormChildren(v, 0)[0].0 == v.children[0].0;
  }

  lemma ReadArrayStops(r: Reader, n: nat, t: Str, u: Str)
    requires ReadU29(u + t) == Some((2 * n + 1, t)) && ReadPairs(r, t, Null).Some?
    ensures
      var g := ReadPairs(r, t, Null).value;
      var h := ReadElements(g.r, g.rest, g.v, 0, n);
      var a := ReadArray(r, u + t, Null);
      a.Some? == h.Some? && (h.Some? ==> Returns(a, AsArray(h.value.v), h.value.rest))
  {
    hide ReadU29, ReadPairs, ReadElements;
    assert (2 * n + 1) % 2 == 1 && (2 * n + 1) / 2 == n;
  }

  /** Exactly when an array or object of plain values comes back: when none of its keys is empty or starts
      with a NUL. */
  lemma ComesBackExactly(r: Reader, v: Variant, s: Str)
    requires PlainValues(v)
    ensures Write(v).Some?
    ensures Returns(Read(r, Write(v).value + s, Null), Norm(v), s) <==>
            forall i | 0 <= i < |v.children| :: v.children[i].0 != [] && v.children[i].0[0] != 0
  {
    if i :| 0 <= i < |v.children| && EndKey(v.children[i].0) {
      EndKeysFirst(v.children, i);
      if v.isArray {
        EndKeyCutsArray(r, v, s);
      } else {
        EndKeyCuts(r, v, s);
      }
    } else {
      RoundTrip(r, v, s);
    }
  }

  // ----- references to byte arrays

  /** A byte array comes back as one exactly if it is there itself; by reference it comes back as a string. */
  lemma ByteArrayOrString(r: Reader, s: Str)
    requires ReadByteArray(r, s).Some?
    ensures ReadU29(s).Some?
    ensures ReadByteArray(r, s).value.v.ByteArray? <==> ReadU29(s).value.0 % 2 == 1
    ensures ReadByteArray(r, s).value.v.String? <==> ReadU29(s).value.0 % 2 == 0
  {
    hide ReadU29;
  }

  /** A byte array that was read, and read again by reference: the same octets, as a string. */
  lemma ByteArrayAgain(r: Reader, s: Str, suffix: Str)
    requires 0 < |s| < LIMIT && |r.byteArrays| < LIMIT
    ensures WriteString(s).Some? && WriteU29(2 * |r.byteArrays|).Some?
    ensures
      var again := [AMF3_BYTEARRAY] + (WriteU29(2 * |r.byteArrays|).value + suffix);
      var g := Read(r, [AMF3_BYTEARRAY] + (WriteString(s).value + again), Null);
      && Returns(g, ByteArray(s), again)
      && Returns(Read(g.value.r, again, Null), String(s), suffix)
  {
    hide ReadU29, WriteU29, WriteString, ReadArray, ReadObject, ReadString;
    var n := |r.byteArrays|;
    var u := WriteU29(2 * n).value;
    var again := [AMF3_BYTEARRAY] + (u + suffix);
    StringHeader(s, again);
    LengthField(|s|);
    U29RoundTrip(2 * n, suffix);
    assert ([AMF3_BYTEARRAY] + (WriteString(s).value + again))[1..] == WriteString(s).value + again;
    assert again[1..] == u + suffix;
    assert (2 * n) % 2 == 0 && (2 * n) / 2 == n;
  }
}
