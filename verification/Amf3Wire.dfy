/** What AMF3Serializer (mmlib/amf/amf3serializer.cpp) makes of what other AMF 3 encoders send: references to
    strings, objects and traits, and sealed members; and how the octets of its own output look. */
module Amf3Wire {
  import opened Common
  import opened Amf3Values
  import opened Amf3Children
  import opened Amf3Codec

  // ----- references

  lemma Reference(i: nat, suffix: Str)
    requires i < LIMIT
    ensures WriteU29(2 * i).Some? && ReadU29(WriteU29(2 * i).value + suffix) == Some((2 * i, suffix))
    ensures (2 * i) % 2 == 0 && (2 * i) / 2 == i
  {
    hide WriteU29, ReadU29;
    U29RoundTrip(2 * i, suffix);
  }

  lemma Typed(t: byte, u: Str)
    ensures ([t] + u)[1..] == u
  {
  }

  /** Reference i to a string gives the i-th entry of the table, and changes nothing. */
  lemma StringReference(r: Reader, i: nat, suffix: Str, into: Variant)
    requires i < |r.strings| && i < LIMIT
    ensures WriteU29(2 * i).Some?
    ensures ReadString(r, WriteU29(2 * i).value + suffix) == Some(Got(r.strings[i], r, suffix))
    ensures Read(r, [0x06] + (WriteU29(2 * i).value + suffix), into) == Some(Got(String(r.strings[i]), r, suffix))
  {
    hide WriteU29, ReadU29, ReadArray, ReadObject, ReadByteArray;
    Reference(i, suffix);
    Typed(0x06, WriteU29(2 * i).value + suffix);
  }

  /** A string that was read, and is read again by reference at any later time, whatever was read between. */
  lemma StringAgain(r: Reader, s: Str, r': Reader, suffix: Str, more: Str, into: Variant)
    requires 0 < |s| < LIMIT && |r.strings| < LIMIT
    requires WriteString(s).Some? && ReadString(r, WriteString(s).value + suffix).Some?
    requires Extends(ReadString(r, WriteString(s).value + suffix).value.r, r')
    ensures ReadString(r, WriteString(s).value + suffix).value.v == s
    ensures WriteU29(2 * |r.strings|).Some?
    ensures Read(r', [0x06] + (WriteU29(2 * |r.strings|).value + more), into) == Some(Got(String(s), r', more))
  {
    hide ReadString, WriteString, WriteU29, Read;
    StringRoundTrip(r, s, suffix);
    StringReference(r', |r.strings|, more, into);
  }

  /** Reference i to a byte array gives the i-th octets of their table, as a string. */
  lemma ByteArrayReference(r: Reader, i: nat, suffix: Str, into: Variant)
    requires i < |r.byteArrays| && i < LIMIT
    ensures WriteU29(2 * i).Some?
    ensures Read(r, [0x0c] + (WriteU29(2 * i).value + suffix), into) == Some(Got(String(r.byteArrays[i]), r, suffix))
  {
    hide WriteU29, ReadU29, ReadArray, ReadObject, ReadString;
    Reference(i, suffix);
    Typed(0x0c, WriteU29(2 * i).value + suffix);
  }

  // ----- the string table

  function NonEmpty(ss: seq<Str>): (r: seq<Str>)
    ensures |r| <= |ss|
  {
    if ss == [] then [] else NonEmpty(ss[..|ss| - 1]) + if ss[|ss| - 1] == [] then [] else [ss[|ss| - 1]]
  }

  /** The strings as an encoder writes them in full, with their markers. */
  function InFull(ss: seq<Str>): (w: Str)
    requires forall i | 0 <= i < |ss| :: |ss[i]| < LIMIT
  {
    if ss == [] then []
    else
      WriteStringIs(ss[|ss| - 1]);
      InFull(ss[..|ss| - 1]) + ([0x06] + WriteString(ss[|ss| - 1]).value)
  }

  /** n values, one after the other. */
  function ReadMany(r: Reader, s: Str, n: nat): (g: Option<Got<seq<Variant>>>)
    ensures g.Some? ==> |g.value.v| == n && Extends(r, g.value.r)
  {
    if n == 0 then Some(Got([], r, s))
    else
      match ReadMany(r, s, n - 1)
      case None => None
      case Some(g) =>
        match Read(g.r, g.rest, Null)
        case None => None
        case Some(h) => Some(Got(g.v + [h.v], h.r, h.rest))
  }

  function Strings(ss: seq<Str>): seq<Variant> {
    seq(|ss|, i requires 0 <= i < |ss| => String(ss[i]))
  }

  lemma ReadInFull(r: Reader, s: Str, suffix: Str)
    requires |s| < LIMIT
    ensures WriteString(s).Some?
    ensures Read(r, [0x06] + (WriteString(s).value + suffix), Null) == Some(Got(String(s), StringRead(r, s), suffix))
  {
    hide WriteString, ReadString, ReadArray, ReadObject, ReadByteArray, ReadU29;
    StringRoundTrip(r, s, suffix);
    Typed(0x06, WriteString(s).value + suffix);
  }

  lemma OneMore(r: Reader, s: Str, n: nat, g: Got<seq<Variant>>, h: Got<Variant>)
    requires ReadMany(r, s, n) == Some(g) && Read(g.r, g.rest, Null) == Some(h)
    ensures ReadMany(r, s, n + 1) == Some(Got(g.v + [h.v], h.r, h.rest))
  {
    hide Read;
  }

  /** The table behind the strings. */
  function Filled(r: Reader, ss: seq<Str>): Reader {
    r.(strings := r.strings + NonEmpty(ss))
  }

  lemma FilledMore(r: Reader, ss: seq<Str>)
    requires ss != []
    ensures StringRead(Filled(r, ss[..|ss| - 1]), ss[|ss| - 1]) == Filled(r, ss)
  {
    var init, s := ss[..|ss| - 1], ss[|ss| - 1];
    assert r.strings + NonEmpty(init) + [s] == r.strings + (NonEmpty(init) + [s]);
    assert NonEmpty(init) + [] == NonEmpty(init);
  }

  lemma {:induction false} StringTable(r: Reader, ss: seq<Str>, suffix: Str)
    requires forall i | 0 <= i < |ss| :: |ss[i]| < LIMIT
    ensures ReadMany(r, InFull(ss) + suffix, |ss|) == Some(Got(Strings(ss), Filled(r, ss), suffix))
    decreases |ss|
  {
    hide WriteString, Read, StringRead, NonEmpty;
    if ss == [] {
      NothingRead(r, suffix);
    } else {
      var init, s := ss[..|ss| - 1], ss[|ss| - 1];
      WriteStringIs(s);
      var more := [0x06] + (WriteString(s).value + suffix);
      assert InFull(ss) + suffix == InFull(init) + more;
      StringTable(r, init, more);
      ReadInFull(Filled(r, init), s, suffix);
      FilledMore(r, ss);
      hide ReadMany, Filled, InFull;
      OneMore(r, InFull(init) + more, |ss| - 1, Got(Strings(init), Filled(r, init), more),
              Got(String(s), Filled(r, ss), suffix));
      assert Strings(init) + [String(s)] == Strings(ss);
    }
  }

  lemma NothingRead(r: Reader, suffix: Str)
    ensures ReadMany(r, InFull([]) + suffix, 0) == Some(Got(Strings([]), Filled(r, []), suffix))
  {
    assert InFull([]) + suffix == suffix && r.strings + [] == r.strings && Strings([]) == [];
  }

  /** A message of any strings, with a reference behind them: reference i is the i-th string that is not
      empty. */
  lemma IthString(ss: seq<Str>, i: nat, suffix: Str)
    requires (forall k | 0 <= k < |ss| :: |ss[k]| < LIMIT) && i < |NonEmpty(ss)| && i < LIMIT
    ensures WriteU29(2 * i).Some?
    ensures
      var g := ReadMany(Reader([], [], [], []), InFull(ss) + ([0x06] + (WriteU29(2 * i).value + suffix)), |ss| + 1);
      g.Some? && g.value.v == Strings(ss) + [String(NonEmpty(ss)[i])] && g.value.rest == suffix
  {
    hide Read, WriteU29, InFull, NonEmpty;
    var r := Reader([], [], [], []);
    Reference(i, suffix);
    StringTable(r, ss, [0x06] + (WriteU29(2 * i).value + suffix));
    assert [] + NonEmpty(ss) == NonEmpty(ss);
    StringReference(r.(strings := NonEmpty(ss)), i, suffix, Null);
  }

  // ----- objects by reference

  /** Reference i to an array or object gives the i-th entry of their table. */
  lemma ObjectReference(r: Reader, i: nat, suffix: Str, into: Variant, t: byte)
    requires i < |r.objects| && i < LIMIT && (t == 0x09 || t == 0x0a)
    ensures WriteU29(2 * i).Some?
    ensures Read(r, [t] + (WriteU29(2 * i).value + suffix), into) == Some(Got(r.objects[i], r, suffix))
  {
    hide WriteU29, ReadU29, ReadString, ReadByteArray, ReadPairs, ReadElements, ReadNewObject;
    Reference(i, suffix);
    Typed(t, WriteU29(2 * i).value + suffix);
  }

  /** An object is entered at the place that was free when it began, whatever its members enter behind it. */
  lemma ObjectEntered(r: Reader, s: Str, into: Variant)
    requires ReadObject(r, s, into).Some? && ReadU29(s).value.0 % 2 == 1
    ensures
      var g := ReadObject(r, s, into).value;
      |r.objects| < |g.r.objects| && g.r.objects[|r.objects|] == g.v
  {
    hide ReadU29, ReadTraits, ReadSealed, ReadPairs, Extends;
  }

  /** An array is entered when it is complete: behind everything that its members entered. */
  lemma ArrayEntered(r: Reader, s: Str, into: Variant)
    requires ReadArray(r, s, into).Some? && ReadU29(s).value.0 % 2 == 1
    ensures
      var g := ReadArray(r, s, into).value;
      |r.objects| < |g.r.objects| && g.r.objects[|g.r.objects| - 1] == g.v
  {
    hide ReadU29, ReadPairs, ReadElements, Extends;
  }

  /** An object that was read, and is read again by reference at any later time. */
  lemma ObjectAgain(r: Reader, s: Str, into: Variant, r': Reader, more: Str, into': Variant, t: byte)
    requires ReadObject(r, s, into).Some? && ReadU29(s).value.0 % 2 == 1 && |r.objects| < LIMIT
    requires Extends(ReadObject(r, s, into).value.r, r') && (t == 0x09 || t == 0x0a)
    ensures WriteU29(2 * |r.objects|).Some?
    ensures Read(r', [t] + (WriteU29(2 * |r.objects|).value + more), into') ==
            Some(Got(ReadObject(r, s, into).value.v, r', more))
  {
    hide ReadU29, WriteU29, ReadObject, Read;
    ObjectEntered(r, s, into);
    ObjectReference(r', |r.objects|, more, into', t);
  }

  lemma ArrayAgain(r: Reader, s: Str, into: Variant, r': Reader, more: Str, into': Variant, t: byte)
    requires ReadArray(r, s, into).Some? && ReadU29(s).value.0 % 2 == 1
    requires |ReadArray(r, s, into).value.r.objects| <= LIMIT
    requires Extends(ReadArray(r, s, into).value.r, r') && (t == 0x09 || t == 0x0a)
    ensures
      var i := |ReadArray(r, s, into).value.r.objects| - 1;
      && i >= 0 && WriteU29(2 * i).Some?
      && Read(r', [t] + (WriteU29(2 * i).value + more), into') == Some(Got(ReadArray(r, s, into).value.v, r', more))
  {
    hide ReadU29, WriteU29, ReadArray, Read;
    ArrayEntered(r, s, into);
    ObjectReference(r', |ReadArray(r, s, into).value.r.objects| - 1, more, into', t);
  }

  // ----- sealed members

  /** An object that has only sealed members. */
  function SealedOf(cs: Children): Variant {
    if cs == [] then Null else Map(false, [(AMF3_TRAITS, Map(false, cs))])
  }

  /** The first k members under their names. */
  function Members(names: seq<Str>, vs: seq<Variant>, k: nat): (cs: Children)
    requires k <= |names| == |vs|
    ensures k > 0 ==> cs != []
  {
    if k == 0 then [] else Put(Members(names, vs, k - 1), names[k - 1], Norm(vs[k - 1]))
  }

  ghost predicate Different(names: seq<Str>) {
    forall i, j | 0 <= i < j < |names| :: names[i] != names[j]
  }

  lemma {:induction false} GetPut(c: Children, k: Str, v: Variant, k': Str)
    ensures Get(Put(c, k, v), k') == if k' == k then v else Get(c, k')
  {
    hide Less;
    if c != [] {
      GetPut(c[1..], k, v, k');
      assert ([c[0]] + Put(c[1..], k, v))[1..] == Put(c[1..], k, v);
      assert ([(k, v)] + c)[1..] == c && ([(k, v)] + c[1..])[1..] == c[1..];
    }
  }

  /** Each name has its value, and a name that has not had its turn has none. */
  lemma {:induction false} MembersAre(names: seq<Str>, vs: seq<Variant>, k: nat, i: nat)
    requires k <= |names| == |vs| && i < |names| && Different(names)
    ensures Get(Members(names, vs, k), names[i]) == if i < k then Norm(vs[i]) else Null
    decreases k
  {
    hide Put, Get, Norm;
    if k > 0 {
      MembersAre(names, vs, k - 1, i);
      GetPut(Members(names, vs, k - 1), names[k - 1], Norm(vs[k - 1]), names[i]);
    } else {
      NoMember(names[i]);
    }
  }

  lemma NoMember(k: Str)
    ensures Get([], k) == Null
  {
  }

  ghost predicate AllPlain(vs: seq<Variant>) {
    forall i | 0 <= i < |vs| :: Plain(vs[i])
  }

  /** The values from the k-th on, as they are written. */
  ghost function Values(vs: seq<Variant>, k: nat): Str
    requires AllPlain(vs) && k <= |vs|
    decreases |vs| - k
  {
    if k == |vs| then []
    else
      RoundTrip(Reader([], [], [], []), vs[k], []);
      Write(vs[k]).value + Values(vs, k + 1)
  }

  lemma SealedPut(cs: Children, name: Str, v: Variant)
    ensures Subscriptable(SealedOf(cs)) && Child(SealedOf(cs), AMF3_TRAITS) == Wrap(cs)
    ensures PutChild(SealedOf(cs), AMF3_TRAITS, PutChild(Wrap(cs), name, v)) == SealedOf(Put(cs, name, v))
  {
    hide Put;
    WrapPut(cs, name, v);
    GetPut(cs, name, v, name);
    assert Put([], AMF3_TRAITS, Map(false, [(name, v)])) == [(AMF3_TRAITS, Map(false, [(name, v)]))] by {
      PutOne(AMF3_TRAITS, Map(false, [(name, v)]));
    }
    PutOne(name, v);
    PutOver(AMF3_TRAITS, Wrap(cs), Wrap(Put(cs, name, v)));
  }

  lemma PutOne(k: Str, v: Variant)
    ensures Put([], k, v) == [(k, v)]
  {
  }

  lemma PutOver(k: Str, v: Variant, v': Variant)
    ensures Put([(k, v)], k, v') == [(k, v')]
  {
  }

  /** The members that are left to be read find the ones before them in place. */
  lemma {:induction false} SealedRoundTrip(r: Reader, names: seq<Str>, vs: seq<Variant>, k: nat, suffix: Str)
    requires k <= |names| == |vs| && Different(names) && AllPlain(vs)
    ensures Returns(ReadSealed(r, Values(vs, k) + suffix, SealedOf(Members(names, vs, k)), names[k..]),
                    SealedOf(Members(names, vs, |names|)), suffix)
    decreases |names| - k
  {
    hide Read, Put, Get, SealedOf, Wrap, Write, Norm, Plain, Subscriptable, Child, PutChild, Members, Extends;
    if k == |names| {
      assert Values(vs, k) + suffix == suffix;
    } else {
      var cs, more := Members(names, vs, k), Values(vs, k + 1) + suffix;
      RoundTrip(r, vs[k], more);
      assert Values(vs, k) + suffix == Write(vs[k]).value + more;
      var g := Read(r, Write(vs[k]).value + more, Null).value;
      MembersAre(names, vs, k, k);
      WrapPut(cs, names[k], g.v);
      SealedPut(cs, names[k], g.v);
      MembersNext(names, vs, k);
      assert names[k..][1..] == names[k + 1..] && names[k..][0] == names[k];
      SealedRoundTrip(g.r, names, vs, k + 1, suffix);
    }
  }

  lemma MembersNext(names: seq<Str>, vs: seq<Variant>, k: nat)
    requires k < |names| == |vs|
    ensures Members(names, vs, k + 1) == Put(Members(names, vs, k), names[k], Norm(vs[k]))
  {
  }

  // ----- traits

  ghost predicate Short(names: seq<Str>) {
    forall i | 0 <= i < |names| :: |names[i]| < LIMIT
  }

  /** Member names as they are written. */
  function Names(names: seq<Str>): Str
    requires Short(names)
  {
    if names == [] then []
    else
      WriteStringIs(names[0]);
      WriteString(names[0]).value + Names(names[1..])
  }

  lemma {:induction false} NamesRoundTrip(r: Reader, names: seq<Str>, suffix: Str)
    requires Short(names)
    ensures
      var g := ReadNames(r, Names(names) + suffix, |names|);
      g.Some? && g.value.v == names && g.value.rest == suffix && g.value.r.traits == r.traits &&
          g.value.r.objects == r.objects
    decreases |names|
  {
    hide WriteString, ReadString, Extends;
    if names == [] {
      assert Names(names) + suffix == suffix;
    } else {
      WriteStringIs(names[0]);
      var more := Names(names[1..]) + suffix;
      assert Names(names) + suffix == WriteString(names[0]).value + more;
      StringRoundTrip(r, names[0], more);
      NamesRoundTrip(StringRead(r, names[0]), names[1..], suffix);
    }
  }

  /** Traits that are given with the object: the class name, then the members' names; they are entered. */
  lemma TraitsRoundTrip(r: Reader, className: Str, names: seq<Str>, suffix: Str, flags: nat)
    requires |className| < LIMIT && Short(names)
    requires (flags / 2) % 2 == 1 && (flags / 8) % 2 == 0 && flags / 16 == |names|
    ensures WriteString(className).Some?
    ensures
      var g := ReadTraits(r, WriteString(className).value + (Names(names) + suffix), flags);
      && g.Some? && g.value.v == Traits(false, names) && g.value.rest == suffix
      && g.value.r.traits == r.traits + [Traits(false, names)] && g.value.r.objects == r.objects
  {
    var body, r' := Names(names) + suffix, StringRead(r, className);
    assert r'.traits == r.traits && r'.objects == r.objects;
    hide *;
    StringRoundTrip(r, className, body);
    NamesRoundTrip(r', names, suffix);
    ReadTraitsParts(r, WriteString(className).value + body, flags, |names|, Got(className, r', body),
                    ReadNames(r', body, |names|).value);
  }

  lemma ReadTraitsParts(r: Reader, s: Str, flags: nat, n: nat, c: Got<Str>, g: Got<seq<Str>>)
    requires (flags / 2) % 2 == 1 && (flags / 8) % 2 == 0 && flags / 16 == n
    requires ReadString(r, s) == Some(c) && ReadNames(c.r, c.rest, n) == Some(g)
    ensures
      var t := Traits(false, g.v);
      ReadTraits(r, s, flags) == Some(Got(t, g.r.(traits := g.r.traits + [t]), g.rest))
  {
    hide ReadString, ReadNames, Extends;
  }

  lemma SealedFlags(n: nat)
    ensures
      var f := 3 + 16 * n;
      f % 2 == 1 && (f / 2) % 2 == 1 && f % 8 == 3 && (f / 8) % 2 == 0 && f / 16 == n
  {
    assert (3 + 16 * n) / 2 == 1 + 8 * n && (3 + 16 * n) / 8 == 2 * n;
  }

  lemma TraitsFlags(i: nat)
    ensures
      var f := 1 + 4 * i;
      f % 2 == 1 && (f / 2) % 2 == 0 && f % 8 != 7 && f / 4 == i
  {
    assert (1 + 4 * i) / 2 == 2 * i;
  }

  /** An object of a class with sealed members: each name gets its value, and the traits are entered. */
  lemma SealedObject(r: Reader, className: Str, names: seq<Str>, vs: seq<Variant>, suffix: Str)
    requires |className| < LIMIT && Short(names) && |names| == |vs| && Different(names) && AllPlain(vs)
    requires 3 + 16 * |names| < 0x2000_0000
    ensures WriteString(className).Some? && WriteU29(3 + 16 * |names|).Some?
    ensures
      var body := WriteString(className).value + (Names(names) + (Values(vs, 0) + suffix));
      var g := Read(r, [0x0a] + (WriteU29(3 + 16 * |names|).value + body), Null);
      && Returns(g, SealedOf(Members(names, vs, |names|)), suffix)
      && r.traits + [Traits(false, names)] <= g.value.r.traits
  {
    hide WriteString, WriteU29, ReadU29, Read, ReadObject, ReadTraits, Names, Values, SealedOf, Members, ReadSealed;
    var n := |names|;
    WriteStringIs(className);
    var body := WriteString(className).value + (Names(names) + (Values(vs, 0) + suffix));
    U29RoundTrip(3 + 16 * n, body);
    SealedFlags(n);
    var r1 := r.(objects := r.objects + [Null]);
    TraitsRoundTrip(r1, className, names, Values(vs, 0) + suffix, 3 + 16 * n);
    var t := ReadTraits(r1, body, 3 + 16 * n).value;
    Sealing(t.r, names, vs, suffix);
    ReadSealedObject(r, WriteU29(3 + 16 * n).value, body, 3 + 16 * n);
    ReadTyped(r, 0x0a, WriteU29(3 + 16 * n).value + body);
  }

  lemma Sealing(r: Reader, names: seq<Str>, vs: seq<Variant>, suffix: Str)
    requires |names| == |vs| && Different(names) && AllPlain(vs)
    ensures Returns(ReadSealed(r, Values(vs, 0) + suffix, Null, names), SealedOf(Members(names, vs, |names|)), suffix)
    ensures r.traits <= ReadSealed(r, Values(vs, 0) + suffix, Null, names).value.r.traits
  {
    hide Values, ReadSealed, Members;
    assert names[0..] == names;
    NothingSealed(names, vs);
    SealedRoundTrip(r, names, vs, 0, suffix);
  }

  lemma NothingSealed(names: seq<Str>, vs: seq<Variant>)
    requires |names| == |vs|
    ensures SealedOf(Members(names, vs, 0)) == Null
  {
  }

  /** The steps of ReadObject for sealed members only. */
  lemma ReadSealedObject(r: Reader, u: Str, body: Str, flags: nat)
    requires ReadU29(u + body) == Some((flags, body)) && flags % 2 == 1 && flags % 8 != 7
    requires
      var t := ReadTraits(r.(objects := r.objects + [Null]), body, flags);
      t.Some? && !t.value.v.isDynamic && ReadSealed(t.value.r, t.value.rest, Null, t.value.v.names).Some?
    ensures
      var t := ReadTraits(r.(objects := r.objects + [Null]), body, flags).value;
      var h := ReadSealed(t.r, t.rest, Null, t.v.names).value;
      var g := ReadObject(r, u + body, Null);
      Returns(g, h.v, h.rest) && g.value.r.traits == h.r.traits
  {
    hide ReadU29, ReadTraits, ReadSealed, Extends;
  }

  /** An object whose traits are those of an earlier one, by reference: the same names get its values. */
  lemma SealedAgain(r: Reader, i: nat, names: seq<Str>, vs: seq<Variant>, suffix: Str)
    requires i < |r.traits| && r.traits[i] == Traits(false, names) && 1 + 4 * i < 0x2000_0000
    requires |names| == |vs| && Different(names) && AllPlain(vs)
    ensures WriteU29(1 + 4 * i).Some?
    ensures Returns(Read(r, [0x0a] + (WriteU29(1 + 4 * i).value + (Values(vs, 0) + suffix)), Null),
                    SealedOf(Members(names, vs, |names|)), suffix)
  {
    hide WriteU29, ReadU29, Read, ReadObject, Values, SealedOf, Members, ReadSealed;
    var body := Values(vs, 0) + suffix;
    U29RoundTrip(1 + 4 * i, body);
    TraitsFlags(i);
    var r1 := r.(objects := r.objects + [Null]);
    assert ReadTraits(r1, body, 1 + 4 * i) == Some(Got(Traits(false, names), r1, body));
    Sealing(r1, names, vs, suffix);
    ReadSealedObject(r, WriteU29(1 + 4 * i).value, body, 1 + 4 * i);
    ReadTyped(r, 0x0a, WriteU29(1 + 4 * i).value + body);
  }

  // ----- a key that is sent twice

  /** The steps of ReadObject for an object as the writer writes it, into a variant that holds something. */
  lemma ReadObjectInto(r: Reader, u: Str, body: Str, into: Variant)
    requires ReadU29(u + ([1] + body)) == Some((0x0b, [1] + body))
    requires
      var r1 := r.(objects := r.objects + [Null]);
      ReadString(r1, [1] + body) == Some(Got([], r1, body))
    requires
      var r1 := r.(objects := r.objects + [Null]);
      ReadPairs(r1.(traits := r1.traits + [Traits(true, [])]), body, into).Some?
    ensures
      var r1 := r.(objects := r.objects + [Null]);
      var h := ReadPairs(r1.(traits := r1.traits + [Traits(true, [])]), body, into).value;
      Returns(ReadObject(r, u + ([1] + body), into), h.v, h.rest)
  {
    hide ReadPairs, ReadString, ReadU29, Extends;
    var r1 := r.(objects := r.objects + [Null]);
    assert ReadNames(r1, body, 0) == Some(Got([], r1, body));
    var r2 := r1.(traits := r1.traits + [Traits(true, [])]);
    assert ReadTraits(r1, [1] + body, 0x0b) == Some(Got(Traits(true, []), r2, body));
    assert ReadSealed(r2, body, into, []) == Some(Got(into, r2, body));
  }

  /** An object that is read where there already is one: its members go behind those that are there. */
  lemma ObjectInto(r: Reader, v: Variant, cs: Children, s: Str)
    requires Plain(v) && v.Map? && !v.isArray
    requires forall a, b | 0 <= a < |cs| && 0 <= b < |v.children| :: Less(cs[a].0, v.children[b].0)
    ensures Write(v).Some? && Returns(Read(r, Write(v).value + s, Wrap(cs)), Wrap(cs + NormChildren(v, 0)), s)
  {
    hide Plain, Norm, Read, ReadPairs, ReadObject, Less, Filter, WriteString, Write, ReadU29, WritePairs, PairsOf,
         NormChildren, ReadString, Wrap, Dense, WriteU29, Extends;
    var r1 := r.(objects := r.objects + [Null]);
    var r2 := r1.(traits := r1.traits + [Traits(true, [])]);
    PairsRoundTrip(r2, v, 0, 0, cs, s);
    WriteObjectIs(v, s);
    var body := WritePairs(v, 0, 0).value + ([1] + s);
    EmptyString();
    ElevenIs();
    U29RoundTrip(0x0b, [1] + body);
    StringRoundTrip(r1, [], body);
    PairsAreFiltered(v, 0, 0);
    NoneDense(NormChildren(v, 0));
    ReadObjectInto(r, [0x0b], body, Wrap(cs));
    Typed(AMF3_OBJECT, [0x0b] + ([1] + body));
    ReadObjectTyped(r, [0x0b] + ([1] + body), Wrap(cs));
  }

  lemma ReadObjectTyped(r: Reader, s: Str, into: Variant)
    ensures Read(r, [AMF3_OBJECT] + s, into) == ReadObject(r, s, into)
  {
    hide ReadObject;
    Typed(AMF3_OBJECT, s);
  }

  /** A key with a value, before more pairs. */
  lemma PairInto(r: Reader, k: Str, u: Str, more: Str, v: Variant)
    requires |k| < LIMIT && !EndKey(k) && Subscriptable(v)
    requires Read(StringRead(r, k), u + more, Child(v, k)).Some?
    ensures WriteString(k).Some?
    ensures
      var g := Read(StringRead(r, k), u + more, Child(v, k)).value;
      ReadPairs(r, WriteString(k).value + (u + more), v) == ReadPairs(g.r, g.rest, PutChild(v, k, g.v))
  {
    hide Read, ReadString, WriteString, EndKey, Child, PutChild, StringRead, Extends;
    StringRoundTrip(r, k, u + more);
  }

  /** The same key twice, with an object each time: the members of both are under it. */
  lemma KeyTwice(r: Reader, k: Str, u: Variant, v: Variant, s: Str)
    requires |k| < LIMIT && !EndKey(k) && Plain(u) && Plain(v)
    requires u.Map? && !u.isArray && u.children != [] && v.Map? && !v.isArray
    requires forall a, b | 0 <= a < |u.children| && 0 <= b < |v.children| :: Less(u.children[a].0, v.children[b].0)
    ensures WriteString(k).Some? && Write(u).Some? && Write(v).Some?
    ensures
      var w := WriteString(k).value;
      Returns(ReadPairs(r, w + (Write(u).value + (w + (Write(v).value + ([1] + s)))), Null),
              Map(false, [(k, Map(false, NormChildren(u, 0) + NormChildren(v, 0)))]), s)
  {
    hide Plain, Norm, Read, ReadPairs, WriteString, Write, ReadString, NormChildren, EndKey, Less, StringRead, Extends;
    WriteStringIs(k);
    RoundTrip(Reader([], [], [], []), v, []);
    var w, cs := WriteString(k).value, NormChildren(u, 0);
    var rest := w + (Write(v).value + ([1] + s));
    RoundTrip(StringRead(r, k), u, rest);
    PairInto(r, k, Write(u).value, rest, Null);
    var r1 := Read(StringRead(r, k), Write(u).value + rest, Null).value.r;
    NormIs(u);
    ObjectInto(StringRead(r1, k), v, cs, [1] + s);
    PutOne(k, Map(false, cs));
    PairInto(r1, k, Write(v).value, [1] + s, Map(false, [(k, Map(false, cs))]));
    PutOver(k, Map(false, cs), Map(false, cs + NormChildren(v, 0)));
    EmptyString();
    ReadEnd(Read(StringRead(r1, k), Write(v).value + ([1] + s), Map(false, cs)).value.r, s,
            Map(false, [(k, Map(false, cs + NormChildren(v, 0)))]));
  }

  lemma NormIs(u: Variant)
    requires u.Map? && !u.isArray && u.children != []
    ensures Norm(u) == Map(false, NormChildren(u, 0)) == Wrap(NormChildren(u, 0)) && NormChildren(u, 0) != []
  {
  }

  // ----- octets

  /** Integers, base 128 with the high bit on all octets but the last; a fourth octet has eight bits. */
  lemma U29Octets(v: nat)
    requires v < 0x2000_0000
    ensures WriteU29(v).Some?
    ensures
      var w := WriteU29(v).value;
      && (v < 0x80 ==> w == [v])
      && (0x80 <= v < 0x4000 ==> w == [0x80 + v / 0x80, v % 0x80])
      && (0x4000 <= v < 0x20_0000 ==> w == [0x80 + v / 0x4000, 0x80 + v / 0x80 % 0x80, v % 0x80])
      && (0x20_0000 <= v ==>
          w == [0x80 + v / 0x40_0000, 0x80 + v / 0x8000 % 0x80, 0x80 + v / 0x100 % 0x80, v % 0x100])
  {
    hide ReadU29, ReadU29From;
    if v < 0x80 {
    } else if v < 0x4000 {
      OctetsTwo(v);
    } else if v < 0x20_0000 {
      OctetsThree(v);
    } else {
      OctetsFour(v);
    }
  }

  lemma OctetsTwo(v: nat)
    requires 0x80 <= v < 0x4000
    ensures WriteU29(v).value == [0x80 + v / 0x80, v % 0x80]
  {
    hide ReadU29, ReadU29From, Octet;
    OctetsOf(v);
    SmallOctets(v);
    Two(Octet(v, 2), Octet(v, 3));
    Base(v, (2 * Octet(v, 2) + Octet(v, 3) / 0x80) % 0x80, 0x80, Octet(v, 3) % 0x80);
  }

  lemma OctetsThree(v: nat)
    requires 0x4000 <= v < 0x20_0000
    ensures WriteU29(v).value == [0x80 + v / 0x4000, 0x80 + v / 0x80 % 0x80, v % 0x80]
  {
    hide ReadU29, ReadU29From, Octet;
    OctetsOf(v);
    SmallOctets(v);
    var b1, b2, b3 := Octet(v, 1), Octet(v, 2), Octet(v, 3);
    Three(b1, b2, b3);
    var x0, x1 := (4 * b1 + b2 / 0x40) % 0x80, (2 * b2 + b3 / 0x80) % 0x80;
    Base(v, x0 * 0x80 + x1, 0x80, b3 % 0x80);
    Base(x0 * 0x80 + x1, x0, 0x80, x1);
    assert v / 0x4000 == v / 0x80 / 0x80;
  }

  lemma OctetsFour(v: nat)
    requires 0x20_0000 <= v < 0x2000_0000
    ensures WriteU29(v).value ==
            [0x80 + v / 0x40_0000, 0x80 + v / 0x8000 % 0x80, 0x80 + v / 0x100 % 0x80, v % 0x100]
  {
    FourIs(v);
    hide *;
    OctetsOf(v);
    SmallOctets(v);
    var b0, b1, b2, b3 := Octet(v, 0), Octet(v, 1), Octet(v, 2), Octet(v, 3);
    var x0, x1, x2 := (4 * b0 + b1 / 0x40) % 0x80, (2 * b1 + b2 / 0x80) % 0x80, b2 % 0x80;
    Four(b0, b1, b2, b3);
    FourDigits(v, x0, x1, x2, b3);
  }

  lemma FourIs(v: nat)
    requires 0x20_0000 <= v < 0x2000_0000
    ensures
      var b0, b1, b2, b3 := Octet(v, 0), Octet(v, 1), Octet(v, 2), Octet(v, 3);
      WriteU29(v).value ==
      [0x80 + (4 * b0 + b1 / 0x40) % 0x80, 0x80 + (2 * b1 + b2 / 0x80) % 0x80, 0x80 + b2 % 0x80, b3]
  {
    hide Octet;
  }

  lemma FourDigits(v: nat, x0: nat, x1: nat, x2: nat, x3: nat)
    requires v == ((x0 * 0x80 + x1) * 0x80 + x2) * 0x100 + x3 && x1 < 0x80 && x2 < 0x80 && x3 < 0x100
    ensures v / 0x40_0000 == x0 && v / 0x8000 % 0x80 == x1 && v / 0x100 % 0x80 == x2 && v % 0x100 == x3
  {
    Base(v, (x0 * 0x80 + x1) * 0x80 + x2, 0x100, x3);
    Base((x0 * 0x80 + x1) * 0x80 + x2, x0 * 0x80 + x1, 0x80, x2);
    Base(x0 * 0x80 + x1, x0, 0x80, x1);
    assert v / 0x8000 == v / 0x100 / 0x80 && v / 0x40_0000 == v / 0x8000 / 0x80;
  }

  lemma Base(v: nat, q: nat, b: nat, r: nat)
    requires (b == 0x80 || b == 0x100) && v == q * b + r && r < b
    ensures v / b == q && v % b == r
  {
  }

  /** The octets of simple values, as the AMF 3 specification has them. */
  lemma KnownOctets(b: byte, octets: Str)
    requires |octets| == 8
    ensures Write(Undefined) == Some([0x00]) && Write(Null) == Some([0x01])
    ensures Write(Bool(false)) == Some([0x02]) && Write(Bool(true)) == Some([0x03])
    ensures Write(Integer(5)) == Some([0x04, 0x05]) && Write(Integer(128)) == Some([0x04, 0x81, 0x00])
    ensures Write(Double(octets)) == Some([0x05] + octets)
    ensures Write(String([b])) == Some([0x06, 0x03, b]) && Write(ByteArray([b])) == Some([0x0c, 0x03, b])
    ensures Write(Map(true, [])) == Some([0x09, 0x01, 0x01])
    ensures Write(Map(false, [])) == Some([0x0a, 0x0b, 0x01, 0x01])
  {
    EmptyString();
    U29Octets(5);
    U29Octets(128);
    KnownInteger(5, [0x05]);
    KnownInteger(128, [0x81, 0x00]);
    assert [0x04] + [0x05] == [0x04, 0x05] && [0x04] + [0x81, 0x00] == [0x04, 0x81, 0x00];
    KnownString(b);
    KnownMaps();
    hide WriteU29, WriteString, WritePairs, WriteElements, DenseSize, U32;
  }

  lemma KnownInteger(n: nat, w: Str)
    requires n < 0x1_0000_0000 && WriteU29(n) == Some(w)
    ensures Write(Integer(n)) == Some([0x04] + w)
  {
    hide WriteU29;
  }

  lemma KnownString(b: byte)
    ensures Write(String([b])) == Some([0x06, 0x03, b]) && Write(ByteArray([b])) == Some([0x0c, 0x03, b])
  {
    U29Octets(3);
    WriteStringIs([b]);
    hide WriteU29, WriteString;
    var w := WriteU29(3).value + [b];
    assert w == [0x03, b];
    assert [AMF3_STRING] + w == [0x06, 0x03, b] && [AMF3_BYTEARRAY] + w == [0x0c, 0x03, b];
  }

  lemma KnownMaps()
    ensures Write(Map(true, [])) == Some([0x09, 0x01, 0x01])
    ensures Write(Map(false, [])) == Some([0x0a, 0x0b, 0x01, 0x01])
  {
    KnownArray();
    hide WriteU29, WriteString;
    var thing := Map(false, []);
    assert WritePairs(thing, 0, 0) == Some([]);
    WriteObjectIs(thing, []);
    hide Write;
    var none: Str := [];
    assert Write(thing).value + none == Write(thing).value;
    assert [AMF3_OBJECT] + ([0x0b] + ([1] + (none + ([1] + none)))) == [0x0a, 0x0b, 0x01, 0x01];
  }

  lemma KnownArray()
    ensures Write(Map(true, [])) == Some([0x09, 0x01, 0x01])
  {
    U29Octets(1);
    hide WriteU29, WriteString;
    var list := Map(true, []);
    assert DenseSize([]) == 0;
    assert WritePairs(list, 0, 0) == Some([]) == WriteElements(list, 0, 0);
    WriteArrayIs(list, []);
    hide Write;
    var none: Str := [];
    assert Write(list).value + none == Write(list).value;
    assert [AMF3_ARRAY] + ([0x01] + (none + ([1] + (none + none)))) == [0x09, 0x01, 0x01];
  }
}
