/** Arrays and objects as any AMF 3 encoder sends them, with the members in any order, and what the reader of
    mmlib/amf/amf3serializer.cpp makes of them. */
module Amf3Received {
  import opened Common
  import opened Amf3Values
  import opened Amf3Children
  import opened Amf3Codec
  import opened Amf3Wire

  /** Names that do not end the list. */
  ghost predicate Keys(names: seq<Str>, m: nat)
    requires m <= |names|
  {
    forall i | 0 <= i < m :: |names[i]| < LIMIT && !EndKey(names[i])
  }

  /** Keys and values from the k-th up to the m-th, as they are written. */
  ghost function Pairs(names: seq<Str>, vs: seq<Variant>, k: nat, m: nat): Str
    requires k <= m <= |names| == |vs| && Keys(names, m) && AllPlain(vs)
    decreases m - k
  {
    if k == m then []
    else
      RoundTrip(Reader([], [], [], []), vs[k], []);
      WriteStringIs(names[k]);
      WriteString(names[k]).value + (Write(vs[k]).value + Pairs(names, vs, k + 1, m))
  }

  lemma PairsNext(names: seq<Str>, vs: seq<Variant>, k: nat, m: nat, s: Str)
    requires k < m <= |names| == |vs| && Keys(names, m) && AllPlain(vs)
    ensures WriteString(names[k]).Some? && Write(vs[k]).Some?
    ensures Pairs(names, vs, k, m) + s ==
            WriteString(names[k]).value + (Write(vs[k]).value + (Pairs(names, vs, k + 1, m) + s))
  {
    hide Write, WriteString, AllPlain;
    RoundTrip(Reader([], [], [], []), vs[k], []) by {
      AllOf(vs, k);
    }
    WriteStringIs(names[k]);
  }

  lemma AllOf(vs: seq<Variant>, k: nat)
    requires AllPlain(vs) && k < |vs|
    ensures Plain(vs[k])
  {
  }

  /** The pairs that are left to be read find those before them in place. */
  lemma {:induction false} PairsReceived(r: Reader, names: seq<Str>, vs: seq<Variant>, k: nat, m: nat, suffix: Str)
    requires k <= m <= |names| == |vs| && Keys(names, m) && Different(names) && AllPlain(vs)
    ensures Returns(ReadPairs(r, Pairs(names, vs, k, m) + ([1] + suffix), Wrap(Members(names, vs, k))),
                    Wrap(Members(names, vs, m)), suffix)
    decreases m - k
  {
    hide Read, ReadPairs, Put, Get, Wrap, Write, WriteString, Norm, Plain, Members, Extends, EndKey, Different;
    if k == m {
      EmptyString();
      assert Pairs(names, vs, k, m) + ([1] + suffix) == [1] + suffix;
      ReadEnd(r, suffix, Wrap(Members(names, vs, k)));
    } else {
      var more := Pairs(names, vs, k + 1, m) + ([1] + suffix);
      PairsNext(names, vs, k, m, [1] + suffix);
      RoundTrip(StringRead(r, names[k]), vs[k], more);
      MembersAre(names, vs, k, k);
      ReadPair(r, names[k], Norm(vs[k]), Write(vs[k]).value, more, Members(names, vs, k));
      MembersNext(names, vs, k);
      var r' := Read(StringRead(r, names[k]), Write(vs[k]).value + more, Null).value.r;
      PairsReceived(r', names, vs, k + 1, m, suffix);
    }
  }

  /** The last names are those of the elements. */
  ghost predicate Indexed(names: seq<Str>, m: nat)
    requires m <= |names|
  {
    forall i | m <= i < |names| :: names[i] == IndexKey(i - m)
  }

  /** And so do the elements. */
  lemma {:induction false} ElementsReceived(r: Reader, names: seq<Str>, vs: seq<Variant>, k: nat, m: nat, suffix: Str)
    requires m <= k <= |names| == |vs| && Indexed(names, m) && Different(names) && AllPlain(vs)
    ensures Returns(ReadElements(r, Values(vs, k) + suffix, Wrap(Members(names, vs, k)), k - m, |names| - m),
                    Wrap(Members(names, vs, |names|)), suffix)
    decreases |names| - k
  {
    hide Read, Put, Get, Wrap, Write, Norm, Plain, Members, Extends, IndexKey, Different, Subscriptable, Child,
         PutChild, ReadElements;
    var cs := Members(names, vs, k);
    if k == |names| {
      assert Values(vs, k) + suffix == suffix;
      NoneLeft(r, suffix, Wrap(cs), k - m);
    } else {
      var more := Values(vs, k + 1) + suffix;
      RoundTrip(r, vs[k], more);
      assert Values(vs, k) + suffix == Write(vs[k]).value + more;
      MembersAre(names, vs, k, k);
      WrapPut(cs, names[k], Norm(vs[k]));
      MembersNext(names, vs, k);
      ReadElement(r, Write(vs[k]).value + more, Wrap(cs), k - m, |names| - m, Norm(vs[k]), more);
      ElementsReceived(Read(r, Write(vs[k]).value + more, Null).value.r, names, vs, k + 1, m, suffix);
    }
  }

  lemma NoneLeft(r: Reader, s: Str, v: Variant, n: nat)
    ensures Returns(ReadElements(r, s, v, n, n), v, s)
  {
  }

  /** An array: m members with names, then the elements.  Each name has its value, and each index its element
      (Amf3Wire.MembersAre). */
  lemma ArrayReceived(r: Reader, names: seq<Str>, vs: seq<Variant>, m: nat, suffix: Str)
    requires m <= |names| == |vs| && Keys(names, m) && Indexed(names, m) && Different(names) && AllPlain(vs)
    requires |names| - m < LIMIT
    ensures WriteU29(2 * (|names| - m) + 1).Some?
    ensures
      var body := Pairs(names, vs, 0, m) + ([1] + (Values(vs, m) + suffix));
      Returns(Read(r, [0x09] + (WriteU29(2 * (|names| - m) + 1).value + body), Null),
              Map(true, Members(names, vs, |names|)), suffix)
  {
    hide WriteU29, ReadU29, Read, ReadArray, ReadPairs, ReadElements, Pairs, Values, Members, Plain, Different, Indexed;
    var n := |names| - m;
    var body := Pairs(names, vs, 0, m) + ([1] + (Values(vs, m) + suffix));
    U29RoundTrip(2 * n + 1, body);
    NoMembers(names, vs);
    PairsReceived(r, names, vs, 0, m, Values(vs, m) + suffix);
    ElementsReceived(ReadPairs(r, body, Null).value.r, names, vs, m, m, suffix);
    ReadArrayParts(r, n, body, WriteU29(2 * n + 1).value);
    ReadTyped(r, 0x09, WriteU29(2 * n + 1).value + body);
  }

  lemma NoMembers(names: seq<Str>, vs: seq<Variant>)
    requires |names| == |vs|
    ensures Wrap(Members(names, vs, 0)) == Null
  {
  }

  /** An object without a class: each name has its value. */
  lemma ObjectReceived(r: Reader, names: seq<Str>, vs: seq<Variant>, suffix: Str)
    requires |names| == |vs| && Keys(names, |names|) && Different(names) && AllPlain(vs)
    ensures Returns(Read(r, [0x0a] + ([0x0b] + ([0x01] + (Pairs(names, vs, 0, |names|) + ([1] + suffix)))), Null),
                    Wrap(Members(names, vs, |names|)), suffix)
  {
    hide WriteU29, ReadU29, Read, ReadObject, ReadPairs, ReadString, Pairs, Members, Plain, Different, Wrap;
    var body := Pairs(names, vs, 0, |names|) + ([1] + suffix);
    var r1 := r.(objects := r.objects + [Null]);
    ElevenIs();
    EmptyString();
    U29RoundTrip(0x0b, [1] + body);
    StringRoundTrip(r1, [], body);
    NoMembers(names, vs);
    PairsReceived(r1.(traits := r1.traits + [Traits(true, [])]), names, vs, 0, |names|, suffix);
    ReadObjectInto(r, [0x0b], body, Null);
    ReadTyped(r, 0x0a, [0x0b] + ([1] + body));
  }
}
