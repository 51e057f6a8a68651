/** AMF3Serializer (mmlib/amf/amf3serializer.cpp) as it works: on a buffer that is consumed or appended
    to and on tables that grow.  Amf3Codec says what each method computes. */
module Amf3Serializer {
  import opened Common
  import opened Amf3Values
  import opened Amf3Children
  import C = Amf3Codec

  /** The unread bytes of an IOBuffer. */
  class IOBuffer {
    var data: Str

    constructor (s: Str)
      ensures data == s
    {
      data := s;
    }

    /** ReadFromBuffer, ReadFromString and ReadFromRepeat all append. */
    method Append(s: Str)
      modifies this
      ensures data == old(data) + s
    {
      data := data + s;
    }

    method Ignore(n: nat)
      requires n <= |data|
      modifies this
      ensures data == old(data)[n..]
    {
      data := data[n..];
    }
  }

  // ----- writing

  method WriteU29(buffer: IOBuffer, value: nat) returns (ok: bool)
    requires value < 0x1_0000_0000
    modifies buffer
    ensures ok == Amf3Values.WriteU29(value).Some?
    ensures buffer.data == old(buffer.data) + if ok then Amf3Values.WriteU29(value).value else []
  {
    var b0, b1, b2, b3 := Octet(value, 0), Octet(value, 1), Octet(value, 2), Octet(value, 3);
    if value <= 0x7f {
      buffer.Append([b3]);
      return true;
    } else if 0x80 <= value <= 0x3fff {
      buffer.Append([0x80 + (2 * b2 + b3 / 0x80) % 0x80]);
      buffer.Append([b3 % 0x80]);
      return true;
    } else if 0x4000 <= value <= 0x1f_ffff {
      buffer.Append([0x80 + (4 * b1 + b2 / 0x40) % 0x80]);
      buffer.Append([0x80 + (2 * b2 + b3 / 0x80) % 0x80]);
      buffer.Append([b3 % 0x80]);
      return true;
    } else if 0x2_0000 <= value <= 0x1fff_ffff {
      buffer.Append([0x80 + (4 * b0 + b1 / 0x40) % 0x80]);
      buffer.Append([0x80 + (2 * b1 + b2 / 0x80) % 0x80]);
      buffer.Append([0x80 + b2 % 0x80]);
      buffer.Append([b3]);
      return true;
    }
    return false;
  }

  /** w was appended, or appending failed part of the way. */
  predicate Appended(before: Str, after: Str, w: Option<Str>, ok: bool) {
    && ok == w.Some?
    && (ok ==> after == before + w.value)
    && (!ok ==> before <= after)
  }

  lemma ConcatNothing(x: Option<Str>)
    ensures C.Concat(Some([]), x) == x
  {
    assert x.Some? ==> [] + x.value == x.value;
  }

  lemma ConcatMore(w: Str, a: Option<Str>, x: Option<Str>)
    ensures C.Concat(Some(w), C.Concat(a, x)) == if a.Some? then C.Concat(Some(w + a.value), x) else None
  {
    assert a.Some? && x.Some? ==> w + (a.value + x.value) == w + a.value + x.value;
  }

  method WriteString(buffer: IOBuffer, s: Str) returns (ok: bool)
    modifies buffer
    ensures Appended(old(buffer.data), buffer.data, C.WriteString(s), ok)
  {
    hide Amf3Values.WriteU29;
    ok := WriteU29(buffer, U32(2 * |s| + 1));
    if !ok {
      return;
    }
    buffer.Append(s[..U32(|s|)]);
  }

  method Write(buffer: IOBuffer, v: Variant) returns (ok: bool)
    modifies buffer
    ensures Appended(old(buffer.data), buffer.data, C.Write(v), ok)
    decreases v, 1, 0
  {
    hide C.WriteString, Amf3Values.WriteU29, U32;
    match v
    case Null =>
      buffer.Append([C.AMF3_NULL]);
      ok := true;
    case Undefined =>
      buffer.Append([C.AMF3_UNDEFINED]);
      ok := true;
    case Bool(b) =>
      buffer.Append([if b then C.AMF3_TRUE else C.AMF3_FALSE]);
      ok := true;
    case Integer(n) =>
      buffer.Append([C.AMF3_INTEGER]);
      ok := WriteU29(buffer, U32(n));
    case Double(octets) =>
      buffer.Append([C.AMF3_DOUBLE]);
      buffer.Append(octets);
      ok := true;
    case String(s) =>
      buffer.Append([C.AMF3_STRING]);
      ok := WriteString(buffer, s);
    case ByteArray(s) =>
      buffer.Append([C.AMF3_BYTEARRAY]);
      ok := WriteString(buffer, s);
    case Map(isArray, c) =>
      if isArray {
        ok := WriteArray(buffer, v);
      } else {
        ok := WriteObject(buffer, v);
      }
  }

  /** The loop over the children that are written with their keys. */
  method WritePairs(buffer: IOBuffer, v: Variant, n: nat) returns (ok: bool)
    requires v.Map?
    modifies buffer
    ensures Appended(old(buffer.data), buffer.data, C.WritePairs(v, 0, n), ok)
    decreases v, 0, |v.children| + 1
  {
    hide C.Write, C.WriteString, Dense;
    ghost var w: Str := [];
    ConcatNothing(C.WritePairs(v, 0, n));
    for i := 0 to |v.children|
      invariant buffer.data == old(buffer.data) + w
      invariant C.WritePairs(v, 0, n) == C.Concat(Some(w), C.WritePairs(v, i, n))
    {
      var (k, u) := v.children[i];
      if !Dense(k, n) {
        ConcatMore(w, C.WriteString(k), C.Concat(C.Write(u), C.WritePairs(v, i + 1, n)));
        ok := WriteString(buffer, k);
        if !ok {
          return;
        }
        w := w + C.WriteString(k).value;
        ConcatMore(w, C.Write(u), C.WritePairs(v, i + 1, n));
        ok := Write(buffer, u);
        if !ok {
          return;
        }
        w := w + C.Write(u).value;
      }
    }
    ok := true;
  }

  method WriteElements(buffer: IOBuffer, v: Variant, n: nat) returns (ok: bool)
    requires v.Map? && forall j: nat | j < n :: HasKey(v.children, IndexKey(j))
    modifies buffer
    ensures Appended(old(buffer.data), buffer.data, C.WriteElements(v, 0, n), ok)
    decreases v, 0, n + 1
  {
    hide C.Write, IndexKey, HasKey;
    ghost var w: Str := [];
    ConcatNothing(C.WriteElements(v, 0, n));
    for i := 0 to n
      invariant buffer.data == old(buffer.data) + w
      invariant C.WriteElements(v, 0, n) == C.Concat(Some(w), C.WriteElements(v, i, n))
    {
      var u := v.children[C.IndexOf(v.children, IndexKey(i))].1;
      ConcatMore(w, C.Write(u), C.WriteElements(v, i + 1, n));
      ok := Write(buffer, u);
      if !ok {
        return;
      }
      w := w + C.Write(u).value;
    }
    ok := true;
  }

  method WriteArray(buffer: IOBuffer, v: Variant) returns (ok: bool)
    requires v.Map? && v.isArray
    modifies buffer
    ensures Appended(old(buffer.data), buffer.data, C.Write(v), ok)
    decreases v, 0, |v.children| + 2
  {
    hide C.WriteString, Amf3Values.WriteU29, U32, C.WritePairs, C.WriteElements, DenseSize;
    buffer.Append([C.AMF3_ARRAY]);
    var n := DenseSize(v.children);
    ok := WriteU29(buffer, U32(2 * n + 1));
    if !ok {
      return;
    }
    ok := WritePairs(buffer, v, n);
    if !ok {
      return;
    }
    ok := WriteString(buffer, []);
    if !ok {
      return;
    }
    ok := WriteElements(buffer, v, n);
  }

  method WriteObject(buffer: IOBuffer, v: Variant) returns (ok: bool)
    requires v.Map? && !v.isArray
    modifies buffer
    ensures Appended(old(buffer.data), buffer.data, C.Write(v), ok)
    decreases v, 0, |v.children| + 2
  {
    hide C.WriteString, Amf3Values.WriteU29, C.WritePairs;
    buffer.Append([C.AMF3_OBJECT]);
    ok := WriteU29(buffer, 0x0b);
    if !ok {
      return;
    }
    ok := WriteString(buffer, []);
    if !ok {
      return;
    }
    ok := WritePairs(buffer, v, 0);
    if !ok {
      return;
    }
    ok := WriteString(buffer, []);
  }

  // ----- reading

  /** ok, v, the tables and the bytes left are what g says; a failed read leaves them anyhow. */
  predicate Reads<T(==)>(g: Option<C.Got<T>>, ok: bool, v: T, r: C.Reader, rest: Str) {
    ok == g.Some? && (ok ==> g.value == C.Got(v, r, rest))
  }

  ghost function Prefixed(names: seq<Str>, g: Option<C.Got<seq<Str>>>): Option<C.Got<seq<Str>>> {
    if g.Some? then Some(g.value.(v := names + g.value.v)) else None
  }

  lemma PrefixedNone(g: Option<C.Got<seq<Str>>>)
    ensures Prefixed([], g) == g
  {
    assert g.Some? ==> [] + g.value.v == g.value.v;
  }

  lemma PrefixedMore(names: seq<Str>, name: Str, g: Option<C.Got<seq<Str>>>)
    ensures Prefixed(names + [name], g) ==
            Prefixed(names, if g.Some? then Some(g.value.(v := [name] + g.value.v)) else None)
  {
    assert g.Some? ==> names + [name] + g.value.v == names + ([name] + g.value.v);
  }

  class AMF3Serializer {
    var strings: seq<Str>
    var byteArrays: seq<Str>
    var objects: seq<Variant>
    var traits: seq<C.Traits>

    constructor ()
      ensures Tables() == C.Reader([], [], [], [])
    {
      strings, byteArrays, objects, traits := [], [], [], [];
    }

    function Tables(): C.Reader
      reads this
    {
      C.Reader(strings, byteArrays, objects, traits)
    }

    static method ReadU29(buffer: IOBuffer) returns (ok: bool, value: nat)
      modifies buffer
      ensures
        var g := Amf3Values.ReadU29(old(buffer.data));
        ok == g.Some? && (ok ==> value == g.value.0 && buffer.data == g.value.1)
      ensures |buffer.data| <= |old(buffer.data)|
    {
      value := 0;
      var i := 0;
      while i < 4
        invariant i <= 4 && |buffer.data| <= |old(buffer.data)|
        invariant ReadU29From(buffer.data, i, value) == ReadU29From(old(buffer.data), 0, 0)
      {
        if |buffer.data| < 1 {
          return false, value;
        }
        var b: nat := buffer.data[0];
        buffer.Ignore(1);
        if i != 3 {
          value := value * 0x80 + b % 0x80;
        } else {
          value := value * 0x100 + b;
        }
        if b < 0x80 {
          break;
        }
        i := i + 1;
      }
      return true, value;
    }

    method ReadString(buffer: IOBuffer) returns (ok: bool, s: Str)
      modifies this, buffer
      ensures Reads(C.ReadString(old(Tables()), old(buffer.data)), ok, s, Tables(), buffer.data)
      ensures |buffer.data| <= |old(buffer.data)|
    {
      hide Amf3Values.ReadU29;
      s := [];
      var temp;
      ok, temp := ReadU29(buffer);
      if !ok {
        return;
      }
      if temp % 2 == 1 {
        var length := temp / 2;
        if length != 0 {
          if |buffer.data| < length {
            ok := false;
            return;
          }
          s := buffer.data[..length];
          buffer.Ignore(length);
          strings := strings + [s];
        }
      } else {
        // past the end of the table the source's behaviour is undefined
        if temp / 2 >= |strings| {
          ok := false;
          return;
        }
        s := strings[temp / 2];
      }
    }

    method ReadByteArray(buffer: IOBuffer) returns (ok: bool, v: Variant)
      modifies this, buffer
      ensures Reads(C.ReadByteArray(old(Tables()), old(buffer.data)), ok, v, Tables(), buffer.data)
      ensures |buffer.data| <= |old(buffer.data)|
    {
      hide Amf3Values.ReadU29;
      v := Null;
      var temp;
      ok, temp := ReadU29(buffer);
      if !ok {
        return;
      }
      if temp % 2 == 1 {
        var length := temp / 2;
        if length != 0 {
          if |buffer.data| < length {
            ok := false;
            return;
          }
          v := ByteArray(buffer.data[..length]);
          byteArrays := byteArrays + [buffer.data[..length]];
          buffer.Ignore(length);
        } else {
          v := ByteArray([]);
        }
      } else {
        if temp / 2 >= |byteArrays| {
          ok := false;
          return;
        }
        v := String(byteArrays[temp / 2]);
      }
    }

    /** Read into a variant that holds into. */
    method Read(buffer: IOBuffer, into: Variant) returns (ok: bool, v: Variant)
      modifies this, buffer
      ensures Reads(C.Read(old(Tables()), old(buffer.data), into), ok, v, Tables(), buffer.data)
      ensures |buffer.data| <= |old(buffer.data)|
      decreases |buffer.data|, 2
    {
      hide Amf3Values.ReadU29, C.ReadString, C.ReadByteArray, C.ReadArray, C.ReadObject;
      ok, v := true, Null;
      if |buffer.data| < 1 {
        ok := false;
        return;
      }
      var t := buffer.data[0];
      buffer.Ignore(1);
      if t == C.AMF3_UNDEFINED || t == C.AMF3_NULL {
        v := Null;
      } else if t == C.AMF3_FALSE {
        v := Bool(false);
      } else if t == C.AMF3_TRUE {
        v := Bool(true);
      } else if t == C.AMF3_INTEGER {
        var n;
        ok, n := ReadU29(buffer);
        v := Integer(n);
      } else if t == C.AMF3_DOUBLE {
        if |buffer.data| < 8 {
          ok := false;
          return;
        }
        v := Double(buffer.data[..8]);
        buffer.Ignore(8);
      } else if t == C.AMF3_STRING {
        var s;
        ok, s := ReadString(buffer);
        v := String(s);
      } else if t == C.AMF3_ARRAY {
        ok, v := ReadArray(buffer, into);
      } else if t == C.AMF3_OBJECT {
        ok, v := ReadObject(buffer, into);
      } else if t == C.AMF3_BYTEARRAY {
        ok, v := ReadByteArray(buffer);
      } else {
        ok := false;
      }
    }

    /** The loop over keys and values, up to the empty key. */
    method ReadPairs(buffer: IOBuffer, into: Variant) returns (ok: bool, v: Variant)
      modifies this, buffer
      ensures Reads(C.ReadPairs(old(Tables()), old(buffer.data), into), ok, v, Tables(), buffer.data)
      ensures |buffer.data| <= |old(buffer.data)|
      decreases |buffer.data|, 0
    {
      hide C.ReadString, C.Read, C.EndKey, C.Subscriptable, C.Child, C.PutChild;
      v := into;
      ghost var whole := C.ReadPairs(Tables(), buffer.data, into);
      while true
        invariant C.ReadPairs(Tables(), buffer.data, v) == whole
        invariant |buffer.data| <= |old(buffer.data)|
        decreases |buffer.data|
      {
        var key, child;
        ok, key := ReadString(buffer);
        if !ok {
          return;
        }
        if C.EndKey(key) {
          break;
        }
        if !C.Subscriptable(v) {
          ok := false;
          return;
        }
        ok, child := Read(buffer, C.Child(v, key));
        if !ok {
          return;
        }
        v := C.PutChild(v, key, child);
      }
      ok := true;
    }

    method ReadElements(buffer: IOBuffer, into: Variant, n: nat) returns (ok: bool, v: Variant)
      modifies this, buffer
      ensures Reads(C.ReadElements(old(Tables()), old(buffer.data), into, 0, n), ok, v, Tables(), buffer.data)
      ensures |buffer.data| <= |old(buffer.data)|
      decreases |buffer.data|, 3
    {
      hide C.Read, C.Subscriptable, C.Child, C.PutChild, IndexKey;
      v := into;
      ghost var whole := C.ReadElements(Tables(), buffer.data, into, 0, n);
      for i := 0 to n
        invariant C.ReadElements(Tables(), buffer.data, v, i, n) == whole
        invariant |buffer.data| <= |old(buffer.data)|
      {
        if !C.Subscriptable(v) {
          ok := false;
          return;
        }
        var child;
        ok, child := Read(buffer, C.Child(v, IndexKey(i)));
        if !ok {
          return;
        }
        v := C.PutChild(v, IndexKey(i), child);
      }
      ok := true;
    }

    method ReadArray(buffer: IOBuffer, into: Variant) returns (ok: bool, v: Variant)
      modifies this, buffer
      ensures Reads(C.ReadArray(old(Tables()), old(buffer.data), into), ok, v, Tables(), buffer.data)
      ensures |buffer.data| <= |old(buffer.data)|
      decreases |buffer.data|, 4
    {
      hide Amf3Values.ReadU29, C.ReadPairs, C.ReadElements, C.AsArray, C.Extends;
      v := into;
      var temp;
      ok, temp := ReadU29(buffer);
      if !ok {
        return;
      }
      if temp % 2 == 0 {
        if temp / 2 >= |objects| {
          ok := false;
          return;
        }
        v := objects[temp / 2];
        return;
      }
      ok, v := ReadPairs(buffer, into);
      if !ok {
        return;
      }
      ok, v := ReadElements(buffer, v, temp / 2);
      if !ok {
        return;
      }
      v := C.AsArray(v);
      objects := objects + [v];
    }

    method ReadNames(buffer: IOBuffer, n: nat) returns (ok: bool, names: seq<Str>)
      modifies this, buffer
      ensures Reads(C.ReadNames(old(Tables()), old(buffer.data), n), ok, names, Tables(), buffer.data)
      ensures |buffer.data| <= |old(buffer.data)|
    {
      hide C.ReadString;
      names := [];
      ghost var whole := C.ReadNames(Tables(), buffer.data, n);
      PrefixedNone(whole);
      for i := 0 to n
        invariant |buffer.data| <= |old(buffer.data)|
        invariant
          var g := C.ReadNames(Tables(), buffer.data, n - i);
          whole == Prefixed(names, g)
      {
        var name;
        ok, name := ReadString(buffer);
        if !ok {
          return;
        }
        PrefixedMore(names, name, C.ReadNames(Tables(), buffer.data, n - i - 1));
        names := names + [name];
      }
      assert names + [] == names;
      ok := true;
    }

    /** The traits of an object: by reference, or given here. */
    method ReadTraits(buffer: IOBuffer, flags: nat) returns (ok: bool, t: C.Traits)
      modifies this, buffer
      ensures Reads(C.ReadTraits(old(Tables()), old(buffer.data), flags), ok, t, Tables(), buffer.data)
      ensures |buffer.data| <= |old(buffer.data)|
    {
      hide C.ReadString, C.ReadNames;
      t := C.Traits(false, []);
      ok := true;
      if (flags / 2) % 2 == 0 {
        if flags / 4 >= |traits| {
          ok := false;
          return;
        }
        t := traits[flags / 4];
      } else {
        var className, names;
        ok, className := ReadString(buffer);
        if !ok {
          return;
        }
        ok, names := ReadNames(buffer, flags / 16);
        if !ok {
          return;
        }
        t := C.Traits((flags / 8) % 2 == 1, names);
        traits := traits + [t];
      }
    }

    method ReadSealed(buffer: IOBuffer, into: Variant, names: seq<Str>) returns (ok: bool, v: Variant)
      modifies this, buffer
      ensures Reads(C.ReadSealed(old(Tables()), old(buffer.data), into, names), ok, v, Tables(), buffer.data)
      ensures |buffer.data| <= |old(buffer.data)|
      decreases |buffer.data|, 3
    {
      hide C.Read, C.Subscriptable, C.Child, C.PutChild;
      v := into;
      ghost var whole := C.ReadSealed(Tables(), buffer.data, into, names);
      for i := 0 to |names|
        invariant C.ReadSealed(Tables(), buffer.data, v, names[i..]) == whole
        invariant |buffer.data| <= |old(buffer.data)|
      {
        assert names[i..][1..] == names[i + 1..];
        var members := C.Child(v, C.AMF3_TRAITS);
        if !C.Subscriptable(v) || !C.Subscriptable(members) {
          ok := false;
          return;
        }
        var member;
        ok, member := Read(buffer, C.Child(members, names[i]));
        if !ok {
          return;
        }
        v := C.PutChild(v, C.AMF3_TRAITS, C.PutChild(members, names[i], member));
      }
      ok := true;
    }

    method ReadObject(buffer: IOBuffer, into: Variant) returns (ok: bool, v: Variant)
      modifies this, buffer
      ensures Reads(C.ReadObject(old(Tables()), old(buffer.data), into), ok, v, Tables(), buffer.data)
      ensures |buffer.data| <= |old(buffer.data)|
      decreases |buffer.data|, 5
    {
      hide Amf3Values.ReadU29, C.ReadNewObject;
      v := into;
      var flags;
      ok, flags := ReadU29(buffer);
      if !ok {
        return;
      }
      if flags % 2 == 0 {
        if flags / 2 >= |objects| {
          ok := false;
          return;
        }
        v := objects[flags / 2];
        return;
      }
      if flags % 8 == 7 {
        ok := false;
        return;
      }
      ok, v := ReadNewObject(buffer, into, flags);
    }

    method ReadNewObject(buffer: IOBuffer, into: Variant, flags: nat) returns (ok: bool, v: Variant)
      modifies this, buffer
      ensures Reads(C.ReadNewObject(old(Tables()), old(buffer.data), into, flags), ok, v, Tables(), buffer.data)
      ensures |buffer.data| <= |old(buffer.data)|
      decreases |buffer.data|, 4
    {
      hide C.ReadTraits, C.ReadSealed, C.ReadPairs, C.Extends;
      v := into;
      var objectIndex := |objects|;
      objects := objects + [Null];
      var t;
      ok, t := ReadTraits(buffer, flags);
      if !ok {
        return;
      }
      ok, v := ReadSealed(buffer, into, t.names);
      if !ok {
        return;
      }
      if t.isDynamic {
        ok, v := ReadPairs(buffer, v);
        if !ok {
          return;
        }
      }
      objects := objects[objectIndex := v];
    }
  }

  /** Reading back what was written, on the buffer itself. */
  method WriteThenRead(s: AMF3Serializer, v: Variant, more: Str) returns (ok: bool, u: Variant, rest: Str)
    requires C.Plain(v)
    modifies s
    ensures ok && u == C.Norm(v) && rest == more
  {
    hide C.Plain, C.Write, C.Read, C.Norm;
    var buffer := new IOBuffer([]);
    ok := Write(buffer, v);
    C.RoundTrip(s.Tables(), v, more);
    assert [] + C.Write(v).value == C.Write(v).value;
    buffer.Append(more);
    ok, u := s.Read(buffer, Null);
    rest := buffer.data;
  }
}
