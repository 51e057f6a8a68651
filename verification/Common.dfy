/** Types shared by the models of the library's components. */
module Common {

  type byte = b: int | 0 <= b < 256

  datatype Option<+T> = None | Some(value: T)

  function Pow2(n: nat): (p: nat)
    ensures p >= 1
  {
    if n == 0 then 1 else 2 * Pow2(n - 1)
  }

  function Min(a: int, b: int): int {
    if a < b then a else b
  }

  function Max(a: int, b: int): int {
    if a < b then b else a
  }

  /** A 32-bit unsigned result. */
  function U32(v: int): (r: nat)
    ensures r < 0x1_0000_0000
  {
    v % 0x1_0000_0000
  }

  lemma SubsetSize<T>(a: set<T>, b: set<T>)
    requires a <= b
    ensures |a| <= |b|
  {
    assert b == a + (b - a);
  }

  lemma FullSubset<T>(a: set<T>, b: set<T>)
    requires a <= b && |a| >= |b|
    ensures a == b
  {
    assert |b| == |a| + |b - a|;
  }

  /** The i-th place behind p in a ring. */
  function RingIndex(size: nat, p: nat, i: nat): (k: nat)
    requires p < size && i <= size
    ensures k < size
  {
    if p + i < size then p + i else p + i - size
  }

  ghost predicate Distinct(s: seq<nat>) {
    forall i, j | 0 <= i < j < |s| :: s[i] != s[j]
  }

  ghost function Elements<T(!new)>(s: seq<T>): (e: set<T>)
    ensures forall x :: x in e <==> x in s
  {
    set x | x in s
  }

  lemma {:induction false} ElementsSize(s: seq<nat>)
    requires Distinct(s)
    ensures |Elements(s)| == |s|
  {
    if s != [] {
      var init, last := s[..|s| - 1], s[|s| - 1];
      ElementsSize(init);
      assert s == init + [last] && last !in init;
      assert Elements(s) == Elements(init) + {last};
    }
  }

  function Joined<T>(parts: seq<seq<T>>): seq<T> {
    if parts == [] then [] else parts[0] + Joined(parts[1..])
  }

  function Below(n: nat): (s: set<nat>)
    ensures |s| == n && forall k: nat :: k in s <==> k < n
  {
    if n == 0 then {} else Below(n - 1) + {n - 1}
  }

  // ----- linked lists, as the sequences of their elements

  function PushFront<T>(lists: seq<seq<T>>, b: nat, x: T): (r: seq<seq<T>>)
    requires b < |lists|
    ensures |r| == |lists|
  {
    lists[b := [x] + lists[b]]
  }

  function RemoveAt<T>(lists: seq<seq<T>>, b: nat, i: nat): (r: seq<seq<T>>)
    requires b < |lists| && i < |lists[b]|
    ensures |r| == |lists|
  {
    lists[b := lists[b][..i] + lists[b][i + 1..]]
  }

  function Total<T>(lists: seq<seq<T>>): nat {
    if lists == [] then 0 else Total(lists[..|lists| - 1]) + |lists[|lists| - 1]|
  }

  /** Where the node at (c, j) was before the one at (b, i) left. */
  function Before(b: nat, i: nat, c: nat, j: nat): nat {
    if c == b && j >= i then j + 1 else j
  }

  // ----- 32-bit little-endian words

  /** The four bytes that one 32-bit little-endian read returns. */
  datatype Word = Word(b0: byte, b1: byte, b2: byte, b3: byte)

  /** The 32-bit value of a word. */
  function Value(w: Word): (v: nat)
    ensures v < 0x1_0000_0000
  {
    w.b0 + 0x100 * w.b1 + 0x1_0000 * w.b2 + 0x100_0000 * w.b3
  }

  function Bytes32(v: nat): (s: seq<byte>)
    requires v < 0x1_0000_0000
    ensures |s| == 4
  {
    [v % 0x100, (v / 0x100) % 0x100, (v / 0x1_0000) % 0x100, v / 0x100_0000]
  }

  function WordAt(s: seq<byte>, p: nat): Word
    requires p + 4 <= |s|
  {
    Word(s[p], s[p + 1], s[p + 2], s[p + 3])
  }

  lemma Bytes32RoundTrip(v: nat)
    requires v < 0x1_0000_0000
    ensures Value(WordAt(Bytes32(v), 0)) == v
  {
    var a, b := v / 0x100, v / 0x1_0000;
    assert v == v % 0x100 + 0x100 * a;
    assert a == a % 0x100 + 0x100 * (a / 0x100);
    assert a / 0x100 == b;
    assert b == b % 0x100 + 0x100 * (b / 0x100);
    assert b / 0x100 == v / 0x100_0000;
  }

  /** A word read inside a sequence is the word of the four-byte slice. */
  lemma WordAtSlice(s: seq<byte>, p: nat, a: seq<byte>)
    requires |a| == 4 && p + 4 <= |s| && s[p..p + 4] == a
    ensures WordAt(s, p) == WordAt(a, 0)
  {
    var w := s[p..p + 4];
    assert w[0] == s[p] && w[1] == s[p + 1] && w[2] == s[p + 2] && w[3] == s[p + 3];
  }
}
