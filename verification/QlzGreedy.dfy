/** Which tokens the compressor of mmlib/quicklz/quicklz.c makes of an input, said from the input and the
    tokens alone; and what this comes to on inputs that repeat themselves. */
module QlzGreedy {
  import opened Common
  import opened QlzTokens
  import opened QlzStream

  /** Where the j-th token starts. */
  function Start(ts: seq<Token>, j: nat): nat
    requires j <= |ts|
  {
    Covered(ts[..j])
  }

  /** The last of the first n token starts whose three bytes have bucket h. */
  function LastStart(x: seq<byte>, ts: seq<Token>, n: nat, h: nat): Option<nat>
    requires n <= |ts|
  {
    if n == 0 then None
    else if Start(ts, n - 1) + 4 <= |x| && HashAt(x, Start(ts, n - 1)) == h then Some(Start(ts, n - 1))
    else LastStart(x, ts, n - 1, h)
  }

  /** The bytes at o, an earlier token start, may be used for a match at t, where the n-th token starts: they
      are the same three bytes, not those at the very beginning, and more than two bytes back; or one byte
      back, behind three literals and in a run of equal bytes. */
  ghost predicate Usable(x: seq<byte>, ts: seq<Token>, n: nat, o: nat, t: nat)
    requires n <= |ts| && o < t && t + 11 <= |x|
  {
    && o != 0 && x[o..o + 3] == x[t..t + 3]
    && (t - o > 2 ||
        (t - o == 1 && t > 3 && n >= 3 && ts[n - 1].Literal? && ts[n - 2].Literal? && ts[n - 3].Literal? &&
         forall i | t - 3 <= i <= t + 3 :: x[i] == x[t]))
  }

  /** How many literals there are just before the n-th token. */
  function Literals(ts: seq<Token>, n: nat): (k: nat)
    requires n <= |ts|
    ensures k <= n
  {
    if n == 0 || ts[n - 1].Match? then 0 else Literals(ts, n - 1) + 1
  }

  // ----- the compressor's state, from the tokens

  lemma {:induction false} StateIs(x: seq<byte>, n: nat, h: nat)
    requires n <= |Parse(x)|
    ensures
      var s, o := EncAfter(x, n), LastStart(x, Parse(x), n, h);
      && s.lits == Literals(Parse(x), n) && s.pos == Start(Parse(x), n)
      && (h in s.table <==> o.Some?) && (o.Some? ==> s.table[h] == o.value)
  {
    hide Parse, HashAt, NextToken, FindsMatch;
    ParseStep(x, n);
    if n > 0 {
      ParseStep(x, n - 1);
      StateIs(x, n - 1, h);
    }
  }

  lemma ThreeLiterals(ts: seq<Token>, n: nat)
    requires n <= |ts|
    ensures Literals(ts, n) >= 3 <==> n >= 3 && ts[n - 1].Literal? && ts[n - 2].Literal? && ts[n - 3].Literal?
  {
    if n >= 2 {
      assert Literals(ts, n - 1) == if ts[n - 2].Match? then 0 else Literals(ts, n - 2) + 1;
    }
  }

  lemma AgreeIs(x: seq<byte>, o: nat, t: nat, n: nat)
    requires o <= t && t + n <= |x|
    ensures Agree(x, o, t, n) <==> x[o..o + n] == x[t..t + n]
  {
    var a, b := x[o..o + n], x[t..t + n];
    if Agree(x, o, t, n) {
      forall i | 0 <= i < n
        ensures a[i] == b[i]
      {
        assert x[t + i] == x[t + i - (t - o)];
      }
    }
    if a == b {
      forall i | t <= i < t + n
        ensures x[i] == x[i - (t - o)]
      {
        assert a[i - t] == b[i - t];
      }
    }
  }

  lemma RunIs(x: seq<byte>, t: nat)
    requires 3 <= t && t + 4 <= |x|
    ensures InRun(x, t) <==> forall i | t - 3 <= i <= t + 3 :: x[i] == x[t]
  {
  }

  /** The compressor's test is the one above, in a state that agrees with the tokens. */
  lemma FindsIs(x: seq<byte>, s: Enc, ts: seq<Token>, n: nat, o: Option<nat>)
    requires ValidEnc(x, s) && s.pos + 11 <= |x| && n <= |ts| && s.lits == Literals(ts, n)
    requires
      var h := HashAt(x, s.pos);
      (h in s.table <==> o.Some?) && (o.Some? ==> s.table[h] == o.value)
    ensures o.Some? ==> o.value < s.pos
    ensures FindsMatch(x, s) <==> o.Some? && Usable(x, ts, n, o.value, s.pos)
  {
    hide HashAt, Literals, Agree, InRun;
    ThreeLiterals(ts, n);
    if o.Some? {
      AgreeIs(x, o.value, s.pos, 3);
      if s.pos >= 3 {
        RunIs(x, s.pos);
      }
    }
  }

  /** Token n at t, when o is the last earlier token start in the bucket of t: a match exactly if eleven
      bytes are left and o is usable, and then as long as the bytes agree, up to 255 of them, and up to four
      bytes before the end; and otherwise the literal. */
  ghost predicate Chosen(x: seq<byte>, ts: seq<Token>, n: nat, t: nat, o: Option<nat>)
    requires n < |ts| && t < |x|
  {
    if t + 11 <= |x| && o.Some? && o.value < t && Usable(x, ts, n, o.value, t) then
      && ts[n].Match? && ts[n].bucket == HashAt(x, t)
      && var len := ts[n].len;
      && 3 <= len <= 255 && t + len <= |x| - 4 && x[o.value..o.value + len] == x[t..t + len]
      && (len == 255 || t + len == |x| - 4 || x[o.value + len] != x[t + len])
    else
      ts[n] == Literal(x[t])
  }

  /** Every token of every input. */
  lemma Greedy(x: seq<byte>, n: nat)
    requires n < |Parse(x)|
    ensures
      var ts := Parse(x);
      var t := Start(ts, n);
      t < |x| && Chosen(x, ts, n, t, if t + 3 <= |x| then LastStart(x, ts, n, HashAt(x, t)) else None)
  {
    var ts, s := Parse(x), EncAfter(x, n);
    ParseStep(x, n);
    StateIs(x, n, 0);
    if s.pos + 3 <= |x| {
      StateIs(x, n, HashAt(x, s.pos));
    }
    hide *;
    TokenIs(x, s, ts, n, if s.pos + 3 <= |x| then LastStart(x, ts, n, HashAt(x, s.pos)) else None);
  }

  lemma TokenIs(x: seq<byte>, s: Enc, ts: seq<Token>, n: nat, o: Option<nat>)
    requires ValidEnc(x, s) && s.pos < |x| && n < |ts| && s.lits == Literals(ts, n) && ts[n] == NextToken(x, s)
    requires s.pos + 3 <= |x| ==>
               var h := HashAt(x, s.pos);
               (h in s.table <==> o.Some?) && (o.Some? ==> s.table[h] == o.value)
    ensures Chosen(x, ts, n, s.pos, o)
  {
    hide HashAt, Literals, Agree, Usable, FindsMatch;
    if s.pos + 11 <= |x| {
      FindsIs(x, s, ts, n, o);
      if FindsMatch(x, s) {
        MatchIs(x, s, o.value);
      }
    }
  }

  lemma MatchIs(x: seq<byte>, s: Enc, o: nat)
    requires ValidEnc(x, s) && s.pos + 11 <= |x| && FindsMatch(x, s) && s.table[HashAt(x, s.pos)] == o
    ensures
      var t, tok := s.pos, NextToken(x, s);
      && tok.Match? && tok.bucket == HashAt(x, t) && 3 <= tok.len <= 255 && t + tok.len <= |x| - 4
      && x[o..o + tok.len] == x[t..t + tok.len]
      && (tok.len == 255 || t + tok.len == |x| - 4 || x[o + tok.len] != x[t + tok.len])
  {
    hide HashAt, Agree;
    AgreeIs(x, o, s.pos, NextToken(x, s).len);
  }
}
