/** One client connection of the CONN server (CConnInfo in conn/conn.cpp, with the parts of Run and
    Send2Client that drive it): reassembly of the receive stream, and buffered sending.  What read,
    write and epoll_ctl return is a parameter. */
module ConnInfo {
  import opened Common
  import opened ConnFraming

  /** read: some bytes, end of stream, EAGAIN or another error. */
  datatype ReadResult = Bytes(data: seq<byte>) | Eof | ReadAgain | ReadFailed

  /** write: some bytes taken, EAGAIN or another error. */
  datatype WriteResult = Wrote(n: nat) | WriteAgain | WriteFailed

  /** write takes at least one byte, and no more than it was given. */
  predicate Possible(w: WriteResult, len: nat) {
    w.Wrote? ==> 1 <= w.n <= len
  }

  /** How many bytes of the data kept from before a write takes. */
  function Taken(kept: seq<byte>, w: WriteResult): (n: nat)
    requires kept != [] ==> Possible(w, |kept|)
    ensures n <= |kept|
    ensures n == |kept| <==> kept == [] || w == Wrote(|kept|)
  {
    if kept != [] && w.Wrote? then w.n else 0
  }

  /** How many bytes of a new message are taken: none while older data is kept. */
  function TakenNow(kept: seq<byte>, s: seq<byte>, w1: WriteResult, w2: WriteResult): (n: nat)
    requires (kept != [] ==> Possible(w1, |kept|)) && Possible(w2, |s|)
    ensures n <= |s|
  {
    if Taken(kept, w1) == |kept| && w2.Wrote? then w2.n else 0
  }

  /** The write that decides has failed: the first that does not take all it is given. */
  predicate Broken(kept: seq<byte>, w1: WriteResult, w2: WriteResult)
    requires kept != [] ==> Possible(w1, |kept|)
  {
    if Taken(kept, w1) == |kept| then w2.WriteFailed? else w1.WriteFailed?
  }

  /** H is what the packets' handlers look at and change. */
  class ConnInfo<!H> {
    var remainRecv: seq<byte>
    var remainSend: seq<byte>
    /** EPOLLOUT is among the socket's events. */
    var armed: bool
    var state: H

    /** The state when another event last changed it, the bytes kept then and read since, and the packets
        handed on since. */
    ghost var Start: H
    ghost var Stream: seq<byte>
    ghost var Handed: seq<seq<byte>>
    /** All messages given to Send2Client, and the bytes write has taken. */
    ghost var Sent: seq<byte>
    ghost var Written: seq<byte>

    /** The reads so far came to what one pass over the stream gives. */
    ghost predicate RecvValid(handle: Handler<H>)
      reads this
    {
      Parse(Stream, Start, handle) == Outcome(Handed, false, remainRecv, state)
    }

    /** No byte sent is lost, doubled or out of order. */
    ghost predicate SendValid()
      reads this
    {
      Written + remainSend == Sent
    }

    constructor (h: H)
      ensures state == Start == h && Stream == [] && Handed == [] && Sent == [] && Written == []
      ensures SendValid() && !armed && remainSend == [] && remainRecv == []
    {
      remainRecv, remainSend, armed, state, Start := [], [], false, h, h;
      Stream, Handed, Sent, Written := [], [], [], [];
    }

    // ----- receiving

    /** Recv with a buffer of buffLen bytes: 0 data, 1 end of stream, -1 error. */
    method Recv(buffLen: nat, r: ReadResult) returns (rc: int, buff: seq<byte>)
      requires |remainRecv| < buffLen <= XY_MAXBUFF_LEN
      requires r.Bytes? ==> 1 <= |r.data| <= buffLen - |remainRecv|
      modifies this`remainRecv
      ensures rc == if r.Bytes? || r.ReadAgain? then 0 else if r.Eof? then 1 else -1
      ensures rc == 0 ==> buff == old(remainRecv) + (if r.Bytes? then r.data else []) && remainRecv == []
      ensures rc != 0 ==> remainRecv == old(remainRecv)
    {
      buff := [];
      if remainRecv != [] {
        if |remainRecv| > XY_MAXBUFF_LEN {
          return -1, buff;
        }
      }
      match r
      case Bytes(data) =>
        buff := data;
        if remainRecv != [] {
          buff := remainRecv + buff;
          remainRecv := [];
        }
        return 0, buff;
      case Eof =>
        return 1, buff;
      case ReadAgain =>
        if remainRecv != [] {
          buff := remainRecv;
          remainRecv := [];
        }
        return 0, buff;
      case ReadFailed =>
        return -1, buff;
    }

    method AddRecvData(s: seq<byte>) returns (rc: int)
      modifies this`remainRecv
      ensures rc == if |old(remainRecv)| + |s| > XY_MAXBUFF_LEN then -1 else 0
      ensures remainRecv == if rc == 0 then old(remainRecv) + s else old(remainRecv)
    {
      if remainRecv != [] {
        if |remainRecv| + |s| > XY_MAXBUFF_LEN {
          return -1;
        }
        remainRecv := remainRecv + s;
      } else {
        if |s| > XY_MAXBUFF_LEN {
          return -1;
        }
        remainRecv := s;
      }
      return 0;
    }

    /** Some other event changes the state between two reads. */
    method ChangeState(h: H, ghost handle: Handler<H>)
      requires RecvValid(handle)
      modifies this`state, this`Start, this`Stream, this`Handed
      ensures state == Start == h && Stream == remainRecv && Handed == [] && RecvValid(handle)
    {
      RestLeavesRoom(Stream, Start, handle);
      WaitingStays(remainRecv, h, handle);
      state := h;
      Start, Stream, Handed := h, remainRecv, [];
    }

    /** ProcessPkg: -1 to close, the packet's length when it was handled, and a length greater than |s|
        to wait. */
    method ProcessPkg(s: seq<byte>, handle: Handler<H>) returns (len: int)
      modifies this`state
      ensures match Frame(s)
              case Wait(need) => len == need > |s| && state == old(state)
              case Reject => len == -1 && state == old(state)
              case Whole(n) =>
                match handle(old(state), s[..n])
                case None => len == -1 && state == old(state)
                case Some(h) => len == n && state == h
    {
      if |s| < HEAD_LEN {
        return HEAD_LEN;
      }
      var pkgLen := PkgLen(s);
      if Signed(pkgLen) < HEAD_LEN {
        return -1;
      }
      if Signed(pkgLen) - HEAD_LEN > XY_PKG_MAX_LEN - HEAD_IN_LEN {
        return -1;
      }
      if pkgLen > |s| {
        return pkgLen;
      }
      match handle(state, s[..pkgLen])
      case None =>
        return -1;
      case Some(h) =>
        state := h;
        return pkgLen;
    }

    /** The EPOLLIN branch of Run.  As long as the connection stays open, what was handed on is a
        one-pass parse of everything read; it closes where that parse closes, or when read fails. */
    method OnReadable(r: ReadResult, handle: Handler<H>) returns (released: bool)
      requires RecvValid(handle)
      requires r.Bytes? ==> 1 <= |r.data| <= XY_MAXBUFF_LEN - |remainRecv|
      modifies this`remainRecv, this`state, this`Stream, this`Handed
      ensures Stream == old(Stream) + if r.Bytes? then r.data else []
      ensures var o := Parse(Stream, Start, handle);
              && Handed == o.packets && state == o.state
              && released == (o.closed || r.Eof? || r.ReadFailed?)
              && (!released ==> RecvValid(handle) && remainRecv == o.rest)
      ensures 0 < XY_MAXBUFF_LEN - |old(remainRecv)|
    {
      hide Frame, Parse;
      RestLeavesRoom(Stream, Start, handle);
      assert Stream + [] == Stream;
      ghost var data := if r.Bytes? then r.data else [];
      ParseSplit(Stream, data, Start, handle);
      Stream := Stream + data;
      var rc, buff := Recv(XY_MAXBUFF_LEN, r);
      if rc != 0 {
        return true;
      }
      ghost var before, whole := Handed, Parse(buff, state, handle);
      RestLeavesRoom(buff, state, handle);
      released := false;
      ParseNothing(state, handle);
      while buff != []
        invariant Stream == old(Stream) + data && (buff != [] ==> !released)
        invariant !released && buff != [] ==> remainRecv == []
        invariant
          var o := Parse(buff, state, handle);
          && before + whole.packets == Handed + o.packets
          && whole.closed == (o.closed || released)
          && whole.rest == (if buff == [] then remainRecv else o.rest)
          && whole.state == o.state
        decreases |buff|
      {
        ParseStep(buff, state, handle);
        ghost var h := state;
        var procLen := ProcessPkg(buff, handle);
        if procLen > |buff| || procLen == 0 {
          var rc2 := AddRecvData(buff);
          if rc2 != 0 {
            released := true;
          }
          buff := [];
        } else if procLen == -1 {
          released, buff := true, [];
        } else if procLen < -1 {
          released, buff := true, [];
        } else {
          assert [buff[..procLen]] + Parse(buff[procLen..], state, handle).packets == Parse(buff, h, handle).packets;
          Handed := Handed + [buff[..procLen]];
          buff := buff[procLen..];
        }
        ParseNothing(state, handle);
      }
      ParseNothing(state, handle);
    }

    // ----- sending

    /** Send: the kept data first.  w1 and w2 are the results of the writes it makes; the result is
        how many bytes of s were taken, or -1. */
    method Send(s: seq<byte>, w1: WriteResult, w2: WriteResult) returns (rc: int)
      requires s != [] && (remainSend != [] ==> Possible(w1, |remainSend|)) && Possible(w2, |s|)
      modifies this`remainSend, this`Written
      ensures rc == if Broken(old(remainSend), w1, w2) then -1 else TakenNow(old(remainSend), s, w1, w2)
      ensures
        var kept := old(remainSend);
        && remainSend == kept[Taken(kept, w1)..]
        && Written == old(Written) + kept[..Taken(kept, w1)] + s[..TakenNow(kept, s, w1, w2)]
    {
      if remainSend != [] {
        match w1
        case Wrote(n) =>
          Written := Written + remainSend[..n];
          if n < |remainSend| {
            remainSend := remainSend[n..];
            return 0;
          }
          remainSend := [];
        case WriteAgain =>
          return 0;
        case WriteFailed =>
          return -1;
      }
      match w2
      case Wrote(n) =>
        Written := Written + s[..n];
        return n;
      case WriteAgain =>
        return 0;
      case WriteFailed =>
        return -1;
    }

    method AddSendData(s: seq<byte>) returns (rc: int)
      modifies this`remainSend
      ensures rc == if |old(remainSend)| + |s| > XY_MAXBUFF_LEN then -1 else 0
      ensures remainSend == if rc == 0 then old(remainSend) + s else old(remainSend)
    {
      if remainSend != [] {
        if |remainSend| + |s| > XY_MAXBUFF_LEN {
          return -1;
        }
        remainSend := remainSend + s;
      } else {
        if |s| > XY_MAXBUFF_LEN {
          return -1;
        }
        remainSend := s;
      }
      return 0;
    }

    /** SendRemainData: 0 all gone, 1 some left, -1 error. */
    method SendRemainData(w: WriteResult) returns (rc: int)
      requires remainSend != [] ==> Possible(w, |remainSend|)
      modifies this`remainSend, this`Written
      ensures
        var kept := old(remainSend);
        && remainSend == kept[Taken(kept, w)..]
        && Written == old(Written) + kept[..Taken(kept, w)]
      ensures rc == if remainSend == [] then 0 else if w.WriteFailed? then -1 else 1
    {
      if remainSend != [] {
        match w
        case Wrote(n) =>
          Written := Written + remainSend[..n];
          if n < |remainSend| {
            remainSend := remainSend[n..];
            return 1;
          }
          remainSend := [];
        case WriteAgain =>
          return 1;
        case WriteFailed =>
          return -1;
      }
      return 0;
    }

    /** Data is only kept while write events are on. */
    predicate Wakes()
      reads this
    {
      remainSend != [] ==> armed
    }

    /** Send2Client on an open connection.  ctlOk is what epoll_ctl answers.  The connection is released
        when a write fails, or when what is left does not fit into the buffer; otherwise nothing is lost. */
    method Send2Client(s: seq<byte>, w1: WriteResult, w2: WriteResult, ctlOk: bool) returns (rc: int)
      requires SendValid() && s != []
      requires remainSend != [] ==> Possible(w1, |remainSend|)
      requires Possible(w2, |s|)
      modifies this`remainSend, this`Written, this`Sent, this`armed
      ensures Sent == old(Sent) + s
      ensures
        var kept := old(remainSend);
        var left := kept[Taken(kept, w1)..] + s[TakenNow(kept, s, w1, w2)..];
        && Written == old(Written) + kept[..Taken(kept, w1)] + s[..TakenNow(kept, s, w1, w2)]
        && (rc == -3 <==> Broken(kept, w1, w2))
        && (rc == -2 <==> !Broken(kept, w1, w2) && TakenNow(kept, s, w1, w2) < |s| && |left| > XY_MAXBUFF_LEN)
        && (rc == 0 || rc == -2 || rc == -3)
        && (rc == 0 ==> remainSend == left && armed == (old(armed) || (TakenNow(kept, s, w1, w2) < |s| && ctlOk)))
      ensures rc == 0 ==> SendValid() && (old(Wakes()) ==> (Wakes() <==> remainSend == [] || ctlOk || old(armed)))
      ensures rc != 0 ==> Written <= Sent
      ensures old(Written) <= Written
    {
      ghost var kept, m := remainSend, TakenNow(remainSend, s, w1, w2);
      Delivered(Written, kept, Taken(kept, w1), s, m);
      var n := Send(s, w1, w2);
      Sent := Sent + s;
      if 0 <= n < |s| {
        var rc3 := AddSendData(s[n..]);
        if rc3 != 0 {
          return -2;
        }
        if ctlOk {
          armed := true;
        }
      } else if n < 0 {
        return -3;
      }
      return 0;
    }

    /** What there is to send, what the peer has, and whether write events are on. */
    ghost function Out(): Output
      reads this
    {
      Output(remainSend, Written, armed)
    }

    /** The EPOLLOUT branch of Run. */
    method OnWritable(w: WriteResult, ctlOk: bool) returns (released: bool)
      requires SendValid() && (remainSend != [] ==> Possible(w, |remainSend|))
      modifies this`remainSend, this`Written, this`armed
      ensures Turned(old(Out()), w, ctlOk, Out(), released)
      ensures SendValid() && (old(Wakes()) ==> Wakes())
    {
      var rc := SendRemainData(w);
      if rc == 1 {
        return false;
      } else if rc != 0 {
        return true;
      }
      if ctlOk {
        armed := false;
      }
      return false;
    }
  }

  /** Written and kept bytes, and a message behind them. */
  lemma Delivered(written: seq<byte>, kept: seq<byte>, n: nat, s: seq<byte>, m: nat)
    requires n <= |kept| && m <= |s| && (n < |kept| ==> m == 0)
    ensures (written + kept[..n] + s[..m]) + (kept[n..] + s[m..]) == written + kept + s
  {
    assert kept == kept[..n] + kept[n..] && s == s[..m] + s[m..];
    if n == |kept| {
      assert kept[..n] == kept && kept[n..] == [];
    } else {
      assert s[..m] == [] && s[m..] == s;
    }
  }

  // ----- runs of write events

  datatype Output = Output(kept: seq<byte>, written: seq<byte>, armed: bool)

  /** One write event: the first bytes that were kept go out, as many as write takes; the connection is
      released when data was kept and write fails; and write events go off when nothing is left. */
  ghost predicate Turned(o: Output, w: WriteResult, ctlOk: bool, o': Output, released: bool) {
    var n := if o.kept != [] && w.Wrote? then w.n else 0;
    && n <= |o.kept|
    && o'.written == o.written + o.kept[..n]
    && o'.kept == o.kept[n..]
    && (released <==> o.kept != [] && w.WriteFailed?)
    && o'.armed == (o.armed && !(o'.kept == [] && ctlOk))
  }

  /** Write events one after the other, none of which released the connection. */
  ghost predicate Writable(outs: seq<Output>, ws: seq<WriteResult>, ctls: seq<bool>) {
    && |outs| == |ws| + 1 == |ctls| + 1
    && forall i | 0 <= i < |ws| ::
         (outs[i].kept != [] ==> Possible(ws[i], |outs[i].kept|)) && Turned(outs[i], ws[i], ctls[i], outs[i + 1], false)
  }

  lemma TurnKeeps(o: Output, w: WriteResult, ctlOk: bool, o': Output)
    requires Turned(o, w, ctlOk, o', false) && (o.kept != [] ==> Possible(w, |o.kept|))
    ensures o'.written + o'.kept == o.written + o.kept
    ensures o'.kept == [] || |o'.kept| + (if w.Wrote? then 1 else 0) <= |o.kept|
  {
    var n := if o.kept != [] && w.Wrote? then w.n else 0;
    assert o.kept == o.kept[..n] + o.kept[n..];
  }

  function Writes(ws: seq<WriteResult>): nat {
    if ws == [] then 0 else Writes(ws[..|ws| - 1]) + if ws[|ws| - 1].Wrote? then 1 else 0
  }

  lemma {:induction false} WrittenSoFar(outs: seq<Output>, ws: seq<WriteResult>, ctls: seq<bool>)
    requires Writable(outs, ws, ctls)
    ensures outs[|ws|].written + outs[|ws|].kept == outs[0].written + outs[0].kept
    ensures outs[|ws|].kept == [] || |outs[|ws|].kept| + Writes(ws) <= |outs[0].kept|
    decreases |ws|
  {
    if ws != [] {
      hide Turned, Possible;
      var last := |ws| - 1;
      WrittenSoFar(outs[..last + 1], ws[..last], ctls[..last]);
      TurnKeeps(outs[last], ws[last], ctls[last], outs[last + 1]);
    }
  }

  /** Every kept byte is sent, in order, once as many writes as there are bytes have succeeded; and write
      events are off once epoll_ctl has said yes with nothing left. */
  lemma EverythingSent(outs: seq<Output>, ws: seq<WriteResult>, ctls: seq<bool>)
    requires Writable(outs, ws, ctls) && Writes(ws) >= |outs[0].kept|
    ensures outs[|ws|].kept == [] && outs[|ws|].written == outs[0].written + outs[0].kept
    ensures ws != [] && ctls[|ws| - 1] ==> !outs[|ws|].armed
  {
    WrittenSoFar(outs, ws, ctls);
    if ws != [] {
      assert Turned(outs[|ws| - 1], ws[|ws| - 1], ctls[|ws| - 1], outs[|ws|], false);
    }
  }
}
