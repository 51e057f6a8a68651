/** The handlers of the CONN server (CConn in conn/conn.cpp) that change the connection table and the
    login directory, in the source's imperative form; ConnDirectory says what each does. */
module ConnServer {
  import opened Common
  import opened ConnDirectory
  import M = ConnMerge

  const LISTEN_SOCK_CPOS_MIN := 100
  const LISTEN_SOCK_CPOS_MAX := 199
  const CLIENT_SOCK_CPOS_MIN := 500
  const CPOS_END := 0x1_0000_0000

  /** What a server sends to the other CONN servers: notices to all but itself, sync replies to one. */
  datatype Message =
    | LoginNotice(data: LoginData)
    | LoginDisconnect(data: LoginData)
    | LoginSyncRsp(dst: int, batch: seq<LoginData>)

  /** What an event makes the server tell the others. */
  function Announced(s: Server, e: Event): seq<Message> {
    match e
    case Login(pos, u, now) => [LoginNotice(LoginData(u, s.id, pos, now))]
    case Drop(pos, now) =>
      if pos in s.conns && s.conns[pos].userId != 0
      then [LoginDisconnect(LoginData(s.conns[pos].userId, s.id, pos, now))] else []
    case _ => []
  }

  /** The positions a scan that began at start has been through, with one jump back at most. */
  ghost predicate Scanned(seen: set<nat>, start: nat, pos: nat, wrapped: bool) {
    && CLIENT_SOCK_CPOS_MIN <= start < CPOS_END && CLIENT_SOCK_CPOS_MIN <= pos < CPOS_END
    && (if wrapped then |seen| == CPOS_END - start + pos - (CLIENT_SOCK_CPOS_MIN + 1) &&
        CLIENT_SOCK_CPOS_MIN < pos <= start
        else start <= pos && |seen| == pos - start)
    && forall p :: p in seen <==> if wrapped then start <= p < CPOS_END || CLIENT_SOCK_CPOS_MIN < p < pos
        else start <= p < pos
  }

  /** Every turn of the scan sees one position more, and while there are unused ones it does not come back
      to where it began. */
  lemma ScanOn(seen: set<nat>, start: nat, pos: nat, wrapped: bool, used: set<nat>)
    requires Scanned(seen, start, pos, wrapped) && seen <= used && pos in used
    requires |used| < CPOS_END - CLIENT_SOCK_CPOS_MIN - 1
    ensures seen + {pos} <= used && |seen + {pos}| == |seen| + 1 <= |used|
    ensures if (pos + 1) % CPOS_END < CLIENT_SOCK_CPOS_MIN
            then Scanned(seen + {pos}, start, CLIENT_SOCK_CPOS_MIN + 1, true)
            else Scanned(seen + {pos}, start, (pos + 1) % CPOS_END, wrapped)
  {
    SubsetSize(seen, used);
    assert pos !in seen;
    SubsetSize(seen + {pos}, used);
    assert pos + 1 < CPOS_END ==> (pos + 1) % CPOS_END == pos + 1;
  }

  class ConnServer {
    const serverId: int
    /** The hash list behind the directory has one bucket per node, and node 0 is never used. */
    const maxGnsNodeNum: nat
    const timeOut: int
    var conns: map<nat, Conn>
    var gns: map<nat, Gns>
    var connPosCnt: nat
    var checkConnPos: nat
    var sent: seq<Message>

    function Abs(): Server
      requires maxGnsNodeNum > 0
      reads this
    {
      Server(serverId, maxGnsNodeNum - 1, conns, gns)
    }

    ghost predicate Valid()
      reads this
    {
      maxGnsNodeNum > 0 && checkConnPos < maxGnsNodeNum && Agreement(Abs())
    }

    constructor (id: int, nodeNum: nat, timeOutSeconds: int, listening: set<nat>)
      requires nodeNum > 0 && forall p | p in listening :: LISTEN_SOCK_CPOS_MIN <= p <= LISTEN_SOCK_CPOS_MAX
      ensures Valid() && serverId == id && gns == map[] && conns.Keys == listening
    {
      serverId, maxGnsNodeNum, timeOut := id, nodeNum, timeOutSeconds;
      conns := map p | p in listening :: Conn(0, false, 0);
      gns, connPosCnt, checkConnPos, sent := map[], 0, 0, [];
    }

    /** The part of AcceptConn that picks a position nobody uses. */
    method FreePos() returns (pos: nat)
      requires |conns| < CPOS_END - CLIENT_SOCK_CPOS_MIN - 1
      modifies this`connPosCnt
      ensures pos !in conns && CLIENT_SOCK_CPOS_MIN <= pos < CPOS_END
    {
      connPosCnt := (connPosCnt + 1) % CPOS_END;
      if connPosCnt < CLIENT_SOCK_CPOS_MIN {
        pos := CLIENT_SOCK_CPOS_MIN + 1;
        connPosCnt := pos;
      } else {
        pos := connPosCnt;
      }
      ghost var seen, start, wrapped := {}, pos, false;
      while pos in conns
        invariant Scanned(seen, start, pos, wrapped) && seen <= conns.Keys
        decreases |conns| - |seen|
      {
        ScanOn(seen, start, pos, wrapped, conns.Keys);
        seen := seen + {pos};
        pos := (pos + 1) % CPOS_END;
        if pos < CLIENT_SOCK_CPOS_MIN {
          pos := CLIENT_SOCK_CPOS_MIN + 1;
          wrapped := true;
        }
      }
    }

    method AcceptConn(now: int) returns (pos: nat)
      requires Valid() && |conns| < CPOS_END - CLIENT_SOCK_CPOS_MIN - 1
      modifies this`conns, this`connPosCnt
      ensures Valid() && pos !in old(conns) && pos >= CLIENT_SOCK_CPOS_MIN
      ensures Abs() == Accepted(old(Abs()), pos, now)
      ensures conns == old(conns)[pos := Conn(0, false, now)] && gns == old(gns)
    {
      pos := FreePos();
      AcceptKeeps(Abs(), pos, now);
      conns := conns[pos := Conn(0, false, now)];
    }

    /** ReleaseConn. */
    method ReleaseConn(pos: nat, send: bool, now: nat)
      requires maxGnsNodeNum > 0 && pos in conns
      modifies this`conns, this`gns, this`sent
      ensures Abs() == Released(old(Abs()), pos, now)
      ensures
        var u := old(conns)[pos].userId;
        sent == old(sent) + if send && u != 0 then [LoginDisconnect(LoginData(u, serverId, pos, now))] else []
      ensures send ==> sent == old(sent) + Announced(old(Abs()), Event.Drop(pos, now))
    {
      var userId := conns[pos].userId;
      if userId != 0 {
        if userId in gns {
          gns := gns[userId := Gns(pos, serverId, Unactive, now)];
        }
        if send {
          sent := sent + [LoginDisconnect(LoginData(userId, serverId, pos, now))];
        }
      }
      conns := conns - {pos};
    }

    /** The user's connection here, if the directory names one, goes without a message. */
    method Kick(userId: nat, now: nat)
      requires maxGnsNodeNum > 0 && userId in gns
      modifies this`conns, this`gns, this`sent
      ensures Abs() == Kicked(old(Abs()), userId, now) && sent == old(sent)
    {
      var g := gns[userId];
      if g.status == Active && g.serverId == serverId {
        if g.connPos in conns && conns[g.connPos].userId == userId {
          ReleaseConn(g.connPos, false, now);
        }
      }
    }

    /** Cmd_Auth_Login_Rsp with result 0. */
    method LoginRsp(pos: nat, userId: nat, now: nat) returns (rc: int)
      requires maxGnsNodeNum > 0 && Agreement(Abs())
      modifies this`conns, this`gns, this`sent
      ensures rc == if pos in old(conns) then 0 else -1
      ensures rc != 0 ==> Abs() == old(Abs()) && sent == old(sent)
      ensures rc == 0 ==>
                && Abs() == LoggedIn(old(Abs()), pos, userId, now)
                && (pos in conns ==> conns[pos] == Conn(userId, true, old(conns)[pos].lastActTime))
                && (old(conns)[pos].userId == 0 && userId != 0 ==> pos in conns)
                && sent == old(sent) + Announced(old(Abs()), Event.Login(pos, userId, now))
                && sent == old(sent) + [LoginNotice(LoginData(userId, serverId, pos, now))]
                && (Agreement(Abs()) <==>
                    old(conns)[pos].userId == 0 &&
                        (userId == 0 || userId in old(gns) || |old(gns)| < maxGnsNodeNum - 1))
    {
      if pos !in conns {
        return -1;
      }
      LoginAgreement(Abs(), pos, userId, now);
      if userId != 0 && conns[pos].userId == 0 {
        LoginStays(Abs(), pos, userId, now);
      }
      conns := conns[pos := conns[pos].(userId := userId, auth := true)];
      var g := Gns(pos, serverId, Active, now);
      if userId !in gns {
        Insert(userId, g);
      } else {
        Kick(userId, now);
        gns := gns[userId := g];
      }
      sent := sent + [LoginNotice(LoginData(userId, serverId, pos, now))];
      return 0;
    }

    /** m_GnsInfoMap.Insert of a new user; the failure is only logged. */
    method Insert(userId: nat, g: Gns)
      requires maxGnsNodeNum > 0 && userId !in gns
      modifies this`gns
      ensures Abs() == Inserted(old(Abs()), userId, g)
    {
      if |gns| < maxGnsNodeNum - 1 {
        gns := gns[userId := g];
      }
    }

    /** One entry of a notice. */
    method Notice(d: LoginData, now: nat)
      requires maxGnsNodeNum > 0
      modifies this`conns, this`gns, this`sent
      ensures Abs() == Noticed(old(Abs()), d, now) && sent == old(sent)
    {
      if d.userId !in gns {
        Insert(d.userId, Gns(d.connPos, d.serverId, Active, d.time));
      } else if gns[d.userId].lastActiveTime <= d.time {
        Kick(d.userId, now);
        gns := gns[d.userId := Gns(d.connPos, d.serverId, Active, d.time)];
      }
    }

    /** Cmd_LoginNotice and Cmd_LoginSync_Rsp. */
    method Notices(data: seq<LoginData>, now: nat)
      requires Valid()
      modifies this`conns, this`gns, this`sent
      ensures (forall d | d in data :: d.serverId != serverId) ==> Valid()
      ensures Abs() == M.AllNoticed(old(Abs()), data, now) && sent == old(sent)
    {
      hide Agreement, Noticed;
      for j := 0 to |data|
        invariant (forall d | d in data[..j] :: d.serverId != serverId) ==> Valid()
        invariant Abs() == M.AllNoticed(old(Abs()), data[..j], now) && sent == old(sent)
      {
        var d := data[j];
        assert data[..j + 1][..j] == data[..j] && d in data[..j + 1];
        assert data[..j + 1] == data[..j] + [d];
        if Agreement(Abs()) && d.serverId != serverId {
          NoticeKeeps(Abs(), d, now);
        }
        Notice(d, now);
      }
      assert data[..|data|] == data;
    }

    /** Cmd_Disconnect. */
    method Disconnects(data: seq<LoginData>, now: nat)
      requires Valid()
      modifies this`conns, this`gns, this`sent
      ensures Valid() && Abs() == AllDisconnected(old(Abs()), data, now) && sent == old(sent)
    {
      for j := 0 to |data|
        invariant Valid() && Abs() == AllDisconnected(old(Abs()), data[..j], now) && sent == old(sent)
      {
        var d := data[j];
        assert data[..j + 1][..j] == data[..j];
        DisconnectKeeps(Abs(), d, now);
        ghost var s := Abs();
        if d.userId in gns {
          if gns[d.userId].lastActiveTime <= d.time {
            if gns[d.userId].serverId == serverId && gns[d.userId].status == Active {
              Kick(d.userId, now);
            } else {
              gns := gns[d.userId := Gns(d.connPos, d.serverId, Unactive, d.time)];
            }
          }
        }
        assert Abs() == Disconnected(s, d, now);
      }
      assert data[..|data|] == data;
    }

    /** MemFullCallBackAll over the whole directory: the users active here, in no particular order. */
    method ActiveHere() returns (data: seq<LoginData>)
      requires maxGnsNodeNum > 0
      ensures forall d :: d in data <==> Here(Abs(), d.userId) && d == Own(gns[d.userId], d.userId)
      ensures forall i, j | 0 <= i < j < |data| :: data[i].userId != data[j].userId
    {
      data := [];
      var users := gns.Keys;
      while users != {}
        invariant users <= gns.Keys
        invariant forall d :: d in data <==>
                  Here(Abs(), d.userId) && d.userId !in users && d == Own(gns[d.userId], d.userId)
        invariant forall i, j | 0 <= i < j < |data| :: data[i].userId != data[j].userId
        decreases |users|
      {
        var u :| u in users;
        var g := gns[u];
        if g.serverId == serverId && g.status == Active {
          data := data + [Own(g, u)];
        }
        users := users - {u};
      }
    }

    /** Cmd_LoginSync_Req: all users active here, in cumulative batches. */
    method SyncReq(from: int) returns (rc: int, ghost data: seq<LoginData>)
      requires maxGnsNodeNum > 0
      modifies this`sent
      ensures rc == if from == serverId then -1 else 0
      ensures rc != 0 ==> sent == old(sent)
      ensures rc == 0 ==>
                && (forall d :: d in data <==> Here(Abs(), d.userId) && d == Own(gns[d.userId], d.userId))
                && sent == old(sent) + Replies(from, M.Batches(data, 0, 0))
    {
      data := [];
      if from == serverId {
        rc := -1;
        return;
      }
      var all := ActiveHere();
      data := all;
      var rsp: seq<LoginData> := [];
      var j := 0;
      for i := 0 to |all|
        invariant 0 <= j && rsp == all[..i]
        invariant sent + Replies(from, M.Batches(all, i, j)) == old(sent) + Replies(from, M.Batches(all, 0, 0))
      {
        rsp := rsp + [all[i]];
        assert rsp == all[..i + 1];
        ghost var more := M.Batches(all, i, j);
        j := j + 1;
        if j > 1000 || i == |all| - 1 {
          j := 0;
          sent := sent + [LoginSyncRsp(from, rsp)];
          assert more == [rsp] + M.Batches(all, i + 1, 0);
          assert more[1..] == M.Batches(all, i + 1, 0);
        }
      }
      rc := 0;
    }

    /** CheckConn on the connection the scan has come to. */
    method CheckConn(pos: nat, now: nat) returns (released: bool)
      requires Valid() && pos in conns
      modifies this`conns, this`gns, this`sent
      ensures Valid()
      ensures released <==>
                !(LISTEN_SOCK_CPOS_MIN <= pos <= LISTEN_SOCK_CPOS_MAX) && now - old(conns)[pos].lastActTime > timeOut
      ensures Abs() == if released then Released(old(Abs()), pos, now) else old(Abs())
      ensures sent == old(sent) + if released then Announced(old(Abs()), Event.Drop(pos, now)) else []
      ensures
        var u := old(conns)[pos].userId;
        sent == old(sent) +
                if released && u != 0 then [LoginDisconnect(LoginData(u, serverId, pos, now))] else []
    {
      if LISTEN_SOCK_CPOS_MIN <= pos <= LISTEN_SOCK_CPOS_MAX {
        return false;
      }
      var timeDiff := now - conns[pos].lastActTime;
      if timeDiff > timeOut {
        ReleaseKeeps(Abs(), pos, now);
        ReleaseConn(pos, true, now);
        return true;
      }
      return false;
    }

    /** CheckValid: the next bucket's expired entries go. */
    method CheckValid(now: int)
      requires Valid()
      modifies this`gns, this`checkConnPos
      ensures Valid() && Abs() == Swept(old(Abs()), maxGnsNodeNum, old(checkConnPos), now)
      ensures checkConnPos == (old(checkConnPos) + 1) % maxGnsNodeNum
    {
      hide Agreement, InBucket, Expired;
      SweepKeeps(Abs(), maxGnsNodeNum, checkConnPos, now);
      var users := set u | u in gns.Keys && InBucket(u, maxGnsNodeNum, checkConnPos);
      ghost var before := gns;
      while users != {}
        invariant checkConnPos == old(checkConnPos)
        invariant forall u | u in users :: u in gns && InBucket(u, maxGnsNodeNum, checkConnPos)
        invariant forall u :: u in gns <==>
                  u in before && (!InBucket(u, maxGnsNodeNum, checkConnPos) || u in users || !Expired(before[u], now))
        invariant forall u | u in gns :: gns[u] == before[u]
        decreases |users|
      {
        var u :| u in users;
        if Expired(gns[u], now) {
          gns := gns - {u};
        }
        users := users - {u};
      }
      assert gns == Swept(old(Abs()), maxGnsNodeNum, checkConnPos, now).gns;
      checkConnPos := (checkConnPos + 1) % maxGnsNodeNum;
    }
  }

  function Own(g: Gns, u: nat): LoginData {
    LoginData(u, g.serverId, g.connPos, g.lastActiveTime)
  }

  function Replies(dst: int, batches: seq<seq<LoginData>>): seq<Message> {
    if batches == [] then [] else [LoginSyncRsp(dst, batches[0])] + Replies(dst, batches[1..])
  }

  function AllDisconnected(s: Server, ds: seq<LoginData>, now: nat): Server {
    if ds == [] then s else Disconnected(AllDisconnected(s, ds[..|ds| - 1], now), ds[|ds| - 1], now)
  }
}
