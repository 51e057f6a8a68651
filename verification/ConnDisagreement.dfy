/** Two runs of two CONN servers (conn/conn.cpp) that meet all assumptions of ConnAgreement.AgreeExactly and
    after which the directories disagree: one for each way in which its condition can fail. */
module ConnDisagreement {
  import opened ConnDirectory
  import opened ConnCluster
  import opened ConnAgreement

  // ----- a drop that is heard of too late

  function Free(p: nat): map<nat, Conn> {
    map[p := Conn(0, false, 0)]
  }

  function Mine(p: nat): map<nat, Conn> {
    map[p := Conn(1, true, 0)]
  }

  function FirstLogin(): LoginData { LoginData(1, 0, 500, 1) }

  function SecondLogin(): LoginData { LoginData(1, 1, 500, 2) }

  function FirstDrop(): LoginData { LoginData(1, 0, 500, 3) }

  function LastLogin(): LoginData { LoginData(1, 0, 501, 4) }

  /** Server 0 after n of its own events: login, drop, accept, login. */
  function ServerA(n: nat): Server {
    if n == 0 then Server(0, 1, Free(500), map[])
    else if n == 1 then Server(0, 1, Mine(500), map[1 := Gns(500, 0, Active, 1)])
    else if n == 2 then Server(0, 1, map[], map[1 := Gns(500, 0, Unactive, 3)])
    else if n == 3 then Server(0, 1, Free(501), map[1 := Gns(500, 0, Unactive, 3)])
    else Server(0, 1, Mine(501), map[1 := Gns(501, 0, Active, 4)])
  }

  /** Server 1: at first, after its login, and after the late disconnect notice. */
  function ServerB(n: nat): Server {
    if n == 0 then Server(1, 1, Free(500), map[])
    else if n == 1 then Server(1, 1, Mine(500), map[1 := Gns(500, 1, Active, 2)])
    else Server(1, 1, map[], map[1 := Gns(500, 1, Unactive, 5)])
  }

  function Sent(n: nat): set<Message> {
    var none: set<Message> := {};
    if n == 0 then none
    else if n == 1 then {Message.Login(FirstLogin())}
    else if n == 2 then {Message.Login(FirstLogin()), Message.Login(SecondLogin())}
    else if n <= 4 then {Message.Login(FirstLogin()), Message.Login(SecondLogin()), Message.Disconnect(FirstDrop())}
    else {Message.Login(FirstLogin()), Message.Login(SecondLogin()), Message.Disconnect(FirstDrop()),
        Message.Login(LastLogin())}
  }

  /** What has reached server 1 after n events. */
  function Heard(n: nat): set<Message> {
    if n <= 5 then {}
    else if n == 6 then {Message.Login(FirstLogin())}
    else if n == 7 then {Message.Login(FirstLogin()), Message.Disconnect(FirstDrop())}
    else {Message.Login(FirstLogin()), Message.Disconnect(FirstDrop()), Message.Login(LastLogin())}
  }

  /** Server 1 hears from server 0 in the order in which it spoke. */
  function LateDropEvent(k: nat): (nat, Event) {
    if k == 0 then (0, Event.Login(500, 1, 1))
    else if k == 1 then (1, Event.Login(500, 1, 2))
    else if k == 2 then (0, Event.Drop(500, 3))
    else if k == 3 then (0, Event.Accept(501, 0))
    else if k == 4 then (0, Event.Login(501, 1, 4))
    else if k == 5 then (1, Event.Notice(FirstLogin(), 5))
    else if k == 6 then (1, Event.Disconnect(FirstDrop(), 5))
    else if k == 7 then (1, Event.Notice(LastLogin(), 5))
    else (0, Event.Notice(SecondLogin(), 5))
  }

  function LateDropState(k: nat): Cluster {
    Cluster([ServerA(if k == 0 then 0 else if k <= 2 then 1 else if k <= 5 then k - 1 else 4),
        ServerB(if k <= 1 then 0 else if k <= 6 then 1 else 2)],
            Sent(k), [if k >= 9 then {Message.Login(SecondLogin())} else {}, Heard(k)])
  }

  function LateDropStates(): seq<Cluster> {
    seq(10, k requires 0 <= k => LateDropState(k))
  }

  function LateDropEvents(): seq<(nat, Event)> {
    seq(9, k requires 0 <= k => LateDropEvent(k))
  }

  lemma ServerALogs()
    ensures
      var e := Event.Login(500, 1, 1);
      Possible(ServerA(0), e) && After(ServerA(0), e) == ServerA(1) &&
          Emitted(ServerA(0), e) == {Message.Login(FirstLogin())}
  {
  }

  lemma ServerADrops()
    ensures
      var e := Event.Drop(500, 3);
      Possible(ServerA(1), e) && After(ServerA(1), e) == ServerA(2) &&
          Emitted(ServerA(1), e) == {Message.Disconnect(FirstDrop())}
  {
  }

  lemma ServerAAccepts()
    ensures
      var e := Event.Accept(501, 0);
      Possible(ServerA(2), e) && After(ServerA(2), e) == ServerA(3)
  {
  }

  lemma ServerALogsAgain()
    ensures
      var e := Event.Login(501, 1, 4);
      Possible(ServerA(3), e) && After(ServerA(3), e) == ServerA(4) &&
          Emitted(ServerA(3), e) == {Message.Login(LastLogin())}
  {
  }

  lemma ServerAHears()
    ensures
      var e := Event.Notice(SecondLogin(), 5);
      Possible(ServerA(4), e) && After(ServerA(4), e) == ServerA(4)
  {
  }

  lemma ServerBLogs()
    ensures
      var e := Event.Login(500, 1, 2);
      Possible(ServerB(0), e) && After(ServerB(0), e) == ServerB(1) &&
          Emitted(ServerB(0), e) == {Message.Login(SecondLogin())}
  {
  }

  lemma ServerBKicks()
    ensures
      var e := Event.Disconnect(FirstDrop(), 5);
      Possible(ServerB(1), e) && After(ServerB(1), e) == ServerB(2)
  {
  }

  lemma ServerBHears(d: LoginData, n: nat)
    requires (d == FirstLogin() && n == 1) || (d == LastLogin() && n == 2)
    ensures
      var e := Event.Notice(d, 5);
      Possible(ServerB(n), e) && After(ServerB(n), e) == ServerB(n)
  {
  }

  /** One step of two servers, taken apart. */
  lemma StepIs(c: Cluster, i: nat, e: Event, c': Cluster)
    requires i < 2 == |c.servers| == |c.seen| == |c'.servers| == |c'.seen| && Possible(c.servers[i], e)
    requires c'.servers[i] == After(c.servers[i], e) && c'.seen[i] == c.seen[i] + Received(e)
    requires c'.servers[1 - i] == c.servers[1 - i] && c'.seen[1 - i] == c.seen[1 - i]
    requires c'.sent == c.sent + Emitted(c.servers[i], e)
    ensures c' == Happened(c, i, e)
  {
    hide After, Possible, Emitted, Received;
    assert c'.servers == c.servers[i := After(c.servers[i], e)];
    assert c'.seen == c.seen[i := c.seen[i] + Received(e)];
  }

  lemma LateDropLogins(k: nat)
    requires k < 3
    ensures
      var (i, e) := LateDropEvent(k);
      Enabled(LateDropState(k), i, e) && LateDropState(k + 1) == Happened(LateDropState(k), i, e)
  {
    hide After, Possible, ServerA, ServerB, Happened;
    var (i, e) := LateDropEvent(k);
    if k == 0 {
      ServerALogs();
    } else if k == 1 {
      ServerBLogs();
    } else {
      ServerADrops();
    }
    StepIs(LateDropState(k), i, e, LateDropState(k + 1));
  }

  lemma LateDropAgain(k: nat)
    requires 3 <= k < 6
    ensures
      var (i, e) := LateDropEvent(k);
      Enabled(LateDropState(k), i, e) && LateDropState(k + 1) == Happened(LateDropState(k), i, e)
  {
    hide After, Possible, ServerA, ServerB, Happened;
    var (i, e) := LateDropEvent(k);
    if k == 3 {
      ServerAAccepts();
    } else if k == 4 {
      ServerALogsAgain();
    } else {
      ServerBHears(FirstLogin(), 1);
    }
    StepIs(LateDropState(k), i, e, LateDropState(k + 1));
  }

  lemma LateDropNotices(k: nat)
    requires 6 <= k < 9
    ensures
      var (i, e) := LateDropEvent(k);
      Enabled(LateDropState(k), i, e) && LateDropState(k + 1) == Happened(LateDropState(k), i, e)
  {
    hide After, Possible, ServerA, ServerB, Happened;
    var (i, e) := LateDropEvent(k);
    if k == 6 {
      ServerBKicks();
    } else if k == 7 {
      ServerBHears(LastLogin(), 2);
    } else {
      ServerAHears();
    }
    StepIs(LateDropState(k), i, e, LateDropState(k + 1));
  }

  lemma LateDropStep(k: nat)
    requires k < 9
    ensures
      var (i, e) := LateDropEvent(k);
      Enabled(LateDropState(k), i, e) && LateDropState(k + 1) == Happened(LateDropState(k), i, e)
  {
    hide *;
    if k < 3 {
      LateDropLogins(k);
    } else if k < 6 {
      LateDropAgain(k);
    } else {
      LateDropNotices(k);
    }
  }

  lemma LateDropRun()
    ensures ConnCluster.Run(LateDropStates(), LateDropEvents()) && Fits(LateDropStates(), LateDropEvents(), {1})
  {
    LateDropStarts();
    hide Happened, LateDropEvent, LateDropState, Initial;
    var states, events := LateDropStates(), LateDropEvents();
    forall k | 0 <= k < |events|
      ensures Enabled(states[k], events[k].0, events[k].1) &&
              states[k + 1] == Happened(states[k], events[k].0, events[k].1)
    {
      LateDropStep(k);
    }
  }

  lemma LateDropStarts()
    ensures Initial(LateDropState(0))
    ensures forall i | 0 <= i < |LateDropState(0).servers| :: |{1}| <= LateDropState(0).servers[i].capacity
    ensures forall k | 0 <= k < 9 && LateDropEvent(k).1.Login? :: LateDropEvent(k).1.userId in {1}
  {
  }

  lemma LateDropClocked()
    ensures Clocked(LateDropStates(), LateDropEvents(), 1) && Unswept(LateDropStates(), LateDropEvents(), 1)
  {
    forall k | 0 <= k < 9
      ensures InTime(LateDropState(k), LateDropEvent(k).0, LateDropEvent(k).1, 1) && !LateDropEvent(k).1.Sweep?
    {
    }
    hide InTime, LateDropState, LateDropEvent;
  }

  /** A connection that is dropped before a newer login elsewhere has been heard of: the late disconnect
      notice closes the newer connection and stamps the entry with the time it arrives, and the user's last
      login, which comes after it, is then taken for an old one.  Every message has arrived, each sender's
      in order, the user is connected on server 0, and server 1 still says otherwise. */
  lemma LateDropDisagrees()
    ensures
      var states, events, m := LateDropStates(), LateDropEvents(), Message.Login(LastLogin());
      var c := states[|events|];
      && ConnCluster.Run(states, events) && Fits(states, events, {1})
      && Clocked(states, events, 1) && Unswept(states, events, 1)
      && Newest(c, m) && (forall l, j | l in c.sent && 0 <= j < 2 && l.data.serverId != j :: l in c.seen[j])
      && LateKick(states, events, 6, 1, m.data.time) && !Agree(c, 1)
      && Pair(c.servers[0], 501, 1) && Holds(c.servers[0], m) && c.servers[1].gns == map[1 := Gns(500, 1, Unactive, 5)]
  {
    LateDropRun();
    LateDropClocked();
    hide ConnCluster.Run, Fits, Clocked, Unswept;
    assert LateDropStates()[9] == LateDropState(9) && LateDropStates()[6] == LateDropState(6);
    assert !Same(LateDropState(9).servers[0], LateDropState(9).servers[1], 1);
  }

  // ----- a drop that is heard of before its login

  /** Server 1 when it has heard of the login only. */
  function ServerC(): Server {
    Server(1, 1, Free(500), map[1 := Gns(500, 0, Active, 1)])
  }

  function OvertakenEvent(k: nat): (nat, Event) {
    if k == 0 then (0, Event.Login(500, 1, 1))
    else if k == 1 then (0, Event.Drop(500, 3))
    else if k == 2 then (1, Event.Disconnect(FirstDrop(), 4))
    else (1, Event.Notice(FirstLogin(), 4))
  }

  function OvertakenState(k: nat): Cluster {
    var login, drop := Message.Login(FirstLogin()), Message.Disconnect(FirstDrop());
    Cluster([ServerA(if k <= 2 then k else 2), if k <= 3 then ServerB(0) else ServerC()],
            if k == 0 then {} else if k == 1 then {login} else {login, drop},
            [{}, if k <= 2 then {} else if k == 3 then {drop} else {drop, login}])
  }

  function OvertakenStates(): seq<Cluster> {
    seq(5, k requires 0 <= k => OvertakenState(k))
  }

  function OvertakenEvents(): seq<(nat, Event)> {
    seq(4, k requires 0 <= k => OvertakenEvent(k))
  }

  lemma ServerBMisses()
    ensures
      var e := Event.Disconnect(FirstDrop(), 4);
      Possible(ServerB(0), e) && After(ServerB(0), e) == ServerB(0)
    ensures
      var e := Event.Notice(FirstLogin(), 4);
      Possible(ServerB(0), e) && After(ServerB(0), e) == ServerC()
  {
  }

  lemma OvertakenStep(k: nat)
    requires k < 4
    ensures
      var (i, e) := OvertakenEvent(k);
      Enabled(OvertakenState(k), i, e) && OvertakenState(k + 1) == Happened(OvertakenState(k), i, e)
  {
    hide After, Possible, ServerA, ServerB, ServerC, Happened;
    var (i, e) := OvertakenEvent(k);
    if k == 0 {
      ServerALogs();
    } else if k == 1 {
      ServerADrops();
    } else {
      ServerBMisses();
    }
    StepIs(OvertakenState(k), i, e, OvertakenState(k + 1));
  }

  lemma OvertakenStarts()
    ensures Initial(OvertakenState(0))
    ensures forall i | 0 <= i < |OvertakenState(0).servers| :: |{1}| <= OvertakenState(0).servers[i].capacity
    ensures forall k | 0 <= k < 4 && OvertakenEvent(k).1.Login? :: OvertakenEvent(k).1.userId in {1}
  {
  }

  lemma OvertakenRun()
    ensures ConnCluster.Run(OvertakenStates(), OvertakenEvents()) && Fits(OvertakenStates(), OvertakenEvents(), {1})
  {
    OvertakenStarts();
    hide Happened, OvertakenEvent, OvertakenState, Initial;
    var states, events := OvertakenStates(), OvertakenEvents();
    forall k | 0 <= k < |events|
      ensures Enabled(states[k], events[k].0, events[k].1) &&
              states[k + 1] == Happened(states[k], events[k].0, events[k].1)
    {
      OvertakenStep(k);
    }
  }

  lemma OvertakenClocked()
    ensures Clocked(OvertakenStates(), OvertakenEvents(), 1) && Unswept(OvertakenStates(), OvertakenEvents(), 1)
    ensures forall t: nat :: Calm(OvertakenStates(), OvertakenEvents(), 1, t)
  {
    forall k | 0 <= k < 4
      ensures InTime(OvertakenState(k), OvertakenEvent(k).0, OvertakenEvent(k).1, 1)
      ensures !OvertakenEvent(k).1.Sweep?
      ensures !Kicks(OvertakenState(k).servers[OvertakenEvent(k).0], OvertakenEvent(k).1, 1)
    {
    }
    hide InTime, OvertakenState, OvertakenEvent, Kicks;
  }

  /** A disconnect notice that is heard of before the login it ends: it meets no entry and is ignored, and the
      login is then taken for the last word.  Nobody is connected, no notice has kicked anybody, and server 1
      goes on saying that the user is connected on server 0. */
  lemma OvertakenDisagrees()
    ensures
      var states, events, m := OvertakenStates(), OvertakenEvents(), Message.Disconnect(FirstDrop());
      var c := states[|events|];
      && ConnCluster.Run(states, events) && Fits(states, events, {1})
      && Clocked(states, events, 1) && Unswept(states, events, 1)
      && Newest(c, m) && (forall l, j | l in c.sent && 0 <= j < 2 && l.data.serverId != j :: l in c.seen[j])
      && Calm(states, events, 1, m.data.time) && !Met(states, events, m) && !Agree(c, 1)
      && (forall j, p: nat | 0 <= j < 2 :: !Pair(c.servers[j], p, 1))
      && c.servers[1].gns == map[1 := Entry(FirstLogin(), Active)]
  {
    OvertakenRun();
    OvertakenClocked();
    OvertakenEnd();
    hide ConnCluster.Run, Fits, Clocked, Unswept, Calm, OvertakenState;
    AgreeExactly(OvertakenStates(), OvertakenEvents(), {1}, Message.Disconnect(FirstDrop()));
  }

  lemma OvertakenEnd()
    ensures
      var c, m := OvertakenState(4), Message.Disconnect(FirstDrop());
      && Newest(c, m) && Reached(c, m) && !Agree(c, 1)
      && (forall l, j | l in c.sent && 0 <= j < 2 && l.data.serverId != j :: l in c.seen[j])
      && (forall j, p: nat | 0 <= j < 2 :: !Pair(c.servers[j], p, 1))
      && c.servers[1].gns == map[1 := Entry(FirstLogin(), Active)] && |c.seen| == 2 == |c.servers|
  {
    assert !Same(OvertakenState(4).servers[0], OvertakenState(4).servers[1], 1);
  }
}
