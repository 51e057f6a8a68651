/** Several CONN servers (conn/conn.cpp) that exchange the login notices, disconnect notices and sync
    replies they emit.  A message may reach a server at any time, in any order and more than once. */
module ConnCluster {
  import opened ConnDirectory
  import ConnServer

  datatype Message = Login(data: LoginData) | Disconnect(data: LoginData)

  /** Server i has id i; seen[i] holds what has reached it. */
  datatype Cluster = Cluster(servers: seq<Server>, sent: set<Message>, seen: seq<set<Message>>)

  ghost predicate Initial(c: Cluster) {
    && |c.seen| == |c.servers| && c.sent == {}
    && forall i | 0 <= i < |c.servers| ::
         && c.servers[i].id == i && c.servers[i].gns == map[] && c.seen[i] == {}
         && forall p | p in c.servers[i].conns :: c.servers[i].conns[p].userId == 0
  }

  /** An event at server i can happen: what reaches it was sent by another server, and the servers' clocks
      are in step, so that a login is later than all logins of the user before it. */
  ghost predicate Enabled(c: Cluster, i: nat, e: Event) {
    && i < |c.servers| == |c.seen| && Possible(c.servers[i], e)
    && match e
       case Login(_, u, now) => forall m | m in c.sent && m.Login? && m.data.userId == u :: m.data.time < now
       case Notice(d, _) => Message.Login(d) in c.sent && d.serverId != i
       case Disconnect(d, _) => Message.Disconnect(d) in c.sent && d.serverId != i
       case _ => true
  }

  /** What the event makes the server tell the others. */
  function Emitted(s: Server, e: Event): set<Message> {
    match e
    case Login(pos, u, now) => {Message.Login(LoginData(u, s.id, pos, now))}
    case Drop(pos, now) =>
      if pos in s.conns && s.conns[pos].userId != 0
      then {Message.Disconnect(LoginData(s.conns[pos].userId, s.id, pos, now))} else {}
    case _ => {}
  }

  /** The message in the form in which the handlers send it. */
  function OnWire(m: Message): ConnServer.Message {
    if m.Login? then ConnServer.LoginNotice(m.data) else ConnServer.LoginDisconnect(m.data)
  }

  /** That is what the handlers send for the event: its messages and no others, each once. */
  lemma HandlersSend(s: Server, e: Event)
    ensures forall m :: m in Emitted(s, e) <==> OnWire(m) in ConnServer.Announced(s, e)
    ensures forall n | n in ConnServer.Announced(s, e) :: exists m :: m in Emitted(s, e) && OnWire(m) == n
    ensures |ConnServer.Announced(s, e)| == |Emitted(s, e)|
  {
    match e
    case Login(pos, u, now) =>
      assert OnWire(Message.Login(LoginData(u, s.id, pos, now))) == ConnServer.Announced(s, e)[0];
    case Drop(pos, now) =>
      if pos in s.conns && s.conns[pos].userId != 0 {
        var m := Message.Disconnect(LoginData(s.conns[pos].userId, s.id, pos, now));
        assert OnWire(m) == ConnServer.Announced(s, e)[0];
      }
    case _ =>
  }

  function Received(e: Event): set<Message> {
    match e
    case Notice(d, _) => {Message.Login(d)}
    case Disconnect(d, _) => {Message.Disconnect(d)}
    case _ => {}
  }

  function Happened(c: Cluster, i: nat, e: Event): Cluster
    requires i < |c.servers| == |c.seen| && Possible(c.servers[i], e)
  {
    Cluster(c.servers[i := After(c.servers[i], e)], c.sent + Emitted(c.servers[i], e),
            c.seen[i := c.seen[i] + Received(e)])
  }

  ghost predicate Run(states: seq<Cluster>, events: seq<(nat, Event)>) {
    && |states| == |events| + 1 && Initial(states[0])
    && forall k | 0 <= k < |events| ::
         Enabled(states[k], events[k].0, events[k].1) && states[k + 1] == Happened(states[k], events[k].0, events[k].1)
  }

  // ----- what one event does to one user's entry

  ghost predicate Foreign(s: Server, e: Event) {
    && (e.Notice? ==> e.d.serverId != s.id)
    && (e.Disconnect? ==> e.d.serverId != s.id)
  }

  /** A user is active here by its own login here; a notice that is not older ends that. */
  lemma HereAfter(s: Server, e: Event, u: nat)
    requires Possible(s, e) && Foreign(s, e) && Here(After(s, e), u)
    ensures
      var g := After(s, e).gns[u];
      || (e.Login? && e.userId == u && g == Gns(e.pos, s.id, Active, e.now))
      || (Here(s, u) && g == s.gns[u] && (e.Notice? && e.d.userId == u ==> e.d.time < g.lastActiveTime))
  {
  }

  // ----- the invariant

  ghost predicate ServerInv(c: Cluster, i: nat)
    requires i < |c.servers| == |c.seen|
  {
    && c.servers[i].id == i && Agreement(c.servers[i])
    && forall u: nat | Here(c.servers[i], u) :: OwnLogin(c, i, u) && Newer(c, i, u)
  }

  /** The login that made the user active here was sent to all. */
  ghost predicate OwnLogin(c: Cluster, i: nat, u: nat)
    requires i < |c.servers| && Here(c.servers[i], u)
  {
    Message.Login(ConnServer.Own(c.servers[i].gns[u], u)) in c.sent
  }

  /** It is newer than every login of the user that has reached this server. */
  ghost predicate Newer(c: Cluster, i: nat, u: nat)
    requires i < |c.servers| == |c.seen| && Here(c.servers[i], u)
  {
    forall m | m in c.seen[i] && m.Login? && m.data.userId == u :: m.data.time < c.servers[i].gns[u].lastActiveTime
  }

  ghost predicate Inv(c: Cluster) {
    && |c.seen| == |c.servers|
    && (forall i | 0 <= i < |c.servers| :: c.seen[i] <= c.sent)
    && forall i: nat | i < |c.servers| :: ServerInv(c, i)
  }

  lemma EventInv(c: Cluster, i: nat, e: Event)
    requires Inv(c) && Enabled(c, i, e)
    ensures Inv(Happened(c, i, e))
  {
    hide Agreement, After, Here, Possible;
    var c' := Happened(c, i, e);
    forall j: nat | j < |c'.servers|
      ensures ServerInv(c', j) && c'.seen[j] <= c'.sent
    {
      assert ServerInv(c, j);
      if j == i {
        EventKeeps(c.servers[i], e);
        SameId(c.servers[i], e);
        forall u: nat | Here(c'.servers[i], u)
          ensures OwnLogin(c', i, u) && Newer(c', i, u)
        {
          HereAfter(c.servers[i], e, u);
        }
      } else {
        forall u: nat | Here(c'.servers[j], u)
          ensures OwnLogin(c', j, u) && Newer(c', j, u)
        {
        }
      }
    }
  }

  lemma SameId(s: Server, e: Event)
    requires Possible(s, e)
    ensures After(s, e).id == s.id && After(s, e).capacity == s.capacity
  {
  }

  lemma {:induction false} RunInv(states: seq<Cluster>, events: seq<(nat, Event)>)
    requires Run(states, events)
    ensures Inv(states[|events|])
  {
    hide Inv, Enabled, Happened;
    if events == [] {
      InitialInv(states[0]);
    } else {
      var last := |events| - 1;
      RunInv(states[..last + 1], events[..last]);
      EventInv(states[last], events[last].0, events[last].1);
    }
  }

  lemma InitialInv(c: Cluster)
    requires Initial(c)
    ensures Inv(c)
  {
  }

  // ----- a user is connected on one server

  /** Every login of the user has reached every other server. */
  ghost predicate Delivered(c: Cluster, u: nat)
    requires |c.seen| == |c.servers|
  {
    forall m, j | m in c.sent && m.Login? && m.data.userId == u && 0 <= j < |c.servers| && m.data.serverId != j ::
        m in c.seen[j]
  }

  /** Over every run of logins, drops, timeouts, sweeps and messages in any order: once a user's logins
      have reached all servers, the user has at most one connection on all of them together. */
  lemma OneServer(states: seq<Cluster>, events: seq<(nat, Event)>, u: nat, i: nat, j: nat, p: nat, q: nat)
    requires Run(states, events) && u != 0
    requires
      var c := states[|events|];
      i < |c.servers| && j < |c.servers| && Pair(c.servers[i], p, u) && Pair(c.servers[j], q, u)
    requires |states[|events|].seen| == |states[|events|].servers| && Delivered(states[|events|], u)
    ensures i == j && p == q
  {
    RunInv(states, events);
    var c := states[|events|];
    assert ServerInv(c, i) && ServerInv(c, j);
    assert Here(c.servers[i], u) && c.servers[i].gns[u].connPos == p;
    assert Here(c.servers[j], u) && c.servers[j].gns[u].connPos == q;
    if i != j {
      Later(c, i, j, u);
      Later(c, j, i, u);
    }
  }

  /** A user active on two servers logged in later on the one that has seen the login on the other. */
  lemma Later(c: Cluster, i: nat, j: nat, u: nat)
    requires Inv(c) && Delivered(c, u) && i != j && i < |c.servers| && j < |c.servers|
    requires Here(c.servers[i], u) && Here(c.servers[j], u)
    ensures c.servers[i].gns[u].lastActiveTime < c.servers[j].gns[u].lastActiveTime
  {
    hide Agreement;
    assert ServerInv(c, i) && ServerInv(c, j);
    assert OwnLogin(c, i, u) && Newer(c, j, u);
    assert Message.Login(ConnServer.Own(c.servers[i].gns[u], u)) in c.seen[j];
  }

  /** A sync reply says only what login notices have said. */
  lemma SyncSaysNothingNew(states: seq<Cluster>, events: seq<(nat, Event)>, i: nat, u: nat)
    requires Run(states, events) && i < |states[|events|].servers| && Here(states[|events|].servers[i], u)
    ensures Message.Login(ConnServer.Own(states[|events|].servers[i].gns[u], u)) in states[|events|].sent
  {
    RunInv(states, events);
    assert ServerInv(states[|events|], i);
    assert OwnLogin(states[|events|], i, u);
  }
}
