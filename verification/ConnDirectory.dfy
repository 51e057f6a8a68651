/** The CONN server's login directory (m_GnsInfoMap) and connection table (m_PosConnMap), as
    conn/conn.cpp changes them: what each event does to both, and that they keep agreeing on which
    users are connected here. */
module ConnDirectory {

  const CONN_INVALID_TIME := 86400

  // GNS_USER_STATUS_ACTIVE and GNS_USER_STATUS_UNACTIVE
  datatype Status = Active | Unactive

  /** ShmGnsInfo: where a user was last seen. */
  datatype Gns = Gns(connPos: nat, serverId: int, status: Status, lastActiveTime: nat)

  /** The directory's view of a connection: its user, 0 if nobody has logged in on it. */
  datatype Conn = Conn(userId: nat, auth: bool, lastActTime: int)

  /** One entry of a notice, a disconnect or a sync reply. */
  datatype LoginData = LoginData(userId: nat, serverId: int, connPos: nat, time: nat)

  /** The directory holds at most capacity users. */
  datatype Server = Server(id: int, capacity: nat, conns: map<nat, Conn>, gns: map<nat, Gns>)

  // ----- what the events do

  function Entry(d: LoginData, status: Status): Gns {
    Gns(d.connPos, d.serverId, status, d.time)
  }

  /** m_GnsInfoMap.Insert, whose failure the callers ignore. */
  function Inserted(s: Server, userId: nat, g: Gns): Server {
    if |s.gns| < s.capacity then s.(gns := s.gns[userId := g]) else s
  }

  /** ReleaseConn. */
  function Released(s: Server, pos: nat, now: nat): Server
    requires pos in s.conns
  {
    var u := s.conns[pos].userId;
    s.(conns := s.conns - {pos},
       gns := if u != 0 && u in s.gns then s.gns[u := Gns(pos, s.id, Unactive, now)] else s.gns)
  }

  /** A user's entry says it is connected here. */
  predicate Here(s: Server, u: nat) {
    u in s.gns && s.gns[u].serverId == s.id && s.gns[u].status == Active
  }

  /** And the connection it names is that user's. */
  predicate Bound(s: Server, u: nat) {
    Here(s, u) && s.gns[u].connPos in s.conns && s.conns[s.gns[u].connPos].userId == u
  }

  /** The user's connection here, if any, is released without telling the other servers. */
  function Kicked(s: Server, u: nat, now: nat): Server {
    if Bound(s, u) then Released(s, s.gns[u].connPos, now) else s
  }

  function Accepted(s: Server, pos: nat, now: int): Server {
    s.(conns := s.conns[pos := Conn(0, false, now)])
  }

  /** A login response with result 0: a login here always wins. */
  function LoggedIn(s: Server, pos: nat, u: nat, now: nat): Server
    requires pos in s.conns
  {
    var g := Gns(pos, s.id, Active, now);
    var s1 := s.(conns := s.conns[pos := s.conns[pos].(userId := u, auth := true)]);
    if u !in s1.gns then Inserted(s1, u, g)
    else
      var s2 := Kicked(s1, u, now);
      s2.(gns := s2.gns[u := g])
  }

  /** One entry of a login notice or a sync reply. */
  function Noticed(s: Server, d: LoginData, now: nat): Server {
    if d.userId !in s.gns then Inserted(s, d.userId, Entry(d, Active))
    else if s.gns[d.userId].lastActiveTime <= d.time then
      var s' := Kicked(s, d.userId, now);
      s'.(gns := s'.gns[d.userId := Entry(d, Active)])
    else s
  }

  /** One entry of a disconnect notice. */
  function Disconnected(s: Server, d: LoginData, now: nat): Server {
    if d.userId in s.gns && s.gns[d.userId].lastActiveTime <= d.time then
      if Here(s, d.userId) then Kicked(s, d.userId, now)
      else s.(gns := s.gns[d.userId := Entry(d, Unactive)])
    else s
  }

  /** The test of the expiry sweep, in unsigned 64-bit arithmetic. */
  predicate Expired(g: Gns, now: int) {
    g.status == Unactive && (now - CONN_INVALID_TIME) % 0x1_0000_0000_0000_0000 > g.lastActiveTime
  }

  /** For times up to 86400 seconds before the counter's end: an inactive entry expires when its time is more
      than 86400 seconds ago.  On a clock that shows less than 86400 the difference wraps, and every inactive
      entry expires at once. */
  lemma ExpiredExactly(g: Gns, now: nat)
    requires now < 0x1_0000_0000_0000_0000 && g.lastActiveTime < 0x1_0000_0000_0000_0000 - 86400
    ensures Expired(g, now) <==> g.status == Unactive && (now < 86400 || now - 86400 > g.lastActiveTime)
  {
  }

  /** The directory is a hash table; a user's bucket is its id modulo their number. */
  predicate InBucket(u: nat, buckets: nat, bucket: nat)
    requires buckets > 0
  {
    u % buckets == bucket
  }

  /** The expiry sweep of one directory bucket. */
  function Swept(s: Server, buckets: nat, bucket: nat, now: int): Server
    requires buckets > 0
  {
    s.(gns := map u | u in s.gns && !(InBucket(u, buckets, bucket) && Expired(s.gns[u], now)) :: s.gns[u])
  }

  /** A connection dropped at time t: the sweep of its user's bucket at a time of 86400 or later removes the
      entry if and only if that is more than 86400 seconds after t; and a sweep touches nothing else. */
  lemma DroppedThenSwept(s: Server, pos: nat, t: nat, buckets: nat, bucket: nat, now: nat)
    requires buckets > 0 && pos in s.conns && s.conns[pos].userId != 0 && s.conns[pos].userId in s.gns
    requires 86400 <= now < 0x1_0000_0000_0000_0000 && t < 0x1_0000_0000_0000_0000 - 86400
    ensures
      var u, s' := s.conns[pos].userId, Swept(Released(s, pos, t), buckets, bucket, now);
      && (u !in s'.gns <==> u % buckets == bucket && now - 86400 > t)
      && s'.conns == s.conns - {pos}
      && forall v | v in s.gns && (s.gns[v].status == Active || v % buckets != bucket) && v != u ::
           v in s'.gns && s'.gns[v] == s.gns[v]
  {
    var r := Released(s, pos, t);
    ExpiredExactly(r.gns[s.conns[pos].userId], now);
  }

  // ----- agreement

  /** The connections bound to a user are exactly the ones the directory says are active here. */
  ghost predicate Agreement(s: Server) {
    forall p: nat, u: nat {:trigger Pair(s, p, u)} | u != 0 :: Pair(s, p, u) <==> Here(s, u) && s.gns[u].connPos == p
  }

  predicate Pair(s: Server, p: nat, u: nat) {
    p in s.conns && s.conns[p].userId == u
  }

  lemma ReleaseKeeps(s: Server, pos: nat, now: nat)
    requires Agreement(s) && pos in s.conns
    ensures Agreement(Released(s, pos, now))
  {
    var s', v := Released(s, pos, now), s.conns[pos].userId;
    assert v != 0 ==> Pair(s, pos, v);
    forall p: nat, u: nat | u != 0
      ensures Pair(s', p, u) <==> Here(s', u) && s'.gns[u].connPos == p
    {
      assert Pair(s, p, u) <==> Here(s, u) && s.gns[u].connPos == p;
    }
  }

  lemma AcceptKeeps(s: Server, pos: nat, now: int)
    requires Agreement(s) && pos !in s.conns
    ensures Agreement(Accepted(s, pos, now))
  {
    var s' := Accepted(s, pos, now);
    forall p: nat, u: nat | u != 0
      ensures Pair(s', p, u) <==> Here(s', u) && s'.gns[u].connPos == p
    {
      assert Pair(s, p, u) <==> Here(s, u) && s.gns[u].connPos == p;
    }
  }

  lemma KickKeeps(s: Server, u: nat, now: nat)
    requires Agreement(s)
    ensures Agreement(Kicked(s, u, now))
    ensures u != 0 ==> forall p: nat :: !Pair(Kicked(s, u, now), p, u)
    ensures forall w | w in s.gns && w != u :: w in Kicked(s, u, now).gns && Kicked(s, u, now).gns[w] == s.gns[w]
  {
    var s' := Kicked(s, u, now);
    if Bound(s, u) {
      ReleaseKeeps(s, s.gns[u].connPos, now);
    }
    if u != 0 {
      forall p: nat
        ensures !Pair(s', p, u)
      {
        assert Pair(s, p, u) <==> Here(s, u) && s.gns[u].connPos == p;
      }
    }
  }

  /** The entry of a user nobody is bound to here may become anything that is not active here. */
  lemma ElsewhereKeeps(s: Server, u: nat, g: Gns)
    requires Agreement(s) && (u != 0 ==> forall p: nat :: !Pair(s, p, u))
    requires g.serverId != s.id || g.status == Unactive
    ensures Agreement(s.(gns := s.gns[u := g]))
  {
    var s' := s.(gns := s.gns[u := g]);
    forall p: nat, w: nat | w != 0
      ensures Pair(s', p, w) <==> Here(s', w) && s'.gns[w].connPos == p
    {
      assert Pair(s, p, w) <==> Here(s, w) && s.gns[w].connPos == p;
    }
  }

  lemma NobodyBound(s: Server, u: nat)
    requires Agreement(s) && !Here(s, u)
    ensures u != 0 ==> forall p: nat :: !Pair(s, p, u)
  {
  }

  /** The entry is older than what is stored, or new and without room. */
  predicate Ignored(s: Server, d: LoginData) {
    if d.userId in s.gns then d.time < s.gns[d.userId].lastActiveTime else |s.gns| >= s.capacity
  }

  /** A notice keeps the two in agreement exactly when it comes from another server, or is for no user, or
      is ignored. */
  lemma NoticeAgreement(s: Server, d: LoginData, now: nat)
    requires Agreement(s)
    ensures Agreement(Noticed(s, d, now)) <==> d.serverId != s.id || d.userId == 0 || Ignored(s, d)
  {
    if d.serverId != s.id || Ignored(s, d) {
      NoticeKeeps(s, d, now);
    } else if d.userId == 0 {
      NobodysNotice(s, d, now);
    } else {
      OwnNoticeBreaks(s, d, now);
    }
  }

  lemma NoticeKeeps(s: Server, d: LoginData, now: nat)
    requires Agreement(s) && (d.serverId != s.id || Ignored(s, d))
    ensures Agreement(Noticed(s, d, now))
  {
    if !Ignored(s, d) {
      if d.userId !in s.gns {
        NobodyBound(s, d.userId);
        ElsewhereKeeps(s, d.userId, Entry(d, Active));
      } else {
        KickKeeps(s, d.userId, now);
        ElsewhereKeeps(Kicked(s, d.userId, now), d.userId, Entry(d, Active));
      }
    }
  }

  lemma NobodysNotice(s: Server, d: LoginData, now: nat)
    requires Agreement(s) && d.userId == 0
    ensures Agreement(Noticed(s, d, now))
  {
    KickKeeps(s, 0, now);
    var t, s' := Kicked(s, 0, now), Noticed(s, d, now);
    forall p: nat, w: nat | w != 0
      ensures Pair(s', p, w) <==> Here(s', w) && s'.gns[w].connPos == p
    {
      assert Pair(s, p, w) <==> Here(s, w) && s.gns[w].connPos == p;
      assert Pair(t, p, w) <==> Here(t, w) && t.gns[w].connPos == p;
    }
  }

  /** A notice with this server's own id names a connection that is not the user's. */
  lemma OwnNoticeBreaks(s: Server, d: LoginData, now: nat)
    requires Agreement(s) && d.serverId == s.id && d.userId != 0 && !Ignored(s, d)
    ensures !Agreement(Noticed(s, d, now))
  {
    var s' := Noticed(s, d, now);
    if d.userId in s.gns {
      KickKeeps(s, d.userId, now);
      assert !Pair(Kicked(s, d.userId, now), d.connPos, d.userId);
    } else {
      NobodyBound(s, d.userId);
      assert !Pair(s, d.connPos, d.userId);
    }
    assert Here(s', d.userId) && s'.gns[d.userId].connPos == d.connPos && !Pair(s', d.connPos, d.userId);
  }

  lemma DisconnectKeeps(s: Server, d: LoginData, now: nat)
    requires Agreement(s)
    ensures Agreement(Disconnected(s, d, now))
  {
    if d.userId in s.gns && s.gns[d.userId].lastActiveTime <= d.time {
      if Here(s, d.userId) {
        KickKeeps(s, d.userId, now);
      } else {
        NobodyBound(s, d.userId);
        ElsewhereKeeps(s, d.userId, Entry(d, Unactive));
      }
    }
  }

  lemma SweepKeeps(s: Server, buckets: nat, bucket: nat, now: int)
    requires Agreement(s) && buckets > 0
    ensures Agreement(Swept(s, buckets, bucket, now))
  {
    var s' := Swept(s, buckets, bucket, now);
    forall p: nat, u: nat | u != 0
      ensures Pair(s', p, u) <==> Here(s', u) && s'.gns[u].connPos == p
    {
      assert Pair(s, p, u) <==> Here(s, u) && s.gns[u].connPos == p;
    }
  }

  /** A login keeps the two in agreement exactly when it reaches a connection nobody has logged in on
      and the user's entry exists or fits. */
  lemma LoginAgreement(s: Server, pos: nat, u: nat, now: nat)
    requires Agreement(s) && pos in s.conns
    ensures Agreement(LoggedIn(s, pos, u, now)) <==>
            s.conns[pos].userId == 0 && (u == 0 || u in s.gns || |s.gns| < s.capacity)
  {
    if s.conns[pos].userId == 0 && (u == 0 || u in s.gns || |s.gns| < s.capacity) {
      LoginKeeps(s, pos, u, now);
    } else {
      LoginBreaks(s, pos, u, now);
    }
  }

  lemma LoginKeeps(s: Server, pos: nat, u: nat, now: nat)
    requires Agreement(s) && pos in s.conns
    requires s.conns[pos].userId == 0 && (u == 0 || u in s.gns || |s.gns| < s.capacity)
    ensures Agreement(LoggedIn(s, pos, u, now))
  {
    var s' := LoggedIn(s, pos, u, now);
    forall p: nat, w: nat | w != 0
      ensures Pair(s', p, w) <==> Here(s', w) && s'.gns[w].connPos == p
    {
      assert Pair(s, p, w) <==> Here(s, w) && s.gns[w].connPos == p;
      if u in s.gns {
        assert u != 0 ==> (Pair(s, s.gns[u].connPos, u) <==> Here(s, u));
      }
    }
  }

  /** The connection a login reaches stays, and is then the user's and authorised. */
  lemma LoginStays(s: Server, pos: nat, u: nat, now: nat)
    requires Agreement(s) && pos in s.conns && s.conns[pos].userId == 0 && u != 0
    ensures
      var s' := LoggedIn(s, pos, u, now);
      pos in s'.conns && s'.conns[pos] == Conn(u, true, s.conns[pos].lastActTime)
  {
    assert !Pair(s, pos, u);
  }

  lemma LoginBreaks(s: Server, pos: nat, u: nat, now: nat)
    requires Agreement(s) && pos in s.conns
    requires s.conns[pos].userId != 0 || (u != 0 && u !in s.gns && |s.gns| >= s.capacity)
    ensures !Agreement(LoggedIn(s, pos, u, now))
  {
    var s', v := LoggedIn(s, pos, u, now), s.conns[pos].userId;
    if v != 0 {
      // the directory still names this connection for v, or, when v logs in again, its own login
      // has just closed the connection
      assert Pair(s, pos, v);
      assert Here(s', v) && s'.gns[v].connPos == pos && !Pair(s', pos, v);
    } else {
      assert Pair(s', pos, u) && !Here(s', u);
    }
  }

  // ----- runs

  /** Everything that can happen to a server.  Other servers' notices never carry this server's id, unless
      they change nothing; a login response reaches a connection nobody has logged in on, and finds room. */
  datatype Event =
    | Accept(pos: nat, at: int)
    | Drop(pos: nat, now: nat)
    | Login(pos: nat, userId: nat, now: nat)
    | Notice(d: LoginData, now: nat)
    | Disconnect(d: LoginData, now: nat)
    | Sweep(buckets: nat, bucket: nat, at: int)

  ghost predicate Possible(s: Server, e: Event) {
    match e
    case Accept(pos, _) => pos !in s.conns
    case Drop(pos, _) => pos in s.conns
    case Login(pos, u, _) =>
      pos in s.conns && s.conns[pos].userId == 0 && (u == 0 || u in s.gns || |s.gns| < s.capacity)
    case Notice(d, _) => d.serverId != s.id || d.userId == 0 || Ignored(s, d)
    case Disconnect(_, _) => true
    case Sweep(buckets, _, _) => buckets > 0
  }

  function After(s: Server, e: Event): Server
    requires Possible(s, e)
  {
    match e
    case Accept(pos, at) => Accepted(s, pos, at)
    case Drop(pos, now) => Released(s, pos, now)
    case Login(pos, u, now) => LoggedIn(s, pos, u, now)
    case Notice(d, now) => Noticed(s, d, now)
    case Disconnect(d, now) => Disconnected(s, d, now)
    case Sweep(buckets, bucket, at) => Swept(s, buckets, bucket, at)
  }

  ghost predicate Run(states: seq<Server>, events: seq<Event>) {
    && |states| == |events| + 1
    && states[0].gns == map[] && (forall p | p in states[0].conns :: states[0].conns[p].userId == 0)
    && forall i | 0 <= i < |events| :: Possible(states[i], events[i]) && states[i + 1] == After(states[i], events[i])
  }

  lemma EventKeeps(s: Server, e: Event)
    requires Agreement(s) && Possible(s, e)
    ensures Agreement(After(s, e))
  {
    hide Agreement;
    match e
    case Accept(pos, at) => AcceptKeeps(s, pos, at);
    case Drop(pos, now) => ReleaseKeeps(s, pos, now);
    case Login(pos, u, now) => LoginAgreement(s, pos, u, now);
    case Notice(d, now) => NoticeAgreement(s, d, now);
    case Disconnect(d, now) => DisconnectKeeps(s, d, now);
    case Sweep(buckets, bucket, at) => SweepKeeps(s, buckets, bucket, at);
  }

  lemma {:induction false} RunAgreement(states: seq<Server>, events: seq<Event>)
    requires Run(states, events)
    ensures Agreement(states[|events|])
  {
    if events != [] {
      hide Agreement, After, Possible;
      var last := |events| - 1;
      RunAgreement(states[..last + 1], events[..last]);
      EventKeeps(states[last], events[last]);
    }
  }

  /** In every reachable state a user has at most one connection here. */
  lemma OneConnection(states: seq<Server>, events: seq<Event>, p: nat, q: nat)
    requires Run(states, events)
    ensures
      var s := states[|events|];
      p in s.conns && q in s.conns && s.conns[p].userId == s.conns[q].userId != 0 ==> p == q
  {
    RunAgreement(states, events);
    var s := states[|events|];
    if p in s.conns && q in s.conns && s.conns[p].userId == s.conns[q].userId != 0 {
      assert Pair(s, p, s.conns[p].userId) && Pair(s, q, s.conns[p].userId);
    }
  }

  /** A connection that is bound to a user has been authorised. */
  ghost predicate Authorised(s: Server) {
    forall p | p in s.conns && s.conns[p].userId != 0 :: s.conns[p].auth
  }

  lemma KickedConns(s: Server, u: nat, now: nat)
    ensures forall p | p in Kicked(s, u, now).conns :: p in s.conns && Kicked(s, u, now).conns[p] == s.conns[p]
  {
  }

  lemma EventAuthorised(s: Server, e: Event)
    requires Authorised(s) && Possible(s, e)
    ensures Authorised(After(s, e))
  {
    match e
    case Login(pos, u, now) =>
      KickedConns(s.(conns := s.conns[pos := s.conns[pos].(userId := u, auth := true)]), u, now);
      hide Kicked;
    case Notice(d, now) =>
      KickedConns(s, d.userId, now);
      hide Kicked;
    case Disconnect(d, now) =>
      KickedConns(s, d.userId, now);
      hide Kicked, Here;
    case _ =>
      hide Expired, InBucket;
  }

  /** In every reachable state the connections that are bound to users are authorised ones. */
  lemma {:induction false} RunAuthorised(states: seq<Server>, events: seq<Event>)
    requires Run(states, events)
    ensures Authorised(states[|events|])
  {
    if events != [] {
      hide Authorised, After, Possible;
      var last := |events| - 1;
      RunAuthorised(states[..last + 1], events[..last]);
      EventAuthorised(states[last], events[last]);
    }
  }

  function Lonely(): Server {
    Server(1, 1, map[], map[])
  }

  lemma LonelyLogin()
    ensures Accepted(Lonely(), 500, 0).conns == map[500 := Conn(0, false, 0)] && Accepted(Lonely(), 500, 0).gns == map[]
    ensures
      var s := LoggedIn(Accepted(Lonely(), 500, 0), 500, 7, 1);
      s.id == 1 && s.capacity == 1 && s.conns == map[500 := Conn(7, true, 0)] &&
          s.gns == map[7 := Gns(500, 1, Active, 1)]
  {
  }

  lemma LonelyAgain(s: Server)
    requires s.id == 1 && s.capacity == 1 && s.conns == map[500 := Conn(7, true, 0)] &&
             s.gns == map[7 := Gns(500, 1, Active, 1)]
    ensures LoggedIn(s, 500, 7, 2).conns == map[] && Here(LoggedIn(s, 500, 7, 2), 7)
  {
  }

  /** Accept, login, and the same login once more: the second one closes the connection it has reached, and
      the directory goes on naming it. */
  lemma LoginTwice()
    ensures
      var accepted := Accepted(Lonely(), 500, 0);
      var states := [Lonely(), accepted, LoggedIn(accepted, 500, 7, 1)];
      && Run(states, [Accept(500, 0), Login(500, 7, 1)])
      && var s := LoggedIn(states[2], 500, 7, 2);
      s.conns == map[] && Here(s, 7) && !Agreement(s)
  {
    LonelyLogin();
    var accepted := Accepted(Lonely(), 500, 0);
    var twice := LoggedIn(accepted, 500, 7, 1);
    LonelyAgain(twice);
    hide Accepted, LoggedIn, Agreement, Here;
    var states, events := [Lonely(), accepted, twice], [Accept(500, 0), Login(500, 7, 1)];
    assert Run(states, events);
    RunAgreement(states, events);
    LoginBreaks(twice, 500, 7, 2);
  }
}
