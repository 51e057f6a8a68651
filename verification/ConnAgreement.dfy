/** When the directories of several CONN servers (conn/conn.cpp) agree on a user: what each holds, exactly,
    after any run of logins, drops, timeouts, sweeps and messages in any order. */
module ConnAgreement {
  import opened Common
  import opened ConnDirectory
  import opened ConnCluster

  // ----- one event and one user's entry

  /** What the event tells or is told. */
  function Carried(s: Server, e: Event): set<Message> {
    Emitted(s, e) + Received(e)
  }

  /** The entry that a message asks for. */
  function Says(m: Message): Gns {
    Entry(m.data, if m.Login? then Active else Unactive)
  }

  /** And the message that asks for an entry. */
  function Told(u: nat, g: Gns): Message {
    var d := LoginData(u, g.serverId, g.connPos, g.lastActiveTime);
    if g.status == Active then Message.Login(d) else Message.Disconnect(d)
  }

  predicate Holds(s: Server, m: Message) {
    m.data.userId in s.gns && s.gns[m.data.userId] == Says(m)
  }

  predicate Same(s: Server, t: Server, u: nat) {
    (u in s.gns <==> u in t.gns) && (u in s.gns ==> s.gns[u] == t.gns[u])
  }

  /** The guard of the branch that stores what an event about the user says. */
  predicate Stores(s: Server, e: Event, u: nat) {
    match e
    case Login(_, _, _) => u in s.gns || |s.gns| < s.capacity
    case Drop(_, _) => u in s.gns
    case Notice(d, _) => !Ignored(s, d)
    case Disconnect(d, _) => u in s.gns && s.gns[u].lastActiveTime <= d.time && !Here(s, u)
    case _ => false
  }

  /** The guard of the branch in which a disconnect notice closes the user's connection here. */
  predicate Kicks(s: Server, e: Event, u: nat) {
    e.Disconnect? && e.d.userId == u && Here(s, u) && s.gns[u].lastActiveTime <= e.d.time
  }

  /** The guard of the sweep. */
  predicate Removes(s: Server, e: Event, u: nat) {
    e.Sweep? && e.buckets > 0 && u in s.gns && InBucket(u, e.buckets, e.bucket) && Expired(s.gns[u], e.at)
  }

  /** The entry is that of a user whose connection was closed at the time. */
  predicate Stamped(s: Server, t: Server, u: nat, now: nat) {
    u in s.gns && u in t.gns && t.gns[u] == Gns(s.gns[u].connPos, s.id, Unactive, now)
  }

  lemma LoginStores(s: Server, pos: nat, u: nat, now: nat)
    requires Possible(s, Event.Login(pos, u, now))
    ensures
      var t := LoggedIn(s, pos, u, now);
      if u in s.gns || |s.gns| < s.capacity then u in t.gns && t.gns[u] == Gns(pos, s.id, Active, now)
      else u !in t.gns
  {
    hide Kicked;
  }

  lemma NoticeStores(s: Server, d: LoginData, now: nat)
    ensures
      var t := Noticed(s, d, now);
      if Ignored(s, d) then t == s else d.userId in t.gns && t.gns[d.userId] == Entry(d, Active)
  {
    hide Kicked;
  }

  lemma DisconnectStores(s: Server, d: LoginData, now: nat)
    ensures
      var e, u, t := Event.Disconnect(d, now), d.userId, Disconnected(s, d, now);
      if Stores(s, e, u) then u in t.gns && t.gns[u] == Entry(d, Unactive)
      else Same(s, t, u) || (Kicks(s, e, u) && Stamped(s, t, u, now))
  {
  }

  /** An event about a user leaves the entry it speaks of if and only if the guard holds; if not, the entry
      stays, or a kick stamps it with the time of the kick. */
  lemma StoresExactly(s: Server, e: Event, m: Message)
    requires Possible(s, e) && Foreign(s, e) && m in Carried(s, e)
    ensures
      var u, t := m.data.userId, After(s, e);
      && (Holds(t, m) <==> Stores(s, e, u))
      && (!Holds(t, m) ==> Same(s, t, u) || (Kicks(s, e, u) && Stamped(s, t, u, e.now)))
  {
    match e
    case Drop(_, _) =>
    case Login(pos, u, now) =>
      LoginStores(s, pos, u, now);
      hide LoggedIn;
    case Notice(d, now) =>
      NoticeStores(s, d, now);
      hide Noticed;
    case Disconnect(d, now) =>
      DisconnectStores(s, d, now);
      hide Disconnected;
  }

  lemma KickOthers(s: Server, v: nat, now: nat, u: nat)
    requires u != v
    ensures Same(s, Kicked(s, v, now), u)
  {
  }

  lemma LoginOthers(s: Server, pos: nat, v: nat, now: nat, u: nat)
    requires pos in s.conns && u != v
    ensures Same(s, LoggedIn(s, pos, v, now), u)
  {
    KickOthers(s.(conns := s.conns[pos := s.conns[pos].(userId := v, auth := true)]), v, now, u);
    hide Kicked;
  }

  lemma NoticeOthers(s: Server, d: LoginData, now: nat, u: nat)
    requires u != d.userId
    ensures Same(s, Noticed(s, d, now), u) && Same(s, Disconnected(s, d, now), u)
  {
    KickOthers(s, d.userId, now, u);
    hide Kicked, Here;
  }

  /** Any other event leaves the entry alone, unless the sweep removes it. */
  lemma OthersLeave(s: Server, e: Event, u: nat)
    requires Possible(s, e) && forall m | m in Carried(s, e) :: m.data.userId != u
    ensures if Removes(s, e, u) then u !in After(s, e).gns else Same(s, After(s, e), u)
  {
    hide LoggedIn, Noticed, Disconnected, Expired, InBucket;
    match e
    case Accept(_, _) =>
    case Drop(pos, now) =>
      var v := s.conns[pos].userId;
      assert v != 0 ==> Message.Disconnect(LoginData(v, s.id, pos, now)) in Carried(s, e);
      hide Carried, Emitted, Received;
    case Login(pos, v, now) =>
      assert Message.Login(LoginData(v, s.id, pos, now)) in Carried(s, e);
      LoginOthers(s, pos, v, now, u);
    case Notice(d, now) =>
      assert Message.Login(d) in Carried(s, e);
      NoticeOthers(s, d, now, u);
    case Disconnect(d, now) =>
      assert Message.Disconnect(d) in Carried(s, e);
      NoticeOthers(s, d, now, u);
    case Sweep(_, _, _) =>
  }

  /** An event carries one message at most. */
  lemma OneMessage(s: Server, e: Event, m: Message, n: Message)
    requires m in Carried(s, e) && n in Carried(s, e)
    ensures m == n
  {
  }

  // ----- where entries come from

  ghost predicate Spoken(c: Cluster, u: nat) {
    exists m :: m in c.sent && m.data.userId == u
  }

  /** Every entry is what some message about the user asks for, or that of a connection closed here. */
  ghost predicate Sourced(c: Cluster, j: nat, u: nat)
    requires j < |c.servers|
  {
    u in c.servers[j].gns ==>
      && Spoken(c, u)
      && var g := c.servers[j].gns[u]; Told(u, g) in c.sent || (g.serverId == j && g.status == Unactive)
  }

  ghost predicate AllSourced(c: Cluster, u: nat) {
    forall j: nat | j < |c.servers| :: Sourced(c, j, u)
  }

  /** What the event carries has been sent by then. */
  lemma CarriedSent(c: Cluster, i: nat, e: Event, m: Message)
    requires Inv(c) && Enabled(c, i, e) && m in Carried(c.servers[i], e)
    ensures m in Happened(c, i, e).sent && Foreign(c.servers[i], e) && c.servers[i].id == i
    ensures m !in c.sent ==> m in Emitted(c.servers[i], e) && m.data.serverId == i
    ensures m in Received(e) ==> m in c.sent && m.data.serverId != i
  {
    hide After, Possible, Agreement;
    ServerIs(c, i);
  }

  lemma ServerIs(c: Cluster, i: nat)
    requires Inv(c) && i < |c.servers|
    ensures Agreement(c.servers[i]) && c.servers[i].id == i
  {
    assert ServerInv(c, i);
  }

  lemma SourcedStep(c: Cluster, i: nat, e: Event, u: nat)
    requires Inv(c) && AllSourced(c, u) && Enabled(c, i, e)
    ensures AllSourced(Happened(c, i, e), u)
  {
    hide After, Possible, Agreement, Inv, Foreign, Stores, Removes, Emitted, Received;
    var s, c' := c.servers[i], Happened(c, i, e);
    assert Spoken(c, u) ==> Spoken(c', u);
    assert Sourced(c, i, u);
    if m :| m in Carried(s, e) && m.data.userId == u {
      CarriedSent(c, i, e, m);
      StoresExactly(s, e, m);
      if !Holds(c'.servers[i], m) && !Same(s, c'.servers[i], u) {
        assert Here(s, u);
      }
    } else {
      OthersLeave(s, e, u);
    }
    forall j: nat | j < |c'.servers|
      ensures Sourced(c', j, u)
    {
      assert Sourced(c, j, u);
    }
  }

  // ----- clocks in step

  /** What a server sends about the user is later than all that was sent before, and not earlier than what
      its own directory says. */
  ghost predicate InTime(c: Cluster, i: nat, e: Event, u: nat) {
    i < |c.servers| && forall m | m in Emitted(c.servers[i], e) && m.data.userId == u ::
      && (u in c.servers[i].gns ==> c.servers[i].gns[u].lastActiveTime <= m.data.time)
      && forall l | l in c.sent && l.data.userId == u :: l.data.time < m.data.time
  }

  /** The newest message about its user. */
  ghost predicate Newest(c: Cluster, m: Message) {
    m in c.sent && forall l | l in c.sent && l.data.userId == m.data.userId && l != m :: l.data.time < m.data.time
  }

  /** Whoever is active on a server logged in there after all that the server has sent about the user. */
  ghost predicate OwnNewest(c: Cluster, u: nat) {
    forall i, m | 0 <= i < |c.servers| && Here(c.servers[i], u) && m in c.sent && m.data.userId == u &&
        m.data.serverId == i :: m.data.time <= c.servers[i].gns[u].lastActiveTime
  }

  lemma OwnNewestStep(c: Cluster, i: nat, e: Event, u: nat)
    requires Inv(c) && OwnNewest(c, u) && Enabled(c, i, e) && InTime(c, i, e, u)
    ensures OwnNewest(Happened(c, i, e), u)
  {
    hide After, Possible, Agreement, Inv, Removes;
    var s, c' := c.servers[i], Happened(c, i, e);
    ServerIs(c, i);
    if Here(c'.servers[i], u) {
      HereAfter(s, e, u);
      forall m | m in Emitted(s, e) && m.data.userId == u
        ensures m == Message.Login(LoginData(u, i, c'.servers[i].gns[u].connPos, c'.servers[i].gns[u].lastActiveTime))
      {
        StoresExactly(s, e, m);
        if m.Disconnect? {
          DropStores(s, e, m);
        }
      }
    }
    forall j, m | 0 <= j < |c'.servers| && Here(c'.servers[j], u) && m in c'.sent && m.data.userId == u &&
        m.data.serverId == j
      ensures m.data.time <= c'.servers[j].gns[u].lastActiveTime
    {
    }
  }

  /** A connection that is dropped while it is a user's has an entry to mark. */
  lemma DropStores(s: Server, e: Event, m: Message)
    requires Possible(s, e) && Agreement(s) && m in Emitted(s, e) && (m.Login? ==> m.data.userId != 0)
    ensures Stores(s, e, m.data.userId)
  {
    if e.Drop? {
      assert Pair(s, e.pos, m.data.userId);
    }
  }

  lemma NewestStep(c: Cluster, i: nat, e: Event, u: nat, m: Message)
    requires Inv(c) && Enabled(c, i, e) && InTime(c, i, e, u) && m.data.userId == u
    ensures m in Emitted(c.servers[i], e) ==> Newest(Happened(c, i, e), m)
    ensures Newest(Happened(c, i, e), m) && m in c.sent ==>
              Newest(c, m) && forall l | l in Emitted(c.servers[i], e) :: l.data.userId != u
    ensures Newest(c, m) && (forall l | l in Emitted(c.servers[i], e) :: l.data.userId != u) ==>
              Newest(Happened(c, i, e), m)
  {
    hide After, Possible, Inv;
    var c' := Happened(c, i, e);
    assert forall l :: l in c'.sent <==> l in c.sent || l in Emitted(c.servers[i], e);
    forall l, k | l in Emitted(c.servers[i], e) && k in Emitted(c.servers[i], e)
      ensures l == k
    {
      OneMessage(c.servers[i], e, l, k);
    }
  }

  ghost predicate Background(c: Cluster, u: nat) {
    Inv(c) && AllSourced(c, u) && OwnNewest(c, u)
  }

  // ----- the newest message, step by step

  /** Elsewhere an entry that says the newest message can only have come by it. */
  lemma HeldElsewhere(c: Cluster, j: nat, m: Message)
    requires AllSourced(c, m.data.userId) && j < |c.servers| && m.data.serverId != j && Holds(c.servers[j], m)
    ensures m in c.sent
  {
    assert Sourced(c, j, m.data.userId);
  }

  /** What holds the newest message keeps it when an older one arrives, and nothing else comes to say it. */
  lemma OlderArrives(c: Cluster, i: nat, e: Event, m: Message, l: Message)
    requires Background(c, m.data.userId) && Enabled(c, i, e) && Newest(c, m)
    requires l in Received(e) && l != m && l.data.userId == m.data.userId
    ensures Holds(After(c.servers[i], e), m) <==> Holds(c.servers[i], m)
  {
    hide After, Agreement, Possible, AllSourced, Emitted;
    var s := c.servers[i];
    ServerIs(c, i);
    CarriedSent(c, i, e, l);
    // what this server closes now is a login that is newer than m, if m is its own
    assert Here(s, m.data.userId) && m.data.serverId == i ==> m.data.time <= s.gns[m.data.userId].lastActiveTime;
    StoresExactly(s, e, l);
    if Holds(After(s, e), l) {
      assert l.data.time < m.data.time;
    } else if Kicks(s, e, m.data.userId) {
      assert e.d == l.data;
    }
  }

  lemma HeldStep(c: Cluster, i: nat, e: Event, j: nat, m: Message)
    requires Background(c, m.data.userId) && Enabled(c, i, e) && InTime(c, i, e, m.data.userId)
    requires Newest(Happened(c, i, e), m) && j < |c.servers|
    ensures
      var s, u := c.servers[i], m.data.userId;
      Holds(Happened(c, i, e).servers[j], m) <==>
        (j == i && m in Carried(s, e) && Stores(s, e, u)) ||
        (m in c.sent && Holds(c.servers[j], m) && !(j == i && Removes(s, e, u)))
  {
    hide After, Agreement, Possible, AllSourced, OwnNewest, InTime, Newest, Emitted, Received, Removes, Inv;
    var s, u := c.servers[i], m.data.userId;
    NewestStep(c, i, e, u, m);
    ServerIs(c, i);
    if m in Carried(s, e) {
      CarriedSent(c, i, e, m);
      StoresExactly(s, e, m);
      if Holds(s, m) {
        HeldStores(s, e, m);
      }
    } else {
      NewIsCarried(c, i, e, m);
    }
    if j != i {
      if Holds(c.servers[j], m) && m !in c.sent {
        HeldElsewhere(c, j, m);
      }
    } else if m !in Carried(s, e) {
      if l :| l in Carried(s, e) && l.data.userId == u {
        OlderArrives(c, i, e, m, l);
        NotASweep(s, e, l);
      } else {
        OthersLeave(s, e, u);
      }
    }
  }

  lemma NewIsCarried(c: Cluster, i: nat, e: Event, m: Message)
    requires Enabled(c, i, e) && Newest(Happened(c, i, e), m)
    ensures m in c.sent || m in Carried(c.servers[i], e)
  {
    hide After, Possible;
  }

  lemma HeldStores(s: Server, e: Event, m: Message)
    requires Possible(s, e) && m in Carried(s, e) && Holds(s, m)
    ensures Stores(s, e, m.data.userId) && !Removes(s, e, m.data.userId)
  {
  }

  lemma NotASweep(s: Server, e: Event, m: Message)
    requires m in Carried(s, e)
    ensures !Removes(s, e, m.data.userId)
  {
  }

  // ----- runs

  ghost predicate Clocked(states: seq<Cluster>, events: seq<(nat, Event)>, u: nat)
    requires |states| == |events| + 1
  {
    forall k | 0 <= k < |events| :: InTime(states[k], events[k].0, events[k].1, u)
  }

  /** Event k stores the message at server j. */
  ghost predicate TakenAt(states: seq<Cluster>, events: seq<(nat, Event)>, k: nat, j: nat, m: Message)
    requires |states| == |events| + 1 && k < |events|
  {
    && events[k].0 == j < |states[k].servers|
    && m in Carried(states[k].servers[j], events[k].1) && Stores(states[k].servers[j], events[k].1, m.data.userId)
  }

  /** Event k sweeps the user's entry at server j away. */
  ghost predicate SweptAt(states: seq<Cluster>, events: seq<(nat, Event)>, k: nat, j: nat, u: nat)
    requires |states| == |events| + 1 && k < |events|
  {
    events[k].0 == j < |states[k].servers| && Removes(states[k].servers[j], events[k].1, u)
  }

  /** Some event before the n-th stores the message at server j, and no later one of them sweeps it away. */
  ghost predicate Taken(states: seq<Cluster>, events: seq<(nat, Event)>, n: nat, j: nat, m: Message)
    requires |states| == |events| + 1 && n <= |events|
  {
    exists k | 0 <= k < n :: TakenAt(states, events, k, j, m) &&
        forall l | k < l < n :: !SweptAt(states, events, l, j, m.data.userId)
  }

  lemma {:induction false} BackgroundAt(states: seq<Cluster>, events: seq<(nat, Event)>, n: nat, u: nat)
    requires ConnCluster.Run(states, events) && Clocked(states, events, u) && n <= |events|
    ensures Background(states[n], u) && |states[n].servers| == |states[0].servers|
  {
    hide Inv, Enabled, Happened, AllSourced, OwnNewest, InTime, Initial;
    if n == 0 {
      InitialInv(states[0]);
      InitialBackground(states[0], u);
    } else {
      BackgroundAt(states, events, n - 1, u);
      var c, i, e := states[n - 1], events[n - 1].0, events[n - 1].1;
      assert Enabled(c, i, e) && InTime(c, i, e, u);
      EventInv(c, i, e);
      SourcedStep(c, i, e, u);
      OwnNewestStep(c, i, e, u);
      SameServers(c, i, e);
    }
  }

  lemma SameServers(c: Cluster, i: nat, e: Event)
    requires Enabled(c, i, e)
    ensures |Happened(c, i, e).servers| == |c.servers| && c.sent <= Happened(c, i, e).sent
  {
    hide After, Possible;
  }

  lemma InitialBackground(c: Cluster, u: nat)
    requires Initial(c)
    ensures AllSourced(c, u) && OwnNewest(c, u)
  {
  }

  lemma TakenStep(states: seq<Cluster>, events: seq<(nat, Event)>, n: nat, j: nat, m: Message)
    requires |states| == |events| + 1 && n < |events|
    ensures Taken(states, events, n + 1, j, m) <==>
            TakenAt(states, events, n, j, m) ||
            (Taken(states, events, n, j, m) && !SweptAt(states, events, n, j, m.data.userId))
  {
    hide TakenAt, SweptAt;
    if k :| 0 <= k < n + 1 && TakenAt(states, events, k, j, m) &&
            forall l | k < l < n + 1 :: !SweptAt(states, events, l, j, m.data.userId) {
    }
  }

  /** Only what has been sent is taken. */
  lemma TakenSent(states: seq<Cluster>, events: seq<(nat, Event)>, n: nat, j: nat, m: Message)
    requires ConnCluster.Run(states, events) && n <= |events| && Taken(states, events, n, j, m)
    ensures m in states[n].sent
  {
    hide After, Possible, Stores;
    var k :| 0 <= k < n && TakenAt(states, events, k, j, m);
    assert Enabled(states[k], events[k].0, events[k].1);
    assert m in states[k + 1].sent;
    SentStays(states, events, k + 1, n);
  }

  lemma {:induction false} SentStays(states: seq<Cluster>, events: seq<(nat, Event)>, k: nat, n: nat)
    requires ConnCluster.Run(states, events) && k <= n <= |events|
    ensures states[k].sent <= states[n].sent
    decreases n
  {
    hide Enabled, Happened, Initial;
    if k < n {
      SentStays(states, events, k, n - 1);
      assert Enabled(states[n - 1], events[n - 1].0, events[n - 1].1);
      SameServers(states[n - 1], events[n - 1].0, events[n - 1].1);
    }
  }

  /** What every directory holds, after every run: the newest message about a user if and only if some event
      there met the guard of the branch that stores it, and the sweep has not removed it since. */
  lemma {:induction false} HeldExactly(states: seq<Cluster>, events: seq<(nat, Event)>, n: nat, j: nat, m: Message)
    requires ConnCluster.Run(states, events) && n <= |events| && Clocked(states, events, m.data.userId)
    requires Newest(states[n], m) && j < |states[n].servers|
    ensures Holds(states[n].servers[j], m) <==> Taken(states, events, n, j, m)
  {
    hide Happened, Enabled, Newest, Taken, InTime, Holds, Background, Carried, Stores, Removes, Initial;
    if n == 0 {
      NothingNewest(states[0], m);
    } else {
      var c, i, e := states[n - 1], events[n - 1].0, events[n - 1].1;
      BackgroundAt(states, events, n - 1, m.data.userId);
      assert Enabled(c, i, e) && InTime(c, i, e, m.data.userId);
      SameServers(c, i, e);
      HeldStep(c, i, e, j, m);
      TakenStep(states, events, n - 1, j, m);
      if m in c.sent {
        NewestBefore(c, i, e, m);
        HeldExactly(states, events, n - 1, j, m);
      } else if Taken(states, events, n - 1, j, m) {
        TakenSent(states, events, n - 1, j, m);
      }
    }
  }

  lemma NothingNewest(c: Cluster, m: Message)
    requires Initial(c)
    ensures !Newest(c, m)
  {
  }

  lemma NewestBefore(c: Cluster, i: nat, e: Event, m: Message)
    requires Enabled(c, i, e) && Newest(Happened(c, i, e), m) && m in c.sent
    ensures Newest(c, m)
  {
    hide After, Possible;
  }

  // ----- room in the directories

  /** The users who log in fit into every directory. */
  ghost predicate Fit(c: Cluster, users: set<nat>) {
    && (forall m | m in c.sent && m.Login? :: m.data.userId in users)
    && forall i | 0 <= i < |c.servers| :: c.servers[i].gns.Keys <= users && |users| <= c.servers[i].capacity
  }

  ghost predicate Fits(states: seq<Cluster>, events: seq<(nat, Event)>, users: set<nat>) {
    && |states| > 0 && (forall i | 0 <= i < |states[0].servers| :: |users| <= states[0].servers[i].capacity)
    && forall k | 0 <= k < |events| && events[k].1.Login? :: events[k].1.userId in users
  }

  lemma KickedKeys(s: Server, u: nat, now: nat)
    ensures Kicked(s, u, now).gns.Keys == s.gns.Keys
  {
  }

  lemma LoginKeys(s: Server, pos: nat, u: nat, now: nat)
    requires pos in s.conns
    ensures LoggedIn(s, pos, u, now).gns.Keys <= s.gns.Keys + {u}
  {
    KickedKeys(s.(conns := s.conns[pos := s.conns[pos].(userId := u, auth := true)]), u, now);
    hide Kicked;
  }

  lemma NoticeKeys(s: Server, d: LoginData, now: nat)
    ensures Noticed(s, d, now).gns.Keys <= s.gns.Keys + {d.userId}
  {
    KickedKeys(s, d.userId, now);
    hide Kicked;
  }

  lemma DisconnectKeys(s: Server, d: LoginData, now: nat)
    ensures Disconnected(s, d, now).gns.Keys == s.gns.Keys
  {
    KickedKeys(s, d.userId, now);
    hide Kicked, Here;
  }

  lemma ReleasedKeys(s: Server, pos: nat, now: nat)
    requires pos in s.conns
    ensures Released(s, pos, now).gns.Keys == s.gns.Keys
  {
  }

  lemma SweptKeys(s: Server, buckets: nat, bucket: nat, at: int)
    requires buckets > 0
    ensures Swept(s, buckets, bucket, at).gns.Keys <= s.gns.Keys
  {
    hide InBucket, Expired;
  }

  lemma KeysAfter(s: Server, e: Event)
    requires Possible(s, e)
    ensures After(s, e).gns.Keys <= s.gns.Keys +
            (if e.Login? then {e.userId} else if e.Notice? then {e.d.userId} else {})
  {
    hide Released, LoggedIn, Noticed, Disconnected, Swept, Ignored;
    match e
    case Accept(_, _) =>
    case Drop(pos, now) => ReleasedKeys(s, pos, now);
    case Login(pos, u, now) => LoginKeys(s, pos, u, now);
    case Notice(d, now) => NoticeKeys(s, d, now);
    case Disconnect(d, now) => DisconnectKeys(s, d, now);
    case Sweep(buckets, bucket, at) => SweptKeys(s, buckets, bucket, at);
  }

  lemma RoomFor(c: Cluster, i: nat, users: set<nat>, u: nat)
    requires Fit(c, users) && i < |c.servers| && u in users
    ensures u in c.servers[i].gns || |c.servers[i].gns| < c.servers[i].capacity
  {
    if u !in c.servers[i].gns {
      SubsetSize(c.servers[i].gns.Keys, users - {u});
    }
  }

  lemma FitAfter(c: Cluster, i: nat, e: Event, users: set<nat>)
    requires Inv(c) && Fit(c, users) && Enabled(c, i, e) && (e.Login? ==> e.userId in users)
    ensures Fit(Happened(c, i, e), users)
  {
    hide After, ServerInv, Possible;
    var more := if e.Login? then {e.userId} else if e.Notice? then {e.d.userId} else {};
    assert more <= users;
    KeysAfter(c.servers[i], e);
    SameId(c.servers[i], e);
  }

  lemma {:induction false} FitAt(states: seq<Cluster>, events: seq<(nat, Event)>, n: nat, users: set<nat>, u: nat)
    requires ConnCluster.Run(states, events) && Clocked(states, events, u) && Fits(states, events, users)
    requires n <= |events|
    ensures Fit(states[n], users)
  {
    if n == 0 {
      hide Enabled, Happened, InTime;
    } else {
      hide Inv, Enabled, Happened, Fit, Initial, InTime, AllSourced, OwnNewest;
      FitAt(states, events, n - 1, users, u);
      BackgroundAt(states, events, n - 1, u);
      assert events[n - 1] in events && Enabled(states[n - 1], events[n - 1].0, events[n - 1].1);
      FitAfter(states[n - 1], events[n - 1].0, events[n - 1].1, users);
    }
  }

  // ----- every message was sent, and what arrived was received, at some event

  lemma {:induction false} SentBy(states: seq<Cluster>, events: seq<(nat, Event)>, n: nat, m: Message) returns (k: nat)
    requires ConnCluster.Run(states, events) && n <= |events| && m in states[n].sent
    ensures k < n && events[k].0 < |states[k].servers| && m in Emitted(states[k].servers[events[k].0], events[k].1)
  {
    hide Emitted, After, Possible;
    assert n > 0;
    var c, i, e := states[n - 1], events[n - 1].0, events[n - 1].1;
    assert Enabled(c, i, e);
    if m in c.sent {
      k := SentBy(states, events, n - 1, m);
    } else {
      k := n - 1;
    }
  }

  lemma {:induction false} ReceivedBy(states: seq<Cluster>, events: seq<(nat, Event)>, n: nat, j: nat, m: Message)
    returns (k: nat)
    requires ConnCluster.Run(states, events) && n <= |events| && j < |states[n].seen| && m in states[n].seen[j]
    ensures k < n && events[k].0 == j < |states[k].servers| && m in Received(events[k].1)
  {
    hide Emitted, Received, After, Possible;
    assert n > 0;
    var c, i, e := states[n - 1], events[n - 1].0, events[n - 1].1;
    assert Enabled(c, i, e);
    if m in c.seen[j] {
      k := ReceivedBy(states, events, n - 1, j, m);
    } else {
      k := n - 1;
    }
  }

  // ----- entries are no newer than the messages and the kicks

  /** Event k closes the user's connection because of a disconnect notice. */
  ghost predicate KickedAt(states: seq<Cluster>, events: seq<(nat, Event)>, k: nat, u: nat)
    requires |states| == |events| + 1 && k < |events|
  {
    events[k].0 < |states[k].servers| && Kicks(states[k].servers[events[k].0], events[k].1, u)
  }

  ghost predicate LateKick(states: seq<Cluster>, events: seq<(nat, Event)>, k: nat, u: nat, t: nat)
    requires |states| == |events| + 1 && k < |events|
  {
    KickedAt(states, events, k, u) && t < events[k].1.now
  }

  /** No kick of the user is stamped later than t. */
  ghost predicate Calm(states: seq<Cluster>, events: seq<(nat, Event)>, u: nat, t: nat)
    requires |states| == |events| + 1
  {
    forall k | 0 <= k < |events| :: !LateKick(states, events, k, u, t)
  }

  ghost predicate Until(c: Cluster, u: nat, t: nat) {
    && (forall m | m in c.sent && m.data.userId == u :: m.data.time <= t)
    && forall j | 0 <= j < |c.servers| && u in c.servers[j].gns :: c.servers[j].gns[u].lastActiveTime <= t
  }

  lemma UntilStep(c: Cluster, i: nat, e: Event, u: nat, t: nat)
    requires Inv(c) && Enabled(c, i, e) && Until(c, u, t)
    requires forall m | m in Happened(c, i, e).sent && m.data.userId == u :: m.data.time <= t
    requires Kicks(c.servers[i], e, u) ==> e.now <= t
    ensures Until(Happened(c, i, e), u, t)
  {
    hide After, Possible, Inv, Stores, Removes, Emitted, Received;
    var s := c.servers[i];
    if m :| m in Carried(s, e) && m.data.userId == u {
      CarriedSent(c, i, e, m);
      StoresExactly(s, e, m);
    } else {
      OthersLeave(s, e, u);
    }
  }

  lemma {:induction false} UntilAt(states: seq<Cluster>, events: seq<(nat, Event)>, n: nat, u: nat, t: nat)
    requires ConnCluster.Run(states, events) && Clocked(states, events, u) && n <= |events|
    requires Calm(states, events, u, t) && forall m | m in states[n].sent && m.data.userId == u :: m.data.time <= t
    ensures Until(states[n], u, t)
  {
    hide Enabled, Happened, InTime, Inv, AllSourced, OwnNewest;
    if n > 0 {
      hide Initial;
      var c, i, e := states[n - 1], events[n - 1].0, events[n - 1].1;
      assert Enabled(c, i, e);
      SameServers(c, i, e);
      UntilAt(states, events, n - 1, u, t);
      BackgroundAt(states, events, n - 1, u);
      EnabledServer(c, i, e);
      assert !LateKick(states, events, n - 1, u, t);
      UntilStep(c, i, e, u, t);
    }
  }

  lemma EnabledServer(c: Cluster, i: nat, e: Event)
    requires Enabled(c, i, e)
    ensures i < |c.servers|
  {
  }

  // ----- all directories

  ghost predicate Unswept(states: seq<Cluster>, events: seq<(nat, Event)>, u: nat)
    requires |states| == |events| + 1
  {
    forall k | 0 <= k < |events| :: !SweptAt(states, events, k, events[k].0, u)
  }

  /** The message has reached every server but its own. */
  ghost predicate Reached(c: Cluster, m: Message) {
    |c.seen| == |c.servers| && forall j | 0 <= j < |c.seen| && j != m.data.serverId :: m in c.seen[j]
  }

  /** Event k brings the message to server j, whose directory has the user, and not as active there. */
  ghost predicate MetAt(states: seq<Cluster>, events: seq<(nat, Event)>, k: nat, j: nat, m: Message)
    requires |states| == |events| + 1 && k < |events|
  {
    && events[k].0 == j < |states[k].servers| && m in Received(events[k].1)
    && m.data.userId in states[k].servers[j].gns && !Here(states[k].servers[j], m.data.userId)
  }

  ghost predicate MetOnce(states: seq<Cluster>, events: seq<(nat, Event)>, j: nat, m: Message)
    requires |states| == |events| + 1
  {
    exists k | 0 <= k < |events| :: MetAt(states, events, k, j, m)
  }

  /** A disconnect notice meets an entry of the user on every other server, and nobody to kick. */
  ghost predicate Met(states: seq<Cluster>, events: seq<(nat, Event)>, m: Message)
    requires |states| == |events| + 1
  {
    m.Disconnect? ==>
      forall j: nat | j < |states[0].servers| && j != m.data.serverId :: MetOnce(states, events, j, m)
  }

  ghost predicate AllHold(c: Cluster, m: Message) {
    forall j | 0 <= j < |c.servers| :: Holds(c.servers[j], m)
  }

  /** All directories say the same of the user. */
  ghost predicate Agree(c: Cluster, u: nat) {
    forall j, k | 0 <= j < |c.servers| && 0 <= k < |c.servers| :: Same(c.servers[j], c.servers[k], u)
  }

  lemma TakenOnce(states: seq<Cluster>, events: seq<(nat, Event)>, k: nat, j: nat, m: Message)
    requires |states| == |events| + 1 && Unswept(states, events, m.data.userId)
    requires k < |events| && TakenAt(states, events, k, j, m)
    ensures Taken(states, events, |events|, j, m)
  {
    hide TakenAt, Removes;
    forall l | k < l < |events|
      ensures !SweptAt(states, events, l, j, m.data.userId)
    {
      assert !SweptAt(states, events, l, events[l].0, m.data.userId);
    }
  }

  /** The server a message comes from holds it. */
  lemma OwnHolds(states: seq<Cluster>, events: seq<(nat, Event)>, users: set<nat>, m: Message)
    requires ConnCluster.Run(states, events) && Fits(states, events, users)
    requires Clocked(states, events, m.data.userId) && Unswept(states, events, m.data.userId)
    requires Newest(states[|events|], m)
    ensures 0 <= m.data.serverId < |states[|events|].servers|
    ensures Holds(states[|events|].servers[m.data.serverId], m)
  {
    hide Happened, Inv, InTime, AllSourced, OwnNewest, Removes, Fit, Fits;
    var u := m.data.userId;
    var k := SentBy(states, events, |events|, m);
    var c, i, e := states[k], events[k].0, events[k].1;
    assert Enabled(c, i, e);
    BackgroundAt(states, events, k, u);
    BackgroundAt(states, events, |events|, u);
    FitAt(states, events, k + 1, users, u);
    FitAt(states, events, k, users, u);
    CarriedSent(c, i, e, m);
    ServerIs(c, i);
    EmitterStores(c, i, e, users, m);
    TakenOnce(states, events, k, i, m);
    HeldExactly(states, events, |events|, i, m);
  }

  lemma EmitterStores(c: Cluster, i: nat, e: Event, users: set<nat>, m: Message)
    requires Inv(c) && Enabled(c, i, e) && Fit(c, users) && Fit(Happened(c, i, e), users)
    requires m in Emitted(c.servers[i], e)
    ensures Stores(c.servers[i], e, m.data.userId)
  {
    hide After, Inv, Agreement;
    ServerIs(c, i);
    if m.Disconnect? {
      DropStores(c.servers[i], e, m);
    } else {
      assert m in Happened(c, i, e).sent;
      RoomFor(c, i, users, m.data.userId);
    }
  }

  /** An arrival is stored if nothing here is newer than it and, for a disconnect notice, it has been met. */
  lemma ArrivalStores(c: Cluster, i: nat, e: Event, users: set<nat>, m: Message)
    requires i < |c.servers| && m in Received(e) && Until(c, m.data.userId, m.data.time) && Fit(c, users)
    requires m.Login? ==> m.data.userId in users
    requires m.Disconnect? ==> m.data.userId in c.servers[i].gns && !Here(c.servers[i], m.data.userId)
    ensures Stores(c.servers[i], e, m.data.userId)
  {
    if m.Login? {
      RoomFor(c, i, users, m.data.userId);
    }
  }

  lemma ArrivalHolds(states: seq<Cluster>, events: seq<(nat, Event)>, users: set<nat>, j: nat, m: Message)
    requires ConnCluster.Run(states, events) && Fits(states, events, users)
    requires Clocked(states, events, m.data.userId) && Unswept(states, events, m.data.userId)
    requires Newest(states[|events|], m) && Reached(states[|events|], m)
    requires Calm(states, events, m.data.userId, m.data.time) && Met(states, events, m)
    requires j < |states[|events|].servers| && j != m.data.serverId
    ensures Holds(states[|events|].servers[j], m)
  {
    hide Happened, Inv, InTime, AllSourced, OwnNewest, Removes, Fits, Enabled, Calm, Unswept, Initial, Holds, Here;
    var u, end := m.data.userId, |events|;
    BackgroundAt(states, events, end, u);
    var k: nat;
    if m.Login? {
      k := ReceivedBy(states, events, end, j, m);
    } else {
      assert MetOnce(states, events, j, m);
      k :| 0 <= k < end && MetAt(states, events, k, j, m);
    }
    SentStays(states, events, k, end);
    UntilAt(states, events, k, u, m.data.time);
    FitAt(states, events, k, users, u);
    FitAt(states, events, end, users, u);
    ArrivalStores(states[k], j, events[k].1, users, m);
    TakenOnce(states, events, k, j, m);
    HeldExactly(states, events, end, j, m);
  }

  // ----- late kicks

  /** What a kick leaves behind: an entry that is not active, stamped t. */
  ghost predicate KickedEntry(s: Server, u: nat, t: nat) {
    u in s.gns && s.gns[u].serverId == s.id && s.gns[u].status == Unactive && s.gns[u].lastActiveTime == t
  }

  /** Disconnect notices are sent for users only. */
  lemma NobodyKicked(states: seq<Cluster>, events: seq<(nat, Event)>, k: nat, u: nat)
    requires ConnCluster.Run(states, events) && k < |events| && KickedAt(states, events, k, u)
    ensures u != 0
  {
    hide Happened, After, Possible, Initial;
    var d := events[k].1.d;
    assert Enabled(states[k], events[k].0, events[k].1);
    var l := SentBy(states, events, k, Message.Disconnect(d));
  }

  lemma KickLeaves(s: Server, e: Event, u: nat)
    requires Agreement(s) && u != 0 && Possible(s, e) && Kicks(s, e, u)
    ensures KickedEntry(After(s, e), u, e.now) && After(s, e).id == s.id
  {
    assert Pair(s, s.gns[u].connPos, u);
  }

  /** Nothing that is earlier than the stamp changes such an entry. */
  lemma KickedStays(c: Cluster, i: nat, e: Event, u: nat, t: nat)
    requires Inv(c) && Enabled(c, i, e) && InTime(c, i, e, u) && u != 0 && KickedEntry(c.servers[i], u, t)
    requires forall m | m in Happened(c, i, e).sent && m.data.userId == u :: m.data.time < t
    requires !Removes(c.servers[i], e, u)
    ensures KickedEntry(After(c.servers[i], e), u, t)
  {
    hide After, Possible, Inv, Removes, Emitted;
    var s := c.servers[i];
    ServerIs(c, i);
    SameId(s, e);
    if m :| m in Carried(s, e) && m.data.userId == u {
      CarriedSent(c, i, e, m);
      StoresExactly(s, e, m);
      assert m.data.time < t;
      OlderNotStored(s, e, m, t);
    } else {
      OthersLeave(s, e, u);
    }
  }

  lemma OlderNotStored(s: Server, e: Event, m: Message, t: nat)
    requires Agreement(s) && m.data.userId != 0 && m in Carried(s, e) && KickedEntry(s, m.data.userId, t)
    requires m.data.time < t && !e.Login?
    ensures !Stores(s, e, m.data.userId)
  {
    if e.Drop? {
      assert Pair(s, e.pos, m.data.userId);
    }
  }

  /** A kick that is stamped later than all messages about the user stays. */
  lemma {:induction false} LateKickStays(states: seq<Cluster>, events: seq<(nat, Event)>, k: nat, n: nat, u: nat)
    requires ConnCluster.Run(states, events) && Clocked(states, events, u) && Unswept(states, events, u)
    requires k < n <= |events| && KickedAt(states, events, k, u)
    requires forall m | m in states[n].sent && m.data.userId == u :: m.data.time < events[k].1.now
    ensures events[k].0 < |states[n].servers| && KickedEntry(states[n].servers[events[k].0], u, events[k].1.now)
  {
    hide Happened, Enabled, Inv, InTime, AllSourced, OwnNewest, Initial, Removes, KickedEntry, Agreement;
    var c, i, e := states[n - 1], events[n - 1].0, events[n - 1].1;
    BackgroundAt(states, events, n - 1, u);
    NobodyKicked(states, events, k, u);
    assert Enabled(c, i, e) && InTime(c, i, e, u);
    EnabledServer(c, i, e);
    SameServers(c, i, e);
    if n == k + 1 {
      KickStep(c, i, e, u);
    } else {
      LateKickStays(states, events, k, n - 1, u);
      if i == events[k].0 {
        assert !SweptAt(states, events, n - 1, i, u);
        KickedStays(c, i, e, u, events[k].1.now);
      }
      StepAt(c, i, e, events[k].0);
    }
  }

  lemma KickStep(c: Cluster, i: nat, e: Event, u: nat)
    requires Inv(c) && Enabled(c, i, e) && u != 0 && Kicks(c.servers[i], e, u)
    ensures KickedEntry(Happened(c, i, e).servers[i], u, e.now)
  {
    hide After, Possible, Inv;
    ServerIs(c, i);
    KickLeaves(c.servers[i], e, u);
  }

  lemma StepAt(c: Cluster, i: nat, e: Event, j: nat)
    requires Enabled(c, i, e) && j < |c.servers|
    ensures Happened(c, i, e).servers[j] == if j == i then After(c.servers[i], e) else c.servers[j]
  {
    hide After, Possible;
  }

  /** After a kick that is stamped later than all messages about the user, the directories differ. */
  lemma LateKickDisagrees(states: seq<Cluster>, events: seq<(nat, Event)>, users: set<nat>, k: nat, m: Message)
    requires ConnCluster.Run(states, events) && Fits(states, events, users)
    requires Clocked(states, events, m.data.userId) && Unswept(states, events, m.data.userId)
    requires Newest(states[|events|], m)
    requires k < |events| && LateKick(states, events, k, m.data.userId, m.data.time)
    ensures !Agree(states[|events|], m.data.userId)
  {
    hide Happened, Enabled, Inv, InTime, AllSourced, OwnNewest, Initial, Kicks, Removes;
    LateKickStays(states, events, k, |events|, m.data.userId);
    OwnHolds(states, events, users, m);
  }

  /** Only a notice that has been met is stored. */
  lemma TakenMet(states: seq<Cluster>, events: seq<(nat, Event)>, j: nat, m: Message)
    requires ConnCluster.Run(states, events) && m.Disconnect? && m.data.serverId != j
    requires Clocked(states, events, m.data.userId) && Taken(states, events, |events|, j, m)
    ensures MetOnce(states, events, j, m)
  {
    hide Happened, Enabled, Inv, InTime, AllSourced, OwnNewest, Initial, SweptAt;
    var k :| 0 <= k < |events| && TakenAt(states, events, k, j, m);
    BackgroundAt(states, events, k, m.data.userId);
    ServerIs(states[k], j);
    assert MetAt(states, events, k, j, m);
  }

  lemma AgreeHolds(c: Cluster, m: Message)
    requires 0 <= m.data.serverId < |c.servers| && Holds(c.servers[m.data.serverId], m)
    ensures Agree(c, m.data.userId) <==> AllHold(c, m)
  {
    hide Says;
    if Agree(c, m.data.userId) {
      forall j | 0 <= j < |c.servers|
        ensures Holds(c.servers[j], m)
      {
        assert Same(c.servers[m.data.serverId], c.servers[j], m.data.userId);
      }
    }
  }

  /** Over every run: once the newest message about a user has reached all servers, and unless the user has
      been swept out of a directory, the directories agree on the user if and only if no disconnect notice
      has kicked the user at a time later than that message and, if that message is itself a disconnect
      notice, it has met an entry and nobody to kick on every other server.  They then all hold that message. */
  lemma AgreeExactly(states: seq<Cluster>, events: seq<(nat, Event)>, users: set<nat>, m: Message)
    requires ConnCluster.Run(states, events) && Fits(states, events, users)
    requires Clocked(states, events, m.data.userId) && Unswept(states, events, m.data.userId)
    requires Newest(states[|events|], m) && Reached(states[|events|], m)
    ensures Agree(states[|events|], m.data.userId) <==>
            Calm(states, events, m.data.userId, m.data.time) && Met(states, events, m)
    ensures Agree(states[|events|], m.data.userId) <==> AllHold(states[|events|], m)
  {
    hide Enabled, Happened, Initial, Fits, Clocked, Unswept, Newest, Reached, MetOnce, LateKick, Agree, Holds;
    var c, u := states[|events|], m.data.userId;
    OwnHolds(states, events, users, m);
    AgreeHolds(c, m);
    BackgroundAt(states, events, |events|, u);
    if Calm(states, events, u, m.data.time) && Met(states, events, m) {
      forall j: nat | j < |c.servers|
        ensures Holds(c.servers[j], m)
      {
        if j != m.data.serverId {
          ArrivalHolds(states, events, users, j, m);
        }
      }
    }
    if Agree(c, u) {
      forall k | 0 <= k < |events|
        ensures !LateKick(states, events, k, u, m.data.time)
      {
        if LateKick(states, events, k, u, m.data.time) {
          LateKickDisagrees(states, events, users, k, m);
        }
      }
      if m.Disconnect? {
        forall j: nat | j < |c.servers| && j != m.data.serverId
          ensures MetOnce(states, events, j, m)
        {
          HeldExactly(states, events, |events|, j, m);
          TakenMet(states, events, j, m);
        }
      }
    }
  }

  // ----- what the directories agree on

  /** As long as nothing has been said about a user, no directory has the user. */
  lemma NothingSaid(states: seq<Cluster>, events: seq<(nat, Event)>, u: nat, j: nat)
    requires ConnCluster.Run(states, events) && Clocked(states, events, u) && !Spoken(states[|events|], u)
    requires j < |states[|events|].servers|
    ensures u !in states[|events|].servers[j].gns
  {
    hide Happened, Enabled, Inv, InTime, OwnNewest, Initial;
    BackgroundAt(states, events, |events|, u);
    assert Sourced(states[|events|], j, u);
  }

  /** And after that there is a newest message. */
  lemma {:induction false} NewestExists(states: seq<Cluster>, events: seq<(nat, Event)>, n: nat, u: nat)
    returns (m: Message)
    requires ConnCluster.Run(states, events) && Clocked(states, events, u) && n <= |events| && Spoken(states[n], u)
    ensures Newest(states[n], m) && m.data.userId == u
  {
    hide Enabled, InTime, Inv, AllSourced, OwnNewest, Newest, After, Possible;
    assert n > 0;
    var c, i, e := states[n - 1], events[n - 1].0, events[n - 1].1;
    assert Enabled(c, i, e) && InTime(c, i, e, u);
    BackgroundAt(states, events, n - 1, u);
    EnabledServer(c, i, e);
    if m' :| m' in Emitted(c.servers[i], e) && m'.data.userId == u {
      m := m';
      NewestStep(c, i, e, u, m);
    } else {
      m := NewestExists(states, events, n - 1, u);
      NewestStep(c, i, e, u, m);
    }
  }

  /** No event of the run meets a branch that goes wrong: a disconnect notice for the user finds an entry and
      nobody to kick, and the sweep does not find the user's entry. */
  ghost predicate Smooth(s: Server, e: Event, u: nat) {
    && (e.Disconnect? && e.d.userId == u ==> u in s.gns && !Kicks(s, e, u))
    && !Removes(s, e, u)
  }

  ghost predicate Undisturbed(states: seq<Cluster>, events: seq<(nat, Event)>, u: nat)
    requires |states| == |events| + 1
  {
    forall k | 0 <= k < |events| ::
      events[k].0 < |states[k].servers| && Smooth(states[k].servers[events[k].0], events[k].1, u)
  }

  lemma UndisturbedMeets(states: seq<Cluster>, events: seq<(nat, Event)>, m: Message)
    requires ConnCluster.Run(states, events) && Clocked(states, events, m.data.userId)
    requires Undisturbed(states, events, m.data.userId)
    requires Newest(states[|events|], m) && Reached(states[|events|], m)
    ensures Calm(states, events, m.data.userId, m.data.time) && Met(states, events, m)
  {
    hide Enabled, Happened, Inv, AllSourced, OwnNewest, InTime, Initial, Here, Removes, Received;
    BackgroundAt(states, events, |events|, m.data.userId);
    forall k | 0 <= k < |events|
      ensures !LateKick(states, events, k, m.data.userId, m.data.time)
    {
      assert Smooth(states[k].servers[events[k].0], events[k].1, m.data.userId);
    }
    if m.Disconnect? {
      forall j: nat | j < |states[0].servers| && j != m.data.serverId
        ensures MetOnce(states, events, j, m)
      {
        var k := ReceivedBy(states, events, |events|, j, m);
        assert Smooth(states[k].servers[j], events[k].1, m.data.userId);
        ReceivedIs(events[k].1, m);
        SentStays(states, events, k, |events|);
        UntilAt(states, events, k, m.data.userId, m.data.time);
        assert MetAt(states, events, k, j, m);
      }
    }
  }

  lemma ReceivedIs(e: Event, m: Message)
    requires m in Received(e)
    ensures m.Disconnect? ==> e.Disconnect? && e.d == m.data
  {
  }

  /** Who is connected where, when all directories hold the same message. */
  lemma ConnectedThere(c: Cluster, m: Message, j: nat, p: nat)
    requires Inv(c) && AllHold(c, m) && j < |c.servers| && m.data.userId != 0
    ensures Pair(c.servers[j], p, m.data.userId) <==> m.Login? && j == m.data.serverId && p == m.data.connPos
  {
    ServerIs(c, j);
    assert Holds(c.servers[j], m);
  }

  /** Over every undisturbed run: once the newest message about a user has reached all servers, all
      directories say the same of the user: nothing if there was none, and else what that message asks for;
      the user is connected there, and nowhere else, if it is a login, and nowhere if it is a disconnect. */
  lemma DirectoriesAgree(states: seq<Cluster>, events: seq<(nat, Event)>, users: set<nat>, u: nat)
    requires ConnCluster.Run(states, events) && Fits(states, events, users)
    requires Clocked(states, events, u) && Undisturbed(states, events, u)
    requires forall m | Newest(states[|events|], m) && m.data.userId == u :: Reached(states[|events|], m)
    ensures
      var c := states[|events|];
      || (forall j | 0 <= j < |c.servers| :: u !in c.servers[j].gns)
      || exists m :: Newest(c, m) && m.data.userId == u && AllHold(c, m)
           && (u != 0 ==> forall j: nat, p: nat | j < |c.servers| ::
                Pair(c.servers[j], p, u) <==> m.Login? && j == m.data.serverId && p == m.data.connPos)
  {
    hide Enabled, Happened, AllSourced, OwnNewest, InTime, Initial, Fits, Newest, Reached, AllHold, Spoken, Removes;
    var c := states[|events|];
    if Spoken(c, u) {
      var m := NewestExists(states, events, |events|, u);
      UndisturbedMeets(states, events, m);
      AgreeExactly(states, events, users, m);
      BackgroundAt(states, events, |events|, u);
      hide Inv;
      forall j: nat, p: nat | j < |c.servers| && u != 0
        ensures Pair(c.servers[j], p, u) <==> m.Login? && j == m.data.serverId && p == m.data.connPos
      {
        ConnectedThere(c, m, j, p);
      }
    } else {
      forall j: nat | j < |c.servers|
        ensures u !in c.servers[j].gns
      {
        NothingSaid(states, events, u, j);
      }
    }
  }
}
