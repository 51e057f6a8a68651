/** Merging login notices and sync replies between CONN servers (conn/conn.cpp): the last login wins,
    whatever the order and however often a notice arrives. */
module ConnMerge {
  import opened Common
  import opened ConnDirectory

  /** Notices one after the other, as DealPkg's loops apply them. */
  function AllNoticed(s: Server, ds: seq<LoginData>, now: nat): Server {
    if ds == [] then s else Noticed(AllNoticed(s, ds[..|ds| - 1], now), ds[|ds| - 1], now)
  }

  /** The notices come from other servers; for one user no two differ at the same time, nor is one as
      old as the stored entry. */
  ghost predicate Distinct(s: Server, ds: set<LoginData>) {
    && (forall d | d in ds :: d.serverId != s.id && (d.userId in s.gns ==> d.time != s.gns[d.userId].lastActiveTime))
    && (forall d, e | d in ds && e in ds && d.userId == e.userId && d.time == e.time :: d == e)
  }

  /** The directory has room for all users it knows and all that are mentioned. */
  ghost predicate Room(s: Server, ds: set<LoginData>, users: set<nat>) {
    s.gns.Keys <= users && (forall d | d in ds :: d.userId in users) && |users| <= s.capacity
  }

  ghost predicate Mentions(ds: set<LoginData>, u: nat) {
    exists d :: d in ds && d.userId == u
  }

  /** Some notice is newer than the entry that binds connection p to its user. */
  ghost predicate Superseded(s: Server, ds: set<LoginData>, p: nat) {
    exists d :: d in ds && Supersedes(s, d, p)
  }

  ghost predicate Supersedes(s: Server, d: LoginData, p: nat) {
    Bound(s, d.userId) && s.gns[d.userId].connPos == p && s.gns[d.userId].lastActiveTime < d.time
  }

  /** g is the newest of the user's entry and its notices. */
  ghost predicate Newest(s: Server, ds: set<LoginData>, u: nat, g: Gns) {
    && (forall d | d in ds && d.userId == u :: d.time <= g.lastActiveTime)
    && (u in s.gns ==> s.gns[u].lastActiveTime <= g.lastActiveTime)
    && ((u in s.gns && g == s.gns[u]) || exists d :: d in ds && d.userId == u && g == Entry(d, Active))
  }

  ghost predicate MergedUser(s: Server, ds: set<LoginData>, t: Server, u: nat) {
    && (u in t.gns <==> u in s.gns || Mentions(ds, u))
    && (u in t.gns ==> Newest(s, ds, u, t.gns[u]))
  }

  ghost predicate MergedConn(s: Server, ds: set<LoginData>, t: Server, p: nat) {
    && (p in t.conns <==> p in s.conns && !Superseded(s, ds, p))
    && (p in t.conns && p in s.conns ==> t.conns[p] == s.conns[p])
  }

  /** The outcome, as a matter of which notices there are and not of their order: each user has the
      newest entry, and exactly the superseded connections are gone. */
  ghost predicate Merged(s: Server, ds: set<LoginData>, t: Server) {
    && t.id == s.id && t.capacity == s.capacity
    && (forall u: nat :: MergedUser(s, ds, t, u))
    && (forall p: nat :: MergedConn(s, ds, t, p))
  }

  lemma NewestOnce(s: Server, ds: set<LoginData>, u: nat, g: Gns, g': Gns)
    requires Distinct(s, ds) && Newest(s, ds, u, g) && Newest(s, ds, u, g')
    ensures g == g'
  {
  }

  lemma MergedOnce(s: Server, ds: set<LoginData>, t: Server, t': Server)
    requires Distinct(s, ds) && Merged(s, ds, t) && Merged(s, ds, t')
    ensures t == t'
  {
    hide Distinct, Newest, Superseded, Mentions;
    forall u: nat
      ensures u in t.gns <==> u in t'.gns
      ensures u in t.gns ==> t.gns[u] == t'.gns[u]
    {
      assert MergedUser(s, ds, t, u) && MergedUser(s, ds, t', u);
      if u in t.gns {
        NewestOnce(s, ds, u, t.gns[u], t'.gns[u]);
      }
    }
    assert t.gns == t'.gns;
    forall p: nat
      ensures p in t.conns <==> p in t'.conns
      ensures p in t.conns ==> t.conns[p] == t'.conns[p]
    {
      assert MergedConn(s, ds, t, p) && MergedConn(s, ds, t', p);
    }
    assert t.conns == t'.conns;
  }

  lemma DistinctLess(s: Server, ds: set<LoginData>, d: LoginData)
    requires Distinct(s, ds + {d})
    ensures Distinct(s, ds)
  {
    assert forall e | e in ds :: e in ds + {d};
  }

  /** A notice for a new user finds room. */
  lemma RoomLeft(s: Server, ds: set<LoginData>, t: Server, d: LoginData, users: set<nat>)
    requires Room(s, ds + {d}, users) && Merged(s, ds, t) && d.userId !in t.gns
    ensures |t.gns| < t.capacity
  {
    hide Newest, Superseded;
    assert d in ds + {d};
    forall u | u in t.gns
      ensures u in users - {d.userId}
    {
      assert MergedUser(s, ds, t, u);
      if Mentions(ds, u) {
        var e :| e in ds && e.userId == u;
        assert e in ds + {d};
      }
    }
    assert t.gns.Keys <= users - {d.userId};
    SubsetSize(t.gns.Keys, users - {d.userId});
  }

  /** A user whose entry still says it is here had that entry from the start, and no newer notice; one
      that is no longer here has been superseded. */
  lemma StillHere(s: Server, ds: set<LoginData>, t: Server, u: nat)
    requires Distinct(s, ds) && t.id == s.id && MergedUser(s, ds, t, u) && u in t.gns
    ensures Here(t, u) ==> u in s.gns && t.gns[u] == s.gns[u] && forall d | d in ds && d.userId == u ::
            d.time < s.gns[u].lastActiveTime
    ensures Here(s, u) && !Here(t, u) ==>
              exists d :: d in ds && d.userId == u && t.gns[u] == Entry(d, Active) && s.gns[u].lastActiveTime < d.time
  {
  }

  lemma NoticeUser(s: Server, ds: set<LoginData>, t: Server, d: LoginData, now: nat, v: nat)
    requires MergedUser(s, ds, t, v) && MergedUser(s, ds, t, d.userId)
    requires d.userId !in t.gns ==> |t.gns| < t.capacity
    ensures MergedUser(s, ds + {d}, Noticed(t, d, now), v)
  {
    var t', es := Noticed(t, d, now), ds + {d};
    assert d in es && forall e :: e in es <==> e in ds || e == d;
    assert Mentions(es, v) <==> Mentions(ds, v) || v == d.userId;
    hide Mentions;
    if v != d.userId {
      assert v in t'.gns <==> v in t.gns;
      if v in t.gns {
        assert t'.gns[v] == t.gns[v];
        NewestOther(s, ds, d, v, t.gns[v]);
      }
    } else if v !in t.gns || t.gns[v].lastActiveTime <= d.time {
      assert t'.gns[v] == Entry(d, Active);
      assert v in s.gns ==> v in t.gns;
      NewestTaken(s, ds, d, if v in t.gns then t.gns[v] else Entry(d, Active), v in t.gns);
    } else {
      NewestKept(s, ds, d, t.gns[v]);
    }
  }

  lemma NewestOther(s: Server, ds: set<LoginData>, d: LoginData, v: nat, g: Gns)
    requires Newest(s, ds, v, g) && d.userId != v
    ensures Newest(s, ds + {d}, v, g)
  {
    if e :| e in ds && e.userId == v && g == Entry(e, Active) {
      assert e in ds + {d};
    }
  }

  lemma NewestKept(s: Server, ds: set<LoginData>, d: LoginData, g: Gns)
    requires Newest(s, ds, d.userId, g) && d.time <= g.lastActiveTime
    ensures Newest(s, ds + {d}, d.userId, g)
  {
    if e :| e in ds && e.userId == d.userId && g == Entry(e, Active) {
      assert e in ds + {d};
    }
  }

  lemma NewestTaken(s: Server, ds: set<LoginData>, d: LoginData, g: Gns, known: bool)
    requires known ==> Newest(s, ds, d.userId, g) && g.lastActiveTime <= d.time
    requires !known ==> d.userId !in s.gns && !Mentions(ds, d.userId)
    ensures Newest(s, ds + {d}, d.userId, Entry(d, Active))
  {
    assert d in ds + {d};
  }

  lemma SupersededAlso(s: Server, ds: set<LoginData>, d: LoginData, p: nat)
    ensures Superseded(s, ds + {d}, p) <==> Superseded(s, ds, p) || Supersedes(s, d, p)
  {
    if e :| e in ds && Supersedes(s, e, p) {
      assert e in ds + {d};
    }
    assert d in ds + {d};
  }

  lemma NoticeConn(s: Server, ds: set<LoginData>, t: Server, d: LoginData, now: nat, p: nat)
    requires Distinct(s, ds + {d}) && Distinct(s, ds) && t.id == s.id
    requires MergedUser(s, ds, t, d.userId) && forall q: nat :: MergedConn(s, ds, t, q)
    ensures MergedConn(s, ds + {d}, Noticed(t, d, now), p)
  {
    var u := d.userId;
    SupersededAlso(s, ds, d, p);
    assert d in ds + {d};
    assert MergedConn(s, ds, t, p);
    if u !in t.gns {
      hide Newest, Superseded, Distinct, Mentions;
    } else if Here(t, u) {
      StillHere(s, ds, t, u);
      hide Newest, Mentions;
      assert MergedConn(s, ds, t, t.gns[u].connPos);
      if Bound(s, u) {
        NotYet(s, ds, u, t.gns[u].connPos);
      }
      hide Superseded;
    } else {
      StillHere(s, ds, t, u);
      hide Newest, Mentions, Distinct;
      if Here(s, u) {
        var e :| e in ds && e.userId == u && t.gns[u] == Entry(e, Active) && s.gns[u].lastActiveTime < e.time;
        assert Supersedes(s, d, p) ==> Supersedes(s, e, p);
      }
    }
  }

  /** While a user's entry stands, its connection has not been superseded. */
  lemma NotYet(s: Server, ds: set<LoginData>, u: nat, p: nat)
    requires Here(s, u) && s.gns[u].connPos == p && forall d | d in ds && d.userId == u ::
             d.time < s.gns[u].lastActiveTime
    requires p in s.conns && s.conns[p].userId == u
    ensures !Superseded(s, ds, p)
  {
  }

  lemma NoticeMerges(s: Server, ds: set<LoginData>, t: Server, d: LoginData, now: nat, users: set<nat>)
    requires Distinct(s, ds + {d}) && Room(s, ds + {d}, users) && Merged(s, ds, t)
    ensures Merged(s, ds + {d}, Noticed(t, d, now))
  {
    hide Distinct, MergedUser, MergedConn, Room;
    DistinctLess(s, ds, d);
    if d.userId !in t.gns {
      RoomLeft(s, ds, t, d, users);
    }
    forall v: nat
      ensures MergedUser(s, ds + {d}, Noticed(t, d, now), v)
    {
      NoticeUser(s, ds, t, d, now, v);
    }
    forall p: nat
      ensures MergedConn(s, ds + {d}, Noticed(t, d, now), p)
    {
      NoticeConn(s, ds, t, d, now, p);
    }
  }

  lemma NothingMerged(s: Server)
    ensures Merged(s, {}, s)
  {
  }

  lemma {:induction false} AllMerged(s: Server, ds: seq<LoginData>, now: nat, users: set<nat>)
    requires Distinct(s, Elements(ds)) && Room(s, Elements(ds), users)
    ensures Merged(s, Elements(ds), AllNoticed(s, ds, now))
  {
    hide Merged;
    if ds == [] {
      assert Elements(ds) == {};
      NothingMerged(s);
    } else {
      var init, last := ds[..|ds| - 1], ds[|ds| - 1];
      assert ds == init + [last];
      assert Elements(ds) == Elements(init) + {last};
      DistinctLess(s, Elements(init), last);
      hide Distinct;
      AllMerged(s, init, now, users);
      NoticeMerges(s, Elements(init), AllNoticed(s, init, now), last, now, users);
    }
  }

  /** Last writer wins: two sequences with the same notices, in any order and with any repetitions,
      leave the same directory and the same connections. */
  lemma OrderIrrelevant(s: Server, ds: seq<LoginData>, es: seq<LoginData>, now: nat, now': nat, users: set<nat>)
    requires Elements(ds) == Elements(es)
    requires Distinct(s, Elements(ds)) && Room(s, Elements(ds), users)
    ensures AllNoticed(s, ds, now) == AllNoticed(s, es, now')
  {
    hide Merged, Distinct, Elements;
    AllMerged(s, ds, now, users);
    AllMerged(s, es, now', users);
    MergedOnce(s, Elements(ds), AllNoticed(s, ds, now), AllNoticed(s, es, now'));
  }

  // ----- sync replies

  /** A sync reply is sent in batches, each holding everything so far: after every 1001 entries, and
      at the end. */
  function Batches(data: seq<LoginData>, i: nat, j: nat): seq<seq<LoginData>>
    requires i <= |data|
    decreases |data| - i
  {
    if i == |data| then []
    else if j + 1 > 1000 || i == |data| - 1 then [data[..i + 1]] + Batches(data, i + 1, 0)
    else Batches(data, i + 1, j + 1)
  }

  /** The k-th batch holds the first 1001 * (k + 1) entries, and the last one all; there are no others. */
  lemma BatchSizes(data: seq<LoginData>, k: nat)
    requires k < |Batches(data, 0, 0)|
    ensures
      var n := 1001 * (k + 1);
      if k + 1 < |Batches(data, 0, 0)| then n < |data| && Batches(data, 0, 0)[k] == data[..n]
      else n - 1001 < |data| <= n && Batches(data, 0, 0)[k] == data
  {
    BatchesFrom(data, 0, 0, k);
  }

  lemma {:induction false} BatchesFrom(data: seq<LoginData>, i: nat, j: nat, k: nat)
    requires i <= |data| && j <= 1000 && k < |Batches(data, i, j)|
    ensures
      var n := i - j + 1001 * (k + 1);
      if k + 1 < |Batches(data, i, j)| then n < |data| && Batches(data, i, j)[k] == data[..n]
      else n - 1001 < |data| <= n && Batches(data, i, j)[k] == data
    decreases |data| - i
  {
    if i == |data| {
    } else if j + 1 > 1000 || i == |data| - 1 {
      if i == |data| - 1 {
        assert data[..i + 1] == data;
        assert Batches(data, i + 1, 0) == [];
      } else {
        var more := Batches(data, i + 1, 0);
        MoreBatches(data, i + 1, 0);
        if k > 0 {
          BatchesFrom(data, i + 1, 0, k - 1);
        }
      }
    } else {
      BatchesFrom(data, i + 1, j + 1, k);
    }
  }

  lemma {:induction false} MoreBatches(data: seq<LoginData>, i: nat, j: nat)
    requires i < |data|
    ensures Batches(data, i, j) != []
    decreases |data| - i
  {
    if !(j + 1 > 1000 || i == |data| - 1) {
      MoreBatches(data, i + 1, j + 1);
    }
  }

  lemma {:induction false} BatchesHold(data: seq<LoginData>, i: nat, j: nat)
    requires i <= |data|
    ensures forall d | d in Joined(Batches(data, i, j)) :: d in data
    ensures i < |data| ==> forall d | d in data :: d in Joined(Batches(data, i, j))
    decreases |data| - i
  {
    if i < |data| {
      var j' := if j + 1 > 1000 || i == |data| - 1 then 0 else j + 1;
      BatchesHold(data, i + 1, j');
      if i == |data| - 1 {
        assert data[..i + 1] == data;
      }
    }
  }

  /** The cumulative batches of a sync reply do what one list without repeats would do. */
  lemma SyncReply(s: Server, data: seq<LoginData>, now: nat, users: set<nat>)
    requires Distinct(s, Elements(data)) && Room(s, Elements(data), users)
    ensures AllNoticed(s, Joined(Batches(data, 0, 0)), now) == AllNoticed(s, data, now)
  {
    hide Distinct, Room, Batches, Joined;
    BatchesHold(data, 0, 0);
    var all := Joined(Batches(data, 0, 0));
    if data == [] {
      NoBatches();
    }
    assert Elements(all) == Elements(data);
    OrderIrrelevant(s, all, data, now, now, users);
  }

  lemma NoBatches()
    ensures Joined(Batches([], 0, 0)) == []
  {
  }
}
