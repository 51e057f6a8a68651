/** How a bus server (bus/bus.cpp) expands a packet's destination and hands it on, and what this comes
    to over several buses that share one configuration. */
module BusRouting {
  import opened Common

  // ----- configuration (Init)

  /** One server of one cluster's server list; matches tells whether its own section repeats these ids, and
      queue whether it has a queue key and size. */
  datatype Entry = Entry(server: nat, cluster: nat, group: nat, matches: bool, queue: bool)

  /** One cluster of the cluster list, with the id and the address its own section gives. */
  datatype Cluster = Cluster(listed: nat, id: nat, address: bool, servers: seq<Member>)

  datatype Member = Member(server: nat, group: nat, matches: bool, queue: bool)

  function EntryOf(c: Cluster, m: Member): Entry {
    Entry(m.server, c.listed, m.group, m.matches, m.queue)
  }

  function Entries(c: Cluster): (es: seq<Entry>)
    ensures |es| == |c.servers|
  {
    seq(|c.servers|, i requires 0 <= i < |c.servers| =>
      EntryOf(c, c.servers[i]))
  }

  /** All server lists, one after the other. */
  function Flat(clusters: seq<Cluster>): seq<Entry> {
    if clusters == [] then [] else Flat(clusters[..|clusters| - 1]) + Entries(clusters[|clusters| - 1])
  }

  datatype Info = Info(cluster: nat, group: nat)

  /** m_mapSvrInfo and m_mapGrpInfo. */
  datatype Tables = Tables(servers: map<nat, Info>, groups: map<nat, seq<nat>>)

  function Added(t: Tables, e: Entry): Tables {
    Tables(t.servers[e.server := Info(e.cluster, e.group)],
           t.groups[e.group := (if e.group in t.groups then t.groups[e.group] else []) + [e.server]])
  }

  function Build(config: seq<Entry>): Tables {
    if config == [] then Tables(map[], map[]) else Added(Build(config[..|config| - 1]), config[|config| - 1])
  }

  /** What Init of cluster self asks of one server. */
  predicate Sound(self: nat, e: Entry) {
    e.matches && e.cluster != 0 && e.group != 0 && (e.cluster == self ==> e.server != 0 && e.queue)
  }

  /** And of all servers: no server is there twice. */
  predicate Accepted(self: nat, config: seq<Entry>) {
    && (forall i | 0 <= i < |config| :: Sound(self, config[i]))
    && forall i, j | 0 <= i < j < |config| :: config[i].server != config[j].server
  }

  /** Whether an entry passes behind the k before it. */
  predicate Fits(self: nat, config: seq<Entry>, k: nat)
    requires k < |config|
  {
    Sound(self, config[k]) && forall i | 0 <= i < k :: config[i].server != config[k].server
  }

  lemma AcceptedNext(self: nat, config: seq<Entry>, k: nat)
    requires k < |config| && Accepted(self, config[..k])
    ensures Fits(self, config, k) ==> Accepted(self, config[..k + 1])
    ensures !Fits(self, config, k) ==> !Accepted(self, config)
  {
    var short, long := config[..k], config[..k + 1];
    assert forall i | 0 <= i < k :: long[i] == short[i];
  }

  /** What Init insists on: at least one cluster, each with its id, its address and no other of the same
      id, and servers as above. */
  predicate Valid(self: nat, clusters: seq<Cluster>) {
    && clusters != []
    && (forall i | 0 <= i < |clusters| :: clusters[i].address && clusters[i].id == clusters[i].listed != 0)
    && (forall i, j | 0 <= i < j < |clusters| :: clusters[i].listed != clusters[j].listed)
    && Accepted(self, Flat(clusters))
  }

  /** The same, said of the clusters and their servers without the one list of all servers. */
  ghost predicate ValidServers(self: nat, clusters: seq<Cluster>) {
    && (forall a, i | 0 <= a < |clusters| && 0 <= i < |clusters[a].servers| :: ServerValid(self, clusters, a, i))
    && forall a, i, b, j | 0 <= a < |clusters| && 0 <= i < |clusters[a].servers| && 0 <= b < |clusters| &&
        0 <= j < |clusters[b].servers| && clusters[a].servers[i].server == clusters[b].servers[j].server ::
        a == b && i == j
  }

  predicate ServerValid(self: nat, clusters: seq<Cluster>, a: nat, i: nat)
    requires a < |clusters| && i < |clusters[a].servers|
  {
    var c, m := clusters[a], clusters[a].servers[i];
    m.matches && c.listed != 0 && m.group != 0 && (c.listed == self ==> m.server != 0 && m.queue)
  }

  lemma SoundIs(self: nat, clusters: seq<Cluster>, a: nat, i: nat)
    requires a < |clusters| && i < |clusters[a].servers|
    ensures Sound(self, Entries(clusters[a])[i]) <==> ServerValid(self, clusters, a, i)
    ensures Entries(clusters[a])[i].server == clusters[a].servers[i].server
  {
  }

  /** Which servers the flat list has. */
  lemma {:induction false} FlatServers(clusters: seq<Cluster>, s: nat)
    ensures (exists k :: 0 <= k < |Flat(clusters)| && Flat(clusters)[k].server == s) <==>
            exists a, i :: 0 <= a < |clusters| && 0 <= i < |clusters[a].servers| && clusters[a].servers[i].server == s
  {
    if clusters != [] {
      var last := |clusters| - 1;
      var init, es := clusters[..last], Entries(clusters[last]);
      var flat, short := Flat(clusters), Flat(init);
      FlatServers(init, s);
      if k :| 0 <= k < |short| && short[k].server == s {
        assert flat[k].server == s;
        var a, i :| 0 <= a < |init| && 0 <= i < |init[a].servers| && init[a].servers[i].server == s;
        assert clusters[a].servers[i].server == s;
      }
      if i :| 0 <= i < |es| && es[i].server == s {
        assert flat[|short| + i].server == s && clusters[last].servers[i].server == s;
      }
      if k :| 0 <= k < |flat| && flat[k].server == s {
        assert k >= |short| ==> es[k - |short|].server == s;
        assert k < |short| ==> short[k].server == s;
      }
      if a, i :| 0 <= a < |clusters| && 0 <= i < |clusters[a].servers| && clusters[a].servers[i].server == s {
        assert a < last ==> init[a].servers[i].server == s;
        assert a == last ==> es[i].server == s;
      }
    }
  }

  /** No server of one list is on the other. */
  ghost predicate NoneShared(a: seq<Entry>, b: seq<Entry>) {
    forall i, j | 0 <= i < |a| && 0 <= j < |b| :: a[i].server != b[j].server
  }

  ghost predicate NoneTwice(clusters: seq<Cluster>, c: Cluster) {
    forall a, i, j | 0 <= a < |clusters| && 0 <= i < |clusters[a].servers| && 0 <= j < |c.servers| ::
      clusters[a].servers[i].server != c.servers[j].server
  }

  lemma AcceptedBoth(self: nat, a: seq<Entry>, b: seq<Entry>)
    ensures Accepted(self, a + b) <==> Accepted(self, a) && Accepted(self, b) && NoneShared(a, b)
  {
    hide Sound;
    var s := a + b;
    assert forall i | 0 <= i < |a| :: s[i] == a[i];
    assert forall j | 0 <= j < |b| :: s[|a| + j] == b[j];
    if Accepted(self, a) && Accepted(self, b) && NoneShared(a, b) {
      forall i, j | 0 <= i < j < |s|
        ensures s[i].server != s[j].server
      {
        assert i >= |a| ==> s[i] == b[i - |a|];
        assert j >= |a| ==> s[j] == b[j - |a|];
      }
      forall i | 0 <= i < |s|
        ensures Sound(self, s[i])
      {
        assert i >= |a| ==> s[i] == b[i - |a|];
      }
    }
  }

  lemma ValidBoth(self: nat, clusters: seq<Cluster>, c: Cluster)
    ensures ValidServers(self, clusters + [c]) <==>
            ValidServers(self, clusters) && ValidServers(self, [c]) && NoneTwice(clusters, c)
  {
    var s := clusters + [c];
    assert forall a | 0 <= a < |clusters| :: s[a] == clusters[a];
    assert s[|clusters|] == c == [c][0];
    forall a, i | 0 <= a < |clusters| && 0 <= i < |clusters[a].servers|
      ensures ServerValid(self, clusters, a, i) <==> ServerValid(self, s, a, i)
    {
    }
    forall i | 0 <= i < |c.servers|
      ensures ServerValid(self, [c], 0, i) <==> ServerValid(self, s, |clusters|, i)
    {
    }
    hide ServerValid;
  }

  lemma OneCluster(self: nat, c: Cluster)
    ensures Accepted(self, Entries(c)) <==> ValidServers(self, [c])
  {
    forall i | 0 <= i < |c.servers|
      ensures Sound(self, Entries(c)[i]) <==> ServerValid(self, [c], 0, i)
      ensures Entries(c)[i].server == [c][0].servers[i].server
    {
      SoundIs(self, [c], 0, i);
    }
    hide Sound, ServerValid, Entries;
  }

  lemma SharedIs(clusters: seq<Cluster>, c: Cluster)
    ensures NoneShared(Flat(clusters), Entries(c)) <==> NoneTwice(clusters, c)
  {
    var flat, es := Flat(clusters), Entries(c);
    forall j | 0 <= j < |c.servers|
      ensures es[j].server == c.servers[j].server
      ensures (exists k :: 0 <= k < |flat| && flat[k].server == es[j].server) <==>
              exists a, i :: 0 <= a < |clusters| && 0 <= i < |clusters[a].servers| &&
                  clusters[a].servers[i].server == es[j].server
    {
      FlatServers(clusters, es[j].server);
    }
    hide Flat, Entries;
  }

  lemma {:induction false} AcceptedIs(self: nat, clusters: seq<Cluster>)
    ensures Accepted(self, Flat(clusters)) <==> ValidServers(self, clusters)
  {
    hide Accepted, ValidServers, NoneShared, NoneTwice, Entries;
    if clusters == [] {
      NoneValid(self);
    } else {
      var init, c := clusters[..|clusters| - 1], clusters[|clusters| - 1];
      AcceptedIs(self, init);
      AcceptedBoth(self, Flat(init), Entries(c));
      assert clusters == init + [c];
      ValidBoth(self, init, c);
      OneCluster(self, c);
      SharedIs(init, c);
    }
  }

  lemma NoneValid(self: nat)
    ensures Accepted(self, Flat([])) && ValidServers(self, [])
  {
  }

  /** What Init accepts, cluster by cluster and server by server: at least one cluster, each with an address
      and its own id, which is not 0 and no other's; every server with a section of its own that agrees, a
      group that is not 0, and, in this process's own cluster, an id that is not 0 and a queue; and no server
      twice. */
  lemma ValidMeans(self: nat, clusters: seq<Cluster>)
    ensures Valid(self, clusters) <==>
            && clusters != []
            && (forall a | 0 <= a < |clusters| :: clusters[a].address && clusters[a].id == clusters[a].listed != 0)
            && (forall a, b | 0 <= a < b < |clusters| :: clusters[a].listed != clusters[b].listed)
            && ValidServers(self, clusters)
  {
    AcceptedIs(self, clusters);
    hide Accepted, Flat, ValidServers;
  }

  lemma AcceptedPrefix(self: nat, a: seq<Entry>, b: seq<Entry>)
    requires Accepted(self, a + b)
    ensures Accepted(self, a)
  {
    assert forall i | 0 <= i < |a| :: (a + b)[i] == a[i];
  }

  lemma {:induction false} FlatSplit(clusters: seq<Cluster>, k: nat)
    requires k <= |clusters|
    ensures exists more :: Flat(clusters) == Flat(clusters[..k]) + more
  {
    if k == |clusters| {
      assert clusters[..k] == clusters;
      assert Flat(clusters) == Flat(clusters[..k]) + [];
    } else {
      var init := clusters[..|clusters| - 1];
      FlatSplit(init, k);
      assert init[..k] == clusters[..k];
      var more :| Flat(init) == Flat(clusters[..k]) + more;
      assert Flat(clusters) == Flat(clusters[..k]) + (more + Entries(clusters[|clusters| - 1]));
    }
  }

  /** A cluster whose servers do not fit spoils the configuration. */
  lemma Spoiled(self: nat, clusters: seq<Cluster>, k: nat)
    requires k < |clusters| && !Accepted(self, Flat(clusters[..k + 1]))
    ensures !Accepted(self, Flat(clusters))
  {
    FlatSplit(clusters, k + 1);
    var more :| Flat(clusters) == Flat(clusters[..k + 1]) + more;
    if Accepted(self, Flat(clusters)) {
      AcceptedPrefix(self, Flat(clusters[..k + 1]), more);
    }
  }

  lemma NoServers(self: nat)
    ensures Accepted(self, []) && Build([]) == Tables(map[], map[])
  {
  }

  /** The loop of Init over the cluster list. */
  method Init(self: nat, clusters: seq<Cluster>) returns (ok: bool, t: Tables)
    ensures ok <==> Valid(self, clusters)
    ensures ok ==> t == Build(Flat(clusters))
  {
    hide Accepted, Build;
    t := Tables(map[], map[]);
    NoServers(self);
    if clusters == [] {
      return false, t;
    }
    var ids: set<nat> := {};
    for k := 0 to |clusters|
      invariant forall id :: id in ids <==> exists i :: 0 <= i < k && clusters[i].listed == id
      invariant forall i | 0 <= i < k :: clusters[i].address && clusters[i].id == clusters[i].listed != 0
      invariant forall i, j | 0 <= i < j < k :: clusters[i].listed != clusters[j].listed
      invariant Accepted(self, Flat(clusters[..k])) && t == Build(Flat(clusters[..k]))
    {
      var c := clusters[k];
      if !c.address || c.id != c.listed || c.listed == 0 || c.listed in ids {
        return false, t;
      }
      ids := ids + {c.listed};
      var fits;
      fits, t := AddServers(self, c, Flat(clusters[..k]), t);
      assert clusters[..k + 1][..k] == clusters[..k];
      if !fits {
        Spoiled(self, clusters, k);
        return false, t;
      }
    }
    assert clusters[..|clusters|] == clusters;
    return true, t;
  }

  /** The loop of Init over one cluster's server list. */
  method AddServers(self: nat, c: Cluster, ghost before: seq<Entry>, tables: Tables) returns (ok: bool, t: Tables)
    requires c.listed != 0 && Accepted(self, before) && tables == Build(before)
    ensures ok <==> Accepted(self, before + Entries(c))
    ensures ok ==> t == Build(before + Entries(c))
  {
    hide Accepted, Build, Added, Fits;
    t := tables;
    ghost var config := before + Entries(c);
    assert config[..|before|] == before;
    for j := 0 to |c.servers|
      invariant Accepted(self, config[..|before| + j]) && t == Build(config[..|before| + j])
    {
      var m := c.servers[j];
      ghost var k := |before| + j;
      assert config[k] == EntryOf(c, m);
      AcceptedNext(self, config, k);
      FitsIs(self, config, k);
      BuildNext(config, k);
      if !m.matches || m.group == 0 || (c.listed == self && m.server == 0) {
        return false, t;
      }
      var groups := t.groups;
      if m.group !in groups {
        groups := groups[m.group := [m.server]];
      } else {
        groups := groups[m.group := groups[m.group] + [m.server]];
      }
      if (c.listed == self && !m.queue) || m.server in t.servers {
        return false, t;
      }
      AddedIs(t, EntryOf(c, m));
      t := Tables(t.servers[m.server := Info(c.listed, m.group)], groups);
    }
    assert config[..|config|] == config;
    return true, t;
  }

  lemma FitsIs(self: nat, config: seq<Entry>, k: nat)
    requires k < |config|
    ensures Fits(self, config, k) <==> Sound(self, config[k]) && config[k].server !in Build(config[..k]).servers
  {
    hide Build, Sound;
    KnownServers(config[..k]);
    assert forall i | 0 <= i < k :: config[..k][i] == config[i];
  }

  lemma BuildNext(config: seq<Entry>, k: nat)
    requires k < |config|
    ensures Build(config[..k + 1]) == Added(Build(config[..k]), config[k])
  {
    assert config[..k + 1][..k] == config[..k];
  }

  lemma AddedIs(t: Tables, e: Entry)
    ensures
      var groups := if e.group !in t.groups then t.groups[e.group := [e.server]]
                    else t.groups[e.group := t.groups[e.group] + [e.server]];
      Added(t, e) == Tables(t.servers[e.server := Info(e.cluster, e.group)], groups)
  {
    assert [] + [e.server] == [e.server];
  }

  lemma {:induction false} KnownServers(config: seq<Entry>)
    ensures forall s :: s in Build(config).servers <==> exists i :: 0 <= i < |config| && config[i].server == s
  {
    if config != [] {
      var last := |config| - 1;
      KnownServers(config[..last]);
      assert forall i | 0 <= i < last :: config[..last][i] == config[i];
      forall s | s in Build(config).servers && s != config[last].server
        ensures exists i :: 0 <= i < |config| && config[i].server == s
      {
        var i :| 0 <= i < |config[..last]| && config[..last][i].server == s;
        assert config[i].server == s;
      }
    }
  }

  /** The server table has exactly the servers of the configuration, each with its cluster and group. */
  lemma {:induction false} BuildServers(self: nat, config: seq<Entry>, i: nat)
    requires Accepted(self, config) && i < |config|
    ensures forall s :: s in Build(config).servers <==> exists j :: 0 <= j < |config| && config[j].server == s
    ensures Build(config).servers[config[i].server] == Info(config[i].cluster, config[i].group)
    decreases |config|
  {
    KnownServers(config);
    var last := |config| - 1;
    if i < last {
      assert config[..last][i] == config[i];
      BuildServers(self, config[..last], i);
    }
  }

  /** The tables fit together: a group's list holds exactly its servers, each once. */
  ghost predicate Consistent(t: Tables) {
    && (forall g | g in t.groups :: Distinct(t.groups[g]))
    && (forall g, s | g in t.groups && s in t.groups[g] :: s in t.servers && t.servers[s].group == g)
    && (forall s | s in t.servers :: t.servers[s].group in t.groups && s in t.groups[t.servers[s].group])
  }

  lemma {:induction false} BuildConsistent(self: nat, config: seq<Entry>)
    requires Accepted(self, config)
    ensures Consistent(Build(config))
  {
    if config != [] {
      var last := |config| - 1;
      var t, e := Build(config[..last]), config[last];
      KnownServers(config[..last]);
      BuildConsistent(self, config[..last]);
      assert e.server !in t.servers;
      AddedConsistent(t, e);
    }
  }

  lemma AddedConsistent(t: Tables, e: Entry)
    requires Consistent(t) && e.server !in t.servers
    ensures Consistent(Added(t, e))
  {
    var t' := Added(t, e);
    var l := if e.group in t.groups then t.groups[e.group] else [];
    assert t'.groups[e.group] == l + [e.server];
    assert e.server !in l;
    forall s | s in t'.servers
      ensures t'.servers[s].group in t'.groups && s in t'.groups[t'.servers[s].group]
    {
      if s == e.server {
        assert (l + [e.server])[|l|] == s;
      }
    }
  }

  // ----- one bus

  datatype SendType = ToSrv | ToGrpRnd | ToGrpRndNome | ToGrpAllNome | ToGrpAll

  /** A transfer packet as its sender wrote it: dst is a server or a group. */
  datatype Packet = Packet(id: nat, src: nat, dst: nat, sendType: SendType)

  /** One copy on its way to one server. */
  datatype Copy = Copy(id: nat, src: nat, dst: nat)

  function Without(l: seq<nat>, s: nat): (r: seq<nat>)
    ensures |r| <= |l|
  {
    if l == [] then []
    else Without(l[..|l| - 1], s) + if l[|l| - 1] == s then [] else [l[|l| - 1]]
  }

  lemma {:induction false} WithoutIs(l: seq<nat>, s: nat)
    ensures forall x :: x in Without(l, s) <==> x in l && x != s
    ensures Distinct(l) ==> Distinct(Without(l, s))
  {
    if l != [] {
      var init, last := l[..|l| - 1], l[|l| - 1];
      WithoutIs(init, s);
      assert l == init + [last];
      assert Distinct(l) ==> last !in init;
    }
  }

  /** The servers a packet goes to, given the random number the random modes draw; None when the group
      is unknown or nobody is left to draw from. */
  function Selected(t: Tables, p: Packet, rnd: nat): Option<seq<nat>> {
    match p.sendType
    case ToSrv => Some([p.dst])
    case ToGrpAll => if p.dst in t.groups then Some(t.groups[p.dst]) else None
    case ToGrpAllNome => if p.dst in t.groups then Some(Without(t.groups[p.dst], p.src)) else None
    case ToGrpRnd => if p.dst in t.groups then Pick(t.groups[p.dst], rnd) else None
    case ToGrpRndNome => if p.dst in t.groups then Pick(Without(t.groups[p.dst], p.src), rnd) else None
  }

  function Pick(l: seq<nat>, rnd: nat): Option<seq<nat>> {
    if l == [] then None else Some([l[rnd % |l|]])
  }

  /** What a packet's destination means: a server, one member of a group, or all of them, with or
      without the sender. */
  lemma SelectedIs(t: Tables, p: Packet, rnd: nat)
    requires Consistent(t) && Selected(t, p, rnd).Some?
    ensures
      var l := Selected(t, p, rnd).value;
      && Distinct(l)
      && match p.sendType
         case ToSrv => l == [p.dst]
         case ToGrpAll => forall s :: s in l <==> s in t.servers && t.servers[s].group == p.dst
         case ToGrpAllNome => forall s :: s in l <==> s in t.servers && t.servers[s].group == p.dst && s != p.src
         case ToGrpRnd => |l| == 1 && l[0] in t.servers && t.servers[l[0]].group == p.dst
         case ToGrpRndNome => |l| == 1 && l[0] in t.servers && t.servers[l[0]].group == p.dst && l[0] != p.src
  {
    if p.dst in t.groups {
      WithoutIs(t.groups[p.dst], p.src);
    }
    if p.sendType == ToGrpRnd {
      assert Selected(t, p, rnd).value[0] in t.groups[p.dst];
    }
    if p.sendType == ToGrpRndNome {
      assert Selected(t, p, rnd).value[0] in Without(t.groups[p.dst], p.src);
    }
  }

  /** The random modes can draw every member, the sender excepted where the mode says so: by the remainder of
      the random number, of which each member has one. */
  lemma RandomReaches(t: Tables, p: Packet, s: nat) returns (n: nat, i: nat)
    requires Consistent(t) && (p.sendType == ToGrpRnd || p.sendType == ToGrpRndNome)
    requires s in t.servers && t.servers[s].group == p.dst && (p.sendType == ToGrpRndNome ==> s != p.src)
    ensures i < n && forall rnd: nat :: Selected(t, p, rnd) == Some([s]) <==> rnd % n == i
  {
    var l := if p.sendType == ToGrpRnd then t.groups[p.dst] else Without(t.groups[p.dst], p.src);
    WithoutIs(t.groups[p.dst], p.src);
    n := |l|;
    i :| 0 <= i < n && l[i] == s;
    forall rnd: nat
      ensures Selected(t, p, rnd) == Some([s]) <==> rnd % n == i
    {
      assert Selected(t, p, rnd) == Some([l[rnd % n]]);
      assert [l[rnd % n]][0] == l[rnd % n];
    }
  }

  /** How a destination takes a copy: a local queue has room or not; the link to another cluster is
      up, down (the copy is dropped without an error) or fails. */
  datatype Way = Room | Full | LinkUp | LinkDown | LinkBroken

  /** The copies a forwarded packet turns into, one after the other: queued here, put on a link, or
      lost.  A full queue, a failing link or an unknown server ends the loop. */
  datatype Handed = Handed(queued: seq<Copy>, linked: seq<Copy>, lost: seq<Copy>, rc: int)

  function HandOn(t: Tables, cluster: nat, p: Packet, dsts: seq<nat>, way: nat -> Way): (h: Handed) {
    if dsts == [] then Handed([], [], [], 0)
    else HandOne(t, cluster, Copy(p.id, p.src, dsts[|dsts| - 1]), HandOn(t, cluster, p, dsts[..|dsts| - 1], way), way)
  }

  /** One destination more. */
  function HandOne(t: Tables, cluster: nat, c: Copy, h: Handed, way: nat -> Way): Handed {
    if h.rc != 0 then h.(lost := h.lost + [c])
    else if c.dst !in t.servers then h.(lost := h.lost + [c], rc := -1)
    else if t.servers[c.dst].cluster == cluster then
      if way(c.dst) == Full then h.(lost := h.lost + [c], rc := -1) else h.(queued := h.queued + [c])
    else if way(c.dst) == LinkBroken then h.(lost := h.lost + [c], rc := -1)
    else if way(c.dst) == LinkDown then h.(lost := h.lost + [c])
    else h.(linked := h.linked + [c])
  }

  lemma HandOnMore(t: Tables, cluster: nat, p: Packet, dsts: seq<nat>, i: nat, way: nat -> Way)
    requires i < |dsts|
    ensures HandOn(t, cluster, p, dsts[..i + 1], way) ==
            HandOne(t, cluster, Copy(p.id, p.src, dsts[i]), HandOn(t, cluster, p, dsts[..i], way), way)
  {
    assert dsts[..i + 1][..i] == dsts[..i];
  }

  class Bus {
    const cluster: nat
    const tables: Tables
    /** The local servers' queues, and what was put on the links to other clusters. */
    var queued: seq<Copy>
    var linked: seq<Copy>

    constructor (id: nat, t: Tables)
      ensures cluster == id && tables == t && queued == [] && linked == []
    {
      cluster, tables, queued, linked := id, t, [], [];
    }

    /** ForwardMsg on a whole transfer packet; rnd is the random number it would draw. */
    method ForwardMsg(p: Packet, rnd: nat, way: nat -> Way) returns (rc: int)
      modifies this
      ensures Selected(tables, p, rnd) == None ==> rc == -1 && queued == old(queued) && linked == old(linked)
      ensures Selected(tables, p, rnd).Some? ==>
                var h := HandOn(tables, cluster, p, Selected(tables, p, rnd).value, way);
                rc == h.rc && queued == old(queued) + h.queued && linked == old(linked) + h.linked
    {
      var dsts: seq<nat> := [];
      if p.sendType == ToGrpRnd || p.sendType == ToGrpRndNome {
        if p.dst !in tables.groups {
          return -1;
        }
        var left := Members(tables.groups[p.dst], p.src, p.sendType == ToGrpRndNome);
        if |left| == 0 {
          return -1;
        }
        dsts := [left[rnd % |left|]];
      } else if p.sendType == ToGrpAllNome || p.sendType == ToGrpAll {
        if p.dst !in tables.groups {
          return -1;
        }
        dsts := Members(tables.groups[p.dst], p.src, p.sendType == ToGrpAllNome);
      } else {
        dsts := [p.dst];
      }
      rc := SendAll(p, dsts, way);
    }

    /** The delivery loop of ForwardMsg. */
    method SendAll(p: Packet, dsts: seq<nat>, way: nat -> Way) returns (rc: int)
      modifies this
      ensures
        var h := HandOn(tables, cluster, p, dsts, way);
        rc == h.rc && queued == old(queued) + h.queued && linked == old(linked) + h.linked
    {
      ghost var h := Handed([], [], [], 0);
      for i := 0 to |dsts|
        invariant h == HandOn(tables, cluster, p, dsts[..i], way) && h.rc == 0
        invariant queued == old(queued) + h.queued && linked == old(linked) + h.linked
      {
        var d := dsts[i];
        HandOnMore(tables, cluster, p, dsts, i, way);
        h := HandOn(tables, cluster, p, dsts[..i + 1], way);
        if d !in tables.servers {
          Stopped(tables, cluster, p, dsts, i + 1, way);
          return -1;
        }
        if tables.servers[d].cluster == cluster {
          if way(d) == Full {
            Stopped(tables, cluster, p, dsts, i + 1, way);
            return -1;
          }
          queued := queued + [Copy(p.id, p.src, d)];
        } else {
          if way(d) == LinkBroken {
            Stopped(tables, cluster, p, dsts, i + 1, way);
            return -1;
          }
          if way(d) != LinkDown {
            linked := linked + [Copy(p.id, p.src, d)];
          }
        }
      }
      assert dsts[..|dsts|] == dsts;
      return 0;
    }

    /** The loops that collect a group's members, with or without the sender. */
    static method Members(l: seq<nat>, src: nat, nome: bool) returns (r: seq<nat>)
      ensures r == if nome then Without(l, src) else l
    {
      r := [];
      for k := 0 to |l|
        invariant r == if nome then Without(l[..k], src) else l[..k]
      {
        assert l[..k + 1][..k] == l[..k] && l[..k + 1] == l[..k] + [l[k]];
        if l[k] == src && nome {
        } else {
          r := r + [l[k]];
        }
      }
      assert l[..|l|] == l;
    }

    /** ProcessPkg on a copy that came over a link: it is queued here or dropped, never passed on. */
    method ProcessPkg(c: Copy, way: nat -> Way) returns (ghost delivered: bool)
      modifies this`queued
      ensures delivered == (c.dst in tables.servers && tables.servers[c.dst].cluster == cluster && way(c.dst) != Full)
      ensures queued == old(queued) + if delivered then [c] else []
    {
      delivered := false;
      if c.dst !in tables.servers {
        return;
      }
      if tables.servers[c.dst].cluster == cluster {
        if way(c.dst) == Full {
          return;
        }
        delivered := true;
        queued := queued + [c];
      }
    }
  }

  /** Once the loop has ended, the remaining destinations only add lost copies. */
  lemma {:induction false} Stopped(t: Tables, cluster: nat, p: Packet, dsts: seq<nat>, i: nat, way: nat -> Way)
    requires i <= |dsts| && HandOn(t, cluster, p, dsts[..i], way).rc != 0
    ensures
      var h, h' := HandOn(t, cluster, p, dsts[..i], way), HandOn(t, cluster, p, dsts, way);
      h'.queued == h.queued && h'.linked == h.linked && h'.rc == h.rc
    decreases |dsts|
  {
    if i < |dsts| {
      var init := dsts[..|dsts| - 1];
      assert init[..i] == dsts[..i];
      Stopped(t, cluster, p, init, i, way);
    } else {
      assert dsts[..i] == dsts;
    }
  }

  /** What ends the delivery loop: an unknown server, a full queue, or a link that fails. */
  predicate Stops(t: Tables, cluster: nat, d: nat, way: nat -> Way) {
    || d !in t.servers
    || (t.servers[d].cluster == cluster && way(d) == Full)
    || (t.servers[d].cluster != cluster && way(d) == LinkBroken)
  }

  /** The loop gets past destination i. */
  ghost predicate Passes(t: Tables, cluster: nat, dsts: seq<nat>, i: nat, way: nat -> Way) {
    i < |dsts| && forall j | 0 <= j <= i :: !Stops(t, cluster, dsts[j], way)
  }

  /** Where the copy for d is: queued if the loop gets to it and the server is of this cluster, on the link if
      it is of another one and the link is up, and otherwise lost. */
  ghost predicate Placed(t: Tables, cluster: nat, p: Packet, h: Handed, d: nat, reached: bool, way: nat -> Way) {
    var c := Copy(p.id, p.src, d);
    && (c in h.queued <==> reached && d in t.servers && t.servers[d].cluster == cluster)
    && (c in h.linked <==> reached && d in t.servers && t.servers[d].cluster != cluster && way(d) != LinkDown)
    && (c in h.lost <==> c !in h.queued && c !in h.linked)
  }

  lemma OnePlaced(t: Tables, cluster: nat, p: Packet, h: Handed, d: nat, way: nat -> Way)
    requires
      var c := Copy(p.id, p.src, d);
      c !in h.queued && c !in h.linked && c !in h.lost
    ensures
      var h', reached := HandOne(t, cluster, Copy(p.id, p.src, d), h, way), h.rc == 0 && !Stops(t, cluster, d, way);
      && (reached <==> h'.rc == 0) && (h.rc == 0 && !reached ==> h'.rc == -1) && (h.rc != 0 ==> h'.rc == h.rc)
      && Placed(t, cluster, p, h', d, reached, way)
  {
  }

  lemma OthersPlaced(t: Tables, cluster: nat, p: Packet, h: Handed, d: nat, e: nat, reached: bool, way: nat -> Way)
    requires d != e
    ensures Placed(t, cluster, p, HandOne(t, cluster, Copy(p.id, p.src, d), h, way), e, reached, way) <==>
            Placed(t, cluster, p, h, e, reached, way)
  {
    hide Stops;
  }

  /** What becomes of every copy: the loop goes on up to the first destination that stops it; from there on
      nothing is sent, and the result is -1. */
  lemma {:induction false} HandOnExactly(t: Tables, cluster: nat, p: Packet, dsts: seq<nat>, way: nat -> Way)
    requires Distinct(dsts)
    ensures
      var h := HandOn(t, cluster, p, dsts, way);
      && (h.rc == if dsts == [] || Passes(t, cluster, dsts, |dsts| - 1, way) then 0 else -1)
      && forall i | 0 <= i < |dsts| :: Placed(t, cluster, p, h, dsts[i], Passes(t, cluster, dsts, i, way), way)
    decreases |dsts|
  {
    hide HandOne, Placed, Stops, HandOn, Passes;
    if dsts == [] {
      NothingHanded(t, cluster, p, way);
    } else {
      var last := |dsts| - 1;
      var init, d := dsts[..last], dsts[last];
      var h := HandOn(t, cluster, p, init, way);
      assert forall i, j | 0 <= i < j < last :: init[i] == dsts[i] && init[j] == dsts[j];
      HandOnExactly(t, cluster, p, init, way);
      CopiesOf(t, cluster, p, init, way);
      assert d !in init;
      OnePlaced(t, cluster, p, h, d, way);
      LastPasses(t, cluster, dsts, way);
      assert dsts[..|dsts|] == dsts;
      HandOnMore(t, cluster, p, dsts, last, way);
      forall i | 0 <= i < last
        ensures Passes(t, cluster, init, i, way) <==> Passes(t, cluster, dsts, i, way)
        ensures Placed(t, cluster, p, HandOn(t, cluster, p, dsts, way), dsts[i], Passes(t, cluster, dsts, i, way), way)
      {
        SamePasses(t, cluster, dsts, i, way);
        OthersPlaced(t, cluster, p, h, d, dsts[i], Passes(t, cluster, dsts, i, way), way);
      }
    }
  }

  lemma SamePasses(t: Tables, cluster: nat, dsts: seq<nat>, i: nat, way: nat -> Way)
    requires i < |dsts| - 1
    ensures Passes(t, cluster, dsts[..|dsts| - 1], i, way) <==> Passes(t, cluster, dsts, i, way)
  {
    hide Stops;
    var init := dsts[..|dsts| - 1];
    assert forall j | 0 <= j <= i :: init[j] == dsts[j];
  }

  lemma LastPasses(t: Tables, cluster: nat, dsts: seq<nat>, way: nat -> Way)
    requires dsts != []
    ensures Passes(t, cluster, dsts, |dsts| - 1, way) <==>
            (|dsts| > 1 ==> Passes(t, cluster, dsts, |dsts| - 2, way)) && !Stops(t, cluster, dsts[|dsts| - 1], way)
  {
  }

  lemma {:induction false} CopiesOf(t: Tables, cluster: nat, p: Packet, dsts: seq<nat>, way: nat -> Way)
    ensures
      var h := HandOn(t, cluster, p, dsts, way);
      forall c | c in h.queued + h.linked + h.lost :: c.dst in dsts
  {
    if dsts != [] {
      CopiesOf(t, cluster, p, dsts[..|dsts| - 1], way);
    }
  }

  // ----- many buses

  /** A copy on the link between two clusters. */
  datatype Hop = Hop(from: nat, to: nat, copy: Copy)

  /** A packet sent so far, with the servers it was for. */
  datatype Sending = Sending(p: Packet, dsts: seq<nat>)

  /** All buses of one configuration.  delivered holds the copies in the servers' queues, inFlight those
      on links now, and crossed all that ever were. */
  datatype System = System(tables: Tables, forwarded: seq<Sending>,
                           delivered: multiset<Copy>, inFlight: seq<Hop>, crossed: seq<Hop>, lost: multiset<Copy>)

  ghost predicate Initial(s: System) {
    && Consistent(s.tables) && s.forwarded == [] && s.delivered == multiset{} && s.inFlight == [] && s.crossed == []
    && s.lost == multiset{}
  }

  function ClusterOf(t: Tables, s: nat): nat {
    if s in t.servers then t.servers[s].cluster else 0
  }

  function Hops(t: Tables, from: nat, cs: seq<Copy>): seq<Hop> {
    seq(|cs|, i requires 0 <= i < |cs| => Hop(from, ClusterOf(t, cs[i].dst), cs[i]))
  }

  /** The bus of some cluster forwards a packet; the packet's number is its place in the run. */
  ghost predicate Forward(s: System, s': System, cluster: nat, p: Packet, rnd: nat, way: nat -> Way) {
    && p.id == |s.forwarded|
    && s' == match Selected(s.tables, p, rnd)
             case None => s.(forwarded := s.forwarded + [Sending(p, [])])
             case Some(dsts) => Sent(s, cluster, Sending(p, dsts), way)
  }

  ghost function Sent(s: System, cluster: nat, f: Sending, way: nat -> Way): System {
    var h := HandOn(s.tables, cluster, f.p, f.dsts, way);
    s.(forwarded := s.forwarded + [f],
       delivered := s.delivered + multiset(h.queued),
       inFlight := s.inFlight + Hops(s.tables, cluster, h.linked),
       crossed := s.crossed + Hops(s.tables, cluster, h.linked),
       lost := s.lost + multiset(h.lost))
  }

  /** A bus takes the i-th copy off its link; room says whether the server's queue takes it. */
  ghost predicate Arrive(s: System, s': System, i: nat, room: bool) {
    && i < |s.inFlight|
    && var hop := s.inFlight[i];
       var ok := hop.copy.dst in s.tables.servers && s.tables.servers[hop.copy.dst].cluster == hop.to && room;
       s' == s.(inFlight := s.inFlight[..i] + s.inFlight[i + 1..],
                delivered := s.delivered + if ok then multiset{hop.copy} else multiset{},
                lost := s.lost + if ok then multiset{} else multiset{hop.copy})
  }

  /** A link breaks with a copy on it. */
  ghost predicate Drop(s: System, s': System, i: nat) {
    && i < |s.inFlight|
    && s' == s.(inFlight := s.inFlight[..i] + s.inFlight[i + 1..], lost := s.lost + multiset{s.inFlight[i].copy})
  }

  ghost predicate Next(s: System, s': System) {
    || (exists c: nat, p, rnd: nat, way :: Forward(s, s', c, p, rnd, way))
    || (exists i, room :: Arrive(s, s', i, room))
    || (exists i :: Drop(s, s', i))
  }

  ghost predicate Run(states: seq<System>) {
    && |states| > 0 && Initial(states[0])
    && forall i | 0 <= i < |states| - 1 :: Next(states[i], states[i + 1])
  }

  // ----- every copy is accounted for

  ghost function CopiesFor(f: Sending, n: nat): multiset<Copy>
    requires n <= |f.dsts|
  {
    if n == 0 then multiset{} else CopiesFor(f, n - 1) + multiset{Copy(f.p.id, f.p.src, f.dsts[n - 1])}
  }

  ghost function AllCopies(fs: seq<Sending>): multiset<Copy> {
    if fs == [] then multiset{}
    else AllCopies(fs[..|fs| - 1]) + CopiesFor(fs[|fs| - 1], |fs[|fs| - 1].dsts|)
  }

  ghost function OnLinks(hs: seq<Hop>): multiset<Copy> {
    if hs == [] then multiset{} else OnLinks(hs[..|hs| - 1]) + multiset{hs[|hs| - 1].copy}
  }

  lemma {:induction false} OnLinksAppend(a: seq<Hop>, b: seq<Hop>)
    ensures OnLinks(a + b) == OnLinks(a) + OnLinks(b)
  {
    hide OnLinks;
    if b == [] {
      assert a + b == a;
      NoneOnLink();
    } else {
      var init, hop := b[..|b| - 1], b[|b| - 1];
      OnLinksAppend(a, init);
      assert b == init + [hop];
      assert a + b == (a + init) + [hop];
      LastOnLink(a + b, a + init, hop);
      LastOnLink(b, init, hop);
      AddAlso(OnLinks(a), OnLinks(init), multiset{hop.copy});
    }
  }

  lemma NoneOnLink()
    ensures OnLinks([]) == multiset{}
  {
  }

  lemma LastOnLink(hs: seq<Hop>, init: seq<Hop>, hop: Hop)
    requires hs == init + [hop]
    ensures OnLinks(hs) == OnLinks(init) + multiset{hop.copy}
  {
    assert hs[..|hs| - 1] == init;
  }

  lemma AddAlso<T>(a: multiset<T>, b: multiset<T>, c: multiset<T>)
    ensures a + b + c == a + (b + c)
  {
    forall t: T
      ensures (a + b + c)[t] == (a + (b + c))[t]
    {
    }
  }

  lemma AddInside<T>(a: multiset<T>, b: multiset<T>, c: multiset<T>, x: multiset<T>)
    ensures (a + x) + b + c == a + b + c + x
    ensures a + (b + x) + c == a + b + c + x
    ensures a + b + (c + x) == a + b + c + x
  {
  }

  lemma OnLinksRemove(hs: seq<Hop>, i: nat)
    requires i < |hs|
    ensures OnLinks(hs[..i] + hs[i + 1..]) + multiset{hs[i].copy} == OnLinks(hs)
  {
    hide OnLinks;
    var before, hop, after := hs[..i], hs[i], hs[i + 1..];
    assert hs == (before + [hop]) + after;
    OnLinksAppend(before + [hop], after);
    LastOnLink(before + [hop], before, hop);
    OnLinksAppend(before, after);
    AddInside(OnLinks(before), OnLinks(after), multiset{}, multiset{hop.copy});
  }

  lemma {:induction false} HopsCopies(t: Tables, from: nat, cs: seq<Copy>)
    ensures OnLinks(Hops(t, from, cs)) == multiset(cs)
  {
    if cs == [] {
      assert Hops(t, from, cs) == [];
    } else {
      var last := |cs| - 1;
      assert Hops(t, from, cs)[..last] == Hops(t, from, cs[..last]);
      assert cs == cs[..last] + [cs[last]];
      HopsCopies(t, from, cs[..last]);
    }
  }

  ghost function Account(h: Handed): multiset<Copy> {
    multiset(h.queued) + multiset(h.linked) + multiset(h.lost)
  }

  lemma Snoc(s: seq<Copy>, c: Copy)
    ensures multiset(s + [c]) == multiset(s) + multiset{c}
  {
  }

  /** One destination more is one copy more, whatever becomes of it. */
  lemma HandOneAccounts(t: Tables, cluster: nat, c: Copy, h: Handed, way: nat -> Way)
    ensures Account(HandOne(t, cluster, c, h, way)) == Account(h) + multiset{c}
  {
    Snoc(h.queued, c);
    Snoc(h.linked, c);
    Snoc(h.lost, c);
    AddInside(multiset(h.queued), multiset(h.linked), multiset(h.lost), multiset{c});
  }

  ghost predicate Abroad(t: Tables, cluster: nat, cs: seq<Copy>) {
    forall c | c in cs :: c.dst in t.servers && t.servers[c.dst].cluster != cluster
  }

  lemma HandOneAbroad(t: Tables, cluster: nat, c: Copy, h: Handed, way: nat -> Way)
    requires Abroad(t, cluster, h.linked)
    ensures Abroad(t, cluster, HandOne(t, cluster, c, h, way).linked)
  {
  }

  /** The delivery loop loses track of no copy. */
  lemma {:induction false} HandOnAccounts(t: Tables, cluster: nat, f: Sending, n: nat, way: nat -> Way)
    requires n <= |f.dsts|
    ensures
      var h := HandOn(t, cluster, f.p, f.dsts[..n], way);
      Account(h) == CopiesFor(f, n) && Abroad(t, cluster, h.linked)
  {
    hide HandOne, Account;
    if n > 0 {
      HandOnAccounts(t, cluster, f, n - 1, way);
      HandOnMore(t, cluster, f.p, f.dsts, n - 1, way);
      var c, h := Copy(f.p.id, f.p.src, f.dsts[n - 1]), HandOn(t, cluster, f.p, f.dsts[..n - 1], way);
      HandOneAccounts(t, cluster, c, h, way);
      HandOneAbroad(t, cluster, c, h, way);
    } else {
      NothingHanded(t, cluster, f.p, way);
    }
  }

  lemma NothingHanded(t: Tables, cluster: nat, p: Packet, way: nat -> Way)
    ensures HandOn(t, cluster, p, [], way) == Handed([], [], [], 0)
    ensures Account(Handed([], [], [], 0)) == multiset{}
  {
  }

  lemma {:induction false} CopiesOnce(f: Sending, n: nat, c: Copy)
    requires n <= |f.dsts| && Distinct(f.dsts)
    ensures CopiesFor(f, n)[c] == if c.id == f.p.id && c.src == f.p.src && c.dst in f.dsts[..n] then 1 else 0
  {
    if n > 0 {
      CopiesOnce(f, n - 1, c);
      assert f.dsts[..n] == f.dsts[..n - 1] + [f.dsts[n - 1]];
      assert f.dsts[n - 1] !in f.dsts[..n - 1];
    }
  }

  /** A run's packets are numbered in order, and each is for the servers its destination means. */
  ghost predicate Numbered(t: Tables, fs: seq<Sending>) {
    forall i | 0 <= i < |fs| :: fs[i].p.id == i && Meant(t, fs[i])
  }

  /** The servers a packet may go to, going by its destination alone. */
  predicate Candidate(t: Tables, p: Packet, d: nat) {
    match p.sendType
    case ToSrv => d == p.dst
    case ToGrpAll => d in t.servers && t.servers[d].group == p.dst
    case ToGrpRnd => d in t.servers && t.servers[d].group == p.dst
    case ToGrpAllNome => d in t.servers && t.servers[d].group == p.dst && d != p.src
    case ToGrpRndNome => d in t.servers && t.servers[d].group == p.dst && d != p.src
  }

  predicate Random(p: Packet) {
    p.sendType == ToGrpRnd || p.sendType == ToGrpRndNome
  }

  /** All candidates, each once; one of them, if there are any, in the random modes. */
  ghost predicate Meant(t: Tables, f: Sending) {
    && Distinct(f.dsts)
    && (forall d | d in f.dsts :: Candidate(t, f.p, d))
    && if Random(f.p) then |f.dsts| <= 1 && (f.dsts == [] ==> forall d :: !Candidate(t, f.p, d))
       else forall d :: Candidate(t, f.p, d) ==> d in f.dsts
  }

  lemma {:induction false} AllOnce(t: Tables, fs: seq<Sending>, c: Copy)
    requires Numbered(t, fs)
    ensures AllCopies(fs)[c] == if c.id < |fs| && c.src == fs[c.id].p.src && c.dst in fs[c.id].dsts then 1 else 0
  {
    hide CopiesFor;
    if fs != [] {
      var last := |fs| - 1;
      var f := fs[last];
      AllOnce(t, fs[..last], c);
      CopiesOnce(f, |f.dsts|, c);
      assert f.dsts[..|f.dsts|] == f.dsts;
      AllCopiesLast(fs, c);
    }
  }

  lemma AllCopiesLast(fs: seq<Sending>, c: Copy)
    requires fs != []
    ensures AllCopies(fs)[c] == AllCopies(fs[..|fs| - 1])[c] + CopiesFor(fs[|fs| - 1], |fs[|fs| - 1].dsts|)[c]
  {
    hide CopiesFor;
  }

  ghost predicate Inv(s: System) {
    && Consistent(s.tables) && Numbered(s.tables, s.forwarded)
    && s.delivered + OnLinks(s.inFlight) + s.lost == AllCopies(s.forwarded)
    && OnLinks(s.crossed) <= AllCopies(s.forwarded)
    && (forall i | 0 <= i < |s.crossed| :: s.crossed[i].from != s.crossed[i].to)
    && forall i | 0 <= i < |s.inFlight| ::
         s.inFlight[i].copy.dst in s.tables.servers &&
             s.inFlight[i].to == s.tables.servers[s.inFlight[i].copy.dst].cluster
  }

  lemma SelectedMeant(t: Tables, p: Packet, rnd: nat)
    requires Consistent(t) && Selected(t, p, rnd).Some?
    ensures Meant(t, Sending(p, Selected(t, p, rnd).value))
  {
    SelectedIs(t, p, rnd);
  }

  lemma NobodyMeant(t: Tables, p: Packet, rnd: nat)
    requires Consistent(t) && Selected(t, p, rnd) == None
    ensures Meant(t, Sending(p, []))
  {
    if p.dst in t.groups {
      WithoutIs(t.groups[p.dst], p.src);
    }
    forall d
      ensures !Candidate(t, p, d)
    {
      assert d in t.servers && t.servers[d].group == p.dst ==> p.dst in t.groups && d in t.groups[p.dst];
    }
  }

  lemma AccountAdds(a: multiset<Copy>, b: multiset<Copy>, c: multiset<Copy>, x: multiset<Copy>, y: multiset<Copy>,
      z: multiset<Copy>)
    ensures (a + x) + (b + y) + (c + z) == a + b + c + (x + y + z)
  {
  }

  lemma ForwardKeeps(s: System, s': System, cluster: nat, p: Packet, rnd: nat, way: nat -> Way)
    requires Inv(s) && Forward(s, s', cluster, p, rnd, way)
    ensures Inv(s')
  {
    hide Inv, Sent, Selected, Meant;
    assert Consistent(s.tables) by {
      InvConsistent(s);
    }
    if Selected(s.tables, p, rnd) == None {
      NobodyMeant(s.tables, p, rnd);
      IgnoredKeeps(s, Sending(p, []));
    } else {
      SelectedMeant(s.tables, p, rnd);
      SentKeeps(s, cluster, Sending(p, Selected(s.tables, p, rnd).value), way);
    }
  }

  lemma InvConsistent(s: System)
    requires Inv(s)
    ensures Consistent(s.tables)
  {
  }

  /** A packet nobody is meant to get. */
  lemma IgnoredKeeps(s: System, f: Sending)
    requires Inv(s) && f.dsts == [] && Meant(s.tables, f) && f.p.id == |s.forwarded|
    ensures Inv(s.(forwarded := s.forwarded + [f]))
  {
    hide Consistent, OnLinks, CopiesFor, Meant;
    assert (s.forwarded + [f])[..|s.forwarded|] == s.forwarded;
    NoCopies(f);
  }

  lemma SentKeeps(s: System, cluster: nat, f: Sending, way: nat -> Way)
    requires Inv(s) && Meant(s.tables, f) && f.p.id == |s.forwarded|
    ensures Inv(Sent(s, cluster, f, way))
  {
    hide HandOn, Hops, Consistent, OnLinks, CopiesFor, Meant, AllCopies, Abroad;
    var s' := Sent(s, cluster, f, way);
    assert f.dsts[..|f.dsts|] == f.dsts;
    HandOnAccounts(s.tables, cluster, f, |f.dsts|, way);
    var h := HandOn(s.tables, cluster, f.p, f.dsts, way);
    var more := Hops(s.tables, cluster, h.linked);
    HopsCopies(s.tables, cluster, h.linked);
    HopsGood(s.tables, cluster, h.linked);
    OnLinksAppend(s.inFlight, more);
    OnLinksAppend(s.crossed, more);
    AccountAdds(s.delivered, OnLinks(s.inFlight), s.lost, multiset(h.queued), multiset(h.linked), multiset(h.lost));
    AllCopiesMore(s.forwarded, f);
  }

  lemma AllCopiesMore(fs: seq<Sending>, f: Sending)
    ensures AllCopies(fs + [f]) == AllCopies(fs) + CopiesFor(f, |f.dsts|)
  {
    hide CopiesFor;
    assert (fs + [f])[..|fs|] == fs;
  }

  lemma NoCopies(f: Sending)
    requires f.dsts == []
    ensures CopiesFor(f, 0) == multiset{}
  {
  }

  lemma HopsGood(t: Tables, from: nat, cs: seq<Copy>)
    requires Abroad(t, from, cs)
    ensures forall i | 0 <= i < |Hops(t, from, cs)| ::
              var hop := Hops(t, from, cs)[i];
              hop.from != hop.to && hop.copy.dst in t.servers && hop.to == t.servers[hop.copy.dst].cluster
  {
  }

  lemma ArriveKeeps(s: System, s': System, i: nat, room: bool)
    requires Inv(s) && Arrive(s, s', i, room)
    ensures Inv(s')
  {
    hide OnLinks, AllCopies, Consistent, Numbered;
    OnLinksRemove(s.inFlight, i);
  }

  lemma DropKeeps(s: System, s': System, i: nat)
    requires Inv(s) && Drop(s, s', i)
    ensures Inv(s')
  {
    hide OnLinks, AllCopies, Consistent, Numbered;
    OnLinksRemove(s.inFlight, i);
  }

  lemma {:induction false} RunInv(states: seq<System>)
    requires Run(states)
    ensures Inv(states[|states| - 1])
  {
    hide Inv, Forward, Arrive, Drop;
    var last := |states| - 1;
    if last == 0 {
      InitialInv(states[0]);
    } else {
      var s, s' := states[last - 1], states[last];
      RunInv(states[..last]);
      assert Next(s, s');
      if c: nat, p, rnd: nat, way :| Forward(s, s', c, p, rnd, way) {
        ForwardKeeps(s, s', c, p, rnd, way);
      } else if i, room :| Arrive(s, s', i, room) {
        ArriveKeeps(s, s', i, room);
      } else {
        var i :| Drop(s, s', i);
        DropKeeps(s, s', i);
      }
    }
  }

  lemma InitialInv(s: System)
    requires Initial(s)
    ensures Inv(s)
  {
  }

  /** In every reachable state each selected server has a packet at most once, no other server has it,
      the modes that leave the sender out never give it back to the sender, and no copy crossed more than
      one link. */
  lemma AtMostOnce(states: seq<System>, c: Copy)
    requires Run(states)
    ensures
      var s := states[|states| - 1];
      && s.delivered[c] + OnLinks(s.inFlight)[c] + s.lost[c] <= 1
      && OnLinks(s.crossed)[c] <= 1
      && (c in s.delivered ==>
            && c.id < |s.forwarded| && c.src == s.forwarded[c.id].p.src && c.dst in s.forwarded[c.id].dsts
            && Meant(s.tables, s.forwarded[c.id])
            && (s.forwarded[c.id].p.sendType in {ToGrpRndNome, ToGrpAllNome} ==> c.dst != c.src))
  {
    RunInv(states);
    var s := states[|states| - 1];
    AllOnce(s.tables, s.forwarded, c);
    assert (s.delivered + OnLinks(s.inFlight) + s.lost)[c] == AllCopies(s.forwarded)[c];
  }

  /** Every copy of every packet is in one place: in its server's queue, on a link, or lost. */
  lemma AccountedOnce(states: seq<System>, i: nat, d: nat)
    requires Run(states) && i < |states[|states| - 1].forwarded|
    ensures
      var s := states[|states| - 1];
      var c := Copy(i, s.forwarded[i].p.src, d);
      s.delivered[c] + OnLinks(s.inFlight)[c] + s.lost[c] == if d in s.forwarded[i].dsts then 1 else 0
  {
    RunInv(states);
    var s := states[|states| - 1];
    var c := Copy(i, s.forwarded[i].p.src, d);
    AllOnce(s.tables, s.forwarded, c);
    assert (s.delivered + OnLinks(s.inFlight) + s.lost)[c] == AllCopies(s.forwarded)[c];
  }

  /** Copies are lost only where a queue is full, a link fails, or the server is unknown. */
  lemma {:induction false} NothingLost(t: Tables, cluster: nat, p: Packet, dsts: seq<nat>, way: nat -> Way)
    requires forall d | d in dsts ::
               d in t.servers && way(d) == if t.servers[d].cluster == cluster then Room else LinkUp
    ensures
      var h := HandOn(t, cluster, p, dsts, way);
      h.lost == [] && h.rc == 0
  {
    if dsts != [] {
      NothingLost(t, cluster, p, dsts[..|dsts| - 1], way);
    }
  }

  /** The links are up, the queues have room, and a packet to one server is to a known one. */
  predicate Clear(t: Tables, cluster: nat, p: Packet, way: nat -> Way) {
    && (p.sendType == ToSrv ==> p.dst in t.servers)
    && forall d | d in t.servers :: way(d) == if t.servers[d].cluster == cluster then Room else LinkUp
  }

  /** A step while all links are up and all queues have room. */
  ghost predicate ClearNext(s: System, s': System) {
    || (exists c: nat, p, rnd: nat, way :: Clear(s.tables, c, p, way) && Forward(s, s', c, p, rnd, way))
    || (exists i :: Arrive(s, s', i, true))
  }

  ghost predicate ClearRun(states: seq<System>) {
    && |states| > 0 && Initial(states[0])
    && forall i | 0 <= i < |states| - 1 :: ClearNext(states[i], states[i + 1])
  }

  lemma ClearForward(s: System, s': System, cluster: nat, p: Packet, rnd: nat, way: nat -> Way)
    requires Inv(s) && s.lost == multiset{} && Clear(s.tables, cluster, p, way)
    requires Forward(s, s', cluster, p, rnd, way)
    ensures s'.lost == multiset{}
  {
    hide HandOn, Hops, Selected, OnLinks, AllCopies, Numbered, Consistent;
    if Selected(s.tables, p, rnd).Some? {
      var dsts := Selected(s.tables, p, rnd).value;
      SelectedIs(s.tables, p, rnd);
      NothingLost(s.tables, cluster, p, dsts, way);
    }
  }

  lemma {:induction false} ClearRunInv(states: seq<System>)
    requires ClearRun(states)
    ensures Run(states) && Inv(states[|states| - 1]) && states[|states| - 1].lost == multiset{}
  {
    hide Inv, Forward, Arrive, Clear;
    var last := |states| - 1;
    if last == 0 {
      InitialInv(states[0]);
    } else {
      var s, s' := states[last - 1], states[last];
      ClearRunInv(states[..last]);
      ClearStep(s, s');
      forall i | 0 <= i < last
        ensures Next(states[i], states[i + 1])
      {
        assert i < last - 1 ==> Next(states[..last][i], states[..last][i + 1]);
      }
      RunInv(states);
    }
  }

  lemma ClearStep(s: System, s': System)
    requires Inv(s) && s.lost == multiset{} && ClearNext(s, s')
    ensures Next(s, s') && s'.lost == multiset{}
  {
    hide Forward, Clear;
    if c: nat, p, rnd: nat, way :| Clear(s.tables, c, p, way) && Forward(s, s', c, p, rnd, way) {
      ClearForward(s, s', c, p, rnd, way);
    } else {
      var i :| Arrive(s, s', i, true);
    }
  }

  /** What a server's queue holds of packet i. */
  ghost function Held(s: System, i: nat, d: nat): nat
    requires i < |s.forwarded|
  {
    s.delivered[Copy(i, s.forwarded[i].p.src, d)]
  }

  /** While links are up and queues have room, a packet reaches everybody it is for exactly once: as soon
      as nothing is on a link, the server it names, all members of the group (but the sender in the mode
      that leaves it out), or one member if there is any, have it once, and no other server has it. */
  lemma ExactlyOnce(states: seq<System>, i: nat)
    requires ClearRun(states) && i < |states[|states| - 1].forwarded| && states[|states| - 1].inFlight == []
    ensures
      var s := states[|states| - 1];
      var p := s.forwarded[i].p;
      if !Random(p) then forall d: nat :: Held(s, i, d) == if Candidate(s.tables, p, d) then 1 else 0
      else if exists d: nat :: Candidate(s.tables, p, d) then
        exists m: nat :: Candidate(s.tables, p, m) && forall d: nat :: Held(s, i, d) == if d == m then 1 else 0
      else forall d: nat :: Held(s, i, d) == 0
  {
    hide Run, Inv, OnLinks, Consistent, Candidate;
    var s := states[|states| - 1];
    ClearRunInv(states);
    NoneOnLink();
    MeantInRun(s, i);
    var f := s.forwarded[i];
    forall d: nat
      ensures Held(s, i, d) == if d in f.dsts then 1 else 0
    {
      AccountedOnce(states, i, d);
    }
    if Random(f.p) && f.dsts != [] {
      var m := f.dsts[0];
      assert Candidate(s.tables, f.p, m) && forall d: nat :: Held(s, i, d) == if d == m then 1 else 0;
    }
  }

  lemma MeantInRun(s: System, i: nat)
    requires Inv(s) && i < |s.forwarded|
    ensures Meant(s.tables, s.forwarded[i])
  {
  }
}
