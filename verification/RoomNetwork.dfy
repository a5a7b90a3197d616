/**
 Any number of offline rooms exchanging messages over a network that may reorder, duplicate
 and lose them, each of them closing and restarting at any time between two handlers
 (packages/peer-client/src/offline-sync-room.ts, lines 67-531).

 A room may send any message made of entries it stores and of its own writes: the operations,
 the batches of a flush and the answers to requests are such messages.
 */
module RoomNetwork {
  import opened Wrappers
  import opened Hlc
  import opened StateSync
  import opened OfflineRoom
  import opened OfflineRuns
  import Convergence
  import Replication

  /** history: `seen` holds the entries written or received here. */
  datatype Member = Member(site: Site, seen: set<Entry>)

  datatype Packet = Packet(from: string, message: Message)

  datatype Net = Net(members: map<string, Member>, packets: set<Packet>)

  datatype NetEvent =
    | Open(node: string, now: int)
    | Local(node: string, ev: Event)
    | Say(node: string, message: Message)
    | Hear(node: string, packet: Packet, nows: seq<int>)

  const Nobody := Net(map[], {})

  // ---- One step ----

  /** Everything in the message is stored here or was written here. */
  ghost predicate MaySay(s: Site, m: Message) {
    forall o <- Entries(m, s.room.replica.node) | o.Some? ::
      o.value in s.room.replica.state.Values || o.value in s.log
  }

  ghost predicate NetEnabled(s: Net, ev: NetEvent) {
    match ev
    case Open(n, _) => n !in s.members
    case Local(n, e) => n in s.members && !e.RemoteMessage? && Enabled(e)
    case Say(n, m) => n in s.members && MaySay(s.members[n].site, m)
    case Hear(n, p, nows) => n in s.members && p in s.packets && |nows| == |Entries(p.message, p.from)|
  }

  /** The entries that a receiver does not ignore. */
  function Taken(es: seq<Option<Entry>>): set<Entry> {
    set o <- es | Screen(o).Some? :: o.value
  }

  function LocalStep(m: Member, e: Event, maxPending: int): Member
    requires Enabled(e)
  {
    var site := Step(m.site, e, maxPending);
    Member(site, m.seen + if |site.log| > |m.site.log| then {site.log[|site.log| - 1]} else {})
  }

  function HearStep(m: Member, p: Packet, nows: seq<int>): Member
    requires |nows| == |Entries(p.message, p.from)|
  {
    Member(Step(m.site, RemoteMessage(p.message, p.from, nows), 0),
           if m.site.room.closed then m.seen else m.seen + Taken(Entries(p.message, p.from)))
  }

  function NetStep(s: Net, ev: NetEvent, maxPending: int): Net
    requires NetEnabled(s, ev)
  {
    match ev
    case Open(n, now) => s.(members := s.members[n := Member(Fresh(n, now), {})])
    case Local(n, e) => s.(members := s.members[n := LocalStep(s.members[n], e, maxPending)])
    case Say(n, m) => s.(packets := s.packets + {Packet(n, m)})
    case Hear(n, p, nows) => s.(members := s.members[n := HearStep(s.members[n], p, nows)])
  }

  ghost predicate NetRun(s: Net, run: seq<NetEvent>, maxPending: int)
    decreases |run|
  {
    run == [] || (NetEnabled(s, run[0]) && NetRun(NetStep(s, run[0], maxPending), run[1..], maxPending))
  }

  ghost function NetExec(s: Net, run: seq<NetEvent>, maxPending: int): Net
    requires NetRun(s, run, maxPending)
    decreases |run|
  {
    if run == [] then s else NetExec(NetStep(s, run[0], maxPending), run[1..], maxPending)
  }

  // ---- The invariant ----

  ghost predicate Written(s: Net, e: Entry) {
    e.hlc.node in s.members && e in s.members[e.hlc.node].site.log
  }

  ghost predicate MemberInv(s: Net, n: string)
    requires n in s.members
  {
    var m := s.members[n];
    && SiteInv(m.site) && m.site.room.replica.node == n
    && Replication.IsLatest(m.site.room.replica.state, m.seen)
    && (forall e <- m.seen :: Written(s, e))
  }

  ghost predicate PacketInv(s: Net, p: Packet) {
    forall o <- Entries(p.message, p.from) | o.Some? :: Written(s, o.value)
  }

  ghost predicate NetInv(s: Net) {
    && (forall n <- s.members :: MemberInv(s, n))
    && (forall p <- s.packets :: PacketInv(s, p))
  }

  /** Nobody leaves and nothing written is forgotten. */
  ghost predicate Grows(s: Net, s': Net) {
    forall n <- s.members :: n in s'.members && s.members[n].site.log <= s'.members[n].site.log
  }

  lemma StaysWritten(s: Net, s': Net, e: Entry)
    requires Grows(s, s') && Written(s, e)
    ensures Written(s', e)
  {
    var log, log' := s.members[e.hlc.node].site.log, s'.members[e.hlc.node].site.log;
    var i :| 0 <= i < |log| && log[i] == e;
    assert log'[i] == e;
  }

  lemma GrowsKeepsInv(s: Net, s': Net, n: string)
    requires NetInv(s) && Grows(s, s') && n in s'.members && MemberInv(s', n)
    requires forall m <- s'.members :: m == n || (m in s.members && s'.members[m] == s.members[m])
    requires forall p <- s'.packets :: p in s.packets || PacketInv(s', p)
    ensures NetInv(s')
  {
    forall m <- s'.members | m != n ensures MemberInv(s', m) {
      assert MemberInv(s, m);
      forall e <- s'.members[m].seen ensures Written(s', e) { StaysWritten(s, s', e); }
    }
    forall p <- s'.packets | p in s.packets ensures PacketInv(s', p) {
      assert PacketInv(s, p);
      forall o <- Entries(p.message, p.from) | o.Some? ensures Written(s', o.value) { StaysWritten(s, s', o.value); }
    }
  }

  // ---- What a room holds ----

  lemma {:induction false} ApplyAllKeepsLatest(room: Room, es: seq<Option<Entry>>, nows: seq<int>, seen: set<Entry>)
    requires |es| == |nows| && Replication.IsLatest(room.replica.state, seen)
    ensures Replication.IsLatest(ApplyAll(room, es, nows).replica.state, seen + Taken(es))
  {
    if es == [] {
      assert seen + Taken(es) == seen;
    } else {
      var last := |es| - 1;
      ApplyAllKeepsLatest(room, es[..last], nows[..last], seen);
      assert es == es[..last] + [es[last]];
      var mid := ApplyAll(room, es[..last], nows[..last]);
      if Screen(es[last]).Some? {
        Replication.JoinKeepsLatest(mid.replica.state, seen + Taken(es[..last]), es[last].value);
        assert seen + Taken(es) == seen + Taken(es[..last]) + {es[last].value};
      } else {
        assert Taken(es) == Taken(es[..last]);
      }
    }
  }

  lemma WriteKeepsLatest(m: Member, e: Event, maxPending: int)
    requires SiteInv(m.site) && Replication.IsLatest(m.site.room.replica.state, m.seen)
    requires e.LocalWrite? && !m.site.room.closed
    ensures var m' := LocalStep(m, e, maxPending); Replication.IsLatest(m'.site.room.replica.state, m'.seen)
  {
    var r := m.site.room.replica;
    Replication.WriteIsJoin(r, e.key, e.value, e.deleted, e.now);
    Replication.JoinKeepsLatest(r.state, m.seen, WrittenEntry(r, e.key, e.value, e.deleted, e.now));
  }

  /** Between handlers a room changes its store only by writing. */
  lemma LocalKeepsMember(m: Member, e: Event, maxPending: int)
    requires SiteInv(m.site) && Replication.IsLatest(m.site.room.replica.state, m.seen)
    requires Enabled(e) && !e.RemoteMessage?
    ensures var m' := LocalStep(m, e, maxPending);
            && SiteInv(m'.site) && Replication.IsLatest(m'.site.room.replica.state, m'.seen)
            && m.site.log <= m'.site.log && m'.site.room.replica.node == m.site.room.replica.node
            && (forall x <- m'.seen :: x in m.seen || x in m'.site.log)
  {
    StepKeepsInv(m.site, e, maxPending);
    if e.LocalWrite? {
      if !m.site.room.closed { WriteKeepsLatest(m, e, maxPending); }
    } else if e.Restart? {
      Reopens(m.site, e.constructed, e.initialised);
    }
  }

  /** A room moved on: it is in order, forgot no write, and saw only what was written. */
  lemma MemberMovesOn(s: Net, n: string, m': Member)
    requires NetInv(s) && n in s.members
    requires SiteInv(m'.site) && m'.site.room.replica.node == n && s.members[n].site.log <= m'.site.log
    requires Replication.IsLatest(m'.site.room.replica.state, m'.seen)
    requires forall x <- m'.seen :: Written(s, x) || x in m'.site.log
    ensures NetInv(s.(members := s.members[n := m']))
  {
    var s' := s.(members := s.members[n := m']);
    assert Grows(s, s');
    forall x <- m'.seen ensures Written(s', x) {
      if Written(s, x) { StaysWritten(s, s', x); }
    }
    GrowsKeepsInv(s, s', n);
  }

  lemma LocalKeepsInv(s: Net, n: string, e: Event, maxPending: int)
    requires NetInv(s) && n in s.members && Enabled(e) && !e.RemoteMessage?
    ensures NetInv(NetStep(s, Local(n, e), maxPending))
  {
    assert MemberInv(s, n);
    LocalKeepsMember(s.members[n], e, maxPending);
    MemberMovesOn(s, n, LocalStep(s.members[n], e, maxPending));
  }

  lemma HearKeepsMember(m: Member, p: Packet, nows: seq<int>)
    requires SiteInv(m.site) && Replication.IsLatest(m.site.room.replica.state, m.seen)
    requires |nows| == |Entries(p.message, p.from)|
    ensures var m' := HearStep(m, p, nows);
            && SiteInv(m'.site) && Replication.IsLatest(m'.site.room.replica.state, m'.seen)
            && m'.site.log == m.site.log
  {
    StepKeepsInv(m.site, RemoteMessage(p.message, p.from, nows), 0);
    ApplyAllKeepsLatest(m.site.room, Entries(p.message, p.from), nows, m.seen);
  }

  lemma {:induction false} ApplyAllKeepsNode(room: Room, es: seq<Option<Entry>>, nows: seq<int>)
    requires |es| == |nows|
    ensures ApplyAll(room, es, nows).replica.node == room.replica.node
  {
    if es != [] { ApplyAllKeepsNode(room, es[..|es| - 1], nows[..|es| - 1]); }
  }

  lemma HearKeepsInv(s: Net, n: string, p: Packet, nows: seq<int>)
    requires NetInv(s) && NetEnabled(s, Hear(n, p, nows))
    ensures NetInv(NetStep(s, Hear(n, p, nows), 0))
  {
    var m := s.members[n];
    assert MemberInv(s, n) && PacketInv(s, p);
    HearKeepsMember(m, p, nows);
    ApplyAllKeepsNode(m.site.room, Entries(p.message, p.from), nows);
    MemberMovesOn(s, n, HearStep(m, p, nows));
  }

  lemma SayKeepsInv(s: Net, n: string, m: Message)
    requires NetInv(s) && n in s.members && MaySay(s.members[n].site, m)
    ensures NetInv(NetStep(s, Say(n, m), 0))
  {
    var s' := NetStep(s, Say(n, m), 0);
    assert MemberInv(s, n);
    var site := s.members[n].site;
    forall o <- Entries(m, n) | o.Some? ensures Written(s, o.value) {
      if o.value in site.room.replica.state.Values {
        var k :| k in site.room.replica.state && site.room.replica.state[k] == o.value;
      }
    }
    assert MemberInv(s', n) by {
      forall e <- s'.members[n].seen ensures Written(s', e) { assert Written(s, e); }
    }
    GrowsKeepsInv(s, s', n);
  }

  lemma NetStepKeepsInv(s: Net, ev: NetEvent, maxPending: int)
    requires NetInv(s) && NetEnabled(s, ev)
    ensures NetInv(NetStep(s, ev, maxPending))
  {
    match ev {
      case Open(n, now) => GrowsKeepsInv(s, NetStep(s, ev, maxPending), n);
      case Local(n, e) => LocalKeepsInv(s, n, e, maxPending);
      case Say(n, m) => SayKeepsInv(s, n, m);
      case Hear(n, p, nows) => HearKeepsInv(s, n, p, nows);
    }
  }

  lemma {:induction false} NetRunKeepsInv(s: Net, run: seq<NetEvent>, maxPending: int)
    requires NetInv(s) && NetRun(s, run, maxPending)
    ensures NetInv(NetExec(s, run, maxPending))
    decreases |run|
  {
    if run != [] {
      NetStepKeepsInv(s, run[0], maxPending);
      NetRunKeepsInv(NetStep(s, run[0], maxPending), run[1..], maxPending);
    }
  }

  // ---- What every run guarantees ----

  ghost predicate Ascending(log: seq<Entry>) {
    forall i, j :: 0 <= i < j < |log| ==> Less(log[i].hlc, log[j].hlc)
  }

  /** In an ascending log only one place has a given stamp. */
  lemma OnePlace(log: seq<Entry>, i: nat, j: nat)
    requires Ascending(log) && i < |log| && j < |log| && log[i].hlc == log[j].hlc
    ensures i == j
  {
    CompareTotal(log[i].hlc, log[j].hlc);
  }

  /** The writes of a room carry its name and ascending stamps. */
  lemma OwnLog(s: Net, n: string)
    requires n in s.members && MemberInv(s, n)
    ensures var log := s.members[n].site.log; Ascending(log) && forall e <- log :: e.hlc.node == n
  {
  }

  lemma StampIdentifies(s: Net, a: Entry, b: Entry)
    requires NetInv(s) && Written(s, a) && Written(s, b) && a.hlc == b.hlc
    ensures a == b
  {
    var n := a.hlc.node;
    OwnLog(s, n);
    var log := s.members[n].site.log;
    var i: nat :| i < |log| && log[i] == a;
    var j: nat :| j < |log| && log[j] == b;
    OnePlace(log, i, j);
  }

  lemma StampsUniqueIn(s: Net, a: string, i: nat, b: string, j: nat)
    requires NetInv(s) && a in s.members && b in s.members
    requires i < |s.members[a].site.log| && j < |s.members[b].site.log|
    requires s.members[a].site.log[i].hlc == s.members[b].site.log[j].hlc
    ensures a == b && i == j
  {
    OwnLog(s, a);
    OwnLog(s, b);
    var x, y := s.members[a].site.log[i], s.members[b].site.log[j];
    assert x in s.members[a].site.log && y in s.members[b].site.log;
    OnePlace(s.members[a].site.log, i, j);
  }

  /** No two writes of the whole network share a stamp, restarts and wall clocks notwithstanding. */
  lemma StampsUnique(run: seq<NetEvent>, maxPending: int, a: string, i: nat, b: string, j: nat)
    requires NetRun(Nobody, run, maxPending)
    requires var s := NetExec(Nobody, run, maxPending);
             a in s.members && b in s.members && i < |s.members[a].site.log| && j < |s.members[b].site.log|
    ensures var s := NetExec(Nobody, run, maxPending);
            s.members[a].site.log[i].hlc == s.members[b].site.log[j].hlc <==> a == b && i == j
  {
    NetRunKeepsInv(Nobody, run, maxPending);
    var s := NetExec(Nobody, run, maxPending);
    if s.members[a].site.log[i].hlc == s.members[b].site.log[j].hlc { StampsUniqueIn(s, a, i, b, j); }
  }

  lemma LatestAgree(s: Net, m1: Store, s1: set<Entry>, m2: Store, s2: set<Entry>, key: string)
    requires NetInv(s) && (forall e <- s1 + s2 :: Written(s, e))
    requires Replication.IsLatest(m1, s1) && Replication.IsLatest(m2, s2) && Convergence.About(s1, key) == Convergence.About(s2, key)
    ensures AgreeOn(m1, m2, key)
  {
    if key in m1 { assert m1[key] in Convergence.About(s1, key); }
    if key in m2 { assert m2[key] in Convergence.About(s2, key); }
    if key in m1 && key in m2 {
      CompareTotal(m1[key].hlc, m2[key].hlc);
      StampIdentifies(s, m1[key], m2[key]);
    }
  }

  /** The stores agree on a key, if it is in either. */
  predicate AgreeOn(m1: Store, m2: Store, key: string) {
    (key in m1 <==> key in m2) && (key in m1 ==> m1[key] == m2[key])
  }

  lemma RoomsAgree(s: Net, a: string, b: string, key: string)
    requires NetInv(s) && a in s.members && b in s.members
    requires Convergence.About(s.members[a].seen, key) == Convergence.About(s.members[b].seen, key)
    ensures AgreeOn(s.members[a].site.room.replica.state, s.members[b].site.room.replica.state, key)
  {
    var x, y := s.members[a], s.members[b];
    assert MemberInv(s, a) && MemberInv(s, b);
    LatestAgree(s, x.site.room.replica.state, x.seen, y.site.room.replica.state, y.seen, key);
  }

  lemma StoresEqual(m1: Store, m2: Store)
    requires forall k: string | k != "" :: AgreeOn(m1, m2, k)
    ensures m1 - {""} == m2 - {""}
  {
    assert forall k :: k in m1 - {""} ==> AgreeOn(m1, m2, k);
    assert forall k :: k in m2 - {""} ==> AgreeOn(m1, m2, k);
  }

  /** Rooms that saw the same entries for a key agree on it; rooms that saw the same entries
      under non-empty keys hold equal stores but for the empty key, which receivers ignore. */
  lemma RoomsConverge(run: seq<NetEvent>, maxPending: int, a: string, b: string)
    requires NetRun(Nobody, run, maxPending)
    requires a in NetExec(Nobody, run, maxPending).members && b in NetExec(Nobody, run, maxPending).members
    ensures var s := NetExec(Nobody, run, maxPending);
            var (x, y) := (s.members[a], s.members[b]);
            var (m1, m2) := (x.site.room.replica.state, y.site.room.replica.state);
            && (forall key | Convergence.About(x.seen, key) == Convergence.About(y.seen, key) :: AgreeOn(m1, m2, key))
            && (x.seen - Convergence.About(x.seen, "") == y.seen - Convergence.About(y.seen, "") ==> m1 - {""} == m2 - {""})
  {
    NetRunKeepsInv(Nobody, run, maxPending);
    var s := NetExec(Nobody, run, maxPending);
    var x, y := s.members[a], s.members[b];
    forall key | Convergence.About(x.seen, key) == Convergence.About(y.seen, key)
      ensures AgreeOn(x.site.room.replica.state, y.site.room.replica.state, key)
    {
      RoomsAgree(s, a, b, key);
    }
    if x.seen - Convergence.About(x.seen, "") == y.seen - Convergence.About(y.seen, "") {
      forall k: string | k != "" ensures Convergence.About(x.seen, k) == Convergence.About(y.seen, k) { SameAbout(x.seen, y.seen, k); }
      StoresEqual(x.site.room.replica.state, y.site.room.replica.state);
    }
  }

  lemma SameAbout(s1: set<Entry>, s2: set<Entry>, k: string)
    requires s1 - Convergence.About(s1, "") == s2 - Convergence.About(s2, "") && k != ""
    ensures Convergence.About(s1, k) == Convergence.About(s2, k)
  {
    forall e ensures e in Convergence.About(s1, k) <==> e in Convergence.About(s2, k) {
      assert e in s1 && e.key == k <==> e in s1 - Convergence.About(s1, "") && e.key == k;
      assert e in s2 && e.key == k <==> e in s2 - Convergence.About(s2, "") && e.key == k;
    }
  }

  /** A room holds, per key, exactly the greatest-stamped entry it ever wrote or took, in memory
      and on disk. */
  lemma RoomHoldsLatest(run: seq<NetEvent>, maxPending: int, n: string)
    requires NetRun(Nobody, run, maxPending) && n in NetExec(Nobody, run, maxPending).members
    ensures var m := NetExec(Nobody, run, maxPending).members[n];
            m.site.room.disk.state == m.site.room.replica.state && Replication.IsLatest(m.site.room.disk.state, m.seen)
  {
    NetRunKeepsInv(Nobody, run, maxPending);
    assert MemberInv(NetExec(Nobody, run, maxPending), n);
  }

  /** What a flush sends, and the operation of a write, are messages a room may send. */
  lemma FlushMaySay(s: Site, m: Message)
    requires SiteInv(s)
    requires || (m.StateMessage? && forall o <- m.entries :: o.Some? && o.value in s.room.replica.state.Values)
             || (exists id <- s.room.disk.pending :: m == SentOp(s.room.disk.pending[id]))
             || (exists e <- s.room.replica.state.Values :: Entries(m, s.room.replica.node) == [Some(e)])
    ensures MaySay(s, m)
  {
    if id :| id in s.room.disk.pending && m == SentOp(s.room.disk.pending[id]) {
      assert Entries(m, s.room.replica.node) == [Some(EntryOf(s.room.replica.node, s.room.disk.pending[id]))];
    }
  }
}
