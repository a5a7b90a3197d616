/**
 Any number of last-writer-wins replicas exchanging messages over a network that may
 reorder, duplicate and lose them (packages/peer-client/src/sync.ts, lines 39-276).

 A run is a sequence of events. A message stays in `net` once sent, so it can be
 delivered any number of times, in any order, to any replica, or never. Clock readings
 are arbitrary integers chosen by each event. Fields named in the comments as history
 are never read by a replica: they record what happened, so that theorems can speak of it.
 */
module Replication {
  import opened Wrappers
  import opened Hlc
  import opened StateSync

  /** history: `past` is what the sender had written or learnt from stored entries when it
      sent the message; `heard` is the same through messages of every kind. */
  datatype Packet = Packet(payload: Payload, past: set<Entry>, heard: set<Entry>)

  /** history: `seen` holds the entries written or received here. */
  datatype Node = Node(replica: Replica, seen: set<Entry>, past: set<Entry>, heard: set<Entry>)

  /** history: one local write, with what its writer knew just before. */
  datatype LogItem = LogItem(entry: Entry, past: set<Entry>, heard: set<Entry>)

  /** history: `log` lists the writes in order, `readings` the clock readings taken,
      `steps` counts the clock updates. */
  datatype System = System(nodes: map<string, Node>, net: set<Packet>,
                           log: seq<LogItem>, readings: set<int>, steps: nat)

  datatype Event =
    | Boot(node: string, now: int)
    | LocalWrite(node: string, key: string, value: Value, deleted: bool, now: int)
    | Share(node: string, entries: seq<Option<Entry>>)
    | Ask(node: string)
    | Deliver(node: string, packet: Packet, nows: seq<int>)
    | Load(node: string, loaded: seq<Option<Entry>>, nows: seq<int>)

  const Empty := System(map[], {}, [], {}, 0)

  function Present(entries: seq<Option<Entry>>): set<Entry> {
    set o <- entries | o.Some? :: o.value
  }

  function Logged(log: seq<LogItem>): set<Entry> {
    set w <- log :: w.entry
  }

  /** What has to hold for an event to happen. Node identifiers are distinct, a snapshot
      lists the store, and `loadState` is given entries that were written in this system. */
  ghost predicate Enabled(s: System, ev: Event) {
    match ev
    case Boot(n, _) => n !in s.nodes
    case LocalWrite(n, _, _, _, _) => n in s.nodes
    case Share(n, es) => n in s.nodes && es != [] && Lists(es, s.nodes[n].replica.state)
    case Ask(n) => n in s.nodes
    case Deliver(n, p, nows) => n in s.nodes && p in s.net && |nows| == |Carried(p.payload)|
    case Load(n, es, nows) => n in s.nodes && |nows| == |es| && Present(es) <= Logged(s.log)
  }

  function Step(s: System, ev: Event): System
    requires Enabled(s, ev)
  {
    match ev
    case Boot(n, now) =>
      s.(nodes := s.nodes[n := Node(Start(n, now), {}, {}, {})], readings := s.readings + {now})
    case LocalWrite(n, key, value, deleted, now) =>
      var node := s.nodes[n];
      var e := WrittenEntry(node.replica, key, value, deleted, now);
      var node' := Node(Write(node.replica, key, value, deleted, now),
                        node.seen + {e}, node.past + {e}, node.heard + {e});
      var payload := if deleted then DeleteOp(Some(e)) else UpdateOp(Some(e));
      System(s.nodes[n := node'], s.net + {Packet(payload, node'.past, node'.heard)},
             s.log + [LogItem(e, node.past, node.heard)], s.readings + {now}, s.steps + 1)
    case Share(n, es) =>
      s.(net := s.net + {Packet(FullState(es), s.nodes[n].past, s.nodes[n].heard)})
    case Ask(n) =>
      s.(net := s.net + {Packet(RequestState, {}, s.nodes[n].heard)})
    case Deliver(n, p, nows) =>
      Absorb(s, n, Carried(p.payload), nows, p.past, p.heard)
    case Load(n, es, nows) =>
      Absorb(s, n, es, nows, Present(es), Present(es))
  }

  /** Node `n` receives entries that carry the given knowledge. */
  function Absorb(s: System, n: string, es: seq<Option<Entry>>, nows: seq<int>,
                  past: set<Entry>, heard: set<Entry>): System
    requires n in s.nodes && |es| == |nows|
  {
    var node := s.nodes[n];
    var node' := Node(ReceiveAll(node.replica, es, nows),
                      node.seen + Present(es), node.past + past, node.heard + heard);
    s.(nodes := s.nodes[n := node'], readings := s.readings + Readings(es, nows), steps := s.steps + Ticks(es))
  }

  /** The clock is read and moved once for every entry with a stamp. */
  function Readings(es: seq<Option<Entry>>, nows: seq<int>): set<int>
    requires |es| == |nows|
  {
    if es == [] then {}
    else
      var last := |es| - 1;
      Readings(es[..last], nows[..last]) + (if es[last].Some? then {nows[last]} else {})
  }

  function Ticks(es: seq<Option<Entry>>): nat {
    if es == [] then 0 else Ticks(es[..|es| - 1]) + (if es[|es| - 1].Some? then 1 else 0)
  }

  ghost predicate ValidRun(s: System, run: seq<Event>)
    decreases |run|
  {
    run == [] || (Enabled(s, run[0]) && ValidRun(Step(s, run[0]), run[1..]))
  }

  ghost function Exec(s: System, run: seq<Event>): System
    requires ValidRun(s, run)
    decreases |run|
  {
    if run == [] then s else Exec(Step(s, run[0]), run[1..])
  }

  // ---- Facts about one store ----

  /** `state` holds, for every key, the greatest-stamped entry of `seen` and nothing else. */
  ghost predicate IsLatest(state: Store, seen: set<Entry>) {
    && (forall k <- state :: state[k] in seen && state[k].key == k)
    && (forall e <- seen :: e.key in state && Compare(e.hlc, state[e.key].hlc) <= 0)
  }

  /** Receiving one entry is a join: the store stays the latest of what was seen. */
  lemma JoinKeepsLatest(state: Store, seen: set<Entry>, e: Entry)
    requires IsLatest(state, seen)
    ensures IsLatest(Join(state, e), seen + {e})
  {
    CompareTotal(e.hlc, e.hlc);
    if e.key in state {
      var cur := state[e.key];
      CompareTotal(e.hlc, cur.hlc);
      forall x <- seen | x.key == e.key && Wins(state, e)
        ensures Compare(x.hlc, e.hlc) <= 0
      {
        CompareTransitive(x.hlc, cur.hlc, e.hlc);
      }
    }
  }

  /** No stored entry is later than `stamp`. */
  ghost predicate Dominated(state: Store, stamp: HLC) {
    forall k <- state :: Compare(state[k].hlc, stamp) <= 0
  }

  lemma AdvancesDominates(state: Store, was: HLC, stamp: HLC)
    requires Dominated(state, was) && Advances(was, stamp)
    ensures forall k <- state :: Compare(state[k].hlc, stamp) < 0
  {
    forall k <- state
      ensures Compare(state[k].hlc, stamp) < 0
    {
      CompareTotal(state[k].hlc, stamp);
      CompareTransitive(state[k].hlc, was, stamp);
    }
  }

  /** The local overwrite, which compares nothing, is the same join, because the clock
      dominates every stored entry. */
  lemma WriteIsJoin(r: Replica, key: string, value: Value, deleted: bool, now: int)
    requires Dominated(r.state, r.hlc)
    ensures var e := WrittenEntry(r, key, value, deleted, now);
            Write(r, key, value, deleted, now).state == Join(r.state, e)
  {
    var e := WrittenEntry(r, key, value, deleted, now);
    AdvancesDominates(r.state, r.hlc, e.hlc);
    if key in r.state {
      CompareTotal(r.state[key].hlc, e.hlc);
    }
  }

  lemma WriteKeepsDominated(r: Replica, key: string, value: Value, deleted: bool, now: int)
    requires Dominated(r.state, r.hlc)
    ensures var r' := Write(r, key, value, deleted, now); Dominated(r'.state, r'.hlc)
  {
    var e := WrittenEntry(r, key, value, deleted, now);
    AdvancesDominates(r.state, r.hlc, e.hlc);
    CompareTotal(e.hlc, e.hlc);
  }

  lemma ReceiveKeepsDominated(r: Replica, e: Entry, now: int)
    requires Dominated(r.state, r.hlc)
    ensures var r' := Receive(r, e, now); Dominated(r'.state, r'.hlc)
  {
    AdvancesDominates(r.state, r.hlc, Merge(r.hlc, e.hlc, r.node, now));
  }

  lemma {:induction false} ReceiveAllKeeps(r: Replica, es: seq<Option<Entry>>, nows: seq<int>, seen: set<Entry>)
    requires |es| == |nows|
    requires IsLatest(r.state, seen) && Dominated(r.state, r.hlc)
    ensures var r' := ReceiveAll(r, es, nows);
            && r'.node == r.node
            && IsLatest(r'.state, seen + Present(es)) && Dominated(r'.state, r'.hlc)
  {
    if es == [] {
      assert seen + Present(es) == seen;
    } else {
      var last := |es| - 1;
      ReceiveAllKeeps(r, es[..last], nows[..last], seen);
      var mid := ReceiveAll(r, es[..last], nows[..last]);
      assert es == es[..last] + [es[last]];
      if es[last].Some? {
        var e := es[last].value;
        JoinKeepsLatest(mid.state, seen + Present(es[..last]), e);
        ReceiveKeepsDominated(mid, e, nows[last]);
        assert seen + Present(es) == seen + Present(es[..last]) + {e};
      } else {
        assert Present(es) == Present(es[..last]);
      }
    }
  }

  /** Some entry of `cover` has a stamp at least as great as that of `e`. */
  ghost predicate CoveredBy(e: Entry, cover: set<Entry>) {
    exists x <- cover :: Compare(e.hlc, x.hlc) <= 0
  }

  ghost predicate Covered(past: set<Entry>, cover: set<Entry>) {
    forall e <- past :: CoveredBy(e, cover)
  }

  /** A store that is the latest of `seen` covers all that part of `seen` covers. */
  lemma LatestCovers(state: Store, seen: set<Entry>, cover: set<Entry>, past: set<Entry>)
    requires IsLatest(state, seen) && cover <= seen && Covered(past, cover)
    ensures Covered(past, state.Values)
  {
    forall e <- past
      ensures CoveredBy(e, state.Values)
    {
      var x :| x in cover && Compare(e.hlc, x.hlc) <= 0;
      CompareTransitive(e.hlc, x.hlc, state[x.key].hlc);
      assert state[x.key] in state.Values;
    }
  }

  /** The clock is later than everything the node knows of. */
  lemma ClockCovers(state: Store, stamp: HLC, past: set<Entry>)
    requires Dominated(state, stamp) && Covered(past, state.Values)
    ensures forall e <- past :: Compare(e.hlc, stamp) <= 0
  {
    forall e <- past
      ensures Compare(e.hlc, stamp) <= 0
    {
      var x :| x in state.Values && Compare(e.hlc, x.hlc) <= 0;
      var k :| k in state && state[k] == x;
      CompareTransitive(e.hlc, x.hlc, stamp);
    }
  }

  /** Where a clock can stand after `es` were received at readings `nows`. */
  ghost predicate ClockWithin(stamp: HLC, node: string, readings: set<int>, steps: nat) {
    stamp.node == node && stamp.ts in readings && stamp.counter <= steps
  }

  ghost predicate StampsWithin(entries: set<Entry>, readings: set<int>, steps: nat) {
    forall e <- entries :: e.hlc.ts in readings && e.hlc.counter <= steps
  }

  lemma {:induction false} ReceiveAllClock(r: Replica, es: seq<Option<Entry>>, nows: seq<int>,
                                           readings: set<int>, steps: nat)
    requires |es| == |nows|
    requires ClockWithin(r.hlc, r.node, readings, steps)
    requires StampsWithin(Present(es), readings, steps)
    ensures var r' := ReceiveAll(r, es, nows);
            && r'.node == r.node
            && Compare(r.hlc, r'.hlc) <= 0
            && ClockWithin(r'.hlc, r.node, readings + Readings(es, nows), steps + Ticks(es))
  {
    CompareTotal(r.hlc, r.hlc);
    if es != [] {
      var last := |es| - 1;
      assert es == es[..last] + [es[last]];
      ReceiveAllClock(r, es[..last], nows[..last], readings, steps);
      var mid := ReceiveAll(r, es[..last], nows[..last]);
      var r' := ReceiveAll(r, es, nows);
      if es[last].Some? {
        assert es[last].value in Present(es);
        CompareTotal(mid.hlc, r'.hlc);
        CompareTransitive(r.hlc, mid.hlc, r'.hlc);
      }
    }
  }

  // ---- The system invariant ----

  ghost predicate NodeInv(s: System, n: string)
    requires n in s.nodes
  {
    var node := s.nodes[n];
    && node.replica.node == n
    && IsLatest(node.replica.state, node.seen)
    && Dominated(node.replica.state, node.replica.hlc)
    && Covered(node.past, node.replica.state.Values)
    && node.seen <= Logged(s.log)
    && ClockWithin(node.replica.hlc, n, s.readings, s.steps)
  }

  ghost predicate PacketInv(s: System, p: Packet) {
    var carried := Present(Carried(p.payload));
    carried <= Logged(s.log) && Covered(p.past, carried)
  }

  /** A logged write: its stamp is not ahead of its node's clock, and ahead of its past. */
  ghost predicate LogItemInv(s: System, w: LogItem) {
    && w.entry.hlc.node in s.nodes
    && Compare(w.entry.hlc, s.nodes[w.entry.hlc.node].replica.hlc) <= 0
    && (forall e <- w.past :: Less(e.hlc, w.entry.hlc))
    && w.entry.hlc.ts in s.readings && w.entry.hlc.counter <= s.steps
  }

  ghost predicate DistinctStamps(log: seq<LogItem>) {
    forall i, j :: 0 <= i < j < |log| ==> log[i].entry.hlc != log[j].entry.hlc
  }

  ghost predicate Inv(s: System) {
    && (forall n <- s.nodes :: NodeInv(s, n))
    && (forall p <- s.net :: PacketInv(s, p))
    && (forall w <- s.log :: LogItemInv(s, w))
    && DistinctStamps(s.log)
  }

  lemma LoggedWithin(s: System, es: seq<Option<Entry>>)
    requires Inv(s) && Present(es) <= Logged(s.log)
    ensures StampsWithin(Present(es), s.readings, s.steps)
  {
    forall e <- Present(es)
      ensures e.hlc.ts in s.readings && e.hlc.counter <= s.steps
    {
      assert e in Logged(s.log);
      var w :| w in s.log && w.entry == e;
      assert LogItemInv(s, w);
    }
  }

  /** What every event does to the rest of the system: logs extend, clocks move forward. */
  ghost predicate Grows(s: System, s': System) {
    && s.log <= s'.log && s.readings <= s'.readings && s.steps <= s'.steps
    && (forall n <- s.nodes :: n in s'.nodes && ClockMoves(s.nodes[n], s'.nodes[n]))
  }

  predicate ClockMoves(before: Node, after: Node) {
    Compare(before.replica.hlc, after.replica.hlc) <= 0
  }

  lemma GrowsKeepsNode(s: System, s': System, n: string)
    requires Inv(s) && Grows(s, s') && n in s.nodes && s'.nodes[n] == s.nodes[n]
    ensures NodeInv(s', n)
  {
    assert NodeInv(s, n);
  }

  lemma GrowsKeepsPacket(s: System, s': System, p: Packet)
    requires Inv(s) && Grows(s, s') && p in s.net
    ensures PacketInv(s', p)
  {
    assert PacketInv(s, p);
  }

  lemma GrowsKeepsLogItem(s: System, s': System, w: LogItem)
    requires Inv(s) && Grows(s, s') && w in s.log
    ensures LogItemInv(s', w)
  {
    assert LogItemInv(s, w);
    var n := w.entry.hlc.node;
    CompareTransitive(w.entry.hlc, s.nodes[n].replica.hlc, s'.nodes[n].replica.hlc);
  }

  /** The invariant is kept when what is new satisfies its part of it. */
  lemma GrowsKeepsInv(s: System, s': System, n: string)
    requires Inv(s) && Grows(s, s') && n in s'.nodes && NodeInv(s', n)
    requires forall m <- s'.nodes :: m == n || (m in s.nodes && s'.nodes[m] == s.nodes[m])
    requires forall p <- s'.net :: p in s.net || PacketInv(s', p)
    requires forall w <- s'.log :: w in s.log || LogItemInv(s', w)
    requires DistinctStamps(s'.log)
    ensures Inv(s')
  {
    forall m <- s'.nodes | m != n ensures NodeInv(s', m) { GrowsKeepsNode(s, s', m); }
    forall p <- s'.net | p in s.net ensures PacketInv(s', p) { GrowsKeepsPacket(s, s', p); }
    forall w <- s'.log | w in s.log ensures LogItemInv(s', w) { GrowsKeepsLogItem(s, s', w); }
  }

  lemma UnchangedClocks(s: System, n: string)
    ensures forall m <- s.nodes | m != n :: ClockMoves(s.nodes[m], s.nodes[m])
  {
    forall m <- s.nodes | m != n ensures ClockMoves(s.nodes[m], s.nodes[m]) {
      CompareTotal(s.nodes[m].replica.hlc, s.nodes[m].replica.hlc);
    }
  }

  /** The part of AbsorbKeepsInv that looks at the receiving node alone. */
  lemma AbsorbKeepsNode(s: System, n: string, es: seq<Option<Entry>>, nows: seq<int>,
                        past: set<Entry>, heard: set<Entry>)
    requires n in s.nodes && |es| == |nows| && NodeInv(s, n)
    requires StampsWithin(Present(es), s.readings, s.steps)
    requires Present(es) <= Logged(s.log) && Covered(past, Present(es))
    ensures var s' := Absorb(s, n, es, nows, past, heard);
            NodeInv(s', n) && ClockMoves(s.nodes[n], s'.nodes[n])
  {
    var node := s.nodes[n];
    var node' := Absorb(s, n, es, nows, past, heard).nodes[n];
    ReceiveAllKeeps(node.replica, es, nows, node.seen);
    ReceiveAllClock(node.replica, es, nows, s.readings, s.steps);
    LatestCovers(node'.replica.state, node'.seen, Present(es), past);
    assert node.replica.state.Values <= node.seen;
    LatestCovers(node'.replica.state, node'.seen, node.replica.state.Values, node.past);
  }

  lemma AbsorbKeepsInv(s: System, n: string, es: seq<Option<Entry>>, nows: seq<int>,
                       past: set<Entry>, heard: set<Entry>)
    requires Inv(s) && n in s.nodes && |es| == |nows|
    requires Present(es) <= Logged(s.log) && Covered(past, Present(es))
    ensures Inv(Absorb(s, n, es, nows, past, heard))
  {
    LoggedWithin(s, es);
    AbsorbKeepsNode(s, n, es, nows, past, heard);
    UnchangedClocks(s, n);
    GrowsKeepsInv(s, Absorb(s, n, es, nows, past, heard), n);
  }

  lemma BootKeepsInv(s: System, n: string, now: int)
    requires Inv(s) && Enabled(s, Boot(n, now))
    ensures Inv(Step(s, Boot(n, now)))
  {
    UnchangedClocks(s, n);
    GrowsKeepsInv(s, Step(s, Boot(n, now)), n);
  }

  lemma SendKeepsInv(s: System, n: string, p: Packet)
    requires Inv(s) && n in s.nodes && PacketInv(s, p)
    ensures Inv(s.(net := s.net + {p}))
  {
    var s' := s.(net := s.net + {p});
    UnchangedClocks(s, n);
    CompareTotal(s.nodes[n].replica.hlc, s.nodes[n].replica.hlc);
    GrowsKeepsNode(s, s', n);
    GrowsKeepsInv(s, s', n);
  }

  lemma ShareKeepsInv(s: System, n: string, es: seq<Option<Entry>>)
    requires Inv(s) && Enabled(s, Share(n, es))
    ensures Inv(Step(s, Share(n, es)))
  {
    var node := s.nodes[n];
    assert NodeInv(s, n);
    assert Present(es) == node.replica.state.Values;
    assert node.replica.state.Values <= node.seen;
    SendKeepsInv(s, n, Packet(FullState(es), node.past, node.heard));
  }

  /** The stamp a node takes next is later than all it knows of and shared by no write. */
  lemma NextStamp(s: System, n: string, now: int)
    requires Inv(s) && n in s.nodes
    ensures var stamp := Create(n, Some(s.nodes[n].replica.hlc), now);
            && (forall e <- s.nodes[n].past :: Less(e.hlc, stamp))
            && (forall w <- s.log :: w.entry.hlc != stamp)
  {
    var node := s.nodes[n];
    var stamp := Create(n, Some(node.replica.hlc), now);
    assert NodeInv(s, n);
    ClockCovers(node.replica.state, node.replica.hlc, node.past);
    forall e <- node.past ensures Less(e.hlc, stamp) {
      CompareTransitive(e.hlc, node.replica.hlc, stamp);
      CompareTotal(e.hlc, stamp);
    }
    forall w <- s.log ensures w.entry.hlc != stamp {
      assert LogItemInv(s, w);
      CompareTotal(w.entry.hlc, node.replica.hlc);
    }
  }

  /** The part of WriteKeepsInv that looks at the writing node alone. */
  lemma WriteKeepsNode(node: Node, key: string, value: Value, deleted: bool, now: int)
    requires IsLatest(node.replica.state, node.seen) && Dominated(node.replica.state, node.replica.hlc)
    requires Covered(node.past, node.replica.state.Values)
    ensures var r' := Write(node.replica, key, value, deleted, now);
            var e := WrittenEntry(node.replica, key, value, deleted, now);
            && IsLatest(r'.state, node.seen + {e}) && Dominated(r'.state, r'.hlc)
            && Covered(node.past + {e}, {e}) && Covered(node.past + {e}, r'.state.Values)
            && Compare(node.replica.hlc, r'.hlc) <= 0
  {
    var e := WrittenEntry(node.replica, key, value, deleted, now);
    var r' := Write(node.replica, key, value, deleted, now);
    WriteIsJoin(node.replica, key, value, deleted, now);
    JoinKeepsLatest(node.replica.state, node.seen, e);
    WriteKeepsDominated(node.replica, key, value, deleted, now);
    ClockCovers(node.replica.state, node.replica.hlc, node.past);
    CompareTotal(e.hlc, e.hlc);
    forall x <- node.past + {e} ensures CoveredBy(x, {e}) {
      if x != e { CompareTransitive(x.hlc, node.replica.hlc, e.hlc); }
      assert e in {e};
    }
    LatestCovers(r'.state, node.seen + {e}, {e}, node.past + {e});
  }

  lemma LoggedAppend(log: seq<LogItem>, w: LogItem)
    ensures Logged(log + [w]) == Logged(log) + {w.entry}
  {
    assert (log + [w])[|log|] == w;
    forall e <- Logged(log) ensures e in Logged(log + [w]) {
      var v :| v in log && v.entry == e;
      assert v in log + [w];
    }
  }

  lemma WriteKeepsWriter(s: System, s': System, n: string, key: string, value: Value, deleted: bool, now: int)
    requires n in s.nodes && NodeInv(s, n) && s' == Step(s, LocalWrite(n, key, value, deleted, now))
    ensures NodeInv(s', n) && ClockMoves(s.nodes[n], s'.nodes[n])
  {
    var node := s.nodes[n];
    var e := WrittenEntry(node.replica, key, value, deleted, now);
    WriteKeepsNode(node, key, value, deleted, now);
    assert Logged(s'.log) == Logged(s.log) + {e} by {
      LoggedAppend(s.log, LogItem(e, node.past, node.heard));
    }
    assert s'.nodes[n] == Node(Write(node.replica, key, value, deleted, now), node.seen + {e}, node.past + {e}, node.heard + {e});
    assert ClockWithin(e.hlc, n, s'.readings, s'.steps);
  }

  lemma OpCarries(e: Entry)
    ensures Present(Carried(UpdateOp(Some(e)))) == Present(Carried(DeleteOp(Some(e)))) == {e}
  {
    assert Some(e) in [Some(e)];
  }

  lemma WriteAddsPacket(s: System, s': System, n: string, key: string, value: Value, deleted: bool, now: int)
    requires n in s.nodes && NodeInv(s, n) && s' == Step(s, LocalWrite(n, key, value, deleted, now))
    ensures forall p <- s'.net :: p in s.net || PacketInv(s', p)
  {
    var node := s.nodes[n];
    var e := WrittenEntry(node.replica, key, value, deleted, now);
    WriteKeepsNode(node, key, value, deleted, now);
    assert e in Logged(s'.log) by { LoggedAppend(s.log, LogItem(e, node.past, node.heard)); }
    OpCarries(e);
  }

  lemma WriteAddsItem(s: System, s': System, n: string, key: string, value: Value, deleted: bool, now: int)
    requires Inv(s) && n in s.nodes && s' == Step(s, LocalWrite(n, key, value, deleted, now))
    ensures forall w <- s'.log :: w in s.log || LogItemInv(s', w)
    ensures DistinctStamps(s'.log)
  {
    NextStamp(s, n, now);
    var e := s'.log[|s.log|].entry;
    CompareTotal(e.hlc, e.hlc);
    assert NodeInv(s, n);
  }

  lemma WriteKeepsInv(s: System, n: string, key: string, value: Value, deleted: bool, now: int)
    requires Inv(s) && n in s.nodes
    ensures Inv(Step(s, LocalWrite(n, key, value, deleted, now)))
  {
    var s' := Step(s, LocalWrite(n, key, value, deleted, now));
    assert NodeInv(s, n);
    WriteKeepsWriter(s, s', n, key, value, deleted, now);
    WriteAddsPacket(s, s', n, key, value, deleted, now);
    WriteAddsItem(s, s', n, key, value, deleted, now);
    UnchangedClocks(s, n);
    assert s'.nodes.Keys == s.nodes.Keys;
    assert Grows(s, s');
    GrowsKeepsInv(s, s', n);
  }

  lemma StepKeepsInv(s: System, ev: Event)
    requires Inv(s) && Enabled(s, ev)
    ensures Inv(Step(s, ev))
  {
    match ev {
      case Boot(n, now) => BootKeepsInv(s, n, now);
      case LocalWrite(n, key, value, deleted, now) => WriteKeepsInv(s, n, key, value, deleted, now);
      case Share(n, es) => ShareKeepsInv(s, n, es);
      case Ask(n) => SendKeepsInv(s, n, Packet(RequestState, {}, s.nodes[n].heard));
      case Deliver(n, p, nows) =>
        assert PacketInv(s, p);
        AbsorbKeepsInv(s, n, Carried(p.payload), nows, p.past, p.heard);
      case Load(n, es, nows) =>
        LoadCovers(es);
        AbsorbKeepsInv(s, n, es, nows, Present(es), Present(es));
    }
  }

  lemma LoadCovers(es: seq<Option<Entry>>)
    ensures Covered(Present(es), Present(es))
  {
    forall e <- Present(es) ensures CoveredBy(e, Present(es)) {
      CompareTotal(e.hlc, e.hlc);
    }
  }

  lemma {:induction false} RunKeepsInv(s: System, run: seq<Event>)
    requires Inv(s) && ValidRun(s, run)
    ensures Inv(Exec(s, run))
    decreases |run|
  {
    if run != [] {
      StepKeepsInv(s, run[0]);
      RunKeepsInv(Step(s, run[0]), run[1..]);
    }
  }
}
