/**
 What every run of the replicas guarantees: convergence, unique stamps, the clock
 condition and the bound on clock drift.
 */
module Convergence {
  import opened Wrappers
  import opened Hlc
  import opened StateSync
  import opened Replication

  // ---- Convergence ----

  /** The entries of `seen` for one key. */
  function About(seen: set<Entry>, key: string): set<Entry> {
    set e <- seen | e.key == key
  }

  /** In a system without two writes under one stamp, a stamp identifies its entry. */
  lemma StampIdentifies(log: seq<LogItem>, a: Entry, b: Entry)
    requires DistinctStamps(log) && a in Logged(log) && b in Logged(log) && a.hlc == b.hlc
    ensures a == b
  {
    var v :| v in log && v.entry == a;
    var w :| w in log && w.entry == b;
    var i :| 0 <= i < |log| && log[i] == v;
    var j :| 0 <= j < |log| && log[j] == w;
  }

  lemma LatestIsUnique(log: seq<LogItem>, m1: Store, s1: set<Entry>, m2: Store, s2: set<Entry>, key: string)
    requires DistinctStamps(log) && s1 <= Logged(log) && s2 <= Logged(log)
    requires IsLatest(m1, s1) && IsLatest(m2, s2) && About(s1, key) == About(s2, key)
    ensures key in m1 <==> key in m2
    ensures key in m1 ==> m1[key] == m2[key]
  {
    if key in m1 {
      assert m1[key] in About(s1, key);
    }
    if key in m2 {
      assert m2[key] in About(s2, key);
    }
    if key in m1 && key in m2 {
      CompareTotal(m1[key].hlc, m2[key].hlc);
      StampIdentifies(log, m1[key], m2[key]);
    }
  }

  /** A replica holds, per key, exactly the greatest-stamped entry it ever wrote or
      received, whatever the order, duplication or loss of messages. */
  lemma ReplicaHoldsLatest(run: seq<Event>, n: string)
    requires ValidRun(Empty, run) && n in Exec(Empty, run).nodes
    ensures var node := Exec(Empty, run).nodes[n]; IsLatest(node.replica.state, node.seen)
  {
    RunKeepsInv(Empty, run);
    assert NodeInv(Exec(Empty, run), n);
  }

  /** Replicas that have seen the same entries for a key agree on it, and replicas that
      have seen the same entries hold equal maps. */
  lemma ReplicasConverge(run: seq<Event>, a: string, b: string, key: string)
    requires ValidRun(Empty, run) && a in Exec(Empty, run).nodes && b in Exec(Empty, run).nodes
    ensures var s := Exec(Empty, run);
            var (x, y) := (s.nodes[a], s.nodes[b]);
            && (About(x.seen, key) == About(y.seen, key) ==>
                  && (key in x.replica.state <==> key in y.replica.state)
                  && (key in x.replica.state ==> x.replica.state[key] == y.replica.state[key]))
            && (x.seen == y.seen ==> x.replica.state == y.replica.state)
  {
    var s := Exec(Empty, run);
    var x, y := s.nodes[a], s.nodes[b];
    RunKeepsInv(Empty, run);
    assert NodeInv(s, a) && NodeInv(s, b);
    if About(x.seen, key) == About(y.seen, key) {
      LatestIsUnique(s.log, x.replica.state, x.seen, y.replica.state, y.seen, key);
    }
    if x.seen == y.seen {
      forall k: string
        ensures k in x.replica.state <==> k in y.replica.state
        ensures k in x.replica.state ==> x.replica.state[k] == y.replica.state[k]
      {
        LatestIsUnique(s.log, x.replica.state, x.seen, y.replica.state, y.seen, k);
      }
      assert x.replica.state.Keys == y.replica.state.Keys;
    }
  }

  /** A replica that every write reached holds the last write of each key in the system. */
  lemma AllDelivered(run: seq<Event>, n: string)
    requires ValidRun(Empty, run) && n in Exec(Empty, run).nodes
    requires Logged(Exec(Empty, run).log) <= Exec(Empty, run).nodes[n].seen
    ensures var s := Exec(Empty, run); IsLatest(s.nodes[n].replica.state, Logged(s.log))
  {
    RunKeepsInv(Empty, run);
    assert NodeInv(Exec(Empty, run), n);
  }

  lemma StepKeepsSeen(s: System, ev: Event, n: string)
    requires Enabled(s, ev) && n in s.nodes
    ensures n in Step(s, ev).nodes && s.nodes[n].seen <= Step(s, ev).nodes[n].seen
  {
  }

  /** From any point of a run on, the stamp stored under a key never goes back. */
  lemma {:induction false} StoredStampsGrow(s: System, run: seq<Event>, n: string, key: string)
    requires Inv(s) && ValidRun(s, run) && n in s.nodes && key in s.nodes[n].replica.state
    ensures var s' := Exec(s, run);
            && n in s'.nodes && key in s'.nodes[n].replica.state
            && Compare(s.nodes[n].replica.state[key].hlc, s'.nodes[n].replica.state[key].hlc) <= 0
    decreases |run|
  {
    var e := s.nodes[n].replica.state[key];
    CompareTotal(e.hlc, e.hlc);
    if run != [] {
      var s1 := Step(s, run[0]);
      StepKeepsInv(s, run[0]);
      StepKeepsSeen(s, run[0], n);
      assert NodeInv(s, n) && NodeInv(s1, n);
      assert e in s1.nodes[n].seen && e.key == key;
      StoredStampsGrow(s1, run[1..], n, key);
      CompareTransitive(e.hlc, s1.nodes[n].replica.state[key].hlc,
                        Exec(s, run).nodes[n].replica.state[key].hlc);
    }
  }

  // ---- Stamps ----

  /** No two writes of a run share a stamp. */
  lemma StampsAreUnique(run: seq<Event>, i: nat, j: nat)
    requires ValidRun(Empty, run) && i < j < |Exec(Empty, run).log|
    ensures var log := Exec(Empty, run).log; log[i].entry.hlc != log[j].entry.hlc
  {
    RunKeepsInv(Empty, run);
  }

  /** The clock condition: what a writer had written, or had learnt of through updates,
      deletes and snapshots, has a strictly smaller stamp than what it writes. */
  lemma ClockCondition(run: seq<Event>, i: nat, e: Entry)
    requires ValidRun(Empty, run) && i < |Exec(Empty, run).log| && e in Exec(Empty, run).log[i].past
    ensures Less(e.hlc, Exec(Empty, run).log[i].entry.hlc)
  {
    RunKeepsInv(Empty, run);
    assert LogItemInv(Exec(Empty, run), Exec(Empty, run).log[i]);
  }

  /** Every stamp of the system, in a clock, a store, a message or the log, carries a
      physical reading that was taken, and a counter within the number of clock updates. */
  lemma ClockDrift(run: seq<Event>)
    requires ValidRun(Empty, run)
    ensures var s := Exec(Empty, run);
            && (forall n <- s.nodes :: ClockWithin(s.nodes[n].replica.hlc, n, s.readings, s.steps))
            && (forall n <- s.nodes :: StampsWithin(s.nodes[n].replica.state.Values, s.readings, s.steps))
            && (forall p <- s.net :: StampsWithin(Present(Carried(p.payload)), s.readings, s.steps))
            && StampsWithin(Logged(s.log), s.readings, s.steps)
  {
    var s := Exec(Empty, run);
    RunKeepsInv(Empty, run);
    forall n <- s.nodes
      ensures ClockWithin(s.nodes[n].replica.hlc, n, s.readings, s.steps)
      ensures s.nodes[n].replica.state.Values <= Logged(s.log)
    {
      assert NodeInv(s, n);
    }
    forall p <- s.net ensures Present(Carried(p.payload)) <= Logged(s.log) {
      assert PacketInv(s, p);
    }
    forall w <- s.log ensures w.entry.hlc.ts in s.readings && w.entry.hlc.counter <= s.steps {
      assert LogItemInv(s, w);
    }
  }

  // ---- What `past` covers ----

  ghost predicate PastInv(s: System) {
    && Remembers(s)
    && (forall i :: 0 <= i < |s.log| ==> OwnPast(s, i))
  }

  /** Nodes remember all they saw, and messages all they carry. */
  ghost predicate Remembers(s: System) {
    && (forall n <- s.nodes :: s.nodes[n].seen <= s.nodes[n].past)
    && (forall p <- s.net :: Present(Carried(p.payload)) <= p.past)
  }

  /** The writer of `log[i]` remembers it, also in each of its later writes. */
  ghost predicate OwnPast(s: System, i: int)
    requires 0 <= i < |s.log|
  {
    var n := s.log[i].entry.hlc.node;
    && n in s.nodes && s.log[i].entry in s.nodes[n].past
    && (forall j :: i < j < |s.log| && s.log[j].entry.hlc.node == n ==> s.log[i].entry in s.log[j].past)
  }

  lemma WriteKeepsOwnPast(s: System, n: string, key: string, value: Value, deleted: bool, now: int)
    requires n in s.nodes && NodeInv(s, n)
    requires forall i :: 0 <= i < |s.log| ==> OwnPast(s, i)
    ensures var s' := Step(s, LocalWrite(n, key, value, deleted, now));
            forall i :: 0 <= i < |s'.log| ==> OwnPast(s', i)
  {
    var s' := Step(s, LocalWrite(n, key, value, deleted, now));
    forall i | 0 <= i < |s'.log| ensures OwnPast(s', i) {
      if i < |s.log| { assert OwnPast(s, i); }
    }
  }

  /** Events other than writes leave the log alone and only add to what nodes know. */
  lemma OthersKeepOwnPast(s: System, s': System)
    requires s'.log == s.log
    requires forall n <- s.nodes :: n in s'.nodes && s.nodes[n].past <= s'.nodes[n].past
    requires forall i :: 0 <= i < |s.log| ==> OwnPast(s, i)
    ensures forall i :: 0 <= i < |s'.log| ==> OwnPast(s', i)
  {
    forall i | 0 <= i < |s'.log| ensures OwnPast(s', i) {
      assert OwnPast(s, i);
    }
  }

  lemma StepRemembers(s: System, ev: Event)
    requires Remembers(s) && Enabled(s, ev)
    requires ev.Share? ==> NodeInv(s, ev.node)
    ensures Remembers(Step(s, ev))
  {
    if ev.LocalWrite? {
      OpCarries(WrittenEntry(s.nodes[ev.node].replica, ev.key, ev.value, ev.deleted, ev.now));
    } else if ev.Share? {
      assert Present(ev.entries) <= s.nodes[ev.node].seen;
    }
  }

  lemma OthersOnlyLearn(s: System, ev: Event)
    requires Enabled(s, ev) && !ev.LocalWrite?
    ensures var s' := Step(s, ev);
            && s'.log == s.log
            && (forall n <- s.nodes :: n in s'.nodes && s.nodes[n].past <= s'.nodes[n].past)
  {
  }

  lemma StepKeepsPast(s: System, ev: Event)
    requires PastInv(s) && Enabled(s, ev)
    requires ev.node in s.nodes ==> NodeInv(s, ev.node)
    ensures PastInv(Step(s, ev))
  {
    StepRemembers(s, ev);
    if ev.LocalWrite? {
      WriteKeepsOwnPast(s, ev.node, ev.key, ev.value, ev.deleted, ev.now);
    } else {
      OthersOnlyLearn(s, ev);
      OthersKeepOwnPast(s, Step(s, ev));
    }
  }

  lemma {:induction false} RunKeepsPast(s: System, run: seq<Event>)
    requires Inv(s) && PastInv(s) && ValidRun(s, run)
    ensures PastInv(Exec(s, run))
    decreases |run|
  {
    if run != [] {
      StepKeepsInv(s, run[0]);
      StepKeepsPast(s, run[0]);
      RunKeepsPast(Step(s, run[0]), run[1..]);
    }
  }

  /** The writes of one node carry strictly increasing stamps, even if its physical clock
      moves backwards. */
  lemma OwnWritesIncrease(run: seq<Event>, i: nat, j: nat)
    requires ValidRun(Empty, run) && i < j < |Exec(Empty, run).log|
    requires var log := Exec(Empty, run).log; log[i].entry.hlc.node == log[j].entry.hlc.node
    ensures var log := Exec(Empty, run).log; Less(log[i].entry.hlc, log[j].entry.hlc)
  {
    RunKeepsPast(Empty, run);
    assert OwnPast(Exec(Empty, run), i);
    ClockCondition(run, j, Exec(Empty, run).log[i].entry);
  }

  /** A node remembers what it received, so a later write of it is stamped after all of it. */
  lemma ReceivedComesBefore(run: seq<Event>, n: string, e: Entry, now: int)
    requires ValidRun(Empty, run) && n in Exec(Empty, run).nodes && e in Exec(Empty, run).nodes[n].seen
    ensures Less(e.hlc, Create(n, Some(Exec(Empty, run).nodes[n].replica.hlc), now))
  {
    RunKeepsInv(Empty, run);
    RunKeepsPast(Empty, run);
    NextStamp(Exec(Empty, run), n, now);
  }

  // ---- Requests for state carry no stamp ----

  /** A `request_state` message also tells its receiver that its sender is there, but it
      carries no stamp: here a node writes after hearing from the writer of an earlier
      entry and still stamps its own entry before it. */
  lemma RequestStateOrdersNothing() returns (run: seq<Event>)
    ensures ValidRun(Empty, run)
    ensures var log := Exec(Empty, run).log;
            && |log| == 2 && log[0].entry in log[1].heard
            && Less(log[1].entry.hlc, log[0].entry.hlc)
  {
    var boot1, boot2 := Boot("a", 10), Boot("b", 0);
    var write1, ask := LocalWrite("a", "k", Json("1"), false, 10), Ask("a");
    var s2 := Step(Step(Empty, boot1), boot2);
    var s3 := Step(s2, write1);
    var deliver := Deliver("b", Packet(RequestState, {}, s3.nodes["a"].heard), []);
    var write2 := LocalWrite("b", "k", Json("2"), false, 0);
    var s4 := Step(s3, ask);
    var s5 := Step(s4, deliver);
    run := [write2];
    assert ValidRun(Step(s5, write2), []);
    run := RunCons(s5, write2, []);
    run := RunCons(s4, deliver, run);
    run := RunCons(s3, ask, run);
    run := RunCons(s2, write1, run);
    run := RunCons(Step(Empty, boot1), boot2, run);
    run := RunCons(Empty, boot1, run);
    assert s5.nodes["b"].replica.hlc == HLC(0, 0, "b");
  }

  lemma RunCons(s: System, ev: Event, rest: seq<Event>) returns (run: seq<Event>)
    requires Enabled(s, ev) && ValidRun(Step(s, ev), rest)
    ensures run == [ev] + rest && ValidRun(s, run) && Exec(s, run) == Exec(Step(s, ev), rest)
  {
    run := [ev] + rest;
    assert run[1..] == rest;
  }

  ghost predicate NoRequestDelivered(run: seq<Event>) {
    forall ev <- run :: ev.Deliver? ==> !ev.packet.payload.RequestState?
  }

  ghost predicate HeardIsPast(s: System) {
    && (forall n <- s.nodes :: s.nodes[n].heard == s.nodes[n].past)
    && (forall p <- s.net :: p.payload.RequestState? || p.heard == p.past)
    && (forall w <- s.log :: w.heard == w.past)
  }

  lemma {:induction false} RunHeardIsPast(s: System, run: seq<Event>)
    requires HeardIsPast(s) && ValidRun(s, run) && NoRequestDelivered(run)
    ensures HeardIsPast(Exec(s, run))
    decreases |run|
  {
    if run != [] {
      assert run[0] in run;
      RunHeardIsPast(Step(s, run[0]), run[1..]);
    }
  }

  /** Every write is stamped after everything its writer had heard of, through messages of
      every kind. */
  ghost predicate HeardFirst(log: seq<LogItem>) {
    forall w <- log :: HeardBefore(w)
  }

  ghost predicate HeardBefore(w: LogItem) {
    forall e <- w.heard :: Less(e.hlc, w.entry.hlc)
  }

  /** What a node knows of through state requests only is before the stamp it takes now. */
  ghost predicate RequestsBefore(node: Node, n: string, now: int) {
    forall e <- node.heard - node.past :: Less(e.hlc, Create(n, Some(node.replica.hlc), now))
  }

  /** So it is at every write of a run. */
  ghost predicate WritesFollowRequests(s: System, run: seq<Event>)
    requires ValidRun(s, run)
    decreases |run|
  {
    run == [] ||
    (&& (run[0].LocalWrite? ==> RequestsBefore(s.nodes[run[0].node], run[0].node, run[0].now))
     && WritesFollowRequests(Step(s, run[0]), run[1..]))
  }

  lemma WriteHeardIff(s: System, ev: Event)
    requires Inv(s) && Enabled(s, ev)
    ensures HeardFirst(Step(s, ev).log)
       <==> HeardFirst(s.log) && (ev.LocalWrite? ==> RequestsBefore(s.nodes[ev.node], ev.node, ev.now))
  {
    if ev.LocalWrite? {
      var node, log' := s.nodes[ev.node], Step(s, ev).log;
      assert NodeInv(s, ev.node);
      NextStamp(s, ev.node, ev.now);
      var w := log'[|s.log|];
      assert HeardBefore(w) <==> RequestsBefore(node, ev.node, ev.now);
      assert forall v <- s.log :: v in log';
      assert forall v <- log' :: v in s.log || v == w;
    }
  }

  lemma {:induction false} HeardFirstFromIff(s: System, run: seq<Event>)
    requires Inv(s) && ValidRun(s, run)
    ensures HeardFirst(Exec(s, run).log) <==> HeardFirst(s.log) && WritesFollowRequests(s, run)
    decreases |run|
  {
    if run != [] {
      StepKeepsInv(s, run[0]);
      WriteHeardIff(s, run[0]);
      HeardFirstFromIff(Step(s, run[0]), run[1..]);
    }
  }

  /** Over a whole run, the clock condition holds for messages of every kind if and only if at
      each write whatever its node heard of through state requests only is already before
      the stamp it is about to take. */
  lemma HeardFirstIff(run: seq<Event>)
    requires ValidRun(Empty, run)
    ensures HeardFirst(Exec(Empty, run).log) <==> WritesFollowRequests(Empty, run)
  {
    HeardFirstFromIff(Empty, run);
  }

  /** Where no `request_state` is delivered, the clock condition holds for messages of
      every kind. */
  lemma ClockConditionWithoutRequests(run: seq<Event>, i: nat, e: Entry)
    requires ValidRun(Empty, run) && NoRequestDelivered(run)
    requires i < |Exec(Empty, run).log| && e in Exec(Empty, run).log[i].heard
    ensures Less(e.hlc, Exec(Empty, run).log[i].entry.hlc)
  {
    RunHeardIsPast(Empty, run);
    ClockCondition(run, i, e);
  }
}
