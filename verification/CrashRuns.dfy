/**
 Crashes inside a handler of the offline room, after an entry is stored and before the clock
 is (packages/peer-client/src/offline-sync-room.ts, lines 125-126, 150-151 and 393-399).

 Such a crash leaves an entry on disk that the saved clock does not know of. `exposed` is
 history: the entries stored in this way since a clock was last saved.
 */
module CrashRuns {
  import opened Wrappers
  import opened Hlc
  import opened StateSync
  import opened OfflineRoom
  import opened OfflineRuns

  datatype Torn = Torn(site: Site, exposed: set<Entry>)

  datatype CrashEvent =
    | Handler(ev: Event)
    | CrashInWrite(key: string, value: Value, deleted: bool, now: int, constructed: int, initialised: int)
    | CrashInApply(entry: Entry, now: int, constructed: int, initialised: int)

  // ---- One step ----

  predicate Screened(es: seq<Option<Entry>>) {
    exists o <- es :: Screen(o).Some?
  }

  /** The handler saves the clock. */
  predicate Saves(room: Room, ev: Event) {
    !room.closed && (ev.LocalWrite? || ev.Shut? || (ev.RemoteMessage? && Screened(Entries(ev.m, ev.from))))
  }

  /** The disk as the crash leaves it: what the handler did, but for the clock. */
  function Unsaved(s: Site, hlc: Option<HLC>): Site {
    s.(room := s.room.(disk := s.room.disk.(hlc := hlc)))
  }

  function TearWrite(c: Torn, key: string, value: Value, deleted: bool, now: int): Torn
    requires !c.site.room.closed
  {
    var s := Step(c.site, LocalWrite(key, value, deleted, false, "", 0, now), 0);
    Torn(Unsaved(s, c.site.room.disk.hlc), c.exposed + {s.log[|c.site.log|]})
  }

  function TearApply(c: Torn, e: Entry, now: int): Torn {
    var s := c.site.(room := ApplyRemote(c.site.room, Some(e), now));
    Torn(Unsaved(s, c.site.room.disk.hlc), if Wins(c.site.room.disk.state, e) then c.exposed + {e} else c.exposed)
  }

  function Reopen(c: Torn, t1: int, t2: int): Torn {
    c.(site := Step(c.site, Restart(t1, t2), 0))
  }

  predicate CrashEnabled(c: Torn, ev: CrashEvent) {
    match ev
    case Handler(e) => Enabled(e)
    case CrashInWrite(_, _, _, _, _, _) => !c.site.room.closed
    case CrashInApply(e, _, _, _) => !c.site.room.closed && e.key != ""
  }

  function CrashStep(c: Torn, ev: CrashEvent, maxPending: int): Torn
    requires CrashEnabled(c, ev)
  {
    match ev
    case Handler(e) => Torn(Step(c.site, e, maxPending), if Saves(c.site.room, e) then {} else c.exposed)
    case CrashInWrite(key, value, deleted, now, t1, t2) => Reopen(TearWrite(c, key, value, deleted, now), t1, t2)
    case CrashInApply(e, now, t1, t2) => Reopen(TearApply(c, e, now), t1, t2)
  }

  ghost predicate CrashRun(c: Torn, run: seq<CrashEvent>, maxPending: int)
    decreases |run|
  {
    run == [] || (CrashEnabled(c, run[0]) && CrashRun(CrashStep(c, run[0], maxPending), run[1..], maxPending))
  }

  ghost function CrashExec(c: Torn, run: seq<CrashEvent>, maxPending: int): Torn
    requires CrashRun(c, run, maxPending)
    decreases |run|
  {
    if run == [] then c else CrashExec(CrashStep(c, run[0], maxPending), run[1..], maxPending)
  }

  // ---- When a restart is harmless ----

  /** The clock is ahead of every stored entry and every write so far. */
  ghost predicate Ahead(c: Torn) {
    Behind(c.site, c.site.room.replica.hlc)
  }

  predicate Held(s: Site, x: Entry) {
    x in s.room.replica.state.Values || x in s.log
  }

  /** The clock that a restart at these readings gives is no earlier than the entries that the
      saved clock may not know of. */
  ghost predicate Covered(c: Torn, t1: int, t2: int) {
    var clock := InitClock(HLC(t1, 0, c.site.room.replica.node), c.site.room.disk.hlc, t2);
    forall x <- c.exposed | Held(c.site, x) :: Compare(x.hlc, clock) <= 0
  }

  ghost predicate StepCovered(c: Torn, ev: CrashEvent)
    requires CrashEnabled(c, ev)
  {
    match ev
    case Handler(e) => e.Restart? ==> Covered(c, e.constructed, e.initialised)
    case CrashInWrite(key, value, deleted, now, t1, t2) => Covered(TearWrite(c, key, value, deleted, now), t1, t2)
    case CrashInApply(e, now, t1, t2) => Covered(TearApply(c, e, now), t1, t2)
  }

  // ---- The invariant ----

  /** What the saved clock does not dominate is exposed. */
  ghost predicate Accounted(c: Torn) {
    forall x | Held(c.site, x) :: x in c.exposed || Saved(c.site, x)
  }

  predicate Saved(s: Site, x: Entry) {
    s.room.disk.hlc.Some? && Compare(x.hlc, s.room.disk.hlc.value) <= 0
  }

  ghost predicate TornInv(c: Torn) {
    RoomInv(c.site) && Accounted(c)
  }

  lemma HeldIsBehind(s: Site, h: HLC)
    ensures Behind(s, h) <==> forall x | Held(s, x) :: Compare(x.hlc, h) <= 0
  {
    if Behind(s, h) {
      forall x | Held(s, x) ensures Compare(x.hlc, h) <= 0 {
        if x in s.room.replica.state.Values { var k :| k in s.room.replica.state && s.room.replica.state[k] == x; }
      }
    } else if k :| k in s.room.replica.state && Compare(s.room.replica.state[k].hlc, h) > 0 {
      assert Held(s, s.room.replica.state[k]);
    }
  }

  lemma {:induction false} ApplyAllKeepsRoom(s: Site, es: seq<Option<Entry>>, nows: seq<int>)
    requires RoomInv(s) && |es| == |nows|
    ensures var s' := s.(room := ApplyAll(s.room, es, nows));
            && RoomInv(s')
            && (if Screened(es) then s'.room.disk.hlc == Some(s'.room.replica.hlc) else s' == s)
  {
    if es != [] {
      var last := |es| - 1;
      var mid := s.(room := ApplyAll(s.room, es[..last], nows[..last]));
      assert es == es[..last] + [es[last]];
      ApplyAllKeepsRoom(s, es[..last], nows[..last]);
      if Screen(es[last]).Some? {
        ApplyKeepsRoom(mid, es[last].value, nows[last]);
        assert es[last] in es;
      }
    }
  }

  /** A saved clock that is the running one accounts for everything. */
  lemma SavedAccounts(c: Torn)
    requires RoomInv(c.site) && c.site.room.disk.hlc == Some(c.site.room.replica.hlc)
    ensures Accounted(c)
  {
    HeldIsBehind(c.site, c.site.room.replica.hlc);
  }

  lemma HandlerKeepsInv(c: Torn, e: Event, maxPending: int)
    requires TornInv(c) && Enabled(e) && !e.Restart?
    ensures TornInv(CrashStep(c, Handler(e), maxPending))
  {
    var c' := CrashStep(c, Handler(e), maxPending);
    match e {
      case LocalWrite(_, _, _, _, _, _, _) =>
        if !c.site.room.closed { WriteKeepsRoom(c.site, e, maxPending); }
      case RemoteMessage(m, from, nows) =>
        if !c.site.room.closed { ApplyAllKeepsRoom(c.site, Entries(m, from), nows); }
      case _ =>
    }
    if Saves(c.site.room, e) {
      SavedAccounts(c');
    } else {
      assert forall x | Held(c'.site, x) :: Held(c.site, x);
    }
  }

  lemma TearWriteKeepsInv(c: Torn, key: string, value: Value, deleted: bool, now: int)
    requires TornInv(c) && !c.site.room.closed
    ensures TornInv(TearWrite(c, key, value, deleted, now))
  {
    var ev := LocalWrite(key, value, deleted, false, "", 0, now);
    WriteKeepsRoom(c.site, ev, 0);
    var c' := TearWrite(c, key, value, deleted, now);
    var e := c'.site.log[|c.site.log|];
    assert c'.site.room.replica.state == c.site.room.replica.state[key := e];
    forall x | Held(c'.site, x) ensures x in c'.exposed || Saved(c'.site, x) {
      assert x == e || Held(c.site, x);
    }
  }

  lemma TearApplyKeepsInv(c: Torn, e: Entry, now: int)
    requires TornInv(c) && e.key != ""
    ensures TornInv(TearApply(c, e, now))
  {
    ApplyKeepsRoom(c.site, e, now);
    var c' := TearApply(c, e, now);
    assert c'.site.room.replica.state == Join(c.site.room.replica.state, e);
    forall x | Held(c'.site, x) ensures x in c'.exposed || Saved(c'.site, x) {
      assert Held(c.site, x) || (x == e && Wins(c.site.room.disk.state, e));
    }
  }

  /** A restart leaves the clock ahead if and only if it covers what is exposed. */
  lemma ReopenIff(c: Torn, t1: int, t2: int)
    requires TornInv(c)
    ensures Ahead(Reopen(c, t1, t2)) <==> Covered(c, t1, t2)
    ensures Covered(c, t1, t2) ==> TornInv(Reopen(c, t1, t2))
  {
    var c' := Reopen(c, t1, t2);
    Reopens(c.site, t1, t2);
    var clock := c'.site.room.replica.hlc;
    assert forall x :: Held(c'.site, x) <==> Held(c.site, x);
    HeldIsBehind(c'.site, clock);
    forall x | Held(c.site, x) && Saved(c.site, x) ensures Compare(x.hlc, clock) <= 0 {
      var h := c.site.room.disk.hlc.value;
      CompareTotal(h, clock);
      CompareTransitive(x.hlc, h, clock);
    }
  }

  lemma StepAheadIff(c: Torn, ev: CrashEvent, maxPending: int)
    requires TornInv(c) && CrashEnabled(c, ev)
    ensures Ahead(CrashStep(c, ev, maxPending)) <==> StepCovered(c, ev)
    ensures StepCovered(c, ev) ==> TornInv(CrashStep(c, ev, maxPending))
  {
    match ev {
      case Handler(e) =>
        if e.Restart? {
          ReopenIff(c, e.constructed, e.initialised);
        } else {
          HandlerKeepsInv(c, e, maxPending);
        }
      case CrashInWrite(key, value, deleted, now, t1, t2) =>
        TearWriteKeepsInv(c, key, value, deleted, now);
        ReopenIff(TearWrite(c, key, value, deleted, now), t1, t2);
      case CrashInApply(e, now, t1, t2) =>
        TearApplyKeepsInv(c, e, now);
        ReopenIff(TearApply(c, e, now), t1, t2);
    }
  }

  // ---- Whole runs ----

  ghost predicate AheadThroughout(c: Torn, run: seq<CrashEvent>, maxPending: int)
    requires CrashRun(c, run, maxPending)
    decreases |run|
  {
    Ahead(c) && (run != [] ==> AheadThroughout(CrashStep(c, run[0], maxPending), run[1..], maxPending))
  }

  ghost predicate CoveredThroughout(c: Torn, run: seq<CrashEvent>, maxPending: int)
    requires CrashRun(c, run, maxPending)
    decreases |run|
  {
    run == [] || (StepCovered(c, run[0]) && CoveredThroughout(CrashStep(c, run[0], maxPending), run[1..], maxPending))
  }

  lemma {:induction false} AheadFromIff(c: Torn, run: seq<CrashEvent>, maxPending: int)
    requires TornInv(c) && CrashRun(c, run, maxPending)
    ensures AheadThroughout(c, run, maxPending) <==> CoveredThroughout(c, run, maxPending)
    ensures CoveredThroughout(c, run, maxPending) ==> TornInv(CrashExec(c, run, maxPending))
    decreases |run|
  {
    if run != [] {
      StepAheadIff(c, run[0], maxPending);
      if StepCovered(c, run[0]) {
        AheadFromIff(CrashStep(c, run[0], maxPending), run[1..], maxPending);
      } else {
        assert !AheadThroughout(CrashStep(c, run[0], maxPending), run[1..], maxPending);
      }
    }
  }

  function NewRoom(node: string, now: int): Torn {
    Torn(Fresh(node, now), {})
  }

  /** Over a whole run with crashes anywhere in the middle of handlers, the clock is always ahead
      of the store and of every write if and only if each restart covers the entries exposed
      by crashes since a clock was last saved. */
  lemma AheadIff(node: string, now: int, run: seq<CrashEvent>, maxPending: int)
    requires CrashRun(NewRoom(node, now), run, maxPending)
    ensures AheadThroughout(NewRoom(node, now), run, maxPending) <==> CoveredThroughout(NewRoom(node, now), run, maxPending)
  {
    AheadFromIff(NewRoom(node, now), run, maxPending);
  }

  /** On such runs no stamp is issued twice or goes back, and every write, also one that a
      crash interrupted, is held or superseded on disk. */
  lemma CoveredRunsAreSafe(node: string, now: int, run: seq<CrashEvent>, maxPending: int)
    requires CrashRun(NewRoom(node, now), run, maxPending) && CoveredThroughout(NewRoom(node, now), run, maxPending)
    ensures var s := CrashExec(NewRoom(node, now), run, maxPending).site;
            && (forall i, j :: 0 <= i < j < |s.log| ==> Less(s.log[i].hlc, s.log[j].hlc))
            && (forall w <- s.log :: Superseded(w, s.room.disk.state))
  {
    AheadFromIff(NewRoom(node, now), run, maxPending);
  }

  /** After a restart some next write repeats the stamp of an earlier write `e`, or goes back
      behind it, if and only if the new clock is behind `e`. */
  lemma FallsBackIff(clock: HLC, e: Entry)
    requires e.hlc.node == clock.node
    ensures (exists now: int :: Compare(Create(clock.node, Some(clock), now), e.hlc) <= 0) <==> Less(clock, e.hlc)
  {
    assert Create(clock.node, Some(clock), clock.ts) == HLC(clock.ts, clock.counter + 1, clock.node);
    CompareTotal(e.hlc, e.hlc);
    if Less(clock, e.hlc) {
      assert Compare(Create(clock.node, Some(clock), clock.ts), e.hlc) <= 0;
    } else {
      forall now: int ensures Compare(Create(clock.node, Some(clock), now), e.hlc) > 0 {
        var next := Create(clock.node, Some(clock), now);
        CompareTotal(clock, e.hlc);
        CompareTotal(clock, next);
        CompareTransitive(e.hlc, clock, next);
        CompareTotal(e.hlc, next);
      }
    }
  }

  /** A crash in the first write of a room, a restart with an earlier wall clock, and a second
      write at the first one's time: two different entries with one stamp. */
  lemma StampRepeats(crash: CrashEvent, again: CrashEvent)
    requires crash == CrashInWrite("k", Json("1"), false, 100, 50, 50)
    requires again == Handler(LocalWrite("k", Json("2"), false, false, "op", 100, 100))
    ensures CrashEnabled(NewRoom("a", 0), crash) && !StepCovered(NewRoom("a", 0), crash)
    ensures CrashEnabled(CrashStep(NewRoom("a", 0), crash, 10), again)
    ensures var log := CrashStep(CrashStep(NewRoom("a", 0), crash, 10), again, 10).site.log;
            |log| == 2 && log[0].hlc == log[1].hlc == HLC(100, 0, "a") && log[0] != log[1]
  {
    var c0 := NewRoom("a", 0);
    var torn := TearWrite(c0, "k", Json("1"), false, 100);
    var e := Entry("k", Json("1"), HLC(100, 0, "a"), "a", 0, false);
    assert torn.site.log == [e] && torn.site.room.disk.hlc == None;
    assert InitClock(HLC(50, 0, "a"), None, 50) == HLC(50, 0, "a");
    assert e in torn.exposed && Held(torn.site, e) && Compare(e.hlc, HLC(50, 0, "a")) > 0;
    var c1 := CrashStep(c0, crash, 10);
    assert c1.site.room.replica.hlc == HLC(50, 0, "a") && c1.site.log == [e];
  }
}
