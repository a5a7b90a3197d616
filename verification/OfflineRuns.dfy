/**
 Runs of one offline room: local writes online and offline, remote messages, flushes,
 closing, and restarts at any point between two handlers, with the wall clock free to
 move backwards. `log` is history: every write the room accepted, refused by the pending
 limit or not.
 */
module OfflineRuns {
  import opened Wrappers
  import opened Hlc
  import opened StateSync
  import opened OfflineRoom
  import Replication

  datatype Site = Site(room: Room, log: seq<Entry>)

  datatype Event =
    | LocalWrite(key: string, value: Value, deleted: bool, connected: bool, id: string, ts: int, now: int)
    | RemoteMessage(m: Message, from: string, nows: seq<int>)
    | Network(online: bool)
    | Flush
    | Shut
    | Restart(constructed: int, initialised: int)

  function Fresh(node: string, now: int): Site {
    Site(Construct(node, now, Disk(map[], None, map[])), [])
  }

  predicate Enabled(ev: Event) {
    ev.RemoteMessage? ==> |ev.nows| == |Entries(ev.m, ev.from)|
  }

  function Step(s: Site, ev: Event, maxPending: int): Site
    requires Enabled(ev)
  {
    var room := s.room;
    match ev
    case LocalWrite(key, value, deleted, connected, id, ts, now) =>
      var room' := WriteRoom(room, key, value, deleted, connected, id, ts, maxPending, now);
      Site(room', if room.closed then s.log else s.log + [room'.replica.state[key]])
    case RemoteMessage(m, from, nows) => s.(room := HandleRoom(room, m, from, nows))
    case Network(online) => s.(room := room.(online := online))
    case Flush => s.(room := if room.online then room.(disk := room.disk.(pending := map[])) else room)
    case Shut => s.(room := CloseRoom(room))
    case Restart(t1, t2) => s.(room := Init(Construct(room.replica.node, t1, room.disk), t2))
  }

  function Exec(s: Site, run: seq<Event>, maxPending: int): Site
    requires forall ev <- run :: Enabled(ev)
    decreases |run|
  {
    if run == [] then s else Exec(Step(s, run[0], maxPending), run[1..], maxPending)
  }

  // ---- The invariant ----

  /** The store holds `e` itself or a strictly later entry for its key. */
  ghost predicate Superseded(e: Entry, state: Store) {
    e.key in state && (e == state[e.key] || Less(e.hlc, state[e.key].hlc))
  }

  /** Every stored entry and every logged write is stamped no later than `h`. */
  ghost predicate Behind(s: Site, h: HLC) {
    && Replication.Dominated(s.room.replica.state, h)
    && (forall w <- s.log :: Compare(w.hlc, h) <= 0)
  }

  /** What the disk guarantees to whoever opens it next. */
  ghost predicate SavedInv(s: Site) {
    match s.room.disk.hlc
    case None => s.room.replica.state == map[] && s.log == []
    case Some(h) => Behind(s, h)
  }

  /** What holds of a running room: its clock is ahead of the store and of every write. */
  ghost predicate RoomInv(s: Site) {
    var r := s.room.replica;
    && r.hlc.node == r.node && s.room.disk.state == r.state
    && (forall k <- r.state :: r.state[k].key == k)
    && Behind(s, r.hlc)
    && (forall w <- s.log :: Superseded(w, r.state) && w.hlc.node == r.node)
    && (forall id <- s.room.disk.pending :: EntryOf(r.node, s.room.disk.pending[id]) in s.log)
    && (forall i, j :: 0 <= i < j < |s.log| ==> Less(s.log[i].hlc, s.log[j].hlc))
  }

  ghost predicate SiteInv(s: Site) {
    RoomInv(s) && SavedInv(s)
  }

  lemma BehindGrows(s: Site, h: HLC, h': HLC)
    requires Behind(s, h) && Compare(h, h') <= 0
    ensures Behind(s, h')
  {
    forall k <- s.room.replica.state ensures Compare(s.room.replica.state[k].hlc, h') <= 0 {
      CompareTransitive(s.room.replica.state[k].hlc, h, h');
    }
    forall w <- s.log ensures Compare(w.hlc, h') <= 0 {
      CompareTransitive(w.hlc, h, h');
    }
  }

  lemma JoinSupersedes(state: Store, e: Entry, w: Entry)
    requires Superseded(w, state)
    ensures Superseded(w, Join(state, e))
  {
    if e.key == w.key && Wins(state, e) {
      CompareTotal(e.hlc, state[w.key].hlc);
      CompareTotal(w.hlc, state[w.key].hlc);
      CompareTotal(w.hlc, e.hlc);
      CompareTransitive(w.hlc, state[w.key].hlc, e.hlc);
    }
  }

  /** A remote entry that is applied: the room stays in order and its clock is saved. */
  lemma ApplyKeepsRoom(s: Site, e: Entry, now: int)
    requires RoomInv(s) && e.key != ""
    ensures var s' := s.(room := ApplyRemote(s.room, Some(e), now));
            RoomInv(s') && s'.room.disk.hlc == Some(s'.room.replica.hlc)
  {
    var r := s.room.replica;
    var s' := s.(room := ApplyRemote(s.room, Some(e), now));
    var h' := Merge(r.hlc, e.hlc, r.node, now);
    CompareTotal(r.hlc, h');
    BehindGrows(s, r.hlc, h');
    forall w <- s.log ensures Superseded(w, s'.room.replica.state) {
      JoinSupersedes(r.state, e, w);
    }
  }

  lemma ApplyKeepsInv(s: Site, remote: Option<Entry>, now: int)
    requires SiteInv(s)
    ensures SiteInv(s.(room := ApplyRemote(s.room, remote, now)))
  {
    if Screen(remote).Some? { ApplyKeepsRoom(s, remote.value, now); }
  }

  lemma {:induction false} ApplyAllKeepsInv(s: Site, remotes: seq<Option<Entry>>, nows: seq<int>)
    requires SiteInv(s) && |remotes| == |nows|
    ensures SiteInv(s.(room := ApplyAll(s.room, remotes, nows)))
  {
    if remotes != [] {
      var last := |remotes| - 1;
      ApplyAllKeepsInv(s, remotes[..last], nows[..last]);
      ApplyKeepsInv(s.(room := ApplyAll(s.room, remotes[..last], nows[..last])), remotes[last], nows[last]);
    }
  }

  /** A new write is stamped after all writes before it, and supersedes those of its key. */
  lemma WriteIsNewest(s: Site, key: string, value: Value, deleted: bool, now: int)
    requires RoomInv(s)
    ensures var e := WrittenEntry(s.room.replica, key, value, deleted, now);
            && (forall w <- s.log :: Less(w.hlc, e.hlc) && Superseded(w, s.room.replica.state[key := e]))
            && Replication.Dominated(s.room.replica.state[key := e], e.hlc)
  {
    var r := s.room.replica;
    var e := WrittenEntry(r, key, value, deleted, now);
    Replication.WriteIsJoin(r, key, value, deleted, now);
    Replication.WriteKeepsDominated(r, key, value, deleted, now);
    forall w <- s.log ensures Less(w.hlc, e.hlc) && Superseded(w, r.state[key := e]) {
      JoinSupersedes(r.state, e, w);
      CompareTransitive(w.hlc, r.hlc, e.hlc);
      CompareTotal(w.hlc, e.hlc);
    }
  }

  lemma WriteKeepsPending(s: Site, ev: Event, maxPending: int)
    requires RoomInv(s) && ev.LocalWrite? && !s.room.closed
    ensures var s' := Step(s, ev, maxPending);
            forall id <- s'.room.disk.pending ::
              EntryOf(s.room.replica.node, s'.room.disk.pending[id]) in s'.log
  {
    var s' := Step(s, ev, maxPending);
    var e := s'.log[|s.log|];
    assert EntryOf(s.room.replica.node, Op(ev.key, e.value, e.hlc, ev.deleted, ev.ts)) == e;
  }

  /** A write of an open room: the room stays in order and its clock is saved. */
  lemma WriteKeepsRoom(s: Site, ev: Event, maxPending: int)
    requires RoomInv(s) && ev.LocalWrite? && !s.room.closed
    ensures var s' := Step(s, ev, maxPending);
            RoomInv(s') && s'.room.disk.hlc == Some(s'.room.replica.hlc)
  {
    var s' := Step(s, ev, maxPending);
    var e := s'.log[|s.log|];
    assert e == WrittenEntry(s.room.replica, ev.key, ev.value, ev.deleted, ev.now);
    WriteIsNewest(s, ev.key, ev.value, ev.deleted, ev.now);
    WriteKeepsPending(s, ev, maxPending);
    CompareTotal(e.hlc, e.hlc);
    assert forall w <- s'.log :: w in s.log || w == e;
  }

  /** Closing saves the clock; reopening takes a clock ahead of the saved one, whatever the
      wall clock says. */
  lemma RestartKeepsInv(s: Site, t1: int, t2: int)
    requires SiteInv(s)
    ensures SiteInv(s.(room := CloseRoom(s.room)))
    ensures SiteInv(s.(room := Init(Construct(s.room.replica.node, t1, s.room.disk), t2)))
  {
    Reopens(s, t1, t2);
    if s.room.disk.hlc.Some? {
      var saved := s.room.disk.hlc.value;
      var clock := InitClock(HLC(t1, 0, s.room.replica.node), Some(saved), t2);
      CompareTotal(saved, clock);
      BehindGrows(s, saved, clock);
    }
  }

  /** Reopening gives back the store, on a new clock. */
  lemma Reopens(s: Site, t1: int, t2: int)
    requires s.room.disk.state == s.room.replica.state
    ensures var room := Init(Construct(s.room.replica.node, t1, s.room.disk), t2);
            && room.replica.state == room.disk.state == s.room.replica.state && room.disk == s.room.disk
            && room.replica.node == s.room.replica.node
            && room.replica.hlc == InitClock(HLC(t1, 0, s.room.replica.node), s.room.disk.hlc, t2)
            && room.replica.hlc.node == s.room.replica.node
  {
    assert map[] + s.room.disk.state == s.room.disk.state;
  }

  lemma StepKeepsInv(s: Site, ev: Event, maxPending: int)
    requires SiteInv(s) && Enabled(ev)
    ensures SiteInv(Step(s, ev, maxPending))
  {
    match ev {
      case LocalWrite(_, _, _, _, _, _, _) =>
        if !s.room.closed { WriteKeepsRoom(s, ev, maxPending); }
      case RemoteMessage(m, from, nows) =>
        if !s.room.closed { ApplyAllKeepsInv(s, Entries(m, from), nows); }
      case Shut => RestartKeepsInv(s, 0, 0);
      case Restart(t1, t2) => RestartKeepsInv(s, t1, t2);
      case _ =>
    }
  }

  lemma {:induction false} RunKeepsInv(s: Site, run: seq<Event>, maxPending: int)
    requires SiteInv(s) && forall ev <- run :: Enabled(ev)
    ensures SiteInv(Exec(s, run, maxPending))
    decreases |run|
  {
    if run != [] {
      assert run[0] in run;
      StepKeepsInv(s, run[0], maxPending);
      RunKeepsInv(Step(s, run[0], maxPending), run[1..], maxPending);
    }
  }

  ghost predicate Reached(s: Site, node: string, now: int, run: seq<Event>, maxPending: int) {
    && (forall ev <- run :: Enabled(ev))
    && s == Exec(Fresh(node, now), run, maxPending)
  }

  // ---- The queue ----

  lemma StepKeepsLimit(s: Site, ev: Event, maxPending: int)
    requires Enabled(ev) && |s.room.disk.pending| <= Max(0, maxPending)
    ensures |Step(s, ev, maxPending).room.disk.pending| <= Max(0, maxPending)
  {
    if ev.LocalWrite? && !s.room.closed {
      var e := WrittenEntry(s.room.replica, ev.key, ev.value, ev.deleted, ev.now);
      var pending := s.room.disk.pending;
      var pending' := pending[ev.id := Op(ev.key, e.value, e.hlc, ev.deleted, ev.ts)];
      assert pending'.Keys == pending.Keys + {ev.id};
      assert |pending'.Keys| <= |pending.Keys| + 1;
    } else if ev.RemoteMessage? {
      ApplyAllKeepsPending(s.room, Entries(ev.m, ev.from), ev.nows);
    }
  }

  lemma {:induction false} ApplyAllKeepsPending(room: Room, es: seq<Option<Entry>>, nows: seq<int>)
    requires |es| == |nows|
    ensures ApplyAll(room, es, nows).disk.pending == room.disk.pending
  {
    if es != [] { ApplyAllKeepsPending(room, es[..|es| - 1], nows[..|es| - 1]); }
  }

  lemma {:induction false} RunKeepsLimit(s: Site, run: seq<Event>, maxPending: int)
    requires |s.room.disk.pending| <= Max(0, maxPending) && forall ev <- run :: Enabled(ev)
    ensures |Exec(s, run, maxPending).room.disk.pending| <= Max(0, maxPending)
    decreases |run|
  {
    if run != [] {
      assert run[0] in run;
      StepKeepsLimit(s, run[0], maxPending);
      RunKeepsLimit(Step(s, run[0], maxPending), run[1..], maxPending);
    }
  }

  /** On every run the queue stays within its limit. */
  lemma QueueStaysWithinLimit(s: Site, node: string, now: int, run: seq<Event>, maxPending: int)
    requires Reached(s, node, now, run, maxPending)
    ensures |s.room.disk.pending| <= (if maxPending < 0 then 0 else maxPending)
  {
    RunKeepsLimit(Fresh(node, now), run, maxPending);
  }

  /** What an open room does with a write: it always stores it, with the value asked for, in
      memory and on disk; it queues it, as stored, exactly if it is offline or not connected
      and the queue is below its limit. Nothing else in the store or the queue changes. */
  lemma WriteEffect(s: Site, ev: Event, maxPending: int)
    requires ev.LocalWrite? && !s.room.closed
    ensures var s' := Step(s, ev, maxPending);
            var (state, pending) := (s'.room.replica.state, s.room.disk.pending);
            && ev.key in state && state[ev.key].key == ev.key && state[ev.key].deleted == ev.deleted
            && state[ev.key].value == (if ev.deleted then Undefined else ev.value)
            && state[ev.key].hlc == s'.room.replica.hlc && s'.log == s.log + [state[ev.key]]
            && state == s.room.replica.state[ev.key := state[ev.key]]
            && s'.room.disk.state == s.room.disk.state[ev.key := state[ev.key]]
            && (if (s.room.online && ev.connected) || |pending| >= maxPending then s'.room.disk.pending == pending
                else && s'.room.disk.pending.Keys == pending.Keys + {ev.id}
                     && (forall id <- pending | id != ev.id :: s'.room.disk.pending[id] == pending[id])
                     && EntryOf(s.room.replica.node, s'.room.disk.pending[ev.id]) == state[ev.key])
  {
  }

  /** A closed room ignores writes and messages: until it is reopened its store, its clock and
      what it saved stay as they are. */
  lemma {:induction false} ClosedStaysPut(s: Site, run: seq<Event>, maxPending: int)
    requires s.room.closed && forall ev <- run :: Enabled(ev) && !ev.Restart?
    ensures var s' := Exec(s, run, maxPending);
            && s'.room.closed && s'.room.replica == s.room.replica && s'.log == s.log
            && s'.room.disk.state == s.room.disk.state && s'.room.disk.hlc == s.room.disk.hlc
    decreases |run|
  {
    if run != [] {
      assert run[0] in run;
      ClosedStaysPut(Step(s, run[0], maxPending), run[1..], maxPending);
    }
  }

  /** An operation that reaches an open room: its entry is stored, in memory and on disk, exactly
      if it has a key and is later than what is there; the clock passes it and is saved. */
  lemma RemoteEffect(s: Site, key: string, value: Value, hlc: HLC, deleted: bool, from: string, now: int)
    requires !s.room.closed && s.room.disk.state == s.room.replica.state
    ensures var s' := Step(s, RemoteMessage(OpMessage(key, value, Some(hlc), deleted), from, [now]), 0);
            var (state, state') := (s.room.replica.state, s'.room.replica.state);
            var e := Entry(key, if deleted then Undefined else value, hlc, from, hlc.counter, deleted);
            && state' == s'.room.disk.state && s'.log == s.log && s'.room.disk.pending == s.room.disk.pending
            && state' == (if key != "" && (key !in state || Compare(hlc, state[key].hlc) > 0) then state[key := e] else state)
            && (key == "" ==> s' == s)
            && (key != "" ==> && s'.room.disk.hlc == Some(s'.room.replica.hlc)
                              && Advances(hlc, s'.room.replica.hlc) && Advances(s.room.replica.hlc, s'.room.replica.hlc))
  {
    var e := Entry(key, if deleted then Undefined else value, hlc, from, hlc.counter, deleted);
    assert [Some(e)][..0] == [] && [now][..0] == [];
    assert ApplyAll(s.room, [Some(e)], [now]) == ApplyRemote(s.room, Some(e), now);
  }

  /** A flush empties the queue exactly if the room is online, and changes nothing else; going
      online or offline changes nothing but that. */
  lemma FlushEffect(s: Site, online: bool, maxPending: int)
    ensures var f := Step(s, Flush, maxPending);
            && f.log == s.log && f.room.replica == s.room.replica && f.room.online == s.room.online
            && f.room.closed == s.room.closed && f.room.disk.state == s.room.disk.state && f.room.disk.hlc == s.room.disk.hlc
            && f.room.disk.pending == if s.room.online then map[] else s.room.disk.pending
    ensures var c := Step(s, Network(online), maxPending);
            && c.room.online == online && c.log == s.log && c.room.replica == s.room.replica
            && c.room.disk == s.room.disk && c.room.closed == s.room.closed
  {
  }

  /** Closing saves the clock and changes nothing else; reopening gives an open, offline room with
      the same store and queue. */
  lemma CloseAndReopen(s: Site, t1: int, t2: int, maxPending: int)
    requires s.room.disk.state == s.room.replica.state
    ensures var c := Step(s, Shut, maxPending);
            && c.room.closed && c.room.replica == s.room.replica && c.log == s.log
            && c.room.disk.state == s.room.disk.state && c.room.disk.pending == s.room.disk.pending
            && (!s.room.closed ==> c.room.disk.hlc == Some(s.room.replica.hlc))
    ensures var r := Step(s, Restart(t1, t2), maxPending);
            && !r.room.closed && !r.room.online && r.room.disk == s.room.disk && r.log == s.log
            && r.room.replica.state == s.room.replica.state && r.room.replica.node == s.room.replica.node
  {
    Reopens(s, t1, t2);
  }

  // ---- No offline write is lost ----

  /** Every accepted write, also one the pending limit refused, is superseded by the stored
      entry of its key, in memory and on disk; so is every operation waiting in the queue. */
  lemma NoWriteIsLost(s: Site, node: string, now: int, run: seq<Event>, maxPending: int)
    requires Reached(s, node, now, run, maxPending)
    ensures s.room.disk.state == s.room.replica.state
    ensures forall w <- s.log :: Superseded(w, s.room.disk.state)
    ensures forall id <- s.room.disk.pending ::
              Superseded(EntryOf(s.room.replica.node, s.room.disk.pending[id]), s.room.disk.state)
  {
    RunKeepsInv(Fresh(node, now), run, maxPending);
  }

  /** `es` is what one flush of `room` may arrive as: every stored entry, and pending
      operations, in any order and with any repetition. */
  ghost predicate FlushArrives(es: seq<Option<Entry>>, room: Room) {
    && (forall o <- es :: o.Some? && (o.value in room.disk.state.Values || Queued(o.value, room)))
    && (forall e <- room.disk.state.Values :: Some(e) in es)
  }

  ghost predicate Queued(e: Entry, room: Room) {
    exists id <- room.disk.pending :: e == EntryOf(room.replica.node, room.disk.pending[id])
  }

  /** Per key, the later of two stored entries; the first one if they tie. */
  function MergeStores(m: Store, n: Store): Store {
    map k | k in m.Keys + n.Keys ::
      if k in n && (k !in m || Compare(n[k].hlc, m[k].hlc) > 0) then n[k] else m[k]
  }

  function JoinScreened(m: Store, es: seq<Option<Entry>>): Store {
    if es == [] then m
    else
      var rest := JoinScreened(m, es[..|es| - 1]);
      match Screen(es[|es| - 1])
      case None => rest
      case Some(e) => Join(rest, e)
  }

  lemma {:induction false} ApplyAllState(room: Room, es: seq<Option<Entry>>, nows: seq<int>)
    requires |es| == |nows|
    ensures ApplyAll(room, es, nows).replica.state == JoinScreened(room.replica.state, es)
  {
    if es != [] {
      ApplyAllState(room, es[..|es| - 1], nows[..|es| - 1]);
    }
  }

  /** What a store is, on one key, after some of a flush arrived: either untouched because
      it was later already, or on its way to the flushed entry. */
  ghost predicate Between(m: Store, cur: Store, n: Store, k: string, arrived: bool) {
    if k !in n || (k in m && Compare(n[k].hlc, m[k].hlc) <= 0) then
      (k in cur <==> k in m) && (k in m ==> cur[k] == m[k])
    else
      && (arrived ==> k in cur && cur[k] == n[k])
      && (k in m ==> k in cur)
      && (k in cur ==> (k in m && cur[k] == m[k]) || cur[k] == n[k] || Less(cur[k].hlc, n[k].hlc))
  }

  lemma JoinStaysBetween(m: Store, cur: Store, n: Store, e: Entry, k: string, arrived: bool)
    requires Between(m, cur, n, k, arrived) && Superseded(e, n)
    ensures Between(m, Join(cur, e), n, k, arrived || (k == e.key && e == n[k]))
  {
    if k == e.key {
      CompareTotal(e.hlc, n[k].hlc);
      if k in m {
        CompareTotal(n[k].hlc, m[k].hlc);
        CompareTotal(e.hlc, m[k].hlc);
        if Compare(n[k].hlc, m[k].hlc) <= 0 { CompareTransitive(e.hlc, n[k].hlc, m[k].hlc); }
      }
      if k in cur { CompareTotal(cur[k].hlc, n[k].hlc); }
    }
  }

  lemma {:induction false} ArrivalsStayBetween(m: Store, n: Store, es: seq<Option<Entry>>, k: string)
    requires forall o <- es :: Screen(o).Some? ==> Superseded(o.value, n)
    ensures Between(m, JoinScreened(m, es), n, k, k in n && k != "" && n[k].key == k && Some(n[k]) in es)
  {
    if es != [] {
      var rest, o := es[..|es| - 1], es[|es| - 1];
      assert es == rest + [o];
      ArrivalsStayBetween(m, n, rest, k);
      if Screen(o).Some? {
        JoinStaysBetween(m, JoinScreened(m, rest), n, o.value, k,
                         k in n && k != "" && n[k].key == k && Some(n[k]) in rest);
      }
    }
  }

  lemma FlushSuperseded(s: Site, es: seq<Option<Entry>>)
    requires SiteInv(s) && FlushArrives(es, s.room)
    ensures forall o <- es :: Screen(o).Some? ==> Superseded(o.value, s.room.disk.state - {""})
  {
    forall o <- es | Screen(o).Some? ensures Superseded(o.value, s.room.disk.state - {""}) {
      if Queued(o.value, s.room) { assert o.value in s.log; }
    }
  }

  /** A receiver of the flush, whatever it held and however the flush arrives, ends with the
      later of its own and the flushed entry for every non-empty key: exactly what the full
      state alone would have given it. */
  lemma FlushMerges(s: Site, node: string, now: int, run: seq<Event>, maxPending: int,
                    receiver: Room, es: seq<Option<Entry>>, nows: seq<int>)
    requires Reached(s, node, now, run, maxPending)
    requires |es| == |nows| && FlushArrives(es, s.room)
    ensures ApplyAll(receiver, es, nows).replica.state
         == MergeStores(receiver.replica.state, s.room.disk.state - {""})
  {
    RunKeepsInv(Fresh(node, now), run, maxPending);
    FlushSuperseded(s, es);
    var m, n := receiver.replica.state, s.room.disk.state - {""};
    ApplyAllState(receiver, es, nows);
    var final := JoinScreened(m, es);
    forall k: string ensures k in final <==> k in MergeStores(m, n)
      ensures k in final ==> final[k] == MergeStores(m, n)[k]
    {
      ArrivalsStayBetween(m, n, es, k);
      if k in n { assert n[k] in s.room.disk.state.Values; }
    }
    assert final.Keys == MergeStores(m, n).Keys;
  }

  /** So a write made by this room, online or offline, refused or not, is known to every
      receiver of the flush, by itself or by a later entry, if and only if its key is not
      empty; under the empty key receivers keep what they had. */
  lemma FlushDeliversWrite(s: Site, node: string, now: int, run: seq<Event>, maxPending: int,
                           receiver: Room, es: seq<Option<Entry>>, nows: seq<int>, w: Entry)
    requires Reached(s, node, now, run, maxPending) && w in s.log
    requires |es| == |nows| && FlushArrives(es, s.room) && w.key !in receiver.replica.state
    ensures var final := ApplyAll(receiver, es, nows).replica.state;
            && (w.key in final <==> w.key != "")
            && (w.key in final ==> Compare(w.hlc, final[w.key].hlc) <= 0)
  {
    RunKeepsInv(Fresh(node, now), run, maxPending);
    FlushMerges(s, node, now, run, maxPending, receiver, es, nows);
    CompareTotal(w.hlc, w.hlc);
  }

  /** A room that writes under the empty key while offline, and a fresh room that receives its
      flush, full state and pending operation: the receiver never learns of the write. */
  lemma EmptyKeyIsDropped(s: Site, es: seq<Option<Entry>>)
    requires var write := LocalWrite("", Json("1"), false, false, "op", 5, 5);
             s == Exec(Fresh("a", 0), [write], 10)
    requires var e := Entry("", Json("1"), HLC(5, 0, "a"), "a", 0, false); es == [Some(e), Some(e)]
    ensures Reached(s, "a", 0, [LocalWrite("", Json("1"), false, false, "op", 5, 5)], 10)
    ensures s.log == [es[0].value] && s.room.disk.state == map["" := es[0].value] && |s.room.disk.pending| == 1
    ensures FlushArrives(es, s.room)
    ensures ApplyAll(Fresh("b", 0).room, es, [6, 6]).replica.state == map[]
  {
    var write := LocalWrite("", Json("1"), false, false, "op", 5, 5);
    assert [write][1..] == [];
    assert s == Step(Fresh("a", 0), write, 10);
    var receiver := Fresh("b", 0).room;
    assert es[..1] == [es[0]] && [6, 6][..1] == [6] && [es[0]][..0] == [] && [6][..0] == [];
    assert ApplyAll(receiver, [es[0]], [6]) == receiver;
  }

  lemma FlushStampsAtLeast(s: Site, node: string, now: int, run: seq<Event>, maxPending: int,
                           receiver: Room, es: seq<Option<Entry>>, nows: seq<int>, w: Entry)
    requires Reached(s, node, now, run, maxPending) && w in s.log && w.key != ""
    requires |es| == |nows| && FlushArrives(es, s.room)
    ensures var final := ApplyAll(receiver, es, nows).replica.state;
            w.key in final && Compare(w.hlc, final[w.key].hlc) <= 0
  {
    RunKeepsInv(Fresh(node, now), run, maxPending);
    FlushMerges(s, node, now, run, maxPending, receiver, es, nows);
    var m, n := receiver.replica.state, s.room.disk.state;
    CompareTotal(w.hlc, w.hlc);
    if w.key in m {
      CompareTotal(n[w.key].hlc, m[w.key].hlc);
      CompareTransitive(w.hlc, n[w.key].hlc, n[w.key].hlc);
      if Compare(n[w.key].hlc, m[w.key].hlc) <= 0 {
        CompareTransitive(w.hlc, n[w.key].hlc, m[w.key].hlc);
      }
    }
  }

  /** What `flushPendingOps` sends is such an arrival, for any listing of the queue. */
  lemma FlushSendsArrival(room: Room, entries: seq<Option<Entry>>, ids: seq<string>)
    requires Lists(entries, room.disk.state) && forall id <- ids :: id in room.disk.pending
    ensures FlushArrives(entries + OpEntries(room.replica.node, OpsOf(room.disk.pending, ids)), room)
  {
    OpEntriesQueued(room, ids);
  }

  lemma {:induction false} OpEntriesQueued(room: Room, ids: seq<string>)
    requires forall id <- ids :: id in room.disk.pending
    ensures forall o <- OpEntries(room.replica.node, OpsOf(room.disk.pending, ids)) :: o.Some? && Queued(o.value, room)
  {
    if ids != [] {
      var last := |ids| - 1;
      var ops := OpsOf(room.disk.pending, ids);
      assert ids[last] in ids;
      OpEntriesQueued(room, ids[..last]);
      assert ops[..last] == OpsOf(room.disk.pending, ids[..last]);
    }
  }

  // ---- Restarts ----

  /** Stamps strictly increase over the whole life of a room, restarts included: none is
      ever issued twice. */
  lemma NoStampIsReissued(s: Site, node: string, now: int, run: seq<Event>, maxPending: int, i: nat, j: nat)
    requires Reached(s, node, now, run, maxPending) && i < j < |s.log|
    ensures Less(s.log[i].hlc, s.log[j].hlc)
  {
    RunKeepsInv(Fresh(node, now), run, maxPending);
  }

  /** Right after any restart the clock is strictly ahead of every reloaded entry, so the
      next local write wins locally as well as everywhere else. */
  lemma RestartedClockDominates(s: Site, node: string, now: int, run: seq<Event>, maxPending: int,
                                t1: int, t2: int, key: string, value: Value, deleted: bool, t3: int)
    requires Reached(s, node, now, run, maxPending)
    ensures var r := Step(s, Restart(t1, t2), maxPending).room.replica;
            && r.state == s.room.replica.state
            && (forall k <- r.state :: Less(r.state[k].hlc, r.hlc))
            && Write(r, key, value, deleted, t3).state == Join(r.state, WrittenEntry(r, key, value, deleted, t3))
  {
    RunKeepsInv(Fresh(node, now), run, maxPending);
    var s' := Step(s, Restart(t1, t2), maxPending);
    RestartKeepsInv(s, t1, t2);
    Replication.WriteIsJoin(s'.room.replica, key, value, deleted, t3);
    assert s'.room.replica.state == s.room.replica.state;
    if s.room.disk.hlc.Some? {
      Replication.AdvancesDominates(s.room.replica.state, s.room.disk.hlc.value, s'.room.replica.hlc);
    }
  }

  /** For an arbitrary disk, not only one a room left behind: the reloaded clock is no
      earlier than every entry, whatever the wall clock says, exactly if the entries are no
      later than one step past the saved clock; with no saved clock, only if there are none. */
  lemma InitDominatesIff(node: string, disk: Disk)
    ensures (forall t1: int, t2: int ::
               Replication.Dominated(disk.state, InitClock(HLC(t1, 0, node), disk.hlc, t2)))
       <==> match disk.hlc
            case None => disk.state == map[]
            case Some(h) => Replication.Dominated(disk.state, HLC(h.ts, h.counter + 1, node))
  {
    match disk.hlc {
      case None =>
        if k :| k in disk.state {
          var t := disk.state[k].hlc.ts - 1;
          assert !Replication.Dominated(disk.state, InitClock(HLC(t, 0, node), disk.hlc, t));
        }
      case Some(h) =>
        var least := HLC(h.ts, h.counter + 1, node);
        assert InitClock(HLC(h.ts - 1, 0, node), disk.hlc, h.ts - 1) == least;
        if Replication.Dominated(disk.state, least) {
          forall t1: int, t2: int
            ensures Replication.Dominated(disk.state, InitClock(HLC(t1, 0, node), disk.hlc, t2))
          {
            var clock := InitClock(HLC(t1, 0, node), disk.hlc, t2);
            CompareTotal(least, clock);
            forall k <- disk.state ensures Compare(disk.state[k].hlc, clock) <= 0 {
              CompareTransitive(disk.state[k].hlc, least, clock);
            }
          }
        }
    }
  }

  /** A crash inside a handler, after the entry is stored and before the clock is, leaves
      such a disk: reopened with an earlier wall clock, the room overwrites its own entry
      with one that every other replica will reject. */
  lemma CrashInsideWrite(node: string, e: Entry)
    requires e == WrittenEntry(Start(node, 100), "k", Json("1"), false, 100)
    ensures var r := Init(Construct(node, 50, Disk(map["k" := e], None, map[])), 50).replica;
            var w := WrittenEntry(r, "k", Json("2"), false, 50);
            && Write(r, "k", Json("2"), false, 50).state["k"] == w
            && Join(map["k" := e], w) == map["k" := e] && w != e
  {
  }
}
