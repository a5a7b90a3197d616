/**
 The offline-first room (packages/peer-client/src/offline-sync-room.ts) in lww mode with
 encryption disabled: a replica with a persistent store, a bounded queue of operations
 made while offline, a batched flush, and restarts. IndexedDB is three maps.
 */
module OfflineRoom {
  import opened Wrappers
  import opened Hlc
  import opened StateSync

  /** A queued operation; `ts` is the physical time it was queued at. */
  datatype Op = Op(key: string, value: Value, hlc: HLC, deleted: bool, ts: int)

  /** What survives a restart: the `state`, `meta` and `pending` object stores. */
  datatype Disk = Disk(state: Store, hlc: Option<HLC>, pending: map<string, Op>)

  datatype Room = Room(replica: Replica, online: bool, closed: bool, disk: Disk)

  /** Messages of a room. An operation without a stamp has `hlc` None. */
  datatype Message =
    | OpMessage(key: string, value: Value, hlc: Option<HLC>, deleted: bool)
    | StateMessage(entries: seq<Option<Entry>>)
    | StateRequest

  // ---- The handlers as functions ----

  /** The constructor: a clock of its own, nothing loaded yet. */
  function Construct(node: string, now: int, disk: Disk): Room {
    Room(Start(node, now), false, false, disk)
  }

  function InitClock(clock: HLC, saved: Option<HLC>, now: int): HLC {
    match saved
    case None => clock
    case Some(h) => Merge(clock, h, clock.node, now)
  }

  /** `init`: merge the saved clock, load the saved entries. */
  function Init(room: Room, now: int): Room {
    room.(replica := Replica(room.replica.node, InitClock(room.replica.hlc, room.disk.hlc, now),
                             room.replica.state + room.disk.state))
  }

  /** `queueOperation`: at the limit the operation is refused. */
  function Enqueue(pending: map<string, Op>, id: string, op: Op, maxPending: int): map<string, Op> {
    if |pending| >= maxPending then pending else pending[id := op]
  }

  /** `set` and `delete`. `connected` is the client's; `id` and `ts` name a queued operation. */
  function WriteRoom(room: Room, key: string, value: Value, deleted: bool, connected: bool,
                     id: string, ts: int, maxPending: int, now: int): Room
  {
    if room.closed then room
    else
      var r' := Write(room.replica, key, value, deleted, now);
      var e := r'.state[key];
      var pending := if room.online && connected then room.disk.pending
                     else Enqueue(room.disk.pending, id, Op(key, e.value, e.hlc, deleted, ts), maxPending);
      room.(replica := r', disk := Disk(room.disk.state[key := e], Some(r'.hlc), pending))
  }

  /** An entry without a key, or without a stamp, is ignored by `applyRemoteEntry`. */
  function Screen(remote: Option<Entry>): Option<Entry> {
    if remote.Some? && remote.value.key == "" then None else remote
  }

  function ApplyRemote(room: Room, remote: Option<Entry>, now: int): Room {
    match Screen(remote)
    case None => room
    case Some(e) =>
      var r' := Receive(room.replica, e, now);
      room.(replica := r', disk := Disk(Join(room.disk.state, e), Some(r'.hlc), room.disk.pending))
  }

  function ApplyAll(room: Room, remotes: seq<Option<Entry>>, nows: seq<int>): Room
    requires |remotes| == |nows|
  {
    if remotes == [] then room
    else
      var last := |remotes| - 1;
      ApplyRemote(ApplyAll(room, remotes[..last], nows[..last]), remotes[last], nows[last])
  }

  /** The entry that a receiver makes of an operation sent by `from`. */
  function OpEntry(from: string, key: string, value: Value, hlc: HLC, deleted: bool): Entry {
    Entry(key, if deleted then Undefined else value, hlc, from, hlc.counter, deleted)
  }

  function Entries(m: Message, from: string): seq<Option<Entry>> {
    match m
    case OpMessage(key, value, hlc, deleted) =>
      if hlc.None? then [None] else [Some(OpEntry(from, key, value, hlc.value, deleted))]
    case StateMessage(es) => es
    case StateRequest => []
  }

  /** `handleRemoteUpdate`. */
  function HandleRoom(room: Room, m: Message, from: string, nows: seq<int>): Room
    requires |nows| == |Entries(m, from)|
  {
    if room.closed then room else ApplyAll(room, Entries(m, from), nows)
  }

  function CloseRoom(room: Room): Room {
    if room.closed then room
    else room.(closed := true, disk := room.disk.(hlc := Some(room.replica.hlc)))
  }

  function SentOp(op: Op): Message {
    OpMessage(op.key, if op.deleted then Undefined else op.value, Some(op.hlc), op.deleted)
  }

  /** All entries of a sequence of messages, in order. */
  function AllEntries(ms: seq<Message>, from: string): seq<Option<Entry>> {
    if ms == [] then [] else AllEntries(ms[..|ms| - 1], from) + Entries(ms[|ms| - 1], from)
  }

  // ---- The room as an object ----

  class OfflineSyncRoom {
    const node: string
    const maxPendingOps: int
    const syncBatchSize: int
    var hlc: HLC
    var state: Store
    var online: bool
    var closed: bool
    var diskState: Store
    var diskHlc: Option<HLC>
    var pending: map<string, Op>

    ghost function View(): Room
      reads this
    {
      Room(Replica(node, hlc, state), online, closed, Disk(diskState, diskHlc, pending))
    }

    constructor (node: string, maxPendingOps: int, syncBatchSize: int, disk: Disk, now: int)
      ensures View() == Construct(node, now, disk)
      ensures this.maxPendingOps == maxPendingOps && this.syncBatchSize == syncBatchSize
    {
      this.node, this.maxPendingOps, this.syncBatchSize := node, maxPendingOps, syncBatchSize;
      hlc, state := HLC(now, 0, node), map[];
      online, closed := false, false;
      diskState, diskHlc, pending := disk.state, disk.hlc, disk.pending;
    }

    method Load(now: int)
      requires hlc.node == node
      modifies this`hlc, this`state
      ensures View() == Init(old(View()), now)
    {
      if diskHlc.Some? {
        hlc := Merge(hlc, diskHlc.value, hlc.node, now);
      }
      var keys := diskState.Keys;
      while keys != {}
        invariant keys <= diskState.Keys && hlc == InitClock(old(hlc), diskHlc, now)
        invariant state == old(state) + (map k | k in diskState && k !in keys :: diskState[k])
      {
        var k :| k in keys;
        keys := keys - {k};
        state := state[k := diskState[k]];
      }
      assert (map k | k in diskState && k !in keys :: diskState[k]) == diskState;
    }

    method SetOrDelete(key: string, value: Value, deleted: bool, connected: bool, id: string, ts: int, now: int)
      returns (sent: Option<Message>)
      requires hlc.node == node
      modifies this`hlc, this`state, this`diskState, this`diskHlc, this`pending
      ensures View() == WriteRoom(old(View()), key, value, deleted, connected, id, ts, maxPendingOps, now)
      ensures sent.Some? <==> !closed && online && connected
      ensures sent.Some? ==> Entries(sent.value, node) == [Some(state[key])]
    {
      if closed { return None; }
      hlc := Create(hlc.node, Some(hlc), now);
      var stored := if deleted then Undefined else value;
      var entry := Entry(key, stored, hlc, hlc.node, hlc.counter, deleted);
      state := state[key := entry];
      diskState := diskState[key := entry];
      diskHlc := Some(hlc);
      if online && connected {
        sent := Some(OpMessage(key, stored, Some(hlc), deleted));
      } else {
        QueueOperation(id, Op(key, stored, hlc, deleted, ts));
        sent := None;
      }
    }

    method QueueOperation(id: string, op: Op)
      modifies this`pending
      ensures pending == Enqueue(old(pending), id, op, maxPendingOps)
    {
      if |pending| >= maxPendingOps { return; }
      pending := pending[id := op];
    }

    method ApplyRemoteEntry(remote: Option<Entry>, now: int)
      requires hlc.node == node
      modifies this`hlc, this`state, this`diskState, this`diskHlc
      ensures hlc.node == node
      ensures old(state == diskState) ==> state == diskState
      ensures old(state == diskState) ==> View() == ApplyRemote(old(View()), remote, now)
    {
      if remote.None? || remote.value.key == "" { return; }
      var e := remote.value;
      hlc := Merge(hlc, e.hlc, hlc.node, now);
      if e.key !in state || Compare(e.hlc, state[e.key].hlc) > 0 {
        state := state[e.key := e];
        diskState := diskState[e.key := e];
      }
      diskHlc := Some(hlc);
    }

    method HandleRemoteUpdate(m: Message, from: string, nows: seq<int>)
      requires hlc.node == node && state == diskState && |nows| == |Entries(m, from)|
      modifies this`hlc, this`state, this`diskState, this`diskHlc
      ensures View() == HandleRoom(old(View()), m, from, nows)
    {
      if closed { return; }
      var remotes := Entries(m, from);
      for i := 0 to |remotes|
        invariant hlc.node == node && state == diskState && !closed
        invariant View() == ApplyAll(old(View()), remotes[..i], nows[..i])
      {
        ApplyRemoteEntry(remotes[i], nows[i]);
        assert remotes[..i + 1][..i] == remotes[..i] && nows[..i + 1][..i] == nows[..i];
      }
      assert remotes[..|remotes|] == remotes && nows[..|nows|] == nows;
    }

    /** The store in batches of at most `syncBatchSize`, nothing left out and none empty. */
    method BroadcastFullState(entries: seq<Option<Entry>>) returns (sent: seq<Message>)
      requires Lists(entries, state) && 0 < syncBatchSize
      ensures AllEntries(sent, node) == entries
      ensures forall m <- sent :: m.StateMessage? && 0 < |m.entries| <= syncBatchSize
    {
      sent := [];
      var i := 0;
      while i < |entries|
        invariant 0 <= i && AllEntries(sent, node) == entries[..if i < |entries| then i else |entries|]
        invariant forall m <- sent :: m.StateMessage? && 0 < |m.entries| <= syncBatchSize
        decreases |entries| - i
      {
        var end := if i + syncBatchSize < |entries| then i + syncBatchSize else |entries|;
        var batch := StateMessage(entries[i..end]);
        assert (sent + [batch])[..|sent|] == sent;
        assert entries[..i] + entries[i..end] == entries[..end];
        sent := sent + [batch];
        i := i + syncBatchSize;
      }
      assert entries[..|entries|] == entries;
    }

    /** The whole store, then every pending operation, batch by batch; the queue is emptied. */
    method FlushPendingOps(entries: seq<Option<Entry>>, ids: seq<string>) returns (sent: seq<Message>)
      requires Lists(entries, state) && 0 < syncBatchSize
      requires forall id <- ids :: id in pending
      requires forall id <- pending :: id in ids
      modifies this`pending
      ensures !online ==> sent == [] && pending == old(pending)
      ensures online ==> pending == map[]
      ensures online ==> AllEntries(sent, node) ==
                         entries + OpEntries(node, OpsOf(old(pending), ids))
    {
      if !online { return []; }
      sent := BroadcastFullState(entries);
      var ops := OpsOf(pending, ids);
      var i := 0;
      while i < |ops|
        invariant 0 <= i <= |ops|
        invariant AllEntries(sent, node) == entries + OpEntries(node, ops[..i])
        invariant forall id <- pending :: id in ids[i..]
        decreases |ops| - i
      {
        var end := if i + syncBatchSize < |ops| then i + syncBatchSize else |ops|;
        sent := SendBatch(sent, ids, ops, i, end, entries);
        i := end;
      }
      assert ops[..|ops|] == ops;
    }

    /** The operations `start` to `end` of a flush: each is sent, then removed from the queue. */
    method SendBatch(already: seq<Message>, ids: seq<string>, ops: seq<Op>, start: nat, end: nat,
                     ghost entries: seq<Option<Entry>>) returns (sent: seq<Message>)
      requires start <= end <= |ops| == |ids|
      requires AllEntries(already, node) == entries + OpEntries(node, ops[..start])
      requires forall id <- pending :: id in ids[start..]
      modifies this`pending
      ensures AllEntries(sent, node) == entries + OpEntries(node, ops[..end])
      ensures forall id <- pending :: id in ids[end..]
    {
      sent := already;
      for i := start to end
        invariant AllEntries(sent, node) == entries + OpEntries(node, ops[..i])
        invariant forall id <- pending :: id in ids[i..]
      {
        SentOneMore(node, sent, entries, ops, i);
        sent := sent + [SentOp(ops[i])];
        assert ids[i..] == [ids[i]] + ids[i + 1..];
        pending := pending - {ids[i]};
      }
    }

    method Close()
      modifies this`closed, this`diskHlc
      ensures View() == CloseRoom(old(View()))
      ensures closed && (!old(closed) ==> diskHlc == Some(hlc))
    {
      if closed { return; }
      closed := true;
      diskHlc := Some(hlc);
    }
  }

  /** The queued operations in the order of `ids`. */
  function OpsOf(pending: map<string, Op>, ids: seq<string>): seq<Op>
    requires forall id <- ids :: id in pending
  {
    seq(|ids|, i requires 0 <= i < |ids| => pending[ids[i]])
  }

  function OpEntries(node: string, ops: seq<Op>): seq<Option<Entry>> {
    if ops == [] then []
    else OpEntries(node, ops[..|ops| - 1]) + [Some(EntryOf(node, ops[|ops| - 1]))]
  }

  function EntryOf(node: string, op: Op): Entry {
    OpEntry(node, op.key, op.value, op.hlc, op.deleted)
  }

  lemma SentOneMore(node: string, sent: seq<Message>, entries: seq<Option<Entry>>, ops: seq<Op>, i: nat)
    requires i < |ops| && AllEntries(sent, node) == entries + OpEntries(node, ops[..i])
    ensures AllEntries(sent + [SentOp(ops[i])], node) == entries + OpEntries(node, ops[..i + 1])
  {
    var m := SentOp(ops[i]);
    assert (sent + [m])[..|sent|] == sent;
    assert ops[..i + 1][..i] == ops[..i];
    assert Entries(m, node) == [Some(EntryOf(node, ops[i]))];
  }
}
