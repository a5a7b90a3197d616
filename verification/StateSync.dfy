/**
 One last-writer-wins replica (packages/peer-client/src/sync.ts, lines 39-285).

 The functions say what each handler does to the replica as a value; the class
 `StateSync` updates its fields in place and is proved against them.
 */
module StateSync {
  import opened Wrappers
  import opened Hlc

  /** A JSON value, or JavaScript's `undefined`. */
  datatype Value = Undefined | Json(text: string)

  datatype Entry = Entry(key: string, value: Value, hlc: HLC, from: string, version: int, deleted: bool)

  type Store = map<string, Entry>

  datatype Replica = Replica(node: string, hlc: HLC, state: Store)

  /** Wire payloads. An entry without an `hlc`, or a missing entry, is `None`. */
  datatype Payload =
    | FullState(entries: seq<Option<Entry>>)
    | RequestState
    | DeleteOp(entry: Option<Entry>)
    | UpdateOp(entry: Option<Entry>)
    | Unknown

  // ---- The handlers as functions ----

  /** A remote entry replaces the stored one only when its stamp is greater. */
  predicate Wins(state: Store, remote: Entry) {
    remote.key !in state || Compare(remote.hlc, state[remote.key].hlc) > 0
  }

  function Join(state: Store, remote: Entry): Store {
    if Wins(state, remote) then state[remote.key := remote] else state
  }

  function Start(node: string, now: int): Replica {
    Replica(node, HLC(now, 0, node), map[])
  }

  /** The entry that `set` (deleted = false) or `delete` (deleted = true) writes. */
  function NewEntry(node: string, key: string, value: Value, hlc: HLC, deleted: bool): Entry {
    Entry(key, if deleted then Undefined else value, hlc, node, hlc.counter, deleted)
  }

  function WrittenEntry(r: Replica, key: string, value: Value, deleted: bool, now: int): Entry {
    NewEntry(r.node, key, value, Create(r.node, Some(r.hlc), now), deleted)
  }

  /** `set` and `delete`: tick, then overwrite without comparing. */
  function Write(r: Replica, key: string, value: Value, deleted: bool, now: int): Replica {
    var e := WrittenEntry(r, key, value, deleted, now);
    Replica(r.node, e.hlc, r.state[key := e])
  }

  /** One remote entry: merge the clocks, then keep the greater stamp. */
  function Receive(r: Replica, remote: Entry, now: int): Replica {
    Replica(r.node, Merge(r.hlc, remote.hlc, r.node, now), Join(r.state, remote))
  }

  function ReceiveOption(r: Replica, remote: Option<Entry>, now: int): Replica {
    match remote
    case None => r
    case Some(e) => Receive(r, e, now)
  }

  /** Several remote entries in order, one clock reading each. */
  function ReceiveAll(r: Replica, remotes: seq<Option<Entry>>, nows: seq<int>): Replica
    requires |remotes| == |nows|
  {
    if remotes == [] then r
    else
      var last := |remotes| - 1;
      ReceiveOption(ReceiveAll(r, remotes[..last], nows[..last]), remotes[last], nows[last])
  }

  /** The entries a payload carries, as `handleRemoteUpdate` visits them. */
  function Carried(p: Payload): seq<Option<Entry>> {
    match p
    case FullState(es) => es
    case RequestState => []
    case DeleteOp(e) => [e]
    case UpdateOp(e) => [e]
    case Unknown => []
  }

  /** `handleRemoteUpdate` in lww mode. */
  function Handle(r: Replica, p: Payload, nows: seq<int>): Replica
    requires |nows| == |Carried(p)|
  {
    ReceiveAll(r, Carried(p), nows)
  }

  const TOMBSTONE_TTL := 60000

  predicate Expired(e: Entry, now: int) {
    e.deleted && now - e.hlc.ts > TOMBSTONE_TTL
  }

  function Purge(r: Replica, now: int): Replica {
    r.(state := map k | k in r.state && !Expired(r.state[k], now) :: r.state[k])
  }

  /** What `get` shows of a store: tombstones look like missing keys. */
  function Get(state: Store, key: string): Value {
    if key !in state || state[key].deleted then Undefined else state[key].value
  }

  function GetAll(state: Store): map<string, Value> {
    map k | k in state && !state[k].deleted :: state[k].value
  }

  /** `entries` lists the values of `state` in some order. */
  ghost predicate Lists(entries: seq<Option<Entry>>, state: Store) {
    && (forall o <- entries :: o.Some? && o.value in state.Values)
    && (forall e <- state.Values :: Some(e) in entries)
  }

  // ---- The replica as an object ----

  class StateSync {
    const node: string
    var hlc: HLC
    var state: Store

    ghost function View(): Replica
      reads this
    {
      Replica(node, hlc, state)
    }

    constructor (node: string, now: int)
      ensures View() == Start(node, now)
    {
      this.node := node;
      hlc := HLC(now, 0, node);
      state := map[];
    }

    method Tick(now: int) returns (r: HLC)
      modifies this`hlc
      ensures hlc == r == Create(node, Some(old(hlc)), now)
    {
      hlc := Create(node, Some(hlc), now);
      r := hlc;
    }

    method Set(key: string, value: Value, now: int) returns (sent: Payload)
      modifies this
      ensures View() == Write(old(View()), key, value, false, now)
      ensures sent == UpdateOp(Some(state[key]))
    {
      var stamp := Tick(now);
      var entry := Entry(key, value, stamp, node, stamp.counter, false);
      state := state[key := entry];
      sent := UpdateOp(Some(entry));
    }

    method Delete(key: string, now: int) returns (sent: Payload)
      modifies this
      ensures View() == Write(old(View()), key, Undefined, true, now)
      ensures sent == DeleteOp(Some(state[key]))
    {
      var stamp := Tick(now);
      var entry := Entry(key, Undefined, stamp, node, stamp.counter, true);
      state := state[key := entry];
      sent := DeleteOp(Some(entry));
    }

    /** The body shared by the `update`, `delete` and `full_state` branches. */
    method ReceiveEntry(remote: Option<Entry>, now: int)
      modifies this
      ensures View() == ReceiveOption(old(View()), remote, now)
    {
      if remote.None? { return; }
      hlc := Merge(hlc, remote.value.hlc, node, now);
      if remote.value.key !in state || Compare(remote.value.hlc, state[remote.value.key].hlc) > 0 {
        state := state[remote.value.key := remote.value];
      }
    }

    method HandleFullState(remotes: seq<Option<Entry>>, nows: seq<int>)
      requires |remotes| == |nows|
      modifies this
      ensures View() == ReceiveAll(old(View()), remotes, nows)
    {
      for i := 0 to |remotes|
        invariant View() == ReceiveAll(old(View()), remotes[..i], nows[..i])
      {
        ReceiveEntry(remotes[i], nows[i]);
        assert remotes[..i + 1][..i] == remotes[..i] && nows[..i + 1][..i] == nows[..i];
      }
      assert remotes[..|remotes|] == remotes && nows[..|nows|] == nows;
    }

    method HandleRemoteUpdate(p: Payload, nows: seq<int>)
      requires |nows| == |Carried(p)|
      modifies this
      ensures View() == Handle(old(View()), p, nows)
    {
      match p {
        case FullState(es) => HandleFullState(es, nows);
        case RequestState =>
        case DeleteOp(e) => ReceiveOne(e, nows[0]);
        case UpdateOp(e) => ReceiveOne(e, nows[0]);
        case Unknown =>
      }
      assert Carried(p) == [] || nows == [nows[0]] || p.FullState?;
    }

    method ReceiveOne(remote: Option<Entry>, now: int)
      modifies this
      ensures View() == ReceiveAll(old(View()), [remote], [now])
    {
      ReceiveEntry(remote, now);
      assert [remote][..0] == [] && [now][..0] == [];
    }

    /** `loadState`: stores first and merges the clock afterwards, with the same outcome. */
    method LoadState(entries: seq<Entry>, nows: seq<int>)
      requires |entries| == |nows|
      modifies this
      ensures View() == ReceiveAll(old(View()), seq(|entries|, i requires 0 <= i < |entries| => Some(entries[i])), nows)
    {
      ghost var remotes := seq(|entries|, i requires 0 <= i < |entries| => Some(entries[i]));
      for i := 0 to |entries|
        invariant View() == ReceiveAll(old(View()), remotes[..i], nows[..i])
      {
        var entry := entries[i];
        if entry.key !in state || Compare(entry.hlc, state[entry.key].hlc) > 0 {
          state := state[entry.key := entry];
        }
        hlc := Merge(hlc, entry.hlc, node, nows[i]);
        assert remotes[..i + 1][..i] == remotes[..i] && nows[..i + 1][..i] == nows[..i];
      }
      assert remotes[..|remotes|] == remotes && nows[..|nows|] == nows;
    }

    method PurgeTombstones(now: int)
      modifies this`state
      ensures View() == Purge(old(View()), now)
    {
      var keys := state.Keys;
      while keys != {}
        invariant keys <= state.Keys <= old(state).Keys
        invariant forall k <- state :: state[k] == old(state)[k]
        invariant forall k <- old(state) :: k in keys || (k in state <==> !Expired(old(state)[k], now))
      {
        var k :| k in keys;
        keys := keys - {k};
        if state[k].deleted && now - state[k].hlc.ts > TOMBSTONE_TTL {
          state := state - {k};
        }
      }
    }

    method Read(key: string) returns (v: Value)
      ensures v == Get(state, key)
    {
      v := if key in state && !state[key].deleted then state[key].value else Undefined;
    }

    method ReadAll() returns (shown: map<string, Value>)
      ensures shown == GetAll(state)
    {
      shown := map[];
      var keys := state.Keys;
      while keys != {}
        invariant keys <= state.Keys
        invariant forall k <- shown :: k in state && !state[k].deleted && shown[k] == state[k].value
        invariant forall k <- state :: k in keys || state[k].deleted || k in shown
      {
        var k :| k in keys;
        keys := keys - {k};
        if !state[k].deleted {
          shown := shown[k := state[k].value];
        }
      }
    }

    /** `broadcastFullState` and `sendStateTo`: nothing is sent for an empty store. */
    method FullStateMessage() returns (sent: Option<Payload>)
      ensures sent.None? <==> state == map[]
      ensures sent.Some? ==> sent.value.FullState? && Lists(sent.value.entries, state)
    {
      var entries: seq<Option<Entry>> := [];
      var keys := state.Keys;
      while keys != {}
        invariant keys <= state.Keys
        invariant forall o <- entries :: o.Some? && o.value in state.Values
        invariant forall k <- state :: k in keys || Some(state[k]) in entries
        invariant |entries| + |keys| == |state|
      {
        var k :| k in keys;
        keys := keys - {k};
        entries := entries + [Some(state[k])];
      }
      sent := if |entries| == 0 then None else Some(FullState(entries));
    }
  }
}
