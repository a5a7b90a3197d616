/**
 Namespaces, rooms and the handlers that change membership (hub/hub.go, namespace/namespace.go,
 peer/peer.go).

 Membership is recorded twice: a namespace maps fingerprints to peer objects, and a peer
 object lists its namespaces. The objects that the source reaches by reference are records
 here: `lists` holds the `Namespaces` of every peer object, `spaces` the namespaces by name.
 Registered peers are kept in the sharded registry.
 A handler runs without interruption.
 */
module Hub {
  import opened Peers
  import Registry

  datatype Space = Space(isRoom: bool, owner: string, maxSize: int, members: map<string, Peer>)

  datatype State = State(registry: map<string, Peer>, lists: map<Peer, set<string>>, spaces: map<string, Space>)

  // ---- Namespaces ----

  function NewSpace(maxSize: int): Space {
    Space(false, "", if maxSize <= 0 then 100000 else maxSize, map[])
  }

  function RoomSize(maxSize: int): int {
    if maxSize <= 0 then 20 else if maxSize > 30 then 30 else maxSize
  }

  function NewRoom(maxSize: int, owner: string): Space {
    Space(true, owner, RoomSize(maxSize), map[])
  }

  predicate Full(space: Space) {
    |space.members| >= space.maxSize
  }

  /** `Add`: a full namespace refuses even a peer that is already in it. */
  function AddMember(space: Space, p: Peer): Space {
    if Full(space) then space else space.(members := space.members[p.fingerprint := p])
  }

  function RemoveMember(space: Space, fingerprint: string): Space {
    space.(members := space.members - {fingerprint})
  }

  /** A member leaves a namespace that exists; an emptied room disappears at once. */
  function LeaveSpace(spaces: map<string, Space>, ns: string, fingerprint: string): map<string, Space> {
    if ns !in spaces then spaces
    else
      var space := RemoveMember(spaces[ns], fingerprint);
      if space.isRoom && space.members == map[] then spaces - {ns} else spaces[ns := space]
  }

  // ---- The handlers ----

  function Listed(s: State, p: Peer): set<string> {
    if p in s.lists then s.lists[p] else {}
  }

  /** The peer lists a namespace more. */
  function Enlist(s: State, p: Peer, ns: string): State {
    s.(lists := s.lists[p := Listed(s, p) + {ns}])
  }

  function Delist(s: State, p: Peer, ns: string): State {
    s.(lists := s.lists[p := Listed(s, p) - {ns}])
  }

  /** `Register` of a new peer object, which lists nothing yet. */
  function Register(s: State, p: Peer, maxPeers: int): State {
    if Registry.RegisterAnswer(s.registry, p, maxPeers).Refused? then s
    else s.(registry := s.registry[p.fingerprint := p], lists := s.lists[p := {}])
  }

  function Join(s: State, p: Peer, ns: string, maxPeers: int): State {
    if ns == "" then s
    else
      var space := if ns in s.spaces then s.spaces[ns] else NewSpace(maxPeers);
      var s1 := s.(spaces := s.spaces[ns := AddMember(space, p)]);
      if Full(space) then s1 else Enlist(s1, p, ns)
  }

  function Leave(s: State, p: Peer, ns: string): State {
    if ns == "" then s
    else Delist(s.(spaces := LeaveSpace(s.spaces, ns, p.fingerprint)), p, ns)
  }

  function CreateRoom(s: State, p: Peer, room: string, maxSize: int): State {
    if room == "" || room in s.spaces then s
    else Enlist(s.(spaces := s.spaces[room := AddMember(NewRoom(RoomSize(maxSize), p.fingerprint), p)]), p, room)
  }

  function JoinRoom(s: State, p: Peer, room: string): State {
    if room == "" || room !in s.spaces || !s.spaces[room].isRoom || Full(s.spaces[room]) then s
    else Enlist(s.(spaces := s.spaces[room := AddMember(s.spaces[room], p)]), p, room)
  }

  predicate MayKick(s: State, p: Peer, room: string, fingerprint: string) {
    && room != "" && fingerprint != ""
    && room in s.spaces && s.spaces[room].isRoom && s.spaces[room].owner == p.fingerprint
    && fingerprint in s.registry
  }

  /** `Kick` does not remove a room it empties. */
  function Kick(s: State, p: Peer, room: string, fingerprint: string): State {
    if !MayKick(s, p, room, fingerprint) then s
    else Delist(s.(spaces := s.spaces[room := RemoveMember(s.spaces[room], fingerprint)]), s.registry[fingerprint], room)
  }

  /** The namespaces after a peer left those it lists. */
  function LeaveAll(spaces: map<string, Space>, names: set<string>, fingerprint: string): map<string, Space> {
    map n | n in spaces && !(n in names && spaces[n].isRoom && RemoveMember(spaces[n], fingerprint).members == map[]) ::
      if n in names then RemoveMember(spaces[n], fingerprint) else spaces[n]
  }

  function Unregister(s: State, fingerprint: string): State {
    if fingerprint !in s.registry then s
    else
      s.(registry := s.registry - {fingerprint},
         spaces := LeaveAll(s.spaces, Listed(s, s.registry[fingerprint]), fingerprint))
  }

  function Cleanup(s: State): State {
    s.(spaces := map n | n in s.spaces && s.spaces[n].members != map[] :: s.spaces[n])
  }

  predicate SharesNamespace(s: State, p: Peer, q: Peer) {
    exists n <- Listed(s, p) :: n in Listed(s, q)
  }

  // ---- The hub as an object ----

  class Hub {
    const maxPeers: int
    /** The sharded registry of connected peers. */
    const peers: Registry.Registry
    var lists: map<Peer, set<string>>
    var spaces: map<string, Space>

    ghost predicate Valid()
      reads this, peers
    {
      peers.Valid() && peers.maxPeers == maxPeers
    }

    ghost function View(): State
      reads this, peers
    {
      State(peers.flat, lists, spaces)
    }

    constructor (shardCount: nat, maxPeers: int)
      requires 0 < shardCount
      ensures Valid() && fresh(peers) && View() == State(map[], map[], map[]) && this.maxPeers == maxPeers
    {
      this.maxPeers := maxPeers;
      peers := new Registry.Registry(shardCount, maxPeers);
      lists, spaces := map[], map[];
    }

    method RegisterPeer(p: Peer) returns (ok: bool)
      requires Valid()
      modifies this, peers
      ensures Valid() && View() == Register(old(View()), p, maxPeers)
      ensures ok <==> !Registry.RegisterAnswer(old(View()).registry, p, maxPeers).Refused?
    {
      var answer := peers.Register(p);
      if answer.Refused? {
        return false;
      }
      lists := lists[p := {}];
      return true;
    }

    method JoinNamespace(p: Peer, ns: string)
      modifies this`lists
      ensures View() == Enlist(old(View()), p, ns)
    {
      lists := lists[p := (if p in lists then lists[p] else {}) + {ns}];
    }

    method LeaveNamespace(p: Peer, ns: string)
      modifies this`lists
      ensures View() == Delist(old(View()), p, ns)
    {
      lists := lists[p := (if p in lists then lists[p] else {}) - {ns}];
    }

    /** `Namespace.Add` on a namespace of the manager. */
    method Add(ns: string, p: Peer) returns (ok: bool)
      requires ns in spaces
      modifies this`spaces
      ensures ok <==> !Full(old(spaces)[ns])
      ensures spaces == old(spaces)[ns := AddMember(old(spaces)[ns], p)]
    {
      if |spaces[ns].members| >= spaces[ns].maxSize {
        return false;
      }
      spaces := spaces[ns := spaces[ns].(members := spaces[ns].members[p.fingerprint := p])];
      return true;
    }

    method HandleJoin(p: Peer, ns: string)
      modifies this`lists, this`spaces
      ensures View() == Join(old(View()), p, ns, maxPeers)
    {
      if ns == "" { return; }
      ghost var space := if ns in spaces then spaces[ns] else NewSpace(maxPeers);
      GetOrCreate(ns);
      var ok := Add(ns, p);
      assert spaces == old(spaces)[ns := AddMember(space, p)];
      if ok { JoinNamespace(p, ns); }
    }

    method GetOrCreate(ns: string)
      modifies this`spaces
      ensures spaces == old(spaces)[ns := if ns in old(spaces) then old(spaces)[ns] else NewSpace(maxPeers)]
    {
      if ns !in spaces {
        spaces := spaces[ns := NewSpace(maxPeers)];
      }
    }

    /** `Remove` and, for a room, `RemoveIfEmpty`. */
    method RemoveFrom(ns: string, fingerprint: string)
      modifies this`spaces
      ensures spaces == LeaveSpace(old(spaces), ns, fingerprint)
    {
      if ns !in spaces { return; }
      var left := spaces[ns].(members := spaces[ns].members - {fingerprint});
      spaces := spaces[ns := left];
      if left.isRoom && |left.members| == 0 {
        spaces := spaces - {ns};
      }
    }

    method HandleLeave(p: Peer, ns: string)
      modifies this`lists, this`spaces
      ensures View() == Leave(old(View()), p, ns)
    {
      if ns == "" { return; }
      RemoveFrom(ns, p.fingerprint);
      LeaveNamespace(p, ns);
    }

    /** `CreateRoom` of the manager, and the owner's `Add`. */
    method AddRoom(p: Peer, room: string, size: int)
      requires room !in spaces
      modifies this`spaces
      ensures spaces == old(spaces)[room := AddMember(NewRoom(size, p.fingerprint), p)]
    {
      spaces := spaces[room := NewRoom(size, p.fingerprint)];
      var ok := Add(room, p);
    }

    method HandleCreateRoom(p: Peer, room: string, maxSize: int)
      modifies this`lists, this`spaces
      ensures View() == CreateRoom(old(View()), p, room, maxSize)
    {
      if room == "" { return; }
      var size := maxSize;
      if size <= 0 { size := 20; }
      if size > 30 { size := 30; }
      if room in spaces { return; }
      assert size == RoomSize(maxSize);
      AddRoom(p, room, size);
      JoinNamespace(p, room);
    }

    method HandleJoinRoom(p: Peer, room: string)
      modifies this`lists, this`spaces
      ensures View() == JoinRoom(old(View()), p, room)
    {
      if room == "" || room !in spaces || !spaces[room].isRoom { return; }
      var ok := Add(room, p);
      if ok { JoinNamespace(p, room); }
    }

    method HandleKick(p: Peer, room: string, fingerprint: string)
      requires Valid()
      modifies this`lists, this`spaces
      ensures View() == Kick(old(View()), p, room, fingerprint)
    {
      if room == "" || fingerprint == "" { return; }
      if room !in spaces || !spaces[room].isRoom { return; }
      if spaces[room].owner != p.fingerprint { return; }
      var target := peers.GetPeer(fingerprint);
      if target.None? { return; }
      spaces := spaces[room := spaces[room].(members := spaces[room].members - {fingerprint})];
      LeaveNamespace(target.value, room);
    }

    method UnregisterPeer(fingerprint: string)
      requires Valid()
      modifies this, peers
      ensures Valid() && View() == Unregister(old(View()), fingerprint)
    {
      var removed := peers.Unregister(fingerprint);
      if removed.None? {
        assert old(peers.flat) - {fingerprint} == old(peers.flat);
        return;
      }
      var p := removed.value;
      var names := if p in lists then lists[p] else {};
      LeaveThose(names, fingerprint);
    }

    /** The loop of `Unregister` over the namespaces of the peer. */
    method LeaveThose(names: set<string>, fingerprint: string)
      modifies this`spaces
      ensures spaces == LeaveAll(old(spaces), names, fingerprint)
    {
      var rest := names;
      while rest != {}
        invariant rest <= names
        invariant spaces == LeaveAll(old(spaces), names - rest, fingerprint)
      {
        var ns :| ns in rest;
        ghost var done := names - rest;
        rest := rest - {ns};
        assert names - rest == done + {ns};
        RemoveFrom(ns, fingerprint);
        LeaveOneMore(old(spaces), done, ns, fingerprint);
      }
      assert names - rest == names;
    }

    method CleanupSpaces()
      modifies this`spaces
      ensures View() == Cleanup(old(View()))
    {
      var rest := spaces.Keys;
      while rest != {}
        invariant rest <= spaces.Keys <= old(spaces).Keys
        invariant forall n <- spaces :: spaces[n] == old(spaces)[n]
        invariant forall n <- old(spaces) :: n in rest || (n in spaces <==> old(spaces)[n].members != map[])
      {
        var n :| n in rest;
        rest := rest - {n};
        if |spaces[n].members| == 0 {
          spaces := spaces - {n};
        }
      }
    }

    method Shares(p: Peer, other: Peer) returns (shared: bool)
      ensures shared <==> SharesNamespace(View(), p, other)
    {
      var rest := if p in lists then lists[p] else {};
      while rest != {}
        invariant rest <= Listed(View(), p)
        invariant forall n <- Listed(View(), p) :: n in rest || n !in Listed(View(), other)
      {
        var n :| n in rest;
        rest := rest - {n};
        if other in lists && n in lists[other] {
          return true;
        }
      }
      return false;
    }
  }

  lemma LeaveOneMore(spaces: map<string, Space>, done: set<string>, ns: string, fingerprint: string)
    requires ns !in done
    ensures LeaveSpace(LeaveAll(spaces, done, fingerprint), ns, fingerprint) == LeaveAll(spaces, done + {ns}, fingerprint)
  {
  }
}
