/**
 What each membership handler does, told by what can be seen of the hub: who is a member of
 what, what a peer lists, which namespaces exist, and what kind they are (hub/hub.go, lines
 106-295, 456-524 and 549-587). The relations here are written without the handlers; the
 theorem says that every step of every run is one of them.
 */
module MembershipEffects {
  import opened Wrappers
  import opened Peers
  import opened Hub
  import opened Membership

  // ---- What can be seen ----

  predicate Lists(s: State, p: Peer, n: string) {
    p in s.lists && n in s.lists[p]
  }

  function Members(s: State, n: string): nat {
    if n in s.spaces then |s.spaces[n].members| else 0
  }

  /** Nobody but `p` is in the namespace. */
  ghost predicate NobodyElse(s: State, n: string, p: Peer) {
    forall q: Peer :: IsMember(s, n, q) ==> q == p
  }

  ghost predicate Deserted(s: State, n: string) {
    forall q: Peer :: !IsMember(s, n, q)
  }

  /** Outside of `p`'s place in `n`, every membership and every list entry is as it was. */
  ghost predicate OthersStay(s: State, s': State, p: Peer, n: string) {
    forall q: Peer, m: string | q != p || m != n ::
      (IsMember(s', m, q) <==> IsMember(s, m, q)) && (Lists(s', q, m) <==> Lists(s, q, m))
  }

  /** The namespaces that are still there are of the kind they were. */
  ghost predicate KindsStay(s: State, s': State) {
    forall m: string | m in s.spaces && m in s'.spaces ::
      && s'.spaces[m].isRoom == s.spaces[m].isRoom && s'.spaces[m].owner == s.spaces[m].owner
      && s'.spaces[m].maxSize == s.spaces[m].maxSize
  }

  ghost predicate SameSpaces(s: State, s': State, n: string) {
    forall m: string | m != n :: m in s'.spaces <==> m in s.spaces
  }

  /** Both records of `p` in `n` say `there`, and nothing else moved. */
  ghost predicate Moves(s: State, s': State, p: Peer, n: string, there: bool) {
    && s'.registry == s.registry
    && (IsMember(s', n, p) <==> there) && (Lists(s', p, n) <==> there)
    && OthersStay(s, s', p, n) && KindsStay(s, s') && SameSpaces(s, s', n)
  }

  // ---- What each event should do ----

  ghost predicate ConnectEffect(s: State, s': State, p: Peer, maxPeers: int) {
    if |s.registry| >= maxPeers then s' == s
    else
      && s'.registry.Keys == s.registry.Keys + {p.fingerprint} && s'.registry[p.fingerprint] == p
      && (forall f <- s.registry :: f != p.fingerprint ==> s'.registry[f] == s.registry[f])
      && s'.spaces == s.spaces && (forall n :: !Lists(s', p, n))
      && (forall q: Peer, n | q != p :: Lists(s', q, n) <==> Lists(s, q, n))
  }

  /** The peer is in unless the namespace was full without it; a new namespace is no room. */
  ghost predicate JoinEffect(s: State, s': State, p: Peer, n: string, maxPeers: int) {
    if n == "" then s' == s
    else
      var size := if n in s.spaces then s.spaces[n].maxSize else if maxPeers <= 0 then 100000 else maxPeers;
      && Moves(s, s', p, n, IsMember(s, n, p) || Members(s, n) < size)
      && n in s'.spaces && s'.spaces[n].maxSize == size && (n !in s.spaces ==> !s'.spaces[n].isRoom)
  }

  /** The peer is out; the namespace goes if it was a room with nobody else in it. */
  ghost predicate LeaveEffect(s: State, s': State, p: Peer, n: string) {
    if n == "" then s' == s
    else
      && Moves(s, s', p, n, false)
      && (n in s'.spaces <==> n in s.spaces && !(s.spaces[n].isRoom && NobodyElse(s, n, p)))
  }

  /** A name that is taken is refused; otherwise a room of its creator, with it alone in it. */
  ghost predicate OpenRoomEffect(s: State, s': State, p: Peer, room: string, size: int) {
    if room == "" || room in s.spaces then s' == s
    else
      && Moves(s, s', p, room, true) && NobodyElse(s', room, p)
      && room in s'.spaces && s'.spaces[room].isRoom && s'.spaces[room].owner == p.fingerprint
      && s'.spaces[room].maxSize == if size <= 0 then 20 else if size > 30 then 30 else size
  }

  /** Only an existing room that is not full lets somebody in. */
  ghost predicate EnterRoomEffect(s: State, s': State, p: Peer, room: string) {
    var admitted := && room != "" && room in s.spaces && s.spaces[room].isRoom
                    && Members(s, room) < s.spaces[room].maxSize;
    && Moves(s, s', p, room, IsMember(s, room, p) || admitted)
    && (room in s'.spaces <==> room in s.spaces)
  }

  /** The creator of a room puts a registered peer out of it, and nobody else can. */
  ghost predicate KickEffect(s: State, s': State, p: Peer, room: string, f: string, creator: Option<string>) {
    if room != "" && f != "" && f in s.registry && creator == Some(p.fingerprint) then
      Moves(s, s', s.registry[f], room, false) && (room in s'.spaces <==> room in s.spaces)
    else s' == s
  }

  /** The peer is in nothing any more; the rooms it was alone in go with it. */
  ghost predicate DisconnectEffect(s: State, s': State, f: string) {
    if f !in s.registry then s' == s
    else
      var p := s.registry[f];
      && s'.registry == s.registry - {f} && s'.lists == s.lists && KindsStay(s, s')
      && (forall n :: !IsMember(s', n, p))
      && (forall q: Peer, n | q != p :: IsMember(s', n, q) <==> IsMember(s, n, q))
      && (forall n :: n in s'.spaces <==>
            n in s.spaces && !(IsMember(s, n, p) && s.spaces[n].isRoom && NobodyElse(s, n, p)))
  }

  /** Exactly the deserted namespaces go. */
  ghost predicate TidyEffect(s: State, s': State) {
    && s'.registry == s.registry && s'.lists == s.lists && KindsStay(s, s')
    && (forall q: Peer, n :: IsMember(s', n, q) <==> IsMember(s, n, q))
    && (forall n :: n in s'.spaces <==> n in s.spaces && !Deserted(s, n))
  }

  ghost predicate Effect(s: State, ev: Event, s': State, maxPeers: int, run: seq<Event>) {
    match ev
    case Connect(p) => ConnectEffect(s, s', p, maxPeers)
    case JoinSpace(p, n) => JoinEffect(s, s', p, n, maxPeers)
    case LeaveOne(p, n) => LeaveEffect(s, s', p, n)
    case OpenRoom(p, room, size) => OpenRoomEffect(s, s', p, room, size)
    case EnterRoom(p, room) => EnterRoomEffect(s, s', p, room)
    case KickOut(p, room, f) => KickEffect(s, s', p, room, f, Creator(run, room, maxPeers))
    case Disconnect(f) => DisconnectEffect(s, s', f)
    case Tidy => TidyEffect(s, s')
  }

  // ---- Who made a room ----

  /** The fingerprint of the peer whose `create_room` brought the present namespace into being. */
  ghost function Creator(run: seq<Event>, n: string, maxPeers: int): Option<string> {
    if run == [] then None
    else
      var (before, ev) := (run[..|run| - 1], run[|run| - 1]);
      if n !in Exec(Empty, run, maxPeers).spaces then None
      else if n in Exec(Empty, before, maxPeers).spaces then Creator(before, n, maxPeers)
      else if ev.OpenRoom? then Some(ev.peer.fingerprint)
      else None
  }

  lemma {:induction false} ExecLast(s: State, run: seq<Event>, maxPeers: int)
    requires run != []
    ensures Exec(s, run, maxPeers) == Step(Exec(s, run[..|run| - 1], maxPeers), run[|run| - 1], maxPeers)
    decreases |run|
  {
    if |run| == 1 {
      assert run[1..] == [];
    } else {
      assert run[1..][..|run| - 2] == run[..|run| - 1][1..];
      ExecLast(Step(s, run[0], maxPeers), run[1..], maxPeers);
    }
  }

  /** A namespace keeps its kind and owner; a new one is a room exactly if `maker` made it. */
  ghost predicate OwnerOk(spaces: map<string, Space>, spaces': map<string, Space>, n: string, maker: Option<string>) {
    n in spaces' ==>
      if n in spaces then spaces'[n].isRoom == spaces[n].isRoom && spaces'[n].owner == spaces[n].owner
      else if maker.Some? then spaces'[n].isRoom && spaces'[n].owner == maker.value
      else !spaces'[n].isRoom
  }

  function Maker(ev: Event): Option<string> {
    if ev.OpenRoom? then Some(ev.peer.fingerprint) else None
  }

  lemma JoinKeepsOwners(s: State, p: Peer, ns: string, maxPeers: int, n: string)
    ensures OwnerOk(s.spaces, Join(s, p, ns, maxPeers).spaces, n, None)
  {
  }

  lemma LeaveKeepsOwners(s: State, p: Peer, ns: string, n: string)
    ensures OwnerOk(s.spaces, Leave(s, p, ns).spaces, n, None)
  {
  }

  lemma OpenRoomSetsOwner(s: State, p: Peer, room: string, size: int, n: string)
    ensures OwnerOk(s.spaces, CreateRoom(s, p, room, size).spaces, n, Some(p.fingerprint))
  {
  }

  lemma EnterRoomKeepsOwners(s: State, p: Peer, room: string, n: string)
    ensures OwnerOk(s.spaces, JoinRoom(s, p, room).spaces, n, None)
  {
  }

  lemma KickKeepsOwners(s: State, p: Peer, room: string, f: string, n: string)
    ensures OwnerOk(s.spaces, Kick(s, p, room, f).spaces, n, None)
  {
  }

  lemma OthersKeepOwners(s: State, p: Peer, maxPeers: int, f: string, n: string)
    ensures OwnerOk(s.spaces, Register(s, p, maxPeers).spaces, n, None)
    ensures OwnerOk(s.spaces, Unregister(s, f).spaces, n, None)
    ensures OwnerOk(s.spaces, Cleanup(s).spaces, n, None)
  {
  }

  /** A step makes a room only by `create_room`, and changes nobody's ownership. */
  lemma StepKeepsOwners(s: State, ev: Event, maxPeers: int, n: string)
    ensures OwnerOk(s.spaces, Step(s, ev, maxPeers).spaces, n, Maker(ev))
  {
    var spaces' := Step(s, ev, maxPeers).spaces;
    match ev {
      case Connect(p) => OthersKeepOwners(s, p, maxPeers, "", n);
      case JoinSpace(p, ns) => JoinKeepsOwners(s, p, ns, maxPeers, n); assert spaces' == Join(s, p, ns, maxPeers).spaces;
      case LeaveOne(p, ns) => LeaveKeepsOwners(s, p, ns, n); assert spaces' == Leave(s, p, ns).spaces;
      case Disconnect(f) => OthersKeepOwners(s, Peer(0, ""), maxPeers, f, n);
      case Tidy => OthersKeepOwners(s, Peer(0, ""), maxPeers, "", n);
      case _ => RoomStepKeepsOwners(s, ev, maxPeers, n);
    }
  }

  lemma RoomStepKeepsOwners(s: State, ev: Event, maxPeers: int, n: string)
    requires ev.OpenRoom? || ev.EnterRoom? || ev.KickOut?
    ensures OwnerOk(s.spaces, Step(s, ev, maxPeers).spaces, n, Maker(ev))
  {
    match ev {
      case OpenRoom(p, room, size) => OpenRoomSetsOwner(s, p, room, size, n);
      case EnterRoom(p, room) => EnterRoomKeepsOwners(s, p, room, n);
      case KickOut(p, room, f) => KickKeepsOwners(s, p, room, f, n);
    }
  }

  lemma {:induction false} OwnerIsCreator(run: seq<Event>, n: string, maxPeers: int)
    ensures var s := Exec(Empty, run, maxPeers);
            Creator(run, n, maxPeers) == if n in s.spaces && s.spaces[n].isRoom then Some(s.spaces[n].owner) else None
  {
    if run != [] {
      var before := run[..|run| - 1];
      OwnerIsCreator(before, n, maxPeers);
      ExecLast(Empty, run, maxPeers);
      StepKeepsOwners(Exec(Empty, before, maxPeers), run[|run| - 1], maxPeers, n);
    }
  }

  // ---- The handlers have these effects ----

  lemma ListedIsMember(s: State, p: Peer, n: string)
    requires Inv(s) && IsRegistered(s, p)
    ensures Lists(s, p, n) <==> IsMember(s, n, p)
  {
    assert ListsAgree(s, p);
  }

  lemma MemberIsRegistered(s: State, n: string, q: Peer)
    requires Inv(s) && IsMember(s, n, q)
    ensures IsRegistered(s, q)
  {
    assert SpaceInv(s, n);
  }

  /** One namespace, old or new, gains `p`. */
  ghost predicate Gains(spaces: map<string, Space>, spaces': map<string, Space>, p: Peer, n: string, space: Space) {
    && (n in spaces ==> space == spaces[n]) && (n !in spaces ==> space.members == map[])
    && spaces' == spaces[n := space.(members := space.members[p.fingerprint := p])]
  }

  lemma GainsOnly(s: State, s': State, p: Peer, n: string, space: Space, m: string, q: Peer)
    requires Inv(s) && IsRegistered(s, p) && Gains(s.spaces, s'.spaces, p, n, space)
    ensures IsMember(s', m, q) <==> IsMember(s, m, q) || (m == n && q == p)
  {
    if IsMember(s, m, q) { MemberIsRegistered(s, m, q); }
  }

  lemma EnlistOnly(s: State, p: Peer, n: string)
    ensures forall q: Peer, m: string :: Lists(Enlist(s, p, n), q, m) <==> Lists(s, q, m) || (q == p && m == n)
  {
  }

  /** A peer gets into a namespace. */
  lemma EnterMoves(s: State, p: Peer, n: string, space: Space)
    requires Inv(s) && IsRegistered(s, p) && !Full(space)
    requires n in s.spaces ==> space == s.spaces[n]
    requires n !in s.spaces ==> space.members == map[]
    ensures Moves(s, Enlist(s.(spaces := s.spaces[n := AddMember(space, p)]), p, n), p, n, true)
  {
    var s1 := s.(spaces := s.spaces[n := AddMember(space, p)]);
    var s' := Enlist(s1, p, n);
    assert Gains(s.spaces, s'.spaces, p, n, space);
    forall q: Peer, m: string ensures IsMember(s', m, q) <==> IsMember(s, m, q) || (m == n && q == p) {
      GainsOnly(s, s', p, n, space, m, q);
    }
    EnlistOnly(s1, p, n);
  }

  lemma JoinHasEffect(s: State, p: Peer, n: string, maxPeers: int)
    requires Inv(s) && IsRegistered(s, p)
    ensures JoinEffect(s, Join(s, p, n, maxPeers), p, n, maxPeers)
  {
    if n != "" {
      var space := if n in s.spaces then s.spaces[n] else NewSpace(maxPeers);
      if Full(space) {
        FailedJoinKeepsInv(s, p, n);
        ListedIsMember(s, p, n);
      } else {
        EnterMoves(s, p, n, space);
      }
    }
  }

  lemma OpenRoomHasEffect(s: State, p: Peer, room: string, size: int)
    requires Inv(s) && IsRegistered(s, p)
    ensures OpenRoomEffect(s, CreateRoom(s, p, room, size), p, room, size)
  {
    if room != "" && room !in s.spaces {
      EnterMoves(s, p, room, NewRoom(RoomSize(size), p.fingerprint));
    }
  }

  lemma EnterRoomHasEffect(s: State, p: Peer, room: string)
    requires Inv(s) && IsRegistered(s, p)
    ensures EnterRoomEffect(s, JoinRoom(s, p, room), p, room)
  {
    if room != "" && room in s.spaces && s.spaces[room].isRoom && !Full(s.spaces[room]) {
      EnterMoves(s, p, room, s.spaces[room]);
    } else {
      ListedIsMember(s, p, room);
    }
  }

  /** One namespace loses `p`, or goes when it has nobody else. */
  ghost predicate Loses(spaces: map<string, Space>, spaces': map<string, Space>, p: Peer, n: string) {
    && (forall k :: k != n ==> (k in spaces' <==> k in spaces) && (k in spaces ==> spaces'[k] == spaces[k]))
    && (n in spaces' ==> n in spaces && spaces'[n] == RemoveMember(spaces[n], p.fingerprint))
    && (n in spaces && n !in spaces' ==> RemoveMember(spaces[n], p.fingerprint).members == map[])
  }

  lemma LosesOnly(s: State, s': State, p: Peer, n: string, m: string, q: Peer)
    requires Inv(s) && IsRegistered(s, p) && Loses(s.spaces, s'.spaces, p, n)
    ensures IsMember(s', m, q) <==> IsMember(s, m, q) && !(m == n && q == p)
  {
    if m == n && IsMember(s, n, q) {
      MemberIsRegistered(s, n, q);
      if q != p { assert q.fingerprint in RemoveMember(s.spaces[n], p.fingerprint).members; }
    }
  }

  /** A registered peer gets out of a namespace, which may go. */
  lemma ExitMoves(s: State, p: Peer, n: string, spaces': map<string, Space>)
    requires Inv(s) && IsRegistered(s, p) && Loses(s.spaces, spaces', p, n)
    ensures Moves(s, Delist(s.(spaces := spaces'), p, n), p, n, false)
  {
    var s' := Delist(s.(spaces := spaces'), p, n);
    forall q: Peer, m: string ensures IsMember(s', m, q) <==> IsMember(s, m, q) && !(m == n && q == p) {
      LosesOnly(s, s', p, n, m, q);
    }
    DelistOnly(s.(spaces := spaces'), p, n);
  }

  lemma DelistOnly(s: State, p: Peer, n: string)
    ensures forall q: Peer, m: string :: Lists(Delist(s, p, n), q, m) <==> Lists(s, q, m) && !(q == p && m == n)
  {
  }

  lemma EmptiedIff(s: State, n: string, p: Peer)
    requires Inv(s) && IsRegistered(s, p) && n in s.spaces
    ensures RemoveMember(s.spaces[n], p.fingerprint).members == map[] <==> NobodyElse(s, n, p)
  {
    var left := RemoveMember(s.spaces[n], p.fingerprint).members;
    assert SpaceInv(s, n);
    if left != map[] {
      var f :| f in left;
      assert IsMember(s, n, s.registry[f]);
    }
    forall q: Peer | IsMember(s, n, q) && q != p ensures q.fingerprint in left {
      MemberIsRegistered(s, n, q);
    }
  }

  lemma LeaveHasEffect(s: State, p: Peer, n: string)
    requires Inv(s) && IsRegistered(s, p)
    ensures LeaveEffect(s, Leave(s, p, n), p, n)
  {
    if n != "" {
      ExitMoves(s, p, n, LeaveSpace(s.spaces, n, p.fingerprint));
      if n in s.spaces { EmptiedIff(s, n, p); }
    }
  }

  lemma KickHasEffect(s: State, p: Peer, room: string, f: string, creator: Option<string>)
    requires Inv(s)
    requires creator == if room in s.spaces && s.spaces[room].isRoom then Some(s.spaces[room].owner) else None
    ensures KickEffect(s, Kick(s, p, room, f), p, room, f, creator)
  {
    if MayKick(s, p, room, f) {
      assert ListsAgree(s, s.registry[f]);
      ExitMoves(s, s.registry[f], room, s.spaces[room := RemoveMember(s.spaces[room], f)]);
    }
  }

  lemma ConnectHasEffect(s: State, p: Peer, maxPeers: int)
    requires p !in s.lists && p.fingerprint !in s.registry
    ensures ConnectEffect(s, Register(s, p, maxPeers), p, maxPeers)
  {
    var s' := Register(s, p, maxPeers);
    if |s.registry| < maxPeers {
      assert s' == s.(registry := s.registry[p.fingerprint := p], lists := s.lists[p := {}]);
      forall q: Peer, n: string ensures Lists(s', q, n) <==> q != p && Lists(s, q, n) {}
    }
  }

  lemma DisconnectMembers(s: State, f: string, n: string, q: Peer)
    requires Inv(s) && f in s.registry
    ensures IsMember(Unregister(s, f), n, q) <==> IsMember(s, n, q) && q != s.registry[f]
  {
    var p := s.registry[f];
    assert ListsAgree(s, p);
    if IsMember(s, n, q) {
      MemberIsRegistered(s, n, q);
      if q != p { assert q.fingerprint in RemoveMember(s.spaces[n], f).members; }
    }
  }

  lemma DisconnectSpaces(s: State, f: string, n: string)
    requires Inv(s) && f in s.registry
    ensures var p := s.registry[f];
            n in Unregister(s, f).spaces <==>
            n in s.spaces && !(IsMember(s, n, p) && s.spaces[n].isRoom && NobodyElse(s, n, p))
  {
    var p := s.registry[f];
    assert ListsAgree(s, p);
    if n in s.spaces { EmptiedIff(s, n, p); }
  }

  lemma DisconnectHasEffect(s: State, f: string)
    requires Inv(s)
    ensures DisconnectEffect(s, Unregister(s, f), f)
  {
    if f in s.registry {
      var p, s' := s.registry[f], Unregister(s, f);
      forall q: Peer, n: string ensures IsMember(s', n, q) <==> IsMember(s, n, q) && q != p { DisconnectMembers(s, f, n, q); }
      forall n: string ensures n in s'.spaces <==>
        n in s.spaces && !(IsMember(s, n, p) && s.spaces[n].isRoom && NobodyElse(s, n, p))
      {
        DisconnectSpaces(s, f, n);
      }
    }
  }

  lemma TidyHasEffect(s: State)
    requires Inv(s)
    ensures TidyEffect(s, Cleanup(s))
  {
    forall n | n in s.spaces ensures s.spaces[n].members == map[] <==> Deserted(s, n) {
      assert SpaceInv(s, n);
      if s.spaces[n].members != map[] {
        var f :| f in s.spaces[n].members;
        assert IsMember(s, n, s.registry[f]);
      }
    }
  }

  /** After any run, every event has its effect: who comes in, who goes out, who stays, what
      appears and disappears, and who may put whom out of a room. */
  lemma EveryStepHasItsEffect(run: seq<Event>, ev: Event, maxPeers: int)
    requires ValidRun(Empty, run, maxPeers) && Enabled(Exec(Empty, run, maxPeers), ev)
    ensures var s := Exec(Empty, run, maxPeers); Effect(s, ev, Step(s, ev, maxPeers), maxPeers, run)
  {
    RunKeepsInv(Empty, run, maxPeers);
    var s := Exec(Empty, run, maxPeers);
    match ev {
      case Connect(p) => ConnectHasEffect(s, p, maxPeers);
      case JoinSpace(p, n) => JoinHasEffect(s, p, n, maxPeers);
      case LeaveOne(p, n) => LeaveHasEffect(s, p, n);
      case OpenRoom(p, room, size) => OpenRoomHasEffect(s, p, room, size);
      case EnterRoom(p, room) => EnterRoomHasEffect(s, p, room);
      case KickOut(p, room, f) =>
        OwnerIsCreator(run, room, maxPeers);
        KickHasEffect(s, p, room, f, Creator(run, room, maxPeers));
      case Disconnect(f) => DisconnectHasEffect(s, f);
      case Tidy => TidyHasEffect(s);
    }
  }
}
