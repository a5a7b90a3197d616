/**
 Runs of the hub's membership handlers: registered peers register, join, leave, create and
 join rooms, kick and unregister, and empty namespaces are cleaned up, in any order.
 */
module Membership {
  import opened Peers
  import opened Hub

  datatype Event =
    | Connect(peer: Peer)
    | JoinSpace(peer: Peer, ns: string)
    | LeaveOne(peer: Peer, ns: string)
    | OpenRoom(peer: Peer, room: string, maxSize: int)
    | EnterRoom(peer: Peer, room: string)
    | KickOut(peer: Peer, room: string, fingerprint: string)
    | Disconnect(fingerprint: string)
    | Tidy

  const Empty := State(map[], map[], map[])

  predicate IsRegistered(s: State, p: Peer) {
    p.fingerprint in s.registry && s.registry[p.fingerprint] == p
  }

  /** Handlers run for registered peers; a connection brings a new peer object, and no
      fingerprint is registered again while it is. */
  predicate Enabled(s: State, ev: Event) {
    match ev
    case Connect(p) => p !in s.lists && p.fingerprint !in s.registry
    case JoinSpace(p, _) => IsRegistered(s, p)
    case LeaveOne(p, _) => IsRegistered(s, p)
    case OpenRoom(p, _, _) => IsRegistered(s, p)
    case EnterRoom(p, _) => IsRegistered(s, p)
    case KickOut(p, _, _) => IsRegistered(s, p)
    case Disconnect(_) => true
    case Tidy => true
  }

  function Step(s: State, ev: Event, maxPeers: int): State {
    match ev
    case Connect(p) => Register(s, p, maxPeers)
    case JoinSpace(p, ns) => Join(s, p, ns, maxPeers)
    case LeaveOne(p, ns) => Leave(s, p, ns)
    case OpenRoom(p, room, size) => CreateRoom(s, p, room, size)
    case EnterRoom(p, room) => JoinRoom(s, p, room)
    case KickOut(p, room, fp) => Kick(s, p, room, fp)
    case Disconnect(fp) => Unregister(s, fp)
    case Tidy => Cleanup(s)
  }

  ghost predicate ValidRun(s: State, run: seq<Event>, maxPeers: int)
    decreases |run|
  {
    run == [] || (Enabled(s, run[0]) && ValidRun(Step(s, run[0], maxPeers), run[1..], maxPeers))
  }

  function Exec(s: State, run: seq<Event>, maxPeers: int): State
    decreases |run|
  {
    if run == [] then s else Exec(Step(s, run[0], maxPeers), run[1..], maxPeers)
  }

  // ---- The invariant ----

  predicate IsMember(s: State, n: string, p: Peer) {
    n in s.spaces && p.fingerprint in s.spaces[n].members && s.spaces[n].members[p.fingerprint] == p
  }

  /** A registered peer lists exactly the namespaces that map its fingerprint to it. */
  ghost predicate ListsAgree(s: State, p: Peer) {
    p in s.lists && forall n :: n in s.lists[p] <==> IsMember(s, n, p)
  }

  /** Members are registered peers, within the size of the namespace. */
  ghost predicate SpaceInv(s: State, n: string)
    requires n in s.spaces
  {
    var space := s.spaces[n];
    && (forall f <- space.members :: f in s.registry && s.registry[f] == space.members[f])
    && |space.members| <= space.maxSize && 0 < space.maxSize
    && (space.isRoom ==> space.maxSize <= 30)
  }

  ghost predicate Inv(s: State) {
    && (forall f <- s.registry :: s.registry[f].fingerprint == f && ListsAgree(s, s.registry[f]))
    && (forall n <- s.spaces :: SpaceInv(s, n))
  }

  lemma SizeAfterAdd(m: map<string, Peer>, k: string, p: Peer)
    ensures |m[k := p]| <= |m| + 1
  {
    assert m[k := p].Keys == m.Keys + {k};
    assert |m[k := p].Keys| <= |m.Keys| + 1;
  }

  lemma SizeAfterRemove(m: map<string, Peer>, k: string)
    ensures |m - {k}| <= |m|
  {
    assert (m - {k}).Keys == m.Keys - {k};
    assert |(m - {k}).Keys| <= |m.Keys|;
  }

  /** What a registered peer `p` does to one namespace keeps the invariant, as long as both
      records of it change together. */
  lemma OneSpaceKeepsInv(s: State, s': State, p: Peer, n: string)
    requires Inv(s) && IsRegistered(s, p) && s'.registry == s.registry
    requires p in s'.lists && forall q <- s.lists :: q in s'.lists && (q == p || s'.lists[q] == s.lists[q])
    requires forall k :: k != n ==> (k in s'.lists[p] <==> k in s.lists[p])
    requires n in s'.lists[p] <==> IsMember(s', n, p)
    requires forall k :: k != n ==> (k in s'.spaces <==> k in s.spaces) && (k in s.spaces ==> s'.spaces[k] == s.spaces[k])
    requires forall q: Peer :: q.fingerprint != p.fingerprint ==> (IsMember(s', n, q) <==> IsMember(s, n, q))
    requires n in s'.spaces ==> SpaceInv(s', n)
    ensures Inv(s')
  {
    forall f <- s'.registry ensures s'.registry[f].fingerprint == f && ListsAgree(s', s'.registry[f]) {
      var q := s.registry[f];
      assert ListsAgree(s, q) && q.fingerprint == f;
      forall k ensures k in s'.lists[q] <==> IsMember(s', k, q) {
        assert k in s.lists[q] <==> IsMember(s, k, q);
      }
    }
    forall k <- s'.spaces ensures SpaceInv(s', k) {
      if k != n { assert SpaceInv(s, k); }
    }
  }

  /** A registered peer gets into a namespace that has room for it, old or new. */
  lemma EnterKeepsInv(s: State, p: Peer, n: string, space: Space)
    requires Inv(s) && IsRegistered(s, p) && !Full(space)
    requires if n in s.spaces then space == s.spaces[n]
             else space.members == map[] && 0 < space.maxSize && (space.isRoom ==> space.maxSize <= 30)
    ensures Inv(Enlist(s.(spaces := s.spaces[n := AddMember(space, p)]), p, n))
  {
    var s' := Enlist(s.(spaces := s.spaces[n := AddMember(space, p)]), p, n);
    SizeAfterAdd(space.members, p.fingerprint, p);
    if n in s.spaces { assert SpaceInv(s, n); }
    assert ListsAgree(s, p);
    OneSpaceKeepsInv(s, s', p, n);
  }

  /** A registered peer leaves a namespace, which may disappear if that empties it. */
  lemma ExitKeepsInv(s: State, p: Peer, n: string, spaces': map<string, Space>)
    requires Inv(s) && IsRegistered(s, p)
    requires forall k :: k != n ==> (k in spaces' <==> k in s.spaces) && (k in s.spaces ==> spaces'[k] == s.spaces[k])
    requires n in spaces' ==> n in s.spaces && spaces'[n] == RemoveMember(s.spaces[n], p.fingerprint)
    requires n in s.spaces && n !in spaces' ==> RemoveMember(s.spaces[n], p.fingerprint).members == map[]
    ensures Inv(Delist(s.(spaces := spaces'), p, n))
  {
    var s' := Delist(s.(spaces := spaces'), p, n);
    assert ListsAgree(s, p);
    if n in s.spaces {
      assert SpaceInv(s, n);
      SizeAfterRemove(s.spaces[n].members, p.fingerprint);
      forall q: Peer | q.fingerprint != p.fingerprint ensures IsMember(s', n, q) <==> IsMember(s, n, q) {
        if IsMember(s, n, q) { assert q.fingerprint in RemoveMember(s.spaces[n], p.fingerprint).members; }
      }
    }
    OneSpaceKeepsInv(s, s', p, n);
  }

  lemma RegisterKeepsInv(s: State, p: Peer, maxPeers: int)
    requires Inv(s) && p !in s.lists && p.fingerprint !in s.registry
    ensures Inv(Register(s, p, maxPeers))
  {
    var s' := Register(s, p, maxPeers);
    forall n <- s'.spaces ensures SpaceInv(s', n) { assert SpaceInv(s, n); }
    forall f <- s'.registry ensures s'.registry[f].fingerprint == f && ListsAgree(s', s'.registry[f]) {
      var q := s'.registry[f];
      if q == p {
        forall n ensures !IsMember(s', n, p) {
          if n in s.spaces { assert SpaceInv(s, n); }
        }
      } else {
        assert ListsAgree(s, q);
        assert forall n :: IsMember(s', n, q) <==> IsMember(s, n, q);
      }
    }
  }

  lemma UnregisterKeepsInv(s: State, fp: string)
    requires Inv(s)
    ensures Inv(Unregister(s, fp))
  {
    if fp in s.registry {
      var p := s.registry[fp];
      var s' := Unregister(s, fp);
      assert ListsAgree(s, p);
      forall n <- s'.spaces ensures SpaceInv(s', n) {
        assert SpaceInv(s, n);
        SizeAfterRemove(s.spaces[n].members, fp);
        if fp in s.spaces[n].members { assert IsMember(s, n, p); }
      }
      forall f <- s'.registry ensures s'.registry[f].fingerprint == f && ListsAgree(s', s'.registry[f]) {
        OtherStays(s, fp, f);
      }
    }
  }

  /** A peer that stays registered keeps its place in every namespace. */
  lemma OtherStays(s: State, fp: string, f: string)
    requires Inv(s) && fp in s.registry && f in s.registry && f != fp
    ensures s.registry[f].fingerprint == f && ListsAgree(Unregister(s, fp), s.registry[f])
  {
    var s' := Unregister(s, fp);
    var q := s.registry[f];
    assert ListsAgree(s, q);
    forall n ensures n in s'.lists[q] <==> IsMember(s', n, q) {
      if IsMember(s, n, q) { assert f in RemoveMember(s.spaces[n], fp).members; }
    }
  }

  lemma CleanupKeepsInv(s: State)
    requires Inv(s)
    ensures Inv(Cleanup(s))
  {
    var s' := Cleanup(s);
    forall n <- s'.spaces ensures SpaceInv(s', n) { assert SpaceInv(s, n); }
    forall f <- s'.registry ensures s'.registry[f].fingerprint == f && ListsAgree(s', s'.registry[f]) {
      var q := s.registry[f];
      assert ListsAgree(s, q);
      forall n ensures IsMember(s', n, q) <==> IsMember(s, n, q) {
        if IsMember(s, n, q) { assert s.spaces[n].members != map[]; }
      }
    }
  }

  lemma FailedJoinKeepsInv(s: State, p: Peer, ns: string)
    requires Inv(s) && ns in s.spaces && Full(s.spaces[ns])
    ensures s.spaces[ns := AddMember(s.spaces[ns], p)] == s.spaces
  {
  }

  lemma JoinKeepsInv(s: State, p: Peer, ns: string, maxPeers: int)
    requires Inv(s) && IsRegistered(s, p)
    ensures Inv(Join(s, p, ns, maxPeers))
  {
    if ns != "" {
      if ns !in s.spaces {
        EnterKeepsInv(s, p, ns, NewSpace(maxPeers));
      } else if Full(s.spaces[ns]) {
        FailedJoinKeepsInv(s, p, ns);
      } else {
        EnterKeepsInv(s, p, ns, s.spaces[ns]);
      }
    }
  }

  lemma StepKeepsInv(s: State, ev: Event, maxPeers: int)
    requires Inv(s) && Enabled(s, ev)
    ensures Inv(Step(s, ev, maxPeers))
  {
    match ev {
      case Connect(p) => RegisterKeepsInv(s, p, maxPeers);
      case JoinSpace(p, ns) => JoinKeepsInv(s, p, ns, maxPeers);
      case LeaveOne(p, ns) =>
        if ns != "" { ExitKeepsInv(s, p, ns, LeaveSpace(s.spaces, ns, p.fingerprint)); }
      case OpenRoom(p, room, size) =>
        if room != "" && room !in s.spaces { EnterKeepsInv(s, p, room, NewRoom(RoomSize(size), p.fingerprint)); }
      case EnterRoom(p, room) =>
        if room in s.spaces && !Full(s.spaces[room]) { EnterKeepsInv(s, p, room, s.spaces[room]); }
      case KickOut(p, room, fp) =>
        if MayKick(s, p, room, fp) {
          ExitKeepsInv(s, s.registry[fp], room, s.spaces[room := RemoveMember(s.spaces[room], fp)]);
        }
      case Disconnect(fp) => UnregisterKeepsInv(s, fp);
      case Tidy => CleanupKeepsInv(s);
    }
  }

  lemma {:induction false} RunKeepsInv(s: State, run: seq<Event>, maxPeers: int)
    requires Inv(s) && ValidRun(s, run, maxPeers)
    ensures Inv(Exec(s, run, maxPeers))
    decreases |run|
  {
    if run != [] {
      StepKeepsInv(s, run[0], maxPeers);
      RunKeepsInv(Step(s, run[0], maxPeers), run[1..], maxPeers);
    }
  }

  // ---- What every run guarantees ----

  /** Both records of membership agree, on every run without live re-registration: a
      registered peer lists a namespace exactly if the namespace exists and maps its
      fingerprint to this very peer, and namespaces have no other members. */
  lemma TwoSidedMembership(run: seq<Event>, maxPeers: int, f: string, n: string)
    requires ValidRun(Empty, run, maxPeers)
    ensures var s := Exec(Empty, run, maxPeers);
            && (f in s.registry ==> (n in Listed(s, s.registry[f]) <==> IsMember(s, n, s.registry[f])))
            && (n in s.spaces && f in s.spaces[n].members ==>
                  f in s.registry && s.registry[f] == s.spaces[n].members[f] && s.registry[f].fingerprint == f)
  {
    RunKeepsInv(Empty, run, maxPeers);
    var s := Exec(Empty, run, maxPeers);
    if f in s.registry { assert ListsAgree(s, s.registry[f]); }
    if n in s.spaces { assert SpaceInv(s, n); }
  }

  /** `SharesNamespace`, which looks at the peers' own lists, is true exactly if some
      namespace has both peers as members. */
  lemma SharesMeansCommonSpace(run: seq<Event>, maxPeers: int, p: Peer, q: Peer)
    requires ValidRun(Empty, run, maxPeers)
    requires IsRegistered(Exec(Empty, run, maxPeers), p) && IsRegistered(Exec(Empty, run, maxPeers), q)
    ensures var s := Exec(Empty, run, maxPeers);
            SharesNamespace(s, p, q) <==>
            exists n <- s.spaces :: p.fingerprint in s.spaces[n].members && q.fingerprint in s.spaces[n].members
  {
    RunKeepsInv(Empty, run, maxPeers);
    var s := Exec(Empty, run, maxPeers);
    assert ListsAgree(s, p) && ListsAgree(s, q);
    if n :| n in s.spaces && p.fingerprint in s.spaces[n].members && q.fingerprint in s.spaces[n].members {
      assert SpaceInv(s, n);
      assert IsMember(s, n, p) && IsMember(s, n, q);
      assert n in Listed(s, p);
    }
    if SharesNamespace(s, p, q) {
      var n :| n in Listed(s, p) && n in Listed(s, q);
      assert IsMember(s, n, p) && IsMember(s, n, q);
    }
  }

  /** Namespaces stay within their size, and rooms within thirty. */
  lemma SizesKept(run: seq<Event>, maxPeers: int, n: string)
    requires ValidRun(Empty, run, maxPeers) && n in Exec(Empty, run, maxPeers).spaces
    ensures var space := Exec(Empty, run, maxPeers).spaces[n];
            |space.members| <= space.maxSize && (space.isRoom ==> |space.members| <= 30)
  {
    RunKeepsInv(Empty, run, maxPeers);
    assert SpaceInv(Exec(Empty, run, maxPeers), n);
  }

  // ---- Live re-registration ----

  /** A new peer object under any fingerprint keeps the agreement if and only if that
      fingerprint was not registered or its old peer was in no namespace: otherwise the old
      object stays in its namespaces. */
  lemma RegisterKeepsInvIff(s: State, p: Peer, maxPeers: int)
    requires Inv(s) && p !in s.lists
    ensures Inv(Register(s, p, maxPeers))
       <==> p.fingerprint !in s.registry || Listed(s, s.registry[p.fingerprint]) == {}
  {
    var s' := Register(s, p, maxPeers);
    if p.fingerprint !in s.registry {
      RegisterKeepsInv(s, p, maxPeers);
    } else {
      var previous := s.registry[p.fingerprint];
      assert ListsAgree(s, previous);
      if n :| n in s.lists[previous] {
        assert IsMember(s, n, previous);
        assert !SpaceInv(s', n);
      } else {
        ReplaceIdle(s, p, maxPeers);
      }
    }
  }

  lemma ReplaceIdle(s: State, p: Peer, maxPeers: int)
    requires Inv(s) && p !in s.lists && p.fingerprint in s.registry && Listed(s, s.registry[p.fingerprint]) == {}
    ensures Inv(Register(s, p, maxPeers))
  {
    var s' := Register(s, p, maxPeers);
    var previous := s.registry[p.fingerprint];
    assert ListsAgree(s, previous);
    forall n <- s'.spaces ensures SpaceInv(s', n) && p.fingerprint !in s.spaces[n].members {
      assert SpaceInv(s, n);
      assert !IsMember(s, n, previous);
    }
    forall f <- s'.registry ensures s'.registry[f].fingerprint == f && ListsAgree(s', s'.registry[f]) {
      var q := s'.registry[f];
      if q != p {
        assert ListsAgree(s, q);
        assert forall n :: IsMember(s', n, q) <==> IsMember(s, n, q);
      }
    }
  }

  /** A second connection under a fingerprint that is registered and in a namespace: the
      namespace keeps the old peer object, which is no longer registered, and the new one
      lists nothing. */
  lemma ReplacedPeerStays(run: seq<Event>, first: Peer, second: Peer)
    requires first == Peer(0, "f") && second == Peer(1, "f") && run == [Connect(first), JoinSpace(first, "n")]
    ensures ValidRun(Empty, run, 100)
    ensures var s := Register(Exec(Empty, run, 100), second, 100);
            && s.registry == map["f" := second] && Listed(s, second) == {}
            && IsMember(s, "n", first) && !Inv(s)
  {
    var s1 := Step(Empty, Connect(first), 100);
    var s2 := Step(s1, JoinSpace(first, "n"), 100);
    assert run[1..] == [JoinSpace(first, "n")] && run[1..][1..] == [];
    assert Exec(s1, run[1..], 100) == s2;
    assert s2.spaces["n"].members == map["f" := first];
    assert !SpaceInv(Register(s2, second, 100), "n");
  }
}
