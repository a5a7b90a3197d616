/**
 Tombstone purging (packages/peer-client/src/sync.ts, lines 108-122 and 278-285).

 A replica `p` that purges and a replica `q` that never does are fed the same events and
 clock readings. The theorems say exactly when nobody can tell them apart.
 */
module TombstonePurge {
  import opened Hlc
  import opened StateSync
  import Replication

  datatype Input =
    | Local(key: string, value: Value, deleted: bool, now: int)
    | Remote(entry: Entry, now: int)
    | Timer(now: int)

  function Plain(q: Replica, i: Input): Replica {
    match i
    case Local(key, value, deleted, now) => Write(q, key, value, deleted, now)
    case Remote(e, now) => Receive(q, e, now)
    case Timer(_) => q
  }

  function Purging(p: Replica, i: Input): Replica {
    match i
    case Timer(now) => Purge(p, now)
    case _ => Plain(p, i)
  }

  /** `get` and `getAll` give the same answers on both now and after every further input. */
  ghost predicate SameForever(p: Replica, q: Replica, inputs: seq<Input>)
    decreases |inputs|
  {
    && GetAll(p.state) == GetAll(q.state) && (forall k :: Get(p.state, k) == Get(q.state, k))
    && (inputs != [] ==> SameForever(Purging(p, inputs[0]), Plain(q, inputs[0]), inputs[1..]))
  }

  /** The purging replica adopts a live entry that the other still knows to be deleted. */
  ghost predicate Resurrects(p: Replica, q: Replica, e: Entry) {
    && !e.deleted
    && e.key in q.state && q.state[e.key].deleted && Compare(e.hlc, q.state[e.key].hlc) <= 0
    && Wins(p.state, e)
  }

  ghost predicate NoResurrection(p: Replica, q: Replica, inputs: seq<Input>)
    decreases |inputs|
  {
    inputs == [] ||
    (&& (inputs[0].Remote? ==> !Resurrects(p, q, inputs[0].entry))
     && NoResurrection(Purging(p, inputs[0]), Plain(q, inputs[0]), inputs[1..]))
  }

  // ---- Exactly when purging is invisible ----

  /** The stores differ only in keys that one has as tombstones and the other has lost or
      has as tombstones no later. */
  ghost predicate Shadows(p: Store, q: Store) {
    && (forall k <- p :: k in q)
    && (forall k <- q :: (k in p && p[k] == q[k]) || Lost(p, q, k))
  }

  ghost predicate Lost(p: Store, q: Store, k: string)
    requires k in q
  {
    q[k].deleted && (k in p ==> p[k].deleted && Compare(p[k].hlc, q[k].hlc) <= 0)
  }

  ghost predicate Follows(p: Replica, q: Replica) {
    p.node == q.node && p.hlc == q.hlc && Shadows(p.state, q.state)
  }

  lemma ShadowsLookAlike(p: Store, q: Store)
    requires Shadows(p, q)
    ensures GetAll(p) == GetAll(q) && forall k :: Get(p, k) == Get(q, k)
  {
    assert GetAll(p).Keys == GetAll(q).Keys;
  }

  /** One remote entry: the two replicas still look alike exactly if it resurrects nothing. */
  lemma ReceiveLooksAlikeIff(p: Replica, q: Replica, e: Entry, now: int)
    requires Follows(p, q)
    ensures GetAll(Receive(p, e, now).state) == GetAll(Receive(q, e, now).state) <==> !Resurrects(p, q, e)
    ensures !Resurrects(p, q, e) ==> Follows(Receive(p, e, now), Receive(q, e, now))
  {
    var p', q' := Receive(p, e, now), Receive(q, e, now);
    if Resurrects(p, q, e) {
      assert e.key in GetAll(p'.state) && e.key !in GetAll(q'.state);
    } else {
      if e.key in q.state && e.key in p.state && p.state[e.key] != q.state[e.key]
         && Compare(e.hlc, q.state[e.key].hlc) > 0 {
        CompareTotal(e.hlc, q.state[e.key].hlc);
        CompareTransitive(p.state[e.key].hlc, q.state[e.key].hlc, e.hlc);
        CompareTotal(e.hlc, p.state[e.key].hlc);
      }
      ShadowsLookAlike(p'.state, q'.state);
    }
  }

  lemma OthersKeepFollowing(p: Replica, q: Replica, i: Input)
    requires Follows(p, q) && !i.Remote?
    ensures Follows(Purging(p, i), Plain(q, i))
  {
  }

  /** Over any sequence of inputs, purging is invisible if and only if no live entry
      resurrects a purged key. */
  lemma {:induction false} PurgeInvisibleIff(p: Replica, q: Replica, inputs: seq<Input>)
    requires Follows(p, q)
    ensures SameForever(p, q, inputs) <==> NoResurrection(p, q, inputs)
    decreases |inputs|
  {
    ShadowsLookAlike(p.state, q.state);
    if inputs != [] {
      var i := inputs[0];
      if i.Remote? {
        ReceiveLooksAlikeIff(p, q, i.entry, i.now);
      } else {
        OthersKeepFollowing(p, q, i);
      }
      if i.Remote? && Resurrects(p, q, i.entry) {
        assert GetAll(Purging(p, i).state) != GetAll(Plain(q, i).state);
      } else {
        PurgeInvisibleIff(Purging(p, i), Plain(q, i), inputs[1..]);
      }
    }
  }

  // ---- The same, seen from the purging replica ----

  /** The tombstones an input makes a replica drop. */
  function Dropped(p: Replica, i: Input): set<Entry> {
    if i.Timer? then set k <- p.state | Expired(p.state[k], i.now) :: p.state[k] else {}
  }

  /** A live entry that the purging replica adopts although it purged a later tombstone. */
  ghost predicate Revives(p: Replica, purged: set<Entry>, e: Entry) {
    !e.deleted && Wins(p.state, e) && exists t <- purged :: t.key == e.key && Compare(e.hlc, t.hlc) <= 0
  }

  /** No input revives anything, given the tombstones purged before it. */
  ghost predicate NothingRevived(p: Replica, purged: set<Entry>, inputs: seq<Input>)
    decreases |inputs|
  {
    inputs == [] ||
    (&& (inputs[0].Remote? ==> !Revives(p, purged, inputs[0].entry))
     && NothingRevived(Purging(p, inputs[0]), purged + Dropped(p, inputs[0]), inputs[1..]))
  }

  /** The purged tombstones account for every difference: where the replicas differ the other
      one holds a purged tombstone, and it is nowhere behind one. */
  ghost predicate Accounts(p: Store, q: Store, purged: set<Entry>) {
    && (forall k <- p :: p[k].key == k)
    && (forall k <- q :: q[k].key == k && ((k in p && p[k] == q[k]) || q[k] in purged))
    && (forall t <- purged :: t.key in q && Compare(t.hlc, q[t.key].hlc) <= 0)
  }

  ghost predicate Tracks(p: Replica, q: Replica, purged: set<Entry>) {
    Follows(p, q) && Accounts(p.state, q.state, purged) && Replication.Dominated(q.state, q.hlc)
  }

  lemma RevivesIsResurrects(p: Replica, q: Replica, purged: set<Entry>, e: Entry)
    requires Tracks(p, q, purged)
    ensures Revives(p, purged, e) <==> Resurrects(p, q, e)
  {
    if Revives(p, purged, e) {
      var t :| t in purged && t.key == e.key && Compare(e.hlc, t.hlc) <= 0;
      CompareTransitive(e.hlc, t.hlc, q.state[e.key].hlc);
    }
  }

  /** A join moves a store past no purged tombstone. */
  lemma JoinStaysAhead(q: Store, purged: set<Entry>, e: Entry)
    requires forall t <- purged :: t.key in q && Compare(t.hlc, q[t.key].hlc) <= 0
    ensures forall t <- purged :: t.key in Join(q, e) && Compare(t.hlc, Join(q, e)[t.key].hlc) <= 0
  {
    forall t <- purged | t.key == e.key && Wins(q, e) ensures Compare(t.hlc, e.hlc) <= 0 {
      CompareTotal(e.hlc, q[e.key].hlc);
      CompareTransitive(t.hlc, q[e.key].hlc, e.hlc);
    }
  }

  /** What the replica that never purges adopts, the other adopts as well. */
  lemma BothAdopt(p: Store, q: Store, e: Entry)
    requires Shadows(p, q) && Wins(q, e)
    ensures Wins(p, e)
  {
    if e.key in p {
      CompareTotal(e.hlc, q[e.key].hlc);
      if p[e.key] != q[e.key] {
        assert Lost(p, q, e.key);
        CompareTransitive(p[e.key].hlc, q[e.key].hlc, e.hlc);
        CompareTotal(p[e.key].hlc, e.hlc);
      }
    }
  }

  lemma JoinKeepsAccounts(p: Store, q: Store, purged: set<Entry>, e: Entry)
    requires Shadows(p, q) && Accounts(p, q, purged)
    ensures Accounts(Join(p, e), Join(q, e), purged)
  {
    JoinStaysAhead(q, purged, e);
    if Wins(q, e) { BothAdopt(p, q, e); }
  }

  lemma RemoteKeepsTracking(p: Replica, q: Replica, purged: set<Entry>, e: Entry, now: int)
    requires Tracks(p, q, purged) && !Resurrects(p, q, e)
    ensures Tracks(Receive(p, e, now), Receive(q, e, now), purged)
  {
    ReceiveLooksAlikeIff(p, q, e, now);
    Replication.ReceiveKeepsDominated(q, e, now);
    JoinKeepsAccounts(p.state, q.state, purged, e);
  }

  lemma LocalKeepsTracking(p: Replica, q: Replica, purged: set<Entry>, i: Input)
    requires Tracks(p, q, purged) && i.Local?
    ensures Tracks(Purging(p, i), Plain(q, i), purged)
  {
    OthersKeepFollowing(p, q, i);
    Replication.WriteKeepsDominated(q, i.key, i.value, i.deleted, i.now);
    var q' := Plain(q, i);
    forall t <- purged ensures Compare(t.hlc, q'.state[t.key].hlc) <= 0 {
      if t.key == i.key {
        Replication.AdvancesDominates(q.state, q.hlc, q'.hlc);
        CompareTransitive(t.hlc, q.state[t.key].hlc, q'.hlc);
      }
    }
  }

  lemma TimerKeepsTracking(p: Replica, q: Replica, purged: set<Entry>, i: Input)
    requires Tracks(p, q, purged) && i.Timer?
    ensures Tracks(Purging(p, i), Plain(q, i), purged + Dropped(p, i))
  {
    OthersKeepFollowing(p, q, i);
    forall t <- Dropped(p, i) ensures t.key in q.state && Compare(t.hlc, q.state[t.key].hlc) <= 0 {
      var k :| k in p.state && p.state[k] == t;
      CompareTotal(t.hlc, t.hlc);
      assert p.state[k] == q.state[k] || Lost(p.state, q.state, k);
    }
  }

  lemma {:induction false} RevivedIff(p: Replica, q: Replica, purged: set<Entry>, inputs: seq<Input>)
    requires Tracks(p, q, purged)
    ensures NothingRevived(p, purged, inputs) <==> NoResurrection(p, q, inputs)
    decreases |inputs|
  {
    if inputs != [] {
      var i := inputs[0];
      if i.Remote? {
        RevivesIsResurrects(p, q, purged, i.entry);
        assert purged + Dropped(p, i) == purged;
      }
      if !(i.Remote? && Resurrects(p, q, i.entry)) {
        InputKeepsTracking(p, q, purged, i);
        RevivedIff(Purging(p, i), Plain(q, i), purged + Dropped(p, i), inputs[1..]);
      }
    }
  }

  lemma InputKeepsTracking(p: Replica, q: Replica, purged: set<Entry>, i: Input)
    requires Tracks(p, q, purged) && (i.Remote? ==> !Resurrects(p, q, i.entry))
    ensures Tracks(Purging(p, i), Plain(q, i), purged + Dropped(p, i))
  {
    assert !i.Timer? ==> purged + Dropped(p, i) == purged;
    match i {
      case Remote(e, now) => RemoteKeepsTracking(p, q, purged, e, now);
      case Local(_, _, _, _) => LocalKeepsTracking(p, q, purged, i);
      case Timer(_) => TimerKeepsTracking(p, q, purged, i);
    }
  }

  /** From any replica whose clock is ahead of its store: purging is invisible for ever if and
      only if the purging replica never adopts a live entry no later than a tombstone for
      its key that it purged before. */
  lemma PurgeInvisibleLocallyIff(r: Replica, inputs: seq<Input>)
    requires Replication.Dominated(r.state, r.hlc) && forall k <- r.state :: r.state[k].key == k
    ensures SameForever(r, r, inputs) <==> NothingRevived(r, {}, inputs)
  {
    PurgeInvisibleIff(r, r, inputs);
    RevivedIff(r, r, {}, inputs);
  }

  // ---- A condition on arrivals alone ----

  /** No entry strictly older than a tombstone purged before, for the same key, arrives; an
      entry with the stamp of a purged tombstone is that tombstone. */
  ghost predicate NoneStale(p: Replica, purged: set<Entry>, inputs: seq<Input>)
    decreases |inputs|
  {
    inputs == [] ||
    (&& (inputs[0].Remote? ==> forall t <- purged | t.key == inputs[0].entry.key :: NotOlder(inputs[0].entry, t))
     && NoneStale(Purging(p, inputs[0]), purged + Dropped(p, inputs[0]), inputs[1..]))
  }

  predicate NotOlder(e: Entry, t: Entry) {
    Compare(e.hlc, t.hlc) > 0 || e == t
  }

  /** Every key the purging replica lost is one of the purged tombstones. */
  ghost predicate LostArePurged(p: Store, q: Store, purged: set<Entry>) {
    && (forall k <- p :: k in q && p[k] == q[k])
    && (forall k <- q :: q[k].key == k)
    && (forall k <- q :: k in p || (q[k].deleted && q[k] in purged))
  }

  lemma NotOlderKeepsPurged(p: Replica, q: Replica, purged: set<Entry>, e: Entry, now: int)
    requires LostArePurged(p.state, q.state, purged)
    requires forall t <- purged | t.key == e.key :: NotOlder(e, t)
    ensures !Resurrects(p, q, e)
    ensures LostArePurged(Receive(p, e, now).state, Receive(q, e, now).state, purged)
  {
    CompareTotal(e.hlc, e.hlc);
  }

  lemma {:induction false} NoneStaleResurrectsNothing(p: Replica, q: Replica, purged: set<Entry>, inputs: seq<Input>)
    requires p.node == q.node && p.hlc == q.hlc && LostArePurged(p.state, q.state, purged)
    requires NoneStale(p, purged, inputs)
    ensures NoResurrection(p, q, inputs)
    decreases |inputs|
  {
    if inputs != [] {
      var i := inputs[0];
      if i.Remote? { NotOlderKeepsPurged(p, q, purged, i.entry, i.now); }
      NoneStaleResurrectsNothing(Purging(p, i), Plain(q, i), purged + Dropped(p, i), inputs[1..]);
    }
  }

  /** From equal replicas on: if nothing arrives that is older than a tombstone purged
      before it, a purging replica and a never-purging one agree for ever. */
  lemma PurgeInvisible(r: Replica, inputs: seq<Input>)
    requires forall k <- r.state :: r.state[k].key == k
    requires NoneStale(r, {}, inputs)
    ensures SameForever(r, r, inputs)
  {
    NoneStaleResurrectsNothing(r, r, {}, inputs);
    PurgeInvisibleIff(r, r, inputs);
  }

  /** Without that condition it fails: delete a key, let the tombstone expire, and a late
      copy of an older update comes back to life in the purging replica only. */
  lemma LateUpdateIsVisible(node: string, e: Entry)
    requires e == Entry("k", Json("1"), HLC(0, 0, "other"), "other", 0, false)
    ensures var (i0, i1, i2) := (Local("k", Undefined, true, 1), Timer(100000), Remote(e, 100000));
            var r := Start(node, 0);
            var p := Purging(Purging(Purging(r, i0), i1), i2);
            var q := Plain(Plain(Plain(r, i0), i1), i2);
            GetAll(p.state) == map["k" := Json("1")] && GetAll(q.state) == map[]
  {
    var d := Write(Start(node, 0), "k", Undefined, true, 1);
    assert d.state == map["k" := Entry("k", Undefined, HLC(1, 0, node), node, 0, true)];
    assert Purge(d, 100000).state == map[];
  }
}
