/**
 The match queue of a namespace and its index (matchmaker/matchmaker.go).

 `WaitingPeer.ticket` stands for the identity of the entries, which the source holds by
 reference. Whether a peer is closed is read from outside: `closed` is the set of
 peers closed at the time of the call. Criteria are kept as they are printed: the queue
 uses them for their key only.
 */
module Matchmaker {
  import opened Wrappers
  import opened MatchKey
  import opened Peers

  datatype WaitingPeer = WaitingPeer(ticket: nat, peer: Peer, criteria: Criteria, groupSize: int)

  /** `next` is the ticket of the next entry to be allocated. */
  datatype Queue = Queue(waiting: seq<WaitingPeer>, index: map<string, seq<WaitingPeer>>, next: nat)

  const EmptyQueue := Queue([], map[], 0)

  // ---- The operations as functions ----

  ghost function KeyOf(w: WaitingPeer): string {
    CriteriaKey(w.groupSize, w.criteria)
  }

  function Bucket(q: Queue, key: string): seq<WaitingPeer> {
    if key in q.index then q.index[key] else []
  }

  /** The two conditions under which the loops of `RequestMatch` keep an entry. */
  datatype Filter = OpenOther(fingerprint: string, closed: set<Peer>) | NoneOf(group: seq<string>) {
    predicate Passes(w: WaitingPeer) {
      match this
      case OpenOther(fp, closed) => w.peer !in closed && w.peer.fingerprint != fp
      case NoneOf(group) => w.peer.fingerprint !in group
    }
  }

  /** The entries that pass `f`, in order. */
  function Keep(ws: seq<WaitingPeer>, f: Filter): seq<WaitingPeer> {
    if ws == [] then []
    else
      var last := |ws| - 1;
      Keep(ws[..last], f) + (if f.Passes(ws[last]) then [ws[last]] else [])
  }

  /** `ws` without its first entry for a fingerprint. */
  function WithoutFirst(ws: seq<WaitingPeer>, fingerprint: string): seq<WaitingPeer> {
    if ws == [] then []
    else if ws[0].peer.fingerprint == fingerprint then ws[1..]
    else [ws[0]] + WithoutFirst(ws[1..], fingerprint)
  }

  predicate Has(ws: seq<WaitingPeer>, fingerprint: string) {
    exists w <- ws :: w.peer.fingerprint == fingerprint
  }

  /** `removePeerLocked`: out of the list, and out of one bucket. */
  function RemovePeer(q: Queue, fingerprint: string, key: string): Queue {
    q.(waiting := WithoutFirst(q.waiting, fingerprint),
       index := if Has(Bucket(q, key), fingerprint)
                then q.index[key := WithoutFirst(Bucket(q, key), fingerprint)] else q.index)
  }

  /** `RemoveFromQueue` on the queue: the peer's entry in the list names the bucket. */
  ghost function RemoveWaiting(q: Queue, fingerprint: string): Queue {
    if !Has(q.waiting, fingerprint) then q
    else RemovePeer(q, fingerprint, KeyOf(First(q.waiting, fingerprint)))
  }

  function First(ws: seq<WaitingPeer>, fingerprint: string): (w: WaitingPeer)
    requires Has(ws, fingerprint)
    ensures w in ws && w.peer.fingerprint == fingerprint
  {
    if ws[0].peer.fingerprint == fingerprint then ws[0] else First(ws[1..], fingerprint)
  }

  function Clamp(groupSize: int): int {
    if groupSize < 2 then 2 else groupSize
  }

  /** The waiting peers a request can be matched with. */
  function Candidates(q: Queue, p: Peer, key: string, closed: set<Peer>): seq<WaitingPeer> {
    Keep(Bucket(RemovePeer(q, p.fingerprint, key), key), OpenOther(p.fingerprint, closed))
  }

  function Fingerprints(ws: seq<WaitingPeer>): seq<string> {
    seq(|ws|, i requires 0 <= i < |ws| => ws[i].peer.fingerprint)
  }

  /** The group that a request under `key` completes, if the bucket holds enough open peers. */
  function GroupAt(q: Queue, p: Peer, groupSize: int, key: string, closed: set<Peer>): Option<seq<WaitingPeer>>
    requires 2 <= groupSize
  {
    var open := Candidates(q, p, key, closed);
    if |open| >= groupSize - 1 then Some(open[..groupSize - 1]) else None
  }

  /** A request under `key`: either a group leaves list and index, or the peer joins both. */
  function RequestAt(q: Queue, p: Peer, criteria: Criteria, groupSize: int, key: string, closed: set<Peer>): Queue
    requires 2 <= groupSize
  {
    var q1 := RemovePeer(q, p.fingerprint, key);
    var open := Candidates(q, p, key, closed);
    match GroupAt(q, p, groupSize, key, closed)
    case Some(group) =>
      q1.(waiting := Keep(q1.waiting, NoneOf(Fingerprints(group))),
          index := q1.index[key := open[groupSize - 1..]])
    case None =>
      var w := WaitingPeer(q.next, p, criteria, groupSize);
      Queue(q1.waiting + [w], q1.index[key := open + [w]], q.next + 1)
  }

  /** `RequestMatch` on the queue of its namespace. */
  ghost function Request(q: Queue, p: Peer, criteria: Criteria, groupSize: int, closed: set<Peer>): Queue {
    var g := Clamp(groupSize);
    RequestAt(q, p, criteria, g, CriteriaKey(g, criteria), closed)
  }

  ghost function Matched(q: Queue, p: Peer, criteria: Criteria, groupSize: int, closed: set<Peer>): Option<seq<WaitingPeer>> {
    var g := Clamp(groupSize);
    GroupAt(q, p, g, CriteriaKey(g, criteria), closed)
  }

  /** The peers that `RequestMatch` reports: the group, then the requester. */
  function Reported(group: Option<seq<WaitingPeer>>, p: Peer): Option<seq<string>> {
    match group
    case None => None
    case Some(ws) => Some(Fingerprints(ws) + [p.fingerprint])
  }

  // ---- The queue and the matchmaker as objects ----

  class QueueObject {
    var waiting: seq<WaitingPeer>
    var index: map<string, seq<WaitingPeer>>
    var next: nat

    ghost function View(): Queue
      reads this
    {
      Queue(waiting, index, next)
    }

    constructor ()
      ensures View() == EmptyQueue
    {
      waiting, index, next := [], map[], 0;
    }

    /** The loop both removals use: cut out the first entry for a fingerprint. */
    static method CutFirst(ws: seq<WaitingPeer>, fingerprint: string) returns (r: seq<WaitingPeer>, found: bool)
      ensures r == WithoutFirst(ws, fingerprint)
      ensures found <==> Has(ws, fingerprint)
    {
      for i := 0 to |ws|
        invariant forall w <- ws[..i] :: w.peer.fingerprint != fingerprint
      {
        if ws[i].peer.fingerprint == fingerprint {
          WithoutFirstAt(ws, fingerprint, i);
          return ws[..i] + ws[i + 1..], true;
        }
      }
      WithoutFirstMisses(ws, fingerprint);
      return ws, false;
    }

    method RemovePeerLocked(fingerprint: string, key: string)
      modifies this`waiting, this`index
      ensures View() == RemovePeer(old(View()), fingerprint, key)
    {
      var cut, found := CutFirst(waiting, fingerprint);
      waiting := cut;
      var indexed := if key in index then index[key] else [];
      cut, found := CutFirst(indexed, fingerprint);
      if found {
        index := index[key := cut];
      }
    }

    /** The body of `RequestMatch` that runs under the queue's lock, once the key is built. */
    method RequestLocked(p: Peer, criteria: Criteria, groupSize: int, key: string, closed: set<Peer>)
      returns (matched: Option<seq<string>>)
      requires 2 <= groupSize
      modifies this
      ensures View() == RequestAt(old(View()), p, criteria, groupSize, key, closed)
      ensures matched == Reported(GroupAt(old(View()), p, groupSize, key, closed), p)
    {
      RemovePeerLocked(p.fingerprint, key);
      ghost var removed := View();
      var indexed := if key in index then index[key] else [];
      var cleaned := Clean(indexed, p.fingerprint, closed);
      assert cleaned == Candidates(old(View()), p, key, closed);
      index := index[key := cleaned];
      if |cleaned| >= groupSize - 1 {
        var group := cleaned[..groupSize - 1];
        index := index[key := cleaned[groupSize - 1..]];
        assert index == removed.index[key := cleaned[groupSize - 1..]];
        var remove := Fingerprints(group);
        waiting := DropAll(waiting, remove);
        matched := Some(remove + [p.fingerprint]);
      } else {
        var wp := WaitingPeer(next, p, criteria, groupSize);
        next := next + 1;
        waiting := waiting + [wp];
        index := index[key := cleaned + [wp]];
        assert index == removed.index[key := cleaned + [wp]];
        matched := None;
      }
    }

    method RequestMatch(p: Peer, criteria: Criteria, groupSize: int, closed: set<Peer>)
      returns (matched: Option<seq<string>>)
      modifies this
      ensures View() == Request(old(View()), p, criteria, groupSize, closed)
      ensures matched == Reported(Matched(old(View()), p, criteria, groupSize, closed), p)
      ensures matched.Some? ==> var group := matched.value;
                                && |group| == (if groupSize < 2 then 2 else groupSize)
                                && group[|group| - 1] == p.fingerprint
    {
      var size := if groupSize < 2 then 2 else groupSize;
      var key := BuildKey(size, criteria);
      matched := RequestLocked(p, criteria, size, key, closed);
    }

    /** The stale-entry loop. */
    static method Clean(indexed: seq<WaitingPeer>, fingerprint: string, closed: set<Peer>) returns (cleaned: seq<WaitingPeer>)
      ensures cleaned == Keep(indexed, OpenOther(fingerprint, closed))
    {
      cleaned := [];
      for i := 0 to |indexed|
        invariant cleaned == Keep(indexed[..i], OpenOther(fingerprint, closed))
      {
        assert indexed[..i + 1][..i] == indexed[..i];
        if indexed[i].peer !in closed && indexed[i].peer.fingerprint != fingerprint {
          cleaned := cleaned + [indexed[i]];
        }
      }
      assert indexed[..|indexed|] == indexed;
    }

    /** The loop that takes a formed group out of the list. */
    static method DropAll(ws: seq<WaitingPeer>, remove: seq<string>) returns (filtered: seq<WaitingPeer>)
      ensures filtered == Keep(ws, NoneOf(remove))
    {
      filtered := [];
      for i := 0 to |ws|
        invariant filtered == Keep(ws[..i], NoneOf(remove))
      {
        assert ws[..i + 1][..i] == ws[..i];
        if ws[i].peer.fingerprint !in remove {
          filtered := filtered + [ws[i]];
        }
      }
      assert ws[..|ws|] == ws;
    }

    /** The body shared by `RemoveFromQueue` and `RemoveFromAllQueues`. */
    method RemoveLocked(fingerprint: string)
      modifies this`waiting, this`index
      ensures View() == RemoveWaiting(old(View()), fingerprint)
    {
      for i := 0 to |waiting|
        invariant forall w <- waiting[..i] :: w.peer.fingerprint != fingerprint
        invariant View() == old(View())
      {
        if waiting[i].peer.fingerprint == fingerprint {
          var wp := waiting[i];
          FirstAt(waiting, fingerprint, i);
          var key := BuildKey(wp.groupSize, wp.criteria);
          var indexed := if key in index then index[key] else [];
          var cut, found := CutFirst(indexed, fingerprint);
          if found {
            index := index[key := cut];
          }
          WithoutFirstAt(waiting, fingerprint, i);
          waiting := waiting[..i] + waiting[i + 1..];
          return;
        }
      }
    }
  }

  class Matchmaker {
    var queues: map<string, QueueObject>

    /** Each namespace has a queue of its own. */
    ghost predicate Valid()
      reads this
    {
      forall m <- queues, n <- queues :: m != n ==> queues[m] != queues[n]
    }

    /** The queue of every namespace that has one. */
    ghost function View(): map<string, Queue>
      reads this, queues.Values
    {
      map ns | ns in queues :: queues[ns].View()
    }

    constructor ()
      ensures Valid() && View() == map[]
    {
      queues := map[];
    }

    method GetQueue(ns: string) returns (q: QueueObject)
      requires Valid()
      modifies this
      ensures Valid() && ns in queues && queues[ns] == q
      ensures q in old(queues.Values) || fresh(q)
      ensures q.View() == QueueOf(old(View()), ns)
      ensures View() == old(View())[ns := q.View()]
    {
      if ns in queues {
        q := queues[ns];
      } else {
        q := new QueueObject();
        queues := queues[ns := q];
      }
    }

    method RequestMatch(p: Peer, ns: string, criteria: Criteria, groupSize: int, closed: set<Peer>)
      returns (matched: Option<seq<string>>)
      requires Valid()
      modifies this, queues.Values
      ensures Valid()
      ensures View() == old(View())[ns := Request(QueueOf(old(View()), ns), p, criteria, groupSize, closed)]
      ensures matched == Reported(Matched(QueueOf(old(View()), ns), p, criteria, groupSize, closed), p)
    {
      ghost var before := View();
      ghost var was := QueueOf(View(), ns);
      var q := GetQueue(ns);
      matched := RequestIn(q, ns, p, criteria, groupSize, closed, was);
      Overwrite(before, ns, was, Request(was, p, criteria, groupSize, closed));
    }

    /** The request, once the queue of the namespace is there. */
    method RequestIn(q: QueueObject, ns: string, p: Peer, criteria: Criteria, groupSize: int, closed: set<Peer>,
                     ghost was: Queue)
      returns (matched: Option<seq<string>>)
      requires Valid() && ns in queues && queues[ns] == q && q.View() == was
      modifies q
      ensures Valid()
      ensures View() == old(View())[ns := Request(was, p, criteria, groupSize, closed)]
      ensures matched == Reported(Matched(was, p, criteria, groupSize, closed), p)
    {
      matched := q.RequestMatch(p, criteria, groupSize, closed);
    }

    method RemoveFromQueue(fingerprint: string, ns: string)
      requires Valid()
      modifies this, queues.Values
      ensures Valid()
      ensures View() == old(View())[ns := RemoveWaiting(QueueOf(old(View()), ns), fingerprint)]
    {
      ghost var before := View();
      ghost var was := QueueOf(View(), ns);
      var q := GetQueue(ns);
      RemoveIn(q, ns, fingerprint, was);
      Overwrite(before, ns, was, RemoveWaiting(was, fingerprint));
    }

    /** The removal, once the queue of the namespace is there. */
    method RemoveIn(q: QueueObject, ns: string, fingerprint: string, ghost was: Queue)
      requires Valid() && ns in queues && queues[ns] == q && q.View() == was
      modifies q
      ensures Valid()
      ensures View() == old(View())[ns := RemoveWaiting(was, fingerprint)]
    {
      q.RemoveLocked(fingerprint);
    }

    method RemoveFromAllQueues(fingerprint: string)
      requires Valid()
      modifies queues.Values
      ensures Valid()
      ensures View() == map ns | ns in old(View()) :: RemoveWaiting(old(View())[ns], fingerprint)
    {
      var names := queues.Keys;
      while names != {}
        invariant names <= queues.Keys
        invariant forall ns <- names :: queues[ns].View() == old(queues[ns].View())
        invariant forall ns <- queues.Keys - names ::
                    queues[ns].View() == RemoveWaiting(old(queues[ns].View()), fingerprint)
      {
        var ns :| ns in names;
        names := names - {ns};
        queues[ns].RemoveLocked(fingerprint);
      }
    }
  }

  lemma Overwrite(m: map<string, Queue>, k: string, a: Queue, b: Queue)
    ensures m[k := a][k := b] == m[k := b]
  {
  }

  function QueueOf(queues: map<string, Queue>, ns: string): Queue {
    if ns in queues then queues[ns] else EmptyQueue
  }

  lemma {:induction false} WithoutFirstAt(ws: seq<WaitingPeer>, fingerprint: string, i: nat)
    requires i < |ws| && ws[i].peer.fingerprint == fingerprint
    requires forall w <- ws[..i] :: w.peer.fingerprint != fingerprint
    ensures WithoutFirst(ws, fingerprint) == ws[..i] + ws[i + 1..]
  {
    if i > 0 {
      assert ws[0] == ws[..i][0];
      assert ws[1..][..i - 1] == ws[..i][1..];
      WithoutFirstAt(ws[1..], fingerprint, i - 1);
      assert ws[..i] == [ws[0]] + ws[1..][..i - 1];
    }
  }

  lemma {:induction false} FirstAt(ws: seq<WaitingPeer>, fingerprint: string, i: nat)
    requires i < |ws| && ws[i].peer.fingerprint == fingerprint
    requires forall w <- ws[..i] :: w.peer.fingerprint != fingerprint
    ensures Has(ws, fingerprint) && First(ws, fingerprint) == ws[i]
  {
    if i > 0 {
      assert ws[0] == ws[..i][0];
      assert ws[1..][..i - 1] == ws[..i][1..];
      FirstAt(ws[1..], fingerprint, i - 1);
    }
  }

  lemma {:induction false} WithoutFirstMisses(ws: seq<WaitingPeer>, fingerprint: string)
    requires !Has(ws, fingerprint)
    ensures WithoutFirst(ws, fingerprint) == ws
  {
    if ws != [] {
      assert forall w <- ws[1..] :: w in ws;
      WithoutFirstMisses(ws[1..], fingerprint);
    }
  }
}
