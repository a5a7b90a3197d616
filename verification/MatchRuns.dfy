/**
 Runs of one match queue: requests, removals, and peers closing at any time
 (matchmaker/matchmaker.go, lines 78-203).
 */
module MatchRuns {
  import opened Wrappers
  import opened MatchKey
  import opened Peers
  import opened Matchmaker

  /** history: `made` lists every entry ever allocated, by ticket; `groups` the groups formed;
      `answers` what the requests were answered, in order. */
  datatype World = World(queue: Queue, closed: set<Peer>, made: seq<WaitingPeer>, groups: seq<seq<WaitingPeer>>,
                         answers: seq<Option<seq<string>>>)

  datatype Event =
    | Ask(peer: Peer, criteria: Criteria, groupSize: int)
    | Leave(fingerprint: string)
    | Close(peer: Peer)

  const Start := World(EmptyQueue, {}, [], [], [])

  ghost function Step(w: World, ev: Event): World {
    var q := w.queue;
    match ev
    case Ask(p, c, g) =>
      var q' := Request(q, p, c, g, w.closed);
      var group := Matched(q, p, c, g, w.closed);
      var w1 := w.(queue := q', answers := w.answers + [Reported(group, p)]);
      if group.Some? then w1.(groups := w.groups + [group.value])
      else w1.(made := w.made + [WaitingPeer(q.next, p, c, Clamp(g))])
    case Leave(fp) => w.(queue := RemoveWaiting(q, fp))
    case Close(p) => w.(closed := w.closed + {p})
  }

  ghost function Exec(w: World, run: seq<Event>): World
    decreases |run|
  {
    if run == [] then w else Exec(Step(w, run[0]), run[1..])
  }

  // ---- Lists of entries ----

  /** In order of arrival, and no fingerprint twice. */
  ghost predicate Tidy(ws: seq<WaitingPeer>) {
    forall i, j :: 0 <= i < j < |ws| ==>
      ws[i].ticket < ws[j].ticket && ws[i].peer.fingerprint != ws[j].peer.fingerprint
  }

  lemma {:induction false} KeepMembers(ws: seq<WaitingPeer>, f: Filter)
    ensures var r := Keep(ws, f);
            |r| <= |ws| && (forall w :: w in r <==> w in ws && f.Passes(w))
  {
    if ws != [] {
      KeepMembers(ws[..|ws| - 1], f);
      assert ws == ws[..|ws| - 1] + [ws[|ws| - 1]];
    }
  }

  lemma {:induction false} KeepTidy(ws: seq<WaitingPeer>, f: Filter)
    requires Tidy(ws)
    ensures Tidy(Keep(ws, f))
  {
    if ws != [] {
      var rest, last := ws[..|ws| - 1], ws[|ws| - 1];
      KeepTidy(rest, f);
      KeepMembers(rest, f);
      assert forall x <- rest :: x.ticket < last.ticket && x.peer.fingerprint != last.peer.fingerprint;
      if f.Passes(last) { AppendTidy(Keep(rest, f), last); }
    }
  }

  lemma KeepFacts(ws: seq<WaitingPeer>, f: Filter)
    ensures var r := Keep(ws, f);
            && |r| <= |ws|
            && (forall w :: w in r <==> w in ws && f.Passes(w))
            && (Tidy(ws) ==> Tidy(r))
  {
    KeepMembers(ws, f);
    if Tidy(ws) { KeepTidy(ws, f); }
  }

  lemma WithoutFirstFacts(ws: seq<WaitingPeer>, fp: string)
    requires Tidy(ws)
    ensures var r := WithoutFirst(ws, fp);
            && |r| <= |ws| && Tidy(r)
            && (forall w :: w in r <==> w in ws && w.peer.fingerprint != fp)
  {
    if Has(ws, fp) {
      var i :| 0 <= i < |ws| && ws[i].peer.fingerprint == fp;
      WithoutFirstAt(ws, fp, i);
      CutFacts(ws, i);
    } else {
      WithoutFirstMisses(ws, fp);
    }
  }

  lemma CutFacts(ws: seq<WaitingPeer>, i: nat)
    requires Tidy(ws) && i < |ws|
    ensures var r := ws[..i] + ws[i + 1..];
            && Tidy(r)
            && (forall w :: w in r <==> w in ws && w.peer.fingerprint != ws[i].peer.fingerprint)
  {
    CutMembers(ws, i);
    CutTidy(ws, i);
  }

  lemma CutMembers(ws: seq<WaitingPeer>, i: nat)
    requires Tidy(ws) && i < |ws|
    ensures forall w :: w in ws[..i] + ws[i + 1..] <==> w in ws && w.peer.fingerprint != ws[i].peer.fingerprint
  {
    assert ws == ws[..i] + [ws[i]] + ws[i + 1..];
    forall w <- ws[..i] ensures w.peer.fingerprint != ws[i].peer.fingerprint {
      var k :| 0 <= k < i && ws[k] == w;
    }
    forall w <- ws[i + 1..] ensures w.peer.fingerprint != ws[i].peer.fingerprint {
      var k :| i < k < |ws| && ws[k] == w;
    }
  }

  lemma CutTidy(ws: seq<WaitingPeer>, i: nat)
    requires Tidy(ws) && i < |ws|
    ensures Tidy(ws[..i] + ws[i + 1..])
  {
    var r := ws[..i] + ws[i + 1..];
    forall j, k | 0 <= j < k < |r|
      ensures r[j].ticket < r[k].ticket && r[j].peer.fingerprint != r[k].peer.fingerprint
    {
      assert r[j] == ws[if j < i then j else j + 1] && r[k] == ws[if k < i then k else k + 1];
    }
  }

  // ---- The invariant of all runs ----

  /** `b` is a possible bucket for `key`: tidy, all entries under that key and under one
      group size `g`, and too few of them for a group. */
  ghost predicate BucketInv(b: seq<WaitingPeer>, key: string) {
    && Tidy(b)
    && (forall x <- b :: KeyOf(x) == key && 2 <= x.groupSize && |b| <= x.groupSize - 1)
  }

  /** Every open entry of the list is in the bucket of its own key. */
  ghost predicate ListIndexed(q: Queue, closed: set<Peer>) {
    forall x <- q.waiting :: x.peer !in closed ==> x in Bucket(q, KeyOf(x))
  }

  ghost predicate QueueInv(q: Queue, closed: set<Peer>) {
    && Tidy(q.waiting)
    && (forall k <- q.index :: BucketInv(q.index[k], k))
    && ListIndexed(q, closed)
  }

  /** Removing a peer from the list and from one bucket, where the bucket is the one its
      open list entry is in. */
  lemma RemovePeerKeepsInv(q: Queue, closed: set<Peer>, fp: string, key: string)
    requires QueueInv(q, closed)
    ensures var q' := RemovePeer(q, fp, key);
            && QueueInv(q', closed)
            && (forall x :: x in q'.waiting <==> x in q.waiting && x.peer.fingerprint != fp)
            && (forall x :: x in Bucket(q', key) <==> x in Bucket(q, key) && x.peer.fingerprint != fp)
            && (forall k | k != key :: Bucket(q', k) == Bucket(q, k))
  {
    var q' := RemovePeer(q, fp, key);
    WithoutFirstFacts(q.waiting, fp);
    WithoutFirstFacts(Bucket(q, key), fp);
    forall x <- q'.waiting | x.peer !in closed ensures x in Bucket(q', KeyOf(x)) {
      assert x in Bucket(q, KeyOf(x));
    }
  }

  lemma CandidatesFacts(q: Queue, closed: set<Peer>, p: Peer, key: string)
    requires QueueInv(q, closed)
    ensures var open := Candidates(q, p, key, closed);
            && BucketInv(open, key)
            && (forall x :: x in open <==> x in Bucket(q, key) && x.peer !in closed && x.peer.fingerprint != p.fingerprint)
  {
    RemovePeerKeepsInv(q, closed, p.fingerprint, key);
    KeepFacts(Bucket(RemovePeer(q, p.fingerprint, key), key), OpenOther(p.fingerprint, closed));
  }

  /** All entries of a bucket have the group size of its key; a request that finds a group
      therefore takes the whole bucket. */
  lemma GroupIsBucket(q: Queue, closed: set<Peer>, p: Peer, c: Criteria, groupSize: int)
    requires QueueInv(q, closed)
    ensures var g := Clamp(groupSize);
            var open := Candidates(q, p, CriteriaKey(g, c), closed);
            && (forall x <- open :: x.groupSize == g)
            && |open| <= g - 1
            && Matched(q, p, c, groupSize, closed) == if |open| == g - 1 then Some(open) else None
  {
    var g := Clamp(groupSize);
    var key := CriteriaKey(g, c);
    var open := Candidates(q, p, key, closed);
    CandidatesFacts(q, closed, p, key);
    forall x <- open ensures x.groupSize == g {
      KeyGivesGroupSize(x.groupSize, x.criteria, g, c);
    }
    if open != [] { assert open[0] in open; }
    if |open| == g - 1 { assert open[..g - 1] == open; }
  }

  predicate Genuine(made: seq<WaitingPeer>, x: WaitingPeer) {
    x.ticket < |made| && made[x.ticket] == x
  }

  ghost predicate AllGenuine(q: Queue, made: seq<WaitingPeer>) {
    && |made| == q.next
    && (forall x <- q.waiting :: Genuine(made, x))
    && (forall k <- q.index :: forall x <- q.index[k] :: Genuine(made, x))
  }

  /** The queue after a group under `key` left it. */
  function GroupGone(q1: Queue, group: seq<WaitingPeer>, key: string): Queue {
    q1.(waiting := Keep(q1.waiting, NoneOf(Fingerprints(group))), index := q1.index[key := []])
  }

  lemma GroupGoneKeepsInv(q1: Queue, closed: set<Peer>, group: seq<WaitingPeer>, key: string)
    requires QueueInv(q1, closed)
    requires forall x <- Bucket(q1, key) :: x.peer !in closed ==> x in group
    ensures QueueInv(GroupGone(q1, group, key), closed)
  {
    var q' := GroupGone(q1, group, key);
    KeepFacts(q1.waiting, NoneOf(Fingerprints(group)));
    forall x <- q'.waiting | x.peer !in closed ensures x in Bucket(q', KeyOf(x)) {
      assert x in Bucket(q1, KeyOf(x));
      if x in group { InFingerprints(group, x); }
    }
  }

  lemma MatchEffectAt(q: Queue, closed: set<Peer>, p: Peer, c: Criteria, g: int, key: string)
    requires QueueInv(q, closed) && 2 <= g && |Candidates(q, p, key, closed)| == g - 1
    ensures var group := Candidates(q, p, key, closed);
            var q' := RequestAt(q, p, c, g, key, closed);
            && Bucket(q', key) == []
            && (forall k | k != key :: Bucket(q', k) == Bucket(q, k))
            && (forall x :: x in q'.waiting <==>
                  x in q.waiting && x.peer.fingerprint != p.fingerprint && x.peer.fingerprint !in Fingerprints(group))
            && QueueInv(q', closed)
  {
    var q1 := RemovePeer(q, p.fingerprint, key);
    var group := Candidates(q, p, key, closed);
    assert RequestAt(q, p, c, g, key, closed) == GroupGone(q1, group, key) by {
      assert group[..g - 1] == group && group[g - 1..] == [];
    }
    RemovePeerKeepsInv(q, closed, p.fingerprint, key);
    CandidatesFacts(q, closed, p, key);
    KeepFacts(q1.waiting, NoneOf(Fingerprints(group)));
    GroupGoneKeepsInv(q1, closed, group, key);
  }

  lemma InFingerprints(ws: seq<WaitingPeer>, x: WaitingPeer)
    requires x in ws
    ensures x.peer.fingerprint in Fingerprints(ws)
  {
    var i :| 0 <= i < |ws| && ws[i] == x;
    assert Fingerprints(ws)[i] == x.peer.fingerprint;
  }

  /** What a request that completes a group does. */
  lemma MatchEffect(q: Queue, closed: set<Peer>, p: Peer, c: Criteria, groupSize: int)
    requires QueueInv(q, closed) && Matched(q, p, c, groupSize, closed).Some?
    ensures var key := CriteriaKey(Clamp(groupSize), c);
            var group := Matched(q, p, c, groupSize, closed).value;
            var q' := Request(q, p, c, groupSize, closed);
            && Bucket(q', key) == []
            && (forall k | k != key :: Bucket(q', k) == Bucket(q, k))
            && (forall x :: x in q'.waiting <==>
                  x in q.waiting && x.peer.fingerprint != p.fingerprint && x.peer.fingerprint !in Fingerprints(group))
            && QueueInv(q', closed)
  {
    GroupIsBucket(q, closed, p, c, groupSize);
    MatchEffectAt(q, closed, p, c, Clamp(groupSize), CriteriaKey(Clamp(groupSize), c));
  }

  /** What a request that has to wait does. */
  lemma WaitEffect(q: Queue, closed: set<Peer>, p: Peer, c: Criteria, groupSize: int)
    requires QueueInv(q, closed) && Matched(q, p, c, groupSize, closed).None?
    requires forall x <- q.waiting :: x.ticket < q.next
    requires forall k <- q.index :: forall x <- q.index[k] :: x.ticket < q.next
    ensures var g := Clamp(groupSize);
            var key := CriteriaKey(g, c);
            var w := WaitingPeer(q.next, p, c, g);
            var q' := Request(q, p, c, groupSize, closed);
            && q'.next == q.next + 1
            && (forall x :: x in Bucket(q', key) <==>
                  x == w || (x in Bucket(q, key) && x.peer !in closed && x.peer.fingerprint != p.fingerprint))
            && (forall k | k != key :: Bucket(q', k) == Bucket(q, k))
            && (forall x :: x in q'.waiting <==> x == w || (x in q.waiting && x.peer.fingerprint != p.fingerprint))
            && QueueInv(q', closed)
  {
    var g := Clamp(groupSize);
    var key := CriteriaKey(g, c);
    var q1 := RemovePeer(q, p.fingerprint, key);
    var q' := Request(q, p, c, groupSize, closed);
    var w := WaitingPeer(q.next, p, c, g);
    var open := Candidates(q, p, key, closed);
    RemovePeerKeepsInv(q, closed, p.fingerprint, key);
    GroupIsBucket(q, closed, p, c, groupSize);
    CandidatesFacts(q, closed, p, key);
    AppendTidy(q1.waiting, w);
    AppendTidy(open, w);
    assert BucketInv(open + [w], key);
    forall x <- q'.waiting | x.peer !in closed ensures x in Bucket(q', KeyOf(x)) {
      if x != w { assert x in Bucket(q1, KeyOf(x)); }
    }
  }

  lemma AppendTidy(ws: seq<WaitingPeer>, w: WaitingPeer)
    requires Tidy(ws) && forall x <- ws :: x.ticket < w.ticket && x.peer.fingerprint != w.peer.fingerprint
    ensures Tidy(ws + [w])
  {
  }

  /** Where entries come from and where they went. */
  ghost predicate WorldInv(w: World) {
    QueueInv(w.queue, w.closed) && HistoryInv(w)
  }

  ghost predicate HistoryInv(w: World) {
    && AllGenuine(w.queue, w.made)
    && (forall i :: 0 <= i < |w.groups| ==> GroupInv(w, i))
  }

  /** The members of a formed group are in no bucket any more, and in no other group. */
  ghost predicate GroupInv(w: World, i: int)
    requires 0 <= i < |w.groups|
  {
    && (forall x <- w.groups[i] :: Genuine(w.made, x) && x !in Bucket(w.queue, KeyOf(x)))
    && (forall j, x :: 0 <= j < i && x in w.groups[i] ==> x !in w.groups[j])
  }

  /** Buckets only lose entries, except that a new ticket may be added. */
  ghost predicate OnlyNew(q: Queue, q': Queue) {
    forall k, x | x in Bucket(q', k) :: x in Bucket(q, k) || x.ticket == q.next
  }

  lemma GroupsStayOut(w: World, w': World, i: int)
    requires 0 <= i < |w.groups| && GroupInv(w, i) && |w.made| == w.queue.next
    requires w.groups <= w'.groups && w.made <= w'.made && OnlyNew(w.queue, w'.queue)
    ensures GroupInv(w', i)
  {
    assert w'.groups[i] == w.groups[i];
    assert forall j :: 0 <= j < i ==> w'.groups[j] == w.groups[j];
  }

  /** What `w'` has more than `w` is genuine. */
  ghost predicate Extends(w: World, w': World) {
    && Adds(w, w')
    && (forall i :: |w.groups| <= i < |w'.groups| ==> GroupInv(w', i))
  }

  ghost predicate Adds(w: World, w': World) {
    && w.groups <= w'.groups && w.made <= w'.made && |w'.made| == w'.queue.next
    && (forall x <- w'.queue.waiting :: x in w.queue.waiting || Genuine(w'.made, x))
    && (forall k, x | x in Bucket(w'.queue, k) ::
          x in Bucket(w.queue, k) || (x.ticket == w.queue.next && Genuine(w'.made, x)))
  }

  lemma ExtendsKeepsHistory(w: World, w': World)
    requires HistoryInv(w) && Extends(w, w')
    ensures HistoryInv(w')
  {
    assert OnlyNew(w.queue, w'.queue);
    OldGroupsStayOut(w, w');
    KeepsGenuine(w, w');
  }

  lemma OldGroupsStayOut(w: World, w': World)
    requires |w.made| == w.queue.next && forall i :: 0 <= i < |w.groups| ==> GroupInv(w, i)
    requires w.groups <= w'.groups && w.made <= w'.made && OnlyNew(w.queue, w'.queue)
    ensures forall i :: 0 <= i < |w.groups| ==> GroupInv(w', i)
  {
    forall i | 0 <= i < |w.groups| ensures GroupInv(w', i) {
      GroupsStayOut(w, w', i);
    }
  }

  lemma MatchExtends(w: World, p: Peer, c: Criteria, groupSize: int)
    requires WorldInv(w) && Matched(w.queue, p, c, groupSize, w.closed).Some?
    ensures var w' := Step(w, Ask(p, c, groupSize)); QueueInv(w'.queue, w'.closed) && Extends(w, w')
  {
    var w' := Step(w, Ask(p, c, groupSize));
    MatchOnlyDrops(w, w', p, c, groupSize);
    NewGroup(w, w', p, c, groupSize);
  }

  lemma MatchOnlyDrops(w: World, w': World, p: Peer, c: Criteria, groupSize: int)
    requires QueueInv(w.queue, w.closed) && Matched(w.queue, p, c, groupSize, w.closed).Some?
    requires |w.made| == w.queue.next && w' == Step(w, Ask(p, c, groupSize))
    ensures QueueInv(w'.queue, w'.closed) && Adds(w, w') && |w'.groups| == |w.groups| + 1
  {
    MatchEffect(w.queue, w.closed, p, c, groupSize);
  }

  lemma WaitExtends(w: World, p: Peer, c: Criteria, groupSize: int)
    requires WorldInv(w) && Matched(w.queue, p, c, groupSize, w.closed).None?
    ensures var w' := Step(w, Ask(p, c, groupSize)); QueueInv(w'.queue, w'.closed) && Extends(w, w')
  {
    WaitEffect(w.queue, w.closed, p, c, groupSize);
  }

  lemma AskKeepsInv(w: World, p: Peer, c: Criteria, groupSize: int)
    requires WorldInv(w)
    ensures WorldInv(Step(w, Ask(p, c, groupSize)))
  {
    if Matched(w.queue, p, c, groupSize, w.closed).Some? {
      MatchExtends(w, p, c, groupSize);
    } else {
      WaitExtends(w, p, c, groupSize);
    }
    ExtendsKeepsHistory(w, Step(w, Ask(p, c, groupSize)));
  }

  lemma KeepsGenuine(w: World, w': World)
    requires AllGenuine(w.queue, w.made) && w.made <= w'.made && |w'.made| == w'.queue.next
    requires forall x <- w'.queue.waiting :: x in w.queue.waiting || Genuine(w'.made, x)
    requires forall k, x | x in Bucket(w'.queue, k) :: x in Bucket(w.queue, k) || Genuine(w'.made, x)
    ensures AllGenuine(w'.queue, w'.made)
  {
    forall k <- w'.queue.index, x <- w'.queue.index[k] ensures Genuine(w'.made, x) {
      assert x in Bucket(w'.queue, k);
    }
  }

  lemma NewGroup(w: World, w': World, p: Peer, c: Criteria, groupSize: int)
    requires WorldInv(w) && Matched(w.queue, p, c, groupSize, w.closed).Some?
    requires w' == Step(w, Ask(p, c, groupSize))
    ensures GroupInv(w', |w.groups|)
  {
    var key := CriteriaKey(Clamp(groupSize), c);
    var group := Matched(w.queue, p, c, groupSize, w.closed).value;
    MatchEffect(w.queue, w.closed, p, c, groupSize);
    GroupIsBucket(w.queue, w.closed, p, c, groupSize);
    CandidatesFacts(w.queue, w.closed, p, key);
    forall x <- group ensures Genuine(w.made, x) && KeyOf(x) == key && x in Bucket(w.queue, key) {
    }
    forall j, x | 0 <= j < |w.groups| && x in group ensures x !in w'.groups[j] {
      assert GroupInv(w, j);
    }
  }

  lemma LeaveKeepsInv(w: World, fp: string)
    requires WorldInv(w)
    ensures WorldInv(Step(w, Leave(fp)))
  {
    var w' := Step(w, Leave(fp));
    if Has(w.queue.waiting, fp) {
      RemovePeerKeepsInv(w.queue, w.closed, fp, KeyOf(First(w.queue.waiting, fp)));
    }
    ExtendsKeepsHistory(w, w');
  }

  lemma StepKeepsInv(w: World, ev: Event)
    requires WorldInv(w)
    ensures WorldInv(Step(w, ev))
  {
    match ev {
      case Ask(p, c, g) => AskKeepsInv(w, p, c, g);
      case Leave(fp) => LeaveKeepsInv(w, fp);
      case Close(p) =>
        ExtendsKeepsHistory(w, Step(w, ev));
    }
  }

  lemma {:induction false} RunKeepsInv(w: World, run: seq<Event>)
    requires WorldInv(w)
    ensures WorldInv(Exec(w, run))
    decreases |run|
  {
    if run != [] {
      StepKeepsInv(w, run[0]);
      RunKeepsInv(Step(w, run[0]), run[1..]);
    }
  }
}
