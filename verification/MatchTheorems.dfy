/** What the match queue guarantees on every run, and on runs without key switches. */
module MatchTheorems {
  import opened Wrappers
  import opened MatchKey
  import opened Peers
  import opened Matchmaker
  import opened MatchRuns

  // ---- On every run ----

  /** List and buckets hold no fingerprint twice, and an open entry of the list is in the
      bucket of its own key. */
  lemma EveryRunIsTidy(run: seq<Event>, x: WaitingPeer)
    ensures var w := Exec(Start, run);
            && Tidy(w.queue.waiting)
            && (forall k <- w.queue.index :: Tidy(w.queue.index[k]))
            && (x in w.queue.waiting && x.peer !in w.closed ==> x in Bucket(w.queue, KeyOf(x)))
  {
    RunKeepsInv(Start, run);
  }

  /** A bucket never holds a complete group: all its entries have one key and one group
      size g, and there are at most g - 1 of them. */
  lemma NoGroupSitsUnmatched(run: seq<Event>, key: string, x: WaitingPeer)
    requires x in Bucket(Exec(Start, run).queue, key)
    ensures KeyOf(x) == key && |Bucket(Exec(Start, run).queue, key)| <= x.groupSize - 1
    ensures forall y <- Bucket(Exec(Start, run).queue, key) :: y.groupSize == x.groupSize
  {
    RunKeepsInv(Start, run);
    var b := Bucket(Exec(Start, run).queue, key);
    assert BucketInv(b, key);
    forall y <- b ensures y.groupSize == x.groupSize {
      KeyGivesGroupSize(y.groupSize, y.criteria, x.groupSize, x.criteria);
    }
  }

  /** A request is matched exactly if g - 1 other open peers wait in its bucket. The group is
      then those peers in order of arrival, with distinct fingerprints, all under the
      requester's key, and its bucket is left empty. */
  lemma GroupFormation(run: seq<Event>, p: Peer, c: Criteria, groupSize: int)
    ensures var w := Exec(Start, run);
            var g := if groupSize < 2 then 2 else groupSize;
            var key := CriteriaKey(g, c);
            var compatible := set x <- Bucket(w.queue, key) |
                                x.peer !in w.closed && x.peer.fingerprint != p.fingerprint;
            match Matched(w.queue, p, c, groupSize, w.closed)
            case None => |compatible| < g - 1
            case Some(group) =>
              && |group| == g - 1 && Tidy(group) && (set x <- group) == compatible
              && (forall x <- group :: KeyOf(x) == key && x.peer !in w.closed && x.peer.fingerprint != p.fingerprint)
              && Bucket(Request(w.queue, p, c, groupSize, w.closed), key) == []
  {
    var w := Exec(Start, run);
    var key := CriteriaKey(Clamp(groupSize), c);
    RunKeepsInv(Start, run);
    GroupIsBucket(w.queue, w.closed, p, c, groupSize);
    CandidatesFacts(w.queue, w.closed, p, key);
    var open := Candidates(w.queue, p, key, w.closed);
    var compatible := set x <- Bucket(w.queue, key) | x.peer !in w.closed && x.peer.fingerprint != p.fingerprint;
    assert (set x <- open) == compatible;
    TidySize(open);
    if Matched(w.queue, p, c, groupSize, w.closed).Some? {
      MatchEffect(w.queue, w.closed, p, c, groupSize);
    }
  }

  lemma {:induction false} TidySize(ws: seq<WaitingPeer>)
    requires Tidy(ws)
    ensures var members := set x <- ws; |members| == |ws|
  {
    if ws != [] {
      var last := |ws| - 1;
      TidySize(ws[..last]);
      assert ws == ws[..last] + [ws[last]];
      assert (set x <- ws) == (set x <- ws[..last]) + {ws[last]};
      assert ws[last] !in ws[..last];
    }
  }

  /** One request is never placed in two groups. */
  lemma NoTicketTwice(run: seq<Event>, i: nat, j: nat, x: WaitingPeer, y: WaitingPeer)
    requires i < j < |Exec(Start, run).groups|
    requires x in Exec(Start, run).groups[i] && y in Exec(Start, run).groups[j]
    ensures x.ticket != y.ticket
  {
    RunKeepsInv(Start, run);
    assert GroupInv(Exec(Start, run), i) && GroupInv(Exec(Start, run), j);
  }

  // ---- List and index agree exactly without key switches ----

  /** Every open entry of the index is in the list. */
  ghost predicate IndexListed(q: Queue, closed: set<Peer>) {
    forall k, x | x in Bucket(q, k) :: x.peer !in closed ==> x in q.waiting
  }

  /** The peer has no open entry in the list under another key. */
  ghost predicate NoSwitch(q: Queue, closed: set<Peer>, p: Peer, key: string) {
    forall x <- q.waiting :: x.peer.fingerprint == p.fingerprint && x.peer !in closed ==> KeyOf(x) == key
  }

  lemma TidyUnique(ws: seq<WaitingPeer>, x: WaitingPeer, y: WaitingPeer)
    requires Tidy(ws) && x in ws && y in ws && x.peer.fingerprint == y.peer.fingerprint
    ensures x == y
  {
    var i :| 0 <= i < |ws| && ws[i] == x;
    var j :| 0 <= j < |ws| && ws[j] == y;
  }

  /** An entry of another bucket keeps its place in the list when a request under `key`
      does not switch keys. */
  lemma OthersStayListed(w: World, p: Peer, c: Criteria, groupSize: int, k: string, x: WaitingPeer)
    requires WorldInv(w) && IndexListed(w.queue, w.closed)
    requires var key := CriteriaKey(Clamp(groupSize), c); k != key && NoSwitch(w.queue, w.closed, p, key)
    requires x in Bucket(w.queue, k) && x.peer !in w.closed
    ensures x in Request(w.queue, p, c, groupSize, w.closed).waiting
  {
    var q, key := w.queue, CriteriaKey(Clamp(groupSize), c);
    assert x in q.waiting && KeyOf(x) == k;
    var group := Matched(q, p, c, groupSize, w.closed);
    if group.Some? {
      MatchEffect(q, w.closed, p, c, groupSize);
      GroupIsBucket(q, w.closed, p, c, groupSize);
      CandidatesFacts(q, w.closed, p, key);
      if x.peer.fingerprint in Fingerprints(group.value) {
        var i :| 0 <= i < |group.value| && Fingerprints(group.value)[i] == x.peer.fingerprint;
        var y := group.value[i];
        assert y in Bucket(q, key) && KeyOf(y) == key;
        TidyUnique(q.waiting, x, y);
      }
    } else {
      WaitEffect(q, w.closed, p, c, groupSize);
    }
  }

  lemma RequestListsIndex(w: World, p: Peer, c: Criteria, groupSize: int)
    requires WorldInv(w) && IndexListed(w.queue, w.closed)
    requires NoSwitch(w.queue, w.closed, p, CriteriaKey(Clamp(groupSize), c))
    ensures IndexListed(Request(w.queue, p, c, groupSize, w.closed), w.closed)
  {
    var q, key := w.queue, CriteriaKey(Clamp(groupSize), c);
    var q' := Request(q, p, c, groupSize, w.closed);
    if Matched(q, p, c, groupSize, w.closed).Some? {
      MatchEffect(q, w.closed, p, c, groupSize);
    } else {
      WaitEffect(q, w.closed, p, c, groupSize);
    }
    forall k, x | x in Bucket(q', k) && x.peer !in w.closed ensures x in q'.waiting {
      if k != key { OthersStayListed(w, p, c, groupSize, k, x); }
    }
  }

  /** After a request, list and index still agree if and only if the requester was not
      waiting, open, under another key. */
  lemma RequestAgreesIff(w: World, p: Peer, c: Criteria, groupSize: int)
    requires WorldInv(w) && IndexListed(w.queue, w.closed)
    ensures IndexListed(Request(w.queue, p, c, groupSize, w.closed), w.closed)
       <==> NoSwitch(w.queue, w.closed, p, CriteriaKey(Clamp(groupSize), c))
  {
    var q, key := w.queue, CriteriaKey(Clamp(groupSize), c);
    if NoSwitch(q, w.closed, p, key) {
      RequestListsIndex(w, p, c, groupSize);
    } else {
      var x :| x in q.waiting && x.peer.fingerprint == p.fingerprint && x.peer !in w.closed && KeyOf(x) != key;
      var q' := Request(q, p, c, groupSize, w.closed);
      assert x.ticket < q.next;
      if Matched(q, p, c, groupSize, w.closed).Some? {
        MatchEffect(q, w.closed, p, c, groupSize);
      } else {
        WaitEffect(q, w.closed, p, c, groupSize);
      }
      assert x in Bucket(q', KeyOf(x)) && x !in q'.waiting;
    }
  }

  lemma LeaveListsIndex(w: World, fp: string)
    requires WorldInv(w) && IndexListed(w.queue, w.closed)
    ensures IndexListed(RemoveWaiting(w.queue, fp), w.closed)
  {
    var q := w.queue;
    if Has(q.waiting, fp) {
      var first := First(q.waiting, fp);
      RemovePeerKeepsInv(q, w.closed, fp, KeyOf(first));
      var q' := RemoveWaiting(q, fp);
      forall k, x | x in Bucket(q', k) && x.peer !in w.closed ensures x in q'.waiting {
        assert x in Bucket(q, k);
        if x.peer.fingerprint == fp { TidyUnique(q.waiting, x, first); }
      }
    }
  }

  /** List and index agree now and after every event of the run. */
  ghost predicate AgreeThroughout(w: World, run: seq<Event>)
    decreases |run|
  {
    && IndexListed(w.queue, w.closed)
    && (run != [] ==> AgreeThroughout(Step(w, run[0]), run[1..]))
  }

  /** No peer re-requests in this namespace while waiting under another key. */
  ghost predicate NoSwitches(w: World, run: seq<Event>)
    decreases |run|
  {
    run == [] ||
    (&& (run[0].Ask? ==> NoSwitch(w.queue, w.closed, run[0].peer, CriteriaKey(Clamp(run[0].groupSize), run[0].criteria)))
     && NoSwitches(Step(w, run[0]), run[1..]))
  }

  lemma StepAgreesIff(w: World, ev: Event)
    requires WorldInv(w) && IndexListed(w.queue, w.closed)
    ensures IndexListed(Step(w, ev).queue, Step(w, ev).closed)
       <==> (ev.Ask? ==> NoSwitch(w.queue, w.closed, ev.peer, CriteriaKey(Clamp(ev.groupSize), ev.criteria)))
  {
    match ev {
      case Ask(p, c, g) => RequestAgreesIff(w, p, c, g);
      case Leave(fp) => LeaveListsIndex(w, fp);
      case Close(p) =>
    }
  }

  lemma {:induction false} AgreeIffNoSwitches(w: World, run: seq<Event>)
    requires WorldInv(w) && IndexListed(w.queue, w.closed)
    ensures AgreeThroughout(w, run) <==> NoSwitches(w, run)
    decreases |run|
  {
    if run != [] {
      StepAgreesIff(w, run[0]);
      StepKeepsInv(w, run[0]);
      if IndexListed(Step(w, run[0]).queue, Step(w, run[0]).closed) {
        AgreeIffNoSwitches(Step(w, run[0]), run[1..]);
      }
    }
  }

  /** Over a whole run, list and index agree at every moment if and only if no waiting peer
      ever switches keys. */
  lemma ListAndIndexAgree(run: seq<Event>)
    ensures AgreeThroughout(Start, run) <==> NoSwitches(Start, run)
  {
    AgreeIffNoSwitches(Start, run);
  }

  /** What agreement means: the open entries of the list are exactly those of the index, each
      of them in one bucket, and no fingerprint has two. */
  lemma AgreementMeans(run: seq<Event>, x: WaitingPeer, y: WaitingPeer, j: string, k: string)
    requires var w := Exec(Start, run); IndexListed(w.queue, w.closed) && x.peer !in w.closed && y.peer !in w.closed
    ensures var q := Exec(Start, run).queue;
            && (x in q.waiting <==> x in Bucket(q, KeyOf(x)))
            && (x in Bucket(q, j) ==> j == KeyOf(x))
            && (x in Bucket(q, j) && y in Bucket(q, k) && x.peer.fingerprint == y.peer.fingerprint ==> x == y && j == k)
  {
    RunKeepsInv(Start, run);
    var q := Exec(Start, run).queue;
    if x in Bucket(q, j) && y in Bucket(q, k) && x.peer.fingerprint == y.peer.fingerprint {
      TidyUnique(q.waiting, x, y);
    }
  }

  lemma KeysDiffer(c: Criteria)
    requires c == map["mode" := "ranked"]
    ensures CriteriaKey(2, map[]) != CriteriaKey(2, c)
  {
    assert CleanString("mode") && CleanString("ranked");
    PrintedKeyInjective(2, map[], 2, c);
    assert "mode" in c;
  }

  /** With a key switch, a superseded request can still be matched: here one peer asks twice
      under different keys and ends up in a group with two others, one for each request. */
  lemma KeySwitchMatchesTwice(c: Criteria, a: Peer, b: Peer, d: Peer)
    requires c == map["mode" := "ranked"] && a.fingerprint != b.fingerprint && a.fingerprint != d.fingerprint
    ensures var w1 := Step(Start, Ask(a, map[], 2));
            var w2 := Step(w1, Ask(a, c, 2));
            var w3 := Step(w2, Ask(b, map[], 2));
            var w4 := Step(w3, Ask(d, c, 2));
            w4.groups == [[WaitingPeer(0, a, map[], 2)], [WaitingPeer(1, a, c, 2)]]
  {
    var x, y := WaitingPeer(0, a, map[], 2), WaitingPeer(1, a, c, 2);
    KeysDiffer(c);
    var w1 := Step(Start, Ask(a, map[], 2));
    WaitsAlone(Start, a, map[], 2);
    var w2 := Step(w1, Ask(a, c, 2));
    WaitsAlone(w1, a, c, 2);
    var w3 := Step(w2, Ask(b, map[], 2));
    MeetsOne(w2, b, map[], x);
    MeetsOne(w3, d, c, y);
  }

  /** A request under a key nobody waits under. */
  lemma WaitsAlone(w: World, p: Peer, c: Criteria, g: int)
    requires 2 <= g && Bucket(w.queue, CriteriaKey(g, c)) == []
    ensures var x := WaitingPeer(w.queue.next, p, c, g);
            var w' := Step(w, Ask(p, c, g));
            && w'.queue.index == w.queue.index[CriteriaKey(g, c) := [x]] && w'.queue.next == w.queue.next + 1
            && w'.closed == w.closed && w'.groups == w.groups && w'.answers == w.answers + [None]
  {
    assert Candidates(w.queue, p, CriteriaKey(g, c), w.closed) == [];
    assert [] + [WaitingPeer(w.queue.next, p, c, g)] == [WaitingPeer(w.queue.next, p, c, g)];
  }

  /** A request for a pair under a key that one other open peer waits under. */
  lemma MeetsOne(w: World, p: Peer, c: Criteria, x: WaitingPeer)
    requires Bucket(w.queue, CriteriaKey(2, c)) == [x]
    requires x.peer !in w.closed && x.peer.fingerprint != p.fingerprint
    ensures var w' := Step(w, Ask(p, c, 2));
            && w'.queue.index == w.queue.index[CriteriaKey(2, c) := []] && w'.groups == w.groups + [[x]]
            && w'.closed == w.closed && w'.answers == w.answers + [Some([x.peer.fingerprint, p.fingerprint])]
  {
    assert Fingerprints([x]) + [p.fingerprint] == [x.peer.fingerprint, p.fingerprint];
    assert [x][..0] == [] && [x][..1] == [x] && [x][1..] == [];
    assert WithoutFirst([x], p.fingerprint) == [x];
    assert Keep([x], OpenOther(p.fingerprint, w.closed)) == [x];
  }
}
