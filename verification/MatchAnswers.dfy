/**
 What a match request is answered, told by the run before it (matchmaker/matchmaker.go, lines
 78-203): how many peers, who they are, and which of their own requests they are matched for.
 */
module MatchAnswers {
  import opened Wrappers
  import opened MatchKey
  import opened Peers
  import opened Matchmaker
  import opened MatchRuns
  import MatchTheorems

  // ---- Requests of a run ----

  /** A request for `asked` peers is one for a group of `n`: nobody is matched alone. */
  predicate For(asked: int, n: int) {
    n >= 2 && (asked == n || (n == 2 && asked < 2))
  }

  /** The event is a request of this fingerprint that belongs into the bucket `key`. */
  ghost predicate AsksUnder(ev: Event, fp: string, key: string) {
    ev.Ask? && ev.peer.fingerprint == fp && exists n :: For(ev.groupSize, n) && CriteriaKey(n, ev.criteria) == key
  }

  /** The event is the request that made the entry. */
  predicate Makes(ev: Event, x: WaitingPeer) {
    ev.Ask? && ev.peer == x.peer && ev.criteria == x.criteria && For(ev.groupSize, x.groupSize)
  }

  lemma {:induction false} ExecLast(w: World, run: seq<Event>)
    requires run != []
    ensures Exec(w, run) == Step(Exec(w, run[..|run| - 1]), run[|run| - 1])
    decreases |run|
  {
    if |run| == 1 {
      assert run[1..] == [];
    } else {
      assert run[1..][..|run| - 2] == run[..|run| - 1][1..];
      ExecLast(Step(w, run[0]), run[1..]);
    }
  }

  /** When the entries were made: positions of the run, by ticket. */
  ghost function Origins(run: seq<Event>): seq<nat> {
    if run == [] then []
    else
      var before := run[..|run| - 1];
      Origins(before) + if |Exec(Start, run).made| > |Exec(Start, before).made| then [|run| - 1] else []
  }

  ghost predicate Ascending(os: seq<nat>) {
    forall i, j :: 0 <= i < j < |os| ==> os[i] < os[j]
  }

  /** The positions are those of the requests that made the entries. */
  ghost predicate Places(os: seq<nat>, run: seq<Event>, made: seq<WaitingPeer>) {
    |os| == |made| && Ascending(os) && forall t | 0 <= t < |os| :: os[t] < |run| && Makes(run[os[t]], made[t])
  }

  lemma {:induction false} OriginsFacts(run: seq<Event>)
    ensures Places(Origins(run), run, Exec(Start, run).made)
  {
    if run != [] {
      var before, ev := run[..|run| - 1], run[|run| - 1];
      OriginsFacts(before);
      assert run == before + [ev];
      StepPlaces(Origins(before), before, Exec(Start, before), ev);
      OriginsLast(run);
    }
  }

  lemma OriginsLast(run: seq<Event>)
    requires run != []
    ensures var (before, ev) := (run[..|run| - 1], run[|run| - 1]);
            var (made, made') := (Exec(Start, before).made, Step(Exec(Start, before), ev).made);
            && Exec(Start, run).made == made'
            && Origins(run) == Origins(before) + if |made'| > |made| then [|before|] else []
  {
    ExecLast(Start, run);
  }

  /** A step makes no entry, or one for the request it is. */
  lemma StepPlaces(os: seq<nat>, before: seq<Event>, w: World, ev: Event)
    requires Places(os, before, w.made)
    ensures var made := Step(w, ev).made;
            Places(os + if |made| > |w.made| then [|before|] else [], before + [ev], made)
  {
    var run := before + [ev];
    assert forall t | 0 <= t < |os| :: run[os[t]] == before[os[t]];
    assert os + [] == os;
  }

  /** Exactly the peers of the run's closings are closed. */
  lemma {:induction false} ClosedByRun(run: seq<Event>, p: Peer)
    ensures p in Exec(Start, run).closed <==> Close(p) in run
  {
    if run != [] {
      ClosedByRun(run[..|run| - 1], p);
      ExecLast(Start, run);
      StepCloses(Exec(Start, run[..|run| - 1]), run[|run| - 1], p);
      assert run == run[..|run| - 1] + [run[|run| - 1]];
    }
  }

  lemma StepCloses(w: World, ev: Event, p: Peer)
    ensures p in Step(w, ev).closed <==> p in w.closed || ev == Close(p)
  {
  }

  // ---- Entries and the requests they stand for ----

  /** Nobody with this fingerprint asked under `key` after position `i`. */
  ghost predicate NotAgain(run: seq<Event>, i: nat, fp: string, key: string) {
    forall j | i < j < |run| :: !AsksUnder(run[j], fp, key)
  }

  /** The entry stands for a request of the run, the last one of its fingerprint under its key. */
  ghost predicate Stands(run: seq<Event>, x: WaitingPeer) {
    && x.ticket < |Origins(run)| && Origins(run)[x.ticket] < |run| && Makes(run[Origins(run)[x.ticket]], x)
    && NotAgain(run, Origins(run)[x.ticket], x.peer.fingerprint, KeyOf(x))
  }

  lemma MakesUnder(ev: Event, x: WaitingPeer)
    requires Makes(ev, x)
    ensures AsksUnder(ev, x.peer.fingerprint, KeyOf(x))
  {
  }

  /** A request belongs into one bucket only: that of its size, two at least. */
  lemma OneBucket(ev: Event, key: string)
    requires ev.Ask?
    ensures AsksUnder(ev, ev.peer.fingerprint, key) <==> key == CriteriaKey(Clamp(ev.groupSize), ev.criteria)
  {
    if key == CriteriaKey(Clamp(ev.groupSize), ev.criteria) {
      assert For(ev.groupSize, Clamp(ev.groupSize));
    }
  }

  lemma StandsOn(before: seq<Event>, ev: Event, x: WaitingPeer)
    requires Stands(before, x) && !AsksUnder(ev, x.peer.fingerprint, KeyOf(x))
    ensures Stands(before + [ev], x)
  {
    var run := before + [ev];
    assert run[..|before|] == before;
    var i := Origins(before)[x.ticket];
    assert Origins(run)[x.ticket] == i && run[i] == before[i];
    forall j | i < j < |run| ensures !AsksUnder(run[j], x.peer.fingerprint, KeyOf(x)) {
      if j < |before| { assert run[j] == before[j]; }
    }
  }

  ghost predicate AllStand(run: seq<Event>) {
    forall k, x | x in Bucket(Exec(Start, run).queue, k) :: Stands(run, x)
  }

  /** A new entry stands for the request just made. */
  lemma NewStands(before: seq<Event>, ev: Event, x: WaitingPeer)
    requires ev.Ask? && x == WaitingPeer(|Exec(Start, before).made|, ev.peer, ev.criteria, Clamp(ev.groupSize))
    requires |Exec(Start, before + [ev]).made| == |Exec(Start, before).made| + 1
    ensures Stands(before + [ev], x)
  {
    var run := before + [ev];
    assert run[..|before|] == before;
    OriginsFacts(before);
    assert Origins(run)[x.ticket] == |before|;
  }

  lemma AskKeepsStanding(before: seq<Event>, ev: Event)
    requires ev.Ask? && AllStand(before)
    ensures AllStand(before + [ev])
  {
    var run := before + [ev];
    var w, w' := Exec(Start, before), Exec(Start, run);
    assert run[..|before|] == before;
    ExecLast(Start, run);
    MatchRuns.RunKeepsInv(Start, before);
    var key := CriteriaKey(Clamp(ev.groupSize), ev.criteria);
    forall k, x | x in Bucket(w'.queue, k) ensures Stands(run, x) {
      AskLeaves(w, ev, k, x);
      if x in Bucket(w.queue, k) {
        OneBucket(ev, k);
        StandsOn(before, ev, x);
      } else {
        NewStands(before, ev, x);
      }
    }
  }

  /** What is in a bucket after a request: what was there, of other fingerprints in the
      requester's bucket, and perhaps the request itself. */
  lemma AskLeaves(w: World, ev: Event, k: string, x: WaitingPeer)
    requires WorldInv(w) && ev.Ask? && x in Bucket(Step(w, ev).queue, k)
    ensures KeyOf(x) == k
    ensures var key := CriteriaKey(Clamp(ev.groupSize), ev.criteria);
            if x in Bucket(w.queue, k) then k == key ==> x.peer.fingerprint != ev.peer.fingerprint
            else && x == WaitingPeer(|w.made|, ev.peer, ev.criteria, Clamp(ev.groupSize))
                 && |Step(w, ev).made| == |w.made| + 1 && k == key
  {
    StepKeepsInv(w, ev);
    assert BucketInv(Bucket(Step(w, ev).queue, k), k);
    if Matched(w.queue, ev.peer, ev.criteria, ev.groupSize, w.closed).Some? {
      MatchEffect(w.queue, w.closed, ev.peer, ev.criteria, ev.groupSize);
    } else {
      WaitEffect(w.queue, w.closed, ev.peer, ev.criteria, ev.groupSize);
    }
  }

  lemma OtherKeepsStanding(before: seq<Event>, ev: Event)
    requires !ev.Ask? && AllStand(before)
    ensures AllStand(before + [ev])
  {
    var run := before + [ev];
    assert run[..|before|] == before;
    ExecLast(Start, run);
    MatchRuns.RunKeepsInv(Start, before);
    var w := Exec(Start, before);
    forall k, x | x in Bucket(Exec(Start, run).queue, k) ensures Stands(run, x) {
      OtherLeaves(w, ev, k, x);
      StandsOn(before, ev, x);
    }
  }

  lemma OtherLeaves(w: World, ev: Event, k: string, x: WaitingPeer)
    requires WorldInv(w) && !ev.Ask? && x in Bucket(Step(w, ev).queue, k)
    ensures x in Bucket(w.queue, k)
  {
    if ev.Leave? && Has(w.queue.waiting, ev.fingerprint) {
      RemovePeerKeepsInv(w.queue, w.closed, ev.fingerprint, KeyOf(First(w.queue.waiting, ev.fingerprint)));
    }
  }

  lemma {:induction false} EveryEntryStands(run: seq<Event>)
    ensures AllStand(run)
  {
    if run != [] {
      var before, ev := run[..|run| - 1], run[|run| - 1];
      assert run == before + [ev];
      EveryEntryStands(before);
      if ev.Ask? { AskKeepsStanding(before, ev); } else { OtherKeepsStanding(before, ev); }
    }
  }

  // ---- The answer ----

  /** Position `i` of the run is an earlier request of `fp`, for a group of `n` under the same
      key as criteria `c`, the last one of `fp` under that key, and its peer is not closed. */
  ghost predicate Supplies(run: seq<Event>, i: nat, fp: string, c: Criteria, n: int) {
    && i < |run| && run[i].Ask? && run[i].peer.fingerprint == fp && For(run[i].groupSize, n)
    && CriteriaKey(n, run[i].criteria) == CriteriaKey(n, c) && Close(run[i].peer) !in run
    && NotAgain(run, i, fp, CriteriaKey(n, c))
  }

  /** The answer names `n` distinct fingerprints, the requester's last; the others are those of
      earlier requests, in the order in which these came. */
  ghost predicate GoodGroup(run: seq<Event>, fps: seq<string>, p: Peer, c: Criteria, n: int) {
    && |fps| == n >= 2 && fps[n - 1] == p.fingerprint
    && (forall i, j :: 0 <= i < j < n ==> fps[i] != fps[j])
    && exists at: seq<nat> :: |at| == n - 1 && Ascending(at) && forall i | 0 <= i < n - 1 :: Supplies(run, at[i], fps[i], c, n)
  }

  /** After any run a request is answered with nothing or with a good group of exactly the size
      it asked for; two, if it asked for less. */
  lemma AnswerIsGoodGroup(run: seq<Event>, p: Peer, c: Criteria, groupSize: int)
    ensures var answers := Exec(Start, run + [Ask(p, c, groupSize)]).answers;
            && |answers| == |Exec(Start, run).answers| + 1
            && var answer := answers[|answers| - 1];
               answer.Some? ==> GoodGroup(run, answer.value, p, c, if groupSize < 2 then 2 else groupSize)
  {
    var ev := Ask(p, c, groupSize);
    var all := run + [ev];
    assert all[..|run|] == run;
    ExecLast(Start, all);
    var w := Exec(Start, run);
    MatchRuns.RunKeepsInv(Start, run);
    if Matched(w.queue, p, c, groupSize, w.closed).Some? {
      GroupIsGood(run, p, c, groupSize);
    }
  }

  lemma GroupIsGood(run: seq<Event>, p: Peer, c: Criteria, groupSize: int)
    requires var w := Exec(Start, run); Matched(w.queue, p, c, groupSize, w.closed).Some?
    ensures var w := Exec(Start, run);
            GoodGroup(run, Fingerprints(Matched(w.queue, p, c, groupSize, w.closed).value) + [p.fingerprint], p, c,
                      if groupSize < 2 then 2 else groupSize)
  {
    var w := Exec(Start, run);
    var n := Clamp(groupSize);
    MatchRuns.RunKeepsInv(Start, run);
    GroupIsBucket(w.queue, w.closed, p, c, groupSize);
    CandidatesFacts(w.queue, w.closed, p, CriteriaKey(n, c));
    var group := Matched(w.queue, p, c, groupSize, w.closed).value;
    EveryEntryStands(run);
    forall i | 0 <= i < |group| ensures Supplied(run, group[i], c, n) && group[i].peer.fingerprint != p.fingerprint {
      assert group[i] in group && group[i] in Bucket(w.queue, CriteriaKey(n, c));
      MemberSupplies(run, group[i], c, n);
    }
    SuppliedIsGood(run, group, p, c, n);
  }

  ghost predicate Supplied(run: seq<Event>, x: WaitingPeer, c: Criteria, n: int) {
    x.ticket < |Origins(run)| && Supplies(run, Origins(run)[x.ticket], x.peer.fingerprint, c, n)
  }

  lemma SuppliedIsGood(run: seq<Event>, group: seq<WaitingPeer>, p: Peer, c: Criteria, n: int)
    requires 2 <= n == |group| + 1 && Tidy(group)
    requires forall i | 0 <= i < |group| :: Supplied(run, group[i], c, n) && group[i].peer.fingerprint != p.fingerprint
    ensures GoodGroup(run, Fingerprints(group) + [p.fingerprint], p, c, n)
  {
    var fps := Fingerprints(group) + [p.fingerprint];
    DistinctFingerprints(group, p);
    var at := Positions(Origins(run), group);
    OriginsFacts(run);
    PositionsAscend(Origins(run), group);
    forall i | 0 <= i < n - 1 ensures Supplies(run, at[i], fps[i], c, n) {
      assert Supplied(run, group[i], c, n);
    }
  }

  /** Where the entries of a group were made. */
  function Positions(origins: seq<nat>, group: seq<WaitingPeer>): seq<nat>
    requires forall i | 0 <= i < |group| :: group[i].ticket < |origins|
  {
    seq(|group|, i requires 0 <= i < |group| => origins[group[i].ticket])
  }

  lemma PositionsAscend(origins: seq<nat>, group: seq<WaitingPeer>)
    requires Ascending(origins) && Tidy(group) && forall i | 0 <= i < |group| :: group[i].ticket < |origins|
    ensures Ascending(Positions(origins, group))
  {
  }

  lemma DistinctFingerprints(group: seq<WaitingPeer>, p: Peer)
    requires Tidy(group) && forall i | 0 <= i < |group| :: group[i].peer.fingerprint != p.fingerprint
    ensures var fps := Fingerprints(group) + [p.fingerprint];
            && (forall i | 0 <= i < |group| :: fps[i] == group[i].peer.fingerprint)
            && forall i, j :: 0 <= i < j < |fps| ==> fps[i] != fps[j]
  {
  }

  lemma MemberSupplies(run: seq<Event>, x: WaitingPeer, c: Criteria, n: int)
    requires Stands(run, x) && x.groupSize == n && KeyOf(x) == CriteriaKey(n, c) && x.peer !in Exec(Start, run).closed
    ensures Supplies(run, Origins(run)[x.ticket], x.peer.fingerprint, c, n)
  {
    ClosedByRun(run, x.peer);
  }

  // ---- When members are matched for their latest request ----

  /** No request of this fingerprint came after position `i`. */
  ghost predicate IsLatest(run: seq<Event>, i: nat, fp: string) {
    forall j | i < j < |run| :: !(run[j].Ask? && run[j].peer.fingerprint == fp)
  }

  /** Every open entry that a request may be matched with stands for its peer's latest request. */
  ghost predicate AllLatest(run: seq<Event>) {
    var w := Exec(Start, run);
    forall k, x | x in Bucket(w.queue, k) && x.peer !in w.closed ::
      x.ticket < |Origins(run)| && IsLatest(run, Origins(run)[x.ticket], x.peer.fingerprint)
  }

  /** The requester has no open entry in a bucket other than that of its request. */
  ghost predicate NothingElsewhere(w: World, ev: Event)
    requires ev.Ask?
  {
    forall k, x | x in Bucket(w.queue, k) && x.peer !in w.closed && x.peer.fingerprint == ev.peer.fingerprint ::
      AsksUnder(ev, x.peer.fingerprint, k)
  }

  ghost predicate LatestThroughout(run: seq<Event>) {
    AllLatest(run) && (run != [] ==> LatestThroughout(run[..|run| - 1]))
  }

  ghost predicate NothingElsewhereThroughout(run: seq<Event>) {
    run == [] ||
    var (before, ev) := (run[..|run| - 1], run[|run| - 1]);
    (ev.Ask? ==> NothingElsewhere(Exec(Start, before), ev)) && NothingElsewhereThroughout(before)
  }

  lemma LatestOn(before: seq<Event>, ev: Event, x: WaitingPeer)
    requires x.ticket < |Origins(before)| && Origins(before)[x.ticket] < |before|
    ensures var run := before + [ev];
            && x.ticket < |Origins(run)|
            && (IsLatest(run, Origins(run)[x.ticket], x.peer.fingerprint) <==>
                  && IsLatest(before, Origins(before)[x.ticket], x.peer.fingerprint)
                  && !(ev.Ask? && ev.peer.fingerprint == x.peer.fingerprint))
  {
    var run := before + [ev];
    assert run[..|before|] == before;
    var i := Origins(before)[x.ticket];
    assert Origins(run)[x.ticket] == i && run[|before|] == ev;
    assert forall j | 0 <= j < |before| :: run[j] == before[j];
  }

  lemma AskLatestIff(before: seq<Event>, ev: Event)
    requires ev.Ask? && AllLatest(before)
    ensures AllLatest(before + [ev]) <==> NothingElsewhere(Exec(Start, before), ev)
  {
    if NothingElsewhere(Exec(Start, before), ev) {
      AskKeepsLatest(before, ev);
    } else {
      AskLeavesStale(before, ev);
    }
  }

  lemma AskKeepsLatest(before: seq<Event>, ev: Event)
    requires ev.Ask? && AllLatest(before) && NothingElsewhere(Exec(Start, before), ev)
    ensures AllLatest(before + [ev])
  {
    var run := before + [ev];
    var w, w' := Exec(Start, before), Exec(Start, run);
    assert run[..|before|] == before;
    ExecLast(Start, run);
    MatchRuns.RunKeepsInv(Start, before);
    forall k, x | x in Bucket(w'.queue, k) && x.peer !in w'.closed
      ensures x.ticket < |Origins(run)| && IsLatest(run, Origins(run)[x.ticket], x.peer.fingerprint)
    {
      AskLeaves(w, ev, k, x);
      OneBucket(ev, k);
      OriginsFacts(before);
      if x in Bucket(w.queue, k) { LatestOn(before, ev, x); } else { NewStands(before, ev, x); }
    }
  }

  lemma AskLeavesStale(before: seq<Event>, ev: Event)
    requires ev.Ask? && !NothingElsewhere(Exec(Start, before), ev)
    ensures !AllLatest(before + [ev])
  {
    var w, fp := Exec(Start, before), ev.peer.fingerprint;
    EveryEntryStands(before);
    var k, x :| x in Bucket(w.queue, k) && x.peer !in w.closed && x.peer.fingerprint == fp && !AsksUnder(ev, fp, k);
    assert Stands(before, x);
    StaleEntry(before, ev, k, x);
  }

  lemma StaleEntry(before: seq<Event>, ev: Event, k: string, x: WaitingPeer)
    requires var w := Exec(Start, before); x in Bucket(w.queue, k) && x.peer !in w.closed
    requires ev.Ask? && x.peer.fingerprint == ev.peer.fingerprint && !AsksUnder(ev, ev.peer.fingerprint, k)
    requires x.ticket < |Origins(before)| && Origins(before)[x.ticket] < |before|
    ensures !AllLatest(before + [ev])
  {
    var run := before + [ev];
    assert run[..|before|] == before;
    ExecLast(Start, run);
    MatchRuns.RunKeepsInv(Start, before);
    OneBucket(ev, k);
    ElsewhereStays(Exec(Start, before), ev, k, x);
    LatestOn(before, ev, x);
  }

  lemma ElsewhereStays(w: World, ev: Event, k: string, x: WaitingPeer)
    requires WorldInv(w) && ev.Ask? && x in Bucket(w.queue, k) && k != CriteriaKey(Clamp(ev.groupSize), ev.criteria)
    ensures x in Bucket(Step(w, ev).queue, k) && Step(w, ev).closed == w.closed
  {
    if Matched(w.queue, ev.peer, ev.criteria, ev.groupSize, w.closed).Some? {
      MatchEffect(w.queue, w.closed, ev.peer, ev.criteria, ev.groupSize);
    } else {
      WaitEffect(w.queue, w.closed, ev.peer, ev.criteria, ev.groupSize);
    }
  }

  lemma OtherKeepsLatest(before: seq<Event>, ev: Event)
    requires !ev.Ask? && AllLatest(before)
    ensures AllLatest(before + [ev])
  {
    var run := before + [ev];
    assert run[..|before|] == before;
    ExecLast(Start, run);
    MatchRuns.RunKeepsInv(Start, before);
    OriginsFacts(before);
    var w, w' := Exec(Start, before), Exec(Start, run);
    forall k, x | x in Bucket(w'.queue, k) && x.peer !in w'.closed
      ensures x.ticket < |Origins(run)| && IsLatest(run, Origins(run)[x.ticket], x.peer.fingerprint)
    {
      OtherLeaves(w, ev, k, x);
      LatestOn(before, ev, x);
    }
  }

  /** Over a whole run: at every moment everybody who may be matched is matched for their latest
      request, if and only if nobody ever asks with an open entry left in another bucket. */
  lemma {:induction false} LatestIff(run: seq<Event>)
    ensures LatestThroughout(run) <==> NothingElsewhereThroughout(run)
  {
    if run != [] {
      var before, ev := run[..|run| - 1], run[|run| - 1];
      assert run == before + [ev];
      LatestIff(before);
      if LatestThroughout(before) {
        if ev.Ask? { AskLatestIff(before, ev); } else { OtherKeepsLatest(before, ev); }
      }
    }
  }

  /** It is not always so: a peer that asked for a pair, and then for a greater group, is still
      matched for the pair. */
  lemma SupersededRequestMatched(w: World, a: Peer, b: Peer, c: Criteria, g: int)
    requires w.queue.index == map[] && a !in w.closed && a.fingerprint != b.fingerprint && g > 2
    ensures var w1 := Step(w, Ask(a, c, 2));
            var w2 := Step(w1, Ask(a, c, g));
            Step(w2, Ask(b, c, 2)).answers == w.answers + [None, None] + [Some([a.fingerprint, b.fingerprint])]
  {
    AsksTwice(w, a, c, g);
    var w2 := Step(Step(w, Ask(a, c, 2)), Ask(a, c, g));
    MatchTheorems.MeetsOne(w2, b, c, WaitingPeer(w.queue.next, a, c, 2));
  }

  lemma AsksTwice(w: World, a: Peer, c: Criteria, g: int)
    requires w.queue.index == map[] && g > 2
    ensures var w2 := Step(Step(w, Ask(a, c, 2)), Ask(a, c, g));
            && w2.answers == w.answers + [None, None] && w2.closed == w.closed
            && Bucket(w2.queue, CriteriaKey(2, c)) == [WaitingPeer(w.queue.next, a, c, 2)]
  {
    SizesDiffer(c, g);
    MatchTheorems.WaitsAlone(w, a, c, 2);
    MatchTheorems.WaitsAlone(Step(w, Ask(a, c, 2)), a, c, g);
    assert w.answers + [None] + [None] == w.answers + [None, None];
  }

  lemma SizesDiffer(c: Criteria, g: int)
    requires g != 2
    ensures CriteriaKey(2, c) != CriteriaKey(g, c)
  {
    if CriteriaKey(2, c) == CriteriaKey(g, c) { KeyGivesGroupSize(2, c, g, c); }
  }

  // ---- Leaving ----

  /** A peer that leaves is off the list, and everybody else stays on it; buckets only lose
      entries, those of its fingerprint; and if it was on the list, the bucket of its entry
      has none of them any more. */
  lemma LeaveEffect(run: seq<Event>, fp: string)
    ensures var (q, q') := (Exec(Start, run).queue, Exec(Start, run + [Leave(fp)]).queue);
            && (forall x :: x in q'.waiting <==> x in q.waiting && x.peer.fingerprint != fp)
            && (forall k, x :: x in Bucket(q', k) ==> x in Bucket(q, k))
            && (forall k, x :: x in Bucket(q, k) && x.peer.fingerprint != fp ==> x in Bucket(q', k))
            && (forall x, y | x in q.waiting && x.peer.fingerprint == fp && y in Bucket(q', KeyOf(x)) ::
                  y.peer.fingerprint != fp)
  {
    var all := run + [Leave(fp)];
    assert all[..|run|] == run;
    ExecLast(Start, all);
    MatchRuns.RunKeepsInv(Start, run);
    LeaveQueue(Exec(Start, run), fp);
  }

  lemma LeaveQueue(w: World, fp: string)
    requires WorldInv(w)
    ensures var (q, q') := (w.queue, Step(w, Leave(fp)).queue);
            && (forall x :: x in q'.waiting <==> x in q.waiting && x.peer.fingerprint != fp)
            && (forall k, x :: x in Bucket(q', k) ==> x in Bucket(q, k))
            && (forall k, x :: x in Bucket(q, k) && x.peer.fingerprint != fp ==> x in Bucket(q', k))
            && (forall x, y | x in q.waiting && x.peer.fingerprint == fp && y in Bucket(q', KeyOf(x)) ::
                  y.peer.fingerprint != fp)
  {
    var q := w.queue;
    if Has(q.waiting, fp) {
      var first := First(q.waiting, fp);
      RemovePeerKeepsInv(q, w.closed, fp, KeyOf(first));
      forall x <- q.waiting | x.peer.fingerprint == fp ensures x == first { MatchTheorems.TidyUnique(q.waiting, x, first); }
    }
  }
}
