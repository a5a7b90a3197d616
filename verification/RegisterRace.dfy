/**
 `Register` and `Unregister` interleaved (hub/hub.go, lines 106-137 and 147-160).

 A registration reads the counter, then inserts, then counts; an unregistration deletes,
 then counts. Any number of them may be between two of these steps. The shard locks are
 not modelled: they only exclude some of the interleavings that are allowed here.
 */
module RegisterRace {
  import opened Peers
  import opened Sets
  import Registry

  /** A registration that has read the counter: the fingerprint and the value read. */
  datatype Pending = Pending(fingerprint: string, seen: int)

  /** `counting` and `uncounting` are the threads that have inserted or deleted but not yet
      adjusted the counter. */
  datatype State = State(registered: set<string>, count: int, loaded: map<nat, Pending>,
                         counting: set<nat>, uncounting: set<nat>)

  datatype Event =
    | Load(thread: nat, fingerprint: string)
    | Insert(thread: nat)
    | Add(thread: nat)
    | Delete(thread: nat, fingerprint: string)
    | Subtract(thread: nat)

  const Empty := State({}, 0, map[], {}, {})

  /** Registrations that have started and not finished. */
  function InFlight(s: State): nat {
    |s.loaded| + |s.counting|
  }

  predicate Idle(s: State, t: nat) {
    t !in s.loaded && t !in s.counting && t !in s.uncounting
  }

  /** At most `threads` registrations are in flight at once. */
  predicate Enabled(s: State, ev: Event, threads: nat) {
    match ev
    case Load(t, _) => Idle(s, t) && InFlight(s) < threads
    case Insert(t) => t in s.loaded
    case Add(t) => t in s.counting
    case Delete(t, _) => Idle(s, t)
    case Subtract(t) => t in s.uncounting
  }

  function Step(s: State, ev: Event, maxPeers: int): State
    requires ev.Insert? ==> ev.thread in s.loaded
  {
    match ev
    case Load(t, fp) => s.(loaded := s.loaded[t := Pending(fp, s.count)])
    case Insert(t) =>
      var p := s.loaded[t];
      var s1 := s.(loaded := s.loaded - {t});
      if p.fingerprint in s.registered || p.seen >= maxPeers then s1
      else s1.(registered := s.registered + {p.fingerprint}, counting := s.counting + {t})
    case Add(t) => s.(count := s.count + 1, counting := s.counting - {t})
    case Delete(t, fp) =>
      if fp in s.registered then s.(registered := s.registered - {fp}, uncounting := s.uncounting + {t}) else s
    case Subtract(t) => s.(count := s.count - 1, uncounting := s.uncounting - {t})
  }

  predicate ValidRun(s: State, run: seq<Event>, maxPeers: int, threads: nat)
    decreases |run|
  {
    run == [] || (Enabled(s, run[0], threads) && ValidRun(Step(s, run[0], maxPeers), run[1..], maxPeers, threads))
  }

  function Exec(s: State, run: seq<Event>, maxPeers: int, threads: nat): State
    requires ValidRun(s, run, maxPeers, threads)
    decreases |run|
  {
    if run == [] then s else Exec(Step(s, run[0], maxPeers), run[1..], maxPeers, threads)
  }

  // ---- What every step keeps ----

  /** The loaded registrations that will not be refused for want of room. */
  function Passing(loaded: map<nat, Pending>, maxPeers: int): set<nat> {
    set t <- loaded | loaded[t].seen < maxPeers
  }

  predicate Inv(s: State, maxPeers: int, threads: nat) {
    && s.count == |s.registered| - |s.counting| + |s.uncounting|
    && s.loaded.Keys !! s.counting && s.loaded.Keys !! s.uncounting && s.counting !! s.uncounting
    && InFlight(s) <= threads
    && |s.registered| + |Passing(s.loaded, maxPeers)| <= maxPeers + threads - 1
  }

  lemma LoadKeepsInv(s: State, t: nat, fp: string, maxPeers: int, threads: nat)
    requires Inv(s, maxPeers, threads) && Enabled(s, Load(t, fp), threads)
    ensures Inv(Step(s, Load(t, fp), maxPeers), maxPeers, threads)
  {
    var s' := Step(s, Load(t, fp), maxPeers);
    assert s'.loaded.Keys == s.loaded.Keys + {t};
    assert |s'.loaded.Keys| == |s.loaded.Keys| + 1;
    SubsetSize(Passing(s'.loaded, maxPeers), s'.loaded.Keys);
    if s.count >= maxPeers {
      assert Passing(s'.loaded, maxPeers) == Passing(s.loaded, maxPeers);
    }
  }

  lemma InsertLeavesLoaded(s: State, t: nat, maxPeers: int)
    requires t in s.loaded
    ensures var loaded' := s.loaded - {t};
            && |loaded'| == |s.loaded| - 1 && loaded'.Keys == s.loaded.Keys - {t}
            && |Passing(loaded', maxPeers)| == |Passing(s.loaded, maxPeers)| - (if s.loaded[t].seen < maxPeers then 1 else 0)
  {
    var loaded' := s.loaded - {t};
    assert loaded'.Keys == s.loaded.Keys - {t};
    assert |loaded'.Keys| == |s.loaded.Keys| - 1;
    assert Passing(loaded', maxPeers) == Passing(s.loaded, maxPeers) - {t};
  }

  lemma InsertKeepsInv(s: State, t: nat, maxPeers: int, threads: nat)
    requires Inv(s, maxPeers, threads) && t in s.loaded
    ensures Inv(Step(s, Insert(t), maxPeers), maxPeers, threads)
  {
    InsertLeavesLoaded(s, t, maxPeers);
    var p := s.loaded[t];
    if p.fingerprint !in s.registered && p.seen < maxPeers {
      assert |s.registered + {p.fingerprint}| == |s.registered| + 1;
      assert |s.counting + {t}| == |s.counting| + 1;
    }
  }

  lemma StepKeepsInv(s: State, ev: Event, maxPeers: int, threads: nat)
    requires Inv(s, maxPeers, threads) && Enabled(s, ev, threads)
    ensures Inv(Step(s, ev, maxPeers), maxPeers, threads)
  {
    match ev {
      case Load(t, fp) => LoadKeepsInv(s, t, fp, maxPeers, threads);
      case Insert(t) => InsertKeepsInv(s, t, maxPeers, threads);
      case Add(t) => AddKeepsInv(s, t, maxPeers, threads);
      case Delete(t, fp) => DeleteKeepsInv(s, t, fp, maxPeers, threads);
      case Subtract(t) =>
    }
  }

  lemma AddKeepsInv(s: State, t: nat, maxPeers: int, threads: nat)
    requires Inv(s, maxPeers, threads) && t in s.counting
    ensures Inv(Step(s, Add(t), maxPeers), maxPeers, threads)
  {
    assert |s.counting - {t}| == |s.counting| - 1;
  }

  lemma DeleteKeepsInv(s: State, t: nat, fp: string, maxPeers: int, threads: nat)
    requires Inv(s, maxPeers, threads) && Idle(s, t)
    ensures Inv(Step(s, Delete(t, fp), maxPeers), maxPeers, threads)
  {
    if fp in s.registered {
      assert |s.registered - {fp}| == |s.registered| - 1;
      assert |s.uncounting + {t}| == |s.uncounting| + 1;
    }
  }

  lemma {:induction false} RunKeepsInv(s: State, run: seq<Event>, maxPeers: int, threads: nat)
    requires Inv(s, maxPeers, threads) && ValidRun(s, run, maxPeers, threads)
    ensures Inv(Exec(s, run, maxPeers, threads), maxPeers, threads)
    decreases |run|
  {
    if run != [] {
      StepKeepsInv(s, run[0], maxPeers, threads);
      RunKeepsInv(Step(s, run[0], maxPeers), run[1..], maxPeers, threads);
    }
  }

  /** At every moment of every interleaving the counter is the number of registered peers,
      less those inserted and not yet counted, plus those deleted and still counted. */
  lemma CounterLaw(run: seq<Event>, maxPeers: nat, threads: nat)
    requires 0 < threads && ValidRun(Empty, run, maxPeers, threads)
    ensures var s := Exec(Empty, run, maxPeers, threads);
            && s.count == |s.registered| - |s.counting| + |s.uncounting|
            && (s.counting == {} && s.uncounting == {} ==> s.count == |s.registered|)
  {
    RunKeepsInv(Empty, run, maxPeers, threads);
  }

  /** With at most `threads` registrations in flight the limit is overshot by at most
      `threads - 1`; a single one at a time never overshoots it. */
  lemma BoundedOvershoot(run: seq<Event>, maxPeers: nat, threads: nat)
    requires 0 < threads && ValidRun(Empty, run, maxPeers, threads)
    ensures |Exec(Empty, run, maxPeers, threads).registered| <= maxPeers + threads - 1
    ensures threads == 1 ==> |Exec(Empty, run, maxPeers, threads).registered| <= maxPeers
  {
    RunKeepsInv(Empty, run, maxPeers, threads);
  }

  // ---- The bound is reached ----

  /** Every registration inserts right after it read the counter, as if one lock covered both:
      the shard locks, and even a single one for all shards, allow such a run. */
  ghost predicate UnderLock(run: seq<Event>) {
    forall i | 0 <= i < |run| :: InsertsNext(run, i)
  }

  predicate InsertsNext(run: seq<Event>, i: int)
    requires 0 <= i < |run|
  {
    run[i].Load? ==> i + 1 < |run| && run[i + 1] == Insert(run[i].thread)
  }

  lemma UnderLockConcat(run1: seq<Event>, run2: seq<Event>)
    requires UnderLock(run1) && UnderLock(run2)
    ensures UnderLock(run1 + run2)
  {
    forall i | 0 <= i < |run1 + run2| ensures InsertsNext(run1 + run2, i) {
      assert if i < |run1| then InsertsNext(run1, i) else InsertsNext(run2, i - |run1|);
    }
  }

  lemma {:induction false} RunConcat(s: State, run1: seq<Event>, run2: seq<Event>, maxPeers: int, threads: nat)
    requires ValidRun(s, run1, maxPeers, threads)
    requires ValidRun(Exec(s, run1, maxPeers, threads), run2, maxPeers, threads)
    ensures ValidRun(s, run1 + run2, maxPeers, threads)
    ensures Exec(s, run1 + run2, maxPeers, threads) == Exec(Exec(s, run1, maxPeers, threads), run2, maxPeers, threads)
    decreases |run1|
  {
    if run1 == [] {
      assert run1 + run2 == run2;
    } else {
      assert (run1 + run2)[1..] == run1[1..] + run2;
      RunConcat(Step(s, run1[0], maxPeers), run1[1..], run2, maxPeers, threads);
    }
  }

  /** One more event after a run. */
  lemma Then(s: State, run: seq<Event>, ev: Event, maxPeers: int, threads: nat)
    requires ValidRun(s, run, maxPeers, threads) && Enabled(Exec(s, run, maxPeers, threads), ev, threads)
    ensures ValidRun(s, run + [ev], maxPeers, threads)
    ensures Exec(s, run + [ev], maxPeers, threads) == Step(Exec(s, run, maxPeers, threads), ev, maxPeers)
  {
    var mid := Exec(s, run, maxPeers, threads);
    assert [ev][1..] == [] && ValidRun(Step(mid, ev, maxPeers), [], maxPeers, threads);
    RunConcat(s, run, [ev], maxPeers, threads);
  }

  /** Fingerprints of different lengths. */
  function Name(k: nat): string {
    seq(k, _ => 'a')
  }

  function Names(n: nat): set<string> {
    if n == 0 then {} else Names(n - 1) + {Name(n - 1)}
  }

  lemma {:induction false} NamesSize(n: nat)
    ensures |Names(n)| == n && forall x <- Names(n) :: |x| < n
  {
    if n > 0 { NamesSize(n - 1); }
  }

  /** One peer registered after `n` others. */
  lemma RegisterOne(n: nat, maxPeers: nat, threads: nat) returns (run: seq<Event>)
    requires n < maxPeers && 0 < threads
    ensures var s := State(Names(n), n, map[], {}, {});
            && ValidRun(s, run, maxPeers, threads) && UnderLock(run)
            && Exec(s, run, maxPeers, threads) == State(Names(n + 1), n + 1, map[], {}, {})
  {
    var s := State(Names(n), n, map[], {}, {});
    NamesSize(n);
    run := [];
    Then(s, run, Load(0, Name(n)), maxPeers, threads);
    run := run + [Load(0, Name(n))];
    assert Exec(s, run, maxPeers, threads) == State(Names(n), n, map[0 := Pending(Name(n), n)], {}, {});
    Then(s, run, Insert(0), maxPeers, threads);
    run := run + [Insert(0)];
    assert map[0 := Pending(Name(n), n)] - {0} == map[];
    assert Exec(s, run, maxPeers, threads) == State(Names(n + 1), n, map[], {0}, {});
    Then(s, run, Add(0), maxPeers, threads);
    run := run + [Add(0)];
  }

  /** `n` peers registered one after another. */
  lemma {:induction false} RegisterSerially(s0: State, n: nat, maxPeers: nat, threads: nat) returns (run: seq<Event>)
    requires s0 == Empty && n <= maxPeers && 0 < threads
    ensures ValidRun(s0, run, maxPeers, threads) && UnderLock(run)
    ensures Exec(s0, run, maxPeers, threads) == State(Names(n), n, map[], {}, {})
  {
    if n == 0 {
      assert Names(0) == {};
      run := [];
    } else {
      var before := RegisterSerially(s0, n - 1, maxPeers, threads);
      NamesSize(n - 1);
      var rest := RegisterOne(n - 1, maxPeers, threads);
      RunConcat(s0, before, rest, maxPeers, threads);
      UnderLockConcat(before, rest);
      run := before + rest;
    }
  }

  /** The threads with numbers below `k`. */
  function Below(k: nat): set<nat> {
    if k == 0 then {} else Below(k - 1) + {k - 1}
  }

  lemma {:induction false} BelowSize(k: nat)
    ensures |Below(k)| == k && forall t <- Below(k) :: t < k
  {
    if k > 0 { BelowSize(k - 1); }
  }

  /** `n` peers registered and counted, and `k` more inserted that no thread has counted yet. */
  function Rushed(n: nat, k: nat): State {
    State(Names(n + k), n, map[], Below(k), {})
  }

  /** One more thread reads the counter, still at `n`, and inserts. */
  lemma RushOne(n: nat, k: nat, maxPeers: nat, threads: nat)
    requires n < maxPeers && k < threads
    ensures var (s, load) := (Rushed(n, k), Load(k, Name(n + k)));
            && Enabled(s, load, threads) && Enabled(Step(s, load, maxPeers), Insert(k), threads)
            && Step(Step(s, load, maxPeers), Insert(k), maxPeers) == Rushed(n, k + 1)
  {
    BelowSize(k);
    NamesSize(n + k);
    assert |Name(n + k)| == n + k;
    assert map[k := Pending(Name(n + k), n)] - {k} == map[];
    assert Below(k + 1) == Below(k) + {k};
  }

  lemma RushNext(s0: State, before: seq<Event>, n: nat, k: nat, maxPeers: nat, threads: nat) returns (run: seq<Event>)
    requires n < maxPeers && k < threads && ValidRun(s0, before, maxPeers, threads) && UnderLock(before)
    requires Exec(s0, before, maxPeers, threads) == Rushed(n, k)
    ensures ValidRun(s0, run, maxPeers, threads) && UnderLock(run)
    ensures Exec(s0, run, maxPeers, threads) == Rushed(n, k + 1)
  {
    var load := Load(k, Name(n + k));
    RushOne(n, k, maxPeers, threads);
    Then(s0, before, load, maxPeers, threads);
    Then(s0, before + [load], Insert(k), maxPeers, threads);
    UnderLockConcat(before, [load, Insert(k)]);
    assert before + [load] + [Insert(k)] == before + [load, Insert(k)];
    run := before + [load, Insert(k)];
  }

  lemma {:induction false} Rush(s0: State, start: seq<Event>, n: nat, k: nat, maxPeers: nat, threads: nat) returns (run: seq<Event>)
    requires n < maxPeers && k <= threads && ValidRun(s0, start, maxPeers, threads) && UnderLock(start)
    requires Exec(s0, start, maxPeers, threads) == Rushed(n, 0)
    ensures ValidRun(s0, run, maxPeers, threads) && UnderLock(run)
    ensures Exec(s0, run, maxPeers, threads) == Rushed(n, k)
    decreases k
  {
    run := start;
    if k > 0 {
      run := Rush(s0, start, n, k - 1, maxPeers, threads);
      run := RushNext(s0, run, n, k - 1, maxPeers, threads);
    }
  }

  lemma RushFrom(s0: State, maxPeers: nat, threads: nat) returns (run: seq<Event>)
    requires s0 == Empty && 0 < maxPeers && 0 < threads
    ensures ValidRun(s0, run, maxPeers, threads) && UnderLock(run)
    ensures Exec(s0, run, maxPeers, threads) == Rushed(maxPeers - 1, threads)
  {
    run := RegisterSerially(s0, maxPeers - 1, maxPeers, threads);
    run := Rush(s0, run, maxPeers - 1, threads, maxPeers, threads);
  }

  /** The bound cannot be improved: for every limit and every number of threads some
      interleaving that the locks allow ends with exactly `maxPeers + threads - 1` registered
      peers. */
  lemma BoundIsTight(maxPeers: nat, threads: nat) returns (run: seq<Event>)
    requires 0 < maxPeers && 0 < threads
    ensures ValidRun(Empty, run, maxPeers, threads) && UnderLock(run)
    ensures |Exec(Empty, run, maxPeers, threads).registered| == maxPeers + threads - 1
  {
    run := RushFrom(Empty, maxPeers, threads);
    NamesSize(maxPeers + threads - 1);
  }

  // ---- Exactly when the limit is kept ----

  /** A limit of zero lets nobody in. */
  predicate Closed(s: State) {
    s.registered == {} && s.counting == {} && s.uncounting == {} && s.count == 0 && Passing(s.loaded, 0) == {}
  }

  lemma {:induction false} ZeroLetsNobodyIn(s: State, run: seq<Event>, threads: nat)
    requires Closed(s) && ValidRun(s, run, 0, threads)
    ensures Closed(Exec(s, run, 0, threads))
    decreases |run|
  {
    if run != [] {
      var s' := Step(s, run[0], 0);
      assert forall t <- s.loaded :: t !in Passing(s.loaded, 0);
      assert forall t <- s'.loaded :: s'.loaded[t].seen >= 0;
      ZeroLetsNobodyIn(s', run[1..], threads);
    }
  }

  /** No interleaving passes the limit if and only if registrations come one at a time, or the
      limit is zero. */
  lemma LimitKeptIff(maxPeers: nat, threads: nat)
    requires 0 < threads
    ensures (forall run | ValidRun(Empty, run, maxPeers, threads) ::
               |Exec(Empty, run, maxPeers, threads).registered| <= maxPeers)
       <==> threads == 1 || maxPeers == 0
  {
    if threads == 1 || maxPeers == 0 {
      forall run | ValidRun(Empty, run, maxPeers, threads)
        ensures |Exec(Empty, run, maxPeers, threads).registered| <= maxPeers
      {
        if maxPeers == 0 {
          ZeroLetsNobodyIn(Empty, run, threads);
        } else {
          BoundedOvershoot(run, maxPeers, threads);
        }
      }
    } else {
      var run := BoundIsTight(maxPeers, threads);
    }
  }

  // ---- Without interruption it is the registry ----

  /** The quiet state that a flat registry stands for. */
  function Quiet(flat: map<string, Peer>): State {
    State(flat.Keys, |flat|, map[], {}, {})
  }

  /** A registration whose steps nothing comes between does to the registered fingerprints and
      the counter what `Register` does. */
  lemma UninterruptedRegister(flat: map<string, Peer>, p: Peer, t: nat, maxPeers: int)
    ensures var s2 := Step(Step(Quiet(flat), Load(t, p.fingerprint), maxPeers), Insert(t), maxPeers);
            var s3 := if t in s2.counting then Step(s2, Add(t), maxPeers) else s2;
            s3 == Quiet(Registry.RegisterFlat(flat, p, maxPeers))
  {
    var flat' := Registry.RegisterFlat(flat, p, maxPeers);
    RegisterSizes(flat, p, maxPeers);
    var s1 := Step(Quiet(flat), Load(t, p.fingerprint), maxPeers);
    assert s1.loaded - {t} == map[];
    var s2 := Step(s1, Insert(t), maxPeers);
    if p.fingerprint !in flat && |flat| < maxPeers {
      assert s2 == State(flat'.Keys, |flat|, map[], {t}, {});
      assert {t} - {t} == {};
    } else {
      assert s2 == Quiet(flat);
    }
  }

  lemma RegisterSizes(flat: map<string, Peer>, p: Peer, maxPeers: int)
    ensures var flat' := Registry.RegisterFlat(flat, p, maxPeers);
            if p.fingerprint !in flat && |flat| < maxPeers
            then flat'.Keys == flat.Keys + {p.fingerprint} && |flat'| == |flat| + 1
            else flat'.Keys == flat.Keys && |flat'| == |flat|
  {
    var flat' := Registry.RegisterFlat(flat, p, maxPeers);
    assert |flat'| == |flat'.Keys| && |flat| == |flat.Keys|;
    if p.fingerprint in flat { assert flat'.Keys == flat.Keys; }
  }

  /** An unregistration whose steps nothing comes between takes out exactly its fingerprint. */
  lemma UninterruptedUnregister(flat: map<string, Peer>, fp: string, t: nat, maxPeers: int)
    ensures var s1 := Step(Quiet(flat), Delete(t, fp), maxPeers);
            var s2 := if t in s1.uncounting then Step(s1, Subtract(t), maxPeers) else s1;
            s2 == Quiet(flat - {fp})
  {
    assert (flat - {fp}).Keys == flat.Keys - {fp};
    if fp in flat {
      Registry.SizeWithout(flat, fp);
      assert {t} - {t} == {};
    } else {
      assert flat - {fp} == flat;
    }
  }
}
