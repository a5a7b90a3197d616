/**
 Requests of one client that are interrupted between finding their bucket and charging it
 (middleware/ratelimit.go, lines 58-96 and 105-121). A sweep in between drops the bucket from
 the map; the request still charges it, while later requests get a new one.

 `charged`, `granted`, `strayed`, `drops` and `born` are history: the times of the charges on
 buckets that were in the map, how many of them were granted, the grants on dropped buckets,
 the number of drops, and when the first bucket was made.
 */
module LimiterRace {
  import opened Wrappers
  import opened TokenBucket
  import opened RateLimiter
  import opened Sets
  import SweepRuns

  /** `holding` maps the requests in flight to their buckets. */
  datatype Race = Race(buckets: seq<Bucket>, current: Option<nat>, holding: map<nat, nat>, clock: real,
                       charged: seq<real>, granted: nat, strayed: nat, drops: nat, born: real)

  datatype Event =
    | Find(request: nat, now: real)
    | ChargeIt(request: nat, now: real)
    | SweepAt(cutoffRead: real)

  function Start(clock: real): Race {
    Race([], None, map[], clock, [], 0, 0, 0, clock)
  }

  // ---- One step ----

  predicate Enabled(s: Race, ev: Event, threads: nat) {
    match ev
    case Find(t, now) => t !in s.holding && |s.holding| < threads && s.clock <= now
    case ChargeIt(t, now) => t in s.holding && s.holding[t] < |s.buckets| && s.clock <= now
    case SweepAt(_) => s.current.Some? ==> s.current.value < |s.buckets|
  }

  function FindStep(s: Race, t: nat, now: real, rate: nat, burst: nat): Race {
    match s.current
    case Some(i) => s.(holding := s.holding[t := i], clock := now)
    case None =>
      s.(buckets := s.buckets + [New(burst as real, rate as real, now)], current := Some(|s.buckets|),
         holding := s.holding[t := |s.buckets|], clock := now, born := if s.buckets == [] then now else s.born)
  }

  function ChargeStep(s: Race, t: nat, now: real): Race
    requires t in s.holding && s.holding[t] < |s.buckets|
  {
    var i := s.holding[t];
    var ok := if Allowed(s.buckets[i], now) then 1 else 0;
    var s1 := s.(buckets := s.buckets[i := Take(s.buckets[i], now)], holding := s.holding - {t}, clock := now);
    if s.current == Some(i) then s1.(charged := s.charged + [now], granted := s.granted + ok)
    else s1.(strayed := s.strayed + ok)
  }

  function SweepStep(s: Race, at: real): Race
    requires s.current.Some? ==> s.current.value < |s.buckets|
  {
    var s1 := s.(clock := if s.clock < at then at else s.clock);
    if s.current.Some? && Stale(s.buckets[s.current.value], at) then s1.(current := None, drops := s.drops + 1) else s1
  }

  function Step(s: Race, ev: Event, rate: nat, burst: nat, threads: nat): Race
    requires Enabled(s, ev, threads)
  {
    match ev
    case Find(t, now) => FindStep(s, t, now, rate, burst)
    case ChargeIt(t, now) => ChargeStep(s, t, now)
    case SweepAt(at) => SweepStep(s, at)
  }

  ghost predicate ValidRun(s: Race, run: seq<Event>, rate: nat, burst: nat, threads: nat)
    decreases |run|
  {
    run == [] ||
    (Enabled(s, run[0], threads) && ValidRun(Step(s, run[0], rate, burst, threads), run[1..], rate, burst, threads))
  }

  ghost function Exec(s: Race, run: seq<Event>, rate: nat, burst: nat, threads: nat): Race
    requires ValidRun(s, run, rate, burst, threads)
    decreases |run|
  {
    if run == [] then s else Exec(Step(s, run[0], rate, burst, threads), run[1..], rate, burst, threads)
  }

  // ---- The invariant ----

  /** The bucket that is never swept, charged by the charges on buckets in the map. */
  function Kept(s: Race, rate: nat, burst: nat): Bucket {
    After(New(burst as real, rate as real, s.born), s.charged)
  }

  ghost predicate FullFrom(b: Bucket, clock: real) {
    forall t | clock <= t :: Refilled(b, t) == b.maxTokens
  }

  /** The bucket in the map is the kept one, or a new one while the kept one is full. */
  ghost predicate Matches(s: Race, rate: nat, burst: nat) {
    var kept := Kept(s, rate, burst);
    match s.current
    case Some(i) =>
      && i < |s.buckets|
      && (s.buckets[i] == kept
          || (FullFrom(kept, s.clock) && s.buckets[i].lastTime <= s.clock
              && s.buckets[i] == New(burst as real, rate as real, s.buckets[i].lastTime)))
    case None => if s.buckets == [] then s.charged == [] else FullFrom(kept, s.clock)
  }

  ghost predicate KeptInv(s: Race, rate: nat, burst: nat) {
    && Ascending(s.born, s.charged) && s.born <= s.clock
    && (s.charged != [] ==> s.charged[|s.charged| - 1] <= s.clock)
    && s.granted == Granted(New(burst as real, rate as real, s.born), s.charged, 0)
  }

  /** The requests in flight whose bucket was dropped. */
  function Strays(s: Race): set<nat> {
    set t <- s.holding | Some(s.holding[t]) != s.current
  }

  ghost predicate StrayInv(s: Race, threads: nat) {
    && (forall t <- s.holding :: s.holding[t] < |s.buckets|)
    && |s.holding| <= threads && s.strayed + |Strays(s)| <= s.drops * threads
  }

  ghost predicate Inv(s: Race, rate: nat, burst: nat, threads: nat) {
    Matches(s, rate, burst) && KeptInv(s, rate, burst) && StrayInv(s, threads)
  }

  // ---- What the steps keep ----

  lemma KeptInRange(s: Race, rate: nat, burst: nat)
    requires KeptInv(s, rate, burst)
    ensures SweepRuns.BucketInv(Kept(s, rate, burst), rate, burst, s.clock)
  {
    var b := New(burst as real, rate as real, s.born);
    TokensStayInRange(b, s.charged);
    CreditMatches(b, s.charged);
  }

  lemma FindKeepsStrays(s: Race, t: nat, now: real, rate: nat, burst: nat, threads: nat)
    requires StrayInv(s, threads) && Enabled(s, Find(t, now), threads)
    requires s.current.Some? ==> s.current.value < |s.buckets|
    ensures StrayInv(FindStep(s, t, now, rate, burst), threads)
  {
    var s' := FindStep(s, t, now, rate, burst);
    assert s'.holding.Keys == s.holding.Keys + {t};
    assert |s'.holding.Keys| == |s.holding.Keys| + 1;
    assert Strays(s') == Strays(s);
  }

  lemma FindKeepsInv(s: Race, t: nat, now: real, rate: nat, burst: nat, threads: nat)
    requires Inv(s, rate, burst, threads) && Enabled(s, Find(t, now), threads)
    ensures Inv(FindStep(s, t, now, rate, burst), rate, burst, threads)
  {
    FindKeepsStrays(s, t, now, rate, burst, threads);
  }

  lemma ChargeKeepsStrays(s: Race, t: nat, now: real, threads: nat)
    requires StrayInv(s, threads) && Enabled(s, ChargeIt(t, now), threads)
    ensures StrayInv(ChargeStep(s, t, now), threads)
  {
    var s' := ChargeStep(s, t, now);
    assert s'.holding.Keys == s.holding.Keys - {t};
    assert |s'.holding.Keys| == |s.holding.Keys| - 1;
    if s.current == Some(s.holding[t]) {
      assert Strays(s') == Strays(s);
    } else {
      assert t in Strays(s) && Strays(s') == Strays(s) - {t};
      assert |Strays(s')| == |Strays(s)| - 1;
    }
  }

  /** A charge on the bucket in the map is the same charge on the kept bucket. */
  lemma ChargeMatches(s: Race, now: real, rate: nat, burst: nat)
    requires Matches(s, rate, burst) && s.current.Some? && s.clock <= now
    ensures var (b, kept) := (s.buckets[s.current.value], Kept(s, rate, burst));
            Allowed(b, now) == Allowed(kept, now) && Take(b, now) == Take(kept, now)
  {
    var b, kept := s.buckets[s.current.value], Kept(s, rate, burst);
    CreditMatches(New(burst as real, rate as real, s.born), s.charged);
    if b != kept {
      assert Refilled(kept, now) == kept.maxTokens;
      assert 0.0 <= Earned(b.lastTime, now, b.rate);
    }
  }

  lemma ChargeCurrentKeeps(s: Race, t: nat, now: real, rate: nat, burst: nat)
    requires Matches(s, rate, burst) && KeptInv(s, rate, burst) && s.clock <= now
    requires t in s.holding && s.holding[t] < |s.buckets| && s.current == Some(s.holding[t])
    ensures Matches(ChargeStep(s, t, now), rate, burst) && KeptInv(ChargeStep(s, t, now), rate, burst)
  {
    var s' := ChargeStep(s, t, now);
    ChargeMatches(s, now, rate, burst);
    assert s'.charged[..|s.charged|] == s.charged;
  }

  lemma ChargeKeepsInv(s: Race, t: nat, now: real, rate: nat, burst: nat, threads: nat)
    requires Inv(s, rate, burst, threads) && Enabled(s, ChargeIt(t, now), threads)
    ensures Inv(ChargeStep(s, t, now), rate, burst, threads)
  {
    ChargeKeepsStrays(s, t, now, threads);
    if s.current == Some(s.holding[t]) { ChargeCurrentKeeps(s, t, now, rate, burst); }
  }

  lemma SweepKeepsStrays(s: Race, at: real, threads: nat)
    requires StrayInv(s, threads) && (s.current.Some? ==> s.current.value < |s.buckets|)
    ensures StrayInv(SweepStep(s, at), threads)
  {
    var s' := SweepStep(s, at);
    assert s'.drops == s.drops ==> Strays(s') == Strays(s);
    SubsetSize(Strays(s'), s.holding.Keys);
    assert |s.holding.Keys| == |s.holding|;
    if s'.drops == s.drops + 1 {
      StraysAdd(s, s');
      assert (s.drops + 1) * threads == s.drops * threads + threads;
    }
  }

  lemma StraysAdd(s: Race, s': Race)
    requires s'.holding == s.holding
    ensures |Strays(s')| <= |Strays(s)| + |s.holding|
  {
    SubsetSize(Strays(s'), Strays(s) + s.holding.Keys);
    assert |Strays(s) + s.holding.Keys| <= |Strays(s)| + |s.holding.Keys|;
  }

  lemma SweepKeepsInv(s: Race, at: real, rate: nat, burst: nat, threads: nat)
    requires Inv(s, rate, burst, threads) && rate * 600 >= burst
    ensures Inv(SweepStep(s, at), rate, burst, threads)
  {
    var s' := SweepStep(s, at);
    SweepKeepsStrays(s, at, threads);
    if s'.drops == s.drops + 1 && s.buckets[s.current.value] == Kept(s, rate, burst) {
      StaleStaysFull(s, at, rate, burst);
    }
  }

  lemma StaleStaysFull(s: Race, at: real, rate: nat, burst: nat)
    requires KeptInv(s, rate, burst) && rate * 600 >= burst && Stale(Kept(s, rate, burst), at)
    ensures FullFrom(Kept(s, rate, burst), at)
  {
    var kept := Kept(s, rate, burst);
    KeptInRange(s, rate, burst);
    forall t | at <= t ensures Refilled(kept, t) == kept.maxTokens {
      SweepRuns.StaleIsFull(kept, rate, burst, at, t);
    }
  }

  lemma StepKeepsInv(s: Race, ev: Event, rate: nat, burst: nat, threads: nat)
    requires Inv(s, rate, burst, threads) && Enabled(s, ev, threads) && rate * 600 >= burst
    ensures Inv(Step(s, ev, rate, burst, threads), rate, burst, threads)
  {
    match ev {
      case Find(t, now) => FindKeepsInv(s, t, now, rate, burst, threads);
      case ChargeIt(t, now) => ChargeKeepsInv(s, t, now, rate, burst, threads);
      case SweepAt(at) => SweepKeepsInv(s, at, rate, burst, threads);
    }
  }

  lemma {:induction false} RunKeepsInv(s: Race, run: seq<Event>, rate: nat, burst: nat, threads: nat)
    requires Inv(s, rate, burst, threads) && ValidRun(s, run, rate, burst, threads) && rate * 600 >= burst
    ensures Inv(Exec(s, run, rate, burst, threads), rate, burst, threads)
    decreases |run|
  {
    if run != [] {
      StepKeepsInv(s, run[0], rate, burst, threads);
      RunKeepsInv(Step(s, run[0], rate, burst, threads), run[1..], rate, burst, threads);
    }
  }

  // ---- How many grants a sweep can add ----

  /** When ten minutes fill a bucket, and at most `threads` requests are in flight: the grants
      are those of one bucket that is never swept, so within the burst and the rate in every
      window, and at most `threads` more for every bucket that was dropped. */
  lemma ExtraGrants(clock: real, run: seq<Event>, rate: nat, burst: nat, threads: nat)
    requires ValidRun(Start(clock), run, rate, burst, threads) && rate * 600 >= burst
    ensures var s := Exec(Start(clock), run, rate, burst, threads);
            var b := New(burst as real, rate as real, s.born);
            && s.granted == Granted(b, s.charged, 0) && s.strayed <= s.drops * threads
            && forall j: nat | j < |s.charged| ::
                 Granted(b, s.charged, j) as real <= burst as real + Earned(s.charged[j], s.charged[|s.charged| - 1], rate as real)
  {
    assert Strays(Start(clock)) == {};
    RunKeepsInv(Start(clock), run, rate, burst, threads);
    var s := Exec(Start(clock), run, rate, burst, threads);
    forall j: nat | j < |s.charged|
      ensures Granted(New(burst as real, rate as real, s.born), s.charged, j) as real
              <= burst as real + Earned(s.charged[j], s.charged[|s.charged| - 1], rate as real)
    {
      WindowBound(burst as real, rate as real, s.born, s.charged, j);
    }
  }

  // ---- The bound is reached ----

  const LATE := 601.0

  /** The run leads from `s` to `target`, and all its charges happen at one instant. */
  ghost predicate Leads(s: Race, run: seq<Event>, target: Race, rate: nat, burst: nat, threads: nat) {
    && ValidRun(s, run, rate, burst, threads) && Exec(s, run, rate, burst, threads) == target
    && forall ev <- run :: ev.ChargeIt? ==> ev.now == LATE
  }

  lemma {:induction false} Then(s: Race, run: seq<Event>, mid: Race, ev: Event, rate: nat, burst: nat, threads: nat)
    requires Leads(s, run, mid, rate, burst, threads) && Enabled(mid, ev, threads) && (ev.ChargeIt? ==> ev.now == LATE)
    ensures Leads(s, run + [ev], Step(mid, ev, rate, burst, threads), rate, burst, threads)
    decreases |run|
  {
    if run == [] {
      assert run + [ev] == [ev] && [ev][1..] == [];
    } else {
      assert forall x <- run[1..] :: x in run;
      Then(Step(s, run[0], rate, burst, threads), run[1..], mid, ev, rate, burst, threads);
      assert (run + [ev])[1..] == run[1..] + [ev];
    }
  }

  /** The first `k` requests, all holding bucket zero. */
  function Holders(k: nat): map<nat, nat> {
    if k == 0 then map[] else Holders(k - 1)[k - 1 := 0]
  }

  lemma {:induction false} HoldersSize(k: nat)
    ensures |Holders(k)| == k && forall t <- Holders(k) :: t < k && Holders(k)[t] == 0
  {
    if k > 0 {
      HoldersSize(k - 1);
      assert Holders(k).Keys == Holders(k - 1).Keys + {k - 1};
      assert |Holders(k).Keys| == |Holders(k - 1).Keys| + 1;
    }
  }

  /** `k` requests found the first bucket at time zero. */
  function Found(k: nat, rate: nat, burst: nat): Race
    requires 0 < k
  {
    Race([New(burst as real, rate as real, 0.0)], Some(0), Holders(k), 0.0, [], 0, 0, 0, 0.0)
  }

  lemma {:induction false} FindAll(k: nat, rate: nat, burst: nat, threads: nat) returns (run: seq<Event>)
    requires 0 < k <= threads
    ensures Leads(Start(0.0), run, Found(k, rate, burst), rate, burst, threads)
    decreases k
  {
    HoldersSize(k - 1);
    var ev := Find(k - 1, 0.0);
    if k == 1 {
      run := [];
      assert Step(Start(0.0), ev, rate, burst, threads) == Found(1, rate, burst);
      Then(Start(0.0), run, Start(0.0), ev, rate, burst, threads);
    } else {
      run := FindAll(k - 1, rate, burst, threads);
      assert Step(Found(k - 1, rate, burst), ev, rate, burst, threads) == Found(k, rate, burst);
      Then(Start(0.0), run, Found(k - 1, rate, burst), ev, rate, burst, threads);
    }
    run := run + [ev];
  }

  /** The bucket was dropped, and all but `k` of the requests that held it were granted. */
  function Dropped(k: nat, rate: nat, burst: nat, threads: nat): Race
    requires k <= threads
  {
    var left := burst as real - (threads - k) as real;
    var b := Bucket(left, burst as real, rate as real, if k == threads then 0.0 else LATE);
    Race([b], None, Holders(k), LATE, [], 0, threads - k, 1, 0.0)
  }

  lemma DropStep(rate: nat, burst: nat, threads: nat)
    requires 0 < threads
    ensures Step(Found(threads, rate, burst), SweepAt(LATE), rate, burst, threads) == Dropped(threads, rate, burst, threads)
  {
  }

  lemma StrayStep(k: nat, rate: nat, burst: nat, threads: nat)
    requires 0 < k <= threads <= burst
    ensures var (s, ev) := (Dropped(k, rate, burst, threads), ChargeIt(k - 1, LATE));
            Enabled(s, ev, threads) && Step(s, ev, rate, burst, threads) == Dropped(k - 1, rate, burst, threads)
  {
    HoldersSize(k - 1);
    assert Holders(k - 1)[k - 1 := 0] - {k - 1} == Holders(k - 1);
    assert 0.0 <= Earned(0.0, LATE, rate as real) && Earned(LATE, LATE, rate as real) == 0.0;
  }

  lemma {:induction false} StrayAll(k: nat, rate: nat, burst: nat, threads: nat) returns (run: seq<Event>)
    requires 0 < threads <= burst && k <= threads
    ensures Leads(Start(0.0), run, Dropped(k, rate, burst, threads), rate, burst, threads)
    decreases threads - k
  {
    if k == threads {
      run := FindAll(threads, rate, burst, threads);
      DropStep(rate, burst, threads);
      Then(Start(0.0), run, Found(threads, rate, burst), SweepAt(LATE), rate, burst, threads);
      run := run + [SweepAt(LATE)];
    } else {
      run := StrayAll(k + 1, rate, burst, threads);
      StrayStep(k + 1, rate, burst, threads);
      Then(Start(0.0), run, Dropped(k + 1, rate, burst, threads), ChargeIt(k, LATE), rate, burst, threads);
      run := run + [ChargeIt(k, LATE)];
    }
  }

  function Instants(j: nat): seq<real> {
    if j == 0 then [] else Instants(j - 1) + [LATE]
  }

  /** After that, `j` requests in a row were granted by a new bucket. */
  function Renewed(j: nat, rate: nat, burst: nat, threads: nat): Race
    requires 0 < j
  {
    var dropped := Dropped(0, rate, burst, threads).buckets[0];
    Race([dropped, Bucket(burst as real - j as real, burst as real, rate as real, LATE)], Some(1), map[], LATE,
         Instants(j), j, threads, 1, 0.0)
  }

  function Before(j: nat, rate: nat, burst: nat, threads: nat): Race {
    if j == 0 then Dropped(0, rate, burst, threads) else Renewed(j, rate, burst, threads)
  }

  lemma RenewStep(j: nat, rate: nat, burst: nat, threads: nat)
    requires j < burst && 0 < threads
    ensures var s := Before(j, rate, burst, threads);
            && Enabled(s, Find(0, LATE), threads)
            && Enabled(Step(s, Find(0, LATE), rate, burst, threads), ChargeIt(0, LATE), threads)
            && Step(Step(s, Find(0, LATE), rate, burst, threads), ChargeIt(0, LATE), rate, burst, threads)
               == Renewed(j + 1, rate, burst, threads)
  {
    var s := Before(j, rate, burst, threads);
    var s1 := Step(s, Find(0, LATE), rate, burst, threads);
    assert Earned(LATE, LATE, rate as real) == 0.0;
    assert s1.holding == map[0 := 1] && s1.holding - {0} == map[];
    assert s1.buckets[1] == Bucket(burst as real - j as real, burst as real, rate as real, LATE);
    assert Refilled(s1.buckets[1], LATE) == burst as real - j as real >= 1.0;
    var s2 := Step(s1, ChargeIt(0, LATE), rate, burst, threads);
    assert s2.buckets == Renewed(j + 1, rate, burst, threads).buckets;
    assert s2.charged == Instants(j + 1);
  }

  lemma {:induction false} RenewAll(j: nat, rate: nat, burst: nat, threads: nat) returns (run: seq<Event>)
    requires 0 < threads <= burst && j <= burst
    ensures Leads(Start(0.0), run, Before(j, rate, burst, threads), rate, burst, threads)
    decreases j
  {
    if j == 0 {
      run := StrayAll(0, rate, burst, threads);
    } else {
      var s := Before(j - 1, rate, burst, threads);
      run := RenewAll(j - 1, rate, burst, threads);
      RenewStep(j - 1, rate, burst, threads);
      Then(Start(0.0), run, s, Find(0, LATE), rate, burst, threads);
      Then(Start(0.0), run + [Find(0, LATE)], Step(s, Find(0, LATE), rate, burst, threads), ChargeIt(0, LATE), rate, burst, threads);
      run := run + [Find(0, LATE)] + [ChargeIt(0, LATE)];
    }
  }

  /** The bound cannot be improved: with as many requests in flight as one likes, up to the burst,
      one drop is enough for the burst and all of them to be granted at one instant. */
  lemma ExtraIsReached(rate: nat, burst: nat, threads: nat) returns (run: seq<Event>)
    requires 0 < threads <= burst
    ensures ValidRun(Start(0.0), run, rate, burst, threads)
    ensures forall ev <- run :: ev.ChargeIt? ==> ev.now == LATE
    ensures var s := Exec(Start(0.0), run, rate, burst, threads);
            s.drops == 1 && s.granted == burst && s.strayed == threads
  {
    run := RenewAll(burst, rate, burst, threads);
  }

  // ---- Without interruption it is the limiter ----

  /** The client's part of a limiter. */
  function InMap(s: Race, id: string): Limiter
    requires s.current.Some? ==> s.current.value < |s.buckets|
  {
    if s.current.Some? then map[id := s.buckets[s.current.value]] else map[]
  }

  /** A request that nothing comes between charges the bucket in the map as `Allow` does, and a
      sweep drops it as the sweep of the limiter does. */
  lemma UninterruptedRequest(s: Race, id: string, t: nat, created: real, now: real, rate: nat, burst: nat)
    requires (s.current.Some? ==> s.current.value < |s.buckets|) && t !in s.holding
    ensures var s1 := FindStep(s, t, created, rate, burst);
            && t in s1.holding && s1.holding[t] < |s1.buckets|
            && var s2 := ChargeStep(s1, t, now);
               && s2.current.Some? && s2.current.value < |s2.buckets|
               && InMap(s2, id) == Hit(InMap(s, id), id, rate, burst, created, now)
               && s2.granted == s.granted + (if HitAllowed(InMap(s, id), id, rate, burst, created, now) then 1 else 0)
               && s2.strayed == s.strayed && s2.holding == s.holding
    ensures InMap(SweepStep(s, now), id) == Swept(InMap(s, id), now)
  {
    var s1 := FindStep(s, t, created, rate, burst);
    assert s1.holding - {t} == s.holding;
  }
}
