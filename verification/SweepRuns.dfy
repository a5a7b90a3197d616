/**
 The sweep of idle clients (middleware/ratelimit.go, lines 105-121): a limiter that sweeps
 and one that never does, fed the same requests, give the same answers for ever exactly if
 ten minutes are enough to fill a bucket.
 */
module SweepRuns {
  import opened TokenBucket
  import opened RateLimiter

  datatype Event =
    | Request(id: string, created: real, now: real)
    | Forget(id: string)
    | Cleanup(at: real)

  function Apply(m: Limiter, ev: Event, rate: nat, burst: nat, sweeping: bool): Limiter {
    match ev
    case Request(id, created, now) => Hit(m, id, rate, burst, created, now)
    case Forget(id) => m - {id}
    case Cleanup(at) => if sweeping then Swept(m, at) else m
  }

  /** The limiter after a run. */
  function Final(m: Limiter, run: seq<Event>, rate: nat, burst: nat, sweeping: bool): Limiter
    decreases |run|
  {
    if run == [] then m else Final(Apply(m, run[0], rate, burst, sweeping), run[1..], rate, burst, sweeping)
  }

  /** The answers to the requests of a run. */
  function Answers(m: Limiter, run: seq<Event>, rate: nat, burst: nat, sweeping: bool): seq<bool>
    decreases |run|
  {
    if run == [] then []
    else
      var rest := Answers(Apply(m, run[0], rate, burst, sweeping), run[1..], rate, burst, sweeping);
      match run[0]
      case Request(id, created, now) => [HitAllowed(m, id, rate, burst, created, now)] + rest
      case _ => rest
  }

  function ClockAfter(clock: real, ev: Event): real {
    match ev
    case Request(_, _, now) => now
    case Forget(_) => clock
    case Cleanup(at) => at
  }

  /** Clock readings do not go back. */
  ghost predicate Timed(clock: real, run: seq<Event>)
    decreases |run|
  {
    run == [] ||
    (&& (run[0].Request? ==> clock <= run[0].created <= run[0].now)
     && clock <= ClockAfter(clock, run[0])
     && Timed(ClockAfter(clock, run[0]), run[1..]))
  }

  // ---- Ten minutes fill a bucket ----

  /** A bucket that this limiter can hold. */
  ghost predicate BucketInv(b: Bucket, rate: nat, burst: nat, clock: real) {
    b.maxTokens == burst as real && b.rate == rate as real && 0.0 <= b.tokens <= b.maxTokens && b.lastTime <= clock
  }

  /** The sweeping limiter lost only stale buckets. */
  ghost predicate Follows(swept: Limiter, kept: Limiter, rate: nat, burst: nat, clock: real) {
    && (forall id <- swept :: id in kept && swept[id] == kept[id])
    && (forall id <- kept :: BucketInv(kept[id], rate, burst, clock))
    && (forall id <- kept :: id in swept || Stale(kept[id], clock))
  }

  lemma EarnsAtLeast(from: real, to: real, rate: real, least: real)
    requires to - from >= least && 0.0 <= rate
    ensures Earned(from, to, rate) >= least * rate
  {
    assert (to - from - least) * rate >= 0.0;
  }

  lemma StaleIsFull(b: Bucket, rate: nat, burst: nat, clock: real, now: real)
    requires BucketInv(b, rate, burst, clock) && Stale(b, clock) && clock <= now
    requires rate * 600 >= burst
    ensures Refilled(b, now) == b.maxTokens
  {
    EarnsAtLeast(b.lastTime, now, b.rate, STALE_AFTER);
    assert STALE_AFTER * b.rate == (rate * 600) as real;
  }

  lemma RequestKeepsInv(b: Bucket, rate: nat, burst: nat, clock: real, now: real)
    requires BucketInv(b, rate, burst, clock) && clock <= now
    ensures BucketInv(Take(b, now), rate, burst, now)
  {
    assert 0.0 <= Earned(b.lastTime, now, b.rate);
  }

  /** A request to a client the sweep dropped: the new bucket is full, as the old one is. */
  lemma SameAnswer(swept: Limiter, kept: Limiter, rate: nat, burst: nat, clock: real, id: string, created: real, now: real)
    requires Follows(swept, kept, rate, burst, clock) && clock <= created <= now && rate * 600 >= burst
    ensures Refilled(BucketFor(swept, id, rate, burst, created), now) == Refilled(BucketFor(kept, id, rate, burst, created), now)
    ensures Take(BucketFor(swept, id, rate, burst, created), now) == Take(BucketFor(kept, id, rate, burst, created), now)
    ensures BucketInv(Take(BucketFor(kept, id, rate, burst, created), now), rate, burst, now)
  {
    if id in kept {
      RequestKeepsInv(kept[id], rate, burst, clock, now);
      if id !in swept {
        StaleIsFull(kept[id], rate, burst, clock, now);
        assert 0.0 <= Earned(created, now, rate as real);
      }
    } else {
      RequestKeepsInv(New(burst as real, rate as real, created), rate, burst, created, now);
    }
  }

  lemma StepFollows(swept: Limiter, kept: Limiter, rate: nat, burst: nat, clock: real, ev: Event)
    requires Follows(swept, kept, rate, burst, clock) && Timed(clock, [ev]) && rate * 600 >= burst
    ensures Follows(Apply(swept, ev, rate, burst, true), Apply(kept, ev, rate, burst, false), rate, burst, ClockAfter(clock, ev))
  {
    if ev.Request? {
      SameAnswer(swept, kept, rate, burst, clock, ev.id, ev.created, ev.now);
    }
  }

  lemma {:induction false} SweepInvisible(swept: Limiter, kept: Limiter, rate: nat, burst: nat, clock: real, run: seq<Event>)
    requires Follows(swept, kept, rate, burst, clock) && Timed(clock, run) && rate * 600 >= burst
    ensures Answers(swept, run, rate, burst, true) == Answers(kept, run, rate, burst, false)
    decreases |run|
  {
    if run != [] {
      var ev := run[0];
      StepFollows(swept, kept, rate, burst, clock, ev);
      if ev.Request? { SameAnswer(swept, kept, rate, burst, clock, ev.id, ev.created, ev.now); }
      SweepInvisible(Apply(swept, ev, rate, burst, true), Apply(kept, ev, rate, burst, false),
                     rate, burst, ClockAfter(clock, ev), run[1..]);
    }
  }

  // ---- Otherwise the sweep can be noticed ----

  /** `n` requests of one client at one time. */
  function Burst(id: string, t: real, n: nat): seq<Event> {
    if n == 0 then [] else [Request(id, t, t)] + Burst(id, t, n - 1)
  }

  lemma {:induction false} BurstTimed(clock: real, id: string, t: real, n: nat, rest: seq<Event>)
    requires clock <= t && Timed(t, rest)
    ensures n > 0 ==> Timed(clock, Burst(id, t, n) + rest)
    decreases n
  {
    if n > 0 {
      assert (Burst(id, t, n) + rest)[1..] == Burst(id, t, n - 1) + rest;
      BurstTimed(t, id, t, n - 1, rest);
      if n == 1 { assert Burst(id, t, 0) + rest == rest; }
    }
  }

  lemma {:induction false} AnswersConcat(m: Limiter, run1: seq<Event>, run2: seq<Event>, rate: nat, burst: nat, sweeping: bool)
    ensures Answers(m, run1 + run2, rate, burst, sweeping)
         == Answers(m, run1, rate, burst, sweeping) + Answers(Final(m, run1, rate, burst, sweeping), run2, rate, burst, sweeping)
    decreases |run1|
  {
    if run1 == [] {
      assert run1 + run2 == run2;
    } else {
      assert (run1 + run2)[1..] == run1[1..] + run2;
      AnswersConcat(Apply(m, run1[0], rate, burst, sweeping), run1[1..], run2, rate, burst, sweeping);
    }
  }

  /** At one instant a bucket grants as many requests as it has whole tokens. */
  lemma {:induction false} BurstAnswers(m: Limiter, id: string, t: real, n: nat, rate: nat, burst: nat, sweeping: bool)
    requires 0.0 <= Refilled(BucketFor(m, id, rate, burst, t), t) <= burst as real
    requires id in m ==> m[id].maxTokens == burst as real && m[id].rate == rate as real
    ensures var v := Refilled(BucketFor(m, id, rate, burst, t), t);
            var answers := Answers(m, Burst(id, t, n), rate, burst, sweeping);
            && |answers| == n
            && (v >= n as real <==> forall a <- answers :: a)
            && (v >= n as real && n > 0 ==>
                  Final(m, Burst(id, t, n), rate, burst, sweeping)
                  == m[id := Bucket(v - n as real, burst as real, rate as real, t)])
    decreases n
  {
    if n > 0 {
      var b := BucketFor(m, id, rate, burst, t);
      var v := Refilled(b, t);
      var m' := Hit(m, id, rate, burst, t, t);
      var run := Burst(id, t, n);
      assert run[1..] == Burst(id, t, n - 1);
      assert Earned(t, t, rate as real) == 0.0;
      assert Refilled(m'[id], t) == m'[id].tokens;
      BurstAnswers(m', id, t, n - 1, rate, burst, sweeping);
      var rest := Answers(m', Burst(id, t, n - 1), rate, burst, sweeping);
      assert Answers(m, run, rate, burst, sweeping) == [v >= 1.0] + rest;
      BurstStep(v, n, m'[id].tokens, rest, [v >= 1.0] + rest);
    }
  }

  lemma BurstStep(v: real, n: nat, v': real, rest: seq<bool>, answers: seq<bool>)
    requires n > 0 && v' == (if v >= 1.0 then v - 1.0 else v) && answers == [v >= 1.0] + rest && |rest| == n - 1
    requires v' >= (n - 1) as real <==> forall a <- rest :: a
    ensures v >= n as real <==> forall a <- answers :: a
  {
    if v >= 1.0 {
      assert forall a <- answers :: a in rest || a;
      assert forall a <- rest :: a in answers;
    } else {
      assert answers[0] in answers && !answers[0];
    }
  }

  const Nobody: Limiter := map[]

  function Drained(rate: nat, burst: nat): Bucket {
    Bucket(0.0, burst as real, rate as real, 0.0)
  }

  /** A burst at time zero empties a new bucket, swept or not. */
  lemma FirstBurst(id: string, rate: nat, burst: nat, sweeping: bool)
    requires 0 < burst
    ensures Final(Nobody, Burst(id, 0.0, burst), rate, burst, sweeping) == map[id := Drained(rate, burst)]
    ensures |Answers(Nobody, Burst(id, 0.0, burst), rate, burst, sweeping)| == burst
  {
    assert Earned(0.0, 0.0, rate as real) == 0.0;
    BurstAnswers(Nobody, id, 0.0, burst, rate, burst, sweeping);
  }

  /** A second burst after the sweep is granted in full by the limiter that swept only. */
  lemma SecondBurst(id: string, rate: nat, burst: nat, late: real, sweeping: bool)
    requires 0 < burst && late > STALE_AFTER && 0.0 <= Earned(0.0, late, rate as real) < burst as real
    ensures var m := map[id := Drained(rate, burst)];
            var answers := Answers(m, [Cleanup(late)] + Burst(id, late, burst), rate, burst, sweeping);
            (forall a <- answers :: a) <==> sweeping
  {
    var m: Limiter := map[id := Drained(rate, burst)];
    var second := Burst(id, late, burst);
    assert ([Cleanup(late)] + second)[1..] == second;
    if sweeping {
      assert Swept(m, late) == map[];
      assert Earned(late, late, rate as real) == 0.0;
      BurstAnswers(Nobody, id, late, burst, rate, burst, true);
    } else {
      BurstAnswers(m, id, late, burst, rate, burst, false);
    }
  }

  /** A burst that empties the bucket, ten minutes and a little, a sweep, and a second burst:
      the limiter that swept grants all of it, the other does not. */
  lemma SweepVisible(rate: nat, burst: nat, id: string) returns (run: seq<Event>)
    requires rate * 600 < burst
    ensures Timed(0.0, run)
    ensures Answers(Nobody, run, rate, burst, true) != Answers(Nobody, run, rate, burst, false)
  {
    var late := LittleMore(rate, burst);
    var first, second := Burst(id, 0.0, burst), [Cleanup(late)] + Burst(id, late, burst);
    run := first + second;
    assert Burst(id, late, burst) + [] == Burst(id, late, burst);
    BurstTimed(late, id, late, burst, []);
    assert second[1..] == Burst(id, late, burst);
    BurstTimed(0.0, id, 0.0, burst, second);
    AnswersConcat(Nobody, first, second, rate, burst, true);
    AnswersConcat(Nobody, first, second, rate, burst, false);
    FirstBurst(id, rate, burst, true);
    FirstBurst(id, rate, burst, false);
    SecondBurst(id, rate, burst, late, true);
    SecondBurst(id, rate, burst, late, false);
    assert Answers(Nobody, run, rate, burst, true)[burst..] != Answers(Nobody, run, rate, burst, false)[burst..];
  }

  /** Sweeping changes no answer, on any run, if and only if ten minutes at the refill rate
      are worth at least the burst. */
  lemma SweepInvisibleIff(rate: nat, burst: nat)
    ensures (forall run | Timed(0.0, run) ::
               Answers(Nobody, run, rate, burst, true) == Answers(Nobody, run, rate, burst, false))
       <==> rate * 600 >= burst
  {
    if rate * 600 >= burst {
      forall run | Timed(0.0, run)
        ensures Answers(Nobody, run, rate, burst, true) == Answers(Nobody, run, rate, burst, false)
      {
        SweepInvisible(Nobody, Nobody, rate, burst, 0.0, run);
      }
    } else {
      var run := SweepVisible(rate, burst, "client");
    }
  }

  /** A time a little past ten minutes at which an emptied bucket is still not full. */
  lemma LittleMore(rate: nat, burst: nat) returns (late: real)
    requires rate * 600 < burst
    ensures late > STALE_AFTER && 0.0 <= Earned(0.0, late, rate as real) < burst as real
  {
    var r := rate as real;
    var little := 1.0 / (r + 1.0);
    late := STALE_AFTER + little;
    assert little * (r + 1.0) == 1.0;
    assert little * r < 1.0;
    assert late * r == STALE_AFTER * r + little * r;
    assert STALE_AFTER * r == (rate * 600) as real;
  }

  // ---- Every client has a bucket of its own ----

  /** The times at which a client asked. */
  function TimesOf(run: seq<Event>, id: string): seq<real> {
    if run == [] then []
    else
      var ev := run[|run| - 1];
      TimesOf(run[..|run| - 1], id) + if ev.Request? && ev.id == id then [ev.now] else []
  }

  /** When its bucket was made: at its first request. */
  function MadeAt(run: seq<Event>, id: string): real {
    if run == [] then 0.0
    else
      var (before, ev) := (run[..|run| - 1], run[|run| - 1]);
      if TimesOf(before, id) != [] then MadeAt(before, id)
      else if ev.Request? && ev.id == id then ev.created
      else 0.0
  }

  lemma {:induction false} FinalLast(m: Limiter, run: seq<Event>, rate: nat, burst: nat, sweeping: bool)
    requires run != []
    ensures Final(m, run, rate, burst, sweeping)
         == Apply(Final(m, run[..|run| - 1], rate, burst, sweeping), run[|run| - 1], rate, burst, sweeping)
    decreases |run|
  {
    if |run| == 1 {
      assert run[1..] == [];
    } else {
      assert run[1..][..|run| - 2] == run[..|run| - 1][1..];
      FinalLast(Apply(m, run[0], rate, burst, sweeping), run[1..], rate, burst, sweeping);
    }
  }

  ghost predicate NeverForgets(run: seq<Event>) {
    forall ev <- run :: !ev.Forget?
  }

  /** Without sweeping and forgetting, a client's bucket is a fresh one charged at exactly its
      own requests, whatever the other clients did in between. */
  lemma {:induction false} OwnBucket(run: seq<Event>, id: string, rate: nat, burst: nat)
    requires NeverForgets(run)
    ensures var m := Final(Nobody, run, rate, burst, false);
            && (id in m <==> TimesOf(run, id) != [])
            && (id in m ==> m[id] == After(New(burst as real, rate as real, MadeAt(run, id)), TimesOf(run, id)))
    decreases |run|
  {
    if run != [] {
      var before, ev := run[..|run| - 1], run[|run| - 1];
      assert run == before + [ev];
      OwnBucket(before, id, rate, burst);
      FinalLast(Nobody, run, rate, burst, false);
      if ev.Request? && ev.id == id {
        OneMoreCharge(New(burst as real, rate as real, MadeAt(run, id)), TimesOf(before, id), ev.now);
      } else {
        assert TimesOf(before, id) + [] == TimesOf(before, id);
      }
    }
  }

  lemma OneMoreCharge(b: Bucket, times: seq<real>, now: real)
    ensures After(b, times + [now]) == Take(After(b, times), now)
  {
    assert (times + [now])[..|times|] == times;
  }

  /** So a client's next request is decided by its own past requests alone, as the bucket that
      was charged by them decides. */
  lemma AnswerDependsOnOwnRequests(run: seq<Event>, id: string, created: real, now: real, rate: nat, burst: nat)
    requires NeverForgets(run)
    ensures HitAllowed(Final(Nobody, run, rate, burst, false), id, rate, burst, created, now)
       <==> var made := if TimesOf(run, id) == [] then created else MadeAt(run, id);
            Allowed(After(New(burst as real, rate as real, made), TimesOf(run, id)), now)
  {
    OwnBucket(run, id, rate, burst);
  }
}
