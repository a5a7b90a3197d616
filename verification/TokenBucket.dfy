/**
 The token bucket of one client (middleware/ratelimit.go, lines 24-30 and 80-95).

 Tokens and times are reals; times are seconds.
 */
module TokenBucket {

  datatype Bucket = Bucket(tokens: real, maxTokens: real, rate: real, lastTime: real)

  function New(burst: real, rate: real, created: real): Bucket {
    Bucket(burst, burst, rate, created)
  }

  /** Time as the tokens it is worth. */
  function Credit(t: real, rate: real): real {
    t * rate
  }

  /** The tokens earned between two times. */
  function Earned(from: real, to: real, rate: real): (e: real)
    ensures e == Credit(to, rate) - Credit(from, rate)
    ensures from <= to && 0.0 <= rate ==> 0.0 <= e
  {
    (to - from) * rate
  }

  /** The tokens at a request, before it is decided. */
  function Refilled(b: Bucket, now: real): real {
    var t := b.tokens + Earned(b.lastTime, now, b.rate);
    if t > b.maxTokens then b.maxTokens else t
  }

  predicate Allowed(b: Bucket, now: real) {
    Refilled(b, now) >= 1.0
  }

  function Take(b: Bucket, now: real): Bucket {
    b.(tokens := if Allowed(b, now) then Refilled(b, now) - 1.0 else Refilled(b, now), lastTime := now)
  }

  /** The bucket after requests at `times`. */
  function After(b: Bucket, times: seq<real>): Bucket {
    if times == [] then b else Take(After(b, times[..|times| - 1]), times[|times| - 1])
  }

  /** How many of the requests from number `j` on were allowed. */
  function Granted(b: Bucket, times: seq<real>, j: nat): nat {
    if |times| <= j then 0
    else
      var before := times[..|times| - 1];
      Granted(b, before, j) + (if Allowed(After(b, before), times[|times| - 1]) then 1 else 0)
  }

  // ---- The same bucket on a clock that counts tokens ----
  //
  // With time measured in tokens earned the rate is one and everything below is linear.

  function CreditRefilled(cap: real, tokens: real, elapsed: real): real {
    if tokens + elapsed > cap then cap else tokens + elapsed
  }

  function CreditTake(cap: real, tokens: real, elapsed: real): real {
    var t := CreditRefilled(cap, tokens, elapsed);
    if t >= 1.0 then t - 1.0 else t
  }

  /** Tokens after requests at credits `cs`, starting with `x` tokens at credit `c`. */
  function CreditAfter(cap: real, x: real, c: real, cs: seq<real>): real {
    if cs == [] then x
    else
      var before := cs[..|cs| - 1];
      CreditTake(cap, CreditAfter(cap, x, c, before), cs[|cs| - 1] - Latest(c, before))
  }

  function Latest(c: real, cs: seq<real>): real {
    if cs == [] then c else cs[|cs| - 1]
  }

  function CreditGranted(cap: real, x: real, c: real, cs: seq<real>, j: nat): nat {
    if |cs| <= j then 0
    else
      var before := cs[..|cs| - 1];
      var t := CreditRefilled(cap, CreditAfter(cap, x, c, before), cs[|cs| - 1] - Latest(c, before));
      CreditGranted(cap, x, c, before, j) + (if t >= 1.0 then 1 else 0)
  }

  /** What a bucket full at request `j`, or the initial one without a cap (j == -1), would
      have left at the last request. */
  function Candidate(cap: real, x: real, c: real, cs: seq<real>, j: int): real
    requires -1 <= j < |cs|
  {
    if j == -1 then x + (Latest(c, cs) - c) - CreditGranted(cap, x, c, cs, 0) as real
    else cap + (Latest(c, cs) - cs[j]) - CreditGranted(cap, x, c, cs, j) as real
  }

  ghost predicate LeastCandidate(cap: real, x: real, c: real, cs: seq<real>, y: real) {
    && (forall j | -1 <= j < |cs| :: y <= Candidate(cap, x, c, cs, j))
    && (exists j | -1 <= j < |cs| :: y == Candidate(cap, x, c, cs, j))
  }

  lemma {:induction false} CreditExact(cap: real, x: real, c: real, cs: seq<real>)
    ensures LeastCandidate(cap, x, c, cs, CreditAfter(cap, x, c, cs))
  {
    if cs == [] {
      assert Candidate(cap, x, c, cs, -1) == x;
    } else {
      var last := |cs| - 1;
      var before := cs[..last];
      CreditExact(cap, x, c, before);
      var y0, y := CreditAfter(cap, x, c, before), CreditAfter(cap, x, c, cs);
      var gained := cs[last] - Latest(c, before);
      var spent := if CreditRefilled(cap, y0, gained) >= 1.0 then 1.0 else 0.0;
      forall j | -1 <= j < last
        ensures Candidate(cap, x, c, cs, j) == Candidate(cap, x, c, before, j) + gained - spent
      {
        if j >= 0 { assert before[j] == cs[j]; }
      }
      assert Candidate(cap, x, c, cs, last) == cap - spent by {
        assert CreditGranted(cap, x, c, before, last) == 0;
      }
      if y0 + gained > cap {
        assert y == Candidate(cap, x, c, cs, last);
      } else {
        var j :| -1 <= j < last && y0 == Candidate(cap, x, c, before, j);
        assert y == Candidate(cap, x, c, cs, j);
      }
    }
  }

  // ---- Back to seconds ----

  function Scaled(times: seq<real>, rate: real): seq<real> {
    seq(|times|, i requires 0 <= i < |times| => Credit(times[i], rate))
  }

  lemma ScaledPrefix(times: seq<real>, rate: real, k: nat)
    requires k <= |times|
    ensures Scaled(times, rate)[..k] == Scaled(times[..k], rate)
  {
    forall i | 0 <= i < k ensures Scaled(times, rate)[i] == Scaled(times[..k], rate)[i] {
      assert times[..k][i] == times[i];
    }
  }

  /** The bucket is the credit bucket on the scaled clock. */
  lemma {:induction false} CreditMatches(b: Bucket, times: seq<real>)
    ensures var cs := Scaled(times, b.rate);
            var a := After(b, times);
            && a.tokens == CreditAfter(b.maxTokens, b.tokens, Credit(b.lastTime, b.rate), cs)
            && a.maxTokens == b.maxTokens && a.rate == b.rate
            && Credit(a.lastTime, b.rate) == Latest(Credit(b.lastTime, b.rate), cs)
            && a.lastTime == if times == [] then b.lastTime else times[|times| - 1]
  {
    if times != [] {
      var last := |times| - 1;
      CreditMatches(b, times[..last]);
      ScaledPrefix(times, b.rate, last);
    }
  }

  lemma {:induction false} GrantedMatches(b: Bucket, times: seq<real>, j: nat)
    ensures Granted(b, times, j)
         == CreditGranted(b.maxTokens, b.tokens, Credit(b.lastTime, b.rate), Scaled(times, b.rate), j)
  {
    if |times| > j {
      var last := |times| - 1;
      GrantedMatches(b, times[..last], j);
      CreditMatches(b, times[..last]);
      ScaledPrefix(times, b.rate, last);
    }
  }

  /** What a bucket full at request `j` would have left at the last request. */
  function FullSince(b: Bucket, times: seq<real>, j: int): real
    requires 0 <= j < |times|
  {
    b.maxTokens + Earned(times[j], times[|times| - 1], b.rate) - Granted(b, times, j) as real
  }

  /** What the initial bucket would have left at the last request without the cap. */
  function Uncapped(b: Bucket, times: seq<real>): real
    requires times != []
  {
    b.tokens + Earned(b.lastTime, times[|times| - 1], b.rate) - Granted(b, times, 0) as real
  }

  function CandidateOf(b: Bucket, times: seq<real>, j: int): real
    requires -1 <= j < |times|
  {
    Candidate(b.maxTokens, b.tokens, Credit(b.lastTime, b.rate), Scaled(times, b.rate), j)
  }

  lemma FullSinceMatches(b: Bucket, times: seq<real>, j: int)
    requires 0 <= j < |times|
    ensures FullSince(b, times, j) == CandidateOf(b, times, j)
  {
    GrantedMatches(b, times, j);
  }

  lemma UncappedMatches(b: Bucket, times: seq<real>)
    requires times != []
    ensures Uncapped(b, times) == CandidateOf(b, times, -1)
  {
    GrantedMatches(b, times, 0);
  }

  /** For any bucket and any requests, at any times: the tokens left are exactly the least
      of what the uncapped bucket, and a bucket filled up at each request, would have left. */
  lemma TokensExact(b: Bucket, times: seq<real>)
    requires times != []
    ensures After(b, times).tokens <= Uncapped(b, times)
    ensures forall j | 0 <= j < |times| :: After(b, times).tokens <= FullSince(b, times, j)
    ensures After(b, times).tokens == Uncapped(b, times)
         || exists j | 0 <= j < |times| :: After(b, times).tokens == FullSince(b, times, j)
  {
    var y := After(b, times).tokens;
    CreditMatches(b, times);
    CreditExact(b.maxTokens, b.tokens, Credit(b.lastTime, b.rate), Scaled(times, b.rate));
    UncappedMatches(b, times);
    forall j | 0 <= j < |times| ensures FullSince(b, times, j) == CandidateOf(b, times, j) {
      FullSinceMatches(b, times, j);
    }
    LeastIn(b, times, y);
  }

  lemma LeastIn(b: Bucket, times: seq<real>, y: real)
    requires times != []
    requires LeastCandidate(b.maxTokens, b.tokens, Credit(b.lastTime, b.rate), Scaled(times, b.rate), y)
    ensures forall j | -1 <= j < |times| :: y <= CandidateOf(b, times, j)
    ensures exists j | -1 <= j < |times| :: y == CandidateOf(b, times, j)
  {
    var cs := Scaled(times, b.rate);
    var j :| -1 <= j < |cs| && y == Candidate(b.maxTokens, b.tokens, Credit(b.lastTime, b.rate), cs, j);
    assert y == CandidateOf(b, times, j);
  }

  // ---- A fresh bucket ----

  /** Requests come after the bucket is made, at times that do not go back. */
  ghost predicate Ascending(from: real, times: seq<real>) {
    && (times != [] ==> from <= times[0])
    && (forall i :: 0 < i < |times| ==> times[i - 1] <= times[i])
  }

  /** After any history on a fresh bucket the tokens left are exactly the minimum, over the
      requests made, of the burst plus what was earned since that request minus what was
      granted from it on. */
  lemma TokensOfFreshBucket(burst: real, rate: real, created: real, times: seq<real>)
    requires 0.0 <= rate && times != [] && created <= times[0]
    ensures var b := New(burst, rate, created);
            && (forall j | 0 <= j < |times| :: After(b, times).tokens <= FullSince(b, times, j))
            && (exists j | 0 <= j < |times| :: After(b, times).tokens == FullSince(b, times, j))
  {
    var b := New(burst, rate, created);
    TokensExact(b, times);
    CreatedEarlier(b, times);
    assert After(b, times).tokens <= FullSince(b, times, 0);
  }

  lemma CreatedEarlier(b: Bucket, times: seq<real>)
    requires b.tokens == b.maxTokens && 0.0 <= b.rate && times != [] && b.lastTime <= times[0]
    ensures FullSince(b, times, 0) <= Uncapped(b, times)
  {
    var t := times[|times| - 1];
  }

  lemma {:induction false} TokensStayInRange(b: Bucket, times: seq<real>)
    requires 0.0 <= b.tokens <= b.maxTokens && 0.0 <= b.rate && Ascending(b.lastTime, times)
    ensures 0.0 <= After(b, times).tokens <= b.maxTokens
  {
    if times != [] {
      var last := |times| - 1;
      TokensStayInRange(b, times[..last]);
      CreditMatches(b, times[..last]);
    }
  }

  /** No window of requests, from any one to the last, is granted more than the burst plus
      the rate times its length. */
  lemma WindowBound(burst: real, rate: real, created: real, times: seq<real>, j: nat)
    requires 0.0 <= rate && 0.0 <= burst && Ascending(created, times) && j < |times|
    ensures Granted(New(burst, rate, created), times, j) as real
         <= burst + Earned(times[j], times[|times| - 1], rate)
  {
    var b := New(burst, rate, created);
    TokensStayInRange(b, times);
    TokensOfFreshBucket(burst, rate, created, times);
    assert After(b, times).tokens <= FullSince(b, times, j);
  }

  /** A request is refused exactly if, for some request j up to itself, the burst plus what
      was earned since j minus what was granted from j on before it is below one. */
  lemma RefusedIff(burst: real, rate: real, created: real, times: seq<real>, now: real)
    requires 0.0 <= rate && Ascending(created, times + [now])
    ensures !Allowed(After(New(burst, rate, created), times), now)
       <==> exists j | 0 <= j <= |times| :: LeftSince(New(burst, rate, created), times, now, j) < 1.0
  {
    var b := New(burst, rate, created);
    var all := times + [now];
    assert all[..|all| - 1] == times;
    TokensOfFreshBucket(burst, rate, created, all);
    CreditMatches(b, times);
    var r := Refilled(After(b, times), now);
    forall j | 0 <= j <= |times| ensures r <= LeftSince(b, times, now, j) {
      LeftSinceMatches(b, times, now, j);
      assert After(b, all).tokens <= FullSince(b, all, j);
    }
    var j :| 0 <= j < |all| && After(b, all).tokens == FullSince(b, all, j);
    LeftSinceMatches(b, times, now, j);
    assert r == LeftSince(b, times, now, j);
  }

  /** What a bucket full at request `j` of `times + [now]` would have at `now`. */
  function LeftSince(b: Bucket, times: seq<real>, now: real, j: int): real
    requires 0 <= j <= |times|
  {
    b.maxTokens + Earned((times + [now])[j], now, b.rate) - Granted(b, times, j) as real
  }

  lemma LeftSinceMatches(b: Bucket, times: seq<real>, now: real, j: int)
    requires 0 <= j <= |times|
    ensures LeftSince(b, times, now, j) - FullSince(b, times + [now], j)
         == Refilled(After(b, times), now) - After(b, times + [now]).tokens
  {
    assert (times + [now])[..|times|] == times;
  }
}
