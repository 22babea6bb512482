/** The per-device rate limiter of relay/src/ratelimit.ts, over exact reals. */
module TokenBucket {

  datatype Config = Config(capacity: real, refillPerMinute: real) {
    predicate Valid() { capacity >= 0.0 && refillPerMinute >= 0.0 }
  }

  /** Tokens available at `updated`, in Unix milliseconds. */
  datatype Bucket = Bucket(tokens: real, updated: real)

  datatype Answer = Answer(state: Bucket, allowed: bool)

  const MINUTE_MS := 60000.0

  function NewBucket(cfg: Config, now: real): Bucket { Bucket(cfg.capacity, now) }

  function Max(a: real, b: real): real { if a >= b then a else b }

  function Min(a: real, b: real): real { if a <= b then a else b }

  function Refill(cfg: Config, elapsedMs: real): real { elapsedMs / MINUTE_MS * cfg.refillPerMinute }

  function Consume(state: Bucket, cfg: Config, now: real): Answer {
    var elapsedMs := Max(0.0, now - state.updated);
    var tokens := Min(cfg.capacity, state.tokens + Refill(cfg, elapsedMs));
    if tokens >= 1.0 then Answer(Bucket(tokens - 1.0, now), true) else Answer(Bucket(tokens, now), false)
  }

  // ------------------------------------------------------------------- runs

  predicate Ordered(times: seq<real>) {
    forall i, j :: 0 <= i < j < |times| ==> times[i] <= times[j]
  }

  /** The bucket after a run of calls. */
  function After(s: Bucket, cfg: Config, times: seq<real>): Bucket
    decreases |times|
  {
    if times == [] then s else After(Consume(s, cfg, times[0]).state, cfg, times[1..])
  }

  /** Which calls of a run were allowed. */
  function Answers(s: Bucket, cfg: Config, times: seq<real>): (a: seq<bool>)
    ensures |a| == |times|
    decreases |times|
  {
    if times == [] then []
    else
      var r := Consume(s, cfg, times[0]);
      [r.allowed] + Answers(r.state, cfg, times[1..])
  }

  /** Calls allowed at times from `from` to `to`. */
  function Allowed(s: Bucket, cfg: Config, times: seq<real>, from: real, to: real): nat
    decreases |times|
  {
    if times == [] then 0
    else
      var r := Consume(s, cfg, times[0]);
      (if r.allowed && from <= times[0] <= to then 1 else 0) + Allowed(r.state, cfg, times[1..], from, to)
  }

  lemma RefillAdds(cfg: Config, a: real, b: real)
    ensures Refill(cfg, a) + Refill(cfg, b) == Refill(cfg, a + b)
  {
    assert (a + b) / MINUTE_MS == a / MINUTE_MS + b / MINUTE_MS;
    assert (a / MINUTE_MS + b / MINUTE_MS) * cfg.refillPerMinute
        == a / MINUTE_MS * cfg.refillPerMinute + b / MINUTE_MS * cfg.refillPerMinute;
  }

  lemma RefillGrows(cfg: Config, a: real)
    requires cfg.Valid() && a >= 0.0
    ensures Refill(cfg, a) >= 0.0
  {
    assert a / MINUTE_MS >= 0.0;
  }

  /** At its own moment a bucket allows as many calls as it holds whole tokens. */
  lemma {:induction false} BurstAnswers(s: Bucket, cfg: Config, times: seq<real>, i: nat)
    requires cfg.Valid() && 0.0 <= s.tokens <= cfg.capacity && i < |times|
    requires forall k :: 0 <= k < |times| ==> times[k] == s.updated
    ensures Answers(s, cfg, times)[i] <==> (i + 1) as real <= s.tokens
    decreases i
  {
    var r := Consume(s, cfg, s.updated);
    assert Refill(cfg, 0.0) == 0.0;
    assert Answers(s, cfg, times) == [r.allowed] + Answers(r.state, cfg, times[1..]);
    if i > 0 {
      BurstAnswers(r.state, cfg, times[1..], i - 1);
    }
  }

  /** A new bucket starts full: at its start exactly the first floor(capacity) calls are allowed. */
  lemma NewBucketBurst(cfg: Config, now: real, n: nat, i: nat)
    requires cfg.Valid() && i < n
    ensures Answers(NewBucket(cfg, now), cfg, seq(n, _ => now))[i] <==> i < cfg.capacity.Floor
  {
    BurstAnswers(NewBucket(cfg, now), cfg, seq(n, _ => now), i);
  }

  /** Every call comes at least the refill of one token after the one before. */
  predicate Steady(cfg: Config, now: real, times: seq<real>)
    decreases |times|
  {
    times == [] || (times[0] >= now && Refill(cfg, times[0] - now) >= 1.0 && Steady(cfg, times[0], times[1..]))
  }

  /** Such calls are all allowed. */
  lemma {:induction false} SteadyCalls(s: Bucket, cfg: Config, times: seq<real>)
    requires cfg.Valid() && cfg.capacity >= 1.0 && s.tokens >= 0.0 && Steady(cfg, s.updated, times)
    ensures Answers(s, cfg, times) == seq(|times|, _ => true)
    decreases |times|
  {
    if times != [] {
      assert Max(0.0, times[0] - s.updated) == times[0] - s.updated;
      SteadyCalls(Consume(s, cfg, times[0]).state, cfg, times[1..]);
    }
  }

  /** From a bucket inside the window, every allowed call is paid for by its tokens or by the refill. */
  lemma {:induction false} Paid(s: Bucket, cfg: Config, times: seq<real>, from: real, to: real)
    requires cfg.Valid() && Ordered(times) && 0.0 <= s.tokens <= cfg.capacity && s.updated <= to
    requires times != [] ==> s.updated <= times[0]
    ensures Allowed(s, cfg, times, from, to) as real <= s.tokens + Refill(cfg, to - s.updated)
    decreases |times|
  {
    RefillGrows(cfg, to - s.updated);
    if times != [] {
      var t := times[0];
      RefillGrows(cfg, t - s.updated);
      if t <= to {
        Paid(Consume(s, cfg, t).state, cfg, times[1..], from, to);
        RefillAdds(cfg, t - s.updated, to - t);
        assert t - s.updated + (to - t) == to - s.updated;
      } else {
        NoneAfter(s, cfg, times, from, to);
      }
    }
  }

  lemma {:induction false} NoneAfter(s: Bucket, cfg: Config, times: seq<real>, from: real, to: real)
    requires Ordered(times) && (times != [] ==> times[0] > to)
    ensures Allowed(s, cfg, times, from, to) == 0
    decreases |times|
  {
    if times != [] {
      NoneAfter(Consume(s, cfg, times[0]).state, cfg, times[1..], from, to);
    }
  }

  /** In any window the limiter allows at most the burst plus what the window's length refills. */
  lemma {:induction false} WindowBound(s: Bucket, cfg: Config, times: seq<real>, from: real, to: real)
    requires cfg.Valid() && Ordered(times) && 0.0 <= s.tokens <= cfg.capacity && from <= to
    requires times != [] ==> s.updated <= times[0]
    ensures Allowed(s, cfg, times, from, to) as real <= cfg.capacity + Refill(cfg, to - from)
    decreases |times|
  {
    RefillGrows(cfg, to - from);
    if times != [] {
      var t := times[0];
      var r := Consume(s, cfg, t);
      RefillGrows(cfg, t - s.updated);
      if t < from {
        WindowBound(r.state, cfg, times[1..], from, to);
      } else if t <= to {
        Paid(r.state, cfg, times[1..], from, to);
        RefillGrows(cfg, t - from);
        RefillAdds(cfg, t - from, to - t);
        assert t - from + (to - t) == to - from;
      } else {
        NoneAfter(s, cfg, times, from, to);
      }
    }
  }

  /** A new bucket starts inside the bound. */
  lemma NewBucketBound(cfg: Config, start: real, times: seq<real>, from: real, to: real)
    requires cfg.Valid() && Ordered(times) && from <= to && (times != [] ==> start <= times[0])
    ensures Allowed(NewBucket(cfg, start), cfg, times, from, to) as real
         <= cfg.capacity + (to - from) / MINUTE_MS * cfg.refillPerMinute
  {
    WindowBound(NewBucket(cfg, start), cfg, times, from, to);
  }

  // ----------------------------------------------------------- denied calls

  /** A denied call leaves the next answer, and the bucket after it, as they would have been. */
  lemma DeniedStep(s: Bucket, cfg: Config, t: real, next: real)
    requires cfg.Valid() && s.updated <= t <= next && !Consume(s, cfg, t).allowed
    ensures Consume(Consume(s, cfg, t).state, cfg, next) == Consume(s, cfg, next)
  {
    RefillAdds(cfg, t - s.updated, next - t);
    assert t - s.updated + (next - t) == next - s.updated;
    RefillGrows(cfg, next - t);
  }

  lemma {:induction false} AfterConcat(s: Bucket, cfg: Config, a: seq<real>, b: seq<real>)
    ensures After(s, cfg, a + b) == After(After(s, cfg, a), cfg, b)
    ensures Answers(s, cfg, a + b) == Answers(s, cfg, a) + Answers(After(s, cfg, a), cfg, b)
    decreases |a|
  {
    if a == [] {
      assert a + b == b;
    } else {
      assert (a + b)[1..] == a[1..] + b;
      AfterConcat(Consume(s, cfg, a[0]).state, cfg, a[1..], b);
    }
  }

  lemma {:induction false} UpdatedIsLast(s: Bucket, cfg: Config, a: seq<real>)
    ensures After(s, cfg, a).updated == if a == [] then s.updated else a[|a| - 1]
    decreases |a|
  {
    if a != [] {
      UpdatedIsLast(Consume(s, cfg, a[0]).state, cfg, a[1..]);
    }
  }

  /** Inserting a call that is denied changes no other answer of the run. */
  lemma DeniedCallsInvisible(s: Bucket, cfg: Config, a: seq<real>, t: real, b: seq<real>)
    requires cfg.Valid() && Ordered([s.updated] + a + [t] + b)
    requires !Consume(After(s, cfg, a), cfg, t).allowed
    ensures Answers(s, cfg, a + [t] + b) == Answers(s, cfg, a) + [false] + Answers(After(s, cfg, a), cfg, b)
    ensures Answers(s, cfg, a + b) == Answers(s, cfg, a) + Answers(After(s, cfg, a), cfg, b)
    ensures b != [] ==> After(s, cfg, a + [t] + b) == After(s, cfg, a + b)
  {
    var all := [s.updated] + a + [t] + b;
    var m := After(s, cfg, a);
    var d := Consume(m, cfg, t).state;
    UpdatedIsLast(s, cfg, a);
    assert m.updated == all[|a|] && all[|a| + 1] == t;
    AfterConcat(s, cfg, a, b);
    AfterConcat(s, cfg, a, [t] + b);
    assert a + ([t] + b) == a + [t] + b && ([t] + b)[1..] == b;
    if b != [] {
      assert all[|a| + 2] == b[0];
      DeniedStep(m, cfg, t, b[0]);
    }
    assert Answers(m, cfg, [t] + b) == [false] + Answers(d, cfg, b);
    assert Answers(d, cfg, b) == Answers(m, cfg, b);
  }

  /** With a clock that steps back the bound fails: a bucket of one lets two calls through at time 0. */
  lemma ClockMustNotStepBack()
    ensures var cfg := Config(1.0, 10.0);
      Allowed(NewBucket(cfg, 0.0), cfg, [0.0, -6000.0, 0.0], 0.0, 0.0) == 2
  {
    var cfg := Config(1.0, 10.0);
    assert Refill(cfg, 6000.0) == 1.0 && Refill(cfg, 0.0) == 0.0;
    assert Consume(NewBucket(cfg, 0.0), cfg, 0.0) == Answer(Bucket(0.0, 0.0), true);
    assert Consume(Bucket(0.0, 0.0), cfg, -6000.0) == Answer(Bucket(0.0, -6000.0), false);
    assert Consume(Bucket(0.0, -6000.0), cfg, 0.0) == Answer(Bucket(0.0, 0.0), true);
    assert [0.0, -6000.0, 0.0][1..] == [-6000.0, 0.0] && [-6000.0, 0.0][1..] == [0.0] && [0.0][1..] == [];
    hide Consume;
    assert Allowed(Bucket(0.0, -6000.0), cfg, [0.0], 0.0, 0.0) == 1;
    assert Allowed(Bucket(0.0, 0.0), cfg, [-6000.0, 0.0], 0.0, 0.0) == 1;
  }
}
