/**
 * The rate limiter of relay/src/ratelimit.ts under any clock, one that steps back included: what it allows at most,
 * and exactly which clocks keep the bound of the module TokenBucket.
 */
module BucketClock {
  import opened TokenBucket

  function Distance(a: real, b: real): real { if a <= b then b - a else a - b }

  /** How far the clock moves forward from one reading to the next. */
  function Step(now: real, next: real): real { Max(0.0, next - now) }

  /** And over a run of readings. */
  function Forward(now: real, times: seq<real>): (f: real)
    ensures f >= 0.0
    decreases |times|
  {
    if times == [] then 0.0 else Step(now, times[0]) + Forward(times[0], times[1..])
  }

  function Count(answers: seq<bool>): nat {
    if answers == [] then 0 else (if answers[0] then 1 else 0) + Count(answers[1..])
  }

  // -------------------------------------------------------------- any clock

  /** What one call takes out of the bucket and leaves there. */
  lemma CallBalance(s: Bucket, cfg: Config, t: real)
    requires cfg.Valid() && 0.0 <= s.tokens <= cfg.capacity
    ensures var r := Consume(s, cfg, t);
      && 0.0 <= r.state.tokens <= cfg.capacity && r.state.updated == t
      && (if r.allowed then 1.0 else 0.0) + r.state.tokens <= s.tokens + Refill(cfg, Step(s.updated, t))
      && (if r.allowed then 1.0 else 0.0) + r.state.tokens <= cfg.capacity
  {
    RefillGrows(cfg, Step(s.updated, t));
  }

  /** Under any clock the allowed calls, and what is left, are paid for by the start and the forward movement. */
  lemma {:induction false} AnyClock(s: Bucket, cfg: Config, times: seq<real>)
    requires cfg.Valid() && 0.0 <= s.tokens <= cfg.capacity
    ensures 0.0 <= After(s, cfg, times).tokens <= cfg.capacity
    ensures Count(Answers(s, cfg, times)) as real + After(s, cfg, times).tokens
         <= s.tokens + Refill(cfg, Forward(s.updated, times))
    decreases |times|
  {
    if times == [] {
      RefillGrows(cfg, 0.0);
    } else {
      CallBalance(s, cfg, times[0]);
      var r := Consume(s, cfg, times[0]);
      hide Consume, Refill;
      AnyClock(r.state, cfg, times[1..]);
      RefillAdds(cfg, Step(s.updated, times[0]), Forward(times[0], times[1..]));
      assert Answers(s, cfg, times)[1..] == Answers(r.state, cfg, times[1..]);
    }
  }

  // ------------------------------------------------------------ direct clocks

  /** Having moved `moved` since it read `start`, the clock never gets further than the distance covered. */
  predicate Within(start: real, now: real, moved: real, times: seq<real>)
    decreases |times|
  {
    times != [] ==>
      var m := moved + Step(now, times[0]);
      m <= Distance(start, times[0]) && Within(start, times[0], m, times[1..])
  }

  /** Between no two readings did the clock move forward further than the second is away from the first. */
  predicate Direct(times: seq<real>)
    decreases |times|
  {
    times != [] ==> Within(times[0], times[0], 0.0, times[1..]) && Direct(times[1..])
  }

  /** The readings from i on up to j, seen from i. */
  function Moved(times: seq<real>, i: nat, j: nat): real
    requires i <= j < |times|
  {
    Forward(times[i], times[i + 1..j + 1])
  }

  lemma ForwardStep(now: real, times: seq<real>, j: nat)
    requires 0 < j < |times|
    ensures Forward(now, times[..j + 1]) == Step(now, times[0]) + Forward(times[0], times[1..][..j])
  {
    assert times[..j + 1][1..] == times[1..][..j];
  }

  lemma {:induction false} WithinAt(start: real, now: real, moved: real, times: seq<real>, j: nat)
    requires Within(start, now, moved, times) && j < |times|
    ensures moved + Forward(now, times[..j + 1]) <= Distance(start, times[j])
    decreases |times|
  {
    if j == 0 {
      assert times[..1] == [times[0]];
      assert Forward(times[0], []) == 0.0;
    } else {
      WithinAt(start, times[0], moved + Step(now, times[0]), times[1..], j - 1);
      ForwardStep(now, times, j);
    }
  }

  /** A clock that is not within bounds gets too far at some reading. */
  lemma {:induction false} TooFar(start: real, now: real, moved: real, times: seq<real>) returns (j: nat)
    requires !Within(start, now, moved, times)
    ensures j < |times| && moved + Forward(now, times[..j + 1]) > Distance(start, times[j])
    decreases |times|
  {
    var m := moved + Step(now, times[0]);
    if m > Distance(start, times[0]) {
      j := 0;
      assert times[..1] == [times[0]];
      assert Forward(times[0], []) == 0.0;
    } else {
      var k := TooFar(start, times[0], m, times[1..]);
      j := k + 1;
      ForwardStep(now, times, j);
    }
  }

  lemma {:induction false} DirectAt(times: seq<real>, i: nat, j: nat)
    requires Direct(times) && i < j < |times|
    ensures Moved(times, i, j) <= Distance(times[i], times[j])
  {
    if i == 0 {
      WithinAt(times[0], times[0], 0.0, times[1..], j - 1);
      assert times[1..][..j] == times[1..j + 1];
    } else {
      DirectAt(times[1..], i - 1, j - 1);
      assert times[1..][i..j] == times[i + 1..j + 1];
    }
  }

  lemma {:induction false} Detour(times: seq<real>) returns (i: nat, j: nat)
    requires !Direct(times)
    ensures i < j < |times| && Moved(times, i, j) > Distance(times[i], times[j])
  {
    if !Within(times[0], times[0], 0.0, times[1..]) {
      var k := TooFar(times[0], times[0], 0.0, times[1..]);
      i, j := 0, k + 1;
      assert times[1..][..j] == times[1..j + 1];
    } else {
      var a, b := Detour(times[1..]);
      i, j := a + 1, b + 1;
      assert times[1..][a + 1..b + 1] == times[i + 1..j + 1];
    }
  }

  lemma DirectMeans(times: seq<real>)
    ensures Direct(times) <==> forall i, j :: 0 <= i < j < |times| ==>
      Moved(times, i, j) <= Distance(times[i], times[j])
  {
    if Direct(times) {
      forall i, j | 0 <= i < j < |times| ensures Moved(times, i, j) <= Distance(times[i], times[j]) {
        DirectAt(times, i, j);
      }
    } else {
      var i, j := Detour(times);
      assert Moved(times, i, j) > Distance(times[i], times[j]);
    }
  }

  /** A clock that never steps back is direct. */
  lemma {:induction false} OrderedWithin(start: real, now: real, times: seq<real>)
    requires start <= now && Ordered([now] + times)
    ensures Within(start, now, now - start, times)
    decreases |times|
  {
    if times != [] {
      assert ([now] + times)[0] == now && ([now] + times)[1] == times[0];
      assert [times[0]] + times[1..] == times;
      forall i, j | 0 <= i < j < |times| ensures times[i] <= times[j] {
        assert ([now] + times)[i + 1] == times[i] && ([now] + times)[j + 1] == times[j];
      }
      OrderedWithin(start, times[0], times[1..]);
    }
  }

  lemma {:induction false} OrderedIsDirect(times: seq<real>)
    requires Ordered(times)
    ensures Direct(times)
    decreases |times|
  {
    if times != [] {
      assert [times[0]] + times[1..] == times;
      OrderedWithin(times[0], times[0], times[1..]);
      OrderedIsDirect(times[1..]);
    }
  }

  // ------------------------------------------------ direct clocks keep the bound

  /** Past the end of the window a clock that stays within bounds makes no call in it any more. */
  lemma {:induction false} NoneLater(s: Bucket, cfg: Config, times: seq<real>, from: real, to: real,
                                     start: real, now: real, moved: real)
    requires from <= start <= to && Within(start, now, moved, times) && moved > to - from
    ensures Allowed(s, cfg, times, from, to) == 0
    decreases |times|
  {
    if times != [] {
      var m := moved + Step(now, times[0]);
      NoneLater(Consume(s, cfg, times[0]).state, cfg, times[1..], from, to, start, times[0], m);
    }
  }

  /** From a call inside the window on, the allowed ones are paid for by the bucket and what is left of the window. */
  lemma {:induction false} PaidWithin(s: Bucket, cfg: Config, times: seq<real>, from: real, to: real, start: real,
      moved: real)
    requires cfg.Valid() && 0.0 <= s.tokens <= cfg.capacity && from <= start <= to && 0.0 <= moved <= to - from
    requires Within(start, s.updated, moved, times)
    ensures Allowed(s, cfg, times, from, to) as real <= s.tokens + Refill(cfg, to - from - moved)
    decreases |times|
  {
    RefillGrows(cfg, to - from - moved);
    if times != [] {
      var t, m := times[0], moved + Step(s.updated, times[0]);
      var r := Consume(s, cfg, t);
      CallBalance(s, cfg, t);
      hide Consume, Refill;
      if m <= to - from {
        PaidWithin(r.state, cfg, times[1..], from, to, start, m);
        RefillAdds(cfg, Step(s.updated, t), to - from - m);
      } else {
        NoneLater(r.state, cfg, times[1..], from, to, start, t, m);
      }
    }
  }

  /** On a direct clock every window is within the bound, whatever the bucket held before. */
  lemma {:induction false} DirectIsBounded(s: Bucket, cfg: Config, times: seq<real>, from: real, to: real)
    requires cfg.Valid() && Direct(times) && 0.0 <= s.tokens <= cfg.capacity && from <= to
    ensures Allowed(s, cfg, times, from, to) as real <= cfg.capacity + Refill(cfg, to - from)
    decreases |times|
  {
    RefillGrows(cfg, to - from);
    if times != [] {
      var r := Consume(s, cfg, times[0]);
      CallBalance(s, cfg, times[0]);
      if from <= times[0] <= to {
        PaidWithin(r.state, cfg, times[1..], from, to, times[0], 0.0);
      } else {
        DirectIsBounded(r.state, cfg, times[1..], from, to);
      }
    }
  }

  // --------------------------------------------------- other clocks break it

  /** Calls at one reading. */
  function Burst(t: real, n: nat): seq<real> { seq(n, _ => t) }

  /** A run of calls on a clock: one or more at each reading. */
  function Calls(ticks: seq<real>, counts: seq<nat>): seq<real>
    requires |counts| == |ticks|
  {
    if ticks == [] then [] else Burst(ticks[0], counts[0]) + Calls(ticks[1..], counts[1..])
  }

  ghost predicate Counts(counts: seq<nat>, ticks: seq<real>) {
    |counts| == |ticks| && forall k :: 0 <= k < |counts| ==> counts[k] >= 1
  }

  /** Every run on this clock, of any bucket in any configuration, keeps the bound in every window. */
  ghost predicate Safe(ticks: seq<real>) {
    forall counts, s: Bucket, cfg: Config, from, to ::
      Counts(counts, ticks) && cfg.Valid() && 0.0 <= s.tokens <= cfg.capacity && from <= to ==>
        Allowed(s, cfg, Calls(ticks, counts), from, to) as real <= cfg.capacity + Refill(cfg, to - from)
  }

  lemma BurstStep(t: real, n: nat)
    requires n > 0
    ensures Burst(t, n) == [t] + Burst(t, n - 1)
  {}

  lemma {:induction false} WithinBurst(start: real, now: real, moved: real, t: real, n: nat, rest: seq<real>)
    requires n > 0
    ensures Within(start, now, moved, Burst(t, n) + rest) <==> Within(start, now, moved, [t] + rest)
    decreases n
  {
    var m := moved + Step(now, t);
    BurstStep(t, n);
    assert (Burst(t, n) + rest)[1..] == Burst(t, n - 1) + rest;
    assert ([t] + rest)[1..] == rest;
    if n > 1 {
      WithinBurst(start, t, m, t, n - 1, rest);
    } else {
      assert Burst(t, 0) + rest == rest;
    }
  }

  lemma {:induction false} WithinCalls(start: real, now: real, moved: real, ticks: seq<real>, counts: seq<nat>)
    requires Counts(counts, ticks)
    ensures Within(start, now, moved, Calls(ticks, counts)) <==> Within(start, now, moved, ticks)
    decreases |ticks|
  {
    if ticks != [] {
      var rest := Calls(ticks[1..], counts[1..]);
      WithinBurst(start, now, moved, ticks[0], counts[0], rest);
      assert ([ticks[0]] + rest)[1..] == rest;
      WithinCalls(start, ticks[0], moved + Step(now, ticks[0]), ticks[1..], counts[1..]);
    }
  }

  lemma {:induction false} DirectBurst(t: real, n: nat, rest: seq<real>)
    requires Within(t, t, 0.0, rest) && Direct(rest)
    ensures Direct(Burst(t, n) + rest)
    decreases n
  {
    if n == 0 {
      assert Burst(t, 0) + rest == rest;
    } else {
      BurstStep(t, n);
      assert (Burst(t, n) + rest)[1..] == Burst(t, n - 1) + rest;
      DirectBurst(t, n - 1, rest);
      if n > 1 {
        WithinBurst(t, t, 0.0, t, n - 1, rest);
        assert ([t] + rest)[1..] == rest;
      } else {
        assert Burst(t, 0) + rest == rest;
      }
    }
  }

  /** Calling again at the same reading keeps a clock direct. */
  lemma {:induction false} DirectCalls(ticks: seq<real>, counts: seq<nat>)
    requires Counts(counts, ticks) && Direct(ticks)
    ensures Direct(Calls(ticks, counts))
    decreases |ticks|
  {
    if ticks != [] {
      DirectCalls(ticks[1..], counts[1..]);
      WithinCalls(ticks[0], ticks[0], 0.0, ticks[1..], counts[1..]);
      DirectBurst(ticks[0], counts[0], Calls(ticks[1..], counts[1..]));
    }
  }

  lemma {:induction false} AllowedConcat(s: Bucket, cfg: Config, a: seq<real>, b: seq<real>, from: real, to: real)
    ensures After(s, cfg, a + b) == After(After(s, cfg, a), cfg, b)
    ensures Allowed(s, cfg, a + b, from, to)
         == Allowed(s, cfg, a, from, to) + Allowed(After(s, cfg, a), cfg, b, from, to)
    decreases |a|
  {
    if a == [] {
      assert a + b == b;
    } else {
      assert (a + b)[1..] == a[1..] + b;
      AllowedConcat(Consume(s, cfg, a[0]).state, cfg, a[1..], b, from, to);
    }
  }

  /** A burst inside the window is allowed as long as whole tokens last. */
  lemma {:induction false} BurstAllowed(s: Bucket, cfg: Config, t: real, n: nat, k: nat, from: real, to: real)
    requires cfg.Valid() && 0.0 <= s.tokens <= cfg.capacity && from <= t <= to && k <= n
    requires k as real <= Min(cfg.capacity, s.tokens + Refill(cfg, Step(s.updated, t)))
    ensures Allowed(s, cfg, Burst(t, n), from, to) >= k
    decreases n
  {
    if k > 0 {
      BurstStep(t, n);
      CallBalance(s, cfg, t);
      var r := Consume(s, cfg, t);
      assert Burst(t, n)[1..] == Burst(t, n - 1);
      RefillGrows(cfg, 0.0);
      BurstAllowed(r.state, cfg, t, n - 1, k - 1, from, to);
    }
  }

  /** One call at each reading uses up at most one token each. */
  lemma {:induction false} LeastLeft(s: Bucket, cfg: Config, xs: seq<real>, floor: real)
    requires cfg.Valid() && 0.0 <= s.tokens <= cfg.capacity && floor <= s.tokens
    requires floor + Refill(cfg, Forward(s.updated, xs)) <= cfg.capacity
    ensures After(s, cfg, xs).tokens >= floor + Refill(cfg, Forward(s.updated, xs)) - |xs| as real
    decreases |xs|
  {
    RefillGrows(cfg, 0.0);
    if xs != [] {
      var r := Consume(s, cfg, xs[0]);
      var gain := Refill(cfg, Step(s.updated, xs[0]));
      RefillAdds(cfg, Step(s.updated, xs[0]), Forward(xs[0], xs[1..]));
      RefillGrows(cfg, Forward(xs[0], xs[1..]));
      CallBalance(s, cfg, xs[0]);
      assert r.state.tokens >= floor + gain - 1.0;
      LeastLeft(r.state, cfg, xs[1..], floor + gain - 1.0);
    }
  }

  lemma {:induction false} CallsConcat(a: seq<real>, ca: seq<nat>, b: seq<real>, cb: seq<nat>)
    requires |ca| == |a| && |cb| == |b|
    ensures Calls(a + b, ca + cb) == Calls(a, ca) + Calls(b, cb)
    decreases |a|
  {
    if a == [] {
      assert a + b == b && ca + cb == cb;
    } else {
      assert (a + b)[1..] == a[1..] + b && (ca + cb)[1..] == ca[1..] + cb;
      CallsConcat(a[1..], ca[1..], b, cb);
    }
  }

  lemma {:induction false} CallsOnce(a: seq<real>)
    ensures Calls(a, seq(|a|, _ => 1)) == a
    decreases |a|
  {
    if a != [] {
      assert seq(|a|, _ => 1)[1..] == seq(|a[1..]|, _ => 1);
      CallsOnce(a[1..]);
      assert Burst(a[0], 1) == [a[0]];
    }
  }

  lemma CallsOne(t: real, n: nat)
    ensures Calls([t], [n]) == Burst(t, n)
  {
    assert [t][1..] == [] && [n][1..] == [];
  }

  /** Bursts at two readings, one call at every other. */
  lemma TwoBursts(pre: seq<real>, a: real, mid: seq<real>, b: real, post: seq<real>, n: nat) returns (counts: seq<nat>)
    requires n >= 1
    ensures var ticks := pre + [a] + mid + [b] + post;
      Counts(counts, ticks) && Calls(ticks, counts) == pre + Burst(a, n) + mid + Burst(b, n) + post
  {
    var c1, c2, c3 := seq(|pre|, _ => 1), seq(|mid|, _ => 1), seq(|post|, _ => 1);
    counts := c1 + [n] + c2 + [n] + c3;
    CallsOnce(pre);
    CallsOnce(mid);
    CallsOnce(post);
    CallsOne(a, n);
    CallsOne(b, n);
    CallsConcat(pre, c1, [a], [n]);
    CallsConcat(pre + [a], c1 + [n], mid, c2);
    CallsConcat(pre + [a] + mid, c1 + [n] + c2, [b], [n]);
    CallsConcat(pre + [a] + mid + [b], c1 + [n] + c2 + [n], post, c3);
  }

  lemma {:induction false} ForwardLast(now: real, xs: seq<real>, b: real)
    ensures Forward(now, xs + [b]) == Forward(now, xs) + Step(if xs == [] then now else xs[|xs| - 1], b)
    decreases |xs|
  {
    if xs == [] {
      assert (xs + [b])[1..] == [];
    } else {
      assert (xs + [b])[1..] == xs[1..] + [b];
      ForwardLast(xs[0], xs[1..], b);
    }
  }

  /** A configuration whose refill over a forward movement f is the whole capacity n. */
  function Filling(n: nat, f: real): Config
    requires f > 0.0
  {
    Config(n as real, n as real / f * MINUTE_MS)
  }

  lemma FillingRefills(n: nat, f: real, e: real)
    requires f > 0.0
    ensures Filling(n, f).Valid() && Refill(Filling(n, f), f) == n as real
    ensures Refill(Filling(n, f), e) * f == e * n as real
  {
    var q := n as real / f;
    assert q * f == n as real;
    assert e / MINUTE_MS * (q * MINUTE_MS) == e * q;
    assert f / MINUTE_MS * (q * MINUTE_MS) == f * q;
    assert e * q * f == e * (q * f);
  }

  /** The calls at the first reading, and those at the second after the bucket has filled again. */
  lemma BothBursts(pre: seq<real>, a: real, mid: seq<real>, b: real, post: seq<real>, n: nat, from: real, to: real)
    requires n >= 1 && n >= |pre| + |mid| && from <= a <= to && from <= b <= to
    requires Forward(a, mid + [b]) > 0.0
    ensures var cfg := Filling(n, Forward(a, mid + [b]));
      Allowed(Bucket(n as real, a), cfg, pre + Burst(a, n) + mid + Burst(b, n) + post, from, to)
        >= n - |pre| + (n - |mid|)
  {
    var f := Forward(a, mid + [b]);
    var cfg, s0 := Filling(n, f), Bucket(n as real, a);
    FillingRefills(n, f, 0.0);
    var s1 := After(s0, cfg, pre);
    LeastLeft(s0, cfg, pre, n as real - Refill(cfg, Forward(a, pre)));
    RefillGrows(cfg, Forward(a, pre));
    AnyClock(s0, cfg, pre);
    RefillGrows(cfg, Step(s1.updated, a));
    BurstAllowed(s1, cfg, a, n, n - |pre|, from, to);
    var s2 := After(s1, cfg, Burst(a, n));
    AnyClock(s1, cfg, Burst(a, n));
    UpdatedIsLast(s1, cfg, Burst(a, n));
    var s3 := After(s2, cfg, mid);
    ForwardLast(a, mid, b);
    UpdatedIsLast(s2, cfg, mid);
    AnyClock(s2, cfg, mid);
    RefillAdds(cfg, Forward(a, mid), Step(s3.updated, b));
    RefillGrows(cfg, Step(s3.updated, b));
    LeastLeft(s2, cfg, mid, 0.0);
    BurstAllowed(s3, cfg, b, n, n - |mid|, from, to);
    AllowedConcat(s0, cfg, pre, Burst(a, n), from, to);
    AllowedConcat(s0, cfg, pre + Burst(a, n), mid, from, to);
    AllowedConcat(s0, cfg, pre + Burst(a, n) + mid, Burst(b, n), from, to);
    AllowedConcat(s0, cfg, pre + Burst(a, n) + mid + Burst(b, n), post, from, to);
  }

  /** Enough calls outweigh what the readings before and between them use up. */
  lemma Enough(f: real, w: real, others: nat) returns (n: nat)
    requires 0.0 <= w < f
    ensures n >= 1 && n >= others && (n - others) as real * f > w * n as real
  {
    var x := others as real * f / (f - w);
    n := (if x.Floor >= 0 then x.Floor else 0) + 1 + others;
    assert n as real > x;
    assert n as real * (f - w) > x * (f - w) == others as real * f;
  }

  /** A clock that is not direct lets some run of some configuration break the bound. */
  lemma DetourBreaks(ticks: seq<real>)
    requires !Direct(ticks)
    ensures !Safe(ticks)
  {
    hide Direct, Calls, Allowed, Refill, Forward;
    var i, j := Detour(ticks);
    var a, b, f := ticks[i], ticks[j], Moved(ticks, i, j);
    var pre, mid, post := ticks[..i], ticks[i + 1..j], ticks[j + 1..];
    Around(ticks, i, j);
    var from, to := Min(a, b), Max(a, b);
    var n := Enough(f, to - from, i + |mid|);
    var counts := TwoBursts(pre, a, mid, b, post, n);
    var cfg, s := Filling(n, f), Bucket(n as real, a);
    BothBursts(pre, a, mid, b, post, n, from, to);
    FillingRefills(n, f, to - from);
    Cancels(Refill(cfg, to - from), (n - (i + |mid|)) as real, f);
    assert Allowed(s, cfg, Calls(ticks, counts), from, to) as real > cfg.capacity + Refill(cfg, to - from);
  }

  lemma Around(ticks: seq<real>, i: nat, j: nat)
    requires i < j < |ticks|
    ensures ticks == ticks[..i] + [ticks[i]] + ticks[i + 1..j] + [ticks[j]] + ticks[j + 1..]
    ensures ticks[i + 1..j + 1] == ticks[i + 1..j] + [ticks[j]]
  {}

  lemma Cancels(x: real, y: real, f: real)
    requires f > 0.0 && x * f < y * f
    ensures x < y
  {}

  /**
   * The window bound holds of every run on a clock exactly when the clock is direct: between no two readings does it
   * move forward further than they are apart.
   */
  lemma SafeExactly(ticks: seq<real>)
    ensures Safe(ticks) <==>
      forall i, j :: 0 <= i < j < |ticks| ==> Moved(ticks, i, j) <= Distance(ticks[i], ticks[j])
  {
    DirectMeans(ticks);
    if Direct(ticks) {
      forall counts, s: Bucket, cfg: Config, from, to |
        Counts(counts, ticks) && cfg.Valid() && 0.0 <= s.tokens <= cfg.capacity && from <= to
        ensures Allowed(s, cfg, Calls(ticks, counts), from, to) as real <= cfg.capacity + Refill(cfg, to - from)
      {
        DirectCalls(ticks, counts);
        DirectIsBounded(s, cfg, Calls(ticks, counts), from, to);
      }
    } else {
      DetourBreaks(ticks);
    }
  }
}
