/**
 * The power-LED classifier of firmware/main/pc_power.c against a definition over the whole sample history.
 */
module PcPower {

  const DEBOUNCE_MS := 50
  const STEADY_MS := 5000
  const BLINK_EDGES := 4
  const RUN_MAX := 255

  datatype Power = Unknown | Off | On | Sleep

  datatype Sample = Sample(lit: bool, at: nat)

  /** Times never go backwards. */
  predicate Ordered(h: seq<Sample>) {
    forall i, j :: 0 <= i < j < |h| ==> h[i].at <= h[j].at
  }

  // ------------------------------------------------------ history definition

  function Last(h: seq<Sample>): Sample
    requires h != []
  {
    h[|h| - 1]
  }

  function Earlier(h: seq<Sample>): seq<Sample>
    requires h != []
  {
    h[..|h| - 1]
  }

  /** First sample of the latest stretch of equal raw levels. */
  function Stretch(h: seq<Sample>): (s: nat)
    requires h != []
    ensures s < |h| && forall k :: s <= k < |h| ==> h[k].lit == Last(h).lit
    ensures s > 0 ==> h[s - 1].lit != Last(h).lit
  {
    if |h| == 1 || h[|h| - 2].lit != Last(h).lit then |h| - 1 else Stretch(Earlier(h))
  }

  function Since(h: seq<Sample>): nat
    requires h != []
  {
    h[Stretch(h)].at
  }

  /** The raw level has been held long enough to count. */
  predicate Held(h: seq<Sample>)
    requires h != []
  {
    Last(h).at - Since(h) >= 50
  }

  /** The raw level that was last held, the first sample counting as held. */
  function Level(h: seq<Sample>): bool
    requires h != []
  {
    if |h| == 1 || Held(h) then Last(h).lit else Level(Earlier(h))
  }

  predicate NewEdge(h: seq<Sample>)
    requires h != []
  {
    |h| > 1 && Level(h) != Level(Earlier(h))
  }

  /** The changes of level, each dated from when the raw level changed. */
  function Edges(h: seq<Sample>): seq<nat>
    requires h != []
  {
    if |h| == 1 then [] else Edges(Earlier(h)) + (if NewEdge(h) then [Since(h)] else [])
  }

  function LastEdge(h: seq<Sample>): nat
    requires h != []
  {
    if Edges(h) == [] then h[0].at else Edges(h)[|Edges(h)| - 1]
  }

  /** No raw change is pending and the last edge is 5 s old. */
  predicate Steady(h: seq<Sample>)
    requires h != []
  {
    |h| > 1 && Last(h).lit == Level(h) && Last(h).at - LastEdge(h) >= 5000
  }

  /** A steady sample at or after the last edge. */
  predicate SteadySinceEdge(h: seq<Sample>)
    requires h != []
  {
    Steady(h) || (|h| > 1 && !NewEdge(h) && SteadySinceEdge(Earlier(h)))
  }

  /** The last four edges, each less than 5 s after the one before. */
  predicate FourQuickEdges(e: seq<nat>) {
    |e| >= 4 && forall k :: |e| - 3 <= k < |e| ==> e[k] < e[k - 1] + 5000
  }

  predicate Blinking(h: seq<Sample>)
    requires h != []
  {
    !SteadySinceEdge(h) && FourQuickEdges(Edges(h))
  }

  /** The latest decision: a steady level, or a blink run. */
  function Verdict(h: seq<Sample>): Power
    requires h != []
  {
    if Steady(h) then (if Level(h) then On else Off)
    else if Blinking(h) then Sleep
    else if |h| == 1 then Unknown
    else Verdict(Earlier(h))
  }

  // -------------------------------------------------------------- classifier

  datatype State = State(
    started: bool, level: bool, candidate: bool, candidateMs: nat, lastEdgeMs: nat, run: nat, state: Power)

  const INITIAL := State(false, false, false, 0, 0, 0, Unknown)

  /** Stored times are past, so that no unsigned subtraction wraps. */
  predicate Timely(c: State, now: nat) {
    c.started ==> c.lastEdgeMs <= c.candidateMs <= now
  }

  function Next(c: State, lit: bool, now: nat): State
    requires Timely(c, now)
  {
    if !c.started then c.(started := true, level := lit, candidate := lit, candidateMs := now, lastEdgeMs := now)
    else
      var c1 := if lit != c.candidate then c.(candidate := lit, candidateMs := now) else c;
      Decide(Debounce(c1, now), now)
  }

  function Debounce(c: State, now: nat): State
    requires c.candidateMs <= now
  {
    if c.candidate != c.level && now - c.candidateMs >= DEBOUNCE_MS then
      var run := if c.candidateMs - c.lastEdgeMs >= STEADY_MS then 0 else c.run;
      c.(level := c.candidate, lastEdgeMs := c.candidateMs, run := if run < RUN_MAX then run + 1 else run)
    else c
  }

  function Decide(c: State, now: nat): State {
    if c.candidate == c.level && now - c.lastEdgeMs >= STEADY_MS then
      c.(run := 0, state := if c.level then On else Off)
    else if c.run >= BLINK_EDGES then c.(state := Sleep)
    else c
  }

  class Classifier {
    var started: bool
    var level: bool
    var candidate: bool
    var candidateMs: nat
    var lastEdgeMs: nat
    var run: nat
    var state: Power
    ghost var history: seq<Sample>

    ghost function St(): State
      reads this
    {
      State(started, level, candidate, candidateMs, lastEdgeMs, run, state)
    }

    ghost predicate Valid()
      reads this
    {
      Ordered(history) && St() == Classify(history)
    }

    constructor ()
      ensures Valid() && history == []
    {
      started, level, candidate, candidateMs, lastEdgeMs, run, state := false, false, false, 0, 0, 0, Unknown;
      history := [];
    }

    /** rw_pc_classifier_step */
    method Step(lit: bool, now: nat) returns (power: Power)
      requires Valid() && (history != [] ==> Last(history).at <= now)
      modifies this
      ensures Valid() && history == old(history) + [Sample(lit, now)]
      ensures power == Verdict(history)
    {
      hide Verdict;
      ghost var h := history;
      history := history + [Sample(lit, now)];
      assert Earlier(history) == h;
      Faithful(history);
      if !started {
        started, level, candidate, candidateMs, lastEdgeMs := true, lit, lit, now, now;
        return state;
      }
      assert Timely(St(), now);
      if lit != candidate {
        candidate, candidateMs := lit, now;
      }
      DebounceLevel(now);
      DecideState(now);
      return state;
    }

    method DebounceLevel(now: nat)
      requires lastEdgeMs <= candidateMs <= now
      modifies this`level, this`lastEdgeMs, this`run
      ensures St() == Debounce(old(St()), now)
    {
      if candidate != level && now - candidateMs >= DEBOUNCE_MS {
        var edge := candidateMs;
        var gap: nat := edge - lastEdgeMs;
        if gap >= STEADY_MS {
          run := 0;
        }
        level, lastEdgeMs := candidate, edge;
        if run < RUN_MAX {
          run := run + 1;
        }
      }
    }

    method DecideState(now: nat)
      requires lastEdgeMs <= now
      modifies this`run, this`state
      ensures St() == Decide(old(St()), now)
    {
      if candidate == level && now - lastEdgeMs >= STEADY_MS {
        run, state := 0, if level then On else Off;
      } else if run >= BLINK_EDGES {
        state := Sleep;
      }
    }
  }

  /** The classifier after a history. */
  ghost function Classify(h: seq<Sample>): (c: State)
    requires Ordered(h)
    ensures h != [] ==> Timely(c, Last(h).at)
    ensures c.started <==> h != []
  {
    if h == [] then INITIAL else Next(Classify(Earlier(h)), Last(h).lit, Last(h).at)
  }

  /** What the run counter counts: edges since the last gap of 5 s. */
  function Chain(e: seq<nat>): nat {
    if |e| == 0 then 0
    else if |e| == 1 || e[|e| - 1] - e[|e| - 2] >= STEADY_MS then 1
    else 1 + Chain(e[..|e| - 1])
  }

  lemma {:induction false} ChainMeans(e: seq<nat>, k: nat)
    requires k >= 1
    ensures Chain(e) >= k <==> |e| >= k && forall j :: |e| - k < j < |e| ==> e[j] - e[j - 1] < STEADY_MS
    decreases k
  {
    if k > 1 && |e| > 1 && e[|e| - 1] - e[|e| - 2] < STEADY_MS {
      var rest := e[..|e| - 1];
      ChainMeans(rest, k - 1);
      if Chain(e) >= k {
        forall j | |e| - k < j < |e| ensures e[j] - e[j - 1] < STEADY_MS {
          assert j < |e| - 1 ==> rest[j] == e[j];
          assert rest[j - 1] == e[j - 1];
        }
      }
    }
  }

  function Capped(n: nat): nat { if n < RUN_MAX then n else RUN_MAX }

  /** Every field of the classifier, in terms of the history. */
  ghost predicate Tracks(c: State, h: seq<Sample>)
    requires h != []
  {
    && c.started && c.candidate == Last(h).lit && c.candidateMs == Since(h)
    && c.level == Level(h) && c.lastEdgeMs == LastEdge(h) && c.state == Verdict(h)
    && c.run == (if SteadySinceEdge(h) then 0 else Capped(Chain(Edges(h))))
    && (SteadySinceEdge(h) && c.candidate != c.level ==> c.candidateMs - c.lastEdgeMs >= STEADY_MS)
  }

  lemma RawChange(h: seq<Sample>)
    requires |h| > 1
    ensures Since(h) == if Last(h).lit == Last(Earlier(h)).lit then Since(Earlier(h)) else Last(h).at
  {}

  lemma DebounceTracks(c: State, h: seq<Sample>)
    requires |h| > 1 && c.started && c.candidate == Last(h).lit && c.candidateMs == Since(h)
    requires c.lastEdgeMs <= c.candidateMs <= Last(h).at
    requires c.level == Level(Earlier(h)) && c.lastEdgeMs == LastEdge(Earlier(h))
    requires c.run == (if SteadySinceEdge(Earlier(h)) then 0 else Capped(Chain(Edges(Earlier(h)))))
    requires SteadySinceEdge(Earlier(h)) && c.candidate != c.level ==> c.candidateMs - c.lastEdgeMs >= STEADY_MS
    ensures var d := Debounce(c, Last(h).at);
      && d == c.(level := Level(h), lastEdgeMs := LastEdge(h), run := d.run)
      && d.run == (if !NewEdge(h) && SteadySinceEdge(Earlier(h)) then 0 else Capped(Chain(Edges(h))))
  {
    hide Since, Level, SteadySinceEdge, Chain, Edges;
    LevelStep(h);
    EdgesStep(h);
  }

  /** One more edge, or none. */
  lemma EdgesStep(h: seq<Sample>)
    requires |h| > 1
    ensures !NewEdge(h) ==> Edges(h) == Edges(Earlier(h)) && LastEdge(h) == LastEdge(Earlier(h))
    ensures NewEdge(h) ==>
      && Edges(h) == Edges(Earlier(h)) + [Since(h)] && LastEdge(h) == Since(h)
      && Chain(Edges(h)) == if Edges(Earlier(h)) == [] || Since(h) - LastEdge(Earlier(h)) >= STEADY_MS then 1
                            else 1 + Chain(Edges(Earlier(h)))
    ensures Edges(Earlier(h)) == [] ==> Chain(Edges(Earlier(h))) == 0
  {
    hide NewEdge, Since;
    var e := Edges(Earlier(h));
    if NewEdge(h) {
      assert (e + [Since(h)])[..|e|] == e;
    } else {
      assert e + [] == e;
    }
  }

  lemma LevelStep(h: seq<Sample>)
    requires |h| > 1
    ensures Level(h) == if Held(h) then Last(h).lit else Level(Earlier(h))
  {}

  /** The classifier computes the history definition. */
  lemma {:induction false} Faithful(h: seq<Sample>)
    requires Ordered(h) && h != []
    ensures Tracks(Classify(h), h)
  {
    if |h| > 1 {
      var g := Earlier(h);
      Faithful(g);
      var c := Classify(g);
      var now := Last(h).at;
      var c1 := if Last(h).lit != c.candidate then c.(candidate := Last(h).lit, candidateMs := now) else c;
      RawChange(h);
      FaithfulStep(c, c1, h);
    }
  }

  lemma FaithfulStep(c: State, c1: State, h: seq<Sample>)
    requires |h| > 1 && Ordered(h) && Tracks(c, Earlier(h)) && Timely(c, Last(h).at)
    requires c1 == if Last(h).lit != c.candidate then c.(candidate := Last(h).lit, candidateMs := Last(h).at) else c
    requires c1.candidateMs == Since(h)
    ensures Tracks(Decide(Debounce(c1, Last(h).at), Last(h).at), h)
  {
    hide Since, Level, Edges, Chain;
    if SteadySinceEdge(Earlier(h)) {
      SteadyIsLate(Earlier(h));
    }
    DebounceTracks(c1, h);
    ChainMeans(Edges(h), 4);
  }

  /** Once steady since the last edge, that edge is 5 s old. */
  lemma {:induction false} SteadyIsLate(h: seq<Sample>)
    requires Ordered(h) && h != [] && SteadySinceEdge(h)
    ensures Last(h).at - LastEdge(h) >= STEADY_MS
  {
    if !Steady(h) {
      SteadyIsLate(Earlier(h));
      assert Earlier(h)[0] == h[0];
    }
  }

  // ---------------------------------------------------- what the answers mean

  /** A raw level b seen at every sample from s to m, for at least the debounce time. */
  ghost predicate HeldFrom(h: seq<Sample>, s: nat, m: nat, b: bool) {
    s <= m < |h| && h[m].at - h[s].at >= DEBOUNCE_MS && forall k :: s <= k <= m ==> h[k].lit == b
  }

  ghost predicate NeverHeldAfter(h: seq<Sample>, m: int, b: bool) {
    forall s: nat, k: nat :: k > m ==> !HeldFrom(h, s, k, b)
  }

  lemma HeldMeans(h: seq<Sample>, s: nat)
    requires h != [] && Ordered(h)
    ensures HeldFrom(h, s, |h| - 1, Last(h).lit) ==> Held(h)
    ensures Held(h) ==> HeldFrom(h, Stretch(h), |h| - 1, Last(h).lit)
  {
    assert HeldFrom(h, s, |h| - 1, Last(h).lit) ==> s >= Stretch(h);
  }

  lemma OneSample(h: seq<Sample>)
    requires |h| == 1
    ensures Level(h) == h[0].lit && NeverHeldAfter(h, -1, !Level(h))
  {}

  lemma HeldLevel(h: seq<Sample>)
    requires |h| > 1 && Ordered(h) && Held(h)
    ensures HeldFrom(h, Stretch(h), |h| - 1, Level(h)) && NeverHeldAfter(h, |h| - 1, !Level(h))
  {
    HeldMeans(h, 0);
    LevelStep(h);
  }

  lemma LevelKept(h: seq<Sample>, s: nat, m: int)
    requires |h| > 1 && Ordered(h) && !Held(h) && NeverHeldAfter(Earlier(h), m, !Level(Earlier(h)))
    requires var g := Earlier(h); if m == -1 then Level(g) == g[0].lit else m >= 0 && HeldFrom(g, s, m, Level(g))
    ensures NeverHeldAfter(h, m, !Level(h))
    ensures if m == -1 then Level(h) == h[0].lit else m >= 0 && HeldFrom(h, s, m, Level(h))
  {
    hide Held, Level, NeverHeldAfter, HeldFrom;
    LevelStep(h);
    NotHeldNow(h, m);
    StillHeld(h, s, m, Level(h));
  }

  lemma StillHeld(h: seq<Sample>, s: nat, m: int, b: bool)
    requires |h| > 1
    ensures m >= 0 && HeldFrom(Earlier(h), s, m, b) ==> HeldFrom(h, s, m, b)
  {}

  /** The level is the one held most recently; before any other was held, the first sample's. */
  lemma {:induction false} LevelMeans(h: seq<Sample>) returns (s: nat, m: int)
    requires h != [] && Ordered(h)
    ensures NeverHeldAfter(h, m, !Level(h))
    ensures if m == -1 then Level(h) == h[0].lit else m >= 0 && HeldFrom(h, s, m, Level(h))
  {
    hide Held, Level, NeverHeldAfter, HeldFrom;
    if |h| == 1 {
      OneSample(h);
      return 0, -1;
    }
    if Held(h) {
      s, m := Stretch(h), |h| - 1;
      HeldLevel(h);
      return;
    }
    var g := Earlier(h);
    s, m := LevelMeans(g);
    LevelKept(h, s, m);
  }

  lemma NotHeldNow(h: seq<Sample>, m: int)
    requires |h| > 1 && Ordered(h) && !Held(h) && NeverHeldAfter(Earlier(h), m, !Level(h))
    ensures NeverHeldAfter(h, m, !Level(h))
  {
    hide Held, Level;
    var other := !Level(h);
    forall i: nat, k: nat | HeldFrom(h, i, k, other) ensures k <= m {
      HeldMeans(h, i);
      assert HeldFrom(Earlier(h), i, k, other);
    }
  }

  /** "sleep" exactly when a blink run was seen and no steady level since. */
  lemma {:induction false} SleepExactly(h: seq<Sample>)
    requires h != []
    ensures Verdict(h) == Sleep <==>
      exists n :: 1 <= n <= |h| && Blinking(h[..n]) && forall m :: n < m <= |h| ==> !Steady(h[..m])
  {
    hide Steady, Blinking, Level;
    assert h[..|h|] == h;
    NotBoth(h);
    if !Steady(h) && !Blinking(h) && |h| > 1 {
      var g := Earlier(h);
      SleepExactly(g);
      assert forall n :: 0 <= n <= |g| ==> g[..n] == h[..n];
    }
  }

  lemma NotBoth(h: seq<Sample>)
    requires h != []
    ensures !(Steady(h) && Blinking(h)) && (|h| == 1 ==> !Steady(h) && !Blinking(h))
  {}

  /** "on" or "off" exactly when that level was steady and no other decision fell since. */
  lemma {:induction false} SteadyExactly(h: seq<Sample>, b: bool)
    requires h != []
    ensures Verdict(h) == (if b then On else Off) <==>
      exists n :: 1 <= n <= |h| && Steady(h[..n]) && Level(h[..n]) == b
        && forall m :: n < m <= |h| ==> !Blinking(h[..m]) && (Steady(h[..m]) ==> Level(h[..m]) == b)
  {
    hide Steady, Blinking, Level;
    assert h[..|h|] == h;
    NotBoth(h);
    if !Steady(h) && !Blinking(h) && |h| > 1 {
      var g := Earlier(h);
      SteadyExactly(g, b);
      assert forall n :: 0 <= n <= |g| ==> g[..n] == h[..n];
    }
  }

  // --------------------------------------------------------------- excursions

  lemma ClassifyMore(h: seq<Sample>, s: Sample)
    requires Ordered(h + [s])
    ensures Ordered(h) && Timely(Classify(h), s.at) && Classify(h + [s]) == Next(Classify(h), s.lit, s.at)
  {
    assert Earlier(h + [s]) == h;
    assert forall i :: 0 <= i < |h| ==> h[i] == (h + [s])[i];
    if h != [] {
      assert (h + [s])[|h| - 1].at <= (h + [s])[|h|].at;
    }
  }

  lemma {:induction false} RunIsSleep(h: seq<Sample>)
    requires Ordered(h)
    ensures Classify(h).run >= BLINK_EDGES ==> Classify(h).state == Sleep
  {}

  lemma OrderedPart(h: seq<Sample>, x: seq<Sample>)
    requires Ordered(h + x)
    ensures Ordered(h) && Ordered(x)
  {
    assert forall i :: 0 <= i < |h| ==> h[i] == (h + x)[i];
    assert forall i :: 0 <= i < |x| ==> x[i] == (h + x)[|h| + i];
  }

  /** Raw samples that disagree with the level for less than the debounce time. */
  predicate Excursion(x: seq<Sample>, level: bool) {
    forall i :: 0 <= i < |x| ==> x[i].lit != level && x[i].at - x[0].at < DEBOUNCE_MS
  }

  lemma ExcursionStep(c: State, d: State, first: nat, s: Sample)
    requires Timely(d, s.at) && d.started && d.level != s.lit && (d.run >= BLINK_EDGES ==> d.state == Sleep)
    requires d == c || d == c.(candidate := s.lit, candidateMs := first)
    requires d == c ==> c.candidate == c.level && first == s.at
    requires s.at - first < DEBOUNCE_MS
    ensures Next(d, s.lit, s.at) == c.(candidate := s.lit, candidateMs := first)
  {}

  /** While a raw change lasts under 50 ms, level, last edge, run and answer stay as they were. */
  lemma {:induction false} ExcursionHeldOff(h: seq<Sample>, x: seq<Sample>)
    requires h != [] && Ordered(h + x) && Last(h).lit == Level(h) && Excursion(x, Level(h))
    ensures Ordered(h)
    ensures x != [] ==> Classify(h + x) == Classify(h).(candidate := !Level(h), candidateMs := x[0].at)
  {
    hide Classify, Level, Verdict, Next;
    OrderedPart(h, x);
    TracksSome(h);
    if x != [] {
      var y, s := Earlier(x), Last(x);
      assert h + x == h + y + [s];
      OrderedPart(h + y, [s]);
      ExcursionHeldOff(h, y);
      assert y == [] ==> h + y == h;
      ClassifyMore(h + y, s);
      RunIsSleep(h + y);
      ExcursionStep(Classify(h), Classify(h + y), x[0].at, s);
    }
  }

  lemma TracksSome(h: seq<Sample>)
    requires h != [] && Ordered(h)
    ensures var c := Classify(h);
      c.started && c.level == Level(h) && c.candidate == Last(h).lit && c.state == Verdict(h)
  {
    Faithful(h);
  }

  /** Equal but for the start of a stretch that agrees with the level. */
  predicate Alike(c: State, d: State) {
    c == d.(candidateMs := c.candidateMs) && (c.candidateMs == d.candidateMs || c.candidate == c.level)
  }

  lemma AlikeStep(c: State, d: State, s: Sample)
    requires Timely(c, s.at) && Timely(d, s.at) && c.started
    requires Alike(c, d) || (s.lit == c.level && d == c.(candidate := c.level, candidateMs := d.candidateMs))
    ensures Alike(Next(c, s.lit, s.at), Next(d, s.lit, s.at))
  {}

  /** Deleting an excursion of under 50 ms changes no later answer. */
  lemma {:induction false} ExcursionsInvisible(h: seq<Sample>, x: seq<Sample>, g: seq<Sample>)
    requires h != [] && Ordered(h + x + g) && Last(h).lit == Level(h) && Excursion(x, Level(h))
    requires g != [] && g[0].lit == Level(h)
    ensures Ordered(h + g) && Alike(Classify(h + x + g), Classify(h + g)) && Verdict(h + x + g) == Verdict(h + g)
  {
    hide Classify, Level, Verdict, Next, Excursion;
    var all := h + x + g;
    assert Ordered(h + g) by {
      assert forall i :: 0 <= i < |h + g| ==> (h + g)[i] == all[if i < |h| then i else i + |x|];
    }
    var f, s := Earlier(g), Last(g);
    assert all == h + x + f + [s] && h + g == h + f + [s];
    OrderedPart(h + x + f, [s]);
    OrderedPart(h + x, f);
    OrderedPart(h, x);
    ClassifyMore(h + x + f, s);
    ClassifyMore(h + f, s);
    if f == [] {
      assert h + x + f == h + x && h + f == h;
      ExcursionHeldOff(h, x);
      assert x == [] ==> h + x == h;
    } else {
      ExcursionsInvisible(h, x, f);
    }
    TracksSome(h);
    AlikeStep(Classify(h + x + f), Classify(h + f), s);
    TracksSome(all);
    TracksSome(h + g);
  }
}
