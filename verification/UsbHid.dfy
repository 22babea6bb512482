/**
 * The USB keyboard of firmware/main/usb_hid.c. Every method that holds s_lock is interleaved with
 * Environment(): the TinyUSB callbacks and an adversarial host run between any two atomic sections.
 */
module UsbHid {
  import opened Options

  datatype Err = Ok | NotFound | Timeout | Fail | InvalidState | InvalidArg | InvalidSize | NotSupported

  /** Modifier byte and the six key codes. */
  datatype Report = Report(modifier: nat, keys: seq<nat>) {
    predicate Neutral() {
      modifier == 0 && forall i :: 0 <= i < |keys| ==> keys[i] == 0
    }
  }

  const NEUTRAL := Report(0, [0, 0, 0, 0, 0, 0])

  const REPORT_BYTES := 9 // report ID, modifier, reserved byte and six key codes

  /** What crosses the endpoint: a submission by the firmware, a full transfer taken by the host. */
  datatype Event = Submitted(report: Report) | Completed(report: Report)

  predicate IsPress(e: Event) { e.Submitted? && !e.report.Neutral() }

  /** No key-down since the last completed neutral report. */
  predicate Released(log: seq<Event>) {
    log != [] && var last := log[|log| - 1];
      if last.Completed? then last.report.Neutral() else last.report.Neutral() && Released(log[..|log| - 1])
  }

  /** The key-downs of a log, in order. */
  function Presses(log: seq<Event>): seq<Report> {
    if log == [] then []
    else Presses(log[..|log| - 1]) + (if IsPress(log[|log| - 1]) then [log[|log| - 1].report] else [])
  }

  /** The key-downs the host took in full, in order. */
  function Taken(log: seq<Event>): seq<Report> {
    if log == [] then []
    else
      var last := log[|log| - 1];
      Taken(log[..|log| - 1]) + (if last.Completed? && !last.report.Neutral() then [last.report] else [])
  }

  ghost predicate PressesReleased(log: seq<Event>) {
    forall i :: 0 <= i < |log| && IsPress(log[i]) ==> Released(log[..i])
  }

  lemma {:induction false} ReleasedMeans(log: seq<Event>, i: nat)
    requires Released(log) && i < |log| && IsPress(log[i])
    ensures exists m :: i < m < |log| && log[m].Completed? && log[m].report.Neutral()
  {
    var n := |log| - 1;
    if !log[n].Completed? {
      ReleasedMeans(log[..n], i);
      var m :| i < m < n && log[..n][m].Completed? && log[..n][m].report.Neutral();
      assert log[m] == log[..n][m];
    }
  }

  /** Between any two key-downs the host has taken a neutral report. */
  lemma PressesSeparated(log: seq<Event>, i: nat, j: nat)
    requires PressesReleased(log) && i < j < |log| && IsPress(log[i]) && IsPress(log[j])
    ensures exists m :: i < m < j && log[m].Completed? && log[m].report.Neutral()
  {
    ReleasedMeans(log[..j], i);
    var m :| i < m < j && log[..j][m].Completed? && log[..j][m].report.Neutral();
    assert log[m] == log[..j][m];
  }

  lemma {:induction false} PressesConcat(a: seq<Event>, b: seq<Event>)
    ensures Presses(a + b) == Presses(a) + Presses(b)
    ensures Taken(a + b) == Taken(a) + Taken(b)
  {
    if b == [] {
      assert a + b == a;
    } else {
      assert (a + b)[..|a + b| - 1] == a + b[..|b| - 1];
      PressesConcat(a, b[..|b| - 1]);
    }
  }

  /** One observable state of the release debt. */
  datatype Snapshot = Snapshot(needRelease: bool, hostLast: Report, transfer: Option<Report>) {
    /** Without debt the host holds no key and nothing is on its way. */
    predicate Safe() {
      !needRelease ==> hostLast.Neutral() && transfer.None?
    }
  }

  /** The shared state of a report, as a value. */
  datatype State = State(
    needRelease: bool, expected: Report, waiting: bool, complete: bool, neutralCompleted: bool,
    transfer: Option<Report>, hostLast: Report, reenumerating: bool, mounts: nat, log: seq<Event>,
      history: seq<Snapshot>)
  {
    function Snap(): Snapshot { Snapshot(needRelease, hostLast, transfer) }

    ghost predicate Inv() {
      && Snap().Safe()
      && (forall k :: 0 <= k < |history| ==> history[k].Safe())
      && (waiting && transfer.Some? ==> transfer.value == expected)
      && (complete ==>
           && !waiting && transfer.None? && (hostLast == expected || hostLast.Neutral())
           && (expected.Neutral() ==> Released(log)))
      && (neutralCompleted ==> !waiting && transfer.None? && hostLast.Neutral() && Released(log))
      && PressesReleased(log)
    }

    /** The expected report completed; the host holds it, or nothing if the bus was reset since. */
    predicate Finished() { transfer.None? && (hostLast == expected || hostLast.Neutral()) }

    /** The endpoint is idle and the host's keys are up; interference keeps it so. */
    predicate Quiet() { transfer.None? && hostLast.Neutral() }
  }

  /** What other tasks and the host may do while the lock holder is between two steps. */
  ghost predicate Background(s: State, t: State) {
    && t.needRelease == s.needRelease && t.expected == s.expected
    && (t.waiting ==> s.waiting) && (t.reenumerating ==> s.reenumerating)
    && s.mounts <= t.mounts && (s.reenumerating && !t.reenumerating ==> s.mounts < t.mounts)
    && (t.transfer.None? || t.transfer == s.transfer)
    && (t.log == s.log
        || (s.transfer.Some? && t.transfer.None? && t.log == s.log + [Completed(s.transfer.value)]))
    && (t.complete ==> s.complete || (s.waiting && t.log == s.log + [Completed(s.expected)]))
    && (t.neutralCompleted ==> s.neutralCompleted || (s.waiting && t.log == s.log + [Completed(s.expected)]))
    && (t.hostLast == s.hostLast || t.hostLast.Neutral() || s.transfer == Some(t.hostLast))
    && s.history <= t.history
  }

  lemma BackgroundTransitive(s: State, t: State, u: State)
    requires Background(s, t) && Background(t, u)
    ensures Background(s, u)
  {}

  lemma BackgroundReflexive(s: State)
    ensures Background(s, s)
  {}

  // ------------------------------------------------ steps of the environment

  function Recorded(s: State): State { s.(history := s.history + [s.Snap()]) }

  /** The completion callback: only a full report that matches the expected one counts. */
  function OnComplete(s: State, report: Report, len: nat): State {
    if !s.waiting then s
    else
      var matched := len == REPORT_BYTES && report == s.expected;
      s.(complete := matched, neutralCompleted := matched && s.expected.Neutral(), waiting := false)
  }

  function OnFailed(s: State): State { s.(waiting := false, complete := false, neutralCompleted := false) }

  function OnLifecycle(s: State, endpointReset: bool, mounted: bool): State {
    (if endpointReset then OnFailed(s) else s).(reenumerating := s.reenumerating && !mounted,
                                                mounts := if mounted then s.mounts + 1 else s.mounts)
  }

  /** The host takes the report in flight in full, all nine bytes, and the callback runs. */
  function Completes(s: State): State
    requires s.transfer.Some?
  {
    var r := s.transfer.value;
    Recorded(OnComplete(s.(hostLast := r, transfer := None, log := s.log + [Completed(r)]), r, 9))
  }

  /** The transfer ends short or fails; nothing is known about what the host saw. */
  function Aborts(s: State, short: bool, len: nat, seen: bool): State
    requires s.transfer.Some?
  {
    var t := s.(hostLast := if seen then s.transfer.value else s.hostLast, transfer := None);
    Recorded(if short then OnComplete(t, s.transfer.value, len) else OnFailed(t))
  }

  /** Reset, attach or detach: the transfer is cancelled and the host forgets held keys. */
  function Resets(s: State): State { s.(transfer := None, hostLast := NEUTRAL) }

  lemma CompletesKeeps(s: State)
    requires s.Inv() && s.transfer.Some?
    ensures Completes(s).Inv() && Background(s, Completes(s))
  {
    var t := Completes(s);
    assert t.log[..|t.log| - 1] == s.log;
    assert forall i :: 0 <= i < |s.log| ==> t.log[..i] == s.log[..i];
  }

  lemma AbortsKeeps(s: State, short: bool, len: nat, seen: bool)
    requires s.Inv() && s.transfer.Some? && len < 9
    ensures Aborts(s, short, len, seen).Inv() && Background(s, Aborts(s, short, len, seen))
  {}

  lemma ResetKeeps(s: State, callback: bool, mounted: bool)
    requires s.Inv()
    ensures var t := Recorded(OnLifecycle(Resets(s), callback, mounted)); t.Inv() && Background(s, t)
  {}

  lemma RecordKeeps(s: State)
    requires s.Inv()
    ensures Recorded(s).Inv() && Background(s, Recorded(s))
  {}

  lemma CancelKeeps(s: State)
    requires s.Inv()
    ensures Recorded(OnFailed(s)).Inv() && Background(s, Recorded(OnFailed(s)))
  {}

  // ------------------------------------------------ steps of the lock holder

  function Arms(s: State, r: Report): State {
    s.(expected := r, complete := false, neutralCompleted := false, waiting := true)
  }

  function Submits(s: State, r: Report, accepted: bool, seen: bool): State
    requires s.transfer.None?
  {
    Recorded(s.(transfer := if accepted then Some(r) else None,
                hostLast := if !accepted && seen then r else s.hostLast,
                log := s.log + [Submitted(r)]))
  }

  lemma ArmKeeps(s: State, r: Report)
    requires s.Inv() && s.transfer.None?
    ensures Arms(s, r).Inv()
  {}

  lemma SubmitKeeps(s: State, r: Report, accepted: bool, seen: bool)
    requires s.Inv() && s.needRelease && s.transfer.None? && s.expected == r && !s.complete && !s.neutralCompleted
    requires !r.Neutral() ==> Released(s.log)
    ensures Submits(s, r, accepted, seen).Inv()
  {
    var t := Submits(s, r, accepted, seen);
    assert forall i :: 0 <= i < |s.log| ==> t.log[..i] == s.log[..i];
    assert t.log[..|s.log|] == s.log;
  }

  lemma ClaimKeeps(s: State)
    requires s.Inv() && s.neutralCompleted
    ensures s.(neutralCompleted := false).Inv() && s.Quiet() && Released(s.log)
  {}

  lemma OnlyFalls(s: State, t: State)
    requires Background(s, t)
    ensures (s.transfer.None? ==> t.transfer.None? && t.log == s.log) && (!s.waiting ==> !t.waiting)
    ensures s.Quiet() ==> t.Quiet()
    ensures !s.reenumerating ==> !t.reenumerating
    ensures s.mounts <= t.mounts && (s.reenumerating ==> t.reenumerating || s.mounts < t.mounts)
  {}

  lemma StaysArmed(s: State, t: State)
    requires Background(s, t) && s.transfer.None? && !s.complete && !s.neutralCompleted && !s.reenumerating
    ensures !t.reenumerating && t.transfer.None? && !t.complete && !t.neutralCompleted && t.log == s.log
    ensures t.expected == s.expected && t.needRelease == s.needRelease
  {}

  lemma KeepsDebt(s: State, t: State)
    requires Background(s, t)
    ensures t.needRelease == s.needRelease && t.expected == s.expected
  {}

  lemma DebtKeeps(s: State)
    requires s.Inv()
    ensures Recorded(s.(needRelease := true)).Inv()
  {}

  lemma ReleaseKeeps(s: State)
    requires s.Inv() && s.Quiet()
    ensures Recorded(s.(needRelease := false)).Inv()
    ensures s.(neutralCompleted := false).Inv()
  {}

  lemma GiveUpKeeps(s: State)
    requires s.Inv()
    ensures Recorded(s.(waiting := false)).Inv()
  {}

  lemma BlockKeeps(s: State)
    requires s.Inv()
    ensures s.(reenumerating := true).Inv()
  {}

  lemma BlockAgain(s: State, t: State)
    requires Background(s, t) && s.reenumerating
    ensures Background(s, t.(reenumerating := true))
  {}

  lemma Unblocked(s: State, t: State)
    requires Background(s, t)
    ensures Background(s.(reenumerating := true), t.(reenumerating := true))
  {}

  lemma NoDebt(s: State)
    requires s.Inv()
    ensures !s.needRelease ==> s.Quiet()
  {}

  /** A completed neutral report leaves the host released. */
  lemma NeutralDone(s: State)
    requires s.Finished() && s.expected.Neutral() && s.log != [] && s.log[|s.log| - 1] == Completed(s.expected)
    ensures s.Quiet() && Released(s.log)
  {}

  /** The completion that interference may have added. */
  ghost function LateCompletion(s: State, t: State): (late: seq<Event>)
    requires Background(s, t)
    ensures t.log == s.log + late
    ensures late == [] || (s.transfer.Some? && late == [Completed(s.transfer.value)])
  {
    if t.log == s.log then [] else [Completed(s.transfer.value)]
  }

  lemma Finishes(s: State, t: State)
    requires Background(s, t) && t.Inv() && !s.complete && t.complete
    ensures t.Finished() && t.log == s.log + [Completed(s.expected)]
  {}

  lemma StaysFinished(s: State, t: State)
    requires Background(s, t) && s.Finished()
    ensures t.Finished() && t.log == s.log
  {}

  /** The way of one report: armed, accepted by the endpoint, taken by the host. */
  datatype Phase = Away | Idle(taken: bool) | Armed | Pending

  /** A helpful host only ever takes the report it has been given. */
  predicate Helps(p: Phase, q: Phase) { p.Away? || q == p || (p.Pending? && q == Idle(true)) }

  class Keyboard {
    // s_lock holder only
    var needRelease: bool
    var actionDeadline: int
    var actionEpoch: int
    var actionEpochValid: bool
    var wasActive: bool
    var observedEpoch: int
    // protected by s_report_mux
    var expected: Report
    var waiting: bool
    var complete: bool
    var neutralCompleted: bool
    var busEpoch: int
    var reenumerating: bool
    // flags
    var installed: bool
    var quiesced: bool
    // the bus and the host
    var mounted: bool
    var suspended: bool
    var transfer: Option<Report> // accepted by the endpoint, completion callback not yet run
    var hostLast: Report         // last report the host took since enumeration
    var now: int
    const helpful: bool          // a host that stays up and takes every report before its time-out
    var allowance: int           // that time-out
    ghost var mounts: nat        // mount callbacks so far
    ghost var log: seq<Event>
    ghost var history: seq<Snapshot>

    ghost function St(): State
      reads this
    {
      State(needRelease, expected, waiting, complete, neutralCompleted, transfer, hostLast, reenumerating, mounts,
        log, history)
    }

    ghost predicate Inv()
      reads this
    {
      St().Inv()
    }

    // ------------------------------------------------- runs with a helpful host

    /** The bus is up, and nothing happened to it since the action began. */
    predicate Up()
      reads this`mounted, this`suspended, this`reenumerating, this`busEpoch,
            this`actionEpoch, this`actionEpochValid
    {
      helpful && mounted && !suspended && !reenumerating && (actionEpochValid ==> actionEpoch == busEpoch)
    }

    /** Where the report in hand stands, while all is well and in time. */
    function Phase(): Phase
      reads this`mounted, this`suspended, this`reenumerating, this`busEpoch,
            this`actionEpoch, this`actionEpochValid,
            this`now, this`allowance, this`actionDeadline, this`transfer, this`waiting, this`complete
    {
      if !Up() || now + 1 >= allowance || (actionDeadline != 0 && allowance > actionDeadline) then Away
      else if transfer.Some? then (if waiting then Pending else Away)
      else if waiting then Armed
      else Idle(complete)
    }

    /** There is time for another poll. */
    predicate Roomy()
      reads this`now, this`allowance
    {
      now + 2 < allowance
    }

    /** What the lock holder can tell of the bus. */
    ghost function Bus(): (bool, bool, bool, int, nat)
      reads this`mounted, this`suspended, this`reenumerating, this`busEpoch, this`mounts
    {
      (mounted, suspended, reenumerating, busEpoch, mounts)
    }

    /** The bus has changed since the action began. */
    predicate Stale()
      reads this`busEpoch, this`actionEpoch, this`actionEpochValid
    {
      actionEpochValid && actionEpoch < busEpoch
    }

    /** A report can be sent, and the action has time left. */
    predicate Fresh()
      reads this`mounted, this`suspended, this`reenumerating, this`busEpoch,
            this`actionEpoch, this`actionEpochValid,
            this`now, this`actionDeadline, this`transfer, this`waiting
    {
      Up() && transfer.None? && !waiting && (actionDeadline != 0 ==> now + 1 < actionDeadline)
    }

    /** No action is under way, and one can begin. */
    predicate Ready()
      reads this
    {
      helpful && mounted && !suspended && !reenumerating && transfer.None? && !waiting
      && !actionEpochValid && actionDeadline == 0
    }

    constructor (cooperative: bool)
      ensures Inv() && needRelease && !installed && log == [] && history == [] && helpful == cooperative
      ensures !mounted && !suspended && !reenumerating && !quiesced && !actionEpochValid && actionDeadline == 0
    {
      helpful, allowance := cooperative, 0;
      needRelease, actionDeadline, actionEpoch, actionEpochValid := true, 0, 0, false;
      wasActive, observedEpoch := false, 0;
      expected, waiting, complete, neutralCompleted := NEUTRAL, false, false, false;
      busEpoch, reenumerating := 0, false;
      installed, quiesced := false, false;
      mounted, suspended, transfer, hostLast, now := false, false, None, NEUTRAL, 0;
      mounts, log, history := 0, [], [];
    }

    // ------------------------------------------------------------- callbacks

    /** tud_hid_report_complete_cb */
    method ReportCompleteCb(report: Report, len: nat)
      modifies this`complete, this`neutralCompleted, this`waiting
      ensures St() == OnComplete(old(St()), report, len)
    {
      if waiting {
        complete := len == REPORT_BYTES && report == expected;
        neutralCompleted := complete && expected.Neutral();
        waiting := false;
      }
    }

    /** tud_hid_report_failed_cb */
    method ReportFailedCb()
      modifies this`complete, this`neutralCompleted, this`waiting
      ensures St() == OnFailed(old(St()))
    {
      waiting, complete, neutralCompleted := false, false, false;
    }

    /** lifecycle_event, shared by the mount, unmount, suspend and resume callbacks. */
    method LifecycleEvent(endpointReset: bool, isMounted: bool)
      modifies this`busEpoch, this`complete, this`neutralCompleted, this`waiting, this`mounts, this`reenumerating
      ensures St() == OnLifecycle(old(St()), endpointReset, isMounted) && busEpoch == old(busEpoch) + 1
    {
      busEpoch := busEpoch + 1;
      if endpointReset {
        waiting, complete, neutralCompleted := false, false, false;
      }
      if isMounted {
        mounts := mounts + 1;
        reenumerating := false;
      }
    }

    // ----------------------------------------------------------- environment

    ghost method Record()
      modifies this`history
      ensures St() == Recorded(old(St()))
    {
      history := history + [St().Snap()];
    }

    /** One step of the host, of a callback or of the clock. */
    method EnvironmentStep()
      requires Inv()
      modifies this`waiting, this`complete, this`neutralCompleted, this`transfer, this`hostLast, this`log, this`history,
        this`mounted, this`suspended, this`busEpoch, this`mounts, this`reenumerating, this`quiesced, this`now
      ensures Inv() && Background(old(St()), St()) && now >= old(now)
      ensures busEpoch >= old(busEpoch)
    {
      ghost var s := St();
      if {
        case transfer.Some? =>
          HostCompletes();
          CompletesKeeps(s);
        case transfer.Some? =>
          var short, seen := *, *;
          var len: nat :| len < 9;
          HostAborts(short, len, seen);
          AbortsKeeps(s, short, len, seen);
        case transfer.Some? => // taken, callback still to come
          HostSees();
        case true =>
          Unplug();
          ResetKeeps(s, false, false);
        case true =>
          var up := *;
          MountChange(up);
          ResetKeeps(s, true, up);
        case true =>
          var asleep := *;
          SuspendChange(asleep);
          RecordKeeps(s);
        case true =>
          quiesced := false; // rw_hid_resume_actions
        case true =>
          var elapsed: nat :| elapsed >= 0;
          now := now + elapsed;
      }
    }

    method HostCompletes()
      requires transfer.Some?
      modifies this`waiting, this`complete, this`neutralCompleted, this`transfer, this`hostLast, this`log, this`history
      ensures St() == Completes(old(St()))
    {
      var report := transfer.value;
      hostLast, transfer := report, None;
      log := log + [Completed(report)];
      ReportCompleteCb(report, 9);
      Record();
    }

    method HostAborts(short: bool, len: nat, seen: bool)
      requires transfer.Some?
      modifies this`waiting, this`complete, this`neutralCompleted, this`transfer, this`hostLast, this`history
      ensures St() == Aborts(old(St()), short, len, seen)
    {
      var report := transfer.value;
      if seen {
        hostLast := report;
      }
      transfer := None;
      if short {
        ReportCompleteCb(report, len);
      } else {
        ReportFailedCb();
      }
      Record();
    }

    /** The host has the report, its completion is not yet known. */
    method HostSees()
      requires Inv() && transfer.Some?
      modifies this`hostLast, this`history
      ensures Inv() && Background(old(St()), St())
    {
      hostLast := transfer.value;
      Record();
    }

    /** tud_suspend_cb and tud_resume_cb */
    method SuspendChange(asleep: bool)
      modifies this`waiting, this`complete, this`neutralCompleted, this`history, this`suspended, this`busEpoch,
        this`mounts, this`reenumerating
      ensures St() == Recorded(old(St()))
      ensures busEpoch >= old(busEpoch)
    {
      suspended := asleep;
      LifecycleEvent(false, false);
      Record();
    }

    /** The bus is gone, the callback still to come. */
    method Unplug()
      modifies this`transfer, this`hostLast, this`history, this`mounted
      ensures St() == Recorded(OnLifecycle(Resets(old(St())), false, false))
    {
      mounted, transfer, hostLast := false, None, NEUTRAL;
      Record();
    }

    /** tud_umount_cb and tud_mount_cb. */
    method MountChange(up: bool)
      modifies this`waiting, this`complete, this`neutralCompleted, this`transfer, this`hostLast, this`history,
        this`mounted, this`busEpoch, this`mounts, this`reenumerating
      ensures St() == Recorded(OnLifecycle(Resets(old(St())), true, up)) && mounted == up
      ensures busEpoch >= old(busEpoch)
    {
      mounted, transfer, hostLast := up, None, NEUTRAL;
      LifecycleEvent(true, up);
      Record();
    }

    /**
     * The host enumerates a keyboard that was not mounted, or time passes and it takes a report in full, at the
     * latest when there is no time for another poll.
     */
    method HelpfulStep()
      requires Inv() && helpful
      modifies this`waiting, this`complete, this`neutralCompleted, this`transfer, this`hostLast, this`log, this`history,
        this`mounted, this`suspended, this`busEpoch, this`mounts, this`reenumerating, this`now
      ensures Inv() && Background(old(St()), St()) && now >= old(now)
      ensures Helps(old(Phase()), Phase())
      ensures !old(Phase()).Away? && Phase().Pending? ==> Roomy()
      ensures old(Phase().Pending? && Roomy()) ==> Roomy()
      ensures busEpoch >= old(busEpoch)
      ensures helpful && old(mounted) ==> mounted && Bus() == old(Bus())
    {
      hide Background, State.Inv;
      var enumerates := *;
      if !mounted && enumerates {
        ghost var s := St();
        MountChange(true);
        ResetKeeps(s, true, true);
        return;
      }
      var margin := if transfer.Some? then 2 else 1;
      var soon := *;
      TakeIfDue(soon);
      var elapsed: nat :| elapsed >= 0;
      if now + elapsed + margin < allowance {
        now := now + elapsed;
      }
    }

    method TakeIfDue(soon: bool)
      requires Inv()
      modifies this`waiting, this`complete, this`neutralCompleted, this`transfer, this`hostLast, this`log, this`history
      ensures Inv() && Background(old(St()), St())
      ensures Helps(old(Phase()), Phase()) && (Phase().Pending? ==> Roomy())
      ensures transfer.Some? ==> old(transfer).Some?
    {
      ghost var s := St();
      if transfer.Some? && (soon || now + 2 >= allowance) {
        Taking(s);
        HostCompletes();
        CompletesKeeps(s);
        hide State.Inv, Background, Completes;
      } else {
        BackgroundReflexive(s);
      }
    }

    /** Any number of such steps, in any order. */
    method Environment()
      requires Inv()
      modifies this`waiting, this`complete, this`neutralCompleted, this`transfer, this`hostLast, this`log, this`history,
        this`mounted, this`suspended, this`busEpoch, this`mounts, this`reenumerating, this`quiesced, this`now
      ensures Inv() && Background(old(St()), St()) && now >= old(now)
      ensures Helps(old(Phase()), Phase())
      ensures !old(Phase()).Away? && Phase().Pending? ==> Roomy()
      ensures old(Phase().Pending? && Roomy()) ==> Roomy()
      ensures busEpoch >= old(busEpoch)
      ensures helpful && old(mounted) ==> mounted && Bus() == old(Bus())
    {
      hide Background;
      if helpful {
        HelpfulStep();
        return;
      }
      assert old(Phase()).Away?;
      var steps: nat :| steps >= 0;
      BackgroundReflexive(St());
      while steps > 0
        invariant Inv() && Background(old(St()), St()) && now >= old(now) && busEpoch >= old(busEpoch)
        decreases steps
      {
        ghost var mid := St();
        EnvironmentStep();
        BackgroundTransitive(old(St()), mid, St());
        steps := steps - 1;
      }
    }

    // ------------------------------------------------------------- report i/o

    method Delay(atLeast: nat)
      requires Inv() && atLeast > 0
      modifies this`waiting, this`complete, this`neutralCompleted, this`transfer, this`hostLast, this`log, this`history,
        this`mounted, this`suspended, this`busEpoch, this`mounts, this`reenumerating, this`quiesced, this`now
      ensures Inv() && Background(old(St()), St()) && now > old(now)
      ensures old(Phase()) != Away && old(now) + atLeast + 1 < allowance ==> Helps(old(Phase()), Phase())
      ensures helpful && old(mounted) ==> mounted && Bus() == old(Bus())
      ensures busEpoch >= old(busEpoch)
    {
      now := now + atLeast;
      ghost var mid := St();
      Environment();
      BackgroundTransitive(old(St()), mid, St());
    }

    /** The endpoint is gone: forget the report it was carrying. */
    method CancelWait()
      requires Inv()
      modifies this`waiting, this`complete, this`neutralCompleted, this`history
      ensures Inv() && Background(old(St()), St())
      ensures !waiting && !complete && !neutralCompleted
    {
      waiting, complete, neutralCompleted := false, false, false;
      Record();
      CancelKeeps(old(St()));
    }

    /** The first section of bus_state; every read may be followed by interference. */
    method ReadEpoch() returns (isReenumerating: bool, changed: bool)
      requires Inv()
      modifies this`waiting, this`complete, this`neutralCompleted, this`transfer, this`hostLast, this`log, this`history,
        this`mounted, this`suspended, this`busEpoch, this`mounts, this`reenumerating, this`quiesced, this`now
      ensures Inv() && Background(old(St()), St()) && now >= old(now)
      ensures Helps(old(Phase()), Phase())
      ensures !old(Phase()).Away? && Phase().Pending? ==> Roomy()
      ensures busEpoch >= old(busEpoch)
      ensures helpful && old(mounted) ==> mounted && Bus() == old(Bus())
      ensures if isReenumerating then old(reenumerating) else !reenumerating
      ensures !old(Phase()).Away? ==> !isReenumerating && !changed
      ensures old(Stale()) ==> changed
      ensures helpful && old(mounted) ==>
        isReenumerating == old(reenumerating) && changed == old(actionEpochValid && actionEpoch != busEpoch)
    {
      hide Background, Released, PressesReleased, State.Inv, Keyboard.Phase, Keyboard.Roomy;
      Environment();
      OnlyFalls(old(St()), St());
      AllWell(this);
      ghost var s1 := St();
      isReenumerating := reenumerating;
      changed := actionEpochValid && actionEpoch != busEpoch;
      Environment();
      BackgroundTransitive(old(St()), s1, St());
      OnlyFalls(s1, St());
    }

    /** The rest of it: an unmounted bus has cancelled the transfer. */
    method ReadMount(changed: bool) returns (err: Err)
      requires Inv()
      modifies this`waiting, this`complete, this`neutralCompleted, this`transfer, this`hostLast, this`log, this`history,
        this`mounted, this`suspended, this`busEpoch, this`mounts, this`reenumerating, this`quiesced, this`now
      ensures Inv() && Background(old(St()), St()) && now >= old(now)
      ensures Helps(old(Phase()), Phase())
      ensures !old(Phase()).Away? && Phase().Pending? ==> Roomy()
      ensures busEpoch >= old(busEpoch)
      ensures helpful && old(mounted) ==> mounted && Bus() == old(Bus())
      ensures err in {Ok, NotFound, Timeout} && (old(reenumerating) || !reenumerating)
      ensures err == NotFound ==> !waiting && !complete && !neutralCompleted
      ensures err == Ok ==> !changed
      ensures !old(Phase()).Away? && !changed ==> err == Ok
      ensures helpful && old(mounted) ==> err == if old(suspended) || changed then Timeout else Ok
    {
      hide Background, Released, PressesReleased, State.Inv, Keyboard.Phase, Keyboard.Roomy;
      AllWell(this);
      if !mounted {
        Environment();
        ghost var s1 := St();
        OnlyFalls(old(St()), s1);
        CancelWait();
        BackgroundTransitive(old(St()), s1, St());
        OnlyFalls(s1, St());
        return NotFound;
      }
      Environment();
      OnlyFalls(old(St()), St());
      AllWell(this);
      return if suspended || changed then Timeout else Ok;
    }

    /** bus_state */
    method BusState() returns (err: Err)
      requires Inv()
      modifies this`waiting, this`complete, this`neutralCompleted, this`transfer, this`hostLast, this`log, this`history,
        this`mounted, this`suspended, this`busEpoch, this`mounts, this`reenumerating, this`quiesced, this`now
      ensures Inv() && Background(old(St()), St()) && now >= old(now)
      ensures Helps(old(Phase()), Phase())
      ensures !old(Phase()).Away? && Phase().Pending? ==> Roomy()
      ensures busEpoch >= old(busEpoch)
      ensures helpful && old(mounted) ==> mounted && Bus() == old(Bus())
      ensures err in {Ok, NotFound, Timeout} && (err == Ok ==> !reenumerating)
      ensures err == NotFound && !old(reenumerating) ==> !waiting && !complete && !neutralCompleted
      ensures !old(Phase()).Away? ==> err == Ok
      ensures old(Stale()) ==> err != Ok
      ensures helpful && old(mounted) ==>
        err == if old(reenumerating) then NotFound
               else if old(suspended || (actionEpochValid && actionEpoch != busEpoch)) then Timeout else Ok
    {
      hide Background, Released, PressesReleased, State.Inv, Keyboard.Phase, Keyboard.Roomy;
      var isReenumerating, changed := ReadEpoch();
      OnlyFalls(old(St()), St());
      ghost var s1 := St();
      if isReenumerating {
        return NotFound;
      }
      err := ReadMount(changed);
      BackgroundTransitive(old(St()), s1, St());
    }

    /**
     * tud_hid_keyboard_report: called only between a mount and the next detach, accepted only by an idle
     * endpoint; a refusal proves nothing about the host.
     */
    method KeyboardReport(report: Report) returns (accepted: bool)
      requires transfer.None? && !reenumerating
      modifies this`transfer, this`hostLast, this`log, this`history
      ensures exists seen :: St() == Submits(old(St()), report, accepted, seen)
      ensures old(Phase()).Armed? ==> accepted && Phase().Pending?
    {
      var idle, seen := *, *;
      accepted := mounted && !suspended && (idle || helpful);
      if accepted {
        transfer := Some(report);
      } else if seen {
        hostLast := report;
      }
      log := log + [Submitted(report)];
      Record();
      assert St() == Submits(old(St()), report, accepted, seen);
    }

    /** Waits until the endpoint is idle, or the bus or the deadline forbids sending. */
    method AwaitEndpoint(deadline: int) returns (err: Err)
      requires Inv()
      modifies this`waiting, this`complete, this`neutralCompleted, this`transfer, this`hostLast, this`log, this`history,
        this`mounted, this`suspended, this`busEpoch, this`mounts, this`reenumerating, this`quiesced, this`now
      ensures Inv() && Background(old(St()), St()) && now >= old(now)
      ensures err == Ok ==> transfer.None? && !waiting && !reenumerating
      ensures old(Phase()).Idle? && deadline == allowance ==> err == Ok && Phase().Idle?
      ensures helpful && old(mounted) ==> mounted && Bus() == old(Bus())
      ensures old(Stale()) ==> err != Ok
    {
      hide Background, Keyboard.Bus, Keyboard.Stale;
      BackgroundReflexive(St());
      while true
        invariant Inv() && Background(old(St()), St()) && now >= old(now)
        invariant old(Phase()).Idle? ==> Phase() == old(Phase())
        invariant helpful && old(mounted) ==> mounted && Bus() == old(Bus())
        invariant old(Stale()) ==> Stale()
        decreases deadline - now
      {
        ghost var s0 := St();
        err := BusState();
        BackgroundTransitive(old(St()), s0, St());
        var pending := waiting;
        ghost var s1 := St();
        Environment();
        BackgroundTransitive(old(St()), s1, St());
        OnlyFalls(s1, St());
        if err != Ok {
          return;
        }
        if !pending && mounted && !suspended && transfer.None? {
          break;
        }
        if now >= deadline {
          return Timeout;
        }
        ghost var s2 := St();
        Delay(1);
        BackgroundTransitive(old(St()), s2, St());
      }
      ghost var s3 := St();
      Environment();
      BackgroundTransitive(old(St()), s3, St());
      OnlyFalls(s3, St());
      if now >= deadline {
        err := Timeout;
      }
    }

    /** Claims an earlier release, or arms the completion callback for this report. */
    method Arm(report: Report) returns (claimed: bool)
      requires Inv() && transfer.None?
      modifies this`expected, this`waiting, this`complete, this`neutralCompleted
      ensures claimed ==> report.Neutral() && old(neutralCompleted) && St() == old(St()).(neutralCompleted := false)
      ensures !claimed ==> St() == Arms(old(St()), report)
      ensures old(Phase()).Idle? ==> if claimed then Phase().Idle? else Phase().Armed?
    {
      if report.Neutral() && neutralCompleted {
        neutralCompleted := false;
        return true;
      }
      expected, complete, neutralCompleted, waiting := report, false, false, true;
      return false;
    }

    /** Polls for the completion of the report just submitted. */
    method AwaitCompletion(deadline: int) returns (err: Err)
      requires Inv() && !complete
      modifies this`waiting, this`complete, this`neutralCompleted, this`transfer, this`hostLast, this`log, this`history,
        this`mounted, this`suspended, this`busEpoch, this`mounts, this`reenumerating, this`quiesced, this`now
      ensures Inv() && Background(old(St()), St()) && now >= old(now)
      ensures err == Ok ==> St().Finished() && log == old(log) + [Completed(expected)]
      ensures old(Phase()).Pending? && deadline == allowance ==> err == Ok && Phase() == Idle(true)
      ensures helpful && old(mounted) ==> mounted && Bus() == old(Bus())
    {
      hide Background, Keyboard.Bus, Keyboard.Stale;
      BackgroundReflexive(St());
      while true
        invariant Inv() && Background(old(St()), St()) && now >= old(now)
        invariant old(Phase()).Pending? ==> Phase().Pending? || Phase() == Idle(true)
        invariant helpful && old(mounted) ==> mounted && Bus() == old(Bus())
        decreases deadline - now
      {
        ghost var s0 := St();
        err := BusState();
        BackgroundTransitive(old(St()), s0, St());
        var done := complete;
        var pending := waiting;
        ghost var s1 := St();
        if done {
          Finishes(old(St()), s1);
        }
        Environment();
        BackgroundTransitive(old(St()), s1, St());
        if err != Ok || done {
          if done { StaysFinished(s1, St()); }
          return;
        }
        if !pending {
          return Fail;
        }
        if now >= deadline {
          return Timeout;
        }
        ghost var s2 := St();
        Delay(1);
        BackgroundTransitive(old(St()), s2, St());
      }
    }

    /** The time-out of a report, within that of the action. */
    method StartReport() returns (deadline: int)
      modifies this`allowance
      ensures deadline == allowance && (old(Fresh()) ==> Phase().Idle?)
    {
      deadline := now + 200000;
      if actionDeadline != 0 && actionDeadline < deadline {
        deadline := actionDeadline;
      }
      allowance := deadline;
    }

    /** send_report once the endpoint is idle: an earlier release is claimed, or this report is sent and awaited. */
    method SendOnIdle(report: Report, deadline: int) returns (err: Err)
      requires Inv() && transfer.None? && !waiting && !reenumerating && (!report.Neutral() ==> Released(log))
      modifies this`needRelease, this`expected,
        this`waiting, this`complete, this`neutralCompleted, this`transfer, this`hostLast, this`log, this`history,
        this`mounted, this`suspended, this`busEpoch, this`mounts, this`reenumerating, this`quiesced, this`now
      ensures Inv() && now >= old(now) && old(log) <= log
      ensures err == Ok ==> transfer.None? && (report.Neutral() ==> St().Quiet() && Released(log))
      ensures report.Neutral() ==> Presses(log) == old(Presses(log)) && Taken(log) == old(Taken(log))
      ensures !report.Neutral() ==>
        && (Presses(log) == old(Presses(log)) || Presses(log) == old(Presses(log)) + [report])
        && (err == Ok ==> Presses(log) == old(Presses(log)) + [report] && Taken(log) == old(Taken(log)) + [report])
      ensures old(Phase()).Idle? && deadline == allowance ==> err == Ok && Phase().Idle?
      ensures helpful && old(mounted) ==> mounted && Bus() == old(Bus())
    {
      hide Background, Released, PressesReleased, Presses, Taken, State.Inv, Keyboard.Phase, Keyboard.Bus;
      ghost var s1 := St();
      var claimed := Arm(report);
      if claimed {
        ClaimKeeps(s1);
        return Ok;
      }
      ArmKeeps(s1, report);
      ghost var own;
      err, own := Transmit(report, deadline);
      OwnPresses(s1.log, report, own);
    }

    /** send_report: at most one submission, confirmed by its own completion or, for a release, an earlier one. */
    method SendReport(report: Report) returns (err: Err)
      requires Inv() && (!report.Neutral() ==> transfer.None? && Released(log))
      modifies this`needRelease, this`expected,
        this`waiting, this`complete, this`neutralCompleted, this`transfer, this`hostLast, this`log, this`history,
        this`mounted, this`suspended, this`busEpoch, this`mounts, this`reenumerating, this`quiesced, this`now,
        this`allowance
      ensures Inv() && now >= old(now) && old(log) <= log
      ensures err == Ok ==> transfer.None? && (report.Neutral() ==> St().Quiet() && Released(log))
      ensures report.Neutral() ==> Presses(log) == old(Presses(log))
      ensures report.Neutral() && old(transfer).None? ==> Taken(log) == old(Taken(log))
      ensures !report.Neutral() ==>
        && (Presses(log) == old(Presses(log)) || Presses(log) == old(Presses(log)) + [report])
        && (err == Ok ==> Presses(log) == old(Presses(log)) + [report] && Taken(log) == old(Taken(log)) + [report])
      ensures old(Fresh()) ==> err == Ok && Phase().Idle?
      ensures helpful && old(mounted) ==> mounted && Bus() == old(Bus())
      ensures old(Stale()) ==> err != Ok && NothingSent(old(log), log)
    {
      hide Background, Released, PressesReleased, Presses, Taken, State.Inv, Keyboard.Phase, Keyboard.Fresh;
      hide NothingSent, Keyboard.Stale, Keyboard.Bus;
      var deadline := StartReport();
      err := AwaitEndpoint(deadline);
      LogKept(old(St()), St());
      if err != Ok {
        return;
      }
      err := SendOnIdle(report, deadline);
    }

    /** Debt is taken on before the submission, even if it fails: what reached the host is not assumed. */
    method Submit(report: Report) returns (accepted: bool)
      requires Inv() && transfer.None? && expected == report && !complete && !neutralCompleted && !reenumerating
      requires !report.Neutral() ==> Released(log)
      modifies this`needRelease,
        this`waiting, this`complete, this`neutralCompleted, this`transfer, this`hostLast, this`log, this`history,
        this`mounted, this`suspended, this`busEpoch, this`mounts, this`reenumerating, this`quiesced, this`now
      ensures Inv() && now >= old(now) && needRelease && expected == report && !complete
      ensures log == old(log) + [Submitted(report)] && (transfer == if accepted then Some(report) else None)
      ensures old(Phase()).Armed? ==> accepted && Phase().Pending?
      ensures helpful && old(mounted) ==> mounted && Bus() == old(Bus())
    {
      hide Background, Released, PressesReleased, Keyboard.Phase, Keyboard.Bus, State.Inv;
      ghost var s0 := St();
      Environment();
      StaysArmed(s0, St());
      ghost var s1 := St();
      needRelease := true;
      Record();
      DebtKeeps(s1);
      ghost var s2 := St();
      Environment();
      StaysArmed(s2, St());
      ghost var s3 := St();
      accepted := KeyboardReport(report);
      ghost var seen :| St() == Submits(s3, report, accepted, seen);
      SubmitKeeps(s3, report, accepted, seen);
    }

    /** From the armed callback to the outcome of the transfer. */
    method Transmit(report: Report, deadline: int) returns (err: Err, ghost own: seq<Event>)
      requires Inv() && transfer.None? && expected == report && !complete && !neutralCompleted && !reenumerating
      requires !report.Neutral() ==> Released(log)
      modifies this`needRelease,
        this`waiting, this`complete, this`neutralCompleted, this`transfer, this`hostLast, this`log, this`history,
        this`mounted, this`suspended, this`busEpoch, this`mounts, this`reenumerating, this`quiesced, this`now
      ensures Inv() && now >= old(now) && needRelease
      ensures log == old(log) + own
      ensures own == [Submitted(report)] || own == [Submitted(report), Completed(report)]
      ensures err == Ok ==> own == [Submitted(report), Completed(report)]
      ensures err == Ok ==> transfer.None? && (report.Neutral() ==> St().Quiet() && Released(log))
      ensures old(Phase()).Armed? && deadline == allowance ==> err == Ok && Phase() == Idle(true)
      ensures helpful && old(mounted) ==> mounted && Bus() == old(Bus())
    {
      hide Background, Released, PressesReleased, Keyboard.Phase, Keyboard.Bus, State.Inv;
      var accepted := Submit(report);
      own := [Submitted(report)];
      ghost var s4 := St();
      if !accepted {
        err := Fail;
      } else {
        err := AwaitCompletion(deadline);
        KeepsDebt(s4, St());
        own := own + LateCompletion(s4, St());
        if err == Ok && report.Neutral() {
          NeutralDone(St());
        }
      }
      if err == Fail {
        ghost var s5 := St();
        waiting := false;
        Record();
        GiveUpKeeps(s5);
      }
    }

    // ---------------------------------------------------------------- release

    /** release_all: on success the debt is cleared and the host holds nothing. */
    method ReleaseAll() returns (err: Err)
      requires Inv()
      modifies this`needRelease, this`expected,
        this`waiting, this`complete, this`neutralCompleted, this`transfer, this`hostLast, this`log, this`history,
        this`mounted, this`suspended, this`busEpoch, this`mounts, this`reenumerating, this`quiesced, this`now,
        this`allowance
      ensures Inv() && now >= old(now) && old(log) <= log && Presses(log) == old(Presses(log))
      ensures old(transfer).None? ==> Taken(log) == old(Taken(log))
      ensures err == Ok ==> !needRelease && St().Quiet() && Released(log)
      ensures old(Fresh()) ==> err == Ok && Phase().Idle?
      ensures helpful && old(mounted) && err != Ok ==> mounted && Bus() == old(Bus())
      ensures old(Stale()) ==> err != Ok && NothingSent(old(log), log)
    {
      hide Background, Released, PressesReleased, Presses, Taken;
      err := SendReport(NEUTRAL);
      if err == Ok {
        ClearDebt();
      }
    }

    /** The tail of release_all, with interference around it. */
    method ClearDebt()
      requires Inv() && St().Quiet() && Released(log)
      modifies this`needRelease,
        this`waiting, this`complete, this`neutralCompleted, this`transfer, this`hostLast, this`log, this`history,
        this`mounted, this`suspended, this`busEpoch, this`mounts, this`reenumerating, this`quiesced, this`now
      ensures Inv() && now >= old(now) && log == old(log) && !needRelease && St().Quiet()
      ensures old(Phase()).Idle? ==> Phase().Idle?
    {
      hide Background, Released, PressesReleased, Keyboard.Phase, Keyboard.Roomy, State.Inv, Helps;
      StayQuiet();
      ReleaseKeeps(St());
      needRelease := false;
      Record();
      StayQuiet();
      ReleaseKeeps(St());
      neutralCompleted := false;
    }

    /** Interference leaves a released host released. */
    method StayQuiet()
      requires Inv() && St().Quiet()
      modifies this`waiting, this`complete, this`neutralCompleted, this`transfer, this`hostLast, this`log, this`history,
        this`mounted, this`suspended, this`busEpoch, this`mounts, this`reenumerating, this`quiesced, this`now
      ensures Inv() && now >= old(now) && log == old(log) && St().Quiet()
      ensures old(Phase()).Idle? ==> Phase().Idle?
    {
      hide Background, Released, PressesReleased, Keyboard.Phase, Keyboard.Roomy, State.Inv;
      ghost var s := St();
      Environment();
      OnlyFalls(s, St());
      KeepsDebt(s, St());
    }

    /** restart_usb: detach the keyboard so that the host forgets it; reports stay blocked until a new mount. */
    method RestartUsb()
      requires Inv()
      modifies this`waiting, this`complete, this`neutralCompleted, this`transfer, this`hostLast, this`log, this`history,
        this`mounted, this`suspended, this`busEpoch, this`mounts, this`reenumerating, this`quiesced, this`now
      ensures Inv() && Background(old(St()).(reenumerating := true), St()) && now >= old(now)
      ensures reenumerating || mounts > old(mounts)
    {
      hide Background, Resets, Recorded, OnLifecycle, Released, PressesReleased, State.Inv;
      BlockKeeps(St());
      reenumerating := true;
      ghost var s := St();
      Environment();
      var detached := *;
      if detached {
        ghost var s0 := St();
        Reconnect();
        BlockAgain(s, s0);
        BackgroundTransitive(s, s0.(reenumerating := true), St());
      }
      OnlyFalls(s, St());
    }

    /** tud_disconnect and tud_connect */
    method Reconnect()
      requires Inv()
      modifies this`waiting, this`complete, this`neutralCompleted, this`transfer, this`hostLast, this`log, this`history,
        this`mounted, this`suspended, this`busEpoch, this`mounts, this`reenumerating, this`quiesced, this`now
      ensures Inv() && Background(old(St()).(reenumerating := true), St()) && now >= old(now)
    {
      hide Background, Resets, Recorded, OnLifecycle, Released, PressesReleased, State.Inv;
      ghost var s := old(St()).(reenumerating := true);
      ghost var s0 := St();
      Unplug();
      ResetKeeps(s0, false, false);
      ghost var s1 := St();
      Delay(50000);
      BackgroundTransitive(s0, s1, St());
      Unblocked(s0, St());
      BlockKeeps(St());
      reenumerating := true;
      ghost var s2 := St();
      Environment();
      BackgroundTransitive(s, s2, St());
    }

    // ---------------------------------------------------------------- actions

    /** rw_hid_init: `ready` is whether lock, recovery task and driver could be set up. */
    method Init(ready: bool) returns (err: Err)
      requires Inv()
      modifies this`installed
      ensures Inv() && installed == (old(installed) || ready) && err == if installed then Ok else Fail
    {
      if installed {
        return Ok;
      }
      if !ready {
        return Fail;
      }
      installed := true;
      return Ok;
    }

    /** Cleanup shared by recovery_once and finish_action: release, then reconnect if that fails on a live bus. */
    method Cleanup() returns (err: Err)
      requires Inv()
      modifies this`needRelease, this`expected,
        this`waiting, this`complete, this`neutralCompleted, this`transfer, this`hostLast, this`log, this`history,
        this`mounted, this`suspended, this`busEpoch, this`mounts, this`reenumerating, this`quiesced, this`now,
        this`allowance
      ensures Inv() && now >= old(now) && old(log) <= log && Presses(log) == old(Presses(log))
      ensures err == Ok && old(transfer).None? ==> Taken(log) == old(Taken(log))
      ensures err == Ok ==> !needRelease && St().Quiet() && Released(log)
      ensures old(Fresh()) ==> err == Ok
      ensures old(Up()) && err != Ok ==> reenumerating || mounts > old(mounts)
      ensures old(helpful && mounted && !Up()) && err != Ok ==> mounted && Bus() == old(Bus())
    {
      hide Background, Released, PressesReleased, Presses, Taken, State.Inv, Helps;
      hide Keyboard.Phase, Keyboard.Fresh, Keyboard.Roomy;
      err := ReleaseAll();
      if err != Ok {
        ghost var s0 := St();
        var state := BusState();
        LogKept(s0, St());
        if state == Ok {
          ghost var s1 := St();
          RestartUsb();
          LogKept(s1.(reenumerating := true), St());
        }
      }
    }

    method TakeDebt()
      requires Inv()
      modifies this`needRelease, this`history
      ensures Inv() && needRelease && log == old(log) && (old(Fresh()) ==> Fresh())
    {
      DebtKeeps(St());
      needRelease := true;
      Record();
    }

    /** The first half of recovery_once: is the bus up, and in which epoch? */
    method ObserveBus() returns (active: bool, epoch: int)
      requires Inv()
      modifies this`waiting, this`complete, this`neutralCompleted, this`transfer, this`hostLast, this`log, this`history,
        this`mounted, this`suspended, this`busEpoch, this`mounts, this`reenumerating, this`quiesced, this`now,
        this`allowance
      ensures Inv() && NothingSent(old(log), log) && Presses(log) == old(Presses(log))
      ensures old(Ready()) ==> active && Fresh()
      ensures old(transfer).None? ==> log == old(log)
      ensures helpful && old(mounted) ==>
        && mounted && Bus() == old(Bus()) && epoch == old(busEpoch) && (active <==> old(Up()))
    {
      hide Background, Released, PressesReleased, Presses, Taken, State.Inv;
      allowance := now + 200000;
      assert old(Ready()) ==> Phase().Idle?;
      hide Keyboard.Fresh, Keyboard.Ready, Keyboard.Phase;
      var state := BusState();
      LogKept(old(St()), St());
      ghost var s0 := St();
      Environment();
      LogKept(s0, St());
      active, epoch := state == Ok, busEpoch;
      IdleIsFresh(this);
    }

    /** recovery_once: never sends a key-down, and clears the debt on a bus that works. */
    method RecoveryOnce(lockTaken: bool)
      requires Inv()
      modifies this
      ensures Inv() && old(log) <= log && Presses(log) == old(Presses(log))
      ensures !old(installed) || old(quiesced) || !lockTaken ==> St() == old(St())
      ensures old(Ready() && installed && !quiesced) && lockTaken ==>
        && !needRelease && St().Quiet() && wasActive && observedEpoch == old(busEpoch)
        && (if old(needRelease || !wasActive || busEpoch != observedEpoch) then Released(log) else log == old(log))
      ensures old(helpful && mounted && !Up() && installed && !quiesced) && lockTaken ==>
        needRelease && !wasActive && observedEpoch == old(busEpoch) && NothingSent(old(log), log)
    {
      hide Background, Released, PressesReleased, Presses, Taken, State.Inv, Helps;
      hide Keyboard.Phase, Keyboard.Fresh, Keyboard.Roomy;
      if !installed || quiesced || !lockTaken {
        return;
      }
      var active, epoch := ObserveBus();
      if !active || !wasActive || epoch != observedEpoch {
        TakeDebt();
      }
      NoDebt(St());
      if active && needRelease {
        var released := Cleanup();
      }
      observedEpoch := epoch;
      wasActive := active;
    }

    /** lock_action, then begin_action: no key-down before a neutral baseline completes. */
    method BeginAction() returns (err: Err)
      requires Inv()
      modifies this
      ensures Inv() && old(log) <= log && Presses(log) == old(Presses(log))
      ensures err == Ok ==> !needRelease && St().Quiet() && Released(log)
      ensures err == Ok && old(transfer).None? ==> Taken(log) == old(Taken(log))
      ensures old(Ready()) ==> err == Ok && Phase().Idle?
    {
      hide Background, Released, PressesReleased, Presses, Taken, State.Inv;
      hide Keyboard.Phase, Keyboard.Fresh, Keyboard.Ready;
      StartAction();
      err := EnsureAwake();
      LogKept(old(St()), St());
      ghost var s1 := St();
      Environment();
      LogKept(s1, St());
      BindEpoch();
      if err == Ok {
        err := ReleaseAll();
      }
    }

    /** The time-out of the whole action. */
    method StartAction()
      modifies this`actionDeadline, this`allowance
      ensures old(Ready()) ==> Phase().Idle?
    {
      actionDeadline := now + 8000000;
      allowance := actionDeadline;
    }

    /** From here on a change on the bus ends the action. */
    method BindEpoch()
      modifies this`actionEpoch, this`actionEpochValid
      ensures actionEpoch == busEpoch && actionEpochValid && (old(Phase()).Idle? ==> Fresh())
    {
      actionEpoch, actionEpochValid := busEpoch, true;
    }

    /** ensure_awake: a suspended bus is asked to resume, and given time to. */
    method EnsureAwake() returns (err: Err)
      requires Inv()
      modifies this`waiting, this`complete, this`neutralCompleted, this`transfer, this`hostLast, this`log, this`history,
        this`mounted, this`suspended, this`busEpoch, this`mounts, this`reenumerating, this`quiesced, this`now
      ensures Inv() && Background(old(St()), St()) && now >= old(now)
      ensures Helps(old(Phase()), Phase()) && (old(Phase()).Idle? ==> err == Ok)
    {
      hide Background, Released, PressesReleased, State.Inv;
      Environment();
      ghost var s1 := St();
      if mounted {
        Environment();
        BackgroundTransitive(old(St()), s1, St());
        if !suspended {
          return Ok;
        }
        var resumed := *; // tud_remote_wakeup
        if !resumed {
          return Timeout;
        }
        ghost var s2 := St();
        Environment();
        BackgroundTransitive(old(St()), s2, St());
      }
      ghost var s3 := St();
      err := BusState();
      BackgroundTransitive(old(St()), s3, St());
    }

    method PressRelease(report: Report) returns (err: Err)
      requires Inv() && St().Quiet() && Released(log) && !report.Neutral()
      modifies this`needRelease, this`expected,
        this`waiting, this`complete, this`neutralCompleted, this`transfer, this`hostLast, this`log, this`history,
        this`mounted, this`suspended, this`busEpoch, this`mounts, this`reenumerating, this`quiesced, this`now,
        this`allowance
      ensures Inv() && old(log) <= log
      ensures Presses(log) == old(Presses(log)) || Presses(log) == old(Presses(log)) + [report]
      ensures err == Ok ==> Presses(log) == old(Presses(log)) + [report] && Taken(log) == old(Taken(log)) + [report]
      ensures err == Ok ==> !needRelease && St().Quiet() && Released(log)
      ensures old(Fresh()) ==> err == Ok && Phase().Idle?
      ensures old(Stale()) ==> err != Ok && NothingSent(old(log), log)
    {
      hide Background, Released, PressesReleased, Presses, Taken, State.Inv;
      err := SendReport(report);
      if err == Ok {
        err := ReleaseAll();
      }
    }

    method FinishAction(err: Err) returns (result: Err)
      requires Inv()
      modifies this
      ensures Inv() && old(log) <= log && Presses(log) == old(Presses(log))
      ensures result == Ok && old(transfer).None? ==> Taken(log) == old(Taken(log))
      ensures result == Ok ==> err == Ok
      ensures !old(needRelease) ==> result == err && !needRelease && log == old(log)
      ensures !actionEpochValid && actionDeadline == 0
      ensures old(needRelease && helpful && mounted && !suspended && !reenumerating) ==>
        !needRelease || reenumerating || mounts > old(mounts)
      ensures old(needRelease && helpful && mounted && (suspended || reenumerating)) ==>
        mounted && Bus() == old(Bus()) && needRelease && NothingSent(old(log), log)
    {
      hide Background, Released, PressesReleased, Presses, Taken, State.Inv;
      result := err;
      actionDeadline, actionEpochValid := 0, false;
      if needRelease {
        ghost var s0 := St();
        var state := BusState();
        LogKept(s0, St());
        if state == Ok {
          var released := Cleanup();
          if result == Ok {
            result := released;
          }
        }
      }
    }

    /**
     * Every keyboard action is this loop over its list of reports. The key-downs it submits are a prefix of
     * the list, in order and without repeats; Ok means the host took every one of them. `before` is the log
     * at the neutral baseline.
     */
    method PerformAction(reports: seq<Report>, lockTaken: bool)
        returns (err: Err, ghost done: nat, ghost before: seq<Event>)
      requires Inv() && forall i :: 0 <= i < |reports| ==> !reports[i].Neutral()
      modifies this
      ensures Inv() && old(log) <= before <= log && Presses(before) == old(Presses(log))
      ensures done <= |reports| && Presses(log) == old(Presses(log)) + reports[..done]
      ensures err == Ok ==> done == |reports| && Taken(log) == Taken(before) + reports
      ensures err == Ok && old(transfer).None? ==> Taken(before) == old(Taken(log))
      ensures err == Ok ==> !needRelease && St().Quiet()
      ensures old(Ready() && !quiesced) && lockTaken ==> err == Ok
      ensures old(!actionEpochValid && actionDeadline == 0) ==> !actionEpochValid && actionDeadline == 0
      ensures old(quiesced) || !lockTaken ==> err == InvalidState && log == old(log)
    {
      hide Background, Released, PressesReleased, Presses, Taken, State.Inv;
      done, before := 0, log;
      if quiesced || !lockTaken {
        return InvalidState, 0, log;
      }
      err := BeginAction();
      before := log;
      var i := 0;
      while i < |reports| && err == Ok
        invariant Inv() && old(log) <= before <= log && Presses(before) == old(Presses(log))
        invariant i <= |reports| && done <= |reports|
        invariant Presses(log) == old(Presses(log)) + reports[..done]
        invariant old(Ready()) ==> err == Ok && Phase().Idle?
        invariant err == Ok ==>
          !needRelease && done == i && St().Quiet() && Released(log) && Taken(log) == Taken(before) + reports[..i]
        invariant err == Ok && old(transfer).None? ==> Taken(before) == old(Taken(log))
      {
        ghost var was := Presses(log);
        err := PressRelease(reports[i]);
        if Presses(log) != was {
          done := i + 1;
        }
        i := i + 1;
      }
      err := FinishAction(err);
      NoDebt(St());
    }

    /** rw_hid_type: text and the optional Enter, or nothing at all if a character cannot be typed. */
    method Type(text: seq<nat>, enter: bool, keymap: seq<(bool, nat)>, lockTaken: bool)
        returns (err: Err, ghost done: nat, ghost before: seq<Event>)
      requires Inv() && |keymap| == 128
      modifies this
      ensures Inv() && old(log) <= before <= log && Presses(before) == old(Presses(log))
      ensures old(installed) && Typeable(text, keymap) ==>
        && done <= |Keystrokes(text, enter, keymap)|
        && Presses(log) == old(Presses(log)) + Keystrokes(text, enter, keymap)[..done]
      ensures old(installed) && Typeable(text, keymap) && err == Ok ==>
        && done == |Keystrokes(text, enter, keymap)|
        && Taken(log) == Taken(before) + Keystrokes(text, enter, keymap)
      ensures err == Ok ==>
        Taken(before) <= Taken(log) && Spells(Taken(log)[|Taken(before)|..], text, enter, keymap)
      ensures err == Ok && old(transfer).None? ==> Taken(before) == old(Taken(log))
      ensures !old(installed) || !Typeable(text, keymap) ==> err != Ok && log == old(log)
      ensures old(Ready() && installed && !quiesced) && lockTaken && Typeable(text, keymap) ==>
        err == Ok && !needRelease && St().Quiet()
      ensures old(quiesced) || !lockTaken ==> err != Ok && log == old(log)
    {
      done, before := 0, log;
      if !installed {
        return NotSupported, 0, log;
      }
      if |text| > TYPE_MAX_CHARS {
        return InvalidSize, 0, log;
      }
      for i := 0 to |text|
        invariant forall j :: 0 <= j < i ==> text[j] < 128 && keymap[text[j]].1 != 0
        invariant log == old(log) && Inv()
      {
        if text[i] >= 128 || keymap[text[i]].1 == 0 {
          return InvalidArg, 0, log;
        }
      }
      KeystrokesPress(text, enter, keymap);
      KeystrokesSpell(text, enter, keymap);
      err, done, before := PerformAction(Keystrokes(text, enter, keymap), lockTaken);
    }

    /** rw_hid_wake: taps Left-Ctrl twice. */
    method Wake(lockTaken: bool) returns (err: Err, ghost done: nat, ghost before: seq<Event>)
      requires Inv()
      modifies this
      ensures Inv() && done <= 2 && Presses(log) == old(Presses(log)) + [CTRL_TAP, CTRL_TAP][..done]
      ensures err == Ok ==> var tap := Report(1, [0, 0, 0, 0, 0, 0]);
        done == 2 && Taken(log) == Taken(before) + [tap, tap]
      ensures old(Ready() && installed && !quiesced) && lockTaken ==> err == Ok
      ensures old(quiesced) || !lockTaken ==> err != Ok && log == old(log)
    {
      done, before := 0, log;
      if !installed {
        return NotSupported, 0, log;
      }
      err, done, before := PerformAction([CTRL_TAP, CTRL_TAP], lockTaken);
    }

    /** rw_hid_keys on chords already looked up: each holds at least one key or modifier. */
    method Keys(chords: seq<Report>, lockTaken: bool) returns (err: Err, ghost done: nat, ghost before: seq<Event>)
      requires Inv() && forall i :: 0 <= i < |chords| ==> !chords[i].Neutral()
      modifies this
      ensures Inv() && done <= |chords| && Presses(log) == old(Presses(log)) + chords[..done]
      ensures err == Ok ==> done == |chords| && Taken(log) == Taken(before) + chords
      ensures old(Ready() && installed && !quiesced) && lockTaken && 1 <= |chords| <= 32 ==> err == Ok
      ensures old(quiesced) || !lockTaken ==> err != Ok && log == old(log)
      ensures !old(installed) || |chords| < 1 || |chords| > 32 ==> err in {NotSupported, InvalidSize} && log == old(log)
    {
      done, before := 0, log;
      if !installed {
        return NotSupported, 0, log;
      }
      if |chords| < 1 || |chords| > KEYS_MAX_CHORDS {
        return InvalidSize, 0, log;
      }
      err, done, before := PerformAction(chords, lockTaken);
    }

    /** rw_hid_quiesce: further actions are blocked after a completed neutral report, or without sending anything. */
    method Quiesce(lockTaken: bool) returns (err: Err)
      requires Inv()
      modifies this
      ensures Inv() && old(log) <= log && Presses(log) == old(Presses(log))
      ensures old(installed) && err == Ok ==>
        quiesced && (NothingSent(old(log), log) || (!needRelease && St().Quiet() && Released(log)))
      ensures old(quiesced) && old(installed) ==> err == InvalidState && log == old(log)
      ensures old(Ready() && installed && !quiesced) && lockTaken ==>
        err == Ok && quiesced && !needRelease && St().Quiet() && Released(log)
    {
      hide Background, Released, PressesReleased, Presses, Taken, State.Inv;
      if !installed {
        return Ok;
      }
      if !lockTaken || quiesced {
        return InvalidState;
      }
      allowance := now + 200000;
      err := BusState();
      LogKept(old(St()), St());
      if err == Ok {
        err := ReleaseAll();
      } else {
        err := Ok;
      }
      if err == Ok {
        quiesced := true;
      }
    }

    /**
     * Any schedule of actions, recovery passes and bus events: every state on the way satisfies the
     * release debt, and every key-down follows a completed neutral report.
     */
    method Run(steps: nat, keymap: seq<(bool, nat)>)
      requires Inv() && |keymap| == 128
      modifies this
      ensures Inv() && PressesReleased(log) && forall k :: 0 <= k < |history| ==> history[k].Safe()
    {
      hide Background, Released, PressesReleased, Presses, Taken, Keystrokes, Typeable;
      var i := 0;
      while i < steps
        invariant Inv()
      {
        var err;
        var lockTaken := *;
        ghost var done, before;
        if {
          case true => Environment();
          case true =>
            var ready := *;
            err := Init(ready);
          case true => RecoveryOnce(lockTaken);
          case true => var text: seq<nat>, enter := *, *; err, done, before := Type(text, enter, keymap, lockTaken);
          case true => err, done, before := Wake(lockTaken);
          case true => err := Quiesce(lockTaken);
          case true =>
            var chords: seq<Report> := *;
            if forall k :: 0 <= k < |chords| ==> !chords[k].Neutral() {
              err, done, before := Keys(chords, lockTaken);
            }
        }
        i := i + 1;
      }
      RunSafe(St());
    }
  }

  /** A full completion of the expected report counts. */
  lemma Taking(s: State)
    requires s.Inv() && s.transfer.Some?
    ensures var t := Completes(s); t.transfer.None? && !t.waiting && (s.waiting ==> t.complete)
  {}

  lemma IdleIsFresh(k: Keyboard)
    ensures k.Phase().Idle? && k.actionDeadline == 0 ==> k.Fresh()
  {}

  lemma AllWell(k: Keyboard)
    ensures !k.Phase().Away? ==> k.Up()
  {}

  lemma RunSafe(s: State)
    requires s.Inv()
    ensures PressesReleased(s.log) && forall k :: 0 <= k < |s.history| ==> s.history[k].Safe()
  {}

  const TYPE_MAX_CHARS := 256
  const KEYS_MAX_CHORDS := 32
  const LEFT_CTRL := 1
  const LEFT_SHIFT := 2
  const KEY_ENTER := 0x28
  const CTRL_TAP := Report(LEFT_CTRL, [0, 0, 0, 0, 0, 0])

  /** The report for one character of the US layout table. */
  function Keystroke(entry: (bool, nat)): Report {
    Report(if entry.0 then LEFT_SHIFT else 0, [entry.1, 0, 0, 0, 0, 0])
  }

  predicate Typeable(text: seq<nat>, keymap: seq<(bool, nat)>)
    requires |keymap| == 128
  {
    |text| <= 256 && forall i :: 0 <= i < |text| ==> text[i] < 128 && keymap[text[i]].1 != 0
  }

  /** The key-downs a text asks for. */
  function Keystrokes(text: seq<nat>, enter: bool, keymap: seq<(bool, nat)>): seq<Report>
    requires |keymap| == 128 && Typeable(text, keymap)
  {
    seq(|text|, i requires 0 <= i < |text| => Keystroke(keymap[text[i]]))
      + (if enter then [Report(0, [KEY_ENTER, 0, 0, 0, 0, 0])] else [])
  }

  /**
   * What a host reads from a key-down: the first code names the key, Left-Shift alone selects its shifted
   * character, and further keys or modifiers make it something else.
   */
  function Read(report: Report): Option<(bool, nat)> {
    if report.modifier in {0, 2} && |report.keys| == 6 && report.keys[1..] == [0, 0, 0, 0, 0]
    then Some((report.modifier == 2, report.keys[0]))
    else None
  }

  /** The host reads the table entry of each character of the text in turn, and then exactly if asked an Enter. */
  predicate Spells(reports: seq<Report>, text: seq<nat>, enter: bool, keymap: seq<(bool, nat)>) {
    && |reports| == |text| + (if enter then 1 else 0)
    && (forall i :: 0 <= i < |text| ==> text[i] < |keymap| && Read(reports[i]) == Some(keymap[text[i]]))
    && (enter ==> Read(reports[|text|]) == Some((false, 0x28)))
  }

  lemma KeystrokesSpell(text: seq<nat>, enter: bool, keymap: seq<(bool, nat)>)
    requires |keymap| == 128 && Typeable(text, keymap)
    ensures Spells(Keystrokes(text, enter, keymap), text, enter, keymap)
  {
    var s := Keystrokes(text, enter, keymap);
    forall i | 0 <= i < |text| ensures Read(s[i]) == Some(keymap[text[i]]) {
      assert s[i].keys[1..] == [0, 0, 0, 0, 0];
    }
    if enter {
      assert s[|text|].keys[1..] == [0, 0, 0, 0, 0];
    }
  }

  /** Characters with table entries of their own are told apart, and so is a text from one followed by Enter. */
  lemma SpellsOneText(reports: seq<Report>, text: seq<nat>, enter: bool, other: seq<nat>, entered: bool,
      keymap: seq<(bool, nat)>)
    requires Spells(reports, text, enter, keymap) && Spells(reports, other, entered, keymap)
    requires forall c, d :: 0 <= c < d < |keymap| && c in text + other && d in text + other ==> keymap[c] != keymap[d]
    requires forall c :: 0 <= c < |keymap| && c in text + other ==> keymap[c] != (false, 0x28)
    ensures text == other && enter == entered
  {
    var n := if |text| < |other| then |text| else |other|;
    forall i | 0 <= i < n ensures text[i] == other[i] {
      var c, d := text[i], other[i];
      assert c in text + other && d in text + other;
      assert keymap[c] == keymap[d];
    }
  }

  /** A new keyboard that a helpful host has enumerated types the whole text. */
  method TypesAll(text: seq<nat>, enter: bool, keymap: seq<(bool, nat)>) returns (k: Keyboard)
    requires |keymap| == 128 && Typeable(text, keymap)
    ensures k.Inv() && Presses(k.log) == Keystrokes(text, enter, keymap) == Taken(k.log)
    ensures Spells(Taken(k.log), text, enter, keymap)
    ensures !k.needRelease && k.St().Quiet()
  {
    hide Background, Released, PressesReleased, State.Inv, Keystrokes, Typeable;
    k := new Keyboard(true);
    var err := k.Init(true);
    ghost var s := k.St();
    k.MountChange(true);
    ResetKeeps(s, true, true);
    ghost var done, before;
    err, done, before := k.Type(text, enter, keymap, true);
    var all := Keystrokes(text, enter, keymap);
    assert all[..|all|] == all && [] + all == all;
  }

  lemma KeystrokesPress(text: seq<nat>, enter: bool, keymap: seq<(bool, nat)>)
    requires |keymap| == 128 && Typeable(text, keymap)
    ensures var s := Keystrokes(text, enter, keymap); forall i :: 0 <= i < |s| ==> !s[i].Neutral()
  {
    var s := Keystrokes(text, enter, keymap);
    forall i | 0 <= i < |s| ensures !s[i].Neutral() {
      assert s[i].keys[0] != 0;
    }
  }

  /** Only completions were added to the log. */
  predicate NothingSent(before: seq<Event>, after: seq<Event>) {
    before <= after && forall i :: |before| <= i < |after| ==> after[i].Completed?
  }

  lemma LogKept(s: State, t: State)
    requires Background(s, t)
    ensures NothingSent(s.log, t.log)
    ensures s.log <= t.log && Presses(t.log) == Presses(s.log)
    ensures s.transfer.None? ==> t.log == s.log && t.transfer.None?
  {
    if t.log != s.log {
      var late := [Completed(s.transfer.value)];
      PressesConcat(s.log, late);
      assert late[..0] == [];
    }
  }

  lemma OneMore(log: seq<Event>, e: Event)
    ensures Presses(log + [e]) == Presses(log) + (if IsPress(e) then [e.report] else [])
    ensures Taken(log + [e]) == Taken(log) + (if e.Completed? && !e.report.Neutral() then [e.report] else [])
  {
    assert (log + [e])[..|log|] == log;
  }

  lemma OwnPresses(log: seq<Event>, r: Report, own: seq<Event>)
    requires own == [Submitted(r)] || own == [Submitted(r), Completed(r)]
    ensures Presses(log + own) == Presses(log) + (if r.Neutral() then [] else [r])
    ensures Taken(log + own) == Taken(log) + (if r.Neutral() || |own| == 1 then [] else [r])
  {
    OneMore(log, Submitted(r));
    OneMore(log + [Submitted(r)], Completed(r));
    assert |own| == 2 ==> log + own == log + [Submitted(r)] + [Completed(r)];
  }
}
