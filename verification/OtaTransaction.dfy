/**
 * The boot transaction of firmware/main/ota.c: a durable journal, two application slots and the bootloader's
 * states for them. Every storage operation may fail or be cut off by a power loss; the sections the control
 * mutex makes atomic interleave freely.
 */
module OtaTransaction {
  import opened Options
  import opened OtaJournal

  /**
   * How a storage operation, or a section built from them, ends. A cut by a power loss ends all RAM; what the
   * operation was to write may be kept or not.
   */
  datatype Outcome = Done | Failed | Cut(kept: bool) {
    predicate Wrote() { this == Done || this == Cut(true) }
  }

  /** The two storage calls of save_journal. */
  datatype Save = Save(blob: Outcome, commit: Outcome) {
    function Result(): Outcome { if blob == Done then commit else blob }

    predicate Wrote() { blob == Done && commit.Wrote() }
  }

  /** The bootloader's entry for a slot. */
  datatype Slot = NoEntry | Undefined | New | PendingVerify | Valid | Invalid | Aborted

  datatype Image = Image(release: nat, hash: Hash)

  datatype Candidate = Candidate(slot: nat, image: Image)

  /**
   * One boot selection by the updater, with the journal that was durable when it was made, and whether a rejection
   * had taken the selected hash since the manifest was fetched.
   */
  datatype Selection = Selection(candidate: Candidate, journal: Record, running: nat, overtaken: bool) {
    predicate Good() {
      && journal.Ok() && Named(journal, candidate)
      && candidate.image.release > journal.floor && candidate.image.release > running
      && (overtaken <==> candidate.image.hash in journal.Ring())
    }
  }

  datatype Worker =
    | Idle
    | Fetched(manifest: Image)
    | Downloading(manifest: Image)
    | Refused(manifest: Image)   // downloaded, found not to be the image it should be
    | Installed(manifest: Image)
    | Restarting

  /**
   * An unconfirmed candidate that was given up, by the bootloader after its trial or by the image itself, and the
   * journal with which the worker next started.
   */
  datatype Abort = Abort(candidate: Candidate, next: Option<Record>) {
    predicate Suppressed() { next.Some? ==> next.value.Ok() && candidate.image.hash in next.value.Ring() }
  }

  /** What the proofs remember of the whole run. */
  datatype History = History(
    floors: seq<nat>,            // every floor that was ever durable
    confirmed: seq<nat>,         // releases confirmed healthy
    selections: seq<Selection>,
    aborts: seq<Abort>,
    candidate: Option<Candidate>, // selected, neither confirmed nor given up
    owed: Option<Candidate>,     // given up, the updater not yet initialized since
    overtaken: bool)             // a rejection took the hash of the manifest in hand after it was fetched

  function Address(slot: nat): nat { 0x10000 + 0x1E0000 * slot }

  /** partition_at */
  function PartitionAt(address: nat): Option<nat> {
    if address == Address(0) then Some(0) else if address == Address(1) then Some(1) else None
  }

  predicate Named(j: Record, c: Candidate) {
    j.pendingRelease == c.image.release && j.pendingAddress == Address(c.slot) && j.pendingHash == c.image.hash
    && c.image.release > 0
  }

  /** The journal will lead to the candidate's rejection, or already has. */
  predicate Covered(j: Record, c: Candidate)
    requires j.Ok()
  {
    Named(j, c) || (j.pendingRelease == 0 && c.image.hash in j.Ring())
  }

  predicate Tracks(j: Record, candidate: Option<Candidate>, owed: Option<Candidate>) {
    && j.Ok()
    && (candidate.Some? ==> Covered(j, candidate.value))
    && (owed.Some? ==> Covered(j, owed.value))
  }

  /** Neither entry lets an image start again. */
  predicate GivenUp(s: Slot) { s in {Aborted, Invalid} }

  predicate Bootable(s: Slot) { s in {NoEntry, Undefined, New, PendingVerify, Valid} }

  /** The slot the bootloader starts: an image that did not confirm its trial is passed over. */
  function BootChoice(slots: seq<Slot>, selected: nat): (slot: nat)
    requires |slots| == 2 && selected < 2
    ensures slot < 2
  {
    if Bootable(slots[selected]) && slots[selected] != PendingVerify then selected else 1 - selected
  }

  predicate Rising(floors: seq<nat>) { forall i, j :: 0 <= i <= j < |floors| ==> floors[i] <= floors[j] }

  ghost predicate Past(floors: seq<nat>, confirmed: seq<nat>, selections: seq<Selection>, floor: nat) {
    && floors != [] && Rising(floors) && floors[|floors| - 1] == floor
    && (forall i :: 0 <= i < |confirmed| ==> confirmed[i] <= floor)
    && (forall i :: 0 <= i < |selections| ==> selections[i].Good())
  }

  /** Every abort was suppressed before the worker ran again; only the latest may still wait for that. */
  predicate Settled(aborts: seq<Abort>, owed: Option<Candidate>) {
    && (forall i :: 0 <= i < |aborts| ==> aborts[i].Suppressed())
    && (forall i :: 0 <= i < |aborts| && aborts[i].next.None? ==>
      i == |aborts| - 1 && owed == Some(aborts[i].candidate))
    && (owed.Some? ==> aborts != [] && aborts[|aborts| - 1] == Abort(owed.value, None))
  }

  predicate Slots(candidate: Option<Candidate>, owed: Option<Candidate>,
                  slots: seq<Slot>, images: seq<Option<Image>>, selected: nat)
  {
    && |slots| == 2 && |images| == 2 && selected < 2
    && (candidate.Some? ==>
         var c := candidate.value;
         c.slot == selected && slots[c.slot] in {New, PendingVerify} && images[c.slot] == Some(c.image))
    && (owed.Some? ==> candidate.None? && owed.value.slot < 2 && GivenUp(slots[owed.value.slot]))
  }

  class Updater {
    // flash
    var durable: Record  // an absent journal reads as EMPTY
    var slots: seq<Slot>
    var images: seq<Option<Image>>
    var selected: nat
    // storage as the running firmware sees it: written, perhaps not committed
    var visible: Record
    // RAM
    var running: nat
    var journal: Record
    var initialized: bool
    var healthy: bool
    var rejecting: bool   // some task has passed the first check of rw_ota_reject_unhealthy
    var rollingBack: bool // and some task its critical section
    var worker: Worker
    ghost var history: History

    /** What survives a reset. */
    ghost predicate Stored()
      reads this
    {
      && Tracks(durable, history.candidate, history.owed)
      && Past(history.floors, history.confirmed, history.selections, durable.floor)
      && Slots(history.candidate, history.owed, slots, images, selected)
      && Settled(history.aborts, history.owed)
    }

    ghost predicate Inv()
      reads this
    {
      && Stored() && running < 2 && images[running].Some? && Bootable(slots[running])
      && (if initialized then InitializedInv() else BootedInv())
      && WorkerInv()
    }

    ghost predicate BootedInv()
      reads this
    {
      && !healthy && Tracks(visible, history.candidate, history.owed) && visible.floor == durable.floor
      && (history.candidate.Some? ==> visible == durable && history.candidate.value.slot == running)
    }

    ghost predicate InitializedInv()
      reads this
      requires running < |images| && images[running].Some?
    {
      && journal.Ok() && journal.floor == durable.floor && history.owed.None?
      && (history.candidate.Some? ==> journal == durable)
      && (if healthy then images[running].value.release <= journal.floor
          else history.candidate.Some? ==> history.candidate.value.slot == running)
    }

    ghost predicate WorkerInv()
      reads this
      requires running < |images| && images[running].Some? && |images| == 2
    {
      && (worker != Idle ==> initialized && healthy)
      && (healthy && worker != Restarting ==> history.candidate.None?)
      && (worker.Restarting? ==> history.candidate.Some? && history.candidate.value.slot == 1 - running)
      && (worker.Fetched? || worker.Downloading? || worker.Installed? ==> Acceptable(worker.manifest))
      && (worker.Installed? ==> images[1 - running] == Some(worker.manifest))
    }

    /** What fetch_manifest established, and still holds. */
    ghost predicate Acceptable(m: Image)
      reads this
      requires running < |images| && images[running].Some?
    {
      && journal.Ok() && m.release > journal.floor && m.release > images[running].value.release
      && (history.overtaken <==> m.hash in journal.Ring()) && (history.overtaken ==> journal.pendingRelease == 0)
    }

    /** A device as first flashed: no journal, the running slot holds an application, the other anything. */
    constructor (slot: nat, release: nat, hash: Hash, own: Slot, other: Slot, leftover: Option<Image>)
      requires slot < 2 && own in {NoEntry, Undefined, Valid}
      ensures Inv() && history == History([0], [], [], [], None, None, false)
      ensures durable == visible == EMPTY && running == selected == slot && slots[slot] == own
        && slots[1 - slot] == other
      ensures images[slot] == Some(Image(release, hash)) && images[1 - slot] == leftover
      ensures !initialized && !healthy && !rejecting && !rollingBack && worker.Idle?
    {
      durable, visible, journal := EMPTY, EMPTY, EMPTY;
      slots := if slot == 0 then [own, other] else [other, own];
      images := if slot == 0 then [Some(Image(release, hash)), leftover] else [leftover, Some(Image(release, hash))];
      selected, running := slot, slot;
      initialized, healthy, rejecting, rollingBack, worker := false, false, false, false, Idle;
      history := History([0], [], [], [], None, None, false);
    }

    // ----------------------------------------------------------------- storage

    method SetBlob(next: Record, o: Outcome)
      modifies this`visible
      ensures visible == if o == Done then next else old(visible)
    {
      if o == Done {
        visible := next;
      }
    }

    /** Only what was committed survives; a power loss during the commit leaves either. */
    method Commit(o: Outcome)
      modifies this`durable, this`history
      ensures durable == if o.Wrote() then visible else old(durable)
      ensures history == if o.Wrote() then old(history).(floors := old(history).floors + [visible.floor])
        else old(history)
    {
      if o.Wrote() {
        durable := visible;
        history := history.(floors := history.floors + [durable.floor]);
      }
    }

    /** save_journal: RAM follows only when the journal is durable. */
    method SaveJournal(next: Record, save: Save) returns (r: Outcome)
      requires Stored() && Tracks(next, history.candidate, history.owed) && next.floor >= durable.floor
      modifies this`visible, this`durable, this`journal, this`history
      ensures Stored() && r == save.Result()
      ensures history == old(history).(floors := history.floors)
      ensures visible == if save.blob == Done then next else old(visible)
      ensures durable == if save.Wrote() then next else old(durable)
      ensures journal == if r == Done then next else old(journal)
      ensures !save.Wrote() ==> history == old(history)
    {
      SetBlob(next, save.blob);
      if save.blob != Done {
        return save.blob;
      }
      Commit(save.commit);
      FloorRises(old(history.floors), history.confirmed, history.selections, old(durable).floor, next.floor);
      if save.commit == Done {
        journal := next;
      }
      return save.commit;
    }

    // -------------------------------------------------------------- bootloader

    /** esp_ota_set_boot_partition: the entry of the slot becomes new. */
    method SetBoot(slot: nat, ghost candidate: Option<Candidate>, o: Outcome)
      requires Stored() && slot < 2 && history.candidate.None?
      requires history.owed.None? || (candidate.None? && !GivenUp(slots[slot]))
      requires candidate.Some? ==>
        && candidate.value.slot == slot && images[slot] == Some(candidate.value.image)
        && NewSelection(candidate.value).Good() && Covered(durable, candidate.value)
      modifies this`slots, this`selected, this`history
      ensures Stored()
      ensures slots == if o.Wrote() then old(slots)[slot := New] else old(slots)
      ensures selected == if o.Wrote() then slot else old(selected)
      ensures history == if o.Wrote() && candidate.Some? then
          old(history).(candidate := candidate,
            selections := old(history).selections + [old(NewSelection(candidate.value))])
        else old(history)
    {
      if o.Wrote() {
        slots, selected := slots[slot := New], slot;
        if candidate.Some? {
          history := history.(candidate := candidate,
            selections := history.selections + [NewSelection(candidate.value)]);
        }
      }
    }

    ghost function NewSelection(c: Candidate): Selection
      reads this
    {
      Selection(c, durable, if running < |images| && images[running].Some? then images[running].value.release else 0,
                history.overtaken)
    }

    /** esp_ota_mark_app_valid_cancel_rollback on the running slot. */
    method MarkValid(o: Outcome)
      requires Stored() && running < 2 && Bootable(slots[running])
      modifies this`slots, this`history
      ensures Stored()
      ensures slots == if o.Wrote() then old(slots)[running := Valid] else old(slots)
      ensures history == if o.Wrote() && OwnTrial(old(history.candidate)) then old(history).(candidate := None)
        else old(history)
    {
      if o.Wrote() {
        slots := slots[running := Valid];
        if OwnTrial(history.candidate) {
          history := history.(candidate := None);
        }
      }
    }

    /** esp_ota_mark_app_invalid_rollback_and_reboot: on success the device resets. */
    method MarkInvalid(o: Outcome) returns (r: Outcome)
      requires Stored() && running < 2 && Bootable(slots[running])
      modifies this`slots, this`history
      ensures Stored() && r == if o == Failed then Failed else Cut(o.Wrote())
      ensures slots == if o.Wrote() then old(slots)[running := Invalid] else old(slots)
      ensures history == if o.Wrote() && OwnTrial(old(history.candidate)) then
          old(history).(owed := old(history.candidate), candidate := None,
            aborts := old(history.aborts) + [Abort(old(history.candidate).value, None)])
        else old(history)
    {
      if o.Wrote() {
        slots := slots[running := Invalid];
        if OwnTrial(history.candidate) {
          history := history.(owed := history.candidate, candidate := None,
                              aborts := history.aborts + [Abort(history.candidate.value, None)]);
        }
      }
      return if o == Failed then Failed else Cut(o.Wrote());
    }

    /** The running image is the candidate on trial. */
    predicate OwnTrial(candidate: Option<Candidate>)
      reads this`running
    {
      candidate.Some? && candidate.value.slot == running
    }

    /** An image still pending verification is aborted. */
    method AbortUnconfirmed()
      requires Stored()
      modifies this`slots, this`history
      ensures Stored() && slots[selected] != PendingVerify
      ensures slots == if old(slots)[selected] == PendingVerify then old(slots)[selected := Aborted] else old(slots)
      ensures history == old(history).(candidate := history.candidate, owed := history.owed, aborts := history.aborts)
      ensures old(slots)[selected] != PendingVerify ==> history == old(history)
      ensures old(history.candidate).Some? && old(slots)[selected] == PendingVerify ==>
        && history.owed == old(history.candidate) && history.candidate.None?
        && history.aborts == old(history.aborts) + [Abort(old(history.candidate).value, None)]
    {
      if slots[selected] == PendingVerify {
        slots := slots[selected := Aborted];
        if history.candidate.Some? {
          history := history.(owed := history.candidate, candidate := None,
                              aborts := history.aborts + [Abort(history.candidate.value, None)]);
        }
      }
    }

    /**
     * The bootloader after a reset: the other slot is used when the selected one may not run, and a new image
     * gets its one trial. Without a bootable slot nothing runs.
     */
    method Boot() returns (booted: bool)
      requires Stored()
      modifies this
      ensures Stored() && durable == old(durable) && images == old(images)
      ensures history == old(history).(candidate := history.candidate, owed := history.owed, aborts := history.aborts)
      ensures booted ==> Inv() && !initialized && !rejecting && !rollingBack && visible == old(durable)
      ensures running == selected == BootChoice(old(slots), old(selected))
      ensures booted ==> slots[running] == if old(slots)[running] == New then PendingVerify else old(slots)[running]
      ensures booted <== images[running].Some? && Bootable(old(slots)[old(selected)])
        && old(slots)[old(selected)] != PendingVerify
      ensures old(slots)[old(selected)] != PendingVerify ==> history == old(history)
      ensures old(history.candidate).Some? && old(slots)[old(selected)] == PendingVerify ==>
        && history.owed == old(history.candidate) && history.candidate.None?
        && history.aborts == old(history.aborts) + [Abort(old(history.candidate).value, None)]
    {
      hide Tracks, Past, Settled;
      initialized, healthy, rejecting, rollingBack, worker := false, false, false, false, Idle;
      visible := durable;
      AbortUnconfirmed();
      booted := StartImage();
    }

    /** Falls back to the other slot if need be; a new image is now on trial. */
    method StartImage() returns (booted: bool)
      requires Stored() && slots[selected] != PendingVerify
      requires !initialized && !healthy && !rejecting && !rollingBack && worker.Idle? && visible == durable
      modifies this`selected, this`running, this`slots
      ensures Stored() && (booted ==> Inv())
      ensures running == selected == (if Bootable(old(slots)[old(selected)]) then old(selected) else 1 - old(selected))
      ensures booted ==> slots[running] == if old(slots)[running] == New then PendingVerify else old(slots)[running]
      ensures booted <==> Bootable(old(slots)[running]) && images[running].Some?
    {
      hide Tracks, Past, Settled;
      if !Bootable(slots[selected]) {
        selected := 1 - selected;
      }
      running := selected;
      booted := Bootable(slots[running]) && images[running].Some?;
      if booted && slots[running] == New {
        slots := slots[running := PendingVerify];
      }
    }

    // ------------------------------------------------------------------ startup

    predicate BootPending()
      reads this
      requires running < |slots|
    {
      slots[running] == PendingVerify
    }

    /** The journal waits for nothing, or for the image that is running. */
    predicate Settles(j: Record)
      reads this
      requires running < |images| && images[running].Some?
    {
      || j.pendingRelease == 0
      || (j.pendingAddress == Address(running) && j.pendingRelease == images[running].value.release)
    }

    /** The slot the journal names holds an image that was given up. */
    ghost predicate Gave(j: Record)
      reads this`slots
      requires |slots| == 2
    {
      exists slot: nat :: slot < 2 && Address(slot) == j.pendingAddress && GivenUp(slots[slot])
    }

    /**
     * What becomes of a journal that waits for an image that is not running: nothing is pending, and the pending
     * hash is the newest rejection exactly if its image was given up.
     */
    ghost predicate Reconciled(j: Record, next: Record)
      reads this`slots
      requires |slots| == 2 && j.Ok()
    {
      && next.Ok() && next.floor == j.floor && next.pendingRelease == 0
      && next.Ring() == (if !Gave(j) || j.pendingHash in j.Ring() then j.Ring()
                         else (if |j.Ring()| == 4 then j.Ring()[1..] else j.Ring()) + [j.pendingHash])
    }

    /** reconcile_boot */
    method ReconcileBoot(save: Save) returns (r: Outcome)
      requires Inv() && !initialized && journal == visible
      modifies this`visible, this`durable, this`journal, this`history
      ensures Stored() && (!r.Cut? ==> Inv())
      ensures history == old(history).(floors := history.floors)
      ensures r == if Settles(old(journal)) then Done else save.Result()
      ensures Settles(old(journal)) ==>
        visible == old(visible) && durable == old(durable) && journal == old(journal) && history == old(history)
      ensures r == Done ==>
        && journal == visible && (history.candidate.Some? ==> journal == durable)
        && (history.owed.Some? ==> journal.Ok() && history.owed.value.image.hash in journal.Ring())
      ensures old(journal).Ok() && (r == Done && !Settles(old(journal)) ==>
        journal == durable && Reconciled(old(journal), journal))
    {
      ReconcileMeans(this, journal);
      hide Tracks, Past, Covered, Updater.Gave, Updater.Reconciled;
      ReconcileTracks(history.candidate, history.owed, journal, running, slots, images);
      if journal.pendingRelease == 0 {
        return Done;
      }
      if OnTrial(journal, running, images[running].value) {
        return Done;
      }
      var candidate := PartitionAt(journal.pendingAddress);
      var rejected := candidate.Some? && slots[candidate.value] in {Aborted, Invalid};
      var next := if rejected then WithRejected(journal, journal.pendingHash) else Cleared(journal);
      r := SaveJournal(next, save);
    }

    /** rw_ota_init: the worker task exists only after this succeeds. */
    method Init(read: bool, save: Save, taskCreated: bool) returns (r: Outcome)
      requires Inv() && !initialized
      modifies this`visible, this`durable, this`journal, this`history, this`initialized
      ensures Stored() && (!r.Cut? ==> Inv()) && (initialized <==> r == Done)
      ensures r == Done <==> read && taskCreated && (Settles(old(visible)) || save.Result() == Done)
      ensures r == Done && old(history.owed).Some? ==> old(history.owed).value.image.hash in journal.Ring()
      ensures r == Done && Settles(old(visible)) ==> journal == visible == old(visible) && durable == old(durable)
      ensures old(visible).Ok() && (r == Done && !Settles(old(visible)) ==>
        journal == visible == durable && Reconciled(old(visible), journal))
      ensures r == Done && Settles(old(visible)) && old(history.owed).None? ==> history == old(history)
      ensures history.selections == old(history.selections) && history.confirmed == old(history.confirmed)
    {
      VisibleIsOk(this);
      hide Past, Tracks, Covered, Slots, Settled, Record.Ring, Updater.Reconciled;
      if !read {
        return Failed;
      }
      journal := visible;
      r := ReconcileBoot(save);
      if r == Done && !taskCreated {
        r := Failed;
      }
      if r == Done {
        Start();
      }
    }

    /** The updater is initialized: a candidate given up is settled. */
    method Start()
      requires Inv() && !initialized && journal == visible && (history.candidate.Some? ==> journal == durable)
      requires history.owed.Some? ==> journal.Ok() && history.owed.value.image.hash in journal.Ring()
      modifies this`initialized, this`history
      ensures Inv() && initialized && (old(history).owed.None? ==> history == old(history))
      ensures history == old(history).(owed := history.owed, aborts := history.aborts)
    {
      hide Past, Record.Ring;
      initialized := true;
      if history.owed.Some? {
        ghost var last := |history.aborts| - 1;
        history := history.(owed := None, aborts := history.aborts[last := Abort(history.owed.value, Some(journal))]);
      }
    }

    // ------------------------------------------------------------------- health

    /** confirm_bootloader_health; seeds an entry for a slot that has none. */
    method ConfirmBootloader(allowBootstrap: bool, boot: Outcome, mark: Outcome) returns (r: Outcome)
      requires Inv() && !healthy
      modifies this`slots, this`selected, this`history
      ensures Stored() && (!r.Cut? ==> Inv())
      ensures history == old(history).(candidate := history.candidate)
      ensures r == Done ==> history.candidate.None? && slots[running] in {Valid, Undefined}
      ensures r == Done && old(slots)[running] == NoEntry ==> allowBootstrap && old(selected) == running
      ensures old(slots)[running] in {Valid, Undefined} ==> r == Done && slots == old(slots) && history == old(history)
      ensures old(slots)[running] in {New, PendingVerify} ==> r == mark
      ensures old(slots)[running] != NoEntry ==> selected == old(selected)
      ensures slots[1 - running] == old(slots)[1 - running]
    {
      hide Past, Tracks, Settled;
      var state := slots[running];
      if state != NoEntry {
        if state == New || state == PendingVerify {
          MarkValid(mark);
          return mark;
        }
        return if state == Valid || state == Undefined then Done else Failed;
      }
      if !allowBootstrap || selected != running {
        return Failed;
      }
      SetBoot(running, None, boot);
      if boot != Done {
        return boot;
      }
      MarkValid(mark);
      return mark;
    }

    /** rw_ota_confirm_healthy: first the bootloader, then the journal. */
    method ConfirmHealthy(boot: Outcome, mark: Outcome, save: Save) returns (r: Outcome)
      requires Inv()
      modifies this`slots, this`selected, this`visible, this`durable, this`journal, this`history, this`healthy
      ensures Stored() && (!r.Cut? ==> Inv())
      ensures r == Done && initialized ==> healthy && images[running].value.release <= durable.floor
      ensures r == Done && !old(healthy) ==> history.candidate.None? && slots[running] in {Valid, Undefined}
      ensures history.selections == old(history.selections) && history.overtaken == old(history.overtaken)
      ensures initialized && old(healthy) ==> r == Done && history == old(history) && journal == old(journal)
      ensures initialized && !old(healthy) && r == Done ==>
        journal == durable == visible == Confirmed(old(journal), images[running].value.release)
      ensures initialized && mark == Done && save.Result() == Done ==>
        (old(slots)[running] in {Valid, Undefined, New, PendingVerify} ==> r == Done && selected == old(selected))
    {
      if !initialized {
        r := ConfirmBootloader(true, boot, mark);
        return;
      }
      if healthy {
        return Done;
      }
      r := ConfirmBootloader(journal.pendingRelease == 0, boot, mark);
      if r == Done {
        r := SaveConfirmation(save);
      }
    }

    method SaveConfirmation(save: Save) returns (r: Outcome)
      requires Inv() && initialized && !healthy && history.candidate.None?
      modifies this`visible, this`durable, this`journal, this`history, this`healthy
      ensures Stored() && (!r.Cut? ==> Inv()) && r == save.Result()
      ensures r == Done ==> healthy && images[running].value.release <= durable.floor && history.candidate.None?
      ensures r == Done ==> journal == durable == visible == Confirmed(old(journal), images[running].value.release)
      ensures history.selections == old(history.selections) && history.overtaken == old(history.overtaken)
    {
      hide Past;
      var release := images[running].value.release;
      r := SaveJournal(Confirmed(journal, release), save);
      if r == Done {
        healthy := true;
        ConfirmedToo(history.floors, history.confirmed, history.selections, durable.floor, release);
        history := history.(confirmed := history.confirmed + [release]);
      }
    }

    /** The first check of rw_ota_reject_unhealthy, made before the mutex is taken. */
    method StartReject()
      requires Inv()
      modifies this`rejecting
      ensures Inv() && rejecting == (old(rejecting) || slots[running] == PendingVerify)
    {
      if BootPending() {
        rejecting := true;
      }
    }

    /** The pending image is the one in the worker's hands. */
    predicate TakesHash()
      reads this
    {
      && initialized && (worker.Fetched? || worker.Downloading? || worker.Installed?)
      && journal.pendingRelease != 0 && journal.pendingHash == worker.manifest.hash
    }

    /**
     * The critical section of rw_ota_reject_unhealthy: the pending image's hash goes to the ring. `more` tells
     * whether other tasks are on the same way.
     */
    method SuppressPending(save: Save, more: bool) returns (r: Outcome)
      requires Inv() && rejecting
      modifies this`visible, this`durable, this`journal, this`history, this`rejecting, this`rollingBack
      ensures Stored() && (!r.Cut? ==> Inv()) && r == if initialized then save.Result() else Done
      ensures rejecting == more && rollingBack
      ensures history == old(history).(floors := history.floors,
                                       overtaken := old(history.overtaken) || (r == Done && old(TakesHash())))
      ensures initialized && r == Done ==>
        journal == durable == visible
          == if old(journal).pendingRelease != 0 then WithRejected(old(journal), old(journal).pendingHash)
            else old(journal)
      ensures initialized && r == Done && old(journal).pendingRelease != 0 ==>
        old(journal).pendingHash in journal.Ring() && journal.pendingRelease == 0
    {
      hide Past, Covered, Tracks, Settled, WithRejected;
      rejecting, rollingBack := more, true;
      if !initialized {
        return Done;
      }
      r := SaveRejection(save);
    }

    method SaveRejection(save: Save) returns (r: Outcome)
      requires Inv() && initialized
      modifies this`visible, this`durable, this`journal, this`history
      ensures Stored() && (!r.Cut? ==> Inv()) && r == save.Result()
      ensures history == old(history).(floors := history.floors,
                                       overtaken := old(history.overtaken) || (r == Done && old(TakesHash())))
      ensures r == Done ==>
        journal == durable == visible
          == if old(journal).pendingRelease != 0 then WithRejected(old(journal), old(journal).pendingHash)
            else old(journal)
      ensures r == Done && old(journal).pendingRelease != 0 ==>
        old(journal).pendingHash in journal.Ring() && journal.pendingRelease == 0
    {
      hide Past, Covered, Tracks, Settled, WithRejected, Rejected, Record.Ring, Record.Ok, Bootable;
      ghost var taken := TakesHash();
      RejectionClears(journal, journal.pendingHash);
      RejectionTracks(journal, history.candidate, journal == durable);
      if worker.Fetched? || worker.Downloading? || worker.Installed? {
        RejectionTakes(journal, worker.manifest.hash, history.overtaken);
      }
      var next := if journal.pendingRelease != 0 then WithRejected(journal, journal.pendingHash) else journal;
      r := SaveJournal(next, save);
      history := history.(overtaken := history.overtaken || (r == Done && taken));
    }

    /** Then the slot is given up, whether or not the suppression was saved. */
    method RollBack(o: Outcome, more: bool) returns (r: Outcome)
      requires Inv() && rollingBack
      modifies this`slots, this`history, this`rollingBack
      ensures Stored() && (!r.Cut? ==> Inv()) && r == if o == Failed then Failed else Cut(o.Wrote())
      ensures rollingBack == more && slots == if o.Wrote() then old(slots)[running := Invalid] else old(slots)
      ensures history == if o.Wrote() && OwnTrial(old(history.candidate)) then
          old(history).(owed := old(history.candidate), candidate := None,
            aborts := old(history.aborts) + [Abort(old(history.candidate).value, None)])
        else old(history)
    {
      hide Past, Covered, Tracks;
      rollingBack := more;
      r := MarkInvalid(o);
    }

    // ------------------------------------------------------------------- worker

    /** fetch_manifest for a manifest whose signature and identity verified against the running release. */
    method FetchManifest(m: Image)
      requires Inv() && healthy && worker.Idle?
      modifies this`worker, this`history
      ensures Inv()
      ensures worker.Fetched? <==>
        && m.release > images[running].value.release && m.release > journal.floor && m.hash !in journal.Ring()
      ensures worker == if worker.Fetched? then Fetched(m) else Idle
      ensures history == if worker.Fetched? then old(history).(overtaken := false) else old(history)
    {
      if m.release <= images[running].value.release {
        return; // rw_ota_manifest_verify
      }
      RejectedMeans(journal, m.hash);
      if m.release <= journal.floor || Rejected(journal, m.hash) {
        return;
      }
      history := history.(overtaken := false);
      worker := Fetched(m);
    }

    /** download_image up to esp_ota_begin: the inactive slot is erased. */
    method BeginDownload(begun: bool, cut: bool) returns (r: Outcome)
      requires Inv() && worker.Fetched?
      modifies this`images, this`worker
      ensures Stored() && (!r.Cut? ==> Inv()) && r == if !begun then Failed else if cut then Cut(true) else Done
      ensures r == Failed ==> images == old(images) && worker.Idle?
      ensures r != Failed ==> images == old(images)[1 - running := None] && worker == Downloading(old(worker).manifest)
    {
      if !begun {
        worker := Idle;
        return Failed;
      }
      images := images[1 - running := None];
      worker := Downloading(worker.manifest);
      r := if cut then Cut(true) else Done;
    }

    /** The rest of download_image: the slot holds the manifest's image, is found wrong, or is left unfinished. */
    method FinishDownload(complete: bool, validated: bool, cut: bool) returns (r: Outcome)
      requires Inv() && worker.Downloading?
      modifies this`images, this`worker
      ensures Stored() && (!r.Cut? ==> Inv()) && r == if !complete then Failed else if cut then Cut(true) else Done
      ensures var m := old(worker).manifest;
        worker == if !complete then Idle else if validated then Installed(m) else Refused(m)
      ensures images == if worker.Installed? then old(images)[1 - running := Some(worker.manifest)] else old(images)
    {
      if !complete {
        worker := Idle;
        return Failed;
      }
      if validated {
        images := images[1 - running := Some(worker.manifest)];
        worker := Installed(worker.manifest);
      } else {
        worker := Refused(worker.manifest);
      }
      r := if cut then Cut(true) else Done;
    }

    /** A downloaded image that is not what the manifest says is never fetched again. */
    method RejectDownload(save: Save) returns (r: Outcome)
      requires Inv() && worker.Refused?
      modifies this`visible, this`durable, this`journal, this`history, this`worker
      ensures Stored() && (!r.Cut? ==> Inv()) && r == save.Result() && worker.Idle?
      ensures history == old(history).(floors := history.floors)
      ensures r == Done ==> old(worker).manifest.hash in durable.Ring() && journal == durable == visible
      ensures r == Done ==> old(journal).Ok() && durable == WithRejected(old(journal), old(worker).manifest.hash)
    {
      hide Past, Settled, Slots, WithRejected, Rejected, Bootable;
      RejectionClears(journal, worker.manifest.hash);
      r := SaveJournal(WithRejected(journal, worker.manifest.hash), save);
      worker := Idle;
    }

    /** The critical section of restart_candidate: journal first, then boot selection. */
    method RestartCandidate(save: Save, boot: Outcome) returns (r: Outcome)
      requires Inv() && worker.Installed?
      modifies this`slots, this`selected, this`visible, this`durable, this`journal, this`history, this`worker
      ensures Stored() && (!r.Cut? ==> Inv()) && r == if save.Result() == Done then boot else save.Result()
      ensures worker == if r == Done then Restarting else Idle
      ensures save.Result() == Done ==>
        journal == durable == visible
          == Prepared(old(journal), old(worker).manifest.release, Address(1 - running), old(worker).manifest.hash)
      ensures save.Result() == Done && boot.Wrote() ==>
        && slots == old(slots)[1 - running := New] && selected == 1 - running
        && history.candidate == Some(Candidate(1 - running, old(worker).manifest))
        && history.selections == old(history.selections) + [NewSelection(Candidate(1 - running, old(worker).manifest))]
      ensures !(save.Result() == Done && boot.Wrote()) ==>
        slots == old(slots) && selected == old(selected) && history == old(history).(floors := history.floors)
      ensures history == old(history).(floors := history.floors, candidate := history.candidate,
        selections := history.selections)
      ensures forall i :: 0 <= i < |history.confirmed| ==> history.confirmed[i] < old(worker).manifest.release
    {
      FloorCovers(history.floors, history.confirmed, history.selections, durable.floor);
      hide Past, Settled, Tracks, Slots, Covered, Named;
      var m := worker.manifest;
      r := SavePending(m, save);
      if r == Done {
        r := SelectCandidate(m, boot);
      }
    }

    method SavePending(m: Image, save: Save) returns (r: Outcome)
      requires Inv() && worker == Installed(m)
      modifies this`visible, this`durable, this`journal, this`history, this`worker
      ensures Stored() && r == save.Result() && (r == Failed ==> Inv())
      ensures worker == if r == Done then Installed(m) else Idle
      ensures history == old(history).(floors := history.floors)
      ensures r == Done ==>
        && journal == durable == visible == Prepared(old(journal), m.release, Address(1 - running), m.hash)
        && Ready(m)
    {
      hide Past, Settled, Rejected;
      PrepareTracks(journal, 1 - running, m);
      r := SaveJournal(Prepared(journal, m.release, Address(1 - running), m.hash), save);
      if r != Done {
        worker := Idle;
      }
    }

    /** All but what the worker knows of its manifest. */
    ghost predicate IdleInv()
      reads this
    {
      && Stored() && running < 2 && images[running].Some? && Bootable(slots[running]) && initialized && healthy
      && InitializedInv() && history.candidate.None?
    }

    /** Everything boot selection rests on. */
    ghost predicate Ready(m: Image)
      reads this
    {
      && IdleInv() && journal == durable && Named(journal, Candidate(1 - running, m)) && images[1 - running] == Some(m)
      && m.release > journal.floor && m.release > images[running].value.release
      && (history.overtaken <==> m.hash in journal.Ring())
    }

    method SelectCandidate(m: Image, boot: Outcome) returns (r: Outcome)
      requires Ready(m)
      modifies this`slots, this`selected, this`history, this`worker
      ensures Stored() && r == boot && (!r.Cut? ==> Inv()) && worker == if r == Done then Restarting else Idle
      ensures !boot.Wrote() ==> slots == old(slots) && selected == old(selected) && history == old(history)
      ensures boot.Wrote() ==>
        && slots == old(slots)[1 - running := New] && selected == 1 - running
        && history == old(history).(
             candidate := Some(Candidate(1 - running, m)),
             selections := old(history).selections + [NewSelection(Candidate(1 - running, m))])
    {
      hide Past, Settled, Tracks, Covered, Named, Record.Ring, Selection.Good;
      SelectSlot(m, boot);
      worker := if boot == Done then Restarting else Idle;
      return boot;
    }

    method SelectSlot(m: Image, boot: Outcome)
      requires Ready(m)
      modifies this`slots, this`selected, this`history
      ensures Stored()
      ensures !boot.Wrote() ==> slots == old(slots) && selected == old(selected) && history == old(history)
      ensures boot.Wrote() ==>
        && slots == old(slots)[1 - running := New] && selected == 1 - running
        && history == old(history).(
             candidate := Some(Candidate(1 - running, m)),
             selections := old(history).selections + [NewSelection(Candidate(1 - running, m))])
    {
      ReadyMeans(this, m);
      hide Past, Settled, Tracks, Slots, Covered, Named, Record.Ring, Record.Ok, Selection.Good, Bootable;
      hide Updater.Ready, Updater.IdleInv, Updater.Stored;
      SetBoot(1 - running, Some(Candidate(1 - running, m)), boot);
    }

    // --------------------------------------------------------------------- runs

    /** One section of some task, or a power loss. */
    method Section() returns (r: Outcome)
      requires Inv()
      modifies this
      ensures Stored() && (!r.Cut? ==> Inv())
    {
      hide Past, Tracks, Covered, Slots, Settled;
      r := Done;
      var first: Outcome, second: Outcome, blob: Outcome, commit: Outcome, a, b, c := *, *, *, *, *, *, *;
      var save := Save(blob, commit);
      if {
        case true => r := Cut(false);
        case !initialized => r := Init(a, save, b);
        case true => r := ConfirmHealthy(first, second, save);
        case true => StartReject();
        case rejecting => r := SuppressPending(save, a);
        case rollingBack => r := RollBack(first, a);
        case healthy && worker.Idle? =>
          var release: nat, hash: Hash := *, *;
          FetchManifest(Image(release, hash));
        case worker.Fetched? => r := BeginDownload(a, b);
        case worker.Downloading? => r := FinishDownload(a, b, c);
        case worker.Refused? => r := RejectDownload(save);
        case worker.Installed? => r := RestartCandidate(save, first);
        case worker.Restarting? => r := Cut(false);
      }
    }

    /**
     * Every run: the durable floor only rises, every boot selection was a good one, and every candidate given up,
     * by the bootloader or by itself, was in the ring when the worker next started.
     */
    method Run(steps: nat)
      requires Inv()
      modifies this
      ensures Rising(history.floors) && forall i :: 0 <= i < |history.selections| ==> history.selections[i].Good()
      ensures forall i :: 0 <= i < |history.aborts| ==> history.aborts[i].Suppressed()
    {
      var booted := true;
      for i := 0 to steps
        invariant Stored() && (booted ==> Inv())
      {
        if booted {
          var r := Section();
          if r.Cut? {
            booted := Boot();
          }
        }
      }
    }
  }

  lemma ReadyMeans(u: Updater, m: Image)
    requires u.Ready(m)
    ensures u.Stored() && u.running < 2 && |u.images| == 2 && u.images[1 - u.running] == Some(m)
    ensures u.history.candidate.None? && u.history.owed.None?
    ensures var c := Candidate(1 - u.running, m); u.NewSelection(c).Good() && u.durable.Ok() && Covered(u.durable, c)
  {}

  // ------------------------------------------------------------ the one exception

  const SAVED := Save(Done, Done)

  /** What is known of the updater between two steps of the run below. */
  ghost predicate At(u: Updater, running: nat, image: Image, floor: nat)
    reads u
  {
    && u.Inv() && u.running == running && running < 2 && |u.images| == 2 && u.images[running] == Some(image)
    && u.initialized && u.worker.Idle? && !u.rollingBack && u.journal.Ok() && u.journal.floor == floor
    && u.journal.failedCount == 0
  }

  /** Fetches and installs the image of a newer release. */
  method Install(u: Updater, running: nat, image: Image, floor: nat, m: Image)
    requires At(u, running, image, floor) && u.healthy && m.release > image.release && m.release > floor
    modifies u`worker, u`history, u`images
    ensures u.Inv() && u.worker == Installed(m) && !u.history.overtaken
    ensures |u.images| == 2 && u.images[running] == Some(image) && u.images[1 - running] == Some(m)
  {
    hide Past, Settled, Tracks, Covered, Slots, Named, Updater.Stored, Updater.Inv;
    u.FetchManifest(m);
    assert u.worker.Fetched?;
    assert |u.images| == 2;
    var r := u.BeginDownload(true, false);
    r := u.FinishDownload(true, true, false);
  }

  lemma InvFacts(u: Updater)
    requires u.Inv()
    ensures |u.images| == |u.slots| == 2 && u.running < 2 && u.selected < 2 && u.images[u.running].Some?
    ensures u.worker.Installed? ==> u.images[1 - u.running] == Some(u.worker.manifest)
    ensures if u.initialized then u.journal.Ok() && u.journal.floor == u.durable.floor else !u.healthy && u.worker.Idle?
  {}

  /** A device as flashed, confirmed healthy. */
  method Flashed(slot: nat, hash: Hash) returns (u: Updater)
    requires slot < 2
    ensures fresh(u) && At(u, slot, Image(5, hash), 5) && u.healthy
  {
    hide Past, Settled, Tracks, Covered, Slots, Named, Updater.Stored, Updater.Inv;
    u := new Updater(slot, 5, hash, Valid, NoEntry, None);
    InvFacts(u);
    var r := u.Init(true, SAVED, true);
    r := u.ConfirmHealthy(Done, Done, SAVED);
    InvFacts(u);
  }

  /** Restarts into an installed image, which is then on trial. */
  method RestartOnTrial(u: Updater, running: nat, m: Image)
    requires u.Inv() && running < 2 && u.running == running && u.worker == Installed(m) && m.release > 0
    requires u.journal.Ok() && u.journal.failedCount == 0
    modifies u
    ensures u.Inv() && !u.initialized && !u.healthy && u.worker.Idle? && !u.rollingBack && u.running == 1 - running
    ensures |u.images| == |u.slots| == 2 && u.images[1 - running] == Some(m) && u.slots[1 - running] == PendingVerify
    ensures u.visible.Ok() && u.visible.floor == old(u.journal).floor && u.visible.failedCount == 0
      && u.Settles(u.visible)
  {
    hide Past, Settled, Tracks, Covered, Slots, Named, Updater.Stored, Updater.Inv;
    InvFacts(u);
    var r := u.RestartCandidate(SAVED, Done);
    var booted := u.Boot();
    InvFacts(u);
  }

  /** Updated to release 6, on trial, and a task has found that the trial image should be rejected. */
  method TrialToReject(slot: nat, hash: Hash, trial: Hash) returns (u: Updater)
    requires slot < 2
    ensures fresh(u) && At(u, 1 - slot, Image(6, trial), 5) && !u.healthy && u.rejecting
    ensures |u.slots| == 2 && u.slots[1 - slot] == PendingVerify
  {
    hide Past, Settled, Tracks, Covered, Slots, Named, Updater.Stored, Updater.Inv;
    u := Flashed(slot, hash);
    Install(u, slot, Image(5, hash), 5, Image(6, trial));
    RestartOnTrial(u, slot, Image(6, trial));
    var r := u.Init(true, SAVED, true);
    u.StartReject();
    InvFacts(u);
  }

  /**
   * The rejection is not completed until the trial image has been confirmed healthy and a restart into the next
   * release has failed. It then takes the hash of that release from under the worker's second attempt, which
   * selects it all the same.
   */
  method LateRejectionOvertaken(slot: nat, hash: Hash, trial: Hash, next: Hash) returns (u: Updater)
    requires slot < 2
    ensures u.Inv() && u.history.selections != []
    ensures var s := u.history.selections[|u.history.selections| - 1];
      s.candidate == Candidate(slot, Image(7, next)) && s.overtaken && s.journal.Ok() && next in s.journal.Ring()
  {
    hide Past, Settled, Tracks, Covered, Slots, Named, Updater.Stored, Updater.Inv;
    u := TrialToReject(slot, hash, trial);
    FailedRestart(u, 1 - slot, trial, next);
    Install(u, 1 - slot, Image(6, trial), 6, Image(7, next));
    var r := u.SuppressPending(SAVED, false);
    r := u.RestartCandidate(SAVED, Done);
    assert u.history.overtaken;
  }

  /** The trial image is confirmed after all; the first restart into release 7 fails once its journal is durable. */
  method FailedRestart(u: Updater, running: nat, trial: Hash, next: Hash)
    requires At(u, running, Image(6, trial), 5) && !u.healthy && u.rejecting
    requires |u.slots| == 2 && u.slots[running] == PendingVerify
    modifies u
    ensures At(u, running, Image(6, trial), 6) && u.healthy && u.rejecting
    ensures u.journal.pendingRelease == 7 && u.journal.pendingHash == next
  {
    hide Past, Settled, Tracks, Covered, Slots, Named, Updater.Stored, Updater.Inv;
    var r := u.ConfirmHealthy(Done, Done, SAVED);
    InvFacts(u);
    Install(u, running, Image(6, trial), 6, Image(7, next));
    r := u.RestartCandidate(SAVED, Failed);
    InvFacts(u);
  }

  /** A rejection puts a hash in the ring exactly when it is the pending one. */
  lemma RejectionTakes(j: Record, hash: Hash, overtaken: bool)
    requires j.Ok() && (overtaken <==> hash in j.Ring()) && (overtaken ==> j.pendingRelease == 0)
    ensures var next := if j.pendingRelease != 0 then WithRejected(j, j.pendingHash) else j;
      && next.Ok() && next.floor == j.floor && next.pendingRelease == 0
      && (hash in next.Ring() <==> overtaken || (j.pendingRelease != 0 && j.pendingHash == hash))
  {
    RejectAppends(j, j.pendingHash);
    RejectionClears(j, j.pendingHash);
    hide WithRejected, Record.Ring;
  }

  /** Rejecting the pending image keeps a tracked candidate covered. */
  lemma RejectionTracks(j: Record, candidate: Option<Candidate>, tracked: bool)
    requires j.Ok() && (candidate.Some? ==> tracked) && (tracked ==> Tracks(j, candidate, None))
    ensures var next := if j.pendingRelease != 0 then WithRejected(j, j.pendingHash) else j;
      next.Ok() && next.floor == j.floor && Tracks(next, candidate, None)
  {
    RejectAppends(j, j.pendingHash);
  }

  lemma PrepareTracks(j: Record, slot: nat, m: Image)
    requires j.Ok() && m.release > 0
    ensures var p := Prepared(j, m.release, Address(slot), m.hash);
      p.Ok() && p.floor == j.floor && p.Ring() == j.Ring() && Tracks(p, None, None) && Named(p, Candidate(slot, m))
  {}

  lemma FloorCovers(floors: seq<nat>, confirmed: seq<nat>, selections: seq<Selection>, floor: nat)
    requires Past(floors, confirmed, selections, floor)
    ensures forall i :: 0 <= i < |confirmed| ==> confirmed[i] <= floor
  {}

  lemma ConfirmedToo(floors: seq<nat>, confirmed: seq<nat>, selections: seq<Selection>, floor: nat, release: nat)
    requires Past(floors, confirmed, selections, floor) && release <= floor
    ensures Past(floors, confirmed + [release], selections, floor)
  {}

  /** The running image is the one the journal is waiting for. */
  predicate OnTrial(j: Record, running: nat, image: Image) {
    Address(running) == j.pendingAddress && image.release == j.pendingRelease
  }

  lemma Addresses()
    ensures forall slot: nat :: slot < 2 ==> PartitionAt(Address(slot)) == Some(slot)
  {}

  lemma VisibleIsOk(u: Updater)
    requires u.Inv() && !u.initialized
    ensures u.visible.Ok()
  {}

  /** The two journals reconcile_boot may write. */
  lemma ReconcileMeans(u: Updater, j: Record)
    requires j.Ok() && |u.slots| == 2
    ensures var c := PartitionAt(j.pendingAddress);
      if c.Some? && u.slots[c.value] in {Aborted, Invalid} then u.Reconciled(j, WithRejected(j, j.pendingHash))
      else u.Reconciled(j, Cleared(j))
  {
    RejectAppends(j, j.pendingHash);
    RejectionClears(j, j.pendingHash);
    Addresses();
  }

  lemma RejectionClears(j: Record, hash: Hash)
    requires j.Ok()
    ensures var r := WithRejected(j, hash);
      r.Ok() && r.floor == j.floor && r.pendingRelease == 0 && hash in r.Ring()
    ensures var c := Cleared(j); c.Ok() && c.floor == j.floor && c.pendingRelease == 0
  {
    RejectAppends(j, hash);
  }

  /** What reconcile_boot leaves behind, for a journal that tracks the candidate and the aborted image. */
  lemma ReconcileTracks(candidate: Option<Candidate>, owed: Option<Candidate>, j: Record,
                        running: nat, slots: seq<Slot>, images: seq<Option<Image>>)
    requires Tracks(j, candidate, owed) && running < 2 && |slots| == |images| == 2 && images[running].Some?
    requires Bootable(slots[running])
    requires candidate.Some? ==> candidate.value.slot == running && images[running] == Some(candidate.value.image)
    requires owed.Some? ==> owed.value.slot < 2 && GivenUp(slots[owed.value.slot])
    ensures j.Ok() && Cleared(j).Ok() && Cleared(j).floor == j.floor && WithRejected(j, j.pendingHash).floor == j.floor
    ensures j.pendingRelease == 0 && owed.Some? ==> owed.value.image.hash in j.Ring()
    ensures j.pendingRelease != 0 && OnTrial(j, running, images[running].value) ==> owed.None?
    ensures j.pendingRelease != 0 && !OnTrial(j, running, images[running].value) ==>
      var rejected := var c := PartitionAt(j.pendingAddress); c.Some? && slots[c.value] in {Aborted, Invalid};
      && candidate.None?
      && (if rejected then
            Tracks(WithRejected(j, j.pendingHash), candidate, owed)
            && (owed.Some? ==> owed.value.image.hash in WithRejected(j, j.pendingHash).Ring())
          else owed.None? && Tracks(Cleared(j), candidate, owed))
  {
    RejectionClears(j, j.pendingHash);
    Addresses();
    hide WithRejected, Rejected, Cleared, Record.Ring, Address, PartitionAt;
  }

  lemma FloorRises(floors: seq<nat>, confirmed: seq<nat>, selections: seq<Selection>, floor: nat, next: nat)
    requires Past(floors, confirmed, selections, floor) && next >= floor
    ensures Past(floors + [next], confirmed, selections, next)
  {}
}
