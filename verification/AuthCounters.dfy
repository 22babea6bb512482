/**
 * Command verification (firmware/main/auth.c) over the key slots and replay counters of firmware/main/config.c.
 * Storage follows the ESP-IDF contract: a write is visible at once, only committed state survives a reset.
 */
module AuthCounters {
  import opened Options
  import J = CanonicalJson
  import opened CanonicalOrder
  import opened Signing
  import opened CanonicalAgreement
  import opened Envelopes

  type Key = seq<nat>

  /** How a storage call ends. A power cut loses all that is not committed; a commit it cuts off may be kept. */
  datatype Outcome = Done | Failed | Cut(kept: bool)

  datatype Verdict =
    Released | BadJson | Version | Device | UnknownKey | Signature | Stale | Replay | UnknownAct | Internal | PowerCut

  const SLOTS := 4
  const TS_WINDOW := 90
  const DEVICE_ID_LEN := 16

  /**
   * The entries of the configuration namespace that matter here. `terms` belongs to the model: it counts, per
   * slot, how often a write or erase changed the key or started the counter over.
   */
  datatype Store = Store(keys: seq<Option<Key>>, counters: seq<Option<nat>>, terms: seq<nat>) {
    predicate Ok() { |keys| == SLOTS && |counters| == SLOTS && |terms| == SLOTS }

    /** The high-water mark: an absent entry reads as 0. */
    function Mark(slot: nat): nat
      requires Ok() && slot < SLOTS
    {
      if counters[slot].Some? then counters[slot].value else 0
    }

    function NextTerm(slot: nat): Store
      requires Ok() && slot < SLOTS
    {
      this.(terms := terms[slot := terms[slot] + 1])
    }

    /** The slot's key written or erased. */
    function WithKey(slot: nat, key: Option<Key>): Store
      requires Ok() && slot < SLOTS
    {
      if keys[slot] == key then this else NextTerm(slot).(keys := keys[slot := key])
    }

    /** The slot's counter started over or erased. */
    function WithCounter(slot: nat, counter: Option<nat>): Store
      requires Ok() && slot < SLOTS
    {
      if counters[slot] == counter then this else NextTerm(slot).(counters := counters[slot := counter])
    }

    /** The slot's counter moved on. */
    function Raised(slot: nat, counter: nat): Store
      requires Ok() && slot < SLOTS
    {
      this.(counters := counters[slot := Some(counter)])
    }
  }

  const BLANK := Store([None, None, None, None], [None, None, None, None], [0, 0, 0, 0])

  /** What is visible after a write. */
  function Applied(s: Store, next: Store, o: Outcome): Store { if o == Done then next else s }

  /** What is durable after a commit. */
  function Kept(durable: Store, visible: Store, o: Outcome): Store {
    if o == Done || o == Cut(true) then visible else durable
  }

  /** The first of two calls that did not succeed, or the second. */
  function Both(first: Outcome, second: Outcome): Outcome { if first == Done then second else first }

  /** What a removal leaves visible once both erases have returned. */
  function Removed(s: Store, slot: nat, keyErase: Outcome, counterErase: Outcome): Store
    requires s.Ok() && slot < SLOTS
  {
    var t := Applied(s, s.WithKey(slot, None), keyErase);
    Applied(t, t.WithCounter(slot, None), counterErase)
  }

  /** What an addition leaves visible. */
  function Added(s: Store, slot: nat, key: Key, keyWrite: Outcome, counterWrite: Outcome): Store
    requires s.Ok() && slot < SLOTS
  {
    var t := Applied(s, s.WithKey(slot, Some(key)), keyWrite);
    if keyWrite == Done then Applied(t, t.WithCounter(slot, Some(0)), counterWrite) else t
  }

  /** A verified command handed to the actuators. */
  datatype Release = Release(slot: nat, term: nat, counter: nat, key: Key)

  /** How the storage calls of one verification end, and whether memory is granted at each allocation. */
  datatype Luck = Luck(memory: nat -> bool, keyRead: bool, counterRead: bool, write: Outcome, commit: Outcome) {
    ghost predicate Good() { (forall k :: memory(k)) && keyRead && counterRead && write == commit == Done }
  }

  /** rw_config_kid_index: p1 to p4. */
  function KidIndex(kid: seq<nat>): int {
    if |kid| == 2 && kid[0] == 112 && 49 <= kid[1] <= 52 then kid[1] - 49 else -1
  }

  /** The kids of the four slots, and no others, name a slot. */
  lemma KidNamesSlot(kid: seq<nat>, slot: nat)
    requires slot < SLOTS
    ensures KidIndex(kid) == slot <==> kid == [112, [49, 50, 51, 52][slot]]
  {
    assert |kid| == 2 ==> kid == [kid[0], kid[1]];
  }

  /** No mark is below a counter released under the slot in its present term. */
  ghost predicate Marked(s: Store, released: seq<Release>) {
    && s.Ok()
    && forall i :: 0 <= i < |released| ==>
         && released[i].slot < SLOTS && released[i].term <= s.terms[released[i].slot]
         && (released[i].term == s.terms[released[i].slot] ==> released[i].counter <= s.Mark(released[i].slot))
  }

  /** Only this slot was touched. */
  predicate OthersKept(a: Store, b: Store, slot: nat) {
    a.Ok() && b.Ok() && forall i :: 0 <= i < SLOTS && i != slot ==>
      a.keys[i] == b.keys[i] && a.counters[i] == b.counters[i] && a.terms[i] == b.terms[i]
  }

  predicate SameTerm(a: Release, b: Release) { a.slot == b.slot && a.term == b.term }

  /** Strictly increasing per slot and term. */
  ghost predicate Increasing(released: seq<Release>) {
    forall i, j :: 0 <= i < j < |released| && SameTerm(released[i], released[j]) ==>
      released[i].counter < released[j].counter
  }

  class Controller {
    var visible: Store
    var durable: Store
    const deviceId: seq<nat>
    ghost var released: seq<Release>

    ghost predicate Inv()
      reads this
    {
      && Marked(visible, released) && Stored()
    }

    /** What survives a reset. */
    ghost predicate Stored()
      reads this
    {
      Marked(durable, released) && Increasing(released)
    }

    constructor (id: seq<nat>)
      ensures Inv() && visible == durable == BLANK && deviceId == id && released == []
    {
      visible, durable, deviceId, released := BLANK, BLANK, id, [];
    }

    // ----------------------------------------------------------------- storage

    /** A write or erase of one entry. */
    method Write(next: Store, o: Outcome)
      requires Inv() && Marked(next, released)
      modifies this`visible
      ensures Inv() && visible == Applied(old(visible), next, o)
    {
      if o == Done {
        visible := next;
      }
    }

    method Commit(o: Outcome)
      requires Inv()
      modifies this`durable
      ensures Inv() && durable == Kept(old(durable), visible, o)
    {
      if o == Done || o == Cut(true) {
        durable := visible;
      }
    }

    /** After a reset only what was committed is there, its terms included. */
    method Boot()
      requires Stored()
      modifies this`visible
      ensures Inv() && visible == durable
    {
      visible := durable;
    }

    // ---------------------------------------------------------------- config.c

    /** rw_config_get_ctr: an absent counter is 0, a failed read is not. */
    method GetCounter(slot: nat, read: bool) returns (mark: Option<nat>)
      requires Inv() && slot < SLOTS
      ensures mark == if read then Some(visible.Mark(slot)) else None
    {
      return if read then Some(visible.Mark(slot)) else None;
    }

    /** rw_config_set_ctr: durable on success. */
    method SetCounter(slot: nat, counter: nat, write: Outcome, commit: Outcome) returns (r: Outcome)
      requires Inv() && slot < SLOTS && counter >= visible.Mark(slot)
      modifies this`visible, this`durable
      ensures Inv() && r == Both(write, commit)
      ensures visible == Applied(old(visible), old(visible).Raised(slot, counter), write)
      ensures durable == if write == Done then Kept(old(durable), visible, commit) else old(durable)
    {
      Write(visible.Raised(slot, counter), write);
      if write != Done {
        return write;
      }
      Commit(commit);
      return commit;
    }

    /** The slot search of rw_config_add_key, every slot read succeeding. */
    method FindSlot(key: Key) returns (known: bool, slot: nat)
      requires visible.Ok()
      ensures known == (Some(key) in visible.keys) && slot <= SLOTS && (known ==> slot < SLOTS)
      ensures slot < SLOTS ==> visible.keys[slot] == if known then Some(key) else None
      ensures !known ==> forall i :: 0 <= i < SLOTS && i < slot ==> visible.keys[i].Some?
    {
      slot := SLOTS;
      for i := 0 to SLOTS
        invariant Some(key) !in visible.keys[..i] && slot <= SLOTS
        invariant slot < SLOTS ==> slot < i && visible.keys[slot].None?
        invariant forall k :: 0 <= k < i && k < slot ==> visible.keys[k].Some?
      {
        if visible.keys[i] == Some(key) {
          return true, i;
        }
        if visible.keys[i].None? && slot == SLOTS {
          slot := i;
        }
      }
      assert visible.keys[..SLOTS] == visible.keys;
      known := false;
    }

    /** rw_config_add_key: a known key keeps its slot and its counter, a new one starts from 0. */
    method AddKey(key: Key, keyWrite: Outcome, counterWrite: Outcome, commit: Outcome)
        returns (r: Outcome, slot: nat, kid: Option<seq<nat>>)
      requires Inv()
      modifies this`visible, this`durable
      ensures Inv() && OthersKept(old(visible), visible, slot)
      ensures Zero(key) || Some(key) in old(visible).keys || None !in old(visible).keys ==>
        visible == old(visible) && durable == old(durable) && r == if Zero(key) || slot == SLOTS then Failed else Done
      ensures !Zero(key) && Some(key) in old(visible).keys ==> slot < SLOTS && visible.keys[slot] == Some(key)
      ensures !Zero(key) && Some(key) !in old(visible).keys && None in old(visible).keys ==>
        && slot < SLOTS && old(visible).keys[slot].None? && (forall i :: 0 <= i < slot ==> old(visible).keys[i].Some?)
        && r == Both(Both(keyWrite, counterWrite), commit)
        && visible == Added(old(visible), slot, key, keyWrite, counterWrite)
        && durable == if Both(keyWrite, counterWrite) == Done then Kept(old(durable), visible, commit) else old(durable)
      ensures slot < SLOTS ==>
        (visible.terms[slot] != old(visible).terms[slot] <==> visible.keys[slot] != old(visible).keys[slot])
      ensures kid.Some? <==> r == Done
      ensures kid.Some? ==> slot < SLOTS && visible.keys[slot] == Some(key) && KidIndex(kid.value) == slot
    {
      hide Marked;
      StoreIsOk(visible, released);
      slot := SLOTS;
      if forall i :: 0 <= i < |key| ==> key[i] == 0 {
        return Failed, slot, None;
      }
      var known;
      known, slot := FindSlot(key);
      if known || slot == SLOTS {
        return if known then Done else Failed, slot, if known then Some([112, 49 + slot]) else None;
      }
      NewTerm(visible, released, slot, Some(key), Some(0));
      Write(visible.WithKey(slot, Some(key)), keyWrite);
      if keyWrite != Done {
        return keyWrite, slot, None;
      }
      StoreIsOk(visible, released);
      NewTerm(visible, released, slot, Some(key), Some(0));
      Write(visible.WithCounter(slot, Some(0)), counterWrite);
      if counterWrite != Done {
        return counterWrite, slot, None;
      }
      Commit(commit);
      return commit, slot, if commit == Done then Some([112, 49 + slot % 4]) else None;
    }

    /** rw_config_remove_slot: both entries are erased and the result committed, whatever failed on the way. */
    method RemoveSlot(slot: nat, keyErase: Outcome, counterErase: Outcome, commit: Outcome) returns (r: Outcome)
      requires Inv() && slot < SLOTS
      modifies this`visible, this`durable
      ensures Inv() && OthersKept(old(visible), visible, slot)
      ensures keyErase.Cut? ==> r == keyErase && visible == old(visible) && durable == old(durable)
      ensures !keyErase.Cut? ==> visible == Removed(old(visible), slot, keyErase, counterErase)
      ensures !keyErase.Cut? && counterErase.Cut? ==> r == counterErase && durable == old(durable)
      ensures !keyErase.Cut? && !counterErase.Cut? ==>
        && durable == Kept(old(durable), visible, commit)
        && r == if !commit.Cut? && (keyErase == Failed || counterErase == Failed) then Failed else commit
      ensures visible.terms[slot] != old(visible).terms[slot] <==>
        visible.keys[slot] != old(visible).keys[slot] || visible.counters[slot] != old(visible).counters[slot]
      ensures old(visible).keys[slot].Some? && old(visible).counters[slot].Some? ==>
        (visible.keys[slot].Some? && visible.counters[slot].None? <==> keyErase == Failed && counterErase == Done)
    {
      hide Marked;
      StoreIsOk(visible, released);
      NewTerm(visible, released, slot, None, None);
      if keyErase.Cut? {
        return keyErase;
      }
      Write(visible.WithKey(slot, None), keyErase);
      if counterErase.Cut? {
        return counterErase;
      }
      StoreIsOk(visible, released);
      NewTerm(visible, released, slot, None, None);
      Write(visible.WithCounter(slot, None), counterErase);
      Commit(commit);
      return if !commit.Cut? && (keyErase == Failed || counterErase == Failed) then Failed else commit;
    }

    // ------------------------------------------------------------------ auth.c

    /** What a command must be to be released; `verifies` stands for decoding the signature and for Ed25519. */
    ghost predicate Acceptable(json: J.Json, now: int, clockValid: bool, verifies: (Key, seq<nat>, seq<nat>) -> bool,
                               enabled: seq<nat> -> bool)
      reads this
      requires visible.Ok()
    {
      Received(json).Some? && var e := Received(json).value; var c, slot := e.command, KidIndex(e.kid);
      && e.version == 1 && |c.dev| == 16 && c.dev == deviceId
      && 0 <= slot < 4 && visible.keys[slot].Some? && verifies(visible.keys[slot].value, SigningText(c), e.sig)
      && (clockValid ==> -90 <= now - c.ts <= 90)
      && c.ctr > visible.Mark(slot) && enabled(c.act)
    }

    /** rw_auth_verify, in the order of its checks, on the parsed text (null if it is no JSON). */
    method Verify(json: J.Json, now: int, clockValid: bool, verifies: (Key, seq<nat>, seq<nat>) -> bool,
                  enabled: seq<nat> -> bool, luck: Luck) returns (r: Verdict)
      requires Inv() && WellFormed(CString, json)
      modifies this`visible, this`durable, this`released
      ensures Inv() && (r == PowerCut ==> luck.write.Cut? || luck.commit.Cut?)
      ensures r != Released ==> released == old(released)
      ensures r == BadJson <==> Received(json).None?
      ensures r == Released ==>
        old(Acceptable(json, now, clockValid, verifies, enabled)) && luck.write == luck.commit == Done
      ensures old(Acceptable(json, now, clockValid, verifies, enabled)) && luck.Good() ==> r == Released
      ensures r == Released ==>
        var e := Received(json).value; var c, slot := e.command, KidIndex(e.kid);
        && released == old(released) + [Release(slot, visible.terms[slot], c.ctr, old(visible).keys[slot].value)]
        && durable == visible == old(visible).Raised(slot, c.ctr)
    {
      hide Received, Marked, Increasing, SigningText;
      StoreIsOk(visible, released);
      var received := Received(json);
      if received.None? {
        return BadJson;
      }
      var e := received.value;
      var c := e.command;
      ArgumentsAreWellFormed(json);
      if e.version != 1 {
        return Version;
      }
      if |c.dev| != DEVICE_ID_LEN || |deviceId| != DEVICE_ID_LEN || c.dev != deviceId {
        return Device;
      }
      var slot := KidIndex(e.kid);
      if slot < 0 || !luck.keyRead || visible.keys[slot].None? {
        return UnknownKey;
      }
      var key := visible.keys[slot].value;
      var text := SigningString(c.dev, c.id, c.ts, c.ctr, c.act, Some(c.args), luck.memory);
      if text.None? {
        return Internal;
      }
      if !verifies(key, text.value, e.sig) {
        return Signature;
      }
      if clockValid && (now - c.ts > TS_WINDOW || c.ts - now > TS_WINDOW) {
        return Stale;
      }
      r := Admit(slot, key, c.ctr, enabled(c.act), luck);
    }

    /** Steps 5 and 6: the counter, then the act. */
    method Admit(slot: nat, key: Key, counter: nat, enabled: bool, luck: Luck) returns (r: Verdict)
      requires Inv() && slot < SLOTS
      modifies this`visible, this`durable, this`released
      ensures Inv() && r in {Released, Replay, Internal, PowerCut, UnknownAct}
      ensures r == PowerCut ==> luck.write.Cut? || luck.commit.Cut?
      ensures r == Released <==>
        luck.counterRead && counter > old(visible).Mark(slot) && luck.write == luck.commit == Done && enabled
      ensures r != Released ==> released == old(released)
      ensures r == Released ==>
        && released == old(released) + [Release(slot, visible.terms[slot], counter, key)]
        && durable == visible == old(visible).Raised(slot, counter)
    {
      hide Marked, Increasing;
      StoreIsOk(visible, released);
      r := Advance(slot, counter, luck);
      if r != Released {
        return;
      }
      if !enabled {
        return UnknownAct;
      }
      StoreIsOk(visible, released);
      ReleaseKeeps(visible, released, Release(slot, visible.terms[slot], counter, key));
      released := released + [Release(slot, visible.terms[slot], counter, key)];
    }

    /** Step 5: the counter must exceed the mark, and is durable before anything runs. */
    method Advance(slot: nat, counter: nat, luck: Luck) returns (r: Verdict)
      requires Inv() && slot < SLOTS
      modifies this`visible, this`durable
      ensures Inv() && r in {Released, Replay, Internal, PowerCut}
      ensures r == Replay <==> luck.counterRead && counter <= old(visible).Mark(slot)
      ensures r == Replay ==> visible == old(visible) && durable == old(durable)
      ensures r == PowerCut ==> luck.write.Cut? || luck.commit.Cut?
      ensures r == Released <==>
        luck.counterRead && counter > old(visible).Mark(slot) && luck.write == luck.commit == Done
      ensures r == Released ==> visible == durable == old(visible).Raised(slot, counter)
      ensures r == Released ==>
        forall i :: 0 <= i < |released| && released[i].slot == slot && released[i].term == visible.terms[slot] ==>
          released[i].counter < counter
    {
      var last := GetCounter(slot, luck.counterRead);
      if last.None? {
        return Internal;
      }
      if counter <= last.value {
        return Replay;
      }
      var saved := SetCounter(slot, counter, luck.write, luck.commit);
      return match saved case Done => Released case Failed => Internal case Cut(_) => PowerCut;
    }

    /** Any sequence of commands, pairings, removals and power cuts. */
    method Run(steps: nat, verifies: (Key, seq<nat>, seq<nat>) -> bool, enabled: seq<nat> -> bool)
      requires Inv()
      modifies this
      ensures Increasing(released) && Marked(durable, released)
    {
      hide Marked, Increasing;
      for i := 0 to steps
        invariant Inv()
      {
        var first: Outcome, second: Outcome, last: Outcome := *, *, *;
        var r := last;
        if {
          case true =>
            r := Cut(false);
          case true =>
            var json: J.Json, now: int, clockValid, keyRead, counterRead := *, *, *, *, *;
            var memory: nat -> bool := *;
            if WellFormed(CString, json) {
              var verdict := Verify(json, now, clockValid, verifies, enabled,
                Luck(memory, keyRead, counterRead, first, last));
              r := if verdict == PowerCut then Cut(false) else Done;
            }
          case true =>
            var key: Key, slot := *, 0;
            var kid;
            r, slot, kid := AddKey(key, first, second, last);
          case true =>
            var slot: nat :| slot < SLOTS;
            r := RemoveSlot(slot, first, second, last);
        }
        if r.Cut? {
          Boot();
        }
      }
    }
  }

  predicate Zero(key: Key) { forall i :: 0 <= i < |key| ==> key[i] == 0 }

  lemma {:induction false} LookedUp(ms: J.Members, k: seq<nat>)
    requires WellFormedMembers(CString, ms) && k in Keys(ms)
    ensures WellFormed(CString, Lookup(k, ms))
  {
    if ms.key != k {
      LookedUp(ms.next, k);
    }
  }

  lemma ArgumentsAreWellFormed(json: J.Json)
    requires WellFormed(CString, json) && Received(json).Some?
    ensures WellFormed(CString, Received(json).value.command.args)
  {
    LookedUp(json.members, ARGS);
  }

  lemma StoreIsOk(s: Store, released: seq<Release>)
    requires Marked(s, released)
    ensures s.Ok()
  {}

  /** A change of the key, or a counter that starts over, begins a term in which nothing was released yet. */
  lemma NewTerm(s: Store, released: seq<Release>, slot: nat, key: Option<Key>, counter: Option<nat>)
    requires Marked(s, released) && slot < SLOTS
    ensures Marked(s.WithKey(slot, key), released) && Marked(s.WithCounter(slot, counter), released)
  {}

  lemma ReleaseKeeps(s: Store, released: seq<Release>, r: Release)
    requires Marked(s, released) && Increasing(released)
    requires r.slot < SLOTS && r.term == s.terms[r.slot] && r.counter <= s.Mark(r.slot)
    requires forall i :: 0 <= i < |released| && released[i].slot == r.slot && released[i].term == r.term ==>
      released[i].counter < r.counter
    ensures Marked(s, released + [r]) && Increasing(released + [r])
  {}

  /**
   * A removal whose key erase fails and whose counter erase succeeds leaves the key registered without its counter:
   * the command just released is released once more.
   */
  method FailedRemovalReopens(key: Key, json: J.Json, now: int, verifies: (Key, seq<nat>, seq<nat>) -> bool,
                              enabled: seq<nat> -> bool) returns (c: Controller)
    requires WellFormed(CString, json) && Received(json).Some? && !Zero(key)
    requires var e := Received(json).value;
      && e.version == 1 && |e.command.dev| == DEVICE_ID_LEN && e.kid == [112, 49]
      && verifies(key, SigningText(e.command), e.sig) && enabled(e.command.act)
    ensures |c.released| == 2 && c.released[0].slot == c.released[1].slot == 0
    ensures c.released[0].key == c.released[1].key == key && c.released[0].counter == c.released[1].counter
    ensures c.released[0].term != c.released[1].term
  {
    hide Received, SigningText, Increasing, Marked;
    ReceivedCounter(json);
    c := Registered(key, Received(json).value.command.dev);
    var luck := Luck(_ => true, true, true, Done, Done);
    var first := c.Verify(json, now, false, verifies, enabled, luck);
    assert first == Released;
    ghost var before := c.visible;
    StoreIsOk(before, c.released);
    assert c.released[0].term == before.terms[0] && before.counters[0].Some?;
    var r := c.RemoveSlot(0, Failed, Done, Done);
    StoreIsOk(c.visible, c.released);
    assert c.visible.counters[0].None? && c.visible.terms[0] != before.terms[0];
    var second := c.Verify(json, now, false, verifies, enabled, luck);
  }

  /** A controller whose slot p1 holds the key. */
  method Registered(key: Key, id: seq<nat>) returns (c: Controller)
    requires !Zero(key)
    ensures fresh(c) && c.Inv() && c.deviceId == id && c.released == []
    ensures c.visible.Ok() && c.visible.keys[0] == Some(key) && c.visible.counters[0] == Some(0)
  {
    hide Increasing, Marked;
    c := new Controller(id);
    assert BLANK.keys[0].None?;
    var r, slot, kid := c.AddKey(key, Done, Done, Done);
    StoreIsOk(c.visible, c.released);
  }

  lemma ReceivedCounter(json: J.Json)
    requires Received(json).Some?
    ensures Received(json).value.command.ctr >= 1
  {}
}
