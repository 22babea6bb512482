/**
 * Session fencing in firmware/main/relay_client.c. The Wi-Fi task, the WebSocket task and the relay task share
 * the link state; every section under its mutex, and every step between two sections, may interleave.
 */
module RelaySession {
  import opened Options
  import A = RelayAssembly

  const QUEUE_DEPTH := 4

  /** rw_link_state_t; session and generation counters are unbounded. */
  datatype Link = Link(
    netUp: bool, connected: bool, ready: bool, failed: bool,
    networkGeneration: nat, sessionNetworkGeneration: nat, session: nat)
  {
    /** session_valid */
    predicate Valid(id: nat) {
      id != 0 && session == id && netUp && sessionNetworkGeneration == networkGeneration && connected && !failed
    }

    /** Nothing can make this session valid any more. */
    predicate Ended(id: nat) {
      session != id || failed || !netUp || sessionNetworkGeneration != networkGeneration
    }

    /** The session that is valid now, or 0. */
    function Current(): nat { if Valid(session) then session else 0 }

    predicate Ok() {
      && sessionNetworkGeneration <= networkGeneration
      && (connected ==> netUp && !failed)
    }
  }

  datatype Message = Message(session: nat, text: seq<A.Byte>)

  /** A command released to the actuators at moment `at`; its first chunk was received at moment `first`. */
  datatype Dispatched = Dispatched(message: Message, first: nat, at: nat)

  /** What the event task is in the middle of. */
  datatype Callback = Idle | Resetting | Receiving(session: nat, event: A.Event)

  function Failure(l: Link): Link { l.(connected := false, ready := false, failed := true) }

  function NetworkChange(l: Link, up: bool): Link {
    var next := l.(netUp := up, networkGeneration := l.networkGeneration + if l.netUp != up then 1 else 0);
    if up then next else Failure(next)
  }

  function Begun(l: Link, session: nat): Link {
    Link(l.netUp, false, false, !l.netUp, l.networkGeneration, l.networkGeneration, session)
  }

  /** A callback registered with `session` still counts. */
  predicate Heeds(l: Link, session: nat) {
    session != 0 && l.session == session && l.netUp && l.sessionNetworkGeneration == l.networkGeneration && !l.failed
  }

  function Event(l: Link, session: nat, id: WsEvent): Link {
    if !Heeds(l, session) then l
    else match id
      case Connected => l.(connected := true)
      case CloseFrame => if l.connected then Failure(l) else l
      case Data => l
      case Other => l
      case _ => Failure(l)
  }

  lemma EventProgress(l: Link, next: nat, session: nat, id: WsEvent)
    requires l.Ok() && l.session <= next
    ensures var m := Event(l, session, id); m.Ok() && m.session == l.session && Progress(l, next, m, next)
  {}

  lemma NetworkProgress(l: Link, next: nat, up: bool)
    requires l.Ok() && l.session <= next
    ensures var m := NetworkChange(l, up); m.Ok() && m.session == l.session && Progress(l, next, m, next)
  {}

  /** Once a session stops being valid it stays so. */
  ghost predicate NoReturn(trail: seq<nat>) {
    forall i, j, k :: 0 <= i <= j <= k < |trail| && trail[i] != 0 && trail[i] == trail[k] ==> trail[j] == trail[i]
  }

  /** What is known of past sessions: all but the one valid now have ended. */
  ghost predicate Remembers(trail: seq<nat>, link: Link, next: nat) {
    forall i :: 0 <= i < |trail| && trail[i] != 0 ==>
      trail[i] <= next && (trail[i] == link.Current() || link.Ended(trail[i]))
  }

  /** One step of the link: sessions that ended stay ended, and a valid one either stays valid or ends. */
  predicate Progress(a: Link, nextA: nat, b: Link, nextB: nat) {
    && nextA <= nextB
    && (b.session == a.session || b.session == 0 || b.session > nextA)
    && (b.session == a.session && a.Ended(a.session) ==> b.Ended(a.session))
    && (a.Valid(a.session) ==> b.Valid(a.session) || b.Ended(a.session))
  }

  lemma StepKeeps(trail: seq<nat>, a: Link, nextA: nat, b: Link, nextB: nat)
    requires NoReturn(trail) && Remembers(trail, a, nextA) && Progress(a, nextA, b, nextB)
    requires a.session <= nextA && b.session <= nextB
    requires trail != [] && trail[|trail| - 1] == a.Current()
    ensures NoReturn(trail + [b.Current()]) && Remembers(trail + [b.Current()], b, nextB)
  {
    var t := trail + [b.Current()];
    var now := b.Current();
    forall i | 0 <= i < |trail| && trail[i] != 0 ensures trail[i] == now || b.Ended(trail[i]) {
      if b.session == trail[i] {
        assert trail[i] <= nextA;
      }
    }
    forall i, j | 0 <= i <= j < |trail| && trail[i] != 0 && trail[i] == now ensures trail[j] == now {
      assert a.Current() == now ==> trail[|trail| - 1] == now;
    }
  }

  lemma ValidThroughout(trail: seq<nat>, from: nat, to: nat)
    requires NoReturn(trail) && from <= to < |trail| && trail[from] != 0 && trail[from] == trail[to]
    ensures forall k :: from <= k <= to ==> trail[k] == trail[from]
  {}

  /** The session was the valid one at that moment. */
  predicate KnownAt(session: nat, moment: nat, trail: seq<nat>) {
    session != 0 && moment < |trail| && trail[moment] == session
  }

  /** From its first chunk to its release the session of the message was the valid one at every moment. */
  ghost predicate Fenced(d: Dispatched, trail: seq<nat>) {
    d.message.session != 0 && d.first <= d.at < |trail| && forall k :: d.first <= k <= d.at ==>
      trail[k] == d.message.session
  }

  /** The first chunk of each queued message was received at a moment when its session was valid. */
  ghost predicate Received(queue: seq<Message>, firsts: seq<nat>, trail: seq<nat>) {
    |queue| == |firsts| && forall i :: 0 <= i < |queue| ==> KnownAt(queue[i].session, firsts[i], trail)
  }

  ghost predicate AllFenced(dispatched: seq<Dispatched>, trail: seq<nat>) {
    forall i :: 0 <= i < |dispatched| ==> Fenced(dispatched[i], trail)
  }

  lemma TrailGrows(queue: seq<Message>, firsts: seq<nat>, dispatched: seq<Dispatched>, trail: seq<nat>, now: nat)
    requires Received(queue, firsts, trail) && AllFenced(dispatched, trail)
    ensures Received(queue, firsts, trail + [now]) && AllFenced(dispatched, trail + [now])
  {
    var t := trail + [now];
    assert forall k :: 0 <= k < |trail| ==> t[k] == trail[k];
    forall i | 0 <= i < |dispatched| ensures Fenced(dispatched[i], t) {
      assert Fenced(dispatched[i], trail);
    }
  }

  /** The first chunk of a message. */
  predicate Starts(e: A.Event) { e.op == A.TEXT && e.offset == 0 && !e.Malformed() }

  /** Without such a chunk nothing is assembled that was not before. */
  lemma OnlyStartsActivate(a: A.Asm, e: A.Event, granted: bool)
    requires !a.active && !Starts(e)
    ensures var (b, out) := A.Step(a, e, granted); !b.active && out == []
  {}

  datatype WsEvent = Connected | Disconnected | Error | Closed | CloseFrame | Data | Other

  class Relay {
    var link: Link
    var nextSession: nat           // relay task only
    var client: bool               // a client exists, and with it an event task
    var callback: Callback
    var asm: A.Asm
    var queue: seq<Message>
    var handling: Option<Message>  // the relay task is verifying this message
    ghost var seen: nat            // when the chunk in the event task's hands was received
    ghost var asmFirst: nat        // when the first chunk of the message being assembled was
    ghost var firsts: seq<nat>     // and those of the queued messages
    ghost var handlingFirst: nat
    ghost var trail: seq<nat>      // the valid session, or 0, after every change of the link
    ghost var dispatched: seq<Dispatched>

    ghost predicate Inv()
      reads this
    {
      && link.Ok() && link.session in {0, nextSession}
      && trail != [] && trail[|trail| - 1] == link.Current()
      && NoReturn(trail) && Remembers(trail, link, nextSession)
      && Messages()
    }

    /** Whatever is under way began while its session was valid; only the session begun last has an assembly. */
    ghost predicate Messages()
      reads this
    {
      && |queue| <= QUEUE_DEPTH && Received(queue, firsts, trail) && AllFenced(dispatched, trail)
      && (callback.Receiving? ==>
        callback.session == nextSession && KnownAt(nextSession, seen, trail) && callback.event.Sound())
      && (asm.active ==> KnownAt(nextSession, asmFirst, trail))
      && (!client ==> callback.Idle? && !asm.active)
      && (handling.Some? ==> KnownAt(handling.value.session, handlingFirst, trail))
    }

    constructor ()
      ensures Inv() && !client && dispatched == []
    {
      link := Link(false, false, false, false, 0, 0, 0);
      nextSession, client, callback, queue, handling := 0, false, Idle, [], None;
      asm := A.Asm([], false, false, 0, 0, 0, false);
      seen, asmFirst, firsts, handlingFirst, trail, dispatched := 0, 0, [], 0, [0], [];
    }

    /** Records the link after a section that changed it. */
    ghost method Observe(was: Link, nextWas: nat)
      requires was.Ok() && link.Ok() && was.session <= nextWas && link.session in {0, nextSession}
      requires trail != [] && trail[|trail| - 1] == was.Current() && NoReturn(trail) && Remembers(trail, was, nextWas)
      requires Messages() && Progress(was, nextWas, link, nextSession)
      modifies this`trail
      ensures Inv() && trail == old(trail) + [link.Current()]
    {
      hide NoReturn, Remembers, Received, AllFenced, Progress;
      StepKeeps(trail, was, nextWas, link, nextSession);
      TrailGrows(queue, firsts, dispatched, trail, link.Current());
      trail := trail + [link.Current()];
    }

    // ------------------------------------------------------------- link state

    method LinkFailed()
      requires Inv()
      modifies this`link, this`trail
      ensures Inv() && link == Failure(old(link))
    {
      ghost var was := link;
      link := link.(connected := false, ready := false, failed := true);
      Observe(was, nextSession);
    }

    /** rw_relay_notify_network */
    method NotifyNetwork(up: bool)
      requires Inv()
      modifies this`link, this`trail
      ensures Inv() && link == NetworkChange(old(link), up)
      ensures !up ==> forall id :: link.Ended(id)
    {
      hide NoReturn, Remembers, Received, AllFenced, Progress;
      ghost var was := link;
      NetworkProgress(link, nextSession, up);
      if link.netUp != up {
        link := link.(networkGeneration := link.networkGeneration + 1);
      }
      link := link.(netUp := up);
      if !up {
        link := link.(connected := false, ready := false, failed := true);
      }
      Observe(was, nextSession);
    }

    /** begin_session: the relay task is between two clients. */
    method BeginSession() returns (session: nat)
      requires Inv() && !client
      modifies this`link, this`nextSession, this`trail
      ensures Inv() && session == nextSession == old(nextSession) + 1 && link == Begun(old(link), session)
    {
      ghost var was := link;
      nextSession := nextSession + 1;
      link := Link(link.netUp, false, false, !link.netUp, link.networkGeneration, link.networkGeneration, nextSession);
      Observe(was, nextSession - 1);
      return nextSession;
    }

    /** The client is created and its event task starts. */
    method StartClient()
      requires Inv() && !client
      modifies this`client
      ensures Inv() && client
    {
      client := true;
    }

    method DrainQueue()
      requires Inv()
      modifies this`queue, this`firsts
      ensures Inv() && queue == []
    {
      queue, firsts := [], [];
    }

    /** The first section of teardown_client: callbacks no longer count. */
    method FenceSession()
      requires Inv()
      modifies this`link, this`trail
      ensures Inv() && link == Failure(old(link)).(session := 0)
      ensures forall id :: id != 0 ==> link.Ended(id)
    {
      ghost var was := link;
      link := link.(session := 0, connected := false, ready := false, failed := true);
      Observe(was, nextSession);
    }

    /** The rest of teardown_client: once the event task has returned from its callback, nothing of it is left. */
    method StopClient()
      requires Inv() && link.session == 0 && callback.Idle?
      modifies this`client, this`queue, this`firsts, this`asm
      ensures Inv() && !client && queue == [] && asm == A.Reset(old(asm))
    {
      client := false;
      queue, firsts := [], [];
      asm := A.Reset(asm);
    }

    // ------------------------------------------------------- WebSocket event task

    /** The critical section of ws_event_handler, for callbacks of any session, stale ones included. */
    method OnWsEvent(session: nat, id: WsEvent) returns (current: bool)
      requires Inv() && client && callback.Idle?
      modifies this`link, this`trail, this`callback
      ensures Inv() && current == Heeds(old(link), session) && link == Event(old(link), session, id)
      ensures callback == if current && id.Connected? then Resetting else Idle
    {
      hide NoReturn, Remembers, Received, AllFenced, Progress;
      ghost var was := link;
      EventProgress(link, nextSession, session, id);
      current := session != 0 && link.session == session && link.netUp
        && link.sessionNetworkGeneration == link.networkGeneration && !link.failed;
      if current {
        match id
        case Connected => link := link.(connected := true);
        case Disconnected => link := link.(connected := false, ready := false, failed := true);
        case Error => link := link.(connected := false, ready := false, failed := true);
        case Closed => link := link.(connected := false, ready := false, failed := true);
        case CloseFrame =>
          if link.connected {
            link := link.(connected := false, ready := false, failed := true);
          }
        case Data =>
        case Other =>
      }
      Observe(was, nextSession);
      if current && id.Connected? {
        callback := Resetting;
      }
    }

    /** asm_reset on a new connection */
    method FinishReset()
      requires Inv() && callback.Resetting?
      modifies this`callback, this`asm
      ensures Inv() && callback.Idle? && asm == A.Reset(old(asm))
    {
      callback, asm := Idle, A.Reset(asm);
    }

    /** The second half for a data event: assembly begins only on a session that is still valid. */
    method ReceiveData(session: nat, e: A.Event)
      requires Inv() && client && callback.Idle? && e.Sound()
      modifies this`callback, this`seen
      ensures Inv() && callback == if link.Valid(session) then Receiving(session, e) else Idle
    {
      if link.Valid(session) {
        callback, seen := Receiving(session, e), |trail| - 1;
      }
    }

    /**
     * assemble_text and queue_message; the link may have changed meanwhile. A message completed by this chunk goes
     * to the queue under the chunk's session, which was valid when its first chunk was received.
     */
    method FinishData(granted: bool, stored: bool)
      requires Inv() && callback.Receiving?
      modifies this`callback, this`asm, this`asmFirst, this`queue, this`firsts
      ensures Inv() && callback.Idle?
      ensures var (b, out) := A.Step(old(asm), old(callback).event, granted);
        && asm == b
        && queue == old(queue)
             + if out == [] || !stored || |old(queue)| == 4 then []
               else [Message(old(callback).session, out[0])]
    {
      hide A.Step, NoReturn, Remembers, AllFenced;
      var e := callback.event;
      var (b, out) := A.Step(asm, e, granted);
      if !asm.active && !Starts(e) {
        OnlyStartsActivate(asm, e, granted);
      }
      if Starts(e) {
        asmFirst := seen;
      }
      if out != [] && stored && |queue| < QUEUE_DEPTH {
        queue, firsts := queue + [Message(callback.session, out[0])], firsts + [asmFirst];
      }
      callback, asm := Idle, b;
    }

    // ------------------------------------------------------------------ relay task

    /** ready after the hello */
    method MarkReady(session: nat)
      requires Inv()
      modifies this`link, this`trail
      ensures Inv()
      ensures link == old(link).(ready := old(link).ready
                                          || (old(link).session == session && old(link).netUp && !old(link).failed))
    {
      ghost var was := link;
      if link.session == session && link.netUp && !link.failed {
        link := link.(ready := true);
      }
      Observe(was, nextSession);
    }

    /** One turn of the relay loop up to verification. */
    method TakeMessage(session: nat)
      requires Inv() && handling.None?
      modifies this`queue, this`firsts, this`handling, this`handlingFirst
      ensures Inv() && queue == if link.Valid(session) && old(queue) != [] then old(queue)[1..] else old(queue)
      ensures handling ==
        if !link.Valid(session) || old(queue) == [] || old(queue)[0].session != session then None
        else Some(old(queue)[0])
    {
      if link.Valid(session) && queue != [] {
        var m := queue[0];
        if m.session == session && link.Valid(m.session) {
          handling, handlingFirst := Some(m), firsts[0];
        }
        queue, firsts := queue[1..], firsts[1..];
      }
    }

    /** The end of handle_envelope: a verified command is dispatched only on a session that is still valid. */
    method FinishEnvelope(verified: bool)
      requires Inv() && handling.Some?
      modifies this`handling, this`dispatched
      ensures Inv() && handling.None?
      ensures dispatched == old(dispatched) +
        if verified && link.Valid(old(handling).value.session)
        then [Dispatched(old(handling).value, handlingFirst, |trail| - 1)] else []
    {
      hide Remembers, Received;
      if verified && link.Valid(handling.value.session) {
        ValidThroughout(trail, handlingFirst, |trail| - 1);
        dispatched := dispatched + [Dispatched(handling.value, handlingFirst, |trail| - 1)];
      }
      handling := None;
    }

    /**
     * Any interleaving: every released command was assembled from chunks whose first was received on the session
     * that was valid ever since.
     */
    method Run(steps: nat)
      requires Inv()
      modifies this
      ensures NoReturn(trail) && AllFenced(dispatched, trail)
    {
      hide NoReturn, Remembers, Received, AllFenced;
      for i := 0 to steps
        invariant Inv()
      {
        var session: nat, a, b := *, *, *;
        if {
          case true => NotifyNetwork(b);
          case true => LinkFailed();
          case client && callback.Idle? =>
            var id := *;
            var current := OnWsEvent(session, id);
          case callback.Resetting? => FinishReset();
          case client && callback.Idle? =>
            var op: nat, fin, offset: int, length: int, dataLen: int := *, *, *, *, *;
            var data: Option<seq<A.Byte>> := *;
            var e := A.Event(op, fin, offset, length, dataLen, data);
            if e.Sound() {
              ReceiveData(session, e);
            }
          case callback.Receiving? => FinishData(a, b);
          case handling.None? && !client =>
            var started := BeginSession();
          case handling.None? && !client => StartClient();
          case handling.None? => DrainQueue();
          case handling.None? => FenceSession();
          case handling.None? && link.session == 0 && callback.Idle? => StopClient();
          case true => MarkReady(session);
          case handling.None? => TakeMessage(session);
          case handling.Some? => FinishEnvelope(b);
        }
      }
    }
  }

  // ---------------------------------------------------------------- progress

  /** A session begun while the network is up is valid once its connection is there, and until something fails. */
  lemma SessionComesUp(l: Link, session: nat, id: WsEvent)
    requires session != 0
    ensures !Begun(l, session).Valid(session)
    ensures var up := Event(Begun(l, session), session, Connected);
      && (up.Valid(session) <==> l.netUp)
      && (l.netUp ==> (Event(up, session, id).Valid(session) <==> id in {Connected, Data, Other}))
  {}

  /** What the queue holds after the session's messages so far. */
  function Queued(session: nat, out: seq<seq<A.Byte>>): seq<Message> {
    seq(|out|, i requires 0 <= i < |out| => Message(session, out[i]))
  }

  lemma OneChunkMore(a: A.Asm, es: seq<A.Event>, i: nat, message: seq<A.Byte>, session: nat)
    requires i < |es| && A.Fold(a, es).1 == [message]
    ensures var (b, out) := A.Fold(a, es[..i]); var (c, more) := A.Step(b, es[i], true);
      && A.Fold(a, es[..i + 1]) == (c, out + more) && |out + more| <= 1
      && Queued(session, out + more) == Queued(session, out) + (if more == [] then [] else [Message(session, more[0])])
  {
    hide A.Step;
    assert es[..i + 1][..i] == es[..i] && es[..i + 1] + es[i + 1..] == es;
    A.FoldConcat(a, es[..i + 1], es[i + 1..]);
  }

  lemma {:induction false} ChunksAreSound(frames: seq<A.Frame>, chunks: seq<seq<A.Event>>)
    requires A.AllChunks(frames, chunks)
    ensures forall e :: e in A.Flat(chunks) ==> e.Sound()
    decreases |chunks|
  {
    if chunks != [] {
      var n := |chunks| - 1;
      assert A.Chunks(frames[n], chunks[n]);
      assert A.AllChunks(frames[..n], chunks[..n]);
      ChunksAreSound(frames[..n], chunks[..n]);
    }
  }

  /** A client is started and its connection comes up. */
  method Connect(r: Relay) returns (session: nat)
    requires r.Inv() && !r.client && r.handling.None? && r.link.netUp
    modifies r
    ensures r.Inv() && r.client && r.callback.Idle? && r.handling.None? && r.queue == []
    ensures session == old(r.nextSession) + 1 && r.link.Valid(session) && r.dispatched == old(r.dispatched)
  {
    hide NoReturn, Remembers, Received, AllFenced;
    r.DrainQueue();
    session := r.BeginSession();
    r.StartClient();
    SessionComesUp(old(r.link), session, Connected);
    var current := r.OnWsEvent(session, Connected);
    r.FinishReset();
  }

  /** Every chunk of a message is received on a session that stays valid. */
  method ReceiveAll(r: Relay, session: nat, es: seq<A.Event>, ghost message: seq<A.Byte>)
    requires r.Inv() && r.client && r.callback.Idle? && r.queue == [] && r.link.Valid(session)
    requires A.Fold(r.asm, es).1 == [message] && forall e :: e in es ==> e.Sound()
    modifies r`callback, r`seen, r`asm, r`asmFirst, r`queue, r`firsts
    ensures r.Inv() && r.queue == [Message(session, message)]
  {
    hide A.Step, A.Fold, Relay.Inv, Link.Valid;
    ghost var a := r.asm;
    NoChunks(a, es);
    for i := 0 to |es|
      invariant r.Inv() && r.callback.Idle?
      invariant r.asm == A.Fold(a, es[..i]).0 && r.queue == Queued(session, A.Fold(a, es[..i]).1)
    {
      OneChunkMore(a, es, i, message, session);
      r.ReceiveData(session, es[i]);
      r.FinishData(true, true);
    }
    assert es[..|es|] == es;
  }

  lemma NoChunks(a: A.Asm, es: seq<A.Event>)
    ensures A.Fold(a, es[..0]) == (a, [])
  {}

  /**
   * A message that arrives in any chunks on a session begun while the network is up is queued, handled and, when
   * it verifies, dispatched, if nothing fails on the way.
   */
  method CommandGetsThrough(r: Relay, frames: seq<A.Frame>, chunks: seq<seq<A.Event>>)
    requires r.Inv() && !r.client && r.handling.None? && r.link.netUp
    requires A.IsMessage(frames) && A.AllChunks(frames, chunks) && !A.AnyLate(frames, chunks)
    requires 0 < |A.Payload(frames)| <= 4096
    modifies r
    ensures r.Inv() && |r.dispatched| == |old(r.dispatched)| + 1 && old(r.dispatched) <= r.dispatched
    ensures r.dispatched[|old(r.dispatched)|].message == Message(old(r.nextSession) + 1, A.Payload(frames))
  {
    hide A.IsMessage, A.AllChunks, A.AnyLate, A.Payload, A.Fold, Relay.Inv, Link.Valid;
    var session := Connect(r);
    A.MessageFold(r.asm, frames, chunks);
    ChunksAreSound(frames, chunks);
    ReceiveAll(r, session, A.Flat(chunks), A.Payload(frames));
    r.TakeMessage(session);
    r.FinishEnvelope(true);
  }
}
