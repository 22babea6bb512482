/**
 * WebSocket message assembly in firmware/main/relay_client.c: text messages from frames (section 5.4 of
 * RFC 6455) that themselves arrive in chunks.
 */
module RelayAssembly {
  import opened Options

  type Byte = b: nat | b < 256

  const MAX_ENVELOPE := 4096
  const CONTINUATION := 0
  const TEXT := 1
  const BINARY := 2

  /** esp_websocket_event_data_t: one chunk of one frame; the lengths are signed and come from the wire. */
  datatype Event = Event(op: nat, fin: bool, offset: int, length: int, dataLen: int, data: Option<seq<Byte>>) {
    /** A data pointer covers the data length. */
    predicate Sound() { data.Some? && dataLen >= 0 ==> |data.value| == dataLen }

    predicate Malformed() {
      || dataLen < 0 || length < 0 || offset < 0 || offset > length || dataLen > length - offset
      || (dataLen > 0 && data.None?)
    }

    function Bytes(): seq<Byte> { if dataLen > 0 && data.Some? then data.value else [] }
  }

  // --------------------------------------------------------- what a message is

  datatype Frame = Frame(op: nat, fin: bool, payload: seq<Byte>)

  function BytesOf(es: seq<Event>): seq<Byte> {
    if es == [] then [] else BytesOf(es[..|es| - 1]) + es[|es| - 1].Bytes()
  }

  /** Consecutive chunks of one frame of the given kind and length, from its start. */
  predicate Started(es: seq<Event>, op: nat, fin: bool, length: nat) {
    forall i :: 0 <= i < |es| ==>
      && es[i].Sound() && !es[i].Malformed() && es[i].op == op && es[i].fin == fin && es[i].length == length
      && es[i].offset == |BytesOf(es[..i])|
  }

  /** The chunks carry exactly the frame. */
  predicate Chunks(f: Frame, es: seq<Event>) {
    es != [] && Started(es, f.op, f.fin, |f.payload|) && BytesOf(es) == f.payload
  }

  function Flat(chunks: seq<seq<Event>>): seq<Event> {
    if chunks == [] then [] else Flat(chunks[..|chunks| - 1]) + chunks[|chunks| - 1]
  }

  function Payload(fs: seq<Frame>): seq<Byte> {
    if fs == [] then [] else Payload(fs[..|fs| - 1]) + fs[|fs| - 1].payload
  }

  predicate AllChunks(fs: seq<Frame>, chunks: seq<seq<Event>>) {
    |fs| == |chunks| && forall i :: 0 <= i < |fs| ==> Chunks(fs[i], chunks[i])
  }

  /** A text frame (opcode 1) and its continuations (opcode 0), without FIN. */
  predicate Open(fs: seq<Frame>) {
    forall i :: 0 <= i < |fs| ==> fs[i].op == (if i == 0 then 1 else 0) && !fs[i].fin
  }

  /** One text message: FIN on the last frame only. */
  predicate IsMessage(fs: seq<Frame>) {
    fs != [] && Open(fs[..|fs| - 1]) && fs[|fs| - 1].fin
      && fs[|fs| - 1].op == (if |fs| == 1 then 1 else 0)
  }

  /** The chunks of messages among events: control frames are skipped. */
  function TextEvents(es: seq<Event>): seq<Event> {
    if es == [] then []
    else TextEvents(es[..|es| - 1]) + (if es[|es| - 1].op in {TEXT, CONTINUATION} then [es[|es| - 1]] else [])
  }

  // ---------------------------------------------------------------- the steps

  datatype Asm = Asm(data: seq<Byte>, active: bool, dropping: bool,
                     frameOffset: int, frameLen: int, frameOp: nat, frameFin: bool)

  function Reset(a: Asm): Asm { a.(data := [], active := false, dropping := false, frameOffset := 0, frameLen := 0) }

  function Begin(a: Asm, e: Event): Asm {
    (if e.op == TEXT then Reset(a).(active := true)
     else if !a.active || a.frameOffset != a.frameLen then a.(dropping := true)
     else a).(frameOffset := 0, frameLen := e.length, frameOp := e.op, frameFin := e.fin)
  }

  /** assemble_text; `granted` is whether the buffer could grow. The second part is the message queued, if any. */
  function Assemble(a: Asm, e: Event, granted: bool): (Asm, seq<seq<Byte>>) {
    if e.Malformed() then (a.(dropping := true), [])
    else
      var b := if e.offset == 0 then Begin(a, e) else a;
      if !b.active || b.dropping then (b, [])
      else if e.offset != b.frameOffset || e.length != b.frameLen || e.op != b.frameOp || e.fin != b.frameFin
           || e.dataLen > MAX_ENVELOPE - |b.data| || !granted then
        (b.(dropping := true), [])
      else Grown(b.(data := b.data + e.Bytes(), frameOffset := b.frameOffset + e.dataLen))
  }

  function Grown(b: Asm): (Asm, seq<seq<Byte>>) {
    if b.frameOffset == b.frameLen && b.frameFin then (Reset(b), if b.data != [] then [b.data] else []) else (b, [])
  }

  /** A buffer of this capacity holds the chunk and its NUL without growing. */
  function Roomy(a: Asm, e: Event, cap: nat): bool {
    |(if e.offset == 0 then Begin(a, e) else a).data| + |e.Bytes()| + 1 <= cap
  }

  /** The data branch of ws_event_handler on a valid session. */
  function Step(a: Asm, e: Event, granted: bool): (Asm, seq<seq<Byte>>) {
    if e.op == TEXT || e.op == CONTINUATION then Assemble(a, e, granted)
    else if e.op == BINARY then (Reset(a), [])
    else (a, [])
  }

  // ---------------------------------------------------------------- soundness

  /** Where the message being assembled came from. */
  datatype Trace = Trace(frames: seq<Frame>, done: seq<seq<Event>>, part: seq<Event>) {
    function All(): seq<Event> { Flat(done) + part }
  }

  predicate Follows(a: Asm, t: Trace) {
    a.active && !a.dropping ==>
      && t.part != [] && a.frameLen >= 0 && Started(t.part, a.frameOp, a.frameFin, a.frameLen)
      && a.frameOffset == |BytesOf(t.part)| && !(a.frameFin && a.frameOffset == a.frameLen)
      && AllChunks(t.frames, t.done) && Open(t.frames)
      && a.frameOp == (if t.frames == [] then TEXT else CONTINUATION)
      && a.data == Payload(t.frames) + BytesOf(t.part) && |a.data| <= MAX_ENVELOPE
  }

  /** The trace after a chunk: a text start forgets, a new frame closes the one before. */
  function Extend(a: Asm, t: Trace, e: Event): Trace {
    if e.op !in {TEXT, CONTINUATION} then t
    else if e.offset == 0 && e.op == TEXT then Trace([], [], [e])
    else if e.offset == 0 && t.part != [] then
      Trace(t.frames + [Frame(a.frameOp, a.frameFin, BytesOf(t.part))], t.done + [t.part], [e])
    else t.(part := t.part + [e])
  }

  lemma BytesOfOne(es: seq<Event>, e: Event)
    ensures BytesOf(es + [e]) == BytesOf(es) + e.Bytes()
  {
    assert (es + [e])[..|es|] == es;
  }

  lemma StartedOne(es: seq<Event>, e: Event, op: nat, fin: bool, length: nat)
    requires Started(es, op, fin, length)
    requires e.Sound() && !e.Malformed() && e.op == op && e.fin == fin && e.length == length
      && e.offset == |BytesOf(es)|
    ensures Started(es + [e], op, fin, length)
  {
    var t := es + [e];
    forall i | 0 <= i < |t| ensures t[..i] == (if i < |es| then es[..i] else es) {}
  }

  lemma CloseFrame(t: Trace, f: Frame)
    requires AllChunks(t.frames, t.done) && Chunks(f, t.part)
    ensures AllChunks(t.frames + [f], t.done + [t.part]) && Flat(t.done + [t.part]) == t.All()
    ensures Payload(t.frames + [f]) == Payload(t.frames) + f.payload
  {
    assert (t.frames + [f])[..|t.frames|] == t.frames;
    assert (t.done + [t.part])[..|t.done|] == t.done;
  }

  /** The frames of a message that a chunk completes. */
  function Closing(t: Trace, e: Event): seq<Frame> { t.frames + [Frame(e.op, e.fin, BytesOf(t.part))] }

  /** What is queued, if anything, is the message whose last chunk this is. */
  predicate QueuesMessage(t: Trace, e: Event, out: seq<seq<Byte>>) {
    out != [] ==>
      && IsMessage(Closing(t, e)) && AllChunks(Closing(t, e), t.done + [t.part])
      && out == [Payload(Closing(t, e))] && 0 < |out[0]| <= MAX_ENVELOPE
  }

  lemma ExtendFollows(a: Asm, t: Trace, e: Event, granted: bool)
    requires Follows(a, t) && e.Sound() && e.op in {TEXT, CONTINUATION}
    ensures var (b, out) := Assemble(a, e, granted); var u := Extend(a, t, e);
      && Follows(b, u) && QueuesMessage(u, e, out) && |out| <= 1
  {
    var b := if e.offset == 0 then Begin(a, e) else a;
    if !e.Malformed() && b.active && !b.dropping {
      hide Started, AllChunks, IsMessage, Open, Payload, BytesOf;
      if e.offset == 0 && e.op == TEXT {
        StartsText(a, e, granted);
      } else if e.offset == 0 {
        ContinuesMessage(a, t, e, granted);
      } else {
        ContinuesFrame(a, t, e, granted);
      }
    }
  }

  lemma StartedAlone(e: Event, op: nat, fin: bool, length: nat)
    requires e.Sound() && !e.Malformed() && e.op == op && e.fin == fin && e.length == length && e.offset == 0
    ensures Started([e], op, fin, length) && BytesOf([e]) == e.Bytes() && |e.Bytes()| == e.dataLen
  {
    assert [e][..0] == [];
  }

  lemma Delivers(b: Asm, t: Trace, e: Event)
    requires t.part != [] && b.frameLen >= 0 && Started(t.part, b.frameOp, b.frameFin, b.frameLen)
    requires b.frameOffset == |BytesOf(t.part)| && AllChunks(t.frames, t.done) && Open(t.frames)
    requires b.frameOp == (if t.frames == [] then TEXT else CONTINUATION)
    requires b.data == Payload(t.frames) + BytesOf(t.part) && |b.data| <= MAX_ENVELOPE
    requires e.op == b.frameOp && e.fin == b.frameFin && b.active && !b.dropping
    ensures var (c, out) := Grown(b);
      && Follows(c, t)
      && QueuesMessage(t, e, out)
  {
    if b.frameOffset == b.frameLen && b.frameFin {
      var f := Frame(e.op, e.fin, BytesOf(t.part));
      CloseFrame(t, f);
      assert Closing(t, e)[..|t.frames|] == t.frames;
    }
  }

  lemma NothingBefore()
    ensures AllChunks([], []) && Open([]) && Payload([]) == [] && Flat([]) == []
  {}

  lemma StartsText(a: Asm, e: Event, granted: bool)
    requires e.Sound() && !e.Malformed() && e.op == TEXT && e.offset == 0
    ensures var (b, out) := Assemble(a, e, granted); var u := Trace([], [], [e]);
      && Follows(b, u)
      && QueuesMessage(u, e, out)
  {
    var u := Trace([], [], [e]);
    StartedAlone(e, TEXT, e.fin, e.length);
    NothingBefore();
    hide Started, AllChunks, IsMessage, Open, Payload, BytesOf;
    var b := Begin(a, e);
    if e.dataLen <= MAX_ENVELOPE && granted {
      var c := b.(data := b.data + e.Bytes(), frameOffset := b.frameOffset + e.dataLen);
      assert c.data == Payload(u.frames) + BytesOf(u.part);
      Delivers(c, u, e);
    }
  }

  lemma OpenMore(fs: seq<Frame>, f: Frame)
    requires Open(fs) && !f.fin && f.op == (if fs == [] then TEXT else CONTINUATION)
    ensures Open(fs + [f])
  {}

  lemma ContinuesMessage(a: Asm, t: Trace, e: Event, granted: bool)
    requires Follows(a, t) && e.Sound() && !e.Malformed() && e.op == CONTINUATION && e.offset == 0
    requires a.active && !a.dropping && a.frameOffset == a.frameLen
    ensures var (b, out) := Assemble(a, e, granted); var u := Extend(a, t, e);
      && Follows(b, u)
      && QueuesMessage(u, e, out)
  {
    hide Started, AllChunks, IsMessage, Open, Payload, BytesOf;
    var u := Extend(a, t, e);
    var f := Frame(a.frameOp, a.frameFin, BytesOf(t.part));
    CloseFrame(t, f);
    OpenMore(t.frames, f);
    StartedAlone(e, CONTINUATION, e.fin, e.length);
    var b := Begin(a, e);
    if e.dataLen <= MAX_ENVELOPE - |b.data| && granted {
      var c := b.(data := b.data + e.Bytes(), frameOffset := b.frameOffset + e.dataLen);
      assert c.data == Payload(u.frames) + BytesOf(u.part);
      Delivers(c, u, e);
    }
  }

  lemma ContinuesFrame(a: Asm, t: Trace, e: Event, granted: bool)
    requires Follows(a, t) && e.Sound() && !e.Malformed() && e.op in {TEXT, CONTINUATION} && e.offset != 0
    requires a.active && !a.dropping
    ensures var (b, out) := Assemble(a, e, granted); var u := Extend(a, t, e);
      && Follows(b, u)
      && QueuesMessage(u, e, out)
  {
    hide Started, AllChunks, IsMessage, Open, Payload, BytesOf;
    var u := Extend(a, t, e);
    if e.offset == a.frameOffset && e.length == a.frameLen && e.op == a.frameOp && e.fin == a.frameFin
       && e.dataLen <= MAX_ENVELOPE - |a.data| && granted
    {
      StartedOne(t.part, e, e.op, e.fin, e.length);
      BytesOfOne(t.part, e);
      assert |e.Bytes()| == e.dataLen;
      var c := a.(data := a.data + e.Bytes(), frameOffset := a.frameOffset + e.dataLen);
      assert c.data == Payload(u.frames) + BytesOf(u.part);
      Delivers(c, u, e);
    }
  }

  /** The frames and chunks a queued message came from, and where they stand in what was received. */
  datatype Origin = Origin(frames: seq<Frame>, chunks: seq<seq<Event>>, from: nat, to: nat) {
    predicate Explains(message: seq<Byte>, received: seq<Event>) {
      && IsMessage(frames) && AllChunks(frames, chunks) && Payload(frames) == message && 0 < |message| <= 4096
      && from <= to <= |received| && TextEvents(received[from..to]) == Flat(chunks) && NoBinary(received[from..to])
    }
  }

  /** Nothing of a binary frame (opcode 2). */
  predicate NoBinary(es: seq<Event>) { forall i :: 0 <= i < |es| ==> es[i].op != 2 }

  lemma TextEventsMore(es: seq<Event>, e: Event)
    ensures TextEvents(es + [e]) == TextEvents(es) + (if e.op in {TEXT, CONTINUATION} then [e] else [])
  {
    assert (es + [e])[..|es|] == es;
  }

  lemma FlatMore(chunks: seq<seq<Event>>, last: seq<Event>)
    ensures Flat(chunks + [last]) == Flat(chunks) + last
  {
    assert (chunks + [last])[..|chunks|] == chunks;
  }

  /** The trace covers the chunks received since the message began. */
  predicate Covers(a: Asm, t: Trace, received: seq<Event>, since: nat) {
    && since <= |received|
    && (a.active && !a.dropping ==> TextEvents(received[since..]) == t.All() && NoBinary(received[since..]))
  }

  lemma ExtendAll(a: Asm, t: Trace, e: Event)
    requires e.op in {TEXT, CONTINUATION}
    ensures Extend(a, t, e).All() == if e.offset == 0 && e.op == TEXT then [e] else t.All() + [e]
  {
    FlatMore(t.done, t.part);
    assert t.All() + [e] == Flat(t.done) + (t.part + [e]);
  }

  /** Only a text start revives an assembly that is idle or dropping. */
  lemma OnlyTextRevives(a: Asm, e: Event, granted: bool)
    requires e.op in {TEXT, CONTINUATION} && !(e.offset == 0 && e.op == TEXT) && (!a.active || a.dropping)
    ensures var (b, out) := Assemble(a, e, granted); (!b.active || b.dropping) && out == []
  {}

  lemma NoBinaryMore(es: seq<Event>, e: Event)
    requires e.op != BINARY
    ensures NoBinary(es) ==> NoBinary(es + [e])
    ensures NoBinary([]) && TextEvents([]) == []
  {}

  lemma CoversMore(a: Asm, t: Trace, received: seq<Event>, since: nat, e: Event, granted: bool)
    requires Covers(a, t, received, since) && e.op in {TEXT, CONTINUATION}
    ensures var from := if e.offset == 0 && e.op == TEXT then |received| else since;
      var (b, out) := Assemble(a, e, granted); var u := Extend(a, t, e);
      && from <= |received| && Covers(b, u, received + [e], from)
      && (out != [] ==>
           TextEvents((received + [e])[from..]) == Flat(u.done + [u.part]) && NoBinary((received + [e])[from..]))
  {
    hide Assemble, Extend, Flat, NoBinary, TextEvents;
    var from := if e.offset == 0 && e.op == TEXT then |received| else since;
    var u := Extend(a, t, e);
    assert (received + [e])[from..] == received[from..] + [e];
    TextEventsMore(received[from..], e);
    NoBinaryMore(received[from..], e);
    FlatMore(u.done, u.part);
    ExtendAll(a, t, e);
    if e.offset == 0 && e.op == TEXT {
      assert received[from..] == [];
    } else if !a.active || a.dropping {
      OnlyTextRevives(a, e, granted);
    }
  }

  predicate Explained(origins: seq<Origin>, handed: seq<seq<Byte>>, received: seq<Event>) {
    |handed| == |origins| && forall i :: 0 <= i < |handed| ==> origins[i].Explains(handed[i], received)
  }

  lemma StillExplained(origins: seq<Origin>, handed: seq<seq<Byte>>, received: seq<Event>, e: Event)
    requires Explained(origins, handed, received)
    ensures Explained(origins, handed, received + [e])
  {
    forall i | 0 <= i < |origins| ensures origins[i].Explains(handed[i], received + [e]) {
      var o := origins[i];
      assert (received + [e])[o.from..o.to] == received[o.from..o.to];
    }
  }

  lemma OneMoreExplained(origins: seq<Origin>, handed: seq<seq<Byte>>, received: seq<Event>, t: Trace, e: Event,
                         out: seq<seq<Byte>>, from: nat)
    requires Explained(origins, handed, received) && QueuesMessage(t, e, out) && |out| == 1 && from <= |received|
    requires TextEvents(received[from..]) == Flat(t.done + [t.part]) && NoBinary(received[from..])
    ensures Explained(origins + [Origin(Closing(t, e), t.done + [t.part], from, |received|)], handed + out, received)
  {
    assert received[from..|received|] == received[from..];
  }

  class Assembler {
    // s_asm and the frame statics
    var data: seq<Byte>
    var cap: nat
    var active: bool
    var dropping: bool
    var frameOffset: int
    var frameLen: int
    var frameOp: nat
    var frameFin: bool
    ghost var handed: seq<seq<Byte>> // every message handed to queue_message
    ghost var origins: seq<Origin>
    ghost var received: seq<Event>
    ghost var since: nat
    ghost var trace: Trace

    ghost function St(): Asm
      reads this
    {
      Asm(data, active, dropping, frameOffset, frameLen, frameOp, frameFin)
    }

    ghost predicate Inv()
      reads this
    {
      && |data| <= MAX_ENVELOPE && Follows(St(), trace) && Covers(St(), trace, received, since)
      && Explained(origins, handed, received)
    }

    constructor ()
      ensures Inv() && handed == [] && received == []
    {
      data, cap, active, dropping, frameOffset, frameLen, frameOp, frameFin := [], 0, false, false, 0, 0, 0, false;
      handed, origins, received, since, trace := [], [], [], 0, Trace([], [], []);
    }

    method AsmReset()
      modifies this`data, this`active, this`dropping, this`frameOffset, this`frameLen
      ensures St() == Reset(old(St()))
    {
      data, active, dropping, frameOffset, frameLen := [], false, false, 0, 0;
    }

    /** asm_append; `memory` is what realloc would answer. */
    method AsmAppend(bytes: seq<Byte>, memory: bool) returns (ok: bool)
      requires |data| <= MAX_ENVELOPE
      modifies this`data, this`cap
      ensures ok == (|bytes| <= MAX_ENVELOPE - |old(data)| && (memory || |old(data)| + |bytes| + 1 <= old(cap)))
      ensures data == if ok then old(data) + bytes else old(data)
      ensures cap >= old(cap) && (ok ==> |data| + 1 <= cap) && (!ok ==> cap == old(cap))
    {
      if |bytes| > MAX_ENVELOPE - |data| {
        return false;
      }
      if |data| + |bytes| + 1 > cap {
        var size := if cap > 0 then cap else 512;
        while size < |data| + |bytes| + 1
          invariant size > 0 && size >= cap
        {
          size := size * 2;
        }
        if !memory {
          return false;
        }
        cap := size;
      }
      data := data + bytes;
      return true;
    }

    /** The start of a frame: a text frame starts a message, a continuation must follow a complete frame of one. */
    method BeginFrame(e: Event)
      requires |data| <= MAX_ENVELOPE
      modifies this`data, this`active, this`dropping, this`frameOffset, this`frameLen, this`frameOp, this`frameFin
      ensures St() == Begin(old(St()), e) && |data| <= MAX_ENVELOPE
    {
      if e.op == TEXT {
        AsmReset();
        active := true;
      } else if !active || frameOffset != frameLen {
        dropping := true;
      }
      frameOffset, frameLen, frameOp, frameFin := 0, e.length, e.op, e.fin;
    }

    /** assemble_text */
    method AssembleText(e: Event, memory: bool)
      requires |data| <= MAX_ENVELOPE && e.Sound()
      modifies this`data, this`cap, this`active, this`dropping, this`frameOffset, this`frameLen, this`frameOp,
        this`frameFin, this`handed
      ensures |data| <= MAX_ENVELOPE
      ensures var granted := memory || Roomy(old(St()), e, old(cap));
        St() == Assemble(old(St()), e, granted).0 && handed == old(handed) + Assemble(old(St()), e, granted).1
    {
      hide Begin;
      if e.dataLen < 0 || e.length < 0 || e.offset < 0 || e.offset > e.length || e.dataLen > e.length - e.offset
         || (e.dataLen > 0 && e.data.None?)
      {
        dropping := true;
        return;
      }
      if e.offset == 0 {
        BeginFrame(e);
      }
      if !active || dropping {
        return;
      }
      if e.offset != frameOffset || e.length != frameLen || e.op != frameOp || e.fin != frameFin {
        dropping := true;
        return;
      }
      var ok := AsmAppend(e.Bytes(), memory);
      if !ok {
        dropping := true;
        return;
      }
      frameOffset := frameOffset + e.dataLen;
      if frameOffset == frameLen && e.fin {
        if data != [] {
          handed := handed + [data];
        }
        AsmReset();
      }
    }

    /** The data branch of the event handler: every message handed on is explained by the frames received. */
    method OnData(e: Event, memory: bool)
      requires Inv() && e.Sound()
      modifies this
      ensures Inv() && received == old(received) + [e] && old(handed) <= handed
      ensures var granted := memory || Roomy(old(St()), e, old(cap));
        St() == Step(old(St()), e, granted).0 && handed == old(handed) + Step(old(St()), e, granted).1
    {
      hide Follows, Covers, Assemble, Explained, Roomy;
      ghost var was := St();
      if e.op == TEXT || e.op == CONTINUATION {
        AssembleText(e, memory);
      } else if e.op == BINARY {
        AsmReset();
      }
      Remember(was, e, memory || Roomy(was, e, old(cap)), old(handed));
    }

    /** Takes the chunk down as an event of the message it belongs to. */
    ghost method Remember(was: Asm, e: Event, granted: bool, before: seq<seq<Byte>>)
      requires Follows(was, trace) && Covers(was, trace, received, since) && Explained(origins, before, received)
      requires |data| <= MAX_ENVELOPE && e.Sound()
      requires St() == Step(was, e, granted).0 && handed == before + Step(was, e, granted).1
      modifies this`received, this`since, this`trace, this`origins
      ensures Inv() && received == old(received) + [e]
    {
      hide Follows, Covers, Step, Closing, QueuesMessage, Explained, TextEvents, Flat;
      ghost var out := Step(was, e, granted).1;
      trace, since := TakenDown(was, trace, received, since, e, granted);
      StillExplained(origins, before, received, e);
      received := received + [e];
      if out != [] {
        OneMoreExplained(origins, before, received, trace, e, out, since);
        origins := origins + [Origin(Closing(trace, e), trace.done + [trace.part], since, |received|)];
      } else {
        assert handed == before;
      }
    }
  }

  /** One more chunk on record: the message it belongs to, and where that message began. */
  lemma TakenDown(a: Asm, t: Trace, received: seq<Event>, since: nat, e: Event, granted: bool)
      returns (u: Trace, from: nat)
    requires Follows(a, t) && Covers(a, t, received, since) && e.Sound()
    ensures var (b, out) := Step(a, e, granted);
      && from <= |received| && Follows(b, u) && Covers(b, u, received + [e], from)
      && QueuesMessage(u, e, out) && |out| <= 1
      && (out != [] ==>
           TextEvents((received + [e])[from..]) == Flat(u.done + [u.part]) && NoBinary((received + [e])[from..]))
  {
    hide Follows, Covers, Assemble, Extend, Closing, TextEvents, Flat;
    if e.op == TEXT || e.op == CONTINUATION {
      ExtendFollows(a, t, e, granted);
      CoversMore(a, t, received, since, e, granted);
      from := if e.offset == 0 && e.op == TEXT then |received| else since;
      u := Extend(a, t, e);
    } else {
      Idle(a, Step(a, e, granted).0, t, received, since, e);
      u, from := t, since;
    }
  }

  lemma Idle(a: Asm, b: Asm, t: Trace, received: seq<Event>, since: nat, e: Event)
    requires Follows(a, t) && Covers(a, t, received, since) && e.op !in {TEXT, CONTINUATION}
    requires (b == a && e.op != BINARY) || !b.active
    ensures since <= |received| && Follows(b, t) && Covers(b, t, received + [e], since)
  {
    assert (received + [e])[since..] == received[since..] + [e];
    TextEventsMore(received[since..], e);
  }

  // ------------------------------------------------------------- completeness

  /** A stream of chunks with no allocation refused: the last state, and every message queued on the way. */
  function Fold(a: Asm, es: seq<Event>): (Asm, seq<seq<Byte>>) {
    if es == [] then (a, [])
    else
      var (b, out) := Fold(a, es[..|es| - 1]);
      var (c, more) := Step(b, es[|es| - 1], true);
      (c, out + more)
  }

  lemma {:induction false} FoldConcat(a: Asm, x: seq<Event>, y: seq<Event>)
    ensures Fold(a, x + y) == (Fold(Fold(a, x).0, y).0, Fold(a, x).1 + Fold(Fold(a, x).0, y).1)
  {
    hide Step;
    if y == [] {
      assert x + y == x && Fold(a, x).1 + [] == Fold(a, x).1;
    } else {
      var z := y[..|y| - 1];
      FoldConcat(a, x, z);
      assert (x + y)[..|x + y| - 1] == x + z && (x + y)[|x + y| - 1] == y[|y| - 1];
      var (b, out) := Fold(a, x);
      var (c, more) := Fold(b, z);
      var (d, last) := Step(c, y[|y| - 1], true);
      assert out + more + last == out + (more + last);
    }
  }

  predicate Spent(a: Asm) { !a.active || a.dropping }

  /** Between two frames of a message. */
  predicate Live(a: Asm, sofar: seq<Byte>) {
    a.active && !a.dropping && a.frameOffset == a.frameLen && a.data == sofar
  }

  predicate Within(a: Asm, f: Frame, sofar: seq<Byte>, got: seq<Byte>) {
    && a.active && !a.dropping && a.frameLen == |f.payload| && a.frameOp == f.op && a.frameFin == f.fin
    && a.frameOffset == |got| && a.data == sofar + got
  }

  /** A continuation with a payload whose first chunk is empty: its second chunk looks like a frame start. */
  predicate LateStart(f: Frame, es: seq<Event>)
    requires es != []
  {
    f.op == CONTINUATION && f.payload != [] && es[0].Bytes() == []
  }

  /** Where a frame stands after `got` bytes in `seen` of its chunks. */
  predicate Standing(f: Frame, sofar: seq<Byte>, got: seq<Byte>, late: bool, b: Asm, out: seq<seq<Byte>>) {
    if late || |sofar| + |got| > MAX_ENVELOPE then Spent(b) && out == []
    else if f.fin && |got| == |f.payload| then
      Spent(b) && out == if sofar + got != [] then [sofar + got] else []
    else Within(b, f, sofar, got) && out == []
  }

  /** The first chunk of a frame. */
  lemma FirstChunk(a: Asm, f: Frame, sofar: seq<Byte>, e: Event)
    requires e.Sound() && !e.Malformed() && e.op == f.op && e.fin == f.fin && e.length == |f.payload| && e.offset == 0
    requires (f.op == TEXT && sofar == []) || (f.op == CONTINUATION && Live(a, sofar))
    ensures var (b, out) := Assemble(a, e, true); Standing(f, sofar, e.Bytes(), false, b, out)
  {}

  /** A later chunk, after a standing that is still open. */
  lemma NextChunk(b: Asm, f: Frame, sofar: seq<Byte>, got: seq<Byte>, e: Event)
    requires e.Sound() && !e.Malformed() && e.op == f.op && e.fin == f.fin && e.length == |f.payload|
      && e.offset == |got|
    requires f.op == TEXT || f.op == CONTINUATION
    requires f.op == TEXT ==> sofar == []
    requires Within(b, f, sofar, got) && |sofar| + |got| <= MAX_ENVELOPE && !(f.fin && |got| == |f.payload|)
    ensures var (c, out) := Assemble(b, e, true);
      Standing(f, sofar, got + e.Bytes(), f.op == CONTINUATION && f.payload != [] && got == [], c, out)
  {
    assert sofar + got + e.Bytes() == sofar + (got + e.Bytes());
    assert f.op == TEXT && got == [] ==> got + e.Bytes() == e.Bytes() && sofar + (got + e.Bytes()) == e.Bytes();
  }

  /** Nothing more comes of a spent assembly, except that a text start begins anew. */
  lemma SpentStays(b: Asm, e: Event)
    requires Spent(b) && e.op in {TEXT, CONTINUATION} && (e.op == CONTINUATION || e.offset != 0)
    ensures var (c, out) := Assemble(b, e, true); Spent(c) && out == []
  {}

  lemma EmptyTextAgain(b: Asm, e: Event)
    requires e.Sound() && !e.Malformed() && e.op == TEXT && e.fin && e.length == 0
    ensures var (c, out) := Assemble(b, e, true); Spent(c) && out == []
  {}

  lemma {:induction false} FrameFold(a: Asm, f: Frame, sofar: seq<Byte>, es: seq<Event>, i: nat)
    requires Chunks(f, es) && 1 <= i <= |es| && |sofar| <= MAX_ENVELOPE
    requires (f.op == TEXT && sofar == []) || (f.op == CONTINUATION && Live(a, sofar))
    ensures var (b, out) := Fold(a, es[..i]);
      Standing(f, sofar, BytesOf(es[..i]), LateStart(f, es) && i > 1, b, out)
  {
    hide Assemble, Fold, Started, Standing, BytesOf;
    if i == 1 {
      FirstFold(a, f, sofar, es);
    } else {
      FrameFold(a, f, sofar, es, i - 1);
      FrameFoldStep(a, f, sofar, es, i);
    }
  }

  lemma FirstFold(a: Asm, f: Frame, sofar: seq<Byte>, es: seq<Event>)
    requires Chunks(f, es) && |sofar| <= MAX_ENVELOPE
    requires (f.op == TEXT && sofar == []) || (f.op == CONTINUATION && Live(a, sofar))
    ensures var (b, out) := Fold(a, es[..1]); Standing(f, sofar, BytesOf(es[..1]), false, b, out)
  {
    hide Assemble, Started, Standing, Fold, BytesOf;
    ChunkFits(f, es, 0);
    FoldHead(a, es);
    FirstChunk(a, f, sofar, es[0]);
  }

  lemma FoldHead(a: Asm, es: seq<Event>)
    requires es != []
    ensures Fold(a, es[..1]) == Step(a, es[0], true)
    ensures BytesOf(es[..1]) == es[0].Bytes() && BytesOf(es[..0]) == []
  {
    hide Step;
    var first := es[..1];
    assert first[..0] == [] && first[1..] == [] && first[0] == es[0];
    assert BytesOf([]) == [] && [] + es[0].Bytes() == es[0].Bytes();
    var (b, out) := Step(a, es[0], true);
    assert Fold(b, []) == (b, []) && out + [] == out && [] + out == out;
  }

  lemma FrameFoldStep(a: Asm, f: Frame, sofar: seq<Byte>, es: seq<Event>, i: nat)
    requires Chunks(f, es) && 1 < i <= |es| && |sofar| <= MAX_ENVELOPE
    requires (f.op == TEXT && sofar == []) || f.op == CONTINUATION
    requires var (b, out) := Fold(a, es[..i - 1]);
      Standing(f, sofar, BytesOf(es[..i - 1]), LateStart(f, es) && i - 1 > 1, b, out)
    ensures var (b, out) := Fold(a, es[..i]);
      Standing(f, sofar, BytesOf(es[..i]), LateStart(f, es), b, out)
  {
    hide Assemble, Fold, Started;
    var e, got := es[i - 1], BytesOf(es[..i - 1]);
    var (b, out) := Fold(a, es[..i - 1]);
    FoldOne(a, es, i);
    BytesOfOne(es[..i - 1], e);
    assert es[..i] == es[..i - 1] + [e];
    FirstBytes(es, i - 1);
    ChunkFits(f, es, i - 1);
    StandingStep(f, sofar, got, LateStart(f, es) && i - 1 > 1, b, out, e);
  }

  lemma ChunkFits(f: Frame, es: seq<Event>, i: nat)
    requires Chunks(f, es) && i < |es|
    ensures var e := es[i];
      && e.Sound() && !e.Malformed() && e.op == f.op && e.fin == f.fin && e.length == |f.payload|
      && e.offset == |BytesOf(es[..i])|
  {}

  lemma StandingStep(f: Frame, sofar: seq<Byte>, got: seq<Byte>, late: bool, b: Asm, out: seq<seq<Byte>>, e: Event)
    requires e.Sound() && !e.Malformed() && e.op == f.op && e.fin == f.fin && e.length == |f.payload|
      && e.offset == |got|
    requires (f.op == TEXT && sofar == []) || f.op == CONTINUATION
    requires late ==> f.op == CONTINUATION
    requires |sofar| <= MAX_ENVELOPE && Standing(f, sofar, got, late, b, out)
    ensures var (c, more) := Assemble(b, e, true);
      Standing(f, sofar, got + e.Bytes(), late || (f.op == CONTINUATION && f.payload != [] && got == []), c, out + more)
  {
    hide Assemble;
    var (c, more) := Assemble(b, e, true);
    if late || |sofar| + |got| > MAX_ENVELOPE || (f.fin && |got| == |f.payload|) {
      assert f.fin && |got| == |f.payload| ==> got + e.Bytes() == got;
      if f.op == TEXT && e.offset == 0 {
        EmptyTextAgain(b, e);
      } else {
        SpentStays(b, e);
      }
      assert out + more == out;
    } else {
      NextChunk(b, f, sofar, got, e);
      assert out + more == more;
    }
  }

  lemma FoldOne(a: Asm, es: seq<Event>, i: nat)
    requires 1 <= i <= |es|
    ensures var (b, out) := Fold(a, es[..i - 1]);
      var (c, more) := Step(b, es[i - 1], true); Fold(a, es[..i]) == (c, out + more)
  {
    assert es[..i][..i - 1] == es[..i - 1];
  }

  lemma {:induction false} FirstBytes(es: seq<Event>, i: nat)
    requires 1 <= i <= |es|
    ensures BytesOf(es[..i]) == [] ==> es[0].Bytes() == []
    ensures es[0].Bytes() == [] && i == 1 ==> BytesOf(es[..i]) == []
    ensures |es[0].Bytes()| <= |BytesOf(es[..i])|
  {
    assert es[..i][..i - 1] == es[..i - 1];
    if i > 1 {
      FirstBytes(es, i - 1);
    }
  }

  /** After a binary frame nothing is queued before the next text frame begins. */
  lemma {:induction false} BinaryDiscards(a: Asm, binary: Event, es: seq<Event>)
    requires binary.op == 2 && forall i :: 0 <= i < |es| ==> es[i].op != TEXT
    ensures Spent(Fold(a, [binary] + es).0) && Fold(a, [binary] + es).1 == []
  {
    hide Assemble;
    if es == [] {
      assert [binary] + es == [binary] && [binary][..0] == [];
      assert Fold(a, [binary][..0]) == (a, []);
    } else {
      var before, e := [binary] + es[..|es| - 1], es[|es| - 1];
      BinaryDiscards(a, binary, es[..|es| - 1]);
      assert ([binary] + es)[..|es|] == before;
      if e.op == CONTINUATION {
        OnlyTextRevives(Fold(a, before).0, e, true);
      }
    }
  }

  // ------------------------------------------------------------ whole messages

  predicate AnyLate(fs: seq<Frame>, chunks: seq<seq<Event>>)
    requires AllChunks(fs, chunks)
  {
    exists i :: 0 <= i < |fs| && LateStart(fs[i], chunks[i])
  }

  lemma {:induction false} DeadFold(a: Asm, es: seq<Event>)
    requires Spent(a) && forall i :: 0 <= i < |es| ==> es[i].op == CONTINUATION
    ensures Spent(Fold(a, es).0) && Fold(a, es).1 == []
  {
    hide Assemble;
    if es != [] {
      DeadFold(a, es[..|es| - 1]);
      SpentStays(Fold(a, es[..|es| - 1]).0, es[|es| - 1]);
    }
  }

  /** Every frame but the last: the message so far is held, or the assembly is spent. */
  lemma {:induction false} OpenFold(a: Asm, fs: seq<Frame>, chunks: seq<seq<Event>>)
    requires fs != [] && Open(fs) && AllChunks(fs, chunks)
    ensures var (b, out) := Fold(a, Flat(chunks));
      out == [] && if AnyLate(fs, chunks) || |Payload(fs)| > MAX_ENVELOPE then Spent(b) else Live(b, Payload(fs))
  {
    hide Fold, Chunks, Standing;
    var n := |fs| - 1;
    var gs, before, f, es := fs[..n], chunks[..n], fs[n], chunks[n];
    LastFrame(a, fs, chunks);
    if n == 0 {
      NothingYet(a, fs, chunks);
      FrameAtOnce(a, f, [], es);
    } else {
      OpenFold(a, gs, before);
      var b := Fold(a, Flat(before)).0;
      if AnyLate(gs, before) || |Payload(gs)| > MAX_ENVELOPE {
        ChunkOps(f, es);
        DeadFold(b, es);
      } else {
        FrameAtOnce(b, f, Payload(gs), es);
      }
    }
  }

  lemma NothingYet(a: Asm, fs: seq<Frame>, chunks: seq<seq<Event>>)
    requires |fs| == 1 && AllChunks(fs, chunks)
    ensures Flat(chunks[..0]) == [] && Payload(fs[..0]) == [] && Fold(a, []) == (a, [])
      && !AnyLate(fs[..0], chunks[..0])
    ensures Payload(fs) == fs[0].payload
  {}

  /** Splits the last frame off a message. */
  lemma LastFrame(a: Asm, fs: seq<Frame>, chunks: seq<seq<Event>>)
    requires fs != [] && AllChunks(fs, chunks)
    ensures var n := |fs| - 1;
      && AllChunks(fs[..n], chunks[..n]) && Payload(fs) == Payload(fs[..n]) + fs[n].payload
      && (AnyLate(fs, chunks) <==> AnyLate(fs[..n], chunks[..n]) || LateStart(fs[n], chunks[n]))
      && Fold(a, Flat(chunks)) == (Fold(Fold(a, Flat(chunks[..n])).0, chunks[n]).0,
                                   Fold(a, Flat(chunks[..n])).1 + Fold(Fold(a, Flat(chunks[..n])).0, chunks[n]).1)
  {
    hide Fold, Chunks;
    FoldConcat(a, Flat(chunks[..|fs| - 1]), chunks[|fs| - 1]);
  }

  lemma ChunkOps(f: Frame, es: seq<Event>)
    requires Chunks(f, es) && f.op == CONTINUATION
    ensures forall i :: 0 <= i < |es| ==> es[i].op == CONTINUATION
  {}

  /** A late start has a second chunk, since its first is empty and its payload is not. */
  lemma LateHasMore(f: Frame, es: seq<Event>)
    requires Chunks(f, es) && LateStart(f, es)
    ensures |es| > 1
  {
    FirstBytes(es, 1);
    assert es[..1] == es || |es| > 1;
  }

  lemma FrameAtOnce(a: Asm, f: Frame, sofar: seq<Byte>, es: seq<Event>)
    requires Chunks(f, es) && |sofar| <= MAX_ENVELOPE
    requires (f.op == TEXT && sofar == []) || (f.op == CONTINUATION && Live(a, sofar))
    ensures Standing(f, sofar, f.payload, LateStart(f, es), Fold(a, es).0, Fold(a, es).1)
    ensures !f.fin ==>
      && Fold(a, es).1 == []
      && (if LateStart(f, es) || |sofar + f.payload| > MAX_ENVELOPE then Spent(Fold(a, es).0)
          else Live(Fold(a, es).0, sofar + f.payload))
  {
    FrameFold(a, f, sofar, es, |es|);
    assert es[..|es|] == es;
    if LateStart(f, es) {
      LateHasMore(f, es);
    }
  }

  /**
   * Any message, split into frames and chunks in any way, is queued exactly once and exactly as it is, if and
   * only if it has 1 to 4096 bytes and no continuation frame with a payload starts with an empty chunk.
   */
  lemma MessageFold(a: Asm, fs: seq<Frame>, chunks: seq<seq<Event>>)
    requires IsMessage(fs) && AllChunks(fs, chunks)
    ensures Fold(a, Flat(chunks)).1
         == if !AnyLate(fs, chunks) && 0 < |Payload(fs)| <= 4096 then [Payload(fs)] else []
  {
    hide Fold, Chunks;
    var n := |fs| - 1;
    var f, es := fs[n], chunks[n];
    LastFrame(a, fs, chunks);
    if n == 0 {
      NothingYet(a, fs, chunks);
      FrameAtOnce(a, f, [], es);
    } else {
      OpenFold(a, fs[..n], chunks[..n]);
      var b := Fold(a, Flat(chunks[..n])).0;
      if AnyLate(fs[..n], chunks[..n]) || |Payload(fs[..n])| > MAX_ENVELOPE {
        ChunkOps(f, es);
        DeadFold(b, es);
      } else {
        FrameAtOnce(b, f, Payload(fs[..n]), es);
      }
    }
  }

  lemma {:induction false} ControlFramesIgnored(a: Asm, es: seq<Event>)
    requires forall i :: 0 <= i < |es| ==> es[i].op != BINARY
    ensures Fold(a, es) == Fold(a, TextEvents(es))
  {
    hide Assemble;
    if es != [] {
      var before, e := es[..|es| - 1], es[|es| - 1];
      ControlFramesIgnored(a, before);
      if e.op in {TEXT, CONTINUATION} {
        var t := TextEvents(before) + [e];
        assert t[..|t| - 1] == TextEvents(before) && t[|t| - 1] == e;
      } else {
        assert TextEvents(es) == TextEvents(before);
        assert Fold(a, before).1 + [] == Fold(a, before).1;
      }
    }
  }

  /** The same with control frames anywhere in between, from any state of the assembly. */
  lemma MessagesAreComplete(a: Asm, fs: seq<Frame>, chunks: seq<seq<Event>>, es: seq<Event>)
    requires IsMessage(fs) && AllChunks(fs, chunks) && TextEvents(es) == Flat(chunks)
    requires forall i :: 0 <= i < |es| ==> es[i].op != BINARY
    ensures Fold(a, es).1
         == if !AnyLate(fs, chunks) && 0 < |Payload(fs)| <= 4096 then [Payload(fs)] else []
  {
    ControlFramesIgnored(a, es);
    MessageFold(a, fs, chunks);
  }
}
