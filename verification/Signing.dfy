/**
 * The signing string of a command: rw_auth_signing_string (firmware/main/auth.c) and buildSigningString
 * (app/src/signing.js). It determines the command, and both sides build the same bytes.
 */
module Signing {
  import opened Options
  import opened Unicode
  import opened CanonicalJson
  import opened CanonicalOrder
  import opened CanonicalAgreement
  import opened Printers

  const NEWLINE := 10

  /** remote-wake-v1 */
  const PREFIX: seq<nat> := [114, 101, 109, 111, 116, 101, 45, 119, 97, 107, 101, 45, 118, 49]

  const NO_ARGS: seq<nat> := [123, 125]

  datatype Command = Command(dev: seq<nat>, id: seq<nat>, ts: int, ctr: nat, act: seq<nat>, args: Json)

  function Joined(dev: seq<nat>, id: seq<nat>, ts: seq<nat>, ctr: seq<nat>, act: seq<nat>, args: seq<nat>): seq<nat> {
    PREFIX + [NEWLINE] + dev + [NEWLINE] + id + [NEWLINE] + ts + [NEWLINE] + ctr + [NEWLINE] + act + [NEWLINE] + args
  }

  function SigningText(c: Command): seq<nat> {
    Joined(c.dev, c.id, PrintInt(c.ts), Decimal(c.ctr), c.act, Canonical(c.args))
  }

  /** rw_auth_signing_string; nothing only when a request for memory was refused. */
  method SigningString(dev: seq<nat>, id: seq<nat>, ts: int, ctr: nat, act: seq<nat>, args: Option<Json>,
                       heap: nat -> bool) returns (text: Option<seq<nat>>)
    requires args.Some? ==> WellFormed(CString, args.value)
    ensures text.None? ==> exists k :: !heap(k)
    ensures text.Some? && args.Some? ==> text.value == SigningText(Command(dev, id, ts, ctr, act, args.value))
    ensures text.Some? && args.None? ==> text.value == Joined(dev, id, PrintInt(ts), Decimal(ctr), act, NO_ARGS)
  {
    hide Canonical, PrintInt, Decimal;
    var sb := new TextBuffer(heap);
    AppendFields(sb, [dev, id, PrintInt(ts), Decimal(ctr), act]);
    ghost var head := sb.buf;
    if args.Some? {
      sb.AppendJson(args.value);
    } else {
      sb.Append(NO_ARGS);
    }
    Fields5(dev, id, PrintInt(ts), Decimal(ctr), act);
    return if sb.err then None else Some(sb.buf);
  }

  /** The prefix, then each field between newlines. */
  method AppendFields(sb: TextBuffer, fields: seq<seq<nat>>)
    requires sb.Valid() && sb.buf == [] && !sb.err
    modifies sb
    ensures sb.Valid() && (!sb.err ==> sb.buf == Fields(fields))
  {
    sb.Append(PREFIX);
    sb.Append([NEWLINE]);
    for i := 0 to |fields|
      invariant sb.Valid() && (!sb.err ==> sb.buf == Fields(fields[..i]))
    {
      sb.Append(fields[i]);
      sb.Append([NEWLINE]);
      assert fields[..i + 1][..i] == fields[..i];
    }
    assert fields[..|fields|] == fields;
  }

  function Fields(fields: seq<seq<nat>>): seq<nat> {
    if fields == [] then PREFIX + [NEWLINE] else Fields(fields[..|fields| - 1]) + fields[|fields| - 1] + [NEWLINE]
  }

  lemma Fields5(a: seq<nat>, b: seq<nat>, c: seq<nat>, d: seq<nat>, e: seq<nat>)
    ensures Fields([a, b, c, d, e])
         == PREFIX + [NEWLINE] + a + [NEWLINE] + b + [NEWLINE] + c + [NEWLINE] + d + [NEWLINE] + e + [NEWLINE]
  {
    assert [a, b, c, d, e][..4] == [a, b, c, d] && [a, b, c, d][..3] == [a, b, c];
    assert [a, b, c][..2] == [a, b] && [a, b][..1] == [a] && [a][..0] == [];
    assert Fields([]) == PREFIX + [NEWLINE];
    assert Fields([a]) == PREFIX + [NEWLINE] + a + [NEWLINE];
    assert Fields([a, b]) == Fields([a]) + b + [NEWLINE];
    assert Fields([a, b, c]) == Fields([a, b]) + c + [NEWLINE];
    assert Fields([a, b, c, d]) == Fields([a, b, c]) + d + [NEWLINE];
  }

  // -------------------------------------------------------------- signing.js

  /** canonicalArgs: absent and null become {}; anything but an object is a TypeError. */
  method CanonicalArgs(args: Option<Json>) returns (text: Option<seq<nat>>)
    requires args.Some? ==> WellFormed(Utf16Text, args.value)
    ensures args.None? || args.value.Null? ==> text == Some(NO_ARGS)
    ensures args.Some? && args.value.Obj? ==> text == Some(Canonical(args.value))
    ensures args.Some? && !args.value.Null? && !args.value.Obj? ==> text.None?
  {
    if args.None? || args.value.Null? {
      return Some(NO_ARGS);
    }
    if !args.value.Obj? {
      return None;
    }
    var out := CanonicalJSON(args.value);
    return Some(out);
  }

  /** buildSigningString; None is the TypeError. */
  method BuildSigningString(dev: seq<nat>, id: seq<nat>, ts: int, ctr: int, act: seq<nat>, args: Option<Json>)
      returns (text: Option<seq<nat>>)
    requires args.Some? ==> WellFormed(Utf16Text, args.value)
    ensures text.Some? <==>
      && dev != [] && id != [] && act != [] && ts >= 0 && ctr >= 0
      && (args.Some? ==> args.value.Null? || args.value.Obj?)
    ensures text.Some? && args.Some? && args.value.Obj? ==>
      text.value == SigningText(Command(dev, id, ts, ctr, act, args.value))
    ensures text.Some? && (args.None? || args.value.Null?) ==>
      text.value == Joined(dev, id, PrintInt(ts), Decimal(ctr), act, NO_ARGS)
  {
    hide Canonical;
    if dev == [] || id == [] || act == [] || ts < 0 || ctr < 0 {
      return None;
    }
    var json := CanonicalArgs(args);
    if json.None? {
      return None;
    }
    return Some(Joined(dev, id, PrintInt(ts), Decimal(ctr), act, json.value));
  }

  // --------------------------------------------------------- phone and device

  predicate ProperCommand(c: Command) {
    Text(c.dev) && Text(c.id) && Text(c.act) && WellFormed(Chars, c.args) && c.args.Obj?
  }

  /** The command as one side holds it. */
  function EncodedCommand(e: Encoding, c: Command): Command
    requires ProperCommand(c)
  {
    c.(dev := Encode(e, c.dev), id := Encode(e, c.id), act := Encode(e, c.act), args := Encoded(e, c.args))
  }

  lemma JoinedEncoded(e: Encoding, dev: seq<nat>, id: seq<nat>, ts: seq<nat>, ctr: seq<nat>, act: seq<nat>,
      args: seq<nat>)
    requires Text(dev) && Text(id) && Ascii(ts) && Ascii(ctr) && Text(act) && Text(args)
    ensures Text(Joined(dev, id, ts, ctr, act, args))
    ensures Encode(e, Joined(dev, id, ts, ctr, act, args))
         == Joined(Encode(e, dev), Encode(e, id), ts, ctr, Encode(e, act), Encode(e, args))
  {
    hide Encode;
    EncodeAscii(e, ts);
    EncodeAscii(e, ctr);
    EncodeAscii(e, PREFIX);
    FieldAfter(e, PREFIX, dev);
    FieldAfter(e, PREFIX + [NEWLINE] + dev, id);
    FieldAfter(e, PREFIX + [NEWLINE] + dev + [NEWLINE] + id, ts);
    var a := PREFIX + [NEWLINE] + dev + [NEWLINE] + id + [NEWLINE] + ts;
    FieldAfter(e, a, ctr);
    FieldAfter(e, a + [NEWLINE] + ctr, act);
    FieldAfter(e, a + [NEWLINE] + ctr + [NEWLINE] + act, args);
  }

  lemma FieldAfter(e: Encoding, head: seq<nat>, field: seq<nat>)
    requires Text(head) && Text(field)
    ensures Text(head + [NEWLINE] + field)
    ensures Encode(e, head + [NEWLINE] + field) == Encode(e, head) + [NEWLINE] + Encode(e, field)
  {
    EncodeConcat(e, head, [NEWLINE]);
    EncodeConcat(e, head + [NEWLINE], field);
    EncodeAscii(e, [NEWLINE]);
  }

  lemma NumbersAreAscii(ts: int, ctr: nat)
    ensures Ascii(PrintInt(ts)) && Ascii(Decimal(ctr))
  {}

  /** What one side's signing string encodes. */
  lemma SigningEncoded(e: Encoding, c: Command)
    requires ProperCommand(c)
    ensures WellFormed(Chars, Sort(OrderOf(e), c.args)) && Text(Print(Sort(OrderOf(e), c.args)))
    ensures var t := Joined(c.dev, c.id, PrintInt(c.ts), Decimal(c.ctr), c.act, Print(Sort(OrderOf(e), c.args)));
      Text(t) && SigningText(EncodedCommand(e, c)) == Encode(e, t)
  {
    hide Canonical, Encode, Joined;
    CanonicalEncoded(e, c.args);
    NumbersAreAscii(c.ts, c.ctr);
    JoinedEncoded(e, c.dev, c.id, PrintInt(c.ts), Decimal(c.ctr), c.act, Print(Sort(OrderOf(e), c.args)));
  }

  /** signingBytes: TextEncoder applied to what buildSigningString returns. */
  function SigningBytes(c: Command): seq<nat>
    requires ProperCommand(c)
  {
    SigningEncoded(Utf16, c);
    Utf16RoundTrip(Joined(c.dev, c.id, PrintInt(c.ts), Decimal(c.ctr), c.act, Print(Sort(ByUtf16, c.args))));
    Encode(Utf8, DecodeUtf16(SigningText(EncodedCommand(Utf16, c))))
  }

  /** The phone signs the bytes the device verifies exactly when the argument keys agree. */
  lemma SigningAgrees(c: Command)
    requires ProperCommand(c)
    ensures SigningBytes(c) == SigningText(EncodedCommand(Utf8, c)) <==> KeysAgree(c.args)
  {
    hide Canonical, Encode, DecodeUtf16, Joined, WellFormedUtf16, SigningText, EncodedCommand, KeysAgree, Print;
    SigningEncoded(Utf16, c);
    SigningEncoded(Utf8, c);
    var a, b := Print(Sort(ByUtf16, c.args)), Print(Sort(Plain, c.args));
    var ts, ctr := PrintInt(c.ts), Decimal(c.ctr);
    var t, u := Joined(c.dev, c.id, ts, ctr, c.act, a), Joined(c.dev, c.id, ts, ctr, c.act, b);
    Utf16RoundTrip(t);
    if Encode(Utf8, t) == Encode(Utf8, u) {
      EncodeInjective(Utf8, t, u);
      SameHead(c.dev, c.id, ts, ctr, c.act, a, b);
      PrintInjective(Sort(ByUtf16, c.args), Sort(Plain, c.args));
    }
    SortAgrees(c.args);
  }

  lemma SameHead(dev: seq<nat>, id: seq<nat>, ts: seq<nat>, ctr: seq<nat>, act: seq<nat>, a: seq<nat>, b: seq<nat>)
    requires Joined(dev, id, ts, ctr, act, a) == Joined(dev, id, ts, ctr, act, b)
    ensures a == b
  {
    var n := |Joined(dev, id, ts, ctr, act, [])|;
    assert Joined(dev, id, ts, ctr, act, a)[n..] == a;
    assert Joined(dev, id, ts, ctr, act, b)[n..] == b;
  }

  // ------------------------------------------------------------- injectivity

  lemma LastNewline(a: seq<nat>, b: seq<nat>, c: seq<nat>, d: seq<nat>)
    requires a + [NEWLINE] + b == c + [NEWLINE] + d && NEWLINE !in b && NEWLINE !in d
    ensures a == c && b == d
  {
    var s := a + [NEWLINE] + b;
    assert s[|a|] == NEWLINE && s[|c|] == NEWLINE;
    assert forall i :: |a| < i < |s| ==> s[i] == b[i - |a| - 1];
    assert forall i :: |c| < i < |s| ==> s[i] == d[i - |c| - 1];
    assert a == s[..|a|] && c == s[..|c|] && b == s[|a| + 1..] && d == s[|c| + 1..];
  }

  lemma JoinedInjective(dev: seq<nat>, id: seq<nat>, ts: seq<nat>, ctr: seq<nat>, act: seq<nat>, args: seq<nat>,
                        dev': seq<nat>, id': seq<nat>, ts': seq<nat>, ctr': seq<nat>, act': seq<nat>, args': seq<nat>)
    requires Joined(dev, id, ts, ctr, act, args) == Joined(dev', id', ts', ctr', act', args')
    requires NEWLINE !in id && NEWLINE !in ts && NEWLINE !in ctr && NEWLINE !in act && NEWLINE !in args
    requires NEWLINE !in id' && NEWLINE !in ts' && NEWLINE !in ctr' && NEWLINE !in act' && NEWLINE !in args'
    ensures dev == dev' && id == id' && ts == ts' && ctr == ctr' && act == act' && args == args'
  {
    var h1, g1 := PREFIX + [NEWLINE] + dev, PREFIX + [NEWLINE] + dev';
    var h2, g2 := h1 + [NEWLINE] + id, g1 + [NEWLINE] + id';
    var h3, g3 := h2 + [NEWLINE] + ts, g2 + [NEWLINE] + ts';
    var h4, g4 := h3 + [NEWLINE] + ctr, g3 + [NEWLINE] + ctr';
    LastNewline(h4 + [NEWLINE] + act, args, g4 + [NEWLINE] + act', args');
    LastNewline(h4, act, g4, act');
    LastNewline(h3, ctr, g3, ctr');
    LastNewline(h2, ts, g2, ts');
    LastNewline(h1, id, g1, id');
    assert h1[|PREFIX| + 1..] == dev && g1[|PREFIX| + 1..] == dev';
  }

  lemma NumberInjective(m: int, n: int)
    requires PrintInt(m) == PrintInt(n)
    ensures m == n
  {
    ReadPrintInt(m, []);
    ReadPrintInt(n, []);
    assert PrintInt(m) + [] == PrintInt(m) && PrintInt(n) + [] == PrintInt(n);
  }

  predicate NoNewlines(c: Command) { NEWLINE !in c.id && NEWLINE !in c.act }

  lemma PartsHaveNoNewline(c: Command)
    ensures NEWLINE !in PrintInt(c.ts) && NEWLINE !in Decimal(c.ctr) && NEWLINE !in Canonical(c.args)
  {
    PrintIsPlain(Sort(Plain, c.args));
  }

  /** Without newlines in id and act, equal signing strings mean the same command, and conversely. */
  lemma SigningDetermines(c: Command, d: Command)
    requires WellFormed(AnyUnits, c.args) && WellFormed(AnyUnits, d.args) && NoNewlines(c) && NoNewlines(d)
    ensures SigningText(c) == SigningText(d) <==>
      && c.dev == d.dev && c.id == d.id && c.ts == d.ts && c.ctr == d.ctr && c.act == d.act
      && Meaning(c.args) == Meaning(d.args)
  {
    hide Canonical, PrintInt, Decimal, Joined, Meaning;
    CanonicalIsTheValue(c.args, d.args);
    if SigningText(c) == SigningText(d) {
      PartsHaveNoNewline(c);
      PartsHaveNoNewline(d);
      JoinedInjective(c.dev, c.id, PrintInt(c.ts), Decimal(c.ctr), c.act, Canonical(c.args),
                      d.dev, d.id, PrintInt(d.ts), Decimal(d.ctr), d.act, Canonical(d.args));
      NumberInjective(c.ts, d.ts);
      DecimalInjective(c.ctr, d.ctr);
    }
  }

  lemma DecimalInjective(m: nat, n: nat)
    requires Decimal(m) == Decimal(n)
    ensures m == n
  {
    NumberOfDecimal(m);
    NumberOfDecimal(n);
  }

  // ------------------------------------------------------ commands of one device

  /** The two number lines of a signing text, with the newlines around them. */
  function Numbers(ts: int, ctr: nat): seq<nat> {
    [NEWLINE] + PrintInt(ts) + [NEWLINE] + Decimal(ctr) + [NEWLINE]
  }

  /** The lines between the device and the arguments. */
  function Middle(c: Command): seq<nat> { c.id + Numbers(c.ts, c.ctr) + c.act }

  /** Two consecutive number lines at position i. */
  predicate Reading(m: seq<nat>, i: nat, ts: int, ctr: nat) {
    i + |Numbers(ts, ctr)| <= |m| && m[i..i + |Numbers(ts, ctr)|] == Numbers(ts, ctr)
  }

  /** The command that has its numbers there. */
  function Reread(c: Command, i: nat, ts: int, ctr: nat): Command
    requires Reading(Middle(c), i, ts, ctr)
  {
    c.(id := Middle(c)[..i], ts := ts, ctr := ctr, act := Middle(c)[i + |Numbers(ts, ctr)|..])
  }

  predicate SameCommand(c: Command, d: Command) {
    c.dev == d.dev && c.id == d.id && c.ts == d.ts && c.ctr == d.ctr && c.act == d.act
      && Meaning(c.args) == Meaning(d.args)
  }

  lemma SigningMiddle(c: Command)
    ensures SigningText(c) == PREFIX + [NEWLINE] + c.dev + [NEWLINE] + Middle(c) + [NEWLINE] + Canonical(c.args)
  {
    hide Canonical, PrintInt, Decimal;
    var h := PREFIX + [NEWLINE] + c.dev + [NEWLINE];
    assert h + (c.id + ([NEWLINE] + PrintInt(c.ts) + [NEWLINE] + Decimal(c.ctr) + [NEWLINE]) + c.act)
        == h + c.id + [NEWLINE] + PrintInt(c.ts) + [NEWLINE] + Decimal(c.ctr) + [NEWLINE] + c.act;
  }

  /** Commands of one device share their text exactly when they share these lines and the arguments. */
  lemma SameDevice(c: Command, d: Command)
    requires c.dev == d.dev && WellFormed(AnyUnits, c.args) && WellFormed(AnyUnits, d.args)
    ensures SigningText(c) == SigningText(d) <==> Middle(c) == Middle(d) && Meaning(c.args) == Meaning(d.args)
  {
    hide Canonical, Middle, SigningText, Meaning, PrintInt, Decimal;
    SigningMiddle(c);
    SigningMiddle(d);
    PartsHaveNoNewline(c);
    PartsHaveNoNewline(d);
    CanonicalIsTheValue(c.args, d.args);
    var h := PREFIX + [NEWLINE] + c.dev + [NEWLINE];
    if SigningText(c) == SigningText(d) {
      LastNewline(h + Middle(c), Canonical(c.args), h + Middle(d), Canonical(d.args));
      assert (h + Middle(c))[|h|..] == Middle(c) && (h + Middle(d))[|h|..] == Middle(d);
    }
  }

  lemma OwnReading(c: Command)
    ensures Reading(Middle(c), |c.id|, c.ts, c.ctr)
  {
    hide PrintInt, Decimal;
  }

  /** Rereading keeps the lines. */
  lemma RereadKeeps(c: Command, i: nat, ts: int, ctr: nat)
    requires Reading(Middle(c), i, ts, ctr)
    ensures var r := Reread(c, i, ts, ctr);
      Middle(r) == Middle(c) && |r.id| == i && |r.act| == |Middle(c)| - i - |Numbers(ts, ctr)|
  {
    hide PrintInt, Decimal;
  }

  /** One position holds one pair of numbers. */
  lemma ReadingUnique(m: seq<nat>, i: nat, ts: int, ctr: nat, ts': int, ctr': nat)
    requires Reading(m, i, ts, ctr) && Reading(m, i, ts', ctr')
    ensures ts == ts' && ctr == ctr'
  {
    hide PrintInt, Decimal, ReadInt;
    ReadNumbers(m, i, ts, ctr);
    ReadNumbers(m, i, ts', ctr');
  }

  lemma ReadNumbers(m: seq<nat>, i: nat, ts: int, ctr: nat)
    requires Reading(m, i, ts, ctr)
    ensures i + 1 <= |m| && ReadInt(m[i + 1..]).Done? && ReadInt(m[i + 1..]).value == ts
    ensures var rest := ReadInt(m[i + 1..]).rest;
      rest != [] && ReadInt(rest[1..]).Done? && ReadInt(rest[1..]).value == ctr
  {
    hide PrintInt, Decimal, ReadInt;
    var n := |Numbers(ts, ctr)|;
    var tail := m[i + n..];
    var rest := [NEWLINE] + Decimal(ctr) + [NEWLINE] + tail;
    assert m[i + 1..] == PrintInt(ts) + rest by {
      assert m == m[..i] + Numbers(ts, ctr) + tail;
    }
    ReadPrintInt(ts, rest);
    DecimalIsPrinted(ctr);
    ReadPrintInt(ctr, [NEWLINE] + tail);
    assert rest[1..] == PrintInt(ctr) + ([NEWLINE] + tail);
  }

  lemma DecimalIsPrinted(n: nat)
    ensures PrintInt(n) == Decimal(n)
  {}

  /** The same lines read at the same place are the same fields. */
  lemma SamePlace(c: Command, d: Command)
    requires Middle(c) == Middle(d) && |c.id| == |d.id|
    ensures c.id == d.id && c.ts == d.ts && c.ctr == d.ctr && c.act == d.act
  {
    hide PrintInt, Decimal;
    OwnReading(c);
    OwnReading(d);
    ReadingUnique(Middle(c), |c.id|, c.ts, c.ctr, d.ts, d.ctr);
    assert Middle(c)[..|c.id|] == c.id && Middle(d)[..|d.id|] == d.id;
    var n := |c.id| + |Numbers(c.ts, c.ctr)|;
    assert Middle(c)[n..] == c.act && Middle(d)[n..] == d.act;
  }

  /** For one device newlines in ids are harmless: with none in the acts, equal texts mean the same command. */
  lemma SameDeviceDetermines(c: Command, d: Command)
    requires c.dev == d.dev && WellFormed(AnyUnits, c.args) && WellFormed(AnyUnits, d.args)
    requires NEWLINE !in c.act && NEWLINE !in d.act
    ensures SigningText(c) == SigningText(d) <==> SameCommand(c, d)
  {
    hide SigningText, Meaning, PrintInt, Decimal;
    SameDevice(c, d);
    if Middle(c) == Middle(d) {
      PartsHaveNoNewline(c);
      PartsHaveNoNewline(d);
      var h2, g2 := c.id + [NEWLINE] + PrintInt(c.ts), d.id + [NEWLINE] + PrintInt(d.ts);
      assert Middle(c) == h2 + [NEWLINE] + Decimal(c.ctr) + [NEWLINE] + c.act;
      assert Middle(d) == g2 + [NEWLINE] + Decimal(d.ctr) + [NEWLINE] + d.act;
      LastNewline(h2 + [NEWLINE] + Decimal(c.ctr), c.act, g2 + [NEWLINE] + Decimal(d.ctr), d.act);
      LastNewline(h2, Decimal(c.ctr), g2, Decimal(d.ctr));
      LastNewline(c.id, PrintInt(c.ts), d.id, PrintInt(d.ts));
      SamePlace(c, d);
    }
  }

  /** A second pair of consecutive number lines among id, ts, ctr and act. */
  predicate AnotherReading(c: Command, i: nat, ts: int, ctr: nat) {
    i != |c.id| && Reading(Middle(c), i, ts, ctr)
  }

  /** Another command of the device with the same signing text. */
  ghost predicate Confused(c: Command, d: Command) {
    WellFormed(AnyUnits, d.args) && d.dev == c.dev && SigningText(d) == SigningText(c) && !SameCommand(c, d)
  }

  /** Every such command has its numbers at another place, and every other place gives one. */
  lemma ConfusedMeans(c: Command, d: Command)
    requires WellFormed(AnyUnits, c.args) && Confused(c, d)
    ensures AnotherReading(c, |d.id|, d.ts, d.ctr)
    ensures var r := Reread(c, |d.id|, d.ts, d.ctr);
      d.id == r.id && d.act == r.act && Meaning(d.args) == Meaning(r.args)
  {
    hide PrintInt, Decimal, SigningText, Meaning, Reading, Middle;
    SameDevice(d, c);
    OwnReading(d);
    if |d.id| == |c.id| {
      SamePlace(c, d);
    }
    RereadKeeps(c, |d.id|, d.ts, d.ctr);
    SamePlace(Reread(c, |d.id|, d.ts, d.ctr), d);
  }

  lemma RereadConfuses(c: Command, i: nat, ts: int, ctr: nat)
    requires WellFormed(AnyUnits, c.args) && AnotherReading(c, i, ts, ctr)
    ensures Confused(c, Reread(c, i, ts, ctr))
  {
    hide PrintInt, Decimal, SigningText, Meaning;
    RereadKeeps(c, i, ts, ctr);
    SameDevice(Reread(c, i, ts, ctr), c);
  }

  /** An id that holds two consecutive number lines confuses two commands of one device. */
  lemma NewlineInIdConfuses(c: Command, a: seq<nat>, ts: int, ctr: nat, b: seq<nat>) returns (d: Command)
    requires WellFormed(AnyUnits, c.args) && c.id == a + Numbers(ts, ctr) + b
    ensures Confused(c, d) && d.id == a && d.ts == ts && d.ctr == ctr && d.act == b + Numbers(c.ts, c.ctr) + c.act
  {
    hide PrintInt, Decimal, SigningText, Meaning;
    assert Middle(c) == a + Numbers(ts, ctr) + (b + Numbers(c.ts, c.ctr) + c.act);
    d := Reread(c, |a|, ts, ctr);
    RereadConfuses(c, |a|, ts, ctr);
  }

  /** So does an act whose first line is a number. */
  lemma NewlineInActConfuses(c: Command, n: nat, rest: seq<nat>) returns (d: Command)
    requires WellFormed(AnyUnits, c.args) && c.act == Decimal(n) + [NEWLINE] + rest
    ensures Confused(c, d) && d.id == c.id + [NEWLINE] + PrintInt(c.ts) && d.ts == c.ctr && d.ctr == n && d.act == rest
  {
    DecimalIsPrinted(c.ctr);
    hide PrintInt, Decimal, SigningText, Meaning;
    var a := c.id + [NEWLINE] + PrintInt(c.ts);
    assert Middle(c) == a + Numbers(c.ctr, n) + rest;
    d := Reread(c, |a|, c.ctr, n);
    RereadConfuses(c, |a|, c.ctr, n);
  }
}
