/**
 * The command envelope on the wire: serializeEnvelope (app/src/signing.js) prints it, rw_auth_verify
 * (firmware/main/auth.c) takes it apart and rebuilds the signing string from what it found.
 */
module Envelopes {
  import opened Options
  import opened Unicode
  import opened CanonicalJson
  import opened CanonicalOrder
  import opened CanonicalAgreement
  import opened Printers
  import opened Signing

  datatype Envelope = Envelope(version: int, command: Command, kid: seq<nat>, sig: seq<nat>)

  const V: seq<nat> := [118]
  const DEV: seq<nat> := [100, 101, 118]
  const ID: seq<nat> := [105, 100]
  const TS: seq<nat> := [116, 115]
  const CTR: seq<nat> := [99, 116, 114]
  const ACT: seq<nat> := [97, 99, 116]
  const ARGS: seq<nat> := [97, 114, 103, 115]
  const KID: seq<nat> := [107, 105, 100]
  const SIG: seq<nat> := [115, 105, 103]

  // sizes of the fields the device copies out, each with room for a NUL
  const DEV_SIZE := 17
  const ID_SIZE := 64
  const ACT_SIZE := 24
  const KID_SIZE := 8
  const SIG_SIZE := 128

  /** The envelope as one JSON object, members in the order they are sent. */
  function Tree(e: Envelope): Json { Obj(Member(V, Num(e.version), DevOn(e))) }

  function DevOn(e: Envelope): Members { Member(DEV, Str(e.command.dev), IdOn(e)) }

  function IdOn(e: Envelope): Members { Member(ID, Str(e.command.id), TsOn(e)) }

  function TsOn(e: Envelope): Members { Member(TS, Num(e.command.ts), CtrOn(e)) }

  function CtrOn(e: Envelope): Members { Member(CTR, Num(e.command.ctr), ActOn(e)) }

  function ActOn(e: Envelope): Members { Member(ACT, Str(e.command.act), ArgsOn(e)) }

  function ArgsOn(e: Envelope): Members { Member(ARGS, e.command.args, KidOn(e)) }

  function KidOn(e: Envelope): Members { Member(KID, Str(e.kid), SigOn(e)) }

  function SigOn(e: Envelope): Members { Member(SIG, Str(e.sig), NoMembers) }

  function WithArgs(e: Envelope, args: Json): Envelope { e.(command := e.command.(args := args)) }

  // -------------------------------------------------------------------- phone

  /** serializeEnvelope: the arguments are printed in canonical form; None is the TypeError. */
  method SerializeEnvelope(e: Envelope) returns (text: Option<seq<nat>>)
    requires WellFormed(Utf16Text, e.command.args)
    ensures text.Some? <==> e.command.args.Obj? || e.command.args.Null?
    ensures text.Some? ==>
      var args := if e.command.args.Null? then Obj(NoMembers) else Sort(Plain, e.command.args);
      text.value == Print(Tree(WithArgs(e, args)))
  {
    hide Canonical, PrintInt, Quoted, Decimal, Field, PrintMembers;
    var c := e.command;
    var args := CanonicalArgs(Some(c.args));
    if args.None? {
      return None;
    }
    ghost var sent := WithArgs(e, if c.args.Null? then Obj(NoMembers) else Sort(Plain, c.args));
    CanonicalMeans(c.args);
    NoArgs();
    var out := [123] + Field(V, PrintInt(e.version));
    FirstField(V, Num(e.version), DevOn(sent));
    NextField(out, DEV, Str(c.dev), IdOn(sent));
    out := out + [COMMA] + Field(DEV, Quoted(c.dev));
    NextField(out, ID, Str(c.id), TsOn(sent));
    out := out + [COMMA] + Field(ID, Quoted(c.id));
    NextField(out, TS, Num(c.ts), CtrOn(sent));
    out := out + [COMMA] + Field(TS, PrintInt(c.ts));
    NextField(out, CTR, Num(c.ctr), ActOn(sent));
    out := out + [COMMA] + Field(CTR, PrintInt(c.ctr));
    NextField(out, ACT, Str(c.act), ArgsOn(sent));
    out := out + [COMMA] + Field(ACT, Quoted(c.act));
    NextField(out, ARGS, sent.command.args, KidOn(sent));
    out := out + [COMMA] + Field(ARGS, args.value);
    NextField(out, KID, Str(e.kid), SigOn(sent));
    out := out + [COMMA] + Field(KID, Quoted(e.kid));
    LastField(SIG, Str(e.sig));
    text := Some(out + [COMMA] + Field(SIG, Quoted(e.sig)) + [125]);
  }

  lemma NoArgs()
    ensures Print(Obj(NoMembers)) == NO_ARGS
  {}

  /** The text of an object grows by one field. */
  lemma NextField(out: seq<nat>, k: seq<nat>, v: Json, next: Members)
    requires next.Member?
    ensures out + [COMMA] + PrintMembers(Member(k, v, next)) + [125]
         == out + [COMMA] + Field(k, Print(v)) + [COMMA] + PrintMembers(next) + [125]
  {
    var rest := PrintMembers(next);
    var field := Field(k, Print(v));
    assert out + [COMMA] + (field + ([COMMA] + rest)) == out + [COMMA] + field + [COMMA] + rest;
  }

  lemma FirstField(k: seq<nat>, v: Json, next: Members)
    requires next.Member?
    ensures Print(Obj(Member(k, v, next))) == [123] + Field(k, Print(v)) + [COMMA] + PrintMembers(next) + [125]
  {
    var rest := PrintMembers(next);
    assert [123] + (Field(k, Print(v)) + ([COMMA] + rest)) == [123] + Field(k, Print(v)) + [COMMA] + rest;
  }

  lemma LastField(k: seq<nat>, v: Json)
    ensures PrintMembers(Member(k, v, NoMembers)) == Field(k, Print(v))
  {
    assert Field(k, Print(v)) + [] == Field(k, Print(v));
  }

  /** An envelope of characters a phone can hold. */
  predicate Proper(e: Envelope) {
    var c := e.command;
    && ProperCommand(c) && Fits(Chars, c.dev) && Fits(Chars, c.id) && Fits(Chars, c.act) && Fits(Chars, e.kid)
      && Fits(Chars, e.sig)
    && -MAX_INT <= e.version <= MAX_INT && -MAX_INT <= c.ts <= MAX_INT && c.ctr <= MAX_INT
  }

  lemma NamesDiffer()
    ensures V !in {DEV, ID, TS, CTR, ACT, ARGS, KID, SIG} && DEV !in {ID, TS, CTR, ACT, ARGS, KID, SIG}
    ensures ID !in {TS, CTR, ACT, ARGS, KID, SIG} && TS !in {CTR, ACT, ARGS, KID, SIG}
    ensures CTR !in {ACT, ARGS, KID, SIG} && ACT !in {ARGS, KID, SIG} && ARGS !in {KID, SIG} && KID != SIG
  {
    assert ID[0] == 105 && TS[0] == 116 && DEV[0] == 100 && CTR[0] == 99 && ACT[0] == 97 && KID[0] == 107
      && SIG[0] == 115;
  }

  lemma NamesOf(e: Envelope)
    ensures Keys(SigOn(e)) == {SIG} && Keys(KidOn(e)) == {KID, SIG} && Keys(ArgsOn(e)) == {ARGS, KID, SIG}
    ensures Keys(ActOn(e)) == {ACT, ARGS, KID, SIG} && Keys(CtrOn(e)) == {CTR, ACT, ARGS, KID, SIG}
    ensures Keys(TsOn(e)) == {TS, CTR, ACT, ARGS, KID, SIG} && Keys(IdOn(e)) == {ID, TS, CTR, ACT, ARGS, KID, SIG}
    ensures Keys(DevOn(e)) == {DEV, ID, TS, CTR, ACT, ARGS, KID, SIG}
  {
    assert Keys(NoMembers) == {};
  }

  lemma NamesAreText()
    ensures Fits(Chars, V) && Fits(Chars, DEV) && Fits(Chars, ID) && Fits(Chars, TS) && Fits(Chars, CTR)
    ensures Fits(Chars, ACT) && Fits(Chars, ARGS) && Fits(Chars, KID) && Fits(Chars, SIG)
    ensures Ascii(V) && Ascii(DEV) && Ascii(ID) && Ascii(TS) && Ascii(CTR) && Ascii(ACT) && Ascii(ARGS) && Ascii(KID)
      && Ascii(SIG)
  {}

  lemma OneMore(k: seq<nat>, v: Json, next: Members)
    ensures Distinct(Member(k, v, next)) <==> k !in Keys(next) && Distinct(next)
    ensures WellFormedMembers(Chars, Member(k, v, next)) <==>
      Fits(Chars, k) && WellFormed(Chars, v) && WellFormedMembers(Chars, next)
  {}

  lemma NoneIsWellFormed()
    ensures Keys(NoMembers) == {} && Distinct(NoMembers) && WellFormedMembers(Chars, NoMembers)
  {}

  lemma TreeIsWellFormed(e: Envelope)
    requires Proper(e)
    ensures WellFormed(Chars, Tree(e))
    ensures WellFormedMembers(Chars, DevOn(e)) && WellFormedMembers(Chars, IdOn(e)) && WellFormedMembers(Chars, TsOn(e))
    ensures WellFormedMembers(Chars, CtrOn(e)) && WellFormedMembers(Chars, ActOn(e))
      && WellFormedMembers(Chars, ArgsOn(e))
    ensures WellFormedMembers(Chars, KidOn(e)) && WellFormedMembers(Chars, SigOn(e))
  {
    hide Fits, Keys, Distinct, WellFormedMembers;
    var c := e.command;
    NamesDiffer();
    NamesOf(e);
    NamesAreText();
    NoneIsWellFormed();
    OneMore(SIG, Str(e.sig), NoMembers);
    OneMore(KID, Str(e.kid), SigOn(e));
    OneMore(ARGS, c.args, KidOn(e));
    OneMore(ACT, Str(c.act), ArgsOn(e));
    OneMore(CTR, Num(c.ctr), ActOn(e));
    OneMore(TS, Num(c.ts), CtrOn(e));
    OneMore(ID, Str(c.id), TsOn(e));
    OneMore(DEV, Str(c.dev), IdOn(e));
    OneMore(V, Num(e.version), DevOn(e));
  }

  function EncodedEnvelope(e: Encoding, v: Envelope): Envelope
    requires Proper(v)
  {
    Envelope(v.version, EncodedCommand(e, v.command), Encode(e, v.kid), Encode(e, v.sig))
  }

  lemma EncodedField(e: Encoding, k: seq<nat>, v: Json, next: Members)
    requires Ascii(k) && WellFormedMembers(Chars, Member(k, v, next))
    ensures EncodedMembers(e, Member(k, v, next)) == Member(k, Encoded(e, v), EncodedMembers(e, next))
  {
    EncodeAscii(e, k);
  }

  /** Encoding the object encodes its fields; the names are ASCII. */
  lemma TreeEncoded(e: Encoding, v: Envelope)
    requires Proper(v)
    ensures WellFormed(Chars, Tree(v)) && Encoded(e, Tree(v)) == Tree(EncodedEnvelope(e, v))
  {
    hide Encode, Ascii, Fits, EncodedMembers;
    var c := v.command;
    TreeIsWellFormed(v);
    NamesAreText();
    EncodedEnds(e);
    EncodedField(e, SIG, Str(v.sig), NoMembers);
    EncodedField(e, KID, Str(v.kid), SigOn(v));
    EncodedField(e, ARGS, c.args, KidOn(v));
    EncodedField(e, ACT, Str(c.act), ArgsOn(v));
    EncodedField(e, CTR, Num(c.ctr), ActOn(v));
    EncodedField(e, TS, Num(c.ts), CtrOn(v));
    EncodedField(e, ID, Str(c.id), TsOn(v));
    EncodedField(e, DEV, Str(c.dev), IdOn(v));
    EncodedField(e, V, Num(v.version), DevOn(v));
  }

  lemma EncodedEnds(e: Encoding)
    ensures EncodedMembers(e, NoMembers) == NoMembers
  {}

  /** The envelope as the phone prints it: characters, the arguments in UTF-16 order. */
  function Sent(e: Envelope): (sent: Envelope)
    requires Proper(e)
    ensures Proper(sent)
  {
    SortWellFormed(ByUtf16, e.command.args);
    WithArgs(e, Sort(ByUtf16, e.command.args))
  }

  /** What serializeEnvelope prints for the phone's envelope. */
  function PhoneText(e: Envelope): seq<nat>
    requires Proper(e)
  {
    Print(Tree(WithArgs(EncodedEnvelope(Utf16, e), Sort(Plain, Encoded(Utf16, e.command.args)))))
  }

  /** It encodes the envelope in characters. */
  lemma PhoneTextEncodes(e: Envelope)
    requires Proper(e)
    ensures Text(Print(Tree(Sent(e)))) && PhoneText(e) == Encode(Utf16, Print(Tree(Sent(e))))
    ensures forall i :: 0 <= i < |PhoneText(e)| ==> PhoneText(e)[i] < 0x10000
    ensures WellFormedUtf16(PhoneText(e)) && DecodeUtf16(PhoneText(e)) == Print(Tree(Sent(e)))
  {
    hide Encode, Encoded, Print, DecodeUtf16, WellFormedUtf16, Text, Tree, Fits;
    SortEncoded(Utf16, e.command.args);
    TreeEncoded(Utf16, Sent(e));
    PrintEncoded(Utf16, Tree(Sent(e)));
    Utf16RoundTrip(Print(Tree(Sent(e))));
  }

  /** The request body: TextEncoder applied to that text. */
  function WireBytes(e: Envelope): seq<nat>
    requires Proper(e)
  {
    PhoneTextEncodes(e);
    Encode(Utf8, DecodeUtf16(PhoneText(e)))
  }

  // ------------------------------------------------------------------- device

  /** copy_str_field */
  function StringField(ms: Members, name: seq<nat>, size: nat): (r: Option<seq<nat>>) {
    if name !in Keys(ms) || !Lookup(name, ms).Str? then None
    else
      var text := Lookup(name, ms).text;
      if 0 < |text| < size then Some(text) else None
  }

  /** num_field_i64 */
  function NumberField(ms: Members, name: seq<nat>): (r: Option<int>) {
    if name !in Keys(ms) || !Lookup(name, ms).Num? then None
    else
      var n := Lookup(name, ms).n;
      if -MAX_INT <= n <= MAX_INT then Some(n) else None
  }

  /** The structural half of rw_auth_verify: every field is there, of its type, and fits. */
  function Received(json: Json): (r: Option<Envelope>) {
    if !json.Obj? then None
    else
      var ms := json.members;
      var (v, ts, ctr) := (NumberField(ms, V), NumberField(ms, TS), NumberField(ms, CTR));
      var (dev, id) := (StringField(ms, DEV, DEV_SIZE), StringField(ms, ID, ID_SIZE));
      var act := StringField(ms, ACT, ACT_SIZE);
      var (kid, sig) := (StringField(ms, KID, KID_SIZE), StringField(ms, SIG, SIG_SIZE));
      if v.None? || ts.None? || ctr.None? || ctr.value < 1 || dev.None? || id.None? || act.None? || kid.None?
        || sig.None?
         || ARGS !in Keys(ms) || !Lookup(ARGS, ms).Obj? then None
      else
        Some(Envelope(v.value, Command(dev.value, id.value, ts.value, ctr.value, act.value, Lookup(ARGS, ms)),
          kid.value, sig.value))
  }

  /** A command whose fields fit the device's buffers and number range. */
  predicate Takes(c: Command) {
    && -MAX_INT <= c.ts <= MAX_INT && 1 <= c.ctr <= MAX_INT && c.args.Obj?
    && 0 < |c.dev| < DEV_SIZE && 0 < |c.id| < ID_SIZE && 0 < |c.act| < ACT_SIZE
  }

  /** An envelope the device takes: its strings are neither empty nor too long. */
  predicate Admissible(e: Envelope) {
    -MAX_INT <= e.version <= MAX_INT && Takes(e.command) && 0 < |e.kid| < KID_SIZE && 0 < |e.sig| < SIG_SIZE
  }

  /** A second pair of consecutive number lines that leaves an id and an act of admissible length. */
  predicate AnotherTaken(c: Command, i: nat, ts: int, ctr: nat) {
    && AnotherReading(c, i, ts, ctr) && 0 < i < ID_SIZE && -MAX_INT <= ts <= MAX_INT && 1 <= ctr <= MAX_INT
    && 0 < |Middle(c)| - i - |Numbers(ts, ctr)| < ACT_SIZE
  }

  /**
   * Among the commands a device takes, one shares its signing text with another exactly when the lines of its id,
   * ts, ctr and act hold a second such pair.
   */
  lemma ConfusedExactly(c: Command)
    requires Takes(c) && WellFormed(AnyUnits, c.args)
    ensures (exists d :: Takes(d) && Confused(c, d)) <==> exists i: nat, ts, ctr: nat :: AnotherTaken(c, i, ts, ctr)
  {
    hide SigningText, Meaning, Middle, Numbers, Reading;
    if d :| Takes(d) && Confused(c, d) {
      ConfusedMeans(c, d);
      RereadKeeps(c, |d.id|, d.ts, d.ctr);
      assert AnotherTaken(c, |d.id|, d.ts, d.ctr);
    }
    if i: nat, ts, ctr: nat :| AnotherTaken(c, i, ts, ctr) {
      RereadConfuses(c, i, ts, ctr);
      RereadKeeps(c, i, ts, ctr);
      assert Takes(Reread(c, i, ts, ctr));
    }
  }

  lemma FoundBehind(k: seq<nat>, v: Json, next: Members)
    ensures k in Keys(Member(k, v, next)) && Lookup(k, Member(k, v, next)) == v
    ensures forall j :: j in Keys(next) && j != k ==>
      j in Keys(Member(k, v, next)) && Lookup(j, Member(k, v, next)) == Lookup(j, next)
  {}

  /** The fields are found again, whatever they hold. */
  lemma TakenApart(e: Envelope)
    ensures Received(Tree(e)) == if Admissible(e) then Some(e) else None
  {
    hide Keys, Lookup;
    var c := e.command;
    NamesDiffer();
    NamesOf(e);
    FoundBehind(V, Num(e.version), DevOn(e));
    FoundBehind(DEV, Str(c.dev), IdOn(e));
    FoundBehind(ID, Str(c.id), TsOn(e));
    FoundBehind(TS, Num(c.ts), CtrOn(e));
    FoundBehind(CTR, Num(c.ctr), ActOn(e));
    FoundBehind(ACT, Str(c.act), ArgsOn(e));
    FoundBehind(ARGS, c.args, KidOn(e));
    FoundBehind(KID, Str(e.kid), SigOn(e));
    FoundBehind(SIG, Str(e.sig), NoMembers);
  }

  /** The envelope as it arrives: every field in UTF-8, the arguments in the phone's order. */
  function Arrived(e: Envelope): Envelope
    requires Proper(e)
  {
    EncodedEnvelope(Utf8, Sent(e))
  }

  /** The device reads exactly the envelope the phone sent, or refuses it for the size of a field. */
  lemma EnvelopeArrives(e: Envelope)
    requires Proper(e)
    ensures ReadValue(WireBytes(e)) == Done(Tree(Arrived(e)), [])
    ensures Received(Tree(Arrived(e))) == if Admissible(EncodedEnvelope(Utf8, e)) then Some(Arrived(e)) else None
  {
    hide Encode, Encoded, Print, DecodeUtf16, WellFormedUtf16, Received, ReadValue, Tree, Fits, Admissible;
    PhoneTextEncodes(e);
    TreeEncoded(Utf8, Sent(e));
    PrintEncoded(Utf8, Tree(Sent(e)));
    ReadPrint(Tree(Arrived(e)), []);
    assert Print(Tree(Arrived(e))) + [] == Print(Tree(Arrived(e)));
    TakenApart(Arrived(e));
    SameSizes(e);
  }

  lemma SameSizes(e: Envelope)
    requires Proper(e)
    ensures Admissible(EncodedEnvelope(Utf8, e)) == Admissible(Arrived(e))
  {
    hide Encode, Fits;
  }

  /** From what arrived the device rebuilds the text of the command itself, whatever the order of arguments. */
  lemma SameSigningText(e: Envelope)
    requires Proper(e)
    ensures SigningText(Arrived(e).command) == SigningText(EncodedCommand(Utf8, e.command))
  {
    hide Encode, Encoded, Print, Joined, PrintInt, Decimal;
    var args := e.command.args;
    SortedTwiceIsSortedOnce(ByUtf16, args);
    CanonicalEncoded(Utf8, args);
    CanonicalEncoded(Utf8, Sort(ByUtf16, args));
  }

  /** The device verifies the bytes the phone signed exactly when no object of the arguments has conflicting keys. */
  lemma EnvelopeVerifies(e: Envelope)
    requires Proper(e)
    ensures SigningText(Arrived(e).command) == SigningBytes(e.command) <==> KeysAgree(e.command.args)
  {
    hide Encode, Encoded, Print, SigningText, SigningBytes;
    SameSigningText(e);
    SigningAgrees(e.command);
  }

  /** Any two trees of the same arguments are printed alike, so parsing the canonical text first changes nothing. */
  lemma ArgumentsReparsed(e: Envelope, args: Json)
    requires WellFormed(AnyUnits, e.command.args) && WellFormed(AnyUnits, args)
      && Meaning(args) == Meaning(e.command.args)
    ensures Print(Tree(WithArgs(e, Sort(Plain, args)))) == Print(Tree(WithArgs(e, Sort(Plain, e.command.args))))
  {
    MeaningSorts(args, e.command.args);
  }
}
