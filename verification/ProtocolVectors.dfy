/** Texts of the protocol spelled out, as docs/test-vectors.json and docs/protocol.md give them. */
module ProtocolVectors {
  import opened Unicode
  import opened CanonicalJson
  import opened CanonicalOrder
  import opened Signing
  import opened Envelopes

  function Chars(s: string): (t: seq<nat>)
    ensures |t| == |s|
  {
    seq(|s|, i requires 0 <= i < |s| => s[i] as nat)
  }

  lemma {:induction false} Verbatim(t: seq<nat>)
    requires forall i :: 0 <= i < |t| ==> t[i] >= 32 && t[i] != QUOTE && t[i] != BACKSLASH
    ensures EscapeAll(t) == t
  {
    if t != [] {
      Verbatim(t[1..]);
      assert t == [t[0]] + t[1..];
    }
  }

  lemma DecimalStep(n: nat, d: nat)
    requires d < 10
    ensures n > 0 ==> Decimal(10 * n + d) == Decimal(n) + [48 + d]
    ensures Decimal(d) == [48 + d]
  {}

  lemma Timestamp()
    ensures Decimal(1724457660) == Chars("1724457660")
  {
    hide Decimal;
    DecimalStep(172445766, 0);
    DecimalStep(17244576, 6);
    DecimalStep(1724457, 6);
    DecimalStep(172445, 7);
    DecimalStep(17244, 5);
    DecimalStep(1724, 4);
    DecimalStep(172, 4);
    DecimalStep(17, 2);
    DecimalStep(1, 7);
    DecimalStep(0, 1);
  }

  /** {"text": "hunter2!", "enter": true} */
  function TypeArguments(): Json {
    Obj(Member(Chars("text"), Str(Chars("hunter2!")), Member(Chars("enter"), Bool(true), NoMembers)))
  }

  lemma SortsEnterFirst(v: Json, w: Json)
    requires v.Str? && w.Bool?
    ensures Sort(Plain, Obj(Member(Chars("text"), v, Member(Chars("enter"), w, NoMembers))))
         == Obj(Member(Chars("enter"), w, Member(Chars("text"), v, NoMembers)))
  {
    var text, enter := Chars("text"), Chars("enter");
    assert enter[0] < text[0];
    assert Less(enter, text) && !Less(text, enter);
    hide Less, Chars;
    var last := Member(enter, w, NoMembers);
    assert SortMembers(Plain, last) == last;
    assert SortMembers(Plain, Member(text, v, last)) == Insert(Plain, text, Sort(Plain, v), last);
    assert Insert(Plain, text, v, last) == Member(enter, w, Insert(Plain, text, v, NoMembers));
  }

  /** The text of an object of two members. */
  lemma TwoMembers(a: seq<nat>, v: Json, b: seq<nat>, w: Json)
    ensures Print(Obj(Member(a, v, Member(b, w, NoMembers))))
         == [123] + Field(a, Print(v)) + [COMMA] + Field(b, Print(w)) + [125]
  {
    hide Field;
    var f, g := Field(a, Print(v)), Field(b, Print(w));
    assert PrintMembers(Member(b, w, NoMembers)) == g + [];
    assert [123] + (f + ([COMMA] + (g + []))) + [125] == [123] + f + [COMMA] + g + [125];
  }

  lemma NothingToEscape()
    ensures EscapeAll(Chars("text")) == Chars("text") && EscapeAll(Chars("enter")) == Chars("enter")
    ensures EscapeAll(Chars("hunter2!")) == Chars("hunter2!")
  {
    hide EscapeAll;
    Verbatim(Chars("text"));
    Verbatim(Chars("enter"));
    Verbatim(Chars("hunter2!"));
  }

  lemma TypeArgumentsText()
    ensures Canonical(TypeArguments()) == Chars("{\"enter\":true,\"text\":\"hunter2!\"}")
  {
    hide Chars, Sort, SortMembers, Print, PrintMembers, EscapeAll;
    NothingToEscape();
    SortsEnterFirst(Str(Chars("hunter2!")), Bool(true));
    TwoMembers(Chars("enter"), Bool(true), Chars("text"), Str(Chars("hunter2!")));
    Scalars(Chars("hunter2!"));
    SpelledOut();
  }

  lemma SpelledOut()
    ensures [123] + ([QUOTE] + Chars("enter") + [QUOTE] + [COLON] + TRUE_TEXT) + [COMMA]
          + ([QUOTE] + Chars("text") + [QUOTE] + [COLON] + ([QUOTE] + Chars("hunter2!") + [QUOTE])) + [125]
         == Chars("{\"enter\":true,\"text\":\"hunter2!\"}")
  {}

  lemma Scalars(t: seq<nat>)
    ensures Print(Bool(true)) == TRUE_TEXT && Print(Str(t)) == Quoted(t)
  {}

  /** The second test vector, for any device and id. */
  lemma SecondVector(dev: seq<nat>, id: seq<nat>)
    ensures SigningText(Command(dev, id, 1724457660, 2, Chars("type"), TypeArguments()))
         == Chars("remote-wake-v1") + [10] + dev + [10] + id + [10] + Chars("1724457660") + [10]
          + Chars("2") + [10] + Chars("type") + [10] + Chars("{\"enter\":true,\"text\":\"hunter2!\"}")
  {
    hide Canonical, Decimal;
    Timestamp();
    DecimalStep(0, 2);
    TypeArgumentsText();
    assert Chars("remote-wake-v1") == PREFIX;
    assert Chars("2") == [50];
  }

  /** [["LGUI","L"],["ENTER"]] */
  lemma NestedArrays(a: seq<nat>, b: seq<nat>, c: seq<nat>)
    ensures Print(Arr(Item(Arr(Item(Str(a), Item(Str(b), NoItems))), Item(Arr(Item(Str(c), NoItems)), NoItems))))
         == Chars("[[") + Quoted(a) + Chars(",") + Quoted(b) + Chars("],[") + Quoted(c) + Chars("]]")
  {
    hide Quoted;
    var (p, q, r) := (Quoted(a), Quoted(b), Quoted(c));
    assert PrintItems(Item(Str(b), NoItems)) == q + [];
    assert PrintItems(Item(Str(a), Item(Str(b), NoItems))) == p + ([44] + (q + []));
    assert PrintItems(Item(Str(c), NoItems)) == r + [];
    var first, second := Arr(Item(Str(a), Item(Str(b), NoItems))), Arr(Item(Str(c), NoItems));
    assert Print(first) == [91] + p + [44] + q + [93];
    assert Print(second) == [91] + r + [93];
    hide Print;
    Brackets(first, second);
  }

  lemma Brackets(first: Json, second: Json)
    ensures Print(Arr(Item(first, Item(second, NoItems)))) == [91] + Print(first) + [44] + Print(second) + [93]
  {
    assert PrintItems(Item(second, NoItems)) == Print(second) + [];
    assert PrintItems(Item(first, Item(second, NoItems))) == Print(first) + ([44] + (Print(second) + []));
  }

  lemma Words()
    ensures Print(Null) == Chars("null") && Print(Bool(true)) == Chars("true") && Print(Bool(false)) == Chars("false")
    ensures Print(Obj(NoMembers)) == Chars("{}") && Print(Arr(NoItems)) == Chars("[]") && Print(Num(-7)) == Chars("-7")
  {}

  /** The names of the fields of an envelope, in the order they are sent. */
  lemma FieldNames()
    ensures [V, DEV, ID, TS, CTR, ACT, ARGS, KID, SIG]
         == [Chars("v"), Chars("dev"), Chars("id"), Chars("ts"), Chars("ctr"), Chars("act"), Chars("args"),
             Chars("kid"), Chars("sig")]
  {
    assert V == Chars("v") && DEV == Chars("dev") && ID == Chars("id") && TS == Chars("ts") && CTR == Chars("ctr");
    assert ACT == Chars("act") && ARGS == Chars("args") && KID == Chars("kid") && SIG == Chars("sig");
  }
}
