/**
 * JSON trees, the text both implementations print for a tree whose members are already in order
 * (firmware/main/canon_json.c, app/src/signing.js), and a reader of such text.
 */
module CanonicalJson {

  /** Strings and keys are sequences of code points, UTF-16 units or bytes; children are linked as in cJSON. */
  datatype Json =
    | Null
    | Bool(value: bool)
    | Num(n: int)
    | Str(text: seq<nat>)
    | Arr(items: Items)
    | Obj(members: Members)

  datatype Items = NoItems | Item(head: Json, tail: Items)
  datatype Members = NoMembers | Member(key: seq<nat>, value: Json, next: Members)

  const QUOTE := 34
  const BACKSLASH := 92
  const COMMA := 44
  const COLON := 58
  const MINUS := 45
  const NULL_TEXT: seq<nat> := [110, 117, 108, 108]
  const TRUE_TEXT: seq<nat> := [116, 114, 117, 101]
  const FALSE_TEXT: seq<nat> := [102, 97, 108, 115, 101]

  // ---------------------------------------------------------------- printing

  function Decimal(n: nat): (d: seq<nat>)
    ensures d != [] && forall i :: 0 <= i < |d| ==> Digit(d[i])
  {
    if n < 10 then [48 + n] else Decimal(n / 10) + [48 + n % 10]
  }

  predicate Digit(c: nat) { 48 <= c <= 57 }

  function PrintInt(n: int): seq<nat> {
    if n < 0 then [MINUS] + Decimal(-n) else Decimal(n)
  }

  function HexDigit(n: nat): nat
    requires n < 16
  {
    if n < 10 then 48 + n else 87 + n
  }

  function Escape(c: nat): (e: seq<nat>)
    ensures e != []
  {
    match c
    case 34 => [BACKSLASH, 34]
    case 92 => [BACKSLASH, 92]
    case 8 => [BACKSLASH, 98]
    case 12 => [BACKSLASH, 102]
    case 10 => [BACKSLASH, 110]
    case 13 => [BACKSLASH, 114]
    case 9 => [BACKSLASH, 116]
    case _ => if c < 32 then [BACKSLASH, 117, 48, 48, 48 + c / 16, HexDigit(c % 16)] else [c]
  }

  function EscapeAll(t: seq<nat>): seq<nat> {
    if t == [] then [] else Escape(t[0]) + EscapeAll(t[1..])
  }

  function Quoted(t: seq<nat>): seq<nat> { [QUOTE] + EscapeAll(t) + [QUOTE] }

  function Field(k: seq<nat>, text: seq<nat>): seq<nat> { Quoted(k) + [COLON] + text }

  /** The text of a tree, members in the order they have. */
  function Print(v: Json): seq<nat> {
    match v
    case Null => NULL_TEXT
    case Bool(b) => if b then TRUE_TEXT else FALSE_TEXT
    case Num(n) => PrintInt(n)
    case Str(t) => Quoted(t)
    case Arr(items) => [91] + PrintItems(items) + [93]
    case Obj(members) => [123] + PrintMembers(members) + [125]
  }

  function PrintItems(items: Items): seq<nat> {
    match items
    case NoItems => []
    case Item(v, tail) => Print(v) + (if tail.NoItems? then [] else [COMMA] + PrintItems(tail))
  }

  function PrintMembers(ms: Members): seq<nat> {
    match ms
    case NoMembers => []
    case Member(k, v, next) =>
      Field(k, Print(v)) + (if next.NoMembers? then [] else [COMMA] + PrintMembers(next))
  }

  // ----------------------------------------------------------------- reading

  datatype Read<T> = Fail | Done(value: T, rest: seq<nat>)

  function DigitSpan(s: seq<nat>): (n: nat)
    ensures n <= |s|
  {
    if s == [] || !Digit(s[0]) then 0 else 1 + DigitSpan(s[1..])
  }

  function NumberOf(d: seq<nat>): int {
    if d == [] then 0 else 10 * NumberOf(d[..|d| - 1]) - 48 + d[|d| - 1]
  }

  /** Digits without a leading zero, as section 6 of RFC 8259 asks. */
  predicate ProperDigits(d: seq<nat>) { d != [] && (d[0] == 48 ==> |d| == 1) }

  /** An integer; -0 is refused. */
  function ReadInt(s: seq<nat>): (r: Read<int>)
    ensures r.Done? ==> |r.rest| < |s|
  {
    if s == [] then Fail
    else
      var sign := if s[0] == MINUS then 1 else 0;
      var n := DigitSpan(s[sign..]);
      var d := s[sign..][..n];
      if !ProperDigits(d) || (sign == 1 && NumberOf(d) == 0) then Fail
      else Done(if sign == 1 then -NumberOf(d) else NumberOf(d), s[sign + n..])
  }

  function HexValue(c: nat): (h: int)
    ensures h < 16
  {
    if Digit(c) then c - 48 else if 97 <= c <= 102 then c - 87 else -1
  }

  /** Short escapes exist for these; other control characters have only the long one. */
  predicate HasShortEscape(c: nat) { c in {8, 9, 10, 12, 13} }

  /** One possibly escaped character; an escape that is not needed, or longer than needed, is refused. */
  function ReadChar(s: seq<nat>): (r: Read<nat>)
    ensures r.Done? ==> |r.rest| < |s|
  {
    if s == [] || s[0] < 32 || s[0] == QUOTE then Fail
    else if s[0] != BACKSLASH then Done(s[0], s[1..])
    else if |s| < 2 then Fail
    else match s[1]
      case 34 => Done(34, s[2..])
      case 92 => Done(92, s[2..])
      case 98 => Done(8, s[2..])
      case 102 => Done(12, s[2..])
      case 110 => Done(10, s[2..])
      case 114 => Done(13, s[2..])
      case 116 => Done(9, s[2..])
      case 117 =>
        if |s| >= 6 && s[2] == 48 && s[3] == 48 && 0 <= HexValue(s[4]) < 2 && HexValue(s[5]) >= 0 then
          var c := HexValue(s[4]) * 16 + HexValue(s[5]);
          if HasShortEscape(c) then Fail else Done(c, s[6..])
        else Fail
      case _ => Fail
  }

  /** The rest of a string, up to and including its closing quote. */
  function ReadChars(s: seq<nat>): (r: Read<seq<nat>>)
    ensures r.Done? ==> |r.rest| < |s|
    decreases |s|
  {
    if s == [] then Fail
    else if s[0] == QUOTE then Done([], s[1..])
    else match ReadChar(s)
      case Fail => Fail
      case Done(c, rest) =>
        match ReadChars(rest)
        case Fail => Fail
        case Done(t, after) => Done([c] + t, after)
  }

  predicate Begins(c: nat, s: seq<nat>) { s != [] && s[0] == c }

  function ReadWord(word: seq<nat>, v: Json, s: seq<nat>): (r: Read<Json>)
    requires word != []
    ensures r.Done? ==> |r.rest| < |s|
  {
    if |word| <= |s| && s[..|word|] == word then Done(v, s[|word|..]) else Fail
  }

  function ReadValue(s: seq<nat>): (r: Read<Json>)
    ensures r.Done? ==> |r.rest| < |s|
    decreases |s|, 0
  {
    if s == [] then Fail
    else if s[0] == 110 then ReadWord(NULL_TEXT, Null, s)
    else if s[0] == 116 then ReadWord(TRUE_TEXT, Bool(true), s)
    else if s[0] == 102 then ReadWord(FALSE_TEXT, Bool(false), s)
    else if s[0] == QUOTE then
      match ReadChars(s[1..])
      case Fail => Fail
      case Done(t, rest) => Done(Str(t), rest)
    else if s[0] == 91 then
      if Begins(93, s[1..]) then Done(Arr(NoItems), s[2..])
      else (match ReadItems(s[1..])
            case Fail => Fail
            case Done(items, rest) => Done(Arr(items), rest))
    else if s[0] == 123 then
      if Begins(125, s[1..]) then Done(Obj(NoMembers), s[2..])
      else (match ReadMembers(s[1..])
            case Fail => Fail
            case Done(ms, rest) => Done(Obj(ms), rest))
    else
      match ReadInt(s)
      case Fail => Fail
      case Done(n, rest) => Done(Num(n), rest)
  }

  /** Items up to and including the closing bracket. */
  function ReadItems(s: seq<nat>): (r: Read<Items>)
    ensures r.Done? ==> |r.rest| < |s|
    decreases |s|, 1
  {
    match ReadValue(s)
    case Fail => Fail
    case Done(v, rest) =>
      if Begins(93, rest) then Done(Item(v, NoItems), rest[1..])
      else if Begins(COMMA, rest) then
        match ReadItems(rest[1..])
        case Fail => Fail
        case Done(tail, after) => Done(Item(v, tail), after)
      else Fail
  }

  /** Members up to and including the closing brace. */
  function ReadMembers(s: seq<nat>): (r: Read<Members>)
    ensures r.Done? ==> |r.rest| < |s|
    decreases |s|, 1
  {
    if !Begins(QUOTE, s) then Fail
    else match ReadChars(s[1..])
      case Fail => Fail
      case Done(k, rest) =>
        if !Begins(COLON, rest) then Fail
        else match ReadValue(rest[1..])
          case Fail => Fail
          case Done(v, after) =>
            if Begins(125, after) then Done(Member(k, v, NoMembers), after[1..])
            else if Begins(COMMA, after) then
              match ReadMembers(after[1..])
              case Fail => Fail
              case Done(next, end) => Done(Member(k, v, next), end)
            else Fail
  }

  // ------------------------------------------------------------- round trips

  predicate AfterNumber(r: seq<nat>) { r == [] || !Digit(r[0]) }

  lemma {:induction false} NumberOfDecimal(n: nat)
    ensures NumberOf(Decimal(n)) == n
  {
    var d := Decimal(n);
    if n < 10 {
      assert d[..0] == [];
    } else {
      NumberOfDecimal(n / 10);
      assert d[..|d| - 1] == Decimal(n / 10);
    }
  }

  /** The first digit is 0 for the number 0 alone. */
  lemma {:induction false} DecimalIsProper(n: nat)
    ensures Decimal(n)[0] == 48 <==> n == 0
    ensures ProperDigits(Decimal(n))
  {
    if n >= 10 {
      DecimalIsProper(n / 10);
    }
  }

  lemma {:induction false} DigitSpanStops(d: seq<nat>, r: seq<nat>)
    requires (forall i :: 0 <= i < |d| ==> Digit(d[i])) && AfterNumber(r)
    ensures DigitSpan(d + r) == |d|
  {
    if d == [] {
      assert d + r == r;
    } else {
      DigitSpanStops(d[1..], r);
      assert (d + r)[1..] == d[1..] + r;
    }
  }

  lemma ReadPrintInt(n: int, r: seq<nat>)
    requires AfterNumber(r)
    ensures ReadInt(PrintInt(n) + r) == Done(n, r)
  {
    hide NumberOf, DigitSpan, Decimal;
    var m := if n < 0 then -n else n;
    var s := PrintInt(n) + r;
    var sign := if n < 0 then 1 else 0;
    NumberOfDecimal(m);
    DecimalIsProper(m);
    DigitSpanStops(Decimal(m), r);
    assert s[sign..] == Decimal(m) + r;
    assert s[sign..][..|Decimal(m)|] == Decimal(m) && s[sign + |Decimal(m)|..] == r;
  }

  lemma ReadEscape(c: nat, r: seq<nat>)
    ensures ReadChar(Escape(c) + r) == Done(c, r) && Escape(c)[0] != QUOTE
  {
    var e := Escape(c);
    assert (e + r)[|e|..] == r;
    if |e| == 6 {
      assert e + r == [BACKSLASH, 117, 48, 48, 48 + c / 16, HexDigit(c % 16)] + r;
    }
  }

  lemma {:induction false} ReadEscapeAll(t: seq<nat>, r: seq<nat>)
    ensures ReadChars(EscapeAll(t) + [QUOTE] + r) == Done(t, r)
  {
    var s := EscapeAll(t) + [QUOTE] + r;
    if t == [] {
      assert s == [QUOTE] + r;
    } else {
      hide Escape, ReadChar;
      var s' := EscapeAll(t[1..]) + [QUOTE] + r;
      ReadEscapeAll(t[1..], r);
      ReadEscape(t[0], s');
      assert s == Escape(t[0]) + s';
      OneMoreChar(s, t[0], s', t[1..], r);
      assert t == [t[0]] + t[1..];
    }
  }

  lemma OneMoreChar(s: seq<nat>, c: nat, rest: seq<nat>, t: seq<nat>, after: seq<nat>)
    requires s != [] && s[0] != QUOTE && ReadChar(s) == Done(c, rest) && ReadChars(rest) == Done(t, after)
    ensures ReadChars(s) == Done([c] + t, after)
  {}

  lemma PrintBegins(v: Json)
    ensures Print(v) != [] && Print(v)[0] !in {93, 125, COMMA}
  {}

  lemma ReadPrintWord(v: Json, r: seq<nat>)
    requires v.Null? || v.Bool?
    ensures ReadValue(Print(v) + r) == Done(v, r)
  {
    hide ReadInt, ReadChars;
    var s := Print(v) + r;
    var n := |Print(v)|;
    assert s[..n] == Print(v) && s[n..] == r;
  }

  lemma ReadPrintScalar(v: Json, r: seq<nat>)
    requires (v.Num? || v.Str?) && AfterNumber(r)
    ensures ReadValue(Print(v) + r) == Done(v, r)
  {
    hide ReadInt, ReadChars, Escape, EscapeAll;
    var s := Print(v) + r;
    if v.Num? {
      ReadPrintInt(v.n, r);
      assert Digit(s[0]) || s[0] == MINUS;
    } else {
      ReadEscapeAll(v.text, r);
      assert s[0] == QUOTE && s[1..] == EscapeAll(v.text) + [QUOTE] + r;
    }
  }

  lemma ReadArrText(t: seq<nat>, items: Items, r: seq<nat>)
    requires t != [] && t[0] != 93 && ReadItems(t + [93] + r) == Done(items, r)
    ensures ReadValue([91] + t + [93] + r) == Done(Arr(items), r)
  {
    hide ReadItems, ReadMembers, ReadChars, ReadInt, ReadWord;
    assert ([91] + t + [93] + r)[1..] == t + [93] + r;
  }

  lemma ReadObjText(t: seq<nat>, members: Members, r: seq<nat>)
    requires t != [] && t[0] == QUOTE && ReadMembers(t + [125] + r) == Done(members, r)
    ensures ReadValue([123] + t + [125] + r) == Done(Obj(members), r)
  {
    hide ReadItems, ReadMembers, ReadChars, ReadInt, ReadWord;
    assert ([123] + t + [125] + r)[1..] == t + [125] + r;
  }

  lemma ReadEmpty(r: seq<nat>)
    ensures ReadValue([91, 93] + r) == Done(Arr(NoItems), r) && ReadValue([123, 125] + r) == Done(Obj(NoMembers), r)
  {
    hide ReadItems, ReadMembers, ReadChars, ReadInt, ReadWord;
    assert ([91, 93] + r)[1..] == [93] + r && ([91, 93] + r)[2..] == r;
    assert ([123, 125] + r)[1..] == [125] + r && ([123, 125] + r)[2..] == r;
  }

  lemma ReadArr(items: Items, r: seq<nat>)
    requires items.Item? ==> ReadItems(PrintItems(items) + [93] + r) == Done(items, r)
    ensures ReadValue(Print(Arr(items)) + r) == Done(Arr(items), r)
  {
    hide ReadItems, ReadValue;
    if items.NoItems? {
      ReadEmpty(r);
      assert [91] + PrintItems(items) + [93] == [91, 93];
    } else {
      PrintBegins(items.head);
      ReadArrText(PrintItems(items), items, r);
    }
  }

  lemma ReadObj(members: Members, r: seq<nat>)
    requires members.Member? ==> ReadMembers(PrintMembers(members) + [125] + r) == Done(members, r)
    ensures ReadValue(Print(Obj(members)) + r) == Done(Obj(members), r)
  {
    hide ReadMembers, ReadValue;
    if members.NoMembers? {
      ReadEmpty(r);
      assert [123] + PrintMembers(members) + [125] == [123, 125];
    } else {
      MembersBegin(members);
      ReadObjText(PrintMembers(members), members, r);
    }
  }

  lemma MembersBegin(ms: Members)
    requires ms.Member?
    ensures PrintMembers(ms) != [] && PrintMembers(ms)[0] == QUOTE
  {
    hide EscapeAll, Print;
  }

  lemma {:induction false} ReadPrint(v: Json, r: seq<nat>)
    requires AfterNumber(r)
    ensures ReadValue(Print(v) + r) == Done(v, r)
    decreases v
  {
    hide Escape, Decimal, ReadInt, ReadChars, EscapeAll;
    if v.Arr? {
      if v.items.Item? {
        ReadPrintItems(v.items, r);
      }
      ReadArr(v.items, r);
    } else if v.Obj? {
      if v.members.Member? {
        ReadPrintMembers(v.members, r);
      }
      ReadObj(v.members, r);
    } else if v.Num? || v.Str? {
      ReadPrintScalar(v, r);
    } else {
      ReadPrintWord(v, r);
    }
  }

  lemma {:induction false} ReadPrintItems(items: Items, r: seq<nat>)
    requires items.Item?
    ensures ReadItems(PrintItems(items) + [93] + r) == Done(items, r)
    decreases items
  {
    hide Print, ReadValue;
    var s := PrintItems(items) + [93] + r;
    var rest := (if items.tail.NoItems? then [] else [COMMA] + PrintItems(items.tail)) + [93] + r;
    assert s == Print(items.head) + rest;
    ReadPrint(items.head, rest);
    if items.tail.NoItems? {
      assert rest[1..] == r;
    } else {
      ReadPrintItems(items.tail, r);
      assert rest[1..] == PrintItems(items.tail) + [93] + r;
    }
  }

  lemma ReadPrintKey(k: seq<nat>, tail: seq<nat>)
    ensures var s := Quoted(k) + [COLON] + tail;
      && Begins(QUOTE, s) && ReadChars(s[1..]) == Done(k, [COLON] + tail) && ([COLON] + tail)[1..] == tail
  {
    hide ReadChars, EscapeAll;
    assert (Quoted(k) + [COLON] + tail)[1..] == EscapeAll(k) + [QUOTE] + ([COLON] + tail);
    ReadEscapeAll(k, [COLON] + tail);
  }

  lemma {:induction false} ReadPrintMembers(ms: Members, r: seq<nat>)
    requires ms.Member?
    ensures ReadMembers(PrintMembers(ms) + [125] + r) == Done(ms, r)
    decreases ms
  {
    hide Print, ReadValue, ReadChars, Quoted;
    var s := PrintMembers(ms) + [125] + r;
    var rest := (if ms.next.NoMembers? then [] else [COMMA] + PrintMembers(ms.next)) + [125] + r;
    assert s == Quoted(ms.key) + [COLON] + (Print(ms.value) + rest);
    ReadPrintKey(ms.key, Print(ms.value) + rest);
    ReadPrint(ms.value, rest);
    if ms.next.NoMembers? {
      assert rest[1..] == r;
    } else {
      ReadPrintMembers(ms.next, r);
      assert rest[1..] == PrintMembers(ms.next) + [125] + r;
    }
  }

  // ------------------------------------------------- one text for every tree

  lemma {:induction false} SpanIsDigits(s: seq<nat>)
    ensures forall i :: 0 <= i < DigitSpan(s) ==> Digit(s[i])
  {
    if s != [] && Digit(s[0]) {
      SpanIsDigits(s[1..]);
      assert s == [s[0]] + s[1..];
    }
  }

  /** Digits without a leading zero are the decimal form of the number they spell. */
  lemma {:induction false} DecimalOfNumber(d: seq<nat>)
    requires ProperDigits(d) && forall i :: 0 <= i < |d| ==> Digit(d[i])
    ensures NumberOf(d) >= 0 && Decimal(NumberOf(d)) == d
    ensures d[0] != 48 ==> NumberOf(d) > 0
  {
    var init, last := d[..|d| - 1], d[|d| - 1];
    if init == [] {
      assert d == [last];
    } else {
      DecimalOfNumber(init);
      assert d == init + [last];
      var n := NumberOf(d);
      assert n / 10 == NumberOf(init) && n % 10 == last - 48;
    }
  }

  lemma PrintReadInt(s: seq<nat>)
    requires ReadInt(s).Done?
    ensures s == PrintInt(ReadInt(s).value) + ReadInt(s).rest
  {
    hide NumberOf, DigitSpan, Decimal;
    var sign := if s[0] == MINUS then 1 else 0;
    var n := DigitSpan(s[sign..]);
    var d := s[sign..][..n];
    SpanIsDigits(s[sign..]);
    DecimalOfNumber(d);
    assert s == s[..sign] + d + s[sign + n..];
  }

  lemma PrintReadChar(s: seq<nat>)
    requires ReadChar(s).Done?
    ensures s == Escape(ReadChar(s).value) + ReadChar(s).rest
  {
    var c, rest := ReadChar(s).value, ReadChar(s).rest;
    var n := |s| - |rest|;
    assert s == s[..n] + rest;
    assert n == 1 ==> s[..1] == [s[0]];
    assert n == 2 ==> s[..2] == [s[0], s[1]];
    assert n == 6 ==> s[..6] == [s[0], s[1], s[2], s[3], s[4], s[5]];
  }

  lemma {:induction false} PrintReadChars(s: seq<nat>)
    requires ReadChars(s).Done?
    ensures s == EscapeAll(ReadChars(s).value) + [QUOTE] + ReadChars(s).rest
    decreases |s|
  {
    hide Escape, ReadChar;
    if s[0] != QUOTE {
      PrintReadChar(s);
      var c, rest := ReadChar(s).value, ReadChar(s).rest;
      PrintReadChars(rest);
      var t := ReadChars(rest).value;
      assert ReadChars(s).value == [c] + t && ([c] + t)[1..] == t;
      assert EscapeAll([c] + t) == Escape(c) + EscapeAll(t);
    } else {
      assert s == [QUOTE] + s[1..];
    }
  }

  /** Whatever the reader takes is the printed form of what it reads: every tree has one text. */
  lemma {:induction false} PrintRead(s: seq<nat>)
    requires ReadValue(s).Done?
    ensures s == Print(ReadValue(s).value) + ReadValue(s).rest
    decreases |s|, 0
  {
    hide ReadInt, ReadChars, ReadItems, ReadMembers, EscapeAll, PrintInt, PrintItems, PrintMembers;
    if s[0] == QUOTE {
      PrintReadChars(s[1..]);
      assert s == [QUOTE] + s[1..];
    } else if s[0] == 91 || s[0] == 123 {
      assert s == [s[0]] + s[1..];
      if s[0] == 91 && !Begins(93, s[1..]) {
        PrintReadItems(s[1..]);
      } else if s[0] == 123 && !Begins(125, s[1..]) {
        PrintReadMembers(s[1..]);
      } else {
        assert s == [s[0], s[1]] + s[2..];
        PrintEmpty();
      }
    } else if s[0] !in {110, 116, 102} {
      PrintReadInt(s);
    }
  }

  lemma PrintEmpty()
    ensures Print(Arr(NoItems)) == [91, 93] && Print(Obj(NoMembers)) == [123, 125]
  {}

  lemma {:induction false} PrintReadItems(s: seq<nat>)
    requires ReadItems(s).Done?
    ensures s == PrintItems(ReadItems(s).value) + [93] + ReadItems(s).rest
    decreases |s|, 1
  {
    hide ReadValue, Print;
    PrintRead(s);
    var v, rest := ReadValue(s).value, ReadValue(s).rest;
    if Begins(COMMA, rest) {
      PrintReadItems(rest[1..]);
      var tail, after := ReadItems(rest[1..]).value, ReadItems(rest[1..]).rest;
      assert tail.Item?;
      assert s == Print(v) + [COMMA] + PrintItems(tail) + [93] + after;
      assert PrintItems(Item(v, tail)) == Print(v) + ([COMMA] + PrintItems(tail));
    } else {
      assert s == Print(v) + [93] + rest[1..];
      assert PrintItems(Item(v, NoItems)) == Print(v) + [];
    }
  }

  lemma PrintReadField(s: seq<nat>)
    requires Begins(QUOTE, s) && ReadChars(s[1..]).Done? && Begins(COLON, ReadChars(s[1..]).rest)
    ensures s == Field(ReadChars(s[1..]).value, []) + ReadChars(s[1..]).rest[1..]
  {
    hide ReadChars, EscapeAll;
    PrintReadChars(s[1..]);
    assert s == [QUOTE] + s[1..];
  }

  lemma {:induction false} PrintReadMembers(s: seq<nat>)
    requires ReadMembers(s).Done?
    ensures s == PrintMembers(ReadMembers(s).value) + [125] + ReadMembers(s).rest
    decreases |s|, 1
  {
    hide ReadValue, Print, ReadChars, Quoted;
    PrintReadField(s);
    var k, rest := ReadChars(s[1..]).value, ReadChars(s[1..]).rest;
    PrintRead(rest[1..]);
    var v, after := ReadValue(rest[1..]).value, ReadValue(rest[1..]).rest;
    var f := Field(k, Print(v));
    assert s == f + after;
    hide Field;
    if Begins(COMMA, after) {
      PrintReadMembers(after[1..]);
      var next, end := ReadMembers(after[1..]).value, ReadMembers(after[1..]).rest;
      assert PrintMembers(Member(k, v, next)) == f + ([COMMA] + PrintMembers(next));
      assert after == [COMMA] + (PrintMembers(next) + [125] + end);
    } else {
      assert PrintMembers(Member(k, v, NoMembers)) == f + [];
      assert after == [125] + after[1..];
    }
  }

  /** Different trees print differently. */
  lemma PrintInjective(v: Json, w: Json)
    requires Print(v) == Print(w)
    ensures v == w
  {
    ReadPrint(v, []);
    ReadPrint(w, []);
    assert Print(v) + [] == Print(v);
    assert Print(w) + [] == Print(w);
  }

  // ------------------------------------------------------- no control characters

  predicate Plain(s: seq<nat>) { forall i :: 0 <= i < |s| ==> s[i] >= 32 }

  lemma {:induction false} QuotedIsPlain(t: seq<nat>)
    ensures Plain(EscapeAll(t)) && Plain(Quoted(t))
  {
    if t != [] {
      QuotedIsPlain(t[1..]);
    }
  }

  /** Printed text holds no control character, in particular no newline. */
  lemma {:induction false} PrintIsPlain(v: Json)
    ensures Plain(Print(v))
    decreases v
  {
    match v
    case Null => {}
    case Bool(_) => {}
    case Num(_) => {}
    case Str(t) => QuotedIsPlain(t);
    case Arr(items) => PrintItemsIsPlain(items);
    case Obj(ms) => PrintMembersIsPlain(ms);
  }

  lemma {:induction false} PrintItemsIsPlain(items: Items)
    ensures Plain(PrintItems(items))
    decreases items
  {
    if items.Item? {
      PrintIsPlain(items.head);
      PrintItemsIsPlain(items.tail);
    }
  }

  lemma {:induction false} PrintMembersIsPlain(ms: Members)
    ensures Plain(PrintMembers(ms))
    decreases ms
  {
    if ms.Member? {
      QuotedIsPlain(ms.key);
      PrintIsPlain(ms.value);
      PrintMembersIsPlain(ms.next);
    }
  }
}
