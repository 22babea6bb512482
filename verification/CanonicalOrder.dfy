/**
 * Canonical JSON: members sorted by key at every level. When do the phone, which sorts UTF-16 code units,
 * and the device, which sorts UTF-8 bytes, print the same bytes; and what does the text determine?
 */
module CanonicalOrder {
  import opened Unicode
  import opened CanonicalJson

  /** Order of keys seen as code points: plain, or as UTF-16 code units sort them. */
  datatype Order = Plain | ByUtf16

  predicate Before(o: Order, a: seq<nat>, b: seq<nat>) {
    Less(a, b) != (o.ByUtf16? && Conflict(a, b))
  }

  function Keys(ms: Members): set<seq<nat>> {
    if ms.NoMembers? then {} else {ms.key} + Keys(ms.next)
  }

  predicate Distinct(ms: Members) {
    ms.Member? ==> ms.key !in Keys(ms.next) && Distinct(ms.next)
  }

  const MAX_INT := 9007199254740991

  /** What a string of units may be. */
  datatype Kind =
    | AnyUnits  // any code units
    | CString   // bytes up to the first NUL
    | Utf16Text // code units without a lone surrogate
    | Chars     // code points of well-formed, NUL-free text

  predicate Fits(kind: Kind, t: seq<nat>) {
    match kind
    case AnyUnits => true
    case CString => 0 !in t
    case Utf16Text => WellFormedUtf16(t)
    case Chars => Text(t) && 0 !in t
  }

  /** Strings that fit, distinct keys in every object, integers within 2^53 - 1. */
  predicate WellFormed(kind: Kind, v: Json) {
    match v
    case Null => true
    case Bool(_) => true
    case Num(n) => -MAX_INT <= n <= MAX_INT
    case Str(t) => Fits(kind, t)
    case Arr(items) => WellFormedItems(kind, items)
    case Obj(ms) => Distinct(ms) && WellFormedMembers(kind, ms)
  }

  predicate WellFormedItems(kind: Kind, items: Items) {
    items.Item? ==> WellFormed(kind, items.head) && WellFormedItems(kind, items.tail)
  }

  predicate WellFormedMembers(kind: Kind, ms: Members) {
    ms.Member? ==> Fits(kind, ms.key) && WellFormed(kind, ms.value) && WellFormedMembers(kind, ms.next)
  }

  lemma {:induction false} Weaken(kind: Kind, v: Json)
    requires WellFormed(kind, v)
    ensures WellFormed(AnyUnits, v)
    decreases v
  {
    if v.Arr? {
      WeakenItems(kind, v.items);
    } else if v.Obj? {
      WeakenMembers(kind, v.members);
    }
  }

  lemma {:induction false} WeakenItems(kind: Kind, items: Items)
    requires WellFormedItems(kind, items)
    ensures WellFormedItems(AnyUnits, items)
    decreases items
  {
    if items.Item? {
      Weaken(kind, items.head);
      WeakenItems(kind, items.tail);
    }
  }

  lemma {:induction false} WeakenMembers(kind: Kind, ms: Members)
    requires WellFormedMembers(kind, ms)
    ensures WellFormedMembers(AnyUnits, ms) && (kind.Chars? ==> TextKeys(ms))
    decreases ms
  {
    if ms.Member? {
      Weaken(kind, ms.value);
      WeakenMembers(kind, ms.next);
    }
  }

  // ----------------------------------------------------------------- sorting

  function Insert(o: Order, k: seq<nat>, v: Json, ms: Members): Members {
    if ms.Member? && Before(o, ms.key, k) then Member(ms.key, ms.value, Insert(o, k, v, ms.next))
    else Member(k, v, ms)
  }

  /** Sorts the members of every object. */
  function Sort(o: Order, v: Json): Json {
    match v
    case Arr(items) => Arr(SortItems(o, items))
    case Obj(ms) => Obj(SortMembers(o, ms))
    case _ => v
  }

  function SortItems(o: Order, items: Items): Items {
    if items.NoItems? then NoItems else Item(Sort(o, items.head), SortItems(o, items.tail))
  }

  function SortMembers(o: Order, ms: Members): Members {
    if ms.NoMembers? then NoMembers else Insert(o, ms.key, Sort(o, ms.value), SortMembers(o, ms.next))
  }

  /** Canonical text over the units of a tree. */
  function Canonical(v: Json): seq<nat> { Print(Sort(Plain, v)) }

  ghost predicate Sorted(o: Order, ms: Members) {
    ms.Member? ==> Sorted(o, ms.next) && forall k :: k in Keys(ms.next) ==> Before(o, ms.key, k)
  }

  ghost predicate TextKeys(ms: Members) { forall k :: k in Keys(ms) ==> Text(k) }

  /** The UTF-16 order is an order of well-formed text only. */
  ghost predicate Orders(o: Order, ms: Members) { o.ByUtf16? ==> TextKeys(ms) }

  lemma BeforeIsTotal(o: Order, a: seq<nat>, b: seq<nat>)
    ensures !(Before(o, a, b) && Before(o, b, a))
    ensures a != b ==> Before(o, a, b) || Before(o, b, a)
  {
    LessIsTotal(a, b);
    ConflictSymmetric(a, b);
  }

  /** Both orders are the order of encoded keys. */
  lemma BeforeMeansLess(e: Encoding, a: seq<nat>, b: seq<nat>)
    requires Text(a) && Text(b)
    ensures Before(OrderOf(e), a, b) == Less(Encode(e, a), Encode(e, b))
  {
    EncodedOrder(e, a, b);
  }

  lemma BeforeIsTransitive(o: Order, a: seq<nat>, b: seq<nat>, c: seq<nat>)
    requires Before(o, a, b) && Before(o, b, c) && (o.ByUtf16? ==> Text(a) && Text(b) && Text(c))
    ensures Before(o, a, c)
  {
    if o.Plain? {
      LessIsTransitive(a, b, c);
    } else {
      BeforeMeansLess(Utf16, a, b);
      BeforeMeansLess(Utf16, b, c);
      BeforeMeansLess(Utf16, a, c);
      LessIsTransitive(Encode(Utf16, a), Encode(Utf16, b), Encode(Utf16, c));
    }
  }

  lemma {:induction false} InsertKeys(o: Order, k: seq<nat>, v: Json, ms: Members)
    ensures Keys(Insert(o, k, v, ms)) == Keys(ms) + {k}
  {
    if ms.Member? && Before(o, ms.key, k) {
      InsertKeys(o, k, v, ms.next);
    }
  }

  lemma {:induction false} InsertSorted(o: Order, k: seq<nat>, v: Json, ms: Members)
    requires Sorted(o, ms) && k !in Keys(ms) && Orders(o, Member(k, v, ms))
    ensures Sorted(o, Insert(o, k, v, ms))
  {
    hide Before;
    if ms.Member? {
      BeforeIsTotal(o, ms.key, k);
      assert k in Keys(Member(k, v, ms)) && Keys(ms) <= Keys(Member(k, v, ms));
      if Before(o, ms.key, k) {
        assert Orders(o, Member(k, v, ms.next));
        InsertSorted(o, k, v, ms.next);
        InsertKeys(o, k, v, ms.next);
      } else {
        forall x | x in Keys(ms.next) ensures Before(o, k, x) {
          BeforeIsTransitive(o, k, ms.key, x);
        }
      }
    }
  }

  /** Sorting keeps the keys and leaves them sorted. */
  lemma {:induction false} SortMembersSorts(o: Order, ms: Members)
    requires Distinct(ms) && Orders(o, ms)
    ensures Keys(SortMembers(o, ms)) == Keys(ms) && Sorted(o, SortMembers(o, ms))
  {
    if ms.Member? {
      assert Keys(ms) == {ms.key} + Keys(ms.next);
      SortMembersSorts(o, ms.next);
      InsertKeys(o, ms.key, Sort(o, ms.value), SortMembers(o, ms.next));
      InsertSorted(o, ms.key, Sort(o, ms.value), SortMembers(o, ms.next));
    }
  }

  // ---------------------------------------------------- encoding of whole trees

  function OrderOf(e: Encoding): Order { if e.Utf8? then Plain else ByUtf16 }

  /** The tree as the phone (UTF-16) or the device (UTF-8) holds it. */
  function Encoded(e: Encoding, v: Json): Json
    requires WellFormed(Chars, v)
  {
    match v
    case Str(t) => Str(Encode(e, t))
    case Arr(items) => Arr(EncodedItems(e, items))
    case Obj(ms) => Obj(EncodedMembers(e, ms))
    case _ => v
  }

  function EncodedItems(e: Encoding, items: Items): Items
    requires WellFormedItems(Chars, items)
  {
    if items.NoItems? then NoItems else Item(Encoded(e, items.head), EncodedItems(e, items.tail))
  }

  function EncodedMembers(e: Encoding, ms: Members): Members
    requires WellFormedMembers(Chars, ms)
  {
    if ms.NoMembers? then NoMembers
    else Member(Encode(e, ms.key), Encoded(e, ms.value), EncodedMembers(e, ms.next))
  }

  lemma {:induction false} InsertWellFormed(o: Order, k: seq<nat>, v: Json, ms: Members)
    requires Fits(Chars, k) && WellFormed(Chars, v) && WellFormedMembers(Chars, ms) && Distinct(ms) && k !in Keys(ms)
    ensures WellFormedMembers(Chars, Insert(o, k, v, ms)) && Distinct(Insert(o, k, v, ms))
  {
    if ms.Member? && Before(o, ms.key, k) {
      InsertWellFormed(o, k, v, ms.next);
      InsertKeys(o, k, v, ms.next);
    }
  }

  lemma {:induction false} SortWellFormed(o: Order, v: Json)
    requires WellFormed(Chars, v)
    ensures WellFormed(Chars, Sort(o, v))
    decreases v
  {
    if v.Arr? {
      SortItemsWellFormed(o, v.items);
    } else if v.Obj? {
      SortMembersWellFormed(o, v.members);
    }
  }

  lemma {:induction false} SortItemsWellFormed(o: Order, items: Items)
    requires WellFormedItems(Chars, items)
    ensures WellFormedItems(Chars, SortItems(o, items))
    decreases items
  {
    if items.Item? {
      SortWellFormed(o, items.head);
      SortItemsWellFormed(o, items.tail);
    }
  }

  lemma {:induction false} SortMembersWellFormed(o: Order, ms: Members)
    requires WellFormedMembers(Chars, ms) && Distinct(ms)
    ensures WellFormedMembers(Chars, SortMembers(o, ms)) && Distinct(SortMembers(o, ms))
    decreases ms
  {
    if ms.Member? {
      SortWellFormed(o, ms.value);
      SortMembersWellFormed(o, ms.next);
      WeakenMembers(Chars, ms.next);
      SortMembersSorts(o, ms.next);
      InsertWellFormed(o, ms.key, Sort(o, ms.value), SortMembers(o, ms.next));
    }
  }

  lemma {:induction false} InsertEncoded(e: Encoding, k: seq<nat>, v: Json, ms: Members)
    requires Fits(Chars, k) && WellFormed(Chars, v) && WellFormedMembers(Chars, ms) && Distinct(ms) && k !in Keys(ms)
    ensures WellFormedMembers(Chars, Insert(OrderOf(e), k, v, ms))
    ensures Insert(Plain, Encode(e, k), Encoded(e, v), EncodedMembers(e, ms))
         == EncodedMembers(e, Insert(OrderOf(e), k, v, ms))
  {
    hide Encode;
    InsertWellFormed(OrderOf(e), k, v, ms);
    if ms.Member? {
      BeforeMeansLess(e, ms.key, k);
      if Before(OrderOf(e), ms.key, k) {
        InsertEncoded(e, k, v, ms.next);
      }
    }
  }

  /** Sorting encoded keys by unit is sorting the keys by the order of that encoding. */
  lemma {:induction false} SortEncoded(e: Encoding, v: Json)
    requires WellFormed(Chars, v)
    ensures WellFormed(Chars, Sort(OrderOf(e), v))
    ensures Sort(Plain, Encoded(e, v)) == Encoded(e, Sort(OrderOf(e), v))
    decreases v
  {
    SortWellFormed(OrderOf(e), v);
    if v.Arr? {
      SortEncodedItems(e, v.items);
    } else if v.Obj? {
      SortEncodedMembers(e, v.members);
    }
  }

  lemma {:induction false} SortEncodedItems(e: Encoding, items: Items)
    requires WellFormedItems(Chars, items)
    ensures WellFormedItems(Chars, SortItems(OrderOf(e), items))
    ensures SortItems(Plain, EncodedItems(e, items)) == EncodedItems(e, SortItems(OrderOf(e), items))
    decreases items
  {
    SortItemsWellFormed(OrderOf(e), items);
    if items.Item? {
      SortEncoded(e, items.head);
      SortEncodedItems(e, items.tail);
    }
  }

  lemma {:induction false} SortEncodedMembers(e: Encoding, ms: Members)
    requires WellFormedMembers(Chars, ms) && Distinct(ms)
    ensures WellFormedMembers(Chars, SortMembers(OrderOf(e), ms))
    ensures SortMembers(Plain, EncodedMembers(e, ms)) == EncodedMembers(e, SortMembers(OrderOf(e), ms))
    decreases ms
  {
    var o := OrderOf(e);
    SortMembersWellFormed(o, ms);
    if ms.Member? {
      SortEncoded(e, ms.value);
      SortEncodedMembers(e, ms.next);
      SortMembersWellFormed(o, ms.next);
      WeakenMembers(Chars, ms.next);
      SortMembersSorts(o, ms.next);
      InsertEncoded(e, ms.key, Sort(o, ms.value), SortMembers(o, ms.next));
    }
  }

  // ------------------------------------------- printing commutes with encoding

  lemma {:induction false} EscapeEncoded(e: Encoding, t: seq<nat>)
    requires Text(t)
    ensures Text(EscapeAll(t)) && Encode(e, EscapeAll(t)) == EscapeAll(Encode(e, t))
  {
    if t != [] {
      EscapeEncoded(e, t[1..]);
      EscapeUnits(e, t[0]);
      EscapeConcat(Units(e, t[0]), Encode(e, t[1..]));
      EncodeConcat(e, Escape(t[0]), EscapeAll(t[1..]));
    }
  }

  lemma {:induction false} EscapeConcat(a: seq<nat>, b: seq<nat>)
    ensures EscapeAll(a + b) == EscapeAll(a) + EscapeAll(b)
  {
    hide Escape;
    if a == [] {
      assert a + b == b;
    } else {
      EscapeConcat(a[1..], b);
      assert (a + b)[0] == a[0] && (a + b)[1..] == a[1..] + b;
      var head, tail := Escape(a[0]), EscapeAll(a[1..]);
      assert head + (tail + EscapeAll(b)) == head + tail + EscapeAll(b);
    }
  }

  lemma EscapeUnits(e: Encoding, c: nat)
    requires Scalar(c)
    ensures Text(Escape(c)) && Encode(e, Escape(c)) == EscapeAll(Units(e, c))
  {
    if c < 0x80 {
      EncodeAscii(e, Escape(c));
      assert EscapeAll([c]) == Escape(c) + EscapeAll([c][1..]);
    } else {
      EncodeOne(e, c);
      HighUnits(Units(e, c));
    }
  }

  lemma {:induction false} HighUnits(u: seq<nat>)
    requires forall i :: 0 <= i < |u| ==> u[i] >= 0x80
    ensures EscapeAll(u) == u
  {
    if u != [] {
      HighUnits(u[1..]);
      assert u == [u[0]] + u[1..];
    }
  }

  lemma EncodeAround(e: Encoding, open: seq<nat>, body: seq<nat>, close: seq<nat>)
    requires Ascii(open) && Ascii(close) && Text(body)
    ensures Text(open + body + close) && Encode(e, open + body + close) == open + Encode(e, body) + close
  {
    EncodeAscii(e, open);
    EncodeAscii(e, close);
    EncodeConcat(e, open, body);
    EncodeConcat(e, open + body, close);
  }

  lemma QuotedEncoded(e: Encoding, t: seq<nat>)
    requires Text(t)
    ensures Text(Quoted(t)) && Encode(e, Quoted(t)) == Quoted(Encode(e, t))
  {
    EscapeEncoded(e, t);
    EncodeAround(e, [QUOTE], EscapeAll(t), [QUOTE]);
  }

  lemma {:induction false} PrintEncoded(e: Encoding, v: Json)
    requires WellFormed(Chars, v)
    ensures Text(Print(v)) && Print(Encoded(e, v)) == Encode(e, Print(v))
    decreases v
  {
    hide Encode, Quoted;
    if v.Arr? {
      PrintItemsEncoded(e, v.items);
      EncodeAround(e, [91], PrintItems(v.items), [93]);
    } else if v.Obj? {
      PrintMembersEncoded(e, v.members);
      EncodeAround(e, [123], PrintMembers(v.members), [125]);
    } else if v.Str? {
      QuotedEncoded(e, v.text);
    } else {
      assert Ascii(Print(v));
      EncodeAscii(e, Print(v));
    }
  }

  lemma EncodeAfter(e: Encoding, open: seq<nat>, body: seq<nat>)
    requires Ascii(open) && Text(body)
    ensures Text(open + body) && Encode(e, open + body) == open + Encode(e, body)
  {
    EncodeAscii(e, open);
    EncodeConcat(e, open, body);
  }

  lemma {:induction false} PrintItemsEncoded(e: Encoding, items: Items)
    requires WellFormedItems(Chars, items)
    ensures Text(PrintItems(items)) && PrintItems(EncodedItems(e, items)) == Encode(e, PrintItems(items))
    decreases items
  {
    if items.Item? {
      hide Encode;
      PrintEncoded(e, items.head);
      if items.tail.Item? {
        PrintItemsEncoded(e, items.tail);
        EncodeAfter(e, [COMMA], PrintItems(items.tail));
        EncodeConcat(e, Print(items.head), [COMMA] + PrintItems(items.tail));
      } else {
        assert Print(items.head) + [] == Print(items.head);
      }
    }
  }

  lemma FieldEncoded(e: Encoding, k: seq<nat>, text: seq<nat>)
    requires Text(k) && Text(text)
    ensures Text(Field(k, text)) && Encode(e, Field(k, text)) == Field(Encode(e, k), Encode(e, text))
  {
    hide Encode, Quoted;
    QuotedEncoded(e, k);
    EncodeAfter(e, [COLON], text);
    EncodeConcat(e, Quoted(k), [COLON] + text);
    assert Quoted(k) + ([COLON] + text) == Quoted(k) + [COLON] + text;
  }

  lemma {:induction false} PrintMembersEncoded(e: Encoding, ms: Members)
    requires WellFormedMembers(Chars, ms)
    ensures Text(PrintMembers(ms)) && PrintMembers(EncodedMembers(e, ms)) == Encode(e, PrintMembers(ms))
    decreases ms
  {
    if ms.Member? {
      hide Encode, Field, Print, WellFormed, Encoded;
      PrintEncoded(e, ms.value);
      FieldEncoded(e, ms.key, Print(ms.value));
      var one := Field(ms.key, Print(ms.value));
      if ms.next.Member? {
        PrintMembersEncoded(e, ms.next);
        EncodeAfter(e, [COMMA], PrintMembers(ms.next));
        EncodeConcat(e, one, [COMMA] + PrintMembers(ms.next));
      } else {
        assert one + [] == one;
      }
    }
  }

  /** Either side's canonical text is the encoding of the tree sorted in that encoding's order. */
  lemma CanonicalEncoded(e: Encoding, v: Json)
    requires WellFormed(Chars, v)
    ensures WellFormed(Chars, Sort(OrderOf(e), v)) && Text(Print(Sort(OrderOf(e), v)))
    ensures Canonical(Encoded(e, v)) == Encode(e, Print(Sort(OrderOf(e), v)))
  {
    SortEncoded(e, v);
    PrintEncoded(e, Sort(OrderOf(e), v));
  }
}
