/**
 * The two main results about canonical JSON: exactly when phone and device agree on the bytes, and that
 * the text determines the value and nothing else (no member order).
 */
module CanonicalAgreement {
  import opened Unicode
  import opened CanonicalJson
  import opened CanonicalOrder

  function Lookup(k: seq<nat>, ms: Members): Json
    requires k in Keys(ms)
  {
    if ms.key == k then ms.value else Lookup(k, ms.next)
  }

  function Remove(k: seq<nat>, ms: Members): Members {
    if ms.NoMembers? then NoMembers
    else if ms.key == k then ms.next
    else Member(ms.key, ms.value, Remove(k, ms.next))
  }

  lemma {:induction false} InsertThenRemove(o: Order, k: seq<nat>, v: Json, ms: Members)
    requires k !in Keys(ms)
    ensures k in Keys(Insert(o, k, v, ms)) && Lookup(k, Insert(o, k, v, ms)) == v
    ensures Remove(k, Insert(o, k, v, ms)) == ms
  {
    hide Before;
    InsertKeys(o, k, v, ms);
    if ms.Member? && Before(o, ms.key, k) {
      InsertThenRemove(o, k, v, ms.next);
    }
  }

  // ------------------------------------------------- phone and device agree

  /** No object holds two keys that first differ in U+E000..U+FFFF against a supplementary code point. */
  predicate KeysAgree(v: Json) {
    match v
    case Arr(items) => ItemsAgree(items)
    case Obj(ms) => MembersAgree(ms)
    case _ => true
  }

  predicate ItemsAgree(items: Items) {
    items.Item? ==> KeysAgree(items.head) && ItemsAgree(items.tail)
  }

  predicate MembersAgree(ms: Members) {
    ms.Member? ==>
      && KeysAgree(ms.value) && MembersAgree(ms.next)
      && forall k :: k in Keys(ms.next) ==> !Conflict(ms.key, k)
  }

  lemma {:induction false} InsertAgrees(k: seq<nat>, v: Json, ms: Members)
    requires forall x :: x in Keys(ms) ==> !Conflict(x, k)
    ensures Insert(Plain, k, v, ms) == Insert(ByUtf16, k, v, ms)
  {
    if ms.Member? {
      assert !Conflict(ms.key, k);
      InsertAgrees(k, v, ms.next);
    }
  }

  /** In a list sorted by both orders no two keys conflict. */
  lemma {:induction false} SortedTwice(ms: Members, a: seq<nat>, b: seq<nat>)
    requires Sorted(Plain, ms) && Sorted(ByUtf16, ms) && a in Keys(ms) && b in Keys(ms)
    ensures !Conflict(a, b)
  {
    ConflictSymmetric(a, b);
    if a == ms.key {
      if b != a {
        assert Before(Plain, a, b) && Before(ByUtf16, a, b);
      }
    } else if b == ms.key {
      assert Before(Plain, b, a) && Before(ByUtf16, b, a);
    } else {
      SortedTwice(ms.next, a, b);
    }
  }

  lemma {:induction false} SortAgrees(v: Json)
    requires WellFormed(Chars, v)
    ensures Sort(Plain, v) == Sort(ByUtf16, v) <==> KeysAgree(v)
    decreases v
  {
    if v.Arr? {
      SortItemsAgree(v.items);
    } else if v.Obj? {
      SortMembersAgree(v.members);
    }
  }

  lemma {:induction false} SortItemsAgree(items: Items)
    requires WellFormedItems(Chars, items)
    ensures SortItems(Plain, items) == SortItems(ByUtf16, items) <==> ItemsAgree(items)
    decreases items
  {
    if items.Item? {
      SortAgrees(items.head);
      SortItemsAgree(items.tail);
    }
  }

  lemma {:induction false} SortMembersAgree(ms: Members)
    requires WellFormedMembers(Chars, ms) && Distinct(ms)
    ensures SortMembers(Plain, ms) == SortMembers(ByUtf16, ms) <==> MembersAgree(ms)
    decreases ms
  {
    if ms.Member? {
      SortAgrees(ms.value);
      SortMembersAgree(ms.next);
      WeakenMembers(Chars, ms.next);
      SortMembersSorts(Plain, ms.next);
      SortMembersSorts(ByUtf16, ms.next);
      InsertThenRemove(Plain, ms.key, Sort(Plain, ms.value), SortMembers(Plain, ms.next));
      InsertThenRemove(ByUtf16, ms.key, Sort(ByUtf16, ms.value), SortMembers(ByUtf16, ms.next));
      if KeysAgree(ms.value) && MembersAgree(ms.next) {
        SortMembersAgreeStep(ms);
      }
    }
  }

  lemma SortMembersAgreeStep(ms: Members)
    requires ms.Member? && WellFormedMembers(Chars, ms) && Distinct(ms)
    requires Sort(Plain, ms.value) == Sort(ByUtf16, ms.value)
    requires SortMembers(Plain, ms.next) == SortMembers(ByUtf16, ms.next)
    ensures SortMembers(Plain, ms) == SortMembers(ByUtf16, ms)
       <==> forall k :: k in Keys(ms.next) ==> !Conflict(ms.key, k)
  {
    hide Conflict;
    WeakenMembers(Chars, ms);
    SortMembersSorts(Plain, ms.next);
    SortMembersSorts(Plain, ms);
    SortMembersSorts(ByUtf16, ms);
    if SortMembers(Plain, ms) == SortMembers(ByUtf16, ms) {
      forall k | k in Keys(ms.next) ensures !Conflict(ms.key, k) {
        SortedTwice(SortMembers(Plain, ms), ms.key, k);
      }
    }
    if forall k :: k in Keys(ms.next) ==> !Conflict(ms.key, k) {
      forall k | k in Keys(ms.next) ensures !Conflict(k, ms.key) {
        ConflictSymmetric(ms.key, k);
      }
      InsertAgrees(ms.key, Sort(Plain, ms.value), SortMembers(Plain, ms.next));
    }
  }

  lemma {:induction false} EncodedFits(e: Encoding, t: seq<nat>)
    requires Fits(Chars, t)
    ensures Fits(KindOf(e), Encode(e, t))
  {
    if e.Utf16? {
      Utf16RoundTrip(t);
    } else if t != [] {
      EncodedFits(e, t[1..]);
      assert t[0] in t && t[0] != 0;
    }
  }

  function KindOf(e: Encoding): Kind { if e.Utf8? then CString else Utf16Text }

  lemma {:induction false} EncodedKeys(e: Encoding, ms: Members, k: seq<nat>)
    requires WellFormedMembers(Chars, ms) && Text(k) && Encode(e, k) in Keys(EncodedMembers(e, ms))
    ensures k in Keys(ms)
  {
    if Encode(e, k) == Encode(e, ms.key) {
      EncodeInjective(e, k, ms.key);
    } else {
      EncodedKeys(e, ms.next, k);
    }
  }

  /** The tree each side holds is one its printer accepts. */
  lemma {:induction false} EncodedIsWellFormed(e: Encoding, v: Json)
    requires WellFormed(Chars, v)
    ensures WellFormed(KindOf(e), Encoded(e, v))
    decreases v
  {
    if v.Str? {
      EncodedFits(e, v.text);
    } else if v.Arr? {
      EncodedItemsAreWellFormed(e, v.items);
    } else if v.Obj? {
      EncodedMembersAreWellFormed(e, v.members);
    }
  }

  lemma {:induction false} EncodedItemsAreWellFormed(e: Encoding, items: Items)
    requires WellFormedItems(Chars, items)
    ensures WellFormedItems(KindOf(e), EncodedItems(e, items))
    decreases items
  {
    if items.Item? {
      EncodedIsWellFormed(e, items.head);
      EncodedItemsAreWellFormed(e, items.tail);
    }
  }

  lemma {:induction false} EncodedMembersAreWellFormed(e: Encoding, ms: Members)
    requires WellFormedMembers(Chars, ms) && Distinct(ms)
    ensures WellFormedMembers(KindOf(e), EncodedMembers(e, ms)) && Distinct(EncodedMembers(e, ms))
    decreases ms
  {
    if ms.Member? {
      EncodedFits(e, ms.key);
      EncodedIsWellFormed(e, ms.value);
      EncodedMembersAreWellFormed(e, ms.next);
      if Encode(e, ms.key) in Keys(EncodedMembers(e, ms.next)) {
        EncodedKeys(e, ms.next, ms.key);
      }
    }
  }

  /** TextEncoder applied to what canonicalJSON prints. */
  function PhoneBytes(v: Json): seq<nat>
    requires WellFormed(Chars, v)
  {
    CanonicalEncoded(Utf16, v);
    Utf16RoundTrip(Print(Sort(ByUtf16, v)));
    Encode(Utf8, DecodeUtf16(Canonical(Encoded(Utf16, v))))
  }

  /** What rw_canon_json prints. */
  function DeviceBytes(v: Json): seq<nat>
    requires WellFormed(Chars, v)
  {
    Canonical(Encoded(Utf8, v))
  }

  /** Phone and device print the same bytes exactly when no object holds two conflicting keys. */
  lemma PhoneAndDeviceAgree(v: Json)
    requires WellFormed(Chars, v)
    ensures PhoneBytes(v) == DeviceBytes(v) <==> KeysAgree(v)
  {
    CanonicalEncoded(Utf16, v);
    CanonicalEncoded(Utf8, v);
    var phone, device := Print(Sort(ByUtf16, v)), Print(Sort(Plain, v));
    Utf16RoundTrip(phone);
    assert PhoneBytes(v) == Encode(Utf8, phone) && DeviceBytes(v) == Encode(Utf8, device);
    if Encode(Utf8, phone) == Encode(Utf8, device) {
      EncodeInjective(Utf8, phone, device);
      PrintInjective(Sort(ByUtf16, v), Sort(Plain, v));
    }
    SortAgrees(v);
  }

  predicate BelowSurrogates(k: seq<nat>) { forall i :: 0 <= i < |k| ==> !AboveSurrogates(k[i]) }

  predicate OrdinaryKeys(v: Json) {
    match v
    case Arr(items) => OrdinaryItems(items)
    case Obj(ms) => OrdinaryMembers(ms)
    case _ => true
  }

  predicate OrdinaryItems(items: Items) {
    items.Item? ==> OrdinaryKeys(items.head) && OrdinaryItems(items.tail)
  }

  predicate OrdinaryMembers(ms: Members) {
    ms.Member? ==> BelowSurrogates(ms.key) && OrdinaryKeys(ms.value) && OrdinaryMembers(ms.next)
  }

  lemma {:induction false} OrdinaryNoConflict(a: seq<nat>, b: seq<nat>)
    requires BelowSurrogates(a) && BelowSurrogates(b)
    ensures !Conflict(a, b)
  {
    if a != [] && b != [] && a[0] == b[0] {
      OrdinaryNoConflict(a[1..], b[1..]);
    }
  }

  lemma {:induction false} OrdinaryKeysOf(ms: Members, k: seq<nat>)
    requires OrdinaryMembers(ms) && k in Keys(ms)
    ensures BelowSurrogates(k)
  {
    if k != ms.key {
      OrdinaryKeysOf(ms.next, k);
    }
  }

  lemma {:induction false} OrdinaryAgrees(v: Json)
    requires OrdinaryKeys(v)
    ensures KeysAgree(v)
    decreases v
  {
    if v.Arr? {
      OrdinaryItemsAgree(v.items);
    } else if v.Obj? {
      OrdinaryMembersAgree(v.members);
    }
  }

  lemma {:induction false} OrdinaryItemsAgree(items: Items)
    requires OrdinaryItems(items)
    ensures ItemsAgree(items)
    decreases items
  {
    if items.Item? {
      OrdinaryAgrees(items.head);
      OrdinaryItemsAgree(items.tail);
    }
  }

  lemma {:induction false} OrdinaryMembersAgree(ms: Members)
    requires OrdinaryMembers(ms)
    ensures MembersAgree(ms)
    decreases ms
  {
    if ms.Member? {
      OrdinaryAgrees(ms.value);
      OrdinaryMembersAgree(ms.next);
      forall k | k in Keys(ms.next) ensures !Conflict(ms.key, k) {
        OrdinaryKeysOf(ms.next, k);
        OrdinaryNoConflict(ms.key, k);
      }
    }
  }

  // ---------------------------------------------------- the text is the value

  /** A JSON value: an object is a map, without an order. */
  datatype Value =
    VNull | VBool(value: bool) | VNum(n: int) | VStr(text: seq<nat>) | VArr(items: Values) | VObj(map<seq<nat>, Value>)
  datatype Values = NoValues | Values(head: Value, tail: Values)

  function Meaning(v: Json): Value {
    match v
    case Null => VNull
    case Bool(b) => VBool(b)
    case Num(n) => VNum(n)
    case Str(t) => VStr(t)
    case Arr(items) => VArr(ItemMeanings(items))
    case Obj(ms) => VObj(MemberMeanings(ms))
  }

  function ItemMeanings(items: Items): Values {
    if items.NoItems? then NoValues else Values(Meaning(items.head), ItemMeanings(items.tail))
  }

  function MemberMeanings(ms: Members): (m: map<seq<nat>, Value>)
    ensures m.Keys == Keys(ms)
  {
    if ms.NoMembers? then map[] else MemberMeanings(ms.next)[ms.key := Meaning(ms.value)]
  }

  lemma {:induction false} InsertMeaning(o: Order, k: seq<nat>, v: Json, ms: Members)
    requires k !in Keys(ms) && Distinct(ms)
    ensures MemberMeanings(Insert(o, k, v, ms)) == MemberMeanings(ms)[k := Meaning(v)]
  {
    hide Before, Meaning;
    if ms.Member? && Before(o, ms.key, k) {
      InsertMeaning(o, k, v, ms.next);
      var m: map<seq<nat>, Value>, x, y := MemberMeanings(ms.next), Meaning(v), Meaning(ms.value);
      var m1: map<seq<nat>, Value>, m2: map<seq<nat>, Value> := m[k := x], m[ms.key := y];
      assert m1[ms.key := y] == m2[k := x];
    }
  }

  /** Either order sorts trees of characters. */
  predicate Sortable(o: Order, kind: Kind) { o.ByUtf16? ==> kind.Chars? }

  /** Sorting keeps the value. */
  lemma {:induction false} SortMeaning(o: Order, kind: Kind, v: Json)
    requires WellFormed(kind, v) && Sortable(o, kind)
    ensures Meaning(Sort(o, v)) == Meaning(v)
    decreases v
  {
    if v.Arr? {
      SortItemsMeaning(o, kind, v.items);
    } else if v.Obj? {
      SortMembersMeaning(o, kind, v.members);
    }
  }

  lemma {:induction false} SortItemsMeaning(o: Order, kind: Kind, items: Items)
    requires WellFormedItems(kind, items) && Sortable(o, kind)
    ensures ItemMeanings(SortItems(o, items)) == ItemMeanings(items)
    decreases items
  {
    if items.Item? {
      SortMeaning(o, kind, items.head);
      SortItemsMeaning(o, kind, items.tail);
    }
  }

  lemma {:induction false} InsertDistinct(o: Order, k: seq<nat>, v: Json, ms: Members)
    requires Distinct(ms) && k !in Keys(ms)
    ensures Distinct(Insert(o, k, v, ms))
  {
    hide Before;
    if ms.Member? && Before(o, ms.key, k) {
      InsertDistinct(o, k, v, ms.next);
      InsertKeys(o, k, v, ms.next);
    }
  }

  lemma {:induction false} SortMembersUnique(o: Order, ms: Members)
    requires Distinct(ms) && Orders(o, ms)
    ensures Distinct(SortMembers(o, ms))
  {
    if ms.Member? {
      SortMembersUnique(o, ms.next);
      SortMembersSorts(o, ms.next);
      InsertDistinct(o, ms.key, Sort(o, ms.value), SortMembers(o, ms.next));
    }
  }

  lemma {:induction false} SortMembersMeaning(o: Order, kind: Kind, ms: Members)
    requires WellFormedMembers(kind, ms) && Distinct(ms) && Sortable(o, kind)
    ensures MemberMeanings(SortMembers(o, ms)) == MemberMeanings(ms)
    decreases ms
  {
    if ms.Member? {
      SortMeaning(o, kind, ms.value);
      SortMembersMeaning(o, kind, ms.next);
      WeakenMembers(kind, ms.next);
      SortMembersSorts(o, ms.next);
      SortMembersUnique(o, ms.next);
      InsertMeaning(o, ms.key, Sort(o, ms.value), SortMembers(o, ms.next));
    }
  }

  lemma {:induction false} LookupFacts(k: seq<nat>, ms: Members)
    requires k in Keys(ms) && Distinct(ms) && WellFormedMembers(AnyUnits, ms)
    ensures WellFormed(AnyUnits, Lookup(k, ms)) && WellFormedMembers(AnyUnits, Remove(k, ms)) && Distinct(Remove(k, ms))
    ensures Keys(Remove(k, ms)) == Keys(ms) - {k}
    ensures Meaning(Lookup(k, ms)) == MemberMeanings(ms)[k]
    ensures MemberMeanings(Remove(k, ms)) == MemberMeanings(ms) - {k}
  {
    if ms.key != k {
      LookupFacts(k, ms.next);
    }
  }

  lemma {:induction false} InsertsCommute(k: seq<nat>, v: Json, l: seq<nat>, w: Json, ms: Members)
    requires k != l && Sorted(Plain, ms) && k !in Keys(ms) && l !in Keys(ms)
    ensures Insert(Plain, k, v, Insert(Plain, l, w, ms)) == Insert(Plain, l, w, Insert(Plain, k, v, ms))
  {
    hide Before;
    BeforeIsTotal(Plain, k, l);
    if ms.Member? {
      BeforeIsTotal(Plain, ms.key, k);
      BeforeIsTotal(Plain, ms.key, l);
      if Before(Plain, ms.key, k) && Before(Plain, ms.key, l) {
        InsertsCommute(k, v, l, w, ms.next);
      } else if Before(Plain, ms.key, k) {
        BeforeIsTransitive(Plain, l, ms.key, k);
      } else if Before(Plain, ms.key, l) {
        BeforeIsTransitive(Plain, k, ms.key, l);
      }
    }
  }

  /** A member may be sorted in last. */
  lemma {:induction false} SortPulls(k: seq<nat>, ms: Members)
    requires k in Keys(ms) && Distinct(ms) && WellFormedMembers(AnyUnits, ms)
    ensures SortMembers(Plain, ms) == Insert(Plain, k, Sort(Plain, Lookup(k, ms)), SortMembers(Plain, Remove(k, ms)))
  {
    if ms.key != k {
      hide Before;
      SortPulls(k, ms.next);
      LookupFacts(k, ms.next);
      var rest := Remove(k, ms.next);
      SortMembersSorts(Plain, rest);
      InsertsCommute(ms.key, Sort(Plain, ms.value), k, Sort(Plain, Lookup(k, ms.next)), SortMembers(Plain, rest));
    }
  }

  lemma {:induction false} MeaningSorts(v: Json, w: Json)
    requires WellFormed(AnyUnits, v) && WellFormed(AnyUnits, w) && Meaning(v) == Meaning(w)
    ensures Sort(Plain, v) == Sort(Plain, w)
    decreases v
  {
    if v.Arr? {
      ItemMeaningsSort(v.items, w.items);
    } else if v.Obj? {
      MemberMeaningsSort(v.members, w.members);
    }
  }

  lemma {:induction false} ItemMeaningsSort(v: Items, w: Items)
    requires WellFormedItems(AnyUnits, v) && WellFormedItems(AnyUnits, w) && ItemMeanings(v) == ItemMeanings(w)
    ensures SortItems(Plain, v) == SortItems(Plain, w)
    decreases v
  {
    if v.Item? {
      MeaningSorts(v.head, w.head);
      ItemMeaningsSort(v.tail, w.tail);
    }
  }

  lemma {:induction false} MemberMeaningsSort(v: Members, w: Members)
    requires WellFormedMembers(AnyUnits, v) && Distinct(v) && WellFormedMembers(AnyUnits, w) && Distinct(w)
    requires MemberMeanings(v) == MemberMeanings(w)
    ensures SortMembers(Plain, v) == SortMembers(Plain, w)
    decreases v
  {
    if v.NoMembers? {
      assert Keys(w) == {};
    } else {
      hide Before;
      assert v.key in MemberMeanings(v);
      LookupFacts(v.key, w);
      assert MemberMeanings(v.next) == MemberMeanings(v) - {v.key};
      MeaningSorts(v.value, Lookup(v.key, w));
      MemberMeaningsSort(v.next, Remove(v.key, w));
      SortPulls(v.key, w);
    }
  }

  /** Two trees print the same canonical text exactly when they are the same JSON value. */
  lemma CanonicalIsTheValue(v: Json, w: Json)
    requires WellFormed(AnyUnits, v) && WellFormed(AnyUnits, w)
    ensures Canonical(v) == Canonical(w) <==> Meaning(v) == Meaning(w)
  {
    if Meaning(v) == Meaning(w) {
      MeaningSorts(v, w);
    }
    if Canonical(v) == Canonical(w) {
      PrintInjective(Sort(Plain, v), Sort(Plain, w));
      SortMeaning(Plain, AnyUnits, v);
      SortMeaning(Plain, AnyUnits, w);
    }
  }

  /** The order in which the phone prints members is lost on the device. */
  lemma SortedTwiceIsSortedOnce(o: Order, v: Json)
    requires WellFormed(Chars, v)
    ensures WellFormed(Chars, Sort(o, v)) && Sort(Plain, Sort(o, v)) == Sort(Plain, v)
  {
    SortWellFormed(o, v);
    SortMeaning(o, Chars, v);
    Weaken(Chars, v);
    Weaken(Chars, Sort(o, v));
    MeaningSorts(Sort(o, v), v);
  }

  /** Every object of the tree has its members in order. */
  ghost predicate InOrder(v: Json) {
    match v
    case Arr(items) => ItemsInOrder(items)
    case Obj(ms) => Sorted(Plain, ms) && MembersInOrder(ms)
    case _ => true
  }

  ghost predicate ItemsInOrder(items: Items) {
    items.Item? ==> InOrder(items.head) && ItemsInOrder(items.tail)
  }

  ghost predicate MembersInOrder(ms: Members) {
    ms.Member? ==> InOrder(ms.value) && MembersInOrder(ms.next)
  }

  lemma {:induction false} InsertInOrder(k: seq<nat>, v: Json, ms: Members)
    requires InOrder(v) && MembersInOrder(ms)
    ensures MembersInOrder(Insert(Plain, k, v, ms))
  {
    hide Before;
    if ms.Member? && Before(Plain, ms.key, k) {
      InsertInOrder(k, v, ms.next);
    }
  }

  lemma {:induction false} SortInOrder(v: Json)
    requires WellFormed(AnyUnits, v)
    ensures InOrder(Sort(Plain, v))
    decreases v
  {
    if v.Arr? {
      SortItemsInOrder(v.items);
    } else if v.Obj? {
      SortMembersSorts(Plain, v.members);
      SortMembersInOrder(v.members);
    }
  }

  lemma {:induction false} SortItemsInOrder(items: Items)
    requires WellFormedItems(AnyUnits, items)
    ensures ItemsInOrder(SortItems(Plain, items))
    decreases items
  {
    if items.Item? {
      SortInOrder(items.head);
      SortItemsInOrder(items.tail);
    }
  }

  lemma {:induction false} SortMembersInOrder(ms: Members)
    requires WellFormedMembers(AnyUnits, ms)
    ensures MembersInOrder(SortMembers(Plain, ms))
    decreases ms
  {
    if ms.Member? {
      SortInOrder(ms.value);
      SortMembersInOrder(ms.next);
      InsertInOrder(ms.key, Sort(Plain, ms.value), SortMembers(Plain, ms.next));
    }
  }

  /** Canonical text reads back to the same value with the members of every object in order. */
  lemma CanonicalReadsBack(v: Json, rest: seq<nat>)
    requires WellFormed(AnyUnits, v) && AfterNumber(rest)
    ensures ReadValue(Canonical(v) + rest) == Done(Sort(Plain, v), rest)
    ensures Meaning(Sort(Plain, v)) == Meaning(v) && InOrder(Sort(Plain, v))
  {
    ReadPrint(Sort(Plain, v), rest);
    SortMeaning(Plain, AnyUnits, v);
    SortInOrder(v);
  }
}
