/**
 * The two canonical JSON printers: rw_canon_json over a growable buffer (firmware/main/canon_json.c) and
 * canonicalJSON (app/src/signing.js). Both are proved against Canonical.
 */
module Printers {
  import opened Options
  import opened Unicode
  import opened CanonicalJson
  import opened CanonicalOrder
  import opened CanonicalAgreement

  /** A child item of an object: its key and its value. */
  datatype Entry = Entry(key: seq<nat>, value: Json)

  function FromEntries(s: seq<Entry>): Members {
    if s == [] then NoMembers else Member(s[0].key, s[0].value, FromEntries(s[1..]))
  }

  function Entries(ms: Members): seq<Entry> {
    if ms.NoMembers? then [] else [Entry(ms.key, ms.value)] + Entries(ms.next)
  }

  predicate DistinctEntries(s: seq<Entry>) {
    forall i, j :: 0 <= i < j < |s| ==> s[i].key != s[j].key
  }

  ghost predicate SortedEntries(s: seq<Entry>) {
    forall i, j :: 0 <= i < j < |s| ==> Less(s[i].key, s[j].key)
  }

  ghost predicate SameEntries(s: seq<Entry>, t: seq<Entry>) { forall e :: e in s <==> e in t }

  lemma {:induction false} EntriesFacts(ms: Members)
    requires Distinct(ms)
    ensures FromEntries(Entries(ms)) == ms && DistinctEntries(Entries(ms))
    ensures forall e :: e in Entries(ms) ==> e.key in Keys(ms)
  {
    if ms.Member? {
      EntriesFacts(ms.next);
      assert Entries(ms)[1..] == Entries(ms.next);
    }
  }

  lemma {:induction false} FromEntriesKeys(s: seq<Entry>, k: seq<nat>)
    ensures k in Keys(FromEntries(s)) <==> exists e :: e in s && e.key == k
  {
    if s != [] {
      FromEntriesKeys(s[1..], k);
      assert s == [s[0]] + s[1..];
      assert k == s[0].key ==> s[0] in s;
    }
  }

  lemma {:induction false} FromEntriesDistinct(s: seq<Entry>)
    requires DistinctEntries(s)
    ensures Distinct(FromEntries(s))
  {
    if s != [] {
      FromEntriesDistinct(s[1..]);
      FromEntriesKeys(s[1..], s[0].key);
    }
  }

  lemma {:induction false} FromEntriesMeaning(s: seq<Entry>, e: Entry)
    requires DistinctEntries(s) && e in s
    ensures e.key in Keys(FromEntries(s)) && MemberMeanings(FromEntries(s))[e.key] == Meaning(e.value)
  {
    hide Meaning;
    if e != s[0] {
      assert e in s[1..];
      FromEntriesMeaning(s[1..], e);
      var i :| 0 < i < |s| && s[i] == e;
    }
  }

  lemma {:induction false} FromEntriesUnique(s: seq<Entry>)
    requires forall e :: e in s ==> WellFormed(AnyUnits, e.value)
    ensures WellFormedMembers(AnyUnits, FromEntries(s))
  {
    if s != [] {
      FromEntriesUnique(s[1..]);
    }
  }

  lemma SameEntriesMean(s: seq<Entry>, t: seq<Entry>)
    requires DistinctEntries(s) && DistinctEntries(t) && SameEntries(s, t)
    ensures MemberMeanings(FromEntries(s)) == MemberMeanings(FromEntries(t))
  {
    hide Meaning, MemberMeanings;
    var a, b := MemberMeanings(FromEntries(s)), MemberMeanings(FromEntries(t));
    forall k ensures k in a <==> k in b {
      FromEntriesKeys(s, k);
      FromEntriesKeys(t, k);
    }
    forall k | k in a ensures a[k] == b[k] {
      FromEntriesKeys(s, k);
      var e :| e in s && e.key == k;
      FromEntriesMeaning(s, e);
      FromEntriesMeaning(t, e);
    }
  }

  lemma {:induction false} SortedEntriesAreSorted(s: seq<Entry>)
    requires SortedEntries(s)
    ensures DistinctEntries(s) && Sorted(Plain, FromEntries(s))
  {
    forall i, j | 0 <= i < j < |s| ensures s[i].key != s[j].key {
      LessIsTotal(s[i].key, s[j].key);
    }
    if s != [] {
      SortedEntriesAreSorted(s[1..]);
      forall k | k in Keys(FromEntries(s[1..])) ensures Before(Plain, s[0].key, k) {
        FromEntriesKeys(s[1..], k);
      }
    }
  }

  /** Sorts every value and leaves the members where they are. */
  function SortValues(ms: Members): Members {
    if ms.NoMembers? then NoMembers else Member(ms.key, Sort(Plain, ms.value), SortValues(ms.next))
  }

  lemma {:induction false} SortValuesKeys(ms: Members)
    ensures Keys(SortValues(ms)) == Keys(ms)
  {
    if ms.Member? {
      SortValuesKeys(ms.next);
    }
  }

  lemma {:induction false} SortedIsSorted(ms: Members)
    requires Sorted(Plain, ms)
    ensures SortMembers(Plain, ms) == SortValues(ms)
  {
    if ms.Member? {
      SortedIsSorted(ms.next);
      SortValuesKeys(ms.next);
      if ms.next.Member? {
        BeforeIsTotal(Plain, ms.key, ms.next.key);
      }
    }
  }

  /** Any sorted rearrangement of an object's children prints as the canonical members. */
  lemma RearrangedMembers(ms: Members, s: seq<Entry>)
    requires Distinct(ms) && WellFormedMembers(AnyUnits, ms) && SameEntries(s, Entries(ms)) && SortedEntries(s)
    ensures SortValues(FromEntries(s)) == SortMembers(Plain, ms)
  {
    EntriesFacts(ms);
    SortedEntriesAreSorted(s);
    SameEntriesMean(s, Entries(ms));
    forall e | e in s ensures WellFormed(AnyUnits, e.value) { EntryOf(ms, e); }
    FromEntriesUnique(s);
    FromEntriesDistinct(s);
    MemberMeaningsSort(FromEntries(s), ms);
    SortedIsSorted(FromEntries(s));
  }

  function Size(v: Json): nat {
    match v
    case Arr(items) => 1 + ItemsSize(items)
    case Obj(ms) => 1 + MembersSize(ms)
    case _ => 0
  }

  function ItemsSize(items: Items): nat {
    if items.NoItems? then 0 else 1 + Size(items.head) + ItemsSize(items.tail)
  }

  function MembersSize(ms: Members): nat {
    if ms.NoMembers? then 0 else 1 + Size(ms.value) + MembersSize(ms.next)
  }

  lemma {:induction false} EntryOf(ms: Members, e: Entry)
    requires e in Entries(ms) && WellFormedMembers(AnyUnits, ms)
    ensures WellFormed(AnyUnits, e.value) && Size(e.value) < MembersSize(ms)
  {
    if e != Entry(ms.key, ms.value) {
      EntryOf(ms.next, e);
    }
  }

  // ------------------------------------------------------------ library sort

  /** qsort with key_cmp, and Array.prototype.sort: any sort would do, this one inserts. */
  method SortByKey(a: array<Entry>)
    requires DistinctEntries(a[..])
    modifies a
    ensures SortedEntries(a[..]) && SameEntries(a[..], old(a[..]))
  {
    for i := 0 to a.Length
      invariant DistinctEntries(a[..]) && SameEntries(a[..], old(a[..]))
      invariant SortedEntries(a[..i])
    {
      Place(a, i);
    }
    assert a[..a.Length] == a[..];
  }

  /** Moves element i down to its place among the sorted elements before it. */
  method Place(a: array<Entry>, i: nat)
    requires i < a.Length && DistinctEntries(a[..]) && SortedEntries(a[..i])
    modifies a
    ensures DistinctEntries(a[..]) && SameEntries(a[..], old(a[..])) && SortedEntries(a[..i + 1])
  {
    var j := i;
    assert forall p, q :: 0 <= p < q < i ==> a[..i][p] == a[p] && a[..i][q] == a[q];
    while j > 0 && Less(a[j].key, a[j - 1].key)
      invariant j <= i
      invariant DistinctEntries(a[..]) && SameEntries(a[..], old(a[..]))
      invariant forall p, q :: 0 <= p < q <= i && q != j ==> Less(a[p].key, a[q].key)
    {
      Swap(a, j);
      j := j - 1;
    }
    forall p | 0 <= p < j ensures Less(a[p].key, a[j].key) {
      assert a[..][j - 1].key != a[..][j].key;
      LessIsTotal(a[j - 1].key, a[j].key);
      if p < j - 1 {
        LessIsTransitive(a[p].key, a[j - 1].key, a[j].key);
      }
    }
  }

  method Swap(a: array<Entry>, j: nat)
    requires 0 < j < a.Length
    modifies a
    ensures forall p :: 0 <= p < a.Length && p != j && p != j - 1 ==> a[p] == old(a[p])
    ensures a[j] == old(a[j - 1]) && a[j - 1] == old(a[j])
    ensures SameEntries(a[..], old(a[..])) && (DistinctEntries(old(a[..])) ==> DistinctEntries(a[..]))
  {
    ghost var was := a[..];
    a[j - 1], a[j] := a[j], a[j - 1];
    assert a[..] == was[j - 1 := was[j]][j := was[j - 1]];
    forall e ensures e in was <==> e in a[..] {
      if e in was {
        var k :| 0 <= k < |was| && was[k] == e;
        assert a[..][if k == j then j - 1 else if k == j - 1 then j else k] == e;
      }
      if e in a[..] {
        var k :| 0 <= k < a.Length && a[..][k] == e;
        assert was[if k == j then j - 1 else if k == j - 1 then j else k] == e;
      }
    }
  }

  /** Walks the list of children into an array. */
  method Collect(ms: Members) returns (a: array<Entry>)
    requires Distinct(ms)
    ensures fresh(a) && a[..] == Entries(ms)
  {
    var n := 0;
    var c := ms;
    while c.Member?
      invariant n + |Entries(c)| == |Entries(ms)|
      decreases c
    {
      n, c := n + 1, c.next;
    }
    a := new Entry[n](_ => Entry([], Null));
    var i := 0;
    c := ms;
    while c.Member?
      invariant i + |Entries(c)| == |Entries(ms)| && a[..i] + Entries(c) == Entries(ms)
      decreases c
    {
      a[i] := Entry(c.key, c.value);
      i, c := i + 1, c.next;
    }
    assert a[..i] == a[..];
  }

  method SortedChildren(kind: Kind, ms: Members) returns (a: array<Entry>)
    requires Distinct(ms) && WellFormedMembers(kind, ms)
    ensures fresh(a) && SameEntries(a[..], Entries(ms)) && SortedEntries(a[..])
    ensures Remaining(a[..], 0) == PrintMembers(SortMembers(Plain, ms))
  {
    hide PrintMembers, SortMembers, SortValues, FromEntries;
    a := Collect(ms);
    EntriesFacts(ms);
    SortByKey(a);
    WeakenMembers(kind, ms);
    RearrangedMembers(ms, a[..]);
    RemainingEnds(a[..]);
  }

  // ------------------------------------------------------------ canon_json.c

  /**
   * rw_sbuf_t: a growable buffer whose error flag sticks once an allocation is refused. The heap is a parameter:
   * `grants(k)` says whether the k-th request of this buffer is met.
   */
  class TextBuffer {
    var buf: seq<nat>
    var cap: nat
    var err: bool
    const grants: nat -> bool
    var requests: nat

    /** Some request made so far was refused. */
    ghost predicate Refused()
      reads this
    {
      exists k :: 0 <= k < requests && !grants(k)
    }

    ghost predicate Valid()
      reads this
    {
      err == Refused() && (cap == 0 || |buf| < cap) && (cap == 0 ==> buf == [])
    }

    constructor (heap: nat -> bool)
      ensures Valid() && buf == [] && cap == 0 && !err && grants == heap
    {
      buf, cap, err, grants, requests := [], 0, false, heap, 0;
    }

    /** realloc or calloc */
    method Allocate() returns (granted: bool)
      modifies this`requests
      ensures requests == old(requests) + 1 && granted == grants(old(requests))
    {
      granted := grants(requests);
      requests := requests + 1;
    }

    /** sbuf_reserve: room for `extra` more units and the terminating NUL. */
    method Reserve(extra: nat) returns (ok: bool)
      requires Valid()
      modifies this`cap, this`err, this`requests
      ensures Valid() && ok == !err && (old(err) ==> err)
      ensures ok ==> |buf| + extra < cap
    {
      if err {
        return false;
      }
      var need := |buf| + extra + 1;
      if need <= cap {
        return true;
      }
      var size := if cap > 0 then cap else 64;
      while size < need
        invariant size > 0
      {
        size := size * 2;
      }
      ok := Allocate();
      if !ok {
        err := true;
        return;
      }
      cap := size;
    }

    /** What every printing method promises: the text in full, or the error flag. */
    twostate predicate Wrote(text: seq<nat>)
      reads this
    {
      Valid() && (old(err) ==> err) && (!err ==> buf == old(buf) + text)
    }

    method Append(data: seq<nat>)
      requires Valid()
      modifies this
      ensures Wrote(data) && (err ==> buf == old(buf))
    {
      var ok := Reserve(|data|);
      if ok {
        buf := buf + data;
      }
    }

    method EmitString(s: seq<nat>)
      requires Valid() && 0 !in s
      modifies this
      ensures Wrote(Quoted(s))
    {
      hide Escape;
      Append([QUOTE]);
      ghost var rest := s;
      var p := 0;
      while p < |s|
        invariant p <= |s| && rest == s[p..] && Valid() && (old(err) ==> err)
        invariant !err ==> buf + EscapeAll(rest) == old(buf) + [QUOTE] + EscapeAll(s)
      {
        ghost var was := buf;
        EmitChar(s[p]);
        assert rest == [s[p]] + s[p + 1..];
        assert !err ==> buf + EscapeAll(s[p + 1..]) == was + EscapeAll(rest);
        p := p + 1;
        rest := s[p..];
      }
      assert !err ==> buf == old(buf) + [QUOTE] + EscapeAll(s);
      Append([QUOTE]);
      assert !err ==> buf == old(buf) + Quoted(s);
    }

    method EmitChar(c: nat)
      requires Valid()
      modifies this
      ensures Wrote(Escape(c))
    {
      match c
      case 34 => Append([BACKSLASH, QUOTE]);
      case 92 => Append([BACKSLASH, BACKSLASH]);
      case 8 => Append([BACKSLASH, 98]);
      case 12 => Append([BACKSLASH, 102]);
      case 10 => Append([BACKSLASH, 110]);
      case 13 => Append([BACKSLASH, 114]);
      case 9 => Append([BACKSLASH, 116]);
      case _ =>
        if c < 32 {
          Append([BACKSLASH, 117] + Hex4(c));
          assert [BACKSLASH, 117] + Hex4(c) == Escape(c);
        } else {
          Append([c]);
        }
    }

    /** rw_canon_json_append */
    method AppendJson(v: Json)
      requires Valid() && WellFormed(CString, v)
      modifies this
      ensures Wrote(Canonical(v))
      decreases Size(v), 1
    {
      match v
      case Null => Append(NULL_TEXT);
      case Bool(b) => if b { Append(TRUE_TEXT); } else { Append(FALSE_TEXT); }
      case Num(n) => Append(PrintInt(n));
      case Str(t) => EmitString(t);
      case Arr(items) => EmitArray(items);
      case Obj(ms) => EmitObject(ms);
    }

    method EmitArray(items: Items)
      requires Valid() && WellFormedItems(CString, items)
      modifies this
      ensures Wrote(Canonical(Arr(items)))
      decreases Size(Arr(items)), 0
    {
      hide Canonical, ItemsLeft;
      PrintArr(items);
      Append([91]);
      EmitItems(items);
      Append([93]);
      assert !err ==> buf == old(buf) + ([91] + ItemsLeft(items, true) + [93]);
    }

    method EmitItems(items: Items)
      requires Valid() && WellFormedItems(CString, items)
      modifies this
      ensures Wrote(ItemsLeft(items, true))
      decreases ItemsSize(items), 3
    {
      hide Canonical, ItemsLeft, WellFormed;
      ghost var done: seq<nat> := [];
      var first := true;
      var c := items;
      ItemsLeftEnds();
      while c.Item?
        invariant Valid() && (old(err) ==> err) && WellFormedItems(CString, c) && ItemsSize(c) <= ItemsSize(items)
        invariant (!err ==> buf == old(buf) + done) && done + ItemsLeft(c, first) == ItemsLeft(items, true)
        decreases c
      {
        ItemsLeftStep(c, first);
        EmitItem(c.head, !first);
        done := done + ItemText(c.head, !first);
        first := false;
        c := c.tail;
      }
      assert ItemsLeft(c, first) == [] by { ItemsLeftEnds(); }
    }

    method EmitItem(v: Json, separate: bool)
      requires Valid() && WellFormed(CString, v)
      modifies this
      ensures Wrote(ItemText(v, separate))
      decreases Size(v), 2
    {
      hide Canonical;
      if separate {
        Append([COMMA]);
      }
      AppendJson(v);
    }

    method EmitMember(e: Entry, separate: bool)
      requires Valid() && WellFormed(CString, e.value) && 0 !in e.key
      modifies this
      ensures Wrote(MemberText(e, separate))
      decreases Size(e.value), 2
    {
      hide Canonical, Quoted;
      if separate {
        Append([COMMA]);
      }
      EmitString(e.key);
      Append([COLON]);
      AppendJson(e.value);
    }

    method EmitObject(ms: Members)
      requires Valid() && WellFormed(CString, Obj(ms))
      modifies this
      ensures Wrote(Canonical(Obj(ms)))
      decreases Size(Obj(ms)), 0
    {
      hide Canonical, SortMembers, PrintMembers, Remaining, SameEntries, SortedEntries, WellFormedMembers;
      PrintObj(ms);
      Append([123]);
      if ms.NoMembers? {
        Append([125]);
        return;
      }
      var granted := Allocate();
      if !granted {
        err := true;
        Append([125]);
        return;
      }
      var items := SortedChildren(CString, ms);
      EmitMembers(items, ms);
      Append([125]);
      assert !err ==> buf == old(buf) + ([123] + PrintMembers(SortMembers(Plain, ms)) + [125]);
    }

    method EmitMembers(items: array<Entry>, ms: Members)
      requires Valid() && WellFormedMembers(CString, ms) && SameEntries(items[..], Entries(ms))
      requires Remaining(items[..], 0) == PrintMembers(SortMembers(Plain, ms))
      modifies this
      ensures Wrote(PrintMembers(SortMembers(Plain, ms)))
      decreases MembersSize(ms), 0
    {
      hide Canonical, Remaining, Entries, MemberText, PrintMembers, SortMembers;
      ghost var done: seq<nat> := [];
      ghost var all := items[..];
      for i := 0 to items.Length
        invariant items[..] == all && Valid() && (old(err) ==> err)
        invariant (!err ==> buf == old(buf) + done) && done + Remaining(all, i) == Remaining(all, 0)
      {
        assert items[i] in all;
        EntryWellFormed(CString, ms, items[i]);
        EmitMember(items[i], i > 0);
        RemainingStep(all, i);
        done := done + MemberText(items[i], i > 0);
      }
      RemainingEnds(all);
    }
  }

  /** "%04x" of a control character */
  function Hex4(c: nat): seq<nat>
    requires c < 32
  {
    [48, 48, HexDigit(c / 16), HexDigit(c % 16)]
  }

  ghost function MemberText(e: Entry, separate: bool): seq<nat> {
    (if separate then [COMMA] else []) + Quoted(e.key) + [COLON] + Canonical(e.value)
  }

  /** What the member loop has yet to print. */
  ghost function Remaining(s: seq<Entry>, i: nat): seq<nat>
    requires i <= |s|
  {
    (if 0 < i < |s| then [COMMA] else []) + PrintMembers(SortValues(FromEntries(s[i..])))
  }

  lemma RemainingStep(s: seq<Entry>, i: nat)
    requires i < |s|
    ensures Remaining(s, i) == MemberText(s[i], i > 0) + Remaining(s, i + 1)
  {
    hide Print, Sort, Quoted;
    assert s[i..][1..] == s[i + 1..];
    var next := SortValues(FromEntries(s[i + 1..]));
    assert next.NoMembers? <==> i + 1 == |s|;
  }

  lemma RemainingEnds(s: seq<Entry>)
    ensures Remaining(s, 0) == PrintMembers(SortValues(FromEntries(s))) && Remaining(s, |s|) == []
  {
    assert s[0..] == s && s[|s|..] == [];
  }

  ghost function ItemText(v: Json, separate: bool): seq<nat> {
    (if separate then [COMMA] else []) + Canonical(v)
  }

  /** What the item loop has yet to print. */
  ghost function ItemsLeft(items: Items, first: bool): seq<nat> {
    if items.NoItems? then [] else (if first then [] else [COMMA]) + PrintItems(SortItems(Plain, items))
  }

  lemma ItemsLeftStep(items: Items, first: bool)
    requires items.Item?
    ensures ItemsLeft(items, first) == ItemText(items.head, !first) + ItemsLeft(items.tail, false)
  {
    assert SortItems(Plain, items) == Item(Sort(Plain, items.head), SortItems(Plain, items.tail));
    hide Canonical;
    assert Print(Sort(Plain, items.head)) == Canonical(items.head) by { CanonicalMeans(items.head); }
  }

  lemma CanonicalMeans(v: Json)
    ensures Canonical(v) == Print(Sort(Plain, v))
  {}

  lemma ItemsLeftEnds()
    ensures ItemsLeft(NoItems, true) == ItemsLeft(NoItems, false) == []
  {}

  lemma PrintArr(items: Items)
    ensures Canonical(Arr(items)) == [91] + ItemsLeft(items, true) + [93]
  {
    assert Sort(Plain, Arr(items)) == Arr(SortItems(Plain, items));
  }

  lemma PrintObj(ms: Members)
    ensures Canonical(Obj(ms)) == [123] + PrintMembers(SortMembers(Plain, ms)) + [125]
    ensures ms.NoMembers? ==> PrintMembers(SortMembers(Plain, ms)) == []
  {}

  lemma {:induction false} EntryWellFormed(kind: Kind, ms: Members, e: Entry)
    requires e in Entries(ms) && WellFormedMembers(kind, ms)
    ensures WellFormed(kind, e.value) && Fits(kind, e.key) && Size(e.value) < MembersSize(ms)
  {
    if e != Entry(ms.key, ms.value) {
      EntryWellFormed(kind, ms.next, e);
    }
  }

  /** rw_canon_json: the canonical text, or nothing exactly when one of its requests for memory was refused. */
  method CanonJson(v: Json, heap: nat -> bool) returns (text: Option<seq<nat>>, requests: nat)
    requires WellFormed(CString, v)
    ensures text == if exists k :: 0 <= k < requests && !heap(k) then None else Some(Canonical(v))
    ensures (forall k :: heap(k)) ==> text == Some(Canonical(v))
  {
    var sb := new TextBuffer(heap);
    sb.AppendJson(v);
    assert [] + Canonical(v) == Canonical(v);
    return if sb.err then None else Some(sb.buf), sb.requests;
  }

  // -------------------------------------------------------------- signing.js

  /** canonicalJSON on a tree of UTF-16 strings; JSON.stringify of a string is Quoted. */
  method CanonicalJSON(v: Json) returns (out: seq<nat>)
    requires WellFormed(Utf16Text, v)
    ensures out == Canonical(v)
    decreases Size(v), 1
  {
    match v
    case Null => return NULL_TEXT;
    case Bool(b) => return if b then TRUE_TEXT else FALSE_TEXT;
    case Num(n) => return PrintInt(n);
    case Str(t) => return Quoted(t);
    case Arr(items) =>
      out := CanonicalItems(items);
      PrintArr(items);
      out := [91] + out + [93];
    case Obj(ms) =>
      var keys := SortedChildren(Utf16Text, ms);
      out := CanonicalMembers(keys, ms);
      PrintObj(ms);
      out := [123] + out + [125];
  }

  method CanonicalItems(items: Items) returns (out: seq<nat>)
    requires WellFormedItems(Utf16Text, items)
    ensures out == ItemsLeft(items, true)
    decreases ItemsSize(items), 2
  {
    hide Canonical, ItemsLeft, WellFormed;
    out := [];
    var first, c := true, items;
    ItemsLeftEnds();
    while c.Item?
      invariant WellFormedItems(Utf16Text, c) && ItemsSize(c) <= ItemsSize(items)
      invariant out + ItemsLeft(c, first) == ItemsLeft(items, true)
      decreases c
    {
      ItemsLeftStep(c, first);
      ghost var was := out;
      if !first {
        out := out + [COMMA];
      }
      var text := CanonicalJSON(c.head);
      out := out + text;
      assert out == was + ItemText(c.head, !first);
      first, c := false, c.tail;
    }
  }

  method CanonicalMembers(keys: array<Entry>, ms: Members) returns (out: seq<nat>)
    requires WellFormedMembers(Utf16Text, ms) && SameEntries(keys[..], Entries(ms))
    ensures out == Remaining(keys[..], 0)
    decreases MembersSize(ms), 0
  {
    hide Canonical, Remaining, Entries, Quoted;
    out := [];
    for i := 0 to keys.Length
      invariant out + Remaining(keys[..], i) == Remaining(keys[..], 0)
    {
      assert keys[i] in keys[..];
      EntryWellFormed(Utf16Text, ms, keys[i]);
      RemainingStep(keys[..], i);
      ghost var was := out;
      if i > 0 {
        out := out + [COMMA];
      }
      var text := CanonicalJSON(keys[i].value);
      out := out + Quoted(keys[i].key) + [COLON] + text;
      assert out == was + MemberText(keys[i], i > 0);
    }
    RemainingEnds(keys[..]);
  }
}
