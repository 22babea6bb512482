/**
 * Finding the embedded identity record of a firmware image: the device scans each loadable segment in blocks
 * with a carry (firmware/main/ota.c), the publisher searches whole segments (tools/ota/manifest.py).
 */
module IdentityScan {
  import opened Options

  type Byte = b: nat | b < 256

  /** RWOTA-IDENTITY1! */
  const MAGIC: seq<Byte> := [82, 87, 79, 84, 65, 45, 73, 68, 69, 78, 84, 73, 84, 89, 49, 33]
  const RECORD_SIZE := 236
  const BLOCK := 4096
  const CARRY := 235
  const HEADER_SIZE := 24
  const SEGMENT_HEADER := 8
  const IMAGE_MAGIC := 0xE9
  const MAX_SEGMENTS := 16
  const FORMAT_VERSION := 1
  const API_VERSION := 1

  function U32(s: seq<Byte>, p: nat): nat
    requires p + 4 <= |s|
  {
    Word(s[p], s[p + 1], s[p + 2], s[p + 3])
  }

  function Word(a: nat, b: nat, c: nat, d: nat): nat { a + 256 * b + 65536 * c + 16777216 * d }

  predicate MagicAt(s: seq<Byte>, p: nat) { p + 16 <= |s| && s[p..p + 16] == MAGIC }

  lemma MagicText()
    ensures MAGIC == seq(16, i requires 0 <= i < 16 => "RWOTA-IDENTITY1!"[i] as nat)
  {}

  /** A whole record of a known format starts at p. */
  predicate RecordAt(s: seq<Byte>, p: nat) {
    p + RECORD_SIZE <= |s| && MagicAt(s, p) && U32(s, p + 16) == FORMAT_VERSION && U32(s, p + 20) == API_VERSION
  }

  /** The records that start below a limit, in order. */
  function RecordsBelow(s: seq<Byte>, limit: nat): seq<nat> {
    if limit == 0 then [] else RecordsBelow(s, limit - 1) + (if RecordAt(s, limit - 1) then [limit - 1] else [])
  }

  function Records(s: seq<Byte>): seq<nat> { RecordsBelow(s, |s|) }

  lemma {:induction false} NoRecordsBetween(s: seq<Byte>, from: nat, to: nat)
    requires from <= to && forall p :: from <= p < to ==> !RecordAt(s, p)
    ensures RecordsBelow(s, to) == RecordsBelow(s, from)
  {
    if from < to {
      NoRecordsBetween(s, from, to - 1);
    }
  }

  /** The magic has no letter R after the first, so two occurrences never overlap. */
  lemma MagicNeverOverlaps(s: seq<Byte>, p: nat, q: nat)
    requires MagicAt(s, p) && p < q < p + 16
    ensures !MagicAt(s, q)
  {
    assert s[p..p + 16][q - p] == s[q];
    assert MAGIC[q - p] != 82;
    assert q + 16 <= |s| ==> s[q..q + 16][0] == s[q];
  }

  // ------------------------------------------------------ publisher: find and skip

  /** bytes.find of the magic from `from` on; the length if there is none. */
  method Find(s: seq<Byte>, from: nat) returns (p: nat)
    requires from <= |s|
    ensures from <= p <= |s| && (p < |s| ==> MagicAt(s, p)) && forall q :: from <= q < p ==> !MagicAt(s, q)
  {
    p := from;
    while p < |s| && !MagicAt(s, p)
      invariant from <= p <= |s| && forall q :: from <= q < p ==> !MagicAt(s, q)
    {
      p := p + 1;
    }
  }

  lemma VersionBytes(s: seq<Byte>, p: nat)
    requires p + 24 <= |s|
    ensures s[p + 16..p + 24] == [1, 0, 0, 0, 1, 0, 0, 0] <==>
      U32(s, p + 16) == FORMAT_VERSION && U32(s, p + 20) == API_VERSION
  {
    var v := s[p + 16..p + 24];
    assert v == [v[0], v[1], v[2], v[3], v[4], v[5], v[6], v[7]];
    assert forall i :: 0 <= i < 8 ==> v[i] == s[p + 16 + i];
  }

  /** The scan of one segment in image_identity. */
  method FindRecords(segment: seq<Byte>) returns (records: seq<nat>)
    ensures records == Records(segment)
  {
    records := [];
    var offset := 0;
    while true
      invariant offset <= |segment| + 15 && records == RecordsBelow(segment, offset)
      decreases |segment| + 16 - offset
    {
      if offset >= |segment| {
        NoRecordsBetween(segment, |segment|, offset);
        return;
      }
      var found := Find(segment, offset);
      NoRecordsBetween(segment, offset, found);
      if found == |segment| {
        return;
      }
      if found + RECORD_SIZE <= |segment| {
        VersionBytes(segment, found);
        if segment[found + 16..found + 24] == [1, 0, 0, 0, 1, 0, 0, 0] {
          records := records + [found];
        }
      }
      assert records == RecordsBelow(segment, found + 1);
      forall q | found + 1 <= q < found + 16 ensures !RecordAt(segment, q) {
        MagicNeverOverlaps(segment, found, q);
      }
      offset := found + 16;
      NoRecordsBetween(segment, found + 1, offset);
    }
  }

  // ---------------------------------------------------- device: blocks and carry

  datatype Scan = BadHeader | BadSize | Mismatch | IoError | Found(records: nat)

  /** The bytes of the record at p. */
  function Record(s: seq<Byte>, p: nat): seq<Byte>
    requires RecordAt(s, p)
  {
    s[p..p + RECORD_SIZE]
  }

  /** Every record below a limit is the one the manifest names. */
  ghost predicate AllFit(s: seq<Byte>, limit: nat, fits: seq<Byte> -> bool) {
    forall p :: 0 <= p < limit && RecordAt(s, p) ==> fits(Record(s, p))
  }

  function Min(a: nat, b: nat): nat { if a < b then a else b }

  /** How far a scan has examined after `offset` bytes: every position whose record would end by then. */
  function Examined(offset: nat): nat { if offset < RECORD_SIZE then 0 else offset - RECORD_SIZE + 1 }

  /** A window onto the segment shows the same records. */
  lemma LookAt(s: seq<Byte>, from: nat, window: seq<Byte>, p: nat)
    requires from + |window| <= |s| && window == s[from..from + |window|] && p + RECORD_SIZE <= |window|
    ensures RecordAt(s, from + p) == RecordAt(window, p)
    ensures RecordAt(window, p) ==> Record(window, p) == Record(s, from + p)
  {
    assert forall k :: 0 <= k < |window| ==> window[k] == s[from + k];
    assert window[p..p + 16] == s[from + p..from + p + 16];
    assert window[p..p + RECORD_SIZE] == s[from + p..from + p + RECORD_SIZE];
  }

  /** esp_partition_read; `readable` says at which positions a read succeeds. */
  method ReadFlash(flash: seq<Byte>, readable: nat -> bool, position: nat, count: nat, buffer: array<Byte>, at: nat)
      returns (ok: bool)
    requires position + count <= |flash| && at + count <= buffer.Length
    modifies buffer
    ensures ok == readable(position)
    ensures ok ==> buffer[..at + count] == old(buffer[..at]) + flash[position..position + count]
  {
    ok := readable(position);
    if ok {
      for i := 0 to count
        invariant buffer[..at + i] == old(buffer[..at]) + flash[position..position + i]
      {
        buffer[at + i] := flash[position + i];
        assert flash[position..position + i + 1] == flash[position..position + i] + [flash[position + i]];
        assert buffer[..at + i + 1] == buffer[..at + i] + [buffer[at + i]];
      }
    }
  }

  /** The loop over p: looks at every position of the window at which a whole record fits. */
  method ExamineWindow(buffer: array<Byte>, available: nat, fits: seq<Byte> -> bool, count: nat,
                       ghost s: seq<Byte>, ghost from: nat, ghost examined: seq<nat>)
      returns (ok: bool, n: nat, ghost seen: seq<nat>)
    requires available <= buffer.Length && from + available <= |s| && buffer[..available] == s[from..from + available]
    requires count == |RecordsBelow(s, from)| && AllFit(s, from, fits) && examined == Positions(from)
    ensures var to := from + Examined(available);
      if ok then n == |RecordsBelow(s, to)| && AllFit(s, to, fits) && seen == Positions(to) else !AllFit(s, to, fits)
  {
    hide RecordAt;
    n, seen := count, examined;
    ghost var window := s[from..from + available];
    var p := 0;
    while p + RECORD_SIZE <= available
      invariant p <= Examined(available)
      invariant n == |RecordsBelow(s, from + p)| && AllFit(s, from + p, fits) && seen == Positions(from + p)
    {
      assert buffer[..available] == window;
      LookAt(s, from, window, p);
      seen := seen + [from + p];
      if RecordAt(buffer[..available], p) {
        n := n + 1;
        if !fits(Record(buffer[..available], p)) {
          return false, n, seen;
        }
      }
      p := p + 1;
    }
    ok := true;
  }

  /** 0, 1, ..., n - 1 */
  ghost function Positions(n: nat): seq<nat> { seq(n, i => i) }

  /** What the carry holds before the block at `offset`. */
  predicate Carried(s: seq<Byte>, offset: nat, buffer: seq<Byte>, tail: nat) {
    offset <= |s| && tail == Min(offset, CARRY) && tail <= |buffer| && buffer[..tail] == s[offset - tail..offset]
  }

  lemma BlockRead(flash: seq<Byte>, position: nat, s: seq<Byte>, offset: nat, tail: nat, count: nat)
    requires position + offset + count <= |flash| && offset + count <= |s| && tail <= offset
    requires forall i :: offset <= i < offset + count ==> flash[position + i] == s[i]
    ensures s[offset - tail..offset] + flash[position + offset..position + offset + count]
         == s[offset - tail..offset - tail + (tail + count)]
  {
    var read := flash[position + offset..position + offset + count];
    assert forall i :: 0 <= i < count ==> read[i] == flash[position + (offset + i)];
  }

  /** Reads one block behind the carry: the buffer is a window onto the segment. */
  method ReadBlock(flash: seq<Byte>, readable: nat -> bool, position: nat, buffer: array<Byte>, offset: nat, tail: nat,
                   count: nat, ghost s: seq<Byte>) returns (ok: bool)
    requires position + offset + count <= |flash| && offset + count <= |s| && count <= BLOCK
    requires buffer.Length == BLOCK + CARRY && Carried(s, offset, buffer[..], tail)
    requires forall i :: offset <= i < offset + count ==> flash[position + i] == s[i]
    modifies buffer
    ensures ok == readable(position + offset)
    ensures ok ==> buffer[..tail + count] == s[offset - tail..offset - tail + (tail + count)]
  {
    ok := ReadFlash(flash, readable, position + offset, count, buffer, tail);
    BlockRead(flash, position, s, offset, tail, count);
    assert old(buffer[..])[..tail] == old(buffer[..tail]);
  }

  /** Moves the new carry to the front. */
  method KeepTail(buffer: array<Byte>, offset: nat, tail: nat, count: nat, ghost s: seq<Byte>)
    requires offset + count <= |s| && count <= BLOCK && tail == Min(offset, CARRY) && buffer.Length == BLOCK + CARRY
    requires buffer[..tail + count] == s[offset - tail..offset - tail + (tail + count)]
    modifies buffer
    ensures Carried(s, offset + count, buffer[..], Min(offset + count, CARRY))
  {
    var available := tail + count;
    var kept := Min(available, CARRY);
    ghost var window := buffer[..available];
    assert window[available - kept..] == buffer[available - kept..available];
    Carry(buffer, available, kept);
    assert buffer[..kept] == s[offset + count - kept..offset + count];
    assert buffer[..][..kept] == buffer[..kept];
  }

  /** Reads one block behind the carry, examines the window, and moves the new carry to the front. */
  method ScanBlock(flash: seq<Byte>, readable: nat -> bool, position: nat, buffer: array<Byte>, offset: nat, tail: nat,
                   count: nat, n: nat, fits: seq<Byte> -> bool, ghost s: seq<Byte>, ghost examined: seq<nat>)
      returns (result: Scan, ghost seen: seq<nat>)
    requires position + offset + count <= |flash| && offset + count <= |s| && 0 < count <= BLOCK
    requires buffer.Length == BLOCK + CARRY && Carried(s, offset, buffer[..], tail)
    requires forall i :: offset <= i < offset + count ==> flash[position + i] == s[i]
    requires n == |RecordsBelow(s, offset - tail)| && AllFit(s, offset - tail, fits)
      && examined == Positions(offset - tail)
    modifies buffer
    ensures result in {Mismatch, IoError} || result.Found?
    ensures result == IoError <==> !readable(position + offset)
    ensures result == Mismatch ==> !AllFit(s, |s|, fits)
    ensures result.Found? ==>
      var next := offset + count; var kept := Min(next, CARRY);
      && Carried(s, next, buffer[..], kept) && result.records == |RecordsBelow(s, next - kept)|
      && AllFit(s, next - kept, fits) && seen == Positions(next - kept)
  {
    hide RecordsBelow, AllFit, Positions, RecordAt, U32;
    seen := examined;
    var ok := ReadBlock(flash, readable, position, buffer, offset, tail, count, s);
    if !ok {
      return IoError, seen;
    }
    var available := tail + count;
    var m;
    ok, m, seen := ExamineWindow(buffer, available, fits, n, s, offset - tail, seen);
    if !ok {
      MoreMisfits(s, offset - tail + Examined(available), |s|, fits);
      return Mismatch, seen;
    }
    KeepTail(buffer, offset, tail, count, s);
    return Found(m), seen;
  }

  /** The block loop over one segment: each position at which a record fits is examined once, in order. */
  method ScanSegment(flash: seq<Byte>, readable: nat -> bool, position: nat, length: nat, buffer: array<Byte>,
                     fits: seq<Byte> -> bool)
      returns (result: Scan, ghost seen: seq<nat>)
    requires position + length <= |flash| && buffer.Length == BLOCK + CARRY
    modifies buffer
    ensures result in {Mismatch, IoError} || result.Found?
    ensures result == IoError ==> exists p :: position <= p < position + length && !readable(p)
    ensures var s := flash[position..position + length];
      && (result.Found? ==>
           result.records == |Records(s)| && AllFit(s, length, fits) && seen == Positions(Examined(length)))
      && (result == Mismatch ==> !AllFit(s, length, fits))
  {
    hide RecordAt, Records, AllFit;
    ghost var s := flash[position..position + length];
    var offset, tail, n := 0, 0, 0;
    seen := [];
    NothingYet(s, fits);
    while offset < length
      invariant Carried(s, offset, buffer[..], tail)
      invariant n == |RecordsBelow(s, offset - tail)| && AllFit(s, offset - tail, fits)
      invariant seen == Positions(offset - tail)
    {
      var count := Min(length - offset, BLOCK);
      result, seen := ScanBlock(flash, readable, position, buffer, offset, tail, count, n, fits, s, seen);
      if !result.Found? {
        return;
      }
      offset, n := offset + count, result.records;
      tail := Min(offset, CARRY);
    }
    EndOfSegment(s, fits);
    return Found(n), seen;
  }

  lemma NothingYet(s: seq<Byte>, fits: seq<Byte> -> bool)
    ensures RecordsBelow(s, 0) == [] && AllFit(s, 0, fits) && Positions(0) == []
  {}

  lemma MoreMisfits(s: seq<Byte>, limit: nat, more: nat, fits: seq<Byte> -> bool)
    requires limit <= more && !AllFit(s, limit, fits)
    ensures !AllFit(s, more, fits)
  {}

  /** memmove of the last `tail` bytes to the front. */
  method Carry(buffer: array<Byte>, available: nat, tail: nat)
    requires tail <= available <= buffer.Length
    modifies buffer
    ensures buffer[..tail] == old(buffer[available - tail..available])
  {
    ghost var was := buffer[..];
    for i := 0 to tail
      invariant buffer[..i] == was[available - tail..available - tail + i]
      invariant forall k :: i <= k < buffer.Length ==> buffer[k] == was[k]
    {
      buffer[i] := buffer[available - tail + i];
    }
    assert was[available - tail..available] == old(buffer[available - tail..available]);
  }

  /** No record starts in the last 235 bytes. */
  lemma EndOfSegment(s: seq<Byte>, fits: seq<Byte> -> bool)
    ensures var to := |s| - Min(|s|, CARRY);
      && to == Examined(|s|) && RecordsBelow(s, to) == Records(s) && (AllFit(s, to, fits) ==> AllFit(s, |s|, fits))
  {
    NoRecordsBetween(s, |s| - Min(|s|, CARRY), |s|);
  }

  // ------------------------------------------------------------ whole images

  /** The records of an image, segment by segment; every one must be the record wanted. */
  ghost function ScanFrom(image: seq<Byte>, position: nat, segments: nat, fits: seq<Byte> -> bool, n: nat): Scan
    requires position <= |image|
    decreases segments
  {
    if segments == 0 then Found(n)
    else if |image| - position < SEGMENT_HEADER then BadSize
    else
      var start := position + SEGMENT_HEADER;
      var length := U32(image, position + 4);
      if length > |image| - start then BadSize
      else if !AllFit(image[start..start + length], length, fits) then Mismatch
      else ScanFrom(image, start + length, segments - 1, fits, n + |Records(image[start..start + length])|)
  }

  ghost function ScanImage(image: seq<Byte>, fits: seq<Byte> -> bool): Scan
    requires |image| >= HEADER_SIZE
  {
    if image[0] != IMAGE_MAGIC || image[1] == 0 || image[1] > MAX_SEGMENTS then BadHeader
    else ScanFrom(image, HEADER_SIZE, image[1], fits, 0)
  }

  /**
   * validate_identity up to its count of records: `size` bytes of the partition are the image. Every answer but a
   * failure to read is that of the whole image; a segment header that cannot be read counts as a bad size.
   */
  method ValidateRecords(flash: seq<Byte>, size: nat, fits: seq<Byte> -> bool, readable: nat -> bool, memory: bool)
      returns (result: Scan)
    requires HEADER_SIZE <= size <= |flash|
    ensures memory && (forall p :: readable(p)) ==> result == ScanImage(flash[..size], fits)
    ensures result in {IoError, BadSize} || result == ScanImage(flash[..size], fits)
    ensures result == IoError ==> !memory || exists p :: !readable(p)
  {
    ghost var image := flash[..size];
    if !readable(0) { // the header is read first
      return IoError;
    }
    if flash[0] != IMAGE_MAGIC || flash[1] == 0 || flash[1] > MAX_SEGMENTS {
      return BadHeader;
    }
    if !memory {
      return IoError;
    }
    var buffer := new Byte[BLOCK + CARRY](_ => 0);
    var position: nat, n: nat, segment: nat := HEADER_SIZE, 0, 0;
    while segment < flash[1]
      invariant segment <= flash[1] && position <= size
      invariant ScanImage(image, fits) == ScanFrom(image, position, flash[1] - segment, fits, n)
    {
      result, position := NextSegment(flash, size, readable, position, buffer, fits, flash[1] - segment, n);
      if !result.Found? {
        return;
      }
      n, segment := n + result.records, segment + 1;
    }
    return Found(n);
  }

  /** One round of the segment loop. */
  method NextSegment(flash: seq<Byte>, size: nat, readable: nat -> bool, position: nat, buffer: array<Byte>,
                     fits: seq<Byte> -> bool, ghost left: nat, ghost n: nat) returns (result: Scan, next: nat)
    requires position <= size <= |flash| && buffer.Length == BLOCK + CARRY && left > 0
    modifies buffer
    ensures result in {BadSize, Mismatch, IoError} || result.Found?
    ensures next <= size
    ensures result == IoError ==> exists p :: !readable(p)
    ensures result != IoError && (result == BadSize ==> readable(position)) ==>
      ScanFrom(flash[..size], position, left, fits, n)
        == if result.Found? then ScanFrom(flash[..size], next, left - 1, fits, n + result.records) else result
  {
    hide Records, AllFit, U32;
    ghost var image := flash[..size];
    next := position;
    if size - position < SEGMENT_HEADER || !readable(position) {
      return BadSize, next;
    }
    var length := U32(flash, position + 4);
    SameWord(flash, size, position + 4);
    next := position + SEGMENT_HEADER;
    if length > size - next {
      return BadSize, next;
    }
    assert image[next..next + length] == flash[next..next + length];
    ghost var seen;
    result, seen := ScanSegment(flash, readable, next, length, buffer, fits);
    next := next + length;
  }

  lemma SameWord(flash: seq<Byte>, size: nat, p: nat)
    requires p + 4 <= size <= |flash|
    ensures U32(flash[..size], p) == U32(flash, p)
  {}

  /** The segment walk of image_identity. */
  function Regions(image: seq<Byte>, cursor: nat, count: nat): (r: Option<seq<(nat, nat)>>)
    requires cursor <= |image|
    ensures r.Some? ==> forall i :: 0 <= i < |r.value| ==> r.value[i].0 <= r.value[i].1 <= |image|
    decreases count
  {
    if count == 0 then Some([])
    else if cursor + SEGMENT_HEADER > |image| then None
    else
      var start := cursor + SEGMENT_HEADER;
      var end := start + U32(image, cursor + 4);
      if end > |image| then None
      else
        match Regions(image, end, count - 1)
        case None => None
        case Some(rest) => Some([(start, end)] + rest)
  }

  /** The publisher's count: find-and-skip over every region. */
  method CountRecords(image: seq<Byte>, regions: seq<(nat, nat)>) returns (n: nat)
    requires forall i :: 0 <= i < |regions| ==> regions[i].0 <= regions[i].1 <= |image|
    ensures n == Total(image, regions)
  {
    n := 0;
    for i := 0 to |regions|
      invariant n + Total(image, regions[i..]) == Total(image, regions)
    {
      assert regions[i..][1..] == regions[i + 1..];
      var records := FindRecords(image[regions[i].0..regions[i].1]);
      n := n + |records|;
    }
  }

  function Total(image: seq<Byte>, regions: seq<(nat, nat)>): nat
    requires forall i :: 0 <= i < |regions| ==> regions[i].0 <= regions[i].1 <= |image|
  {
    if regions == [] then 0 else |Records(image[regions[0].0..regions[0].1])| + Total(image, regions[1..])
  }

  /** Device and publisher walk the same segments and count the same records. */
  lemma {:induction false} SameCount(image: seq<Byte>, position: nat, segments: nat, fits: seq<Byte> -> bool, n: nat)
    requires position <= |image|
    ensures var r := Regions(image, position, segments);
      && (r.None? ==> ScanFrom(image, position, segments, fits, n) in {BadSize, Mismatch})
      && (r.Some? ==> ScanFrom(image, position, segments, fits, n) in {Mismatch, Found(n + Total(image, r.value))})
    decreases segments
  {
    hide U32, Records, AllFit;
    if segments > 0 && position + SEGMENT_HEADER <= |image| {
      var start := position + SEGMENT_HEADER;
      var end := start + U32(image, position + 4);
      if end <= |image| {
        var k := |Records(image[start..end])|;
        SameCount(image, end, segments - 1, fits, n + k);
        var rest := Regions(image, end, segments - 1);
        if rest.Some? {
          assert ([(start, end)] + rest.value)[1..] == rest.value;
        }
      }
    }
  }

  // ------------------------------------------------------- images as laid out

  /** A loadable segment: the four bytes of its address and its contents. */
  datatype Segment = Segment(address: seq<Byte>, data: seq<Byte>)

  /** The four bytes of a little-endian number. */
  function LittleEndian(n: nat): (b: seq<Byte>)
    ensures |b| == 4
  {
    [n % 256, n / 256 % 256, n / 65536 % 256, n / 16777216 % 256]
  }

  lemma WordOfDigits(n: nat)
    requires n < 0x1_0000_0000
    ensures Word(n % 256, n / 256 % 256, n / 65536 % 256, n / 16777216 % 256) == n
  {
    var (a, b, c) := (n / 256, n / 65536, n / 16777216);
    assert n == 256 * a + n % 256;
    assert a == 256 * b + a % 256;
    assert b == 256 * c + b % 256;
  }

  /** A number is read back from its little-endian bytes wherever they stand. */
  lemma U32ReadsBack(s: seq<Byte>, p: nat, n: nat)
    requires n < 0x1_0000_0000 && p + 4 <= |s| && s[p..p + 4] == LittleEndian(n)
    ensures U32(s, p) == n
  {
    WordOfDigits(n);
    var b := s[p..p + 4];
    assert s[p] == b[0] && s[p + 1] == b[1] && s[p + 2] == b[2] && s[p + 3] == b[3];
  }

  predicate Proper(segments: seq<Segment>) {
    forall i :: 0 <= i < |segments| ==> |segments[i].address| == 4 && |segments[i].data| < 0x1_0000_0000
  }

  /** Segment headers and contents, one after the other. */
  function Laid(segments: seq<Segment>): seq<Byte> {
    if segments == [] then []
    else segments[0].address + LittleEndian(|segments[0].data|) + segments[0].data + Laid(segments[1..])
  }

  lemma Parts(head: seq<Byte>, a: seq<Byte>, b: seq<Byte>, data: seq<Byte>, more: seq<Byte>)
    requires |a| == 4 && |b| == 4
    ensures var (s, start) := (head + a + b + data + more, |head| + 8);
      && s[|head| + 4..start] == b && s[start..start + |data|] == data && s == s[..start + |data|] + more
  {}

  lemma Regroup(head: seq<Byte>, a: seq<Byte>, b: seq<Byte>, data: seq<Byte>, more: seq<Byte>, after: seq<Byte>)
    ensures head + (a + b + data + more) + after == head + a + b + data + (more + after)
  {}

  /** What stands where an image continues with a segment. */
  lemma FirstSegment(head: seq<Byte>, segments: seq<Segment>, after: seq<Byte>)
    requires segments != [] && Proper(segments)
    ensures var (image, data) := (head + Laid(segments) + after, segments[0].data);
      var start := |head| + SEGMENT_HEADER;
      && start + |data| <= |image| && U32(image, |head| + 4) == |data|
      && image[start..start + |data|] == data
      && image == image[..start + |data|] + Laid(segments[1..]) + after
  {
    var data, more := segments[0].data, Laid(segments[1..]);
    var a, b := segments[0].address, LittleEndian(|data|);
    var image := head + Laid(segments) + after;
    assert Laid(segments) == a + b + data + more;
    hide U32, LittleEndian, Laid;
    Regroup(head, a, b, data, more, after);
    Parts(head, a, b, data, more + after);
    U32ReadsBack(image, |head| + 4, |data|);
    var before := image[..|head| + SEGMENT_HEADER + |data|];
    assert before + (more + after) == before + more + after;
  }

  /** The segment walk finds exactly the segments that were laid out. */
  lemma {:induction false} WalkedBack(head: seq<Byte>, segments: seq<Segment>, after: seq<Byte>)
    requires Proper(segments)
    ensures var image := head + Laid(segments) + after; var r := Regions(image, |head|, |segments|);
      && r.Some? && |r.value| == |segments|
      && forall i :: 0 <= i < |segments| ==> image[r.value[i].0..r.value[i].1] == segments[i].data
    decreases |segments|
  {
    hide U32, Laid;
    if segments != [] {
      var image := head + Laid(segments) + after;
      var end := |head| + SEGMENT_HEADER + |segments[0].data|;
      FirstSegment(head, segments, after);
      WalkedBack(image[..end], segments[1..], after);
      assert image == image[..end] + Laid(segments[1..]) + after;
      var rest := Regions(image, end, |segments| - 1).value;
      assert Regions(image, |head|, |segments|).value[1..] == rest;
    }
  }

  /** The device's scan of a laid-out image counts the records of its segments. */
  lemma {:induction false} LaidOutScan(head: seq<Byte>, segments: seq<Segment>, after: seq<Byte>,
      fits: seq<Byte> -> bool, n: nat)
    requires Proper(segments)
    ensures ScanFrom(head + Laid(segments) + after, |head|, |segments|, fits, n) ==
      if forall i :: 0 <= i < |segments| ==> AllFit(segments[i].data, |segments[i].data|, fits)
      then Found(n + RecordCount(segments)) else Mismatch
    decreases |segments|
  {
    hide U32, Records, AllFit;
    if segments != [] {
      var image := head + Laid(segments) + after;
      var data := segments[0].data;
      FirstSegment(head, segments, after);
      LaidOutScan(image[..|head| + SEGMENT_HEADER + |data|], segments[1..], after, fits, n + |Records(data)|);
      assert segments == [segments[0]] + segments[1..];
    }
  }

  function RecordCount(segments: seq<Segment>): nat {
    if segments == [] then 0 else |Records(segments[0].data)| + RecordCount(segments[1..])
  }

  /** validate_identity finds a well-formed image's records in its segments and nowhere else. */
  lemma WholeImageScan(header: seq<Byte>, segments: seq<Segment>, after: seq<Byte>, fits: seq<Byte> -> bool)
    requires Proper(segments) && 1 <= |segments| <= 16
    requires |header| == 24 && header[0] == 0xe9 && header[1] == |segments|
    ensures ScanImage(header + Laid(segments) + after, fits) ==
      if forall i :: 0 <= i < |segments| ==> AllFit(segments[i].data, |segments[i].data|, fits)
      then Found(RecordCount(segments)) else Mismatch
  {
    hide AllFit, Laid;
    LaidOutScan(header, segments, after, fits, 0);
  }
}
