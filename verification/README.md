# Remote Wake: verified models

Remote Wake is a small controller that presses keys on a PC and watches its power LED, a relay that carries
signed commands to it, a phone application that signs them, and tools that publish firmware for it. This project
models the parts whose correctness depends on a history, an algebra or two programs agreeing, and proves the
properties they are built for. `dafny verify dfyconfig.toml` checks everything.

| modules | what they model |
|---|---|
| `Galois`, `ReedSolomon`, `QrLayout`, `QrBits`, `QrBlocks`, `QrMatrix`, `QrReader`, `QrCode` | the pairing QR encoder, against a reader built from the standard |
| `UsbHid` | the USB keyboard: action task, recovery task and callbacks against an adversarial host |
| `Unicode`, `CanonicalJson`, `CanonicalOrder`, `CanonicalAgreement`, `Printers`, `Signing`, `Envelopes`, `ProtocolVectors` | canonical JSON, the signing string and the envelope, on the phone and on the device |
| `AuthCounters` | command verification over persistent replay counters |
| `RelayAssembly`, `RelaySession` | WebSocket reassembly and the session fence |
| `OtaJournal`, `OtaTransaction`, `IdentityScan`, `SourceUrl`, `Base64Url`, `Publishing` | the updater: boot transaction, image scan, URL check, strict decoding, concurrent publication |
| `PcPower`, `TokenBucket`, `BucketClock` | the power-LED classifier and the relay's rate limiter |
| `Options` | optional values |

Code that changes state step by step is a class whose methods are proved against a value-level specification.
Where tasks, interrupts or a host interleave, the methods let an `Environment` act between any two atomic sections,
or a `Run` method picks any enabled section. Where power can fail, every storage call may succeed, fail or end the
run, and only committed state survives. How storage and memory behave is an input of these operations, so their
contracts say exactly what follows from it. Ghost fields record the whole run (every debt snapshot, every durable
floor, every boot selection, every released counter, every dispatched command), and the theorems speak of those.

## What came out differently from the documentation

- `app/src/qr.js:95` speaks of a 274-byte limit; the code accepts at most 271 bytes (`QrBits.ChooseVersion`).
- `app/src/qr.js:195` sets the module (size-8, 8) dark, and `applyFormat` then overwrites it with a format bit. Only
  the reading of the split copy is claimed.
- `app/src/signing.js:20-27` says the two key orders agree below U+10000 and for surrogate pairs alike, except across
  the U+E000 boundary. The exact condition is `CanonicalAgreement.KeysAgree`.
- `relay/src/ratelimit.ts:33` says the state is mutated; the code returns a new one. A clock that steps back can break
  the bound, as in `TokenBucket.ClockMustNotStepBack`, but need not: `BucketClock.SafeExactly` says which clocks keep
  it, and `BucketClock.AnyClock` what holds of all.
- A message whose continuation frame has a payload but starts with an empty chunk is dropped
  (`firmware/main/relay_client.c:653-658` takes the second chunk for a frame start). `RelayAssembly.MessageFold` has
  the exact condition.
- The hash of a selected image can be in the rejected ring in one race: a `rw_ota_reject_unhealthy` that passed its
  first check before health was confirmed takes the pending hash while the worker holds a fetched manifest with that
  hash (`OtaTransaction.LateRejectionOvertaken`, a run of the updater). The flag `overtaken` is raised by exactly that
  step and lowered by the next successful fetch, and a selection has its hash in the ring if and only if it is up.
- A segment header that cannot be read is reported as a bad size (`firmware/main/ota.c:245-246`), which the updater takes
  for a defect of the image and rejects it; other failed reads are not (`IdentityScan.NextSegment`).
- A key removal whose first erase fails and whose second succeeds commits a registered key without a counter, and the
  command released last is released again (`AuthCounters.FailedRemovalReopens`, a run of the controller). The contract
  of `AuthCounters.Controller.RemoveSlot` says that no other outcome leaves a key without its counter. Attempts that
  change nothing, or are undone by a power cut, leave the slot's term and with it replay safety as they were.
- Two commands of one device can share a signing text when an act holds a newline
  (`Signing.NewlineInActConfuses`); newlines in ids alone are harmless (`Signing.SameDeviceDetermines`).
  `Envelopes.ConfusedExactly` has the exact condition. The acts a device enables are names without newlines
  (`firmware/main/relay_client.c:238-258`).

## Model

| member | source | states |
|---|---|---|
| Galois.MulComm | app/src/qr.js:26 | GF(256) multiplication, defined by shifts and reductions and not by tables, is commutative |
| Galois.MulAssoc | app/src/qr.js:26 | and associative |
| Galois.MulAdd | app/src/qr.js:26 | and distributes over XOR on both sides |
| Galois.MulUnits | app/src/qr.js:26 | 1 is its unit and 0 absorbs |
| Galois.MulNonZero | app/src/qr.js:26 | the field has no zero divisors |
| Galois.XTimeAdd | app/src/qr.js:20-21 | doubling with reduction by 0x11d is linear |
| Galois.PowAdd | app/src/qr.js:26 | α^(i+j) = α^i · α^j, the law that makes logarithms work |
| Galois.PowLandmarks | app/src/qr.js:13-24 | α^255 = 1 and no proper divisor of 255 is a period |
| Galois.PowInjective | app/src/qr.js:18-19 | the 255 powers the table loop enters are all different, so no logarithm is overwritten |
| Galois.PowSurjective | app/src/qr.js:18-19 | every non-zero byte is one of them, so every logarithm is entered |
| ReedSolomon.Tables.constructor | app/src/qr.js:13-24 | after initGF both tables are right everywhere: EXP[i] = α^i for i < 512, LOG undoes it on every non-zero byte |
| ReedSolomon.FillCycle | app/src/qr.js:17-22 | the first loop enters one full cycle of powers and their logarithms |
| ReedSolomon.Unroll | app/src/qr.js:23 | the second loop continues it with period 255 |
| ReedSolomon.Tables.GfMul | app/src/qr.js:26 | the table look-up is the field product for all pairs of bytes, zero included |
| ReedSolomon.GeneratorIsProduct | app/src/qr.js:34-45 | the polynomial built by shifting and scaling takes the values of the product of (x + α^i) |
| ReedSolomon.GeneratorRoots | app/src/qr.js:28-45 | reversed to descending order it is still that product, and vanishes at α^0 … α^(n-1) |
| ReedSolomon.RsGenerator | app/src/qr.js:34-45 | the nested loops over coefficient arrays compute that generator |
| ReedSolomon.FeedByte | app/src/qr.js:50-55 | one round of the division register, in place |
| ReedSolomon.RsEncode | app/src/qr.js:47-57 | the register after all data is the parity |
| ReedSolomon.ParityInvariant | app/src/qr.js:47-57 | at every root the register has the value of data · x^n: each round keeps it |
| ReedSolomon.SyndromesVanish | app/test/qr.test.mjs:142-150 | data followed by its parity evaluates to zero at α^0 … α^(n-1), for all data and every length |
| ReedSolomon.FactorTheorem | app/src/qr.js:34-57 | division by (x + r) leaves the value at r as remainder |
| ReedSolomon.OnlyZeroVanishes | app/src/qr.js:34-57 | a polynomial with as many of these roots as coefficients is zero |
| ReedSolomon.ParityUnique | app/test/qr.test.mjs:142-150 | the syndromes vanish if and only if the appended bytes are exactly the parity rsEncode computes |
| QrLayout.AlignedIsInAlignment | app/test/qr.test.mjs:89-125 | the modules covered by the alignment patterns drawn are exactly those the version table implies |
| QrLayout.WalkExact | app/src/qr.js:219-237 | from any column on, the zigzag visits each free module left of it once, skipping the timing column |
| QrLayout.DataPathExact | app/src/qr.js:219-237 | for every odd size of at least 7 and every reserved map the walk visits every free module outside the timing column exactly once; below 7 it never reaches column 0 |
| QrLayout.PathExact | app/src/qr.js:219-237 | in a symbol of each version the walk visits exactly the unreserved modules, once each |
| QrLayout.FreeCellsSuffice | app/src/qr.js:59-79 | a count of free modules region by region covers all codewords of the version |
| QrLayout.Capacity | app/src/qr.js:59-79 | so every version of the table has room on the walk for all its codewords |
| QrBits.ChooseVersion | app/src/qr.js:88-96 | the smallest version that holds the payload; refused exactly above 271 bytes |
| QrBits.BuildDataCodewords | app/src/qr.js:98-123 | the codewords spell the byte-mode segment, a terminator, zero bits to a byte, then alternating pad bytes, and fill the version exactly |
| QrBits.PackBytes | app/src/qr.js:116-120 | packing eight bits at a time loses nothing |
| QrBits.FromToBits | app/src/qr.js:101-104 | a number below 2^n reads back from its n bits |
| QrBits.ToFromBits | app/test/qr.test.mjs:155-160 | n bits are the n-bit form of the number they spell |
| QrBits.PayloadRoundTrip | app/test/qr.test.mjs:152-166 | whatever padding follows, the byte-mode reader returns the payload |
| QrBlocks.SplitAndEncode | app/src/qr.js:126-138 | the blocks and, for each, its own parity |
| QrBlocks.AppendColumns | app/src/qr.js:140-148 | writes codeword i of every block that has one, for each i in turn |
| QrBlocks.Interleave | app/src/qr.js:126-149 | data blocks column by column, then parity blocks |
| QrBlocks.FlattenSplit | app/src/qr.js:130-136 | the blocks put together again are the data |
| QrBlocks.DeinterleaveRoundTrip | app/test/qr.test.mjs:127-140 | the test's de-interleaving recovers data and parity blocks, for unequal block sizes and any bytes that follow |
| QrBlocks.InterleavedLength | app/src/qr.js:126-149 | interleaving neither drops nor duplicates a codeword |
| QrBlocks.SizesAddUp | app/src/qr.js:59-72 | the block sizes of every version add up to its data codewords |
| QrMatrix.Finder | app/src/qr.js:157-172 | one finder pattern with its separator, clipped at the edges, in place; all else unchanged |
| QrMatrix.Timing | app/src/qr.js:176-181 | the timing row and column between the finders |
| QrMatrix.AlignmentPattern | app/src/qr.js:183-192 | one 5×5 alignment pattern |
| QrMatrix.AlignmentRow | app/src/qr.js:183-192 | the centres of one row that do not collide with a finder |
| QrMatrix.AlignmentPatterns | app/src/qr.js:183-192 | exactly the alignment patterns of the version |
| QrMatrix.ReserveFormat | app/src/qr.js:197-206 | untouched format modules become light and reserved; what is drawn stays |
| QrMatrix.DrawVersionInfo | app/src/qr.js:208-215 | both copies of the version information from version 7 on |
| QrMatrix.PlaceFunctionPatterns | app/src/qr.js:157-216 | from a blank matrix every module ends as one pattern function says, later drawings over earlier ones |
| QrMatrix.PatternIsReserved | app/src/qr.js:157-216 | the modules left untouched are exactly the unreserved ones |
| QrCode.NextRow | app/src/qr.js:219-237 | the two modules the next row visits have not been visited before |
| QrCode.PlaceData | app/src/qr.js:219-237 | bit k of the codewords lands on module k of the walk, zero bits after the end, and no reserved module changes |
| QrCode.ApplyMask | app/src/qr.js:341-345 | the mask flips exactly the unreserved modules its predicate selects |
| QrCode.ApplyFormat | app/src/qr.js:305-320 | both copies of the format word; the copy along column 8 includes the module set dark at line 195 |
| QrReader.FormatReads | app/src/qr.js:81-82 | the tabulated word of each mask says, under the pattern 0x5412, level L and this mask, and the division of the whole word by the generator 0x537 leaves nothing |
| QrReader.VersionReads | app/src/qr.js:79 | the tabulated word of each version from 7 on says this version, and its division by 0x1f25 leaves nothing |
| QrReader.MaskTiles | app/src/qr.js:239-248 | at every module the eight formulas are the repeated tile pictures of the standard |
| QrReader.VersionTables | app/src/qr.js:61-72 | a payload fits a version exactly up to the limit the standard gives for level L, and each version has the standard's number of codewords |
| QrReader.BlocksEven | app/src/qr.js:61-72 | the blocks share the data evenly, the longer ones last |
| QrCode.VersionRoundTrip | app/src/qr.js:207-215 | the upper right copy reads as the version word drawn |
| QrCode.FormatIsReserved | app/src/qr.js:305-320 | no format bit lands on a data module |
| QrCode.FormatRoundTrip | app/test/qr.test.mjs:89-96 | the 15 modules of the split copy read as the format word of the mask |
| QrCode.CodewordsRoundTrip | app/test/qr.test.mjs:102-125 | unmasking along the walk recovers all codewords, remainder modules aside |
| QrCode.RemainderBits | app/src/qr.js:226-231 | and whatever is left of the walk reads as zeros |
| QrCode.DecodeRoundTrip | app/test/qr.test.mjs:168-180 | a reader that takes version and mask from the checked words, unmasks with the tiles, walks, de-interleaves and checks parity gets the payload back |
| QrCode.ShowsUnique | app/src/qr.js:338-346 | payload codewords, version and mask leave no module of the symbol open |
| QrCode.NextMask | app/src/qr.js:347-348 | keeping the better of the best so far and the next drawing keeps the best of all |
| QrCode.DrawSymbol | app/src/qr.js:339-346 | one drawing: data, mask and format on a copy of the patterns |
| QrCode.DrawBest | app/src/qr.js:337-349 | of the eight drawings the first with the lowest score, whatever the scoring function |
| QrCode.Encode | app/src/qr.js:326-356 | for every payload of at most 271 bytes and every scoring function that reader gets the payload back from the symbol, which is of the smallest version and the best-scoring of the eight; longer payloads are refused |
| UsbHid.ReleasedMeans | firmware/main/usb_hid.c:496-506 | in a log with keys up, a completed neutral report follows every key-down |
| UsbHid.PressesSeparated | firmware/main/usb_hid.c:565-569 | between any two submitted key-downs the host took a neutral report in full |
| UsbHid.CompletesKeeps | firmware/main/usb_hid.c:158-174 | a full completion, matching or not, keeps the release-debt invariant |
| UsbHid.AbortsKeeps | firmware/main/usb_hid.c:158-191 | so does a short or failed one, whether or not the host saw the report |
| UsbHid.ResetKeeps | firmware/main/usb_hid.c:197-219 | so does a reset, with the callback run or still to come |
| UsbHid.SubmitKeeps | firmware/main/usb_hid.c:387-389 | so does a submission, accepted or not, under debt |
| UsbHid.Keyboard.constructor | firmware/main/usb_hid.c:141-151 | the firmware starts in debt, before any report; whether the host of this run is a helpful one is fixed here |
| UsbHid.Keyboard.Init | firmware/main/usb_hid.c:231-275 | the keyboard works from a successful set-up on |
| UsbHid.Keyboard.ReportCompleteCb | firmware/main/usb_hid.c:158-174 | only a full report equal to the expected one counts as completed |
| UsbHid.Keyboard.ReportFailedCb | firmware/main/usb_hid.c:178-191 | a failed transfer forgets the wait and both completions |
| UsbHid.Keyboard.LifecycleEvent | firmware/main/usb_hid.c:197-210 | a new bus epoch; an endpoint reset forgets the wait; only a mount ends re-enumeration |
| UsbHid.Keyboard.EnvironmentStep | firmware/main/usb_hid.c:158-219 | every step of host, bus and callbacks keeps the invariant and stays within what the lock holder allows for |
| UsbHid.Keyboard.BusState | firmware/main/usb_hid.c:290-311 | reads the bus amid interference; success means no re-enumeration is under way, a dead bus leaves no wait, and once the bus has changed since the action began the answer is never success; with a helpful host the answer is exactly what the bus was |
| UsbHid.Keyboard.ReadEpoch | firmware/main/usb_hid.c:292-295 | its first section: a change of the bus since the action began is noticed |
| UsbHid.Keyboard.ReadMount | firmware/main/usb_hid.c:296-310 | its second: an unmounted bus leaves no wait, a suspended or changed one is no success |
| UsbHid.Keyboard.AwaitEndpoint | firmware/main/usb_hid.c:337-360 | success means no transfer and no wait is pending and no re-enumeration is under way, and it stays so; while all is well an idle endpoint is found at once |
| UsbHid.Keyboard.Arm | firmware/main/usb_hid.c:369-385 | claims an already completed release, or arms exactly this report |
| UsbHid.Keyboard.Submit | firmware/main/usb_hid.c:387-391 | the debt is taken on before the report reaches the endpoint, which carries it exactly if accepted |
| UsbHid.Keyboard.AwaitCompletion | firmware/main/usb_hid.c:392-410 | success means this report completed since the call, and nothing else was submitted; a helpful host's completion is seen before the time-out |
| UsbHid.Keyboard.Transmit | firmware/main/usb_hid.c:387-419 | at most one submission and its own completion happen, both if it succeeds |
| UsbHid.Keyboard.SendOnIdle | firmware/main/usb_hid.c:362-420 | on an idle endpoint an earlier release is claimed, or this report is sent and awaited |
| UsbHid.Keyboard.SendReport | firmware/main/usb_hid.c:337-420 | a key-down is submitted at most once and success means the host took it; a release never adds a key-down and success means the keys are up; with a helpful host it succeeds |
| UsbHid.Keyboard.ClearDebt | firmware/main/usb_hid.c:425-430 | the debt may be dropped amid interference because the host is already released |
| UsbHid.Keyboard.ReleaseAll | firmware/main/usb_hid.c:422-433 | success clears the debt with the host released and the endpoint idle |
| UsbHid.Keyboard.RestartUsb | firmware/main/usb_hid.c:435-455 | detaching keeps the invariant amid interference, and reports stay blocked unless a mount callback has run since |
| UsbHid.Keyboard.KeyboardReport | firmware/main/usb_hid.c:389 | never called between a detach and the next mount callback; accepted only by an idle endpoint, and a refusal says nothing about what the host saw |
| UsbHid.Keyboard.RecoveryOnce | firmware/main/usb_hid.c:459-485 | background cleanup never sends a key-down and does nothing without the lock or while quiesced; with a helpful host and a ready bus it clears the debt, releases exactly if there was one or the bus is new to it, and else sends nothing; on a bus that is suspended or detached it sends nothing and leaves a debt |
| UsbHid.Keyboard.ObserveBus | firmware/main/usb_hid.c:464-475 | its first half: with a helpful host the bus is found active exactly if it is |
| UsbHid.Keyboard.Cleanup | firmware/main/usb_hid.c:475-479 | success clears the debt; after a failed release on a bus that a helpful host keeps up the keyboard is detached until a new mount, on any other bus it is not |
| UsbHid.Keyboard.BeginAction | firmware/main/usb_hid.c:496-524 | an action starts only from a completed neutral report |
| UsbHid.Keyboard.EnsureAwake | firmware/main/usb_hid.c:316-335 | a bus that is awake is left alone, a suspended one is asked to resume |
| UsbHid.Keyboard.PressRelease | firmware/main/usb_hid.c:565-569 | one key-down at most, and none when the bus has changed since the action began; success means the host took it and then a release, and no debt is left |
| UsbHid.Keyboard.FinishAction | firmware/main/usb_hid.c:548-563 | cleanup adds no key-down, never turns a failure into success, and does nothing without debt; with a helpful host a debt on a bus that is up is cleared or the keyboard detached, and on any other bus nothing is sent |
| UsbHid.Keyboard.PerformAction | firmware/main/usb_hid.c:573-642 | the key-downs an action submits are a prefix of its list, in order, none repeated; success means the host took the whole list, each exactly once, and holds nothing any more; it succeeds when the lock is free, the bus is up and the host takes every report in full before its time-out; without the lock or while quiesced nothing is sent |
| UsbHid.Keyboard.Type | firmware/main/usb_hid.c:600-642 | the key-downs are a prefix of those of the text; success means that the host, reading the layout table (Left-Shift alone selects the shifted entry), reads the text from the key-downs it took, and after it an Enter exactly if one was asked for; an untypeable or overlong text sends nothing |
| UsbHid.SpellsOneText | firmware/main/usb_hid.c:627-639 | with table entries of their own for the characters used, the key-downs determine the text and whether an Enter follows |
| UsbHid.TypesAll | firmware/main/usb_hid.c:600-642 | a new keyboard that a helpful host has enumerated gives it the whole text, and Enter exactly if asked, and ends released |
| UsbHid.Keyboard.Environment | firmware/main/usb_hid.c:158-219 | any number of such steps; a helpful host only ever takes the report it was given |
| UsbHid.Keyboard.Wake | firmware/main/usb_hid.c:573-593 | the same for two taps of Left-Ctrl |
| UsbHid.Keyboard.Keys | firmware/main/usb_hid.c:735-806 | the same for a list of chords; none, or more than 32, send nothing |
| UsbHid.Keyboard.Quiesce | firmware/main/usb_hid.c:526-541 | success means further actions are blocked, with the host released after a completed neutral report or with nothing sent at all; pausing sends no key-down; with a helpful host it releases and succeeds |
| UsbHid.Keyboard.Run | firmware/main/usb_hid.c:158-569 | any schedule of actions, recovery, host and bus events: whenever the debt is clear the host's last report is neutral and nothing is in flight, and every key-down follows a completed neutral report |
| UsbHid.KeystrokesPress | firmware/main/usb_hid.c:612-635 | a typeable text never asks for a neutral report |
| Unicode.UnitOrder | app/src/signing.js:20-27 | two different characters order their encodings; UTF-16 reverses code point order exactly for U+E000–U+FFFF against supplementary characters |
| Unicode.EncodedOrder | app/src/signing.js:20-27 | byte order of UTF-8 is code point order, and unit order of UTF-16 is too, reversed exactly when the texts first differ in such a pair |
| Unicode.EncodeInjective | app/src/signing.js:103-105 | different texts have different encodings |
| Unicode.Utf16RoundTrip | app/src/signing.js:103-105 | well-formed UTF-16 decodes to the text it encodes |
| Unicode.Utf8RoundTrip | app/src/signing.js:103-105 | decoding UTF-8 by its lead bytes gives the text back |
| Unicode.LessAtDifference | firmware/main/canon_json.c:138-146 | the unit order is decided by the first unit that differs |
| CanonicalJson.ReadEscapeAll | firmware/main/canon_json.c:78-108 | an escaped string reads back, whatever follows |
| CanonicalJson.ReadPrintInt | firmware/main/canon_json.c:110-134 | an integer reads back |
| CanonicalJson.DecimalIsProper | firmware/main/canon_json.c:110-122 | the decimal text of a number has no leading zero, and is 0 for zero alone |
| CanonicalJson.ReadPrint | firmware/main/canon_json.c:192-239 | the reader undoes the printer on every tree, whatever follows; it refuses leading zeros, -0, and escapes that are not needed or longer than needed |
| CanonicalJson.PrintRead | firmware/main/canon_json.c:78-239 | and it takes no other text: whatever it reads is the printed form of what it read, so every tree, number and string has one text |
| CanonicalJson.PrintInjective | firmware/main/canon_json.c:192-239 | different trees print differently |
| CanonicalJson.PrintIsPlain | firmware/main/canon_json.c:78-108 | printed JSON holds no control character, so no newline |
| CanonicalOrder.BeforeMeansLess | firmware/main/canon_json.c:138-151 | the abstract key orders are the byte order of UTF-8 keys and the unit order of UTF-16 keys |
| CanonicalOrder.SortMembersSorts | firmware/main/canon_json.c:168-178 | sorting keeps the keys and leaves them in order |
| CanonicalOrder.SortEncoded | app/src/signing.js:50-55 | sorting an encoded tree by unit is encoding the tree sorted in that encoding's order, at every level |
| CanonicalOrder.PrintEncoded | firmware/main/canon_json.c:78-108 | printing commutes with encoding, escapes included |
| CanonicalOrder.CanonicalEncoded | app/src/signing.js:28-63 | either side's canonical text encodes the tree sorted its way |
| CanonicalAgreement.EncodedIsWellFormed | firmware/main/canon_json.c:192-239 | what each side holds is a tree its printer accepts |
| CanonicalAgreement.SortAgrees | app/src/signing.js:20-27 | the two orders sort a tree alike if and only if no object holds two conflicting keys |
| CanonicalAgreement.PhoneAndDeviceAgree | app/src/signing.js:20-63 | phone and device print the same bytes for a value if and only if no object in it, at any depth, holds two keys that first differ in U+E000–U+FFFF against a supplementary character |
| CanonicalAgreement.OrdinaryAgrees | app/src/signing.js:20-27 | keys without U+E000–U+FFFF suffice |
| CanonicalAgreement.InsertsCommute | firmware/main/canon_json.c:168-178 | members may be sorted in in any order |
| CanonicalAgreement.SortMeaning | firmware/main/canon_json.c:153-188 | sorting, in either order, changes no value |
| CanonicalAgreement.CanonicalIsTheValue | firmware/main/canon_json.c:192-239 | canonical texts are equal if and only if the values are, member order aside |
| CanonicalAgreement.CanonicalReadsBack | firmware/main/canon_json.c:192-239 | canonical text parses to the same value with keys sorted at every level |
| CanonicalAgreement.SortedTwiceIsSortedOnce | firmware/main/canon_json.c:153-188 | the device's order erases the phone's |
| Printers.TextBuffer.Reserve | firmware/main/canon_json.c:10-31 | success leaves room for the text and its NUL; an error sticks |
| Printers.TextBuffer.Append | firmware/main/canon_json.c:33-41 | appends in full or sets the error flag |
| Printers.TextBuffer.EmitString | firmware/main/canon_json.c:78-108 | appends the quoted, escaped string |
| Printers.TextBuffer.EmitArray | firmware/main/canon_json.c:219-231 | appends the canonical text of an array |
| Printers.TextBuffer.EmitObject | firmware/main/canon_json.c:153-188 | appends the canonical text of an object: collected, sorted in place, printed |
| Printers.TextBuffer.AppendJson | firmware/main/canon_json.c:192-239 | appends the canonical text of any value, by recursion |
| Printers.SortByKey | firmware/main/canon_json.c:172-176 | the array is sorted by key and holds the same children |
| Printers.RearrangedMembers | firmware/main/canon_json.c:168-186 | any sorted rearrangement of the children prints the same, so the choice of sort does not matter |
| Printers.CanonJson | firmware/main/canon_json.c:241-250 | the canonical text, the one text the strict reader takes for the sorted tree, or nothing exactly when one of the requests it made for memory was refused; if every request is met, the text |
| Printers.CanonicalJSON | app/src/signing.js:28-63 | the phone's loops and recursion print the same canonical text of a UTF-16 tree |
| Signing.SigningString | firmware/main/auth.c:53-87 | the buffer appends make the signing text; nothing only if some request for memory was refused |
| Signing.CanonicalArgs | app/src/signing.js:66-72 | absent and null arguments print as {}, an object canonically, anything else is an error |
| Signing.BuildSigningString | app/src/signing.js:79-100 | the phone builds the same signing text, and refuses exactly empty fields, negative numbers and arguments that are no object |
| Signing.SigningAgrees | app/src/signing.js:103-105 | the bytes the phone signs are those the device verifies if and only if the argument keys do not conflict |
| ProtocolVectors.SecondVector | docs/test-vectors.json:22-37 | the signing string of the second test vector, for any device and id |
| ProtocolVectors.NestedArrays | docs/test-vectors.json:39-61 | the printed form of nested arrays as in the third |
| ProtocolVectors.Words | firmware/main/canon_json.c:192-212 | the words, the empty containers and a negative number as they are printed |
| ProtocolVectors.FieldNames | app/src/signing.js:131-144 | the names of the envelope fields in the order they are sent |
| Signing.JoinedInjective | firmware/main/auth.c:53-87 | with newlines in no field but the first, the joined text determines every field |
| Signing.SigningDetermines | firmware/main/auth.c:53-87 | with no newline in id and act, signing texts are equal if and only if dev, id, ts, ctr, act and the value of args are |
| Signing.NewlineInIdConfuses | firmware/main/auth.c:53-87 | an id that holds two consecutive number lines confuses two commands of one device; the witness has an act with newlines |
| Signing.NewlineInActConfuses | firmware/main/auth.c:53-87 | an act whose first line is a number confuses two commands of one device, with shifted id, ts and ctr |
| Signing.SameDevice | firmware/main/auth.c:53-87 | commands of one device share their text if and only if they share the lines between device and arguments, and the value of the arguments |
| Signing.SameDeviceDetermines | firmware/main/auth.c:53-87 | for one device, with no newline in the acts, equal signing texts mean the same command, whatever the ids hold |
| Signing.ReadingUnique | firmware/main/auth.c:53-87 | at one position the lines hold at most one pair of numbers |
| Signing.ConfusedMeans | firmware/main/auth.c:53-87 | every other command with the same text has its number lines at another position |
| Signing.RereadConfuses | firmware/main/auth.c:53-87 | every other position with two number lines gives such a command |
| Envelopes.SerializeEnvelope | app/src/signing.js:131-144 | prints the envelope as one object in wire order with the arguments in canonical form |
| Envelopes.PhoneTextEncodes | app/src/signing.js:131-144 | that text is well-formed UTF-16 and encodes the envelope in characters |
| Envelopes.TakenApart | firmware/main/auth.c:188-206 | the device's field look-up finds every field again, and accepts exactly those that fit its buffers |
| Envelopes.EnvelopeArrives | app/src/signing.js:131-144 | reading the request body gives exactly the envelope sent, in UTF-8; it is refused only for the size of a field |
| Envelopes.SameSigningText | firmware/main/auth.c:208-229 | from the arguments in the phone's order the device rebuilds the signing text of the command itself |
| Envelopes.EnvelopeVerifies | firmware/main/auth.c:208-229 | end to end: the text the device verifies is the bytes the phone signed if and only if the argument keys do not conflict |
| Envelopes.ConfusedExactly | firmware/main/auth.c:185-213 | among the commands a device takes, one shares its text with another if and only if its id, ts, ctr and act hold a second pair of consecutive number lines that leaves an id and an act of admissible length |
| Envelopes.ArgumentsReparsed | app/src/signing.js:112-124 | parsing the canonical arguments first, in whatever order, changes nothing on the wire |
| Base64Url.OctetsOfSextets | firmware/main/b64url.c:21-51 | regrouping bytes into six-bit digits and back is the identity |
| Base64Url.SextetsOfOctets | firmware/main/b64url.c:53-87 | regrouping digits into bytes and back is the identity exactly when the dropped bits are zero |
| Base64Url.RoundTrip | firmware/main/b64url.c:21-87 | decoding undoes encoding for every byte string, padded or not |
| Base64Url.Alphabets | firmware/main/b64url.c:5-18 | the encoder writes the URL-safe alphabet of RFC 4648, and the decoder takes a character for a digit exactly if it stands for it there or in the standard alphabet |
| Base64Url.EitherAlphabet | firmware/main/b64url.c:6-17 | text in the standard alphabet, the URL-safe one or a mixture decodes to the same bytes |
| Base64Url.StrictTextIsCanonical | firmware/main/b64url.c:53-87 | a text of the alphabet is what the encoder writes exactly when its spare bits are zero |
| Base64Url.Shifted | firmware/main/b64url.c:66-76 | the accumulator wraps at 32 bits without losing a bit still wanted |
| Base64Url.Encode | firmware/main/b64url.c:21-51 | writes the encoding and a NUL, or refuses exactly when the buffer is too small |
| Base64Url.Decode | firmware/main/b64url.c:53-87 | writes the decoded bytes, or fails exactly on a bad character, a bad length or too small a buffer |
| Base64Url.DecodeStrictly | firmware/main/ota_manifest.c:105-117 | decode-and-compare accepts exactly the strict texts, provided malloc finds room |
| Base64Url.StrictAccepts | firmware/main/ota_manifest.c:105-117 | the device accepts a text for given bytes exactly when it is their encoding and they are 1 to capacity |
| Base64Url.Unb64Accepts | tools/ota/manifest.py:55-64 | so does the publisher |
| Base64Url.StrictDecodersAgree | tools/ota/manifest.py:55-64 | device and publisher agree on every text and bound |
| PcPower.Classifier.Step | firmware/main/pc_power.c:11-50 | the answer after each sample is the verdict over the whole sample history |
| PcPower.Faithful | firmware/main/pc_power.c:11-50 | every field of the classifier is a function of the history; no subtraction of times underflows |
| PcPower.ChainMeans | firmware/main/pc_power.c:31-38 | the run counter is at least k exactly when the last k edges are each under 5 s apart |
| PcPower.LevelMeans | firmware/main/pc_power.c:27-39 | the level is the one last held for the debounce time, or the first sample's |
| PcPower.SleepExactly | firmware/main/pc_power.c:43-49 | "sleep" if and only if four quick edges were the state at some sample and no level was steady since |
| PcPower.SteadyExactly | firmware/main/pc_power.c:43-49 | "on" or "off" if and only if that level was steady for 5 s and no other decision fell since |
| PcPower.SteadyIsLate | firmware/main/pc_power.c:43-49 | once steady, the last edge is 5 s old |
| PcPower.ExcursionHeldOff | firmware/main/pc_power.c:27-29 | a raw change under 50 ms leaves level, last edge, run and answer as they were |
| PcPower.ExcursionsInvisible | firmware/main/pc_power.c:27-29 | deleting it from the history changes no later answer |
| TokenBucket.Paid | relay/src/ratelimit.ts:35-47 | every allowed call is paid for by the tokens at the start or by the refill since |
| TokenBucket.WindowBound | relay/src/ratelimit.ts:35-47 | in any window at most capacity plus length × refillPerMinute / 60000 calls are allowed |
| TokenBucket.NewBucketBound | relay/src/ratelimit.ts:27-29 | a new bucket is within the bound |
| TokenBucket.NewBucketBurst | relay/src/ratelimit.ts:27-29 | at its start a new bucket allows exactly the first floor(capacity) calls |
| TokenBucket.SteadyCalls | relay/src/ratelimit.ts:35-49 | calls at least the refill of one token apart are all allowed |
| TokenBucket.DeniedStep | relay/src/ratelimit.ts:40-46 | a denied call changes nothing the next call sees |
| TokenBucket.DeniedCallsInvisible | relay/src/ratelimit.ts:40-46 | inserting denied calls changes no other answer of a run |
| TokenBucket.ClockMustNotStepBack | relay/src/ratelimit.ts:40 | one run on a clock that steps back and breaks the bound |
| BucketClock.AnyClock | relay/src/ratelimit.ts:35-47 | under any clock the allowed calls and what is left are at most the tokens at the start plus the refill of the clock's total forward movement |
| BucketClock.DirectIsBounded | relay/src/ratelimit.ts:35-47 | on a clock that between no two readings moves forward further than they are apart, every window keeps the bound, whatever the bucket held |
| BucketClock.OrderedIsDirect | relay/src/ratelimit.ts:40 | clocks that never step back are such clocks |
| BucketClock.DetourBreaks | relay/src/ratelimit.ts:35-47 | on any other clock some run of some configuration breaks the bound |
| BucketClock.SafeExactly | relay/src/ratelimit.ts:35-47 | every run on a clock keeps the bound if and only if between no two readings the clock moves forward further than they are apart |
| SourceUrl.ScanHost | firmware/main/ota_manifest.c:35-44 | accepts exactly an https URL with a plain host that fits and a plain path, and copies that host |
| SourceUrl.CheckSource | firmware/main/ota_manifest.c:45-56 | accepts exactly the URLs below the prefix without traversal, and what it accepts stays below the prefix once resolved |
| SourceUrl.NothingRemoved | firmware/main/ota_manifest.c:51-55 | on a path without dot segments the removal algorithm of RFC 3986, section 5.2.4, rewrites at most a final "/." |
| SourceUrl.SamePathStart | firmware/main/ota_manifest.c:53 | prefix and URL have the same host |
| SourceUrl.Contained | firmware/main/ota_manifest.c:45-56 | every accepted URL begins with the prefix after dot segments are removed |
| SourceUrl.ContainedWhenServed | firmware/main/ota_manifest.c:45-56 | nor does it leave the prefix on a server that decodes escapes such as %2e first, or takes a query off |
| SourceUrl.AcceptedIsResolved | firmware/main/ota_manifest.c:45-56 | up to a final "/." it is its own resolved form |
| IdentityScan.MagicNeverOverlaps | tools/ota/manifest.py:239-248 | two occurrences of the magic never overlap, so skipping 16 bytes misses none |
| IdentityScan.FindRecords | tools/ota/manifest.py:230-248 | find-and-skip lists exactly the positions of whole records |
| IdentityScan.ExamineWindow | firmware/main/ota.c:254-261 | every position of the window where a record fits is examined once |
| IdentityScan.ScanBlock | firmware/main/ota.c:251-263 | one read behind the carry keeps the scan of the whole segment; it fails exactly when that read does |
| IdentityScan.Carry | firmware/main/ota.c:262-263 | the last bytes move to the front |
| IdentityScan.ScanSegment | firmware/main/ota.c:249-264 | block-wise reading examines each position of the segment exactly once, in order, and counts exactly its records; it fails only if some read of the segment does |
| IdentityScan.ValidateRecords | firmware/main/ota.c:234-266 | over all segments, for any lengths, the device's scan is the scan of the whole image when memory and reads serve; otherwise an answer other than a failure or a bad size is still that of the whole image |
| IdentityScan.U32ReadsBack | firmware/main/ota.c:243-248 | a 32-bit number is read back from its little-endian bytes wherever they stand |
| IdentityScan.WalkedBack | tools/ota/manifest.py:202-218 | segments laid out with little-endian lengths are walked back by the publisher to exactly those segments |
| IdentityScan.LaidOutScan | firmware/main/ota.c:243-265 | and the device finds in them the records of each segment, or a mismatch if one is not the record wanted |
| IdentityScan.WholeImageScan | firmware/main/ota.c:234-266 | so an image of a header and 1 to 16 segments is scanned segment by segment, whatever is appended |
| IdentityScan.NextSegment | firmware/main/ota.c:243-265 | one segment header and its segment; an unreadable header counts as a bad size |
| IdentityScan.ReadFlash | firmware/main/ota.c:252 | a read succeeds exactly where the flash is readable, and then delivers its bytes behind the carry |
| IdentityScan.CountRecords | tools/ota/manifest.py:230-248 | the publisher's count over all regions |
| IdentityScan.SameCount | tools/ota/manifest.py:202-248 | device and publisher accept the same segment walks and count the same records |
| OtaJournal.Journal.constructor | firmware/main/ota.c:473-476 | an absent journal reads as the empty one |
| OtaJournal.Journal.IsRejected | firmware/main/ota_journal.c:8-12 | found exactly when the hash is in the ring |
| OtaJournal.Journal.ClearPending | firmware/main/ota_journal.c:13-17 | forgets the pending image and nothing else |
| OtaJournal.Journal.Prepare | firmware/main/ota_journal.c:18-21 | records the pending image and nothing else |
| OtaJournal.Journal.Reject | firmware/main/ota_journal.c:22-30 | the ring gains the hash and the pending image is forgotten |
| OtaJournal.Journal.Confirm | firmware/main/ota_journal.c:31-35 | the floor rises to the release, never falls |
| OtaJournal.RejectedMeans | firmware/main/ota_journal.c:8-12 | membership in the stored array is membership in the ring of latest rejections |
| OtaJournal.RejectAppends | firmware/main/ota_journal.c:22-30 | the ring is the last four distinct rejected hashes, oldest first |
| OtaJournal.RejectKeepsDistinct | firmware/main/ota_journal.c:22-30 | no hash is in it twice |
| OtaTransaction.Updater.SaveJournal | firmware/main/ota.c:100-106 | RAM follows only a durable write; a power cut leaves the old or the new journal |
| OtaTransaction.Updater.SetBoot | firmware/main/ota.c:321-352 | a selection is only made with a good, already durable journal |
| OtaTransaction.Updater.Boot | firmware/main/ota.c:13-18 | after any power cut: the slot the bootloader picks, one trial for a new image, and an unconfirmed one is aborted and owed a rejection |
| OtaTransaction.Updater.ReconcileBoot | firmware/main/ota.c:124-139 | a journal that waits for an image not running ends with nothing pending and a durable ring that gained the pending hash, as the newest, exactly if the slot it names is aborted or invalid, and is otherwise as it was; any other journal is left alone; a candidate given up is then in the ring |
| OtaTransaction.Updater.Init | firmware/main/ota.c:433-497 | the worker exists only after that, with the same effect on the journal |
| OtaTransaction.ReconcileMeans | firmware/main/ota.c:124-139 | which of the two journals is written follows from the slot the journal names |
| OtaTransaction.Updater.ConfirmBootloader | firmware/main/ota.c:23-38 | success means the running slot is valid or never needed confirmation; an entry is seeded only for the selected slot |
| OtaTransaction.Updater.ConfirmHealthy | firmware/main/ota.c:353-367 | success means the durable floor has reached the running release |
| OtaTransaction.Updater.SaveConfirmation | firmware/main/ota.c:353-367 | health is published only once the floor is durable |
| OtaTransaction.Updater.StartReject | firmware/main/ota.c:368-370 | the unlocked first check |
| OtaTransaction.Updater.SuppressPending | firmware/main/ota.c:371-378 | the critical section of the rejection: the pending hash, if there is one, enters the ring and the pending image is forgotten; the flag overtaken is raised exactly when it is the hash of the manifest in the worker's hands |
| OtaTransaction.Updater.RollBack | firmware/main/ota.c:379 | then the running slot is given up, whether or not the suppression was saved; an image on trial that gives itself up is owed a rejection |
| OtaTransaction.Updater.SaveRejection | firmware/main/ota.c:373-375 | on success the pending hash is in the durable ring |
| OtaTransaction.Updater.FetchManifest | firmware/main/ota.c:195-231 | a manifest is accepted exactly when its release is above the running one and the floor and its hash is not in the ring; only then is the flag overtaken lowered |
| OtaTransaction.Updater.BeginDownload | firmware/main/ota.c:274-300 | only the inactive slot is erased |
| OtaTransaction.Updater.FinishDownload | firmware/main/ota.c:300-316 | the slot holds the manifest's image exactly when validation passed |
| OtaTransaction.Updater.RejectDownload | firmware/main/ota.c:412-418 | a downloaded image that is not what it should be is durably the newest rejection |
| OtaTransaction.Updater.SavePending | firmware/main/ota.c:321-352 | the journal naming slot, release and hash is durable first |
| OtaTransaction.Updater.SelectCandidate | firmware/main/ota.c:321-352 | then the slot is selected |
| OtaTransaction.Updater.RestartCandidate | firmware/main/ota.c:321-352 | one selection is made exactly when the journal was saved and the boot entry written, of the image installed, above every release confirmed before |
| OtaTransaction.Updater.Run | firmware/main/ota.c:381-432 | on every run with failures and power cuts anywhere: the durable floor never falls; every selection had a durable journal naming slot, release and hash, with release above floor and running release, and its hash was in the ring if and only if a rejection took it after the fetch; every trial image given up, by the bootloader or by itself, was in the ring when the worker next started |
| OtaTransaction.LateRejectionOvertaken | firmware/main/ota.c:368-380 | a run of the updater that selects an image whose hash is in the ring |
| OtaTransaction.RejectionTakes | firmware/main/ota_journal.c:22-30 | a rejection puts a hash in the ring exactly when it is the pending one |
| OtaTransaction.Install | firmware/main/ota.c:274-316 | fetching, downloading and validating a newer release leaves it installed in the other slot |
| OtaTransaction.ReconcileTracks | firmware/main/ota.c:124-139 | reconciliation keeps a trial image covered and settles one that was given up |
| OtaTransaction.RejectionTracks | firmware/main/ota_journal.c:22-30 | rejecting the pending image keeps it covered |
| OtaTransaction.FloorRises | firmware/main/ota_journal.c:31-35 | one more durable journal keeps the history of floors rising |
| RelayAssembly.Assembler.AsmReset | firmware/main/relay_client.c:592-599 | forgets the message |
| RelayAssembly.Assembler.AsmAppend | firmware/main/relay_client.c:601-625 | appends all of it or nothing; fails exactly on overflow of 4096 bytes or when the buffer must grow and cannot |
| RelayAssembly.Assembler.BeginFrame | firmware/main/relay_client.c:653-664 | a text frame starts a message, a continuation must follow a complete frame of one |
| RelayAssembly.Assembler.AssembleText | firmware/main/relay_client.c:644-683 | one chunk: the new state and the message queued, if any |
| RelayAssembly.Assembler.OnData | firmware/main/relay_client.c:743-757 | soundness: every message ever handed on is the concatenation of one text frame and its continuations, ending in FIN, at most 4096 bytes, and these are consecutive among the frames received, with no binary frame in between |
| RelayAssembly.ExtendFollows | firmware/main/relay_client.c:644-683 | each chunk keeps the assembly equal to the frames seen since the text start |
| RelayAssembly.MessageFold | firmware/main/relay_client.c:644-683 | completeness: any message in any frames and chunks is queued exactly once, as it is, if and only if it has 1 to 4096 bytes and no continuation frame with a payload starts with an empty chunk |
| RelayAssembly.BinaryDiscards | firmware/main/relay_client.c:752-757 | after a binary frame nothing is queued before the next text frame begins |
| RelayAssembly.ControlFramesIgnored | firmware/main/relay_client.c:749-757 | ping and pong between chunks change nothing |
| RelayAssembly.MessagesAreComplete | firmware/main/relay_client.c:743-757 | the same with control frames anywhere in between, from any earlier state |
| RelayAssembly.FrameFold | firmware/main/relay_client.c:644-683 | where the assembly stands after each chunk of a frame |
| RelaySession.Relay.LinkFailed | firmware/main/relay_client.c:95-102 | ends the session that is valid |
| RelaySession.Relay.NotifyNetwork | firmware/main/relay_client.c:1039-1052 | a network loss ends every session for good |
| RelaySession.Relay.BeginSession | firmware/main/relay_client.c:104-119 | a session has a number never used before, and begins only after the last client is gone |
| RelaySession.Relay.FenceSession | firmware/main/relay_client.c:817-826 | callbacks of every session stop counting for good |
| RelaySession.Relay.StopClient | firmware/main/relay_client.c:827-838 | once the event task has returned, no client, no queued message and no assembly is left |
| RelaySession.Relay.OnWsEvent | firmware/main/relay_client.c:685-731 | a callback of a stale session changes nothing |
| RelaySession.Relay.ReceiveData | firmware/main/relay_client.c:743-751 | a chunk is taken up only on a session still valid |
| RelaySession.Relay.FinishData | firmware/main/relay_client.c:627-683 | the chunk is assembled; a message it completes is queued under its session, unless the queue is full or memory is short |
| RelaySession.Relay.FinishReset | firmware/main/relay_client.c:733-736 | a new connection forgets any assembly |
| RelaySession.Relay.MarkReady | firmware/main/relay_client.c:938-942 | ready is set only for the current session |
| RelaySession.Relay.TakeMessage | firmware/main/relay_client.c:947-965 | only messages of the current session are handled |
| RelaySession.Relay.FinishEnvelope | firmware/main/relay_client.c:542-588 | a verified command is dispatched only while its session is valid |
| RelaySession.Relay.Run | firmware/main/relay_client.c:844-965 | every interleaving: a session that stopped being valid never is again, and every dispatched command was received, from its first chunk on, on the session that was valid at every moment from that chunk to dispatch |
| RelaySession.StepKeeps | firmware/main/relay_client.c:87-119 | one step of the link never revives a session |
| RelaySession.OnlyStartsActivate | firmware/main/relay_client.c:644-683 | an assembly not under way is begun only by the first chunk of a text frame |
| RelaySession.ValidThroughout | firmware/main/relay_client.c:87-93 | a session valid at two moments was valid at all between |
| RelaySession.SessionComesUp | firmware/main/relay_client.c:684-704 | a session begun is valid once its connection is there exactly if the network was up, and stays so until something fails |
| RelaySession.Connect | firmware/main/relay_client.c:684-704 | so a client started on a network that is up has a valid session |
| RelaySession.CommandGetsThrough | firmware/main/relay_client.c:542-683 | a message that arrives on it in any frames and chunks is queued, handled and, if it verifies, dispatched under this session |
| RelaySession.TrailGrows | firmware/main/relay_client.c:87-93 | later moments leave the fence of earlier dispatches as it was |
| AuthCounters.Controller.Commit | firmware/main/config.c:549-570 | only what was committed survives; a power cut leaves the old or the new state |
| AuthCounters.Controller.GetCounter | firmware/main/config.c:523-547 | an absent counter is 0, a failed read is not |
| AuthCounters.Controller.SetCounter | firmware/main/config.c:549-570 | success means the counter is durable, and it alone changed |
| AuthCounters.Controller.FindSlot | firmware/main/config.c:442-458 | the slot already holding the key, else the first free one |
| AuthCounters.Controller.AddKey | firmware/main/config.c:430-493 | a known key keeps slot and counter, a new one goes to the first free slot and starts at 0; no other slot is touched; the slot's term changes exactly when its key does, and the kid handed out is the one that names the slot |
| AuthCounters.KidNamesSlot | firmware/main/config.c:374-381 | p1 to p4 name slots 0 to 3, and nothing else names a slot |
| AuthCounters.Controller.RemoveSlot | firmware/main/config.c:495-519 | what each outcome of the two erases and the commit leaves; the slot's term changes exactly when its key or counter does, and a key is left without its counter exactly when the first erase failed and the second succeeded |
| AuthCounters.Controller.Advance | firmware/main/auth.c:255-275 | released exactly when the counter was read, exceeds the mark and is durable; then it exceeds every counter released in this term |
| AuthCounters.Controller.Verify | firmware/main/auth.c:156-295 | a command is released only with version 1, this device, a registered key, a signature over its signing text, a fresh time stamp if the clock is valid, an enabled act, a counter above the mark, and that counter durable; and it is released if all this holds and storage and memory serve |
| AuthCounters.Controller.Admit | firmware/main/auth.c:255-283 | counter and act: released exactly when both are admitted, with the counter durable |
| AuthCounters.Controller.Boot | firmware/test_host/config/fake_nvs.c:1-4 | after a reset only committed entries are there, and with them the terms |
| AuthCounters.Controller.Run | firmware/main/auth.c:255-275 | on every run with failures and power cuts between storage calls, counters released under a slot strictly increase until its key changes or its counter is erased, attempts that change nothing or are undone included, and no durable mark is below them |
| AuthCounters.ReleaseKeeps | firmware/main/auth.c:255-283 | one more release keeps them increasing |
| AuthCounters.NewTerm | firmware/main/config.c:430-519 | a change of the key or a counter started over begins a term without releases |
| AuthCounters.FailedRemovalReopens | firmware/main/config.c:495-519 | a run of pairing, command and failed removal after which the same command is released again |
| Publishing.MergeCatalog | tools/ota/publish.py:89-104 | succeeds if and only if the catalog is valid, the release newer and the result valid; the tuple's entry is then the new one and every other is as it was |
| Publishing.ValidateCatalog | tools/ota/publish.py:62-86 | the loop accepts exactly catalogs of at most 64 well-formed entries, one for each tuple, that fit |
| Publishing.BeforeAtDifference | tools/ota/publish.py:103 | the order of entries is decided by the first character of the first field that differs |
| Publishing.SortByIdentity | tools/ota/publish.py:102 | the same entries in order of identity |
| Publishing.MergeIsUnique | tools/ota/publish.py:102 | a sorted catalog is determined by its entries |
| Publishing.Branch.ReadChannel | tools/ota/publish.py:140-149 | a release not newer than its channel stops |
| Publishing.Branch.CreateRelease | tools/ota/publish.py:150-166 | a release is published if and only if it can be merged into the catalog as read and GitHub creates it |
| Publishing.Branch.PromoteChannel | tools/ota/publish.py:167-172 | the channel is written if and only if the request goes out and the file is still as read, and never goes back |
| Publishing.Branch.ReadCatalog | tools/ota/publish.py:126 | one read |
| Publishing.Branch.PromoteCatalog | tools/ota/publish.py:127-137 | the catalog is written, as a merge, if and only if the merge succeeds, the request goes out and the file is still as read; if it is not, the attempt is repeated, twice at most |
| Publishing.PublishAlone | tools/ota/publish.py:123-173 | a run with the branch to itself publishes a newer release if every request goes through |
| Publishing.Branch.Interleave | tools/ota/publish.py:123-173 | any number of runs interleaved: channel releases and catalog counters never decrease, no tuple is lost or doubled, and no counter exceeds its channel's release |
| Publishing.ChannelAdvances | tools/ota/publish.py:167-172 | a newer channel release takes nothing back |
| Publishing.CatalogAdvances | tools/ota/publish.py:89-104 | a merge of a reached release takes nothing back |
| Publishing.Extend | tools/ota/publish.py:123-173 | advances chain over the whole history of both files |

## Left out

- QR: the penalty score is an arbitrary function of the symbol; text encoding of the payload, SVG rendering and
  the correction of read errors are not modelled.
- UsbHid.Keyboard.Quiesce: with an arbitrary host, that nothing was sent only because the bus was down is not in the
  contract; the reading of the bus is not recorded. With a helpful host it is never so.
- UsbHid.Keyboard.RecoveryOnce: with an arbitrary host, that recovery eventually succeeds is not stated; the host may
  never poll again.
- UsbHid.Keyboard.Type: the layout table is a parameter, and a key-down may still reach the endpoint after a bus event
  that falls between the last epoch check and the submission, as in the code.
- UsbHid.Keyboard.Keys: takes chords already looked up; key names are not modelled.
- UsbHid.Keyboard.HelpfulStep: a helpful host takes each report at the latest when no time for another poll is left,
  and does nothing to the bus but enumerate a keyboard that is not mounted.
- USB environment: an unmount cancels the transfer and clears the host's held keys, the endpoint takes no new report
  until the completion callback of the last has run, and a suspended or unmounted bus accepts none. Descriptors,
  pacing delays between reports and the LED are left out. The bus epoch is unbounded.
- CanonicalAgreement.PhoneAndDeviceAgree: values are null, booleans, integers within ±(2^53-1), arrays, objects with
  distinct keys, and NUL-free well-formed strings. Other numbers, `toJSON`, `undefined` members, duplicate keys and
  depth limits are left out.
- Envelopes.EnvelopeArrives: the device's parser is the model's own strict reader of printed JSON; insignificant white
  space, escapes that need not be there and the 4096-byte limit are not in it.
- Signing.SigningString: the decimal text of a number is a function; `snprintf` is not modelled.
- AuthCounters.Controller.Verify: signature decoding and Ed25519 are one uninterpreted predicate, the act list another;
  the step between verification and execution belongs to `RelaySession`.
- AuthCounters.Controller.AddKey: reads of key slots succeed (the code takes any read failure for a free slot), names
  and pairing texts are left out, and no addition or removal runs inside a verification.
- AuthCounters.Controller.Run: factory reset is left out.
- RelaySession.Relay.Run: session and network generations are unbounded; the lockout, backoff and the hello are left
  out; dispatch is the moment of the last validity check.
- RelayAssembly.MessagesAreComplete: is stated for streams without binary frames; `RelayAssembly.BinaryDiscards` says what
  a binary frame does.
- OtaTransaction.Updater.Run: manifests arrive verified; signatures, TLS, redirects and download bytes are abstract,
  and so are health timing, policies, reservations and status reports.
- OtaTransaction.Updater.Boot: the bootloader never starts an aborted or invalid slot and its entries are readable.
- OtaTransaction.Updater.ReconcileBoot: reads whatever state the slot holds, which may be left from an earlier image, so
  an image that never ran may be rejected; nothing is claimed against that.
- OtaTransaction.Updater.SaveJournal: journals are values there; `OtaJournal.Journal` proves the in-place transitions equal to them.
- IdentityScan.ValidateRecords: the comparison of a record with the manifest is a predicate; the application
  description, header, checksum and digest checks are left out on both sides.
- SourceUrl.CheckSource: redirects are left out.
- TokenBucket.WindowBound: real arithmetic, no floating-point rounding.
- BucketClock.SafeExactly: a clock is the sequence of its readings, with one or more calls at each.
- PcPower.Classifier.Step: the 64-bit millisecond clock does not wrap.
- Publishing.Branch.Interleave: the syntax of entries and the 64 KiB bound are parameters, channel files are keyed by
  their tuple, and GitHub calls are either a compare-and-swap write or a failure.
- Publishing.MergeCatalog: entries are records already parsed.
- Printers.SortByKey: an insertion sort stands for `qsort` and `Array.prototype.sort`; the result does not depend on it.
- The phone's user interface, service worker, key storage, Wi-Fi provisioning, captive portal, maintenance mode,
  Durable Object and catalog-fetch plumbing are left out.
