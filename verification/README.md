# oxinode, verified

oxinode is RNode-compatible LoRa firmware for one small board: a modem that
turns into a standalone Reticulum node while it has no host. Every decision
in it that needs no peripheral is kept in small, self-contained code. This
project models that code in Dafny and proves what it promises, for every input
and over whole runs.

| modules | models | of |
|---|---|---|
| `PythonValues`, `Utf8Laws`, `FloatLaws`, `Msgpack`, `MsgpackLaws`, `MsgpackDomain`, `MsgpackShortest`, `ArraySpans`, `Lxmf` | the MessagePack codec and the part of an LXMF message that is hashed | `tools/peer.py` |
| `GpsLexer`, `GpsFields`, `GpsClock`, `GpsReceiver`, `GpsFixLaws` | NMEA 0183 framing, fixed-point fields, Unix time, the receiver and its in-view table | `core/src/gps.rs` |
| `Pad`, `PadLaws`, `PadRunLaws` | debounce and auto-repeat | `core/src/pad.rs` |
| `Mode` | whether a host is present, and so who the board is | `core/src/mode.rs` |
| `Frame`, `FrameLaws`, `Panel`, `PanelLaws` | the framebuffer with its dirty pages, and flushing it over a bus that fails | `core/src/sh1107.rs`, `src/display.rs` |
| `Uf2`, `Uf2Laws`, `Uf2Format` | one UF2 writer and its three readers | `tools/uf2conv.py`, `tools/check_layout.py`, `tools/verify_flash.py` |
| `Announce`, `NodeQueues`, `NodeQueueLaws`, `AnnounceLaws`, `AnnounceBudget` | the node's queues, what it sends and when, and the announce budget | `core/src/node.rs`, `core/src/node/announce.rs` |
| `Messages`, `MessageLaws`, `MessageHistory`, `StableSort`, `Station`, `StationLaws`, `ReadingLaws`, `ThreadLaws` | the message store, the conversation list, and what reading a thread marks | `core/src/node.rs`, `core/src/node/messages.rs`, `core/src/node/outbox.rs` |
| `LogBuf`, `Battery`, `W25q` | the log's ring, the battery gauge, the flash test pattern | `core/src/logbuf.rs`, `core/src/battery.rs`, `core/src/w25q.rs` |

Code that changes state in place is a class whose methods are proved equal to a
step function on a snapshot of its fields; the laws are then about runs of those
steps. Loops are loops with invariants. Expressions are functions. `Bytes`,
`Numbers` and `Results` are shared vocabulary. Integer widths are written out
where they show: `i64` additions wrap, since the release profile turns overflow
checks off (`Cargo.toml:213`), and 32-bit counters wrap or saturate as the source has it.
I/O becomes a parameter: times are the caller's, the controller's RAM and what the
bus loses are state, packets are opaque bytes, and whether a key signs a message
is an input.

## Where the code falls short of its own words

Each of these is a lemma with the exact condition under which the promise holds.

- **The announce budget** ("none of them bypasses the budget",
  `core/src/node/announce.rs:34-36`) holds over a run, from the end of one announce to the
  start of the next, as long as an announce is taken from the schedule only when none is
  outstanding. The schedule spends the budget when an announce is reported sent, and
  meanwhile hands out the next: with a port open, the start's announce and a path response
  wait together, and when it closes go one straight after the other (`TheBudgetHolds`,
  `TheBudgetHoldsIffOneIsOutstanding`, `TheBudgetIsBroken`).
- **A message is kept once** (`core/src/node/messages.rs:22-26`) unless its hash has
  been forgotten while it is still kept. An unread message outlives the 64 hashes
  remembered when the others are read first (`KeptTwiceIff`,
  `RunsKeepOnceIff`, `AMessageIsKeptTwice`).
- **Reading a thread** (`core/src/node.rs:817-819`) makes read exactly what was shown if
  and only if the store holds the peer's messages in time order, which it does on a
  clock that does not go back (`MarkingIsRightIffInOrder`, `ReadingMarksWhatWasShown`).
- **A stamp is cut out before hashing** (`tools/peer.py:438-440`), so that the hash does
  not change -- exactly when the message was packed with the one-byte array header
  (`StampIsCutOut`). A longer header is read all the same (`AStampChangesTheHash`).
- **`unix_seconds`** says `None` for a date no receiver would send (`core/src/gps.rs:99`),
  and takes 31 February and a sixtieth second; it names the instant it was given exactly
  for dates on the calendar and seconds below sixty (`AcceptedReadingNamesItselfIff`).
- **`fixed`** reads a whole part too long for an `i64` as zero instead of refusing it
  (`FixedIsExactIff`, `OverlongWholeReadsAsZero`), and `angle` takes a minus sign for the
  degrees alone (`SignedDegreesAreMisread`, `MinusFiveThirty`). So an altitude is read as
  written exactly when an `i32` of decimetres holds it, and one of twenty digits is sea
  level (`AltitudeIsWhatIsWrittenIff`, `TwentyDigitsAreSeaLevel`, `SeaLevel`).
- **A stale body** "cannot be read back" after a failed check (`core/src/gps.rs:321-322`):
  it can, unless the last sentence was empty or none has come. What `sentence` gives is the
  stream's sentence straight after one is announced (`LastSentenceIsHeld`,
  `NothingIsHeldIff`, `AStaleBodyIsReadBack`).
- **`check_uf2`** passes files whose blocks carry other than 256 bytes and would be
  written wrongly; it is a guarantee for blocks that step by 256
  (`CleanCheckWritesExpected`, `UnsteppedCheckGuaranteesNothing`,
  `APassingFileIsWrittenWrongly`).
- **`flash_image`** never returns when it meets a block too short to reach past the
  address it seeks: of a written file, exactly when the window runs past a last partial
  block (`LoopEndsIff`, `ReadingPastTheEnd`, `AWindowThatNeverEnds`).
- **The battery filter** "cannot get stuck short of its target" (`core/src/battery.rs:153-154`)
  and always does: it gets there only from there, rests where it is within 3/16 mV, and from
  any farther stops exactly 3/16 mV short (`TheFilterRests`, `TheFilterStopsShort`,
  `AnAverageThatStopsShort`).

Two comments differ from the code, and the model follows the code: `MAX_SENTENCE`
is said to count from `$` to `\n` and counts the bytes after `$`
(`core/src/gps.rs:51-52`), and `dtr_seen` is said to date from when the USB host last
spoke and dates from the start of its session (`core/src/mode.rs:139-141`).

## Model

| member | source | states |
|---|---|---|
| `Msgpack.Unpack` | tools/peer.py:135-176 | on any bytes whatever, a step that succeeds ends strictly after its start and inside the buffer, which is what makes the recursion end |
| `Msgpack.UnpackItems` | tools/peer.py:179-184 | an array of n elements takes at least n bytes and stays inside the buffer |
| `Msgpack.UnpackEntries` | tools/peer.py:187-193 | the same for a map, whose keys must be hashable |
| `Msgpack.UnpackHead` | tools/peer.py:135-176 | every type byte's header ends inside the buffer or the read fails |
| `Msgpack.UnpackValue` | tools/peer.py:135-176 | the dispatch of `_unpack`, equal to its specification |
| `Msgpack.UnpackArray` | tools/peer.py:179-184 | the collecting loop computes the recursive specification |
| `Msgpack.UnpackMap` | tools/peer.py:187-193 | the collecting loop, with a Python dictionary's rule for repeated keys |
| `MsgpackLaws.HeadRelocates` | tools/peer.py:135-176 | what a type byte announces depends on nothing but the bytes stepped over |
| `MsgpackLaws.Relocates` | tools/peer.py:135-176 | an encoding, canonical or not, decodes to the same value wherever it stands |
| `MsgpackLaws.PrefixFree` | tools/peer.py:196-200 | no proper prefix of a valid encoding is one |
| `MsgpackLaws.RoundTripAt` | tools/peer.py:226-261 | what `packb` wrote, at any position in any buffer, decodes to the value and stops exactly at its end |
| `MsgpackLaws.ItemsRoundTrip` | tools/peer.py:226-261 | the same for the elements of a list, from whatever was collected before |
| `MsgpackLaws.EntriesRoundTrip` | tools/peer.py:226-261 | the same for the entries of a map: no two of its keys are the same key to Python, so none is lost |
| `MsgpackLaws.SizedHead` | tools/peer.py:264-269 | all three header sizes of a list or map read back as the count |
| `MsgpackLaws.RoundTrip` | tools/peer.py:196-261 | `unpackb(packb(v)) == v`, types and all, for every value that packs |
| `MsgpackLaws.PackPrefixFree` | tools/peer.py:196-261 | bytes after a packed value are left alone, and counted when they should not be there; `packb` is injective and prefix-free |
| `MsgpackLaws.CutShortIsTruncated` | tools/peer.py:135-193 | any encoding cut short anywhere is refused as cut short, and for nothing else |
| `MsgpackLaws.UnknownTypes` | tools/peer.py:176 | the nine type bytes that are refused for what they are |
| `MsgpackLaws.NotText` | tools/peer.py:149-162 | what is announced as text and is none is refused as that |
| `MsgpackLaws.ContainersAreNoKeys` | tools/peer.py:187-193 | a list or a map for a key is refused as that, its value having been read |
| `MsgpackLaws.SingleIsWidened` | tools/peer.py:163-166 | a binary32 is read as the float it widens to |
| `MsgpackDomain.PackIffFits` | tools/peer.py:226-269 | `packb` refuses exactly the values with an integer outside 64 bits or a part of 2^32 elements or more |
| `MsgpackDomain.PackRefusals` | tools/peer.py:226-269 | which refusal it is: of an integer, of bytes or text, of a count |
| `MsgpackDomain.PutKeepsKeys` | tools/peer.py:187-193 | `out[key] = value` keeps every key's place and spelling and adds its own only if new; the entry with that key holds the value, and every other what it held |
| `MsgpackDomain.UnpackedIsSound` | tools/peer.py:135-193 | whatever decodes is a Python value that can be packed |
| `MsgpackDomain.KeysAreNoContainers` | tools/peer.py:187-193 | no map is decoded with a list or a map for a key |
| `MsgpackDomain.Repacks` | tools/peer.py:196-261 | repacking a decoded value, canonical or not, decodes to it again |
| `MsgpackShortest.NoneIsShorterAt` | tools/peer.py:135-269 | at any position of any bytes, what is read as a value is no shorter than what `packb` writes for it, but for four bytes a float |
| `MsgpackShortest.PackedIsShortest` | tools/peer.py:196-269 | so no encoding of a value without floats is shorter than `packb`'s |
| `MsgpackShortest.IntegersAreUnsigned` | tools/peer.py:234-247 | of an integer's shortest encodings, one at most other than `packb`'s, that one has the greater type byte |
| `FloatLaws.WideningIsExact` | tools/peer.py:135-176 | a binary32 becomes the binary64 of the same sign and the same number, subnormals included; infinities stay infinite and what is no number stays none |
| `FloatLaws.FloatIsIntIff` | tools/peer.py:187-193 | a float counts as an integer, for a dictionary's keys, exactly when it is that integer |
| `FloatLaws.SameKeySays` | tools/peer.py:187-193 | which keys are one: numbers and booleans by their value, of the rest only the same; what is no number is not even itself |
| `Utf8Laws.TextIffEncoded` | tools/peer.py:149-162 | the bytes that decode as text are exactly the encodings of code points |
| `ArraySpans.ScanSpans` | tools/peer.py:203-223 | the loop of `array_spans`, its header length, spans and errors |
| `ArraySpans.SpansAreTheTiling` | tools/peer.py:203-223 | it succeeds with exactly the spans that are whole encodings laid end to end from the header to the last byte |
| `ArraySpans.TilesRelocate` | tools/peer.py:203-223 | elements cut out of one array and set into another are still those elements |
| `ArraySpans.SpansAgreeWithUnpacking` | tools/peer.py:196-223 | cutting into spans and unpacking succeed on the same payloads, with the same elements, and fail on the same arrays for the same reason |
| `Lxmf.HashedPartDecodes` | tools/peer.py:437-471 | what is hashed is itself a payload of the timestamp, title, content and fields |
| `Lxmf.HashedPartDecides` | tools/peer.py:437-471 | two messages hashed alike differ in signature and stamp at most |
| `Lxmf.ParseSays` | tools/peer.py:437-471 | exactly what is parsed, which byte or element becomes which part, and why the rest is refused, first reason first |
| `Lxmf.StampIsCutOut` | tools/peer.py:437-471 | any stamp added to any four-element message changes nothing parsed but the stamp; the hashed bytes stay the same if and only if the header byte was 0x94 |
| `Lxmf.StampUnderALongHeader` | tools/peer.py:203-471 | any message packed under a three-byte array header is read, and any stamp added to it changes what is hashed |
| `Lxmf.AStampChangesTheHash` | tools/peer.py:437-471 | for one, an empty message of seventeen bytes and a stamp of nil |
| `Lxmf.ComposedParses` | tools/peer.py:226-471 | a message packed by `packb` comes back from its own bytes, and is hashed whole but for the signature |
| `Lxmf.StampedAndUnstamped` | tools/peer.py:226-471 | composed with a stamp or without, the message and its hashed part are the same |
| `GpsLexer.Lexer.constructor` | core/src/gps.rs:258-265 | nothing heard yet |
| `GpsLexer.Lexer.Push` | core/src/gps.rs:268-319 | each byte's verdict is the one the whole stream so far calls for; after a sentence the buffer holds its body |
| `GpsLexer.Lexer.Check` | core/src/gps.rs:323-340 | the buffered line is judged by form and sum |
| `GpsLexer.Lexer.SentenceBody` | core/src/gps.rs:342-347 | what a stream has left in the buffer to be read |
| `GpsLexer.HexByteIff` | core/src/gps.rs:351-358 | two characters are read as a byte exactly when they write it in hexadecimal, the sixteens first, each in either case |
| `GpsLexer.XorAllConcat` | core/src/gps.rs:334 | the sum of two runs of bytes is the exclusive or of their sums |
| `GpsLexer.ADamagedByteIsCaught` | core/src/gps.rs:323-340 | one byte changed anywhere changes the sum |
| `GpsLexer.SentenceIff` | core/src/gps.rs:268-358 | a sentence is announced at a byte if and only if it ends a line and what precedes it is `$`, a printable body, `*` and the body's checksum, 82 bytes at most |
| `GpsLexer.BadSays` | core/src/gps.rs:268-340 | each reason to drop a line, exactly in its case |
| `GpsLexer.LineIsReceived` | core/src/gps.rs:268-340 | after any noise, half line or other sentence, a well-formed line is received whole and once |
| `GpsLexer.LastSentenceIsHeld` | core/src/gps.rs:342-347 | straight after a sentence is announced, that is what is read |
| `GpsLexer.NothingIsHeldIff` | core/src/gps.rs:321-347 | after any stream, failed check or not, nothing is left to be read exactly when no sentence has come or the last was empty |
| `GpsLexer.AStaleBodyIsReadBack` | core/src/gps.rs:321-347 | after any sentence and a one-character line that fails its check, what is read is that character and the rest of the sentence |
| `GpsLexer.EveryLineIsAccountedFor` | core/src/gps.rs:268-340 | every line begun is received, dropped with a reason, or still being collected |
| `GpsFields.ReadFixed` | core/src/gps.rs:555-576 | the accumulating loop of `fixed`, with checked multiplication and wrapping addition |
| `GpsFields.DecimalInvertsShown` | core/src/gps.rs:555-576 | the digits a number is written in spell it, noughts in front or not, and there are ten of them |
| `GpsFields.ParseI64Iff` | core/src/gps.rs:570-612 | text parses as an `i64` exactly when it is digits behind one sign or none that spell one |
| `GpsFields.FixedIsExactIff` | core/src/gps.rs:555-576 | it gives the decimal as written, scaled and truncated, exactly when an `i64` holds that, but for the least `i64` written whole |
| `GpsFields.OverlongWholeReadsAsZero` | core/src/gps.rs:570 | a whole part beyond an `i64` is read as zero |
| `GpsFields.TwentyDigitsReadAsZero` | core/src/gps.rs:555-576 | any twenty digits and more with no nought in front are such a whole part |
| `GpsFields.ScaledTruncates` | core/src/gps.rs:571-575 | the loop's integer is the written real times ten to the places, truncated |
| `GpsFields.AngleIsNearest` | core/src/gps.rs:603-620 | a written angle is accepted exactly below sixty minutes, and is its micro-minutes to the nearest micro-degree |
| `GpsFields.AngleErrorBound` | core/src/gps.rs:603-620 | truncation and rounding together are less than 31/60 of a micro-degree out |
| `GpsFields.AngleIsMonotone` | core/src/gps.rs:603-620 | a greater written angle is never read as a smaller one |
| `GpsFields.SignedDegreesAreMisread` | core/src/gps.rs:612 | a minus before the degrees is taken, and means what it says only with under thirty micro-minutes after them |
| `GpsFields.MinusFiveThirty` | core/src/gps.rs:603-620 | for one, minus five degrees thirty is not read as the opposite of five degrees thirty |
| `GpsFields.AngleIff` | core/src/gps.rs:603-620 | every string accepted as an angle and its value: degrees with a sign of either kind or none, minutes below sixty, or minus nought with no micro-minutes |
| `GpsFields.PlaceIff` | core/src/gps.rs:580-600 | of any fields, a place comes out exactly when both angles are read, both hemispheres named, each giving its sign, and the place is within 90 and 180 degrees |
| `GpsFields.CoordinatesAreSigned` | core/src/gps.rs:580-620 | of well-shaped angles, exactly those under sixty minutes and on the globe are accepted, and come out as the nearest micro-degrees, north and east up |
| `GpsFields.NoFixIff` | core/src/gps.rs:580-583 | there is no fix, and no error, exactly when both angles are empty |
| `GpsClock.NextDayCounts` | core/src/gps.rs:102-124 | from any date on the calendar to the next is one day, over month ends, leap days and century rules |
| `GpsClock.DayNumberCounts` | core/src/gps.rs:102-124 | the day number is the count of days, one by one, from 1970-01-01 |
| `GpsClock.EveryDateIsCounted` | core/src/gps.rs:102-124 | and every calendar date is reached by counting |
| `GpsClock.AcceptedReadingNamesItselfIff` | core/src/gps.rs:102-124 | an accepted date and time is the civil time of its seconds if and only if the date is on the calendar and the second below sixty |
| `GpsClock.TwoNamesForADay` | core/src/gps.rs:103-112 | 31 February and second sixty are accepted, and name 3 March and the next minute |
| `GpsClock.AcceptedIff` | core/src/gps.rs:103-112 | accepted are every date on the calendar from 1970, every day up to a 31st that is on none, and every time of day with second sixty |
| `GpsClock.OrderIsKept` | core/src/gps.rs:102-124 | real dates and times come out in their own order |
| `GpsReceiver.Receiver.constructor` | core/src/gps.rs:653-667 | nothing is known at power-up |
| `GpsReceiver.Receiver.Feed` | core/src/gps.rs:696-711 | bytes in any pieces teach what the stream says, sentence by sentence |
| `GpsReceiver.Receiver.Take` | core/src/gps.rs:713-752 | what each kind of report changes, in place |
| `GpsReceiver.FeedContinuesTheStream` | core/src/gps.rs:696-711 | fed call after call, a receiver knows what the one stream teaches |
| `GpsReceiver.CountIsWhatIsWritten` | core/src/gps.rs:545-550 | a count is read exactly from digits, with a plus or without, that spell it, and as none from an empty field; anything else is refused |
| `GpsReceiver.WhatIsReadHasSeconds` | core/src/gps.rs:502-542 | every date and time the fields let through has its seconds, and they name it again exactly on the calendar and below second sixty |
| `GpsReceiver.AltitudeIsRead` | core/src/gps.rs:436-440 | of every altitude text, whether it is refused and what it is read as: tenths alone when the whole part is beyond an `i64`, else as written if an `i32` holds it |
| `GpsReceiver.AltitudeIsWhatIsWrittenIff` | core/src/gps.rs:436-440 | so it is read as written exactly when an `i32` of decimetres holds it |
| `GpsReceiver.TwentyDigitsAreSeaLevel` | core/src/gps.rs:436-440 | twenty digits of metres and more, which no `i32` holds, are read as nought |
| `GpsReceiver.SeaLevel` | core/src/gps.rs:436-440 | for one, a one and nineteen noughts |
| `GpsReceiver.TableIsInView` | core/src/gps.rs:741-750 | after any reports the table holds, in order, the latest of each of the first five talkers |
| `GpsReceiver.TalkersReport` | core/src/gps.rs:741-750 | those talkers are distinct and each has reported |
| `GpsReceiver.StreamIsInView` | core/src/gps.rs:696-752 | so after any byte stream; and every sentence and every dropped line is counted once |
| `GpsReceiver.OnlySentencesAreKnown` | core/src/gps.rs:696-752 | all that is known but the malformed count comes from the sentences that parse |
| `GpsReceiver.SaidAreSentences` | core/src/gps.rs:696-711 | and those are the sentences of the stream, in order |
| `GpsReceiver.TotalSaturates` | core/src/gps.rs:774-780 | the displayed total is the sum over the talkers held at 255, and none when none has reported |
| `GpsFixLaws.SplitInvertsJoined` | core/src/gps.rs:405-406 | splitting a body at its commas gives the fields it was made of |
| `GpsFixLaws.TimeIff` | core/src/gps.rs:503-522 | a time is read exactly from the digits that write it, a real one, or from nothing |
| `GpsFixLaws.DateIff` | core/src/gps.rs:524-542 | a date likewise, the day first and of this century |
| `GpsFixLaws.PlaceIs` | core/src/gps.rs:580-620 | a place comes of the fields exactly when latitude and longitude write it, the first north of its hemisphere's line and the second east |
| `GpsFixLaws.WellShapedPlaceWrites` | core/src/gps.rs:580-620 | and two well-shaped angles write the nearest micro-degrees, signed by their hemispheres |
| `GpsFixLaws.GgaIsKnown` | core/src/gps.rs:425-455 | after any stream and a GGA, the receiver has the satellites, time, latitude, longitude and altitude of its own fields, and nothing else has changed |
| `GpsFixLaws.RmcIsKnown` | core/src/gps.rs:457-482 | after an RMC, its time, date, latitude and longitude, and the altitude known before |
| `GpsFixLaws.GsvIsKnown` | core/src/gps.rs:484-498 | after a GSV, its talker's count is in that talker's slot or a free one, and no other slot has changed |
| `GpsFixLaws.OthersAreNoticed` | core/src/gps.rs:404-422 | any other sentence is counted and dated, and changes nothing else |
| `GpsFixLaws.WhatSaysNothingIsRefused` | core/src/gps.rs:425-498 | a GGA, RMC or GSV with a field that says nothing of its kind teaches nothing at all |
| `GpsFixLaws.RefusedForAField` | core/src/gps.rs:404-620 | whatever is refused, it is for a field |
| `Pad.Switch.constructor` | core/src/pad.rs:257-265 | a switch starts released and settled |
| `Pad.Switch.Level` | core/src/pad.rs:267-282 | the new state of a level read |
| `Pad.Switch.Poll` | core/src/pad.rs:284-327 | the new state and the event of a poll |
| `Pad.Pad.constructor` | core/src/pad.rs:352-356 | six switches, all released |
| `Pad.Pad.Level` | core/src/pad.rs:363-365 | a level goes to its own switch and no other |
| `Pad.Pad.Poll` | core/src/pad.rs:368-376 | every switch is polled, and the events are theirs in key order |
| `Pad.Pad.Deadline` | core/src/pad.rs:380-382 | the earliest of the switches' deadlines |
| `PadLaws.EarlyPollDoesNothing` | core/src/pad.rs:284-382 | polling before the deadline, or with none, changes nothing and yields nothing |
| `PadLaws.PollMovesTheDeadline` | core/src/pad.rs:284-382 | polling no later than the deadline leaves one strictly later, or none |
| `PadLaws.PromptIsDetermined` | core/src/pad.rs:284-382 | a driver that polls at every deadline ends where the edges alone determine |
| `PadLaws.PromptDriversAgree` | core/src/pad.rs:284-382 | so two of them see the same events at the same times, however many polls and re-reads each adds |
| `PadLaws.SwitchRemembers` | core/src/pad.rs:243-327 | the six fields of a switch say what its whole history of levels and polls says |
| `PadLaws.SwitchEmitsWhatIsOwed` | core/src/pad.rs:284-327 | on any history and any clock a poll gives exactly the event a debouncer over that history owes: a press with its bounces and settling time before any repeat |
| `PadLaws.NothingPendingMeansSettled` | core/src/pad.rs:329-335 | with no deadline, what was last read is believed, and no direction is held |
| `PadLaws.RepeatsAreSpaced` | core/src/pad.rs:284-327 | a repeat is a direction's, and never sooner than the delay after its press or the period after the repeat before |
| `PadLaws.RepeatsExactlyWhenHeld` | core/src/pad.rs:137-139 | a poll repeats a switch exactly if it is Up, Down, Left or Right, believed pressed before and after, and 400 ms past its press or 125 past its last repeat |
| `PadLaws.OkAndBackNeverRepeat` | core/src/pad.rs:137-139 | no history of OK or Back has a repeat in it |
| `PadLaws.PressIsSteady` | core/src/pad.rs:284-327 | every press, the first included, is of a level that had held for the debounce, on a switch not yet believed pressed |
| `PadLaws.PressTells` | core/src/pad.rs:284-316 | a press tells the bounces and the milliseconds it took to settle, held at 255 and 65535 |
| `PadLaws.PressesAreSeparate` | core/src/pad.rs:284-327 | between two presses a release was held for the debounce and believed, and the second is steady too |
| `PadRunLaws.SwitchesRunApart` | core/src/pad.rs:340-382 | after any run of the pad each switch is where its own levels and the polls leave it, and its events in the log are its own, at the same times |
| `PadRunLaws.PadRepeatsAreSpaced` | core/src/pad.rs:340-382 | so in the log of any pad run a repeat keeps the delay and the period of its own key |
| `PadRunLaws.PadOkAndBackNeverRepeat` | core/src/pad.rs:340-382 | nor has any run of the pad |
| `PadRunLaws.PadPressIsSteady` | core/src/pad.rs:340-382 | every press in the log comes of a poll that found its key's level pressed, and held for the debounce |
| `PadRunLaws.PadPressesAreSeparate` | core/src/pad.rs:340-382 | and between two presses of a key a poll found it released, and held so for the debounce |
| `Mode.Side.constructor` | core/src/mode.rs:103-111 | not present |
| `Mode.Side.Update` | core/src/mode.rs:116-131 | the new state of one transport |
| `Mode.Presence.constructor` | core/src/mode.rs:148-161 | nobody is present |
| `Mode.Presence.Update` | core/src/mode.rs:164-188 | the new state and the change reported |
| `Mode.Presence.Host` | core/src/mode.rs:192-200 | Bluetooth only in the absence of USB |
| `Mode.Presence.CurrentMode` | core/src/mode.rs:203-209 | an RNode exactly with a host, else a node exactly with a stored configuration |
| `Mode.SideRemembers` | core/src/mode.rs:113-132 | two fields say whether the transport spoke and has not, since, been quiet for an unbroken `HOLD_MS` |
| `Mode.PresenceRemembers` | core/src/mode.rs:113-188 | over any run on a clock that does not go back, both hosts' presence and DTR's standing are what the whole history says |
| `Mode.UpdateReportsTheChange` | core/src/mode.rs:164-188 | an update reports USB's arrival, Bluetooth's, a departure or nothing, each exactly when the history says nobody or somebody was here and which host now is |
| `Mode.ChangesAlternate` | core/src/mode.rs:164-188 | arrivals and departures strictly alternate from an arrival, whatever the clock does |
| `Mode.ShortAbsenceIsForgiven` | core/src/mode.rs:24-31 | an absence shorter than the hold leaves the USB host present |
| `Frame.RamPositionIsOneToOne` | core/src/sh1107.rs:151-161 | every bit of display RAM is one pixel and no two pixels share one |
| `Frame.Framebuffer.constructor` | core/src/sh1107.rs:182-187 | dark, every page to be sent |
| `Frame.Framebuffer.Set` | core/src/sh1107.rs:220-231 | the new picture and mask of a pixel set |
| `Frame.Framebuffer.FillRect` | core/src/sh1107.rs:274-280 | of a rectangle, clipped to the panel |
| `Frame.Framebuffer.FillAll` | core/src/sh1107.rs:264-267 | of a fill |
| `Frame.Framebuffer.CopyFrom` | core/src/sh1107.rs:253-261 | of adopting another frame |
| `Frame.Framebuffer.Sent` | core/src/sh1107.rs:210-212 | of a page sent |
| `FrameLaws.SetReadsBack` | core/src/sh1107.rs:220-241 | the pixel set reads back and no other changes |
| `FrameLaws.SetMarks` | core/src/sh1107.rs:220-231 | its page is marked exactly if it changed |
| `FrameLaws.RectReadsBack` | core/src/sh1107.rs:274-280 | a rectangle sets exactly the panel's pixels inside it, wherever it lies |
| `FrameLaws.RectMarks` | core/src/sh1107.rs:274-280 | and marks exactly the pages on which it changes one |
| `FrameLaws.FillReadsBack` | core/src/sh1107.rs:220-267 | a fill reaches every pixel and marks every page; off the panel nothing is lit or changed |
| `FrameLaws.CopyFromAdopts` | core/src/sh1107.rs:253-261 | the other frame is adopted whole, and exactly the pages that differ are marked |
| `Panel.Display.constructor` | src/display.rs:468-473 | a controller on a bus |
| `Panel.Display.Write` | src/display.rs:486-501 | a transfer goes through or fails after part of it |
| `Panel.Display.FlushPages` | src/display.rs:468-505 | the loop over dirty pages, its limit and its early error return |
| `PanelLaws.SendPageSends` | src/display.rs:482-502 | sending a page touches no other, and has arrived if it succeeds |
| `PanelLaws.TransferTakesOne` | src/display.rs:486-501 | a transfer fails exactly when the bus loses it, and what comes after it is for the next |
| `PanelLaws.CursorMoves` | core/src/sh1107.rs:382-388 | `page_cursor` moves to the page's first column from anywhere and changes no pixel |
| `PanelLaws.CursorReaches` | core/src/sh1107.rs:382-388 | page, low half and high half of the column: the cursor commands reach every column of every page |
| `PanelLaws.FlushKeepsCoherent` | src/display.rs:468-505 | however a flush goes, unmarked pages are the same in frame and RAM |
| `PanelLaws.RunsStayCoherent` | src/display.rs:468-505 | so over every run of drawing, adopting and flushing on any bus |
| `PanelLaws.FlushClears` | src/display.rs:474-503 | a flush that succeeds clears as many marks as its limit allows |
| `PanelLaws.ReliableFlushSucceeds` | src/display.rs:468-505 | with nothing lost a flush succeeds |
| `PanelLaws.FlushNeverMarks` | src/display.rs:474-503 | no flush, failed or not, marks a page |
| `PanelLaws.FlushingFinishes` | src/display.rs:459-505 | over flushes with any limits on any bus, the successful ones together take their limits off the marks, failures between put none back, and once they add up the panel shows the frame |
| `PanelLaws.SmoothFlushingFinishes` | src/display.rs:459-505 | with nothing going wrong each flush takes exactly its limit off, so ceil(marks/limit) of them show the frame |
| `Uf2.WriteUf2` | tools/uf2conv.py:64-88 | the loop over blocks, and the errors of an empty input and of fields too wide |
| `Uf2.ReadUf2` | tools/check_layout.py:128-149 | the parsing loop and its errors, in order |
| `Uf2.CheckUf2` | tools/check_layout.py:210-251 | the problems, all of them, in order |
| `Uf2.FlashImage` | tools/verify_flash.py:41-55 | the window gathered, where the loop ends |
| `Uf2Laws.BlockRoundTrip` | tools/check_layout.py:134-148 | a block's 512 bytes parse to the block |
| `Uf2Laws.FileRoundTrip` | tools/uf2conv.py:64-88 | a binary can be written exactly when it is not empty and its fields fit; then it parses to its blocks |
| `Uf2Format.FilesAreRead` | tools/check_layout.py:128-149 | by its bytes: a file is read exactly if it is whole blocks with both magics and a payload of 476 bytes at most, each word at its offset; else it is refused for its length or its first bad block |
| `Uf2Format.FilesAreWritten` | tools/uf2conv.py:64-88 | by its bytes: what stands in each block written |
| `Uf2Format.WriteRefusals` | tools/uf2conv.py:64-88 | an empty binary is refused as that, any other only for a field too wide |
| `Uf2Laws.CheckIsCleanIff` | tools/check_layout.py:210-251 | no problems if and only if every block is in its place in FLASH and the payloads are the binary |
| `Uf2Format.ProblemsAre` | tools/check_layout.py:210-251 | every problem there is is named, of its block and its kind, and no other |
| `Uf2Laws.WrittenChecksIff` | tools/check_layout.py:210-251 | what is written rebuilds the binary and passes exactly when the image lies in FLASH |
| `Uf2Laws.CleanCheckWritesExpected` | tools/check_layout.py:210-251 | a clean check of blocks that step by 256 means the bytes written are the binary and nothing else |
| `Uf2Laws.FullBlocksAreStepped` | tools/check_layout.py:239-244 | blocks of 256 bytes step |
| `Uf2Laws.UnsteppedCheckGuaranteesNothing` | tools/check_layout.py:230-245 | for any sizes that fall out of step there are contents that pass and would be written wrongly |
| `Uf2Laws.MarkedBlocksAreAFile` | tools/check_layout.py:128-149 | and those blocks are what `parse_uf2` reads from the bytes of a file |
| `Uf2Laws.APassingFileIsWrittenWrongly` | tools/check_layout.py:210-251 | for one, a file of two one-byte blocks, which passes and is written wrongly |
| `Uf2Laws.LoopEndsIff` | tools/verify_flash.py:47-54 | the loop ends if and only if it never meets a block that does not reach past the address it seeks |
| `Uf2Laws.FlashImageIsTheData` | tools/verify_flash.py:41-55 | of a written file with an aligned base, any window inside it is read back exactly |
| `Uf2Laws.FlashImageIsWhatIsWritten` | tools/verify_flash.py:41-55 | of any file of 256-byte blocks at aligned addresses, the loop ends, the result is byte by byte what the blocks write, and it is short only where they write nothing |
| `Uf2Laws.ReadingPastTheEnd` | tools/verify_flash.py:47-54 | past the end the loop ends exactly when no partial block is left to stick at |
| `Uf2Laws.AWindowThatNeverEnds` | tools/verify_flash.py:47-54 | for one, two bytes asked of a file of one |
| `Announce.GapIsFiftyAirtimes` | core/src/node/announce.rs:53-55 | the quiet bought is fifty airtimes, in whole milliseconds |
| `Announce.Schedule.constructor` | core/src/node/announce.rs:93-99 | nothing asked for |
| `Announce.Schedule.Want` | core/src/node/announce.rs:103-105 | the stronger of the two reasons waits |
| `Announce.Schedule.Started` | core/src/node/announce.rs:108-111 | an announce is due and the interval runs |
| `Announce.Schedule.Withhold` | core/src/node/announce.rs:115-118 | nothing waits; the quiet bought stays |
| `Announce.Schedule.AllowedFrom` | core/src/node/announce.rs:121-123 | the end of the last announce's quiet |
| `Announce.Schedule.Due` | core/src/node/announce.rs:128-137 | what is handed out at a time, the interval's reminder included |
| `Announce.Schedule.Sent` | core/src/node/announce.rs:140-142 | what an announce on the air buys |
| `NodeQueues.Inbox.constructor` | core/src/node.rs:880-882 | empty |
| `NodeQueues.Inbox.Push` | core/src/node.rs:885-897 | a packet in, the oldest out and counted when eight wait |
| `NodeQueues.Inbox.Pop` | core/src/node.rs:900-902 | the oldest |
| `NodeQueues.Inbox.Clear` | core/src/node.rs:905-909 | everything gone, and how many, uncounted |
| `NodeQueues.Queue.constructor` | core/src/node.rs:940-942 | empty |
| `NodeQueues.Queue.Push` | core/src/node.rs:945-951 | a packet in, the oldest out and counted when four wait |
| `NodeQueues.Queue.Pop` | core/src/node.rs:954-956 | the oldest |
| `NodeQueues.Queue.Clear` | core/src/node.rs:959-964 | everything gone, and counted |
| `NodeQueues.Sending.constructor` | core/src/node.rs:1009-1011 | stopped |
| `NodeQueues.Sending.Follow` | core/src/node.rs:1014-1027 | starting asks for an announce; stopping drops what waits and counts it |
| `NodeQueues.Sending.Want` | core/src/node.rs:1030-1034 | a request made of a stopped node is lost |
| `NodeQueues.Sending.Due` | core/src/node.rs:1039-1045 | nothing is due while stopped |
| `NodeQueues.Sending.Push` | core/src/node.rs:1049-1053 | nothing is queued while stopped |
| `NodeQueues.Sending.Next` | core/src/node.rs:1057-1063 | a packet goes only from a running node, and only if the line is free |
| `NodeQueues.Sending.Sent` | core/src/node.rs:1069-1075 | a report of an announce buys its quiet if it was sent, and renews the request if not |
| `NodeQueueLaws.InboxAccountsForEveryPacket` | core/src/node.rs:877-923 | over any run, heard = looked at + dropped + cleared + waiting; looked at in order, none twice; the wait is the newest of what was heard |
| `NodeQueueLaws.LookedAtIsThePacketRecorded` | core/src/node.rs:900-902 | each look is at the packet at the position recorded |
| `NodeQueueLaws.RunsAccountForEveryPacket` | core/src/node.rs:937-1085 | over any run of `Sending`, accepted = given out + dropped + waiting, first in first out and none twice; a stopped node holds nothing |
| `NodeQueueLaws.GivenIsThePacketRecorded` | core/src/node.rs:1057-1063 | what is given out is the packet at the position recorded, from a running node with nobody on the line |
| `NodeQueueLaws.StoppedAsksForNothing` | core/src/node.rs:1014-1075 | after any run, a stopped node has no announce waiting and none to come due |
| `NodeQueueLaws.StoppedNodeIsSilent` | core/src/node.rs:1014-1075 | a stopped node accepts, gives, drops and asks for nothing until it runs again, whatever is called |
| `AnnounceLaws.PendingIsWhatWasAsked` | core/src/node/announce.rs:101-137 | over any run, what is pending is what was asked for and neither handed out nor withheld since, one ordinary announce standing for all |
| `AnnounceLaws.HandedOutIsWhatWasAsked` | core/src/node/announce.rs:125-137 | a look hands out an ordinary announce exactly if the node runs, the quiet is over and one was asked for or the interval is up; a path response if only that was |
| `AnnounceLaws.TheIntervalIsKept` | core/src/node/announce.rs:26-32 | on a clock that does not go back, whenever a running node looks with the quiet over, an ordinary announce is handed out or one was less than half an hour before |
| `AnnounceBudget.TheBudgetHolds` | core/src/node/announce.rs:9-18 | over any run that takes announces one at a time, through stops, starts and failures, every announce, the one the radio has now included, was given to it with the quiet of all before over, counted from their ends |
| `AnnounceBudget.TheBudgetHoldsIffOneIsOutstanding` | core/src/node.rs:1036-1075 | take any run guarded up to its last event and let all that waits go, one packet after another: the budget holds if and only if that last event left one announce outstanding at most |
| `AnnounceBudget.TheBudgetIsBroken` | core/src/node.rs:1036-1075 | a run of five events leaves two outstanding, and the second announce starts the moment the first ends, with a second of quiet owed |
| `Messages.MessageStore.constructor` | core/src/node/messages.rs:123-125 | empty |
| `Messages.MessageStore.Receive` | core/src/node/messages.rs:130-168 | a retry, a forgery or a new message, and the whole new store |
| `Messages.MessageStore.Heard` | core/src/node/messages.rs:172-196 | what was waiting for the sender's key is settled, nothing else changes, and both outcomes are counted |
| `Messages.MessageStore.Read` | core/src/node/messages.rs:271-285 | the first so many of the peer's messages are read, nothing else changes, and the count is how many were not |
| `Messages.MarkFirstAt` | core/src/node/messages.rs:271-285 | which messages those are, one by one |
| `Messages.RunsStayInTimeOrder` | core/src/node/messages.rs:130-168 | over any run on a clock that does not go back the store is bounded and in time order |
| `Messages.OnlyRoomIsMade` | core/src/node/messages.rs:155-159 | a message goes only to make room: the oldest read, or with none read the oldest |
| `MessageHistory.WhatReceiveSays` | core/src/node/messages.rs:130-168 | each answer exactly in its case: verified, unverified, forged, or a duplicate with what is believed of the one kept |
| `MessageHistory.EveryMessageIsAsItCame` | core/src/node/messages.rs:3-15 | over any run, every message kept is one that came, in order, none twice; verified, failed or unverified as its sender's key, known then or first heard since, has said |
| `MessageHistory.EveryMessageIsCounted` | core/src/node/messages.rs:20-33 | the hashes remembered are the last 64 taken in, and the three counters count what was taken in, let go and refused |
| `MessageLaws.KeptTwiceIff` | core/src/node/messages.rs:130-168 | a message is kept twice exactly when its hash has been forgotten, it is still kept, and its signature is not refuted |
| `MessageLaws.RunsKeepOnceIff` | core/src/node/messages.rs:130-168 | over a run, every message is kept once all the way exactly when no arrival meets that condition |
| `MessageLaws.AMessageIsKeptTwice` | core/src/node/messages.rs:20-26 | and it happens: an unread message, 64 others that are read, and a retry |
| `StableSort.SortedIsOrdered` | core/src/node.rs:785 | the model of `sort_by_key`: in order, and what it was given |
| `StableSort.SortingKeepsOrder` | core/src/node.rs:807-808 | stable: sorting commutes with keeping some |
| `StableSort.SortedKeepsRank` | core/src/node.rs:784-785 | stable: equal keys stay in the order they came |
| `Station.Board.constructor` | core/src/node.rs:622-624 | nothing received or sent |
| `Station.Board.Conversations` | core/src/node.rs:765-797 | the two collecting loops, the sort and the rows drawn |
| `Station.Board.Read` | core/src/node.rs:820-831 | the count of messages received among those shown is what the store is told |
| `StationLaws.TheListIsRight` | core/src/node.rs:763-797 | every row dated by the newest message either way and unread if anything received is; newest first, ties by first mention, no peer twice; and a peer left out belongs below a full list |
| `StationLaws.DrawnIsRight` | core/src/node.rs:785-797 | a row is drawn with its peer, its mark and its age in whole seconds, none if it is dated later than now |
| `StationLaws.RowsTabulate` | core/src/node.rs:766-783 | before the sort, one right row for each peer with a message kept |
| `ReadingLaws.EntriesAre` | core/src/node/messages.rs:235-253 | a peer's entries are its messages, one each, in store order |
| `ReadingLaws.ThreadReceives` | core/src/node.rs:801-810 | of the merged thread, what was received is the peer's messages sorted by time |
| `ThreadLaws.TheThreadIsTheConversation` | core/src/node.rs:799-814 | a thread has an entry for each message from the peer and each to it, for nothing else and none twice, by time and the received first |
| `ReadingLaws.InOrderMarksWhatWasShown` | core/src/node.rs:817-831 | with the peer's messages in time order, marked is exactly shown |
| `ReadingLaws.MarkingIsRightIffInOrder` | core/src/node.rs:817-831 | and only then, if it is to be so however far is shown |
| `ReadingLaws.ReadingMarksWhatWasShown` | core/src/node.rs:817-831 | over every run on a clock that does not go back, reading marks exactly the received messages among those shown and changes nothing else |
| `LogBuf.RingBuffer.constructor` | core/src/logbuf.rs:35-42 | empty |
| `LogBuf.RingBuffer.Push` | core/src/logbuf.rs:60-73 | the contents become the last N of the old ones and the data; what was lost is returned and counted, saturating |
| `LogBuf.RingBuffer.Pop` | core/src/logbuf.rs:76-84 | a prefix is copied out and removed, the rest of the destination untouched |
| `LogBuf.RingBuffer.TakeDropped` | core/src/logbuf.rs:92-94 | the count is handed over and starts again |
| `LogBuf.RunsLoseOnlyTheOldest` | core/src/logbuf.rs:60-84 | over any run pushed = delivered + evicted + waiting, and what is delivered is in order, none twice |
| `LogBuf.PopDelivers` | core/src/logbuf.rs:76-84 | what a pop hands out are the bytes at the positions recorded |
| `Battery.PercentIsMonotone` | core/src/battery.rs:109-126 | more volts are never fewer percent, and none is more than a hundred |
| `Battery.TablePointsAreExact` | core/src/battery.rs:75-126 | every point of the discharge table is exact |
| `Battery.BetweenIsNearest` | core/src/battery.rs:113-124 | between two points it is the straight line's, to the nearest percent and up from half |
| `Battery.ReadingIsNearTheCell` | core/src/battery.rs:92-138 | there is a reading exactly from a count of 1852 up; its voltage is less than 3 mV under the divider's; its percentage is that voltage's |
| `Battery.Smoothed.constructor` | core/src/battery.rs:168-173 | nothing known |
| `Battery.Smoothed.Update` | core/src/battery.rs:179-201 | the new filter state, and the reading returned |
| `Battery.RunsTrackTheCell` | core/src/battery.rs:179-201 | over any run the average stays within the samples since the last reset, the shown voltage within the dead band of it, the shown percentage that of the shown voltage |
| `Battery.StepCloses` | core/src/battery.rs:186-190 | a step towards a constant sample gets strictly nearer exactly when more than 3/16 mV off, and by a quarter |
| `Battery.ConstantSamplesConverge` | core/src/battery.rs:179-201 | it arrives in no more steps than sixteenths to go, and stays |
| `Battery.TheFilterRests` | core/src/battery.rs:179-201 | under a constant sample, where the average comes to rest: where it was if within 3/16 mV, else exactly 3/16 mV short on its own side |
| `Battery.TheFilterStopsShort` | core/src/battery.rs:151-201 | for any two differing readings of the ADC, the first once and the second for good, the average ends 3/16 mV from the second and stays |
| `Battery.AnAverageThatStopsShort` | core/src/battery.rs:151-201 | for one, counts 2600 and then 2601: the cell is at 3514 mV and the average at 3513 for good |
| `W25q.StepIsInjective` | core/src/w25q.rs:141-146 | the generator never gives zero and is injective on the states it can be in |
| `W25q.KnownWords` | core/src/w25q.rs:141-146 | the generator's own first words from one, and from nought and all ones |
| `W25q.KnownBytes` | core/src/w25q.rs:151-154 | a seed's bytes stand least first |
| `W25q.StreamsStayApart` | core/src/w25q.rs:141-146 | two seeds' streams that ever meet were the same from the start |
| `W25q.Fill` | core/src/w25q.rs:150-161 | every offset of the sector, in place |
| `W25q.KnownPattern` | core/src/w25q.rs:150-161 | for seed one, the first four bytes after the header; and where the magic and the seed stand |
| `W25q.Check` | core/src/w25q.rs:182-207 | erased, foreign, or a seed with how many offsets are wrong and the first |
| `W25q.CheckSays` | core/src/w25q.rs:182-190 | which of the three it is: all ones, `oxinode1` in front with room for a seed, or neither |
| `W25q.WrongCounts` | core/src/w25q.rs:191-205 | the counting loop's numbers are the size and the least of the set of differing offsets |
| `W25q.CheckMeasuresDamage` | core/src/w25q.rs:182-207 | for any sector with a seed's header, `check` gives that seed, how many offsets differ from its fill, and the least |
| `W25q.FilledChecksClean` | core/src/w25q.rs:150-207 | what was filled checks as its seed with nothing wrong |

## Left out

- Peripherals: SPI, I2C, USB, BLE, ADC, GPIO and flash drivers are not part of this model; of `src/` only the `flush_pages` loop is.
- Cryptography and the Reticulum engine: hashing, signing, encryption and transport; a signature's outcome is an input.
- `tools/peer.py`: `parse_packet`, `parse_announce`, `content_size` and the bench run are slicing, sums and I/O. Python's recursion limit, tuples packed as lists, and the quieting of a signalling NaN when a binary32 is widened are not modelled.
- Clocks: times are unbounded, so a 64-bit millisecond clock that wraps is not modelled; the pad's settling time is the one subtraction the source lets wrap, and does here.
- Receiver: power switching, status words, fix age, the baud probe and the counters' 32-bit width are left out.
- Battery: the charger's state table, and samples beyond 0x7FFFFFF mV, which no ADC count reaches, are left out.
- UF2: the ELF half of the layout check, budgets and families by chip are left out.
- Display: contrast, orientation, sleep and text are left out; the controller model has the cursor commands and data, and ignores other commands.
- Outbox: delivery states and retries are left out; a sent message is its peer and its time.
- Messages: content, the table of peers, and the peers' names in the list are left out; what a key says of a message is an input.
- Serving order of the node's loop: `AnnounceBudget` takes the node's calls in any order; that an attempt at a message is sent between two packets of the queue is not modelled.
