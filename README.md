# wl_log in Dafny

A model of `wl_log`, a logging library for embedded targets, with proofs about it.

- **Severities and tags.** Callers log a message under a severity (`WL_LOG_ERROR` … `WL_LOG_VERBOSE`) and a short text tag.
- **Two tag tables.** The library filters each call through them:
  - an *excluded* list, whose tags are never logged;
  - a *level* table of per-tag severity overrides, with `WL_LOG_VERBOSE` for every tag without one.
- **Rendering.** A call the filter lets through becomes one of three outputs:
  - a coloured line, `(ms)[LEVEL][tag]: message`;
  - a hex line, `(ms)[HEX][tag]: AB CD …`;
  - a hex dump, whose rows of 16 bytes carry a four-digit offset.
- **Output.** Each piece goes to `log_output`. It prints to stdout when the target has one. Otherwise it queues the bytes in a fixed ring buffer that `wl_log_process_buffer` drains later.
  - By default a full ring drops the rest of the message.
  - With `WL_LOG_BUFFER_OVERWRITE`, the oldest bytes make room instead.

## Layout

The modules follow the parts of `src/wl_log.c`:

- `strings.dfy` (`Strings`): bounded copy (`Prefix`) and concatenation of the pieces handed to `log_output` (`Join`).
- `levels.dfy` (`Levels`): `wl_log_level_t` and the default buffer size of `include/wl_log.h`.
- `tags.dfy` (`Tags`): the tag match `strncmp(…, 20) == 0`, the truncating store, and the read-only scans `is_tag_excluded` and `get_tag_level`. It also states what each table mutator does to the table contents, and proves the properties of those updates.
- `format.dfy` (`Format`): the level-name and colour switch, the print line with its 255- and 511-character truncations, and the hex line and dump, each as the exact strings passed to `log_output`. It also covers `%u`, `%02X` and `%04X`, with round trips back to the number.
- `ring_buffer.dfy` (`RingBuffer`): `log_buffer_t` as a class over an `array<char>` with `head` and `tail`.
  - Its abstract view is `data[tail..head)`, with indices taken modulo the size.
  - `Put` and `Enqueue` are the byte loop of `log_output`; `Drain` is `wl_log_process_buffer`.
  - Each policy is specified by a function on the view.
- `logger.dfy` (`Logging`): the statics of `src/wl_log.c` as one `Logger` object.
  - The fields are the two tables (arrays plus counts), the ring, and everything printed to stdout.
  - Methods update the fields in place, like the C functions.
  - The build switches (`WL_LOG_DISABLE_COLORS`, `WL_LOG_BUFFER_OVERWRITE`, `WL_LOG_BUFFER_SIZE`, and what `stdout_available()` returns) are a `Config` value given to the constructor.

`Logger.Valid()` is the object invariant every method keeps. Both tables stay within their 10 entries and hold only tags of at most 19 characters, as the truncating copies at src/wl_log.c:388-389 and 440-441 guarantee. So the lemmas about stored tags apply to every reachable logger.

Each output operation is specified against one function, `After(state, text)`. It gives the stdout text and the ring contents after `log_output(text)`.

`DeliveredCompose` and `EnqueuedCompose` prove that two `log_output` calls in a row act as one call with the joined text, under either ring policy. So the per-byte loops of `wl_log_buffer_hex` and `wl_log_dump` are proved to deliver exactly the joined strings of `HexSegments` and `DumpSegments`. Those strings are in turn proved equal to the hex line, and to the row-by-row dump.

`Logging.DefaultConfig` is the build with no switch defined. Its ring size is `Levels.DefaultBufferSize`, the 1024 of include/wl_log.h. `Logging.NewDefaultLogger` builds a logger from it, and `Logging.NetworkSession` runs the exclude, log, include, log sequence of examples/tags_on_runtime.c on that logger. Any configured size must be at least 1, as for any C array.

The 511-character cut of the print line is applied to the whole layout string. So a very long tag can push the reset code and the newline out of the line; `Format.PrintLineShape` states when they are kept.

Where the behaviour documented for the library and the code disagree, the model follows the code:

- `log_output` returns nothing, so no count of enqueued bytes is modelled.
- Both ring policies keep at most `WL_LOG_BUFFER_SIZE - 1` bytes. In overwrite mode the buffer stays at `SIZE - 1` bytes once full, because `head` lands on the old `tail`.
- The print line starts `color "(" ms ")["`.
- A tag of 20 characters or more is stored cut to 19 characters, but it never matches anything stored: `strncmp` compares 20 positions. `Tags.LongTagIsStoredTwice` and `Tags.LongTagLevelIsStoredTwice` show the consequences:
  - excluding such a tag twice fills two slots;
  - excluding it never keeps the 20-character tag itself out of the log;
  - `set_level` on such a tag sets the level of its 19-character truncation, never its own: `get_tag_level` of the long tag stays WL_LOG_VERBOSE;
  - every `set_level` call on such a tag takes a new slot, until the table is full.

## Model

| member | source | states |
|---|---|---|
| Strings.Prefix | src/wl_log.c:273-274 | a bounded copy keeps exactly the first min(length, n) characters |
| Levels.Level.Value | include/wl_log.h:53-60 | each enumerator's value is between 0 and 5 |
| Levels.FromValue | include/wl_log.h:53-60 | the level whose enumerator has value v, for every v up to 5 |
| Levels.DefaultBufferSize | include/wl_log.h:36-38 | WL_LOG_BUFFER_SIZE when the build does not set it: 1024 |
| Levels.SeverityOrder | include/wl_log.h:53-60 | NONE < ERROR < WARN < INFO < DEBUG < VERBOSE; a level is identified by its value and FromValue inverts Value |
| Tags.GlobalLogLevel | src/wl_log.c:156 | global_log_level, WL_LOG_VERBOSE; no function of the library assigns it, so it stays constant |
| Tags.TagLevel | src/wl_log.c:158-162 | tag_log_level_t: one override pairing a stored tag with its level |
| Tags.Stored | src/wl_log.c:388-389 | what a table slot holds after `strncpy(slot, tag, 19)` and the NUL at index 19: the tag's first 19 characters (the same copy is at 440-441) |
| Tags.Matches | src/wl_log.c:473 | `strncmp(stored, tag, 20) == 0`: the two agree on their first 20 characters, the end of a shorter string counting as a character (the same test is at 382, 407, 430 and 486) |
| Tags.StoredIsShort | src/wl_log.c:388-389 | a stored tag has at most 19 characters, and a tag shorter than 20 is stored unchanged |
| Tags.MatchesStored | src/wl_log.c:471-477 | a stored tag matches a tag iff they are equal; a tag of 20 or more characters matches no stored tag |
| Tags.Find | src/wl_log.c:471-477 | the scan returns the first matching index; it reports Absent iff no entry matches |
| Tags.IsTagExcluded | src/wl_log.c:469-479 | true iff some excluded entry matches the tag |
| Tags.GetTagLevel | src/wl_log.c:482-492 | the level of the first matching override, or WL_LOG_VERBOSE when none matches |
| Tags.Allows | src/wl_log.c:264-267 | a call goes ahead unless its level is above `get_tag_level(tag)` or the tag is excluded (the same test is at 319-322 and 345-348) |
| Tags.Excluding | src/wl_log.c:378-395 | the excluded list after exclude: the stored tag appended when fewer than 10 entries are held and none matches; otherwise unchanged |
| Tags.Including | src/wl_log.c:405-416 | the excluded list after include: the first matching entry removed and the later ones moved one place left; unchanged when none matches |
| Tags.SettingLevel | src/wl_log.c:428-449 | the level table after set_level: the first matching entry takes the level; otherwise the stored tag is appended with the level when fewer than 10 entries are held; otherwise unchanged |
| Tags.ExcludingBounded | src/wl_log.c:378-395 | exclude never lets the list exceed 10 entries and stores only tags of at most 19 characters |
| Tags.ExcludingNoDuplicate | src/wl_log.c:378-391 | for a tag under 20 characters, exclude stores no duplicate and, with room left, the tag is excluded afterwards |
| Tags.ExcludingIdempotent | src/wl_log.c:380-386 | a second exclude of the same tag under 20 characters changes nothing |
| Tags.ExcludingKeepsOthers | src/wl_log.c:378-391 | excluding a tag under 20 characters changes no other tag's exclusion |
| Tags.IncludingRemovesFirstMatch | src/wl_log.c:405-416 | include removes exactly the first matching entry and keeps the rest in order; an absent tag leaves the list unchanged |
| Tags.IncludingUnexcludes | src/wl_log.c:405-416 | on a list of distinct stored tags, the tag is not excluded after include |
| Tags.IncludingKeepsOthers | src/wl_log.c:405-416 | on a list of stored tags, include changes no other tag's exclusion |
| Tags.RemovalKeepsMatches | src/wl_log.c:409-413 | removing an entry that does not match a tag keeps whether that tag is excluded |
| Tags.RemovalKeepsStored | src/wl_log.c:409-413 | the shift that removes an entry keeps every remaining tag at most 19 characters |
| Tags.ExcludeThenInclude | src/wl_log.c:374-421 | on a list of distinct stored tags, exclude followed by include of the same tag leaves it not excluded |
| Tags.ExcludeThenIncludeRestores | src/wl_log.c:374-421 | for a tag under 20 characters that is not yet excluded, exclude then include restores the list exactly: with room the new entry is removed again; on a full list exclude only reports "list full" (392-395) and include only "not found" (418) |
| Tags.LongTagIsStoredTwice | src/wl_log.c:382-389 | a 20-character tag is stored cut to 19 characters, twice over when excluded twice, and is itself never excluded |
| Tags.LongTagLevelIsStoredTwice | src/wl_log.c:428-444 | set_level of a 20-character tag twice takes two slots holding its 19-character cut; the long tag's own level stays WL_LOG_VERBOSE while the cut's is the one set |
| Tags.SettingLevelBounded | src/wl_log.c:438-448 | set_level never lets the table exceed 10 entries and stores only tags of at most 19 characters |
| Tags.SettingLevelShape | src/wl_log.c:428-449 | present tag: only that entry's level changes; new tag: appended when count < 10, otherwise the table is unchanged |
| Tags.SettingLevelTakesEffect | src/wl_log.c:428-444 | for a tag under 20 characters, its effective level afterwards is the one set, unless the table was full and the tag new |
| Tags.SettingLevelKeepsOthers | src/wl_log.c:428-444 | on a table of stored tags, set_level of a tag under 20 characters changes no other tag's effective level |
| Tags.SettingLevelLastWriteWins | src/wl_log.c:428-436 | two set_level calls on one tag under 20 characters act as the second alone |
| Tags.SettingLevelOneEntryPerTag | src/wl_log.c:428-444 | on a table of distinct stored tags, set_level of a tag under 20 characters keeps one entry per tag |
| Tags.AllowsExplained | src/wl_log.c:264-267 | an excluded tag is always dropped; otherwise a call passes iff its level is at most the first matching override's, and every call passes when no override matches |
| Tags.SensorScenario | examples/level_by_log.c:8-25 | at DEBUG the DEBUG call passes; after lowering to WARN, INFO and DEBUG calls are dropped and WARN and ERROR calls pass |
| Tags.NetworkScenario | examples/tags_on_runtime.c:13-23 | "network" is dropped while excluded and passes again once included |
| Format.Decimal | src/wl_log.c:309 | `%u`: the decimal digits of the number, with no leading zero (the same conversion is at 328 and 354) |
| Format.HexPadded | src/wl_log.c:362 | `%0<width>X`: the upper-case hexadecimal digits, left-padded with zeros to at least `width` |
| Format.DigitsRoundTrip | src/wl_log.c:309 | decimal or hexadecimal digits read back as the number, with no leading zero |
| Format.DecimalRoundTrip | src/wl_log.c:309 | `%u` reads back as the number, with no leading zero |
| Format.DecimalWidth | src/wl_log.c:309 | a uint32 timestamp has at most ten decimal digits |
| Format.HexPaddedRoundTrip | src/wl_log.c:362 | `%04X` has at least the width in digits and reads back as the number |
| Format.HexPaddedWidth | src/wl_log.c:362 | a number with at most `width` hex digits is padded to exactly `width` digits, so `%04X` of an index below 0x10000 has four |
| Format.Hex2 | src/wl_log.c:334 | `%02X` of a byte: the high and the low nibble as upper-case hex digits (the same conversion is at 365) |
| Format.Hex2RoundTrip | src/wl_log.c:334 | `%02X` of a byte is two hexadecimal digits that read back as the byte |
| Format.Hex2IsPadded | src/wl_log.c:334 | the two digits equal the general zero-padded rendering at width 2 |
| Format.LevelName | src/wl_log.c:281-306 | the switch's level_str: ERROR, WARN, INFO, DEBUG, VERBOSE, and UNKNOWN for WL_LOG_NONE through the default branch |
| Format.Color | src/wl_log.c:279-306 | the switch's color_code: red, yellow, green, blue and white, white for WL_LOG_NONE; the empty string when colours are disabled (76-90) |
| Format.Reset | src/wl_log.c:76-90 | ANSI_COLOR_RESET: ESC [0m with colours on, the empty string otherwise |
| Format.Preamble | src/wl_log.c:309 | the line up to the tag: colour, "(", the decimal timestamp, ")[", the level name, "][" |
| Format.LineLayout | src/wl_log.c:308-309 | the print line as the format string lays it out, with the message already cut to 255 characters by the 256-byte vsnprintf buffer (273-274) |
| Format.PrintLine | src/wl_log.c:308-309 | the layout cut to the 511 characters that fit in final_message |
| Format.LevelStyles | src/wl_log.c:281-306 | distinct levels have distinct names and, with colours on, distinct colours; NONE is "UNKNOWN" in white; without colours every colour and the reset are empty |
| Format.StyleWidths | src/wl_log.c:76-90 | the colour and reset codes and the level names are short (at most 5, 4 and 7 characters) |
| Format.PreambleWidth | src/wl_log.c:309 | the text before the tag is at most 27 characters |
| Format.PrintLineShape | src/wl_log.c:308-309 | the line has at most 511 characters, is a prefix of the full layout and starts with the whole preamble; for tags up to 221 characters it is the full layout with reset and newline |
| Format.HexHeader | src/wl_log.c:327-328 | `(ms)[HEX][tag]: ` cut to the 127 characters of header |
| Format.HexByte | src/wl_log.c:334 | `%02X ` of one byte: two upper-case digits and a space |
| Format.HexPieces | src/wl_log.c:332-336 | one `%02X ` group per byte, in order |
| Format.HexSegments | src/wl_log.c:326-337 | the strings handed to log_output, one per call: header, one group per byte, then "\n" |
| Format.HexBodyRoundTrip | src/wl_log.c:331-336 | the hex body has three characters per byte and decodes back to the bytes logged |
| Format.HexLineShape | src/wl_log.c:326-337 | the hex call writes header, body and newline; for tags up to 106 characters the header is whole |
| Format.HexPiecesSnoc | src/wl_log.c:332-336 | each loop pass extends the hex body by that byte's "XX " group |
| Format.HexExample | examples/full_methods.c:15-18 | bytes AB CD render as "AB CD " |
| Format.DumpHeader | src/wl_log.c:353-354 | `(ms)[DUMP][tag]:` and a newline, cut to the 127 characters of header |
| Format.OffsetLabel | src/wl_log.c:362 | `\n%04X: ` of the index cast to unsigned int (so taken modulo 2^32) |
| Format.OffsetLabelRoundTrip | src/wl_log.c:362 | a label is a newline, at least four hex digits that read back as the index modulo 2^32, then ": "; below 0x10000 the digits are exactly four, so the label is seven characters |
| Format.DumpPiece | src/wl_log.c:360-366 | the strings one loop pass hands to log_output: the offset label when the index is a multiple of 16, then the byte's group |
| Format.DumpPieces | src/wl_log.c:358-367 | the strings the whole byte loop hands to log_output, each byte's pieces in order with its index as offset |
| Format.DumpSegments | src/wl_log.c:352-368 | the strings handed to log_output, one per call: header, each byte's pieces from index 0, then "\n" |
| Format.DumpRows | src/wl_log.c:358-367 | the reference hex dump the loop is proved against: rows of up to 16 bytes, each an offset label followed by its groups |
| Format.DumpPiecesSnoc | src/wl_log.c:358-367 | each dump loop pass appends that byte's pieces at the end |
| Format.DumpPiecesAppend | src/wl_log.c:358-367 | the dump pieces of a concatenation are those of each part, with the second part's offsets shifted |
| Format.DumpPieceText | src/wl_log.c:360-366 | a byte at a multiple of 16 writes its offset label and its "XX "; any other byte writes only its "XX " |
| Format.DumpJoinSnoc | src/wl_log.c:358-367 | the dump text grows per byte by the offset label when the byte starts a row, then the byte's group |
| Format.DumpPrefixStep | src/wl_log.c:358-367 | after pass i the dump text is the text before it plus byte i's pieces |
| Format.DumpInsideRow | src/wl_log.c:358-367 | inside a row no offset label is written |
| Format.DumpRow | src/wl_log.c:358-367 | a row starting at a multiple of 16 is its offset label followed by its bytes' groups |
| Format.DumpIsRows | src/wl_log.c:358-367 | the byte-by-byte loop writes exactly the row-by-row dump |
| Format.DumpText | src/wl_log.c:352-368 | the dump call writes header, the pieces in order, then the newline |
| Format.DumpShape | src/wl_log.c:352-368 | the dump is header, rows and final newline; for tags up to 105 characters the header is whole |
| RingBuffer.View | src/wl_log.c:168-175 | the queued bytes number (head - tail) mod SIZE, always fewer than SIZE |
| RingBuffer.Enqueued | src/wl_log.c:520-539 | the queue after the buffer branch takes a message: default policy, the longest prefix that fits is appended and the rest dropped; overwrite, every byte appended and the oldest discarded down to SIZE - 1 |
| RingBuffer.NextIndex | src/wl_log.c:523 | `(x + 1) % SIZE` steps to the next slot, wrapping to 0 |
| RingBuffer.ViewFull | src/wl_log.c:523-524 | `next_head == tail` holds exactly when SIZE - 1 bytes are queued |
| RingBuffer.ViewPush | src/wl_log.c:524-528 | writing at head and advancing it appends the byte |
| RingBuffer.ViewOverwrite | src/wl_log.c:531-534 | when full, the overwrite branch drops the oldest byte and appends the new one |
| RingBuffer.ViewPop | src/wl_log.c:458-462 | reading at tail and advancing it removes the oldest byte |
| RingBuffer.PoliciesCharacterized | src/wl_log.c:520-539 | both policies keep min(SIZE - 1, old + message) bytes: drop-newest the first of old ++ message, overwrite the last |
| RingBuffer.EnqueueFits | src/wl_log.c:520-528 | a message that fits is queued whole, after the old bytes, under either policy |
| RingBuffer.OverwriteKeepsLatest | src/wl_log.c:531-534 | in overwrite mode a message of at least SIZE - 1 bytes leaves only its own last SIZE - 1 bytes |
| RingBuffer.EnqueuedCompose | src/wl_log.c:520-539 | enqueueing two strings in turn equals enqueueing their concatenation, under either policy |
| RingBuffer.EnqueuedNothing | src/wl_log.c:520-521 | an empty message leaves the ring as it was |
| RingBuffer.DropWhenFull | src/wl_log.c:535-537 | a full ring under the default policy takes nothing more |
| RingBuffer.EnqueuedStep | src/wl_log.c:521-538 | each pass of the byte loop takes the next byte of the message under the policy |
| RingBuffer.EnqueuedStops | src/wl_log.c:535-537 | under the default policy, once the ring is full the `break` loses nothing the policy would have kept |
| RingBuffer.Ring.Contents | src/wl_log.c:168-175 | at most SIZE - 1 bytes are ever queued |
| RingBuffer.Ring.constructor | src/wl_log.c:175 | a fresh ring with head = tail = 0 is empty |
| RingBuffer.Ring.Put | src/wl_log.c:523-538 | one loop pass: accepted iff overwrite mode or not full; the new contents follow the policy for that one byte |
| RingBuffer.Ring.Enqueue | src/wl_log.c:520-539 | the new contents are the policy applied to the old contents and the whole message |
| RingBuffer.Ring.Drain | src/wl_log.c:458-463 | hands out exactly the queued bytes, oldest first; afterwards tail == head and the ring is empty |
| Logging.Config | include/wl_log.h:36-51 | the build switches: WL_LOG_DISABLE_COLORS, WL_LOG_BUFFER_OVERWRITE (src/wl_log.c:531), WL_LOG_BUFFER_SIZE, and what stdout_available() returns (src/wl_log.c:496-506) |
| Logging.DefaultConfig | include/wl_log.h:36-51 | the build with no switch defined on a target with stdout: colours on, stdout, drop-newest, a 1024-byte ring |
| Logging.Delivered | src/wl_log.c:509-542 | the sinks after log_output(text): with stdout the console gains the text; otherwise the ring takes it under its policy |
| Logging.DeliveredCompose | src/wl_log.c:509-542 | two log_output calls in a row act as one call with the joined text |
| Logging.DeliveredRoutes | src/wl_log.c:514-540 | with stdout, the text goes to the console and the ring is untouched; without it, the console is untouched; empty text changes nothing |
| Logging.Logger.AfterCompose | src/wl_log.c:509-542 | for this logger's configuration, delivering a and then b equals delivering a + b |
| Logging.Logger.constructor | src/wl_log.c:153-175 | the zero-initialised statics: both counts 0, head = tail = 0 so the ring is empty, and an empty console; colours on unless WL_LOG_DISABLE_COLORS (include/wl_log.h:47-51); the ring has the configured size and policy; the tables and the ring are newly allocated, so the caller may edit them |
| Logging.Logger.Valid | src/wl_log.c:153-165 | both tables hold at most 10 entries, each tag at most 19 characters as the copies at 388-389 and 440-441 leave it, and the ring invariant holds |
| Logging.NewDefaultLogger | src/wl_log.c:153-175 | the statics of a build with no switch defined: colours on, stdout, drop-newest, a 1024-byte ring, empty tables and console, and tables the caller may edit at once |
| Logging.NetworkSession | examples/tags_on_runtime.c:13-23 | on a fresh default logger, exclude "network", log under it, include it, log again: the console holds only the last line and the list is empty again |
| Logging.Logger.ExcludeTag | src/wl_log.c:374-398 | the list becomes Excluding(old list, tag); the diagnostic is "list full" iff 10 entries were held |
| Logging.Logger.RemoveExcludedAt | src/wl_log.c:409-413 | the shift loop removes slot i and moves the later entries one place left, in order |
| Logging.Logger.IncludeTag | src/wl_log.c:401-421 | the list becomes Including(old list, tag); the diagnostic is "not found" iff the tag was not excluded |
| Logging.Logger.SetLevel | src/wl_log.c:424-451 | the table becomes SettingLevel(old table, tag, level); the diagnostic is "list full" iff the tag was new and the table full |
| Logging.Logger.LogOutput | src/wl_log.c:509-542 | the sinks become After(old sinks, text) |
| Logging.Logger.Filtered | src/wl_log.c:264 | a call is dropped iff its level exceeds the tag's effective level or the tag is excluded |
| Logging.Logger.Print | src/wl_log.c:262-314 | a call the filter passes delivers exactly one print line; any other leaves console and ring unchanged |
| Logging.Logger.Emit | src/wl_log.c:329 | one log_output call continues the output already delivered by the same call |
| Logging.Logger.WriteHex | src/wl_log.c:326-337 | the header, per-byte and newline calls together deliver the joined hex segments |
| Logging.Logger.BufferHex | src/wl_log.c:317-340 | a call the filter passes delivers the hex line; any other leaves console and ring unchanged |
| Logging.Logger.WriteDumpByte | src/wl_log.c:360-366 | one dump loop pass delivers that byte's pieces |
| Logging.Logger.WriteDump | src/wl_log.c:352-368 | the header, label, per-byte and newline calls together deliver the joined dump segments |
| Logging.Logger.Dump | src/wl_log.c:343-371 | a call the filter passes delivers the dump; any other leaves console and ring unchanged |
| Logging.Logger.ProcessBuffer | src/wl_log.c:454-466 | the drain hands out exactly the queued bytes, oldest first, and leaves the ring empty |
| Logging.Logger.LogE | include/wl_log.h:86 | WL_LOGE is wl_log_print at ERROR |
| Logging.Logger.LogW | include/wl_log.h:88 | WL_LOGW is wl_log_print at WARN |
| Logging.Logger.LogI | include/wl_log.h:90 | WL_LOGI is wl_log_print at INFO |
| Logging.Logger.LogD | include/wl_log.h:92 | WL_LOGD is wl_log_print at DEBUG |
| Logging.Logger.LogV | include/wl_log.h:94 | WL_LOGV is wl_log_print at VERBOSE |

## Left out

- UART output (`wl_log_uart_init`, `wl_log_uart_write`, src/wl_log.c:44-73, 544-594): platform drivers. `log_output` is modelled with the `WL_LOG_USE_UART` switch off.
- Mutex and spinlock selection, the lock and unlock macros, and mutex creation in `wl_log_init` (src/wl_log.c:97-150, 210-258): concurrency. The model is sequential, so every unlock on an early return is a no-op.
- `get_millis` (src/wl_log.c:183-207): a platform clock. The timestamp is a `uint32` parameter of every output operation.
- `stdout_available` (src/wl_log.c:496-506): platform detection. It is the `stdoutAvailable` field of `Config`.
- The printf-style expansion of the format and its arguments (src/wl_log.c:271-275): a libc call. `Print` takes the expanded message as a string and models only the 255-character cut.
- The `printf` diagnostics of the table mutators (src/wl_log.c:394, 418, 447): text on stdout. They are returned as a `Diagnostic` value and are not added to the console text.
- Logging.Logger.ProcessBuffer: the source hands each byte to `log_output(&ch)`. `&ch` is not a NUL-terminated string, and in the buffer configuration the byte would be queued again into the same ring. The model returns the drained bytes to the caller, which stands for the sink.
- NUL bytes and the `strlen`/`strncpy` semantics of embedded NULs: tags and messages are NUL-free strings.
- Character encoding: one Dafny `char` stands for one C `char`, that is one byte. Every length the source enforces (19, 255, 511, 127, `strlen`, WL_LOG_BUFFER_SIZE) is counted in these characters. Multi-byte text is not decoded, and no bound below 256 is imposed on character values.
- C enum values outside `wl_log_level_t`: the source can receive them, but the six-constructor `Level` datatype excludes them. `WL_LOG_NONE` still takes the switch's default branch.
