# Verified models of the Luat reference RIL and its chat program

A Dafny 4.11 project about four pieces of an Android radio interface layer: the dial-script program `chat`, the
close/reopen protocol of the RIL, the converter from a USIM file control template to a 2G SIM status, and the AT line
tokenizer with two of its users. `dafny verify dfyconfig.toml` checks everything.

| file | part of the program | main results |
|---|---|---|
| `RadioProtocol.dfy` | `setRadioState`, the two close handlers, `waitForClose` and the open/close steps of `mainLoop`, as steps of any number of threads | a closed channel is unavailable; no wakeup is lost, under any schedule; the channel opens again |
| `HexCodec.dfy`, `UsimFcp.dfy` | the hex helpers, the FCP loop with its 8-bit offset, the status printer | the offset loop is a fold over the data objects; on well-formed templates it ends exactly up to 255 bytes; hex in, hex out |
| `CText.dfy`, `AtTok.dfy` | C strings in memory, number conversion, the `strsep` tokenizer | tokenizing inverts printing and never disturbs a token already returned |
| `Registration.dfy` | the comma-count parser of `+CREG`/`+CGREG` replies | all five shapes parse to the same triple; `%x` gives the modem's words back |
| `ReadBinary.dfy` | the chunked SIM READ BINARY | many small reads are one big read; exactly when a missing data field corrupts or overruns the result, exactly which replies make it fail |
| `ChatEscapes.dfy` | `clean`, `grow`, `put_string` | encoder and decoder compose to a one-pass interpreter, exactly when no substituted text has a backslash, and the decoder stops exactly when none leaves one dangling; sharp buffer bound; what is waited for is what would be sent |
| `ChatWindow.dfy`, `ChatMatcher.dfy` | the reading loop of `get_string` | a 1024-byte window decides as a matcher with the whole history does; the log conserves the stream |
| `ChatAborts.dfy` | the abort table and `pack_array` | exact effect of CLR_ABORT, including the duplicates it misses |
| `ChatReports.dfy`, `ChatUndefined.dfy` | the report table, its strings that fire, the lines gathered behind them, CLR_REPORT | exactly when a report outgrows its buffer, exactly when CLR_REPORT compares with a NULL; otherwise it is CLR_ABORT |
| `ChatWords.dfy`, `ChatScenarios.dfy` | the directives and short whole scripts, with the words, bytes and exit codes themselves | how waits end and scripts exit: time-outs and their replies, abort strings declared and cleared, words and files sent |
| `ChatSplit.dfy` | `expect_strtok` | splitting and joining at unescaped dashes are inverse |
| `ChatControl.dfy` | directive flags, the expect/reply dialogue, the alternation of calls | a run with flags is a direct interpreter of word pairs |
| `ChatScript.dfy`, `ChatEngine.dfy` | `chat_expect`, `chat_send`, the argument loop of `main`, `do_file`, over the globals | the program with its globals is that interpreter |
| `ChatFile.dfy` | line reading and word cutting of `do_file` | `do_file` inverts quoting |

Pure expressions are functions. Code that updates memory in place is a method over arrays or a class with the fields
of the source, proved against a function of the old state; the theorems are lemmas about that function.

## Assumptions

- Shared reads and writes of the RIL are single sequentially consistent steps; `pthread_cond_wait` may return
  unprovoked. Worker threads may call `setRadioState` with any target and may close at any moment.
- `char` is unsigned in `usim-fcp.c`, as on the ARM targets; `UINT8` offsets wrap modulo 256.
- Standard input of `chat` is a sequence of characters and of moments at which the alarm or a read error ends a wait;
  its output is a sequence of bytes, pauses, delays and breaks. `room` is the number of bytes that can be written
  before writing fails or the alarm goes off.
- The environment, the phone numbers and the files that `@name` reads are given as maps and strings. The engine assumes
  that no text a script can have substituted contains a backslash (the type `PlainSetup`); `ChatEscapes.AgreesIffPlain`
  shows that this is exactly when sending does what scripts say.
- Three effects that C leaves undefined are outcomes of the model, behind which nothing is said: `Undefined` when a
  report outgrows `report_buffer` or CLR_REPORT compares with a NULL pointer, `Overrun` when the text of a binary read
  outgrows its buffer.
- The time stamp of a report has 16 characters, as in the C locale.
- Lines of the modem are C strings. `long` has 32 or 64 bits in the tokenizer and the registration parser (the field
  `wide`), and 32 in `atoi` and the status words of the binary read.

## Model

| member | source | states |
|---|---|---|
| `RadioProtocol.StepKeepsInv` | reference-ril.c:2817-2842 | every step of every thread keeps the inductive invariant: mutex ownership matches the program counters, a live target chosen before a close is still to be overwritten by a handler, a sleeping main thread on a closed channel has a broadcast coming |
| `RadioProtocol.ExecKeepsInv` | reference-ril.c:2817-2842 | the invariant holds after every finite interleaving |
| `RadioProtocol.ClosedIsUnavailable` | reference-ril.c:2827-2837 | in every reachable state, `s_closed` > 0 with no close handler between its store and the end of its locked section means RADIO_STATE_UNAVAILABLE, also when another thread read `s_closed` as 0 and stores late |
| `RadioProtocol.NoLostWakeup` | reference-ril.c:3484-3493 | in every reachable state where `mainLoop` is blocked with `s_closed` = 1 some close handler has yet to broadcast |
| `RadioProtocol.WakeupIsReached` | reference-ril.c:2836-2842 | from every such state a schedule of at most 14 worker steps, without spurious wakeups or further closes, gets the main thread out of `pthread_cond_wait` |
| `RadioProtocol.SleeperCanAlwaysWake` | reference-ril.c:3484-3493 | the same for every reachable state |
| `RadioProtocol.EveryScheduleWakes` | reference-ril.c:2836-2842 | from every such state and in every order of worker steps, with no further request or close in between, at most ten steps a worker are taken, and when no worker can step any more the main thread is awake |
| `RadioProtocol.HandlerWakes` | reference-ril.c:2817-2842 | in every run of any kind, with requests, closes, spurious wakeups and all other threads interleaved, once a close handler that has yet to broadcast has taken its steps up to the broadcast the main thread has been awake at some point |
| `RadioProtocol.EveryRunWakes` | reference-ril.c:3484-3493 | from every reachable state in which the main thread sleeps on a closed channel there is a worker such that every run in which it takes seven steps wakes the main thread |
| `RadioProtocol.RequestCompletes` | reference-ril.c:2817-2850 | with the mutex free, `setRadioState` called by an idle thread and run alone ends with the state asked for, or unavailable on a closed channel, the thread idle, and one notice exactly when the state has changed |
| `RadioProtocol.CloseCompletes` | reference-ril.c:3584-3604 | a close handler run alone leaves the channel closed and unavailable and wakes a sleeping main thread whatever the state was |
| `RadioProtocol.ChannelReopens` | reference-ril.c:3698-3717 | from every reachable state in which the main thread sleeps on a closed channel some run without another close leads to `s_closed` = 0 with the main thread asleep again |
| `RadioProtocol.CloseIsSeen` | reference-ril.c:3698-3717 | a close that comes while the main thread opens or is about to wait is not lost: in every run the channel stays closed and the thread does not sleep until it comes to reopen |
| `RadioProtocol.SpuriousWakeup` | reference-ril.c:3484-3493 | after a spurious wakeup the main thread sleeps again on an open channel and goes on to reopen a closed one |
| `RadioProtocol.FailedOpenEnds` | reference-ril.c:3699-3704 | after a failed `at_open` the main thread takes no further step in any run |
| `RadioProtocol.BroadcastWhenUnchangedIsNeeded` | reference-ril.c:2836-2840 | without the clause `s_closed > 0` in the guard a state is reachable in which the main thread sleeps on a closed channel and all workers are idle |
| `RadioProtocol.LateLiveWriteHappens` | reference-ril.c:3584-3604 | the exception in the safety statement is needed: a live state can be stored after `s_closed = 1` |
| `HexCodec.BytesRoundTrip` | usim-fcp.c:101-147 | decoding the printed digits of any bytes gives the bytes |
| `HexCodec.TextRoundTrip` | usim-fcp.c:101-147 | printing the bytes of hex text of either case gives the text in upper case |
| `HexCodec.PairsAre` | usim-fcp.c:101-147 | the digits by name, the high one first; a character that is no digit sets all bits of its half, or of the byte when it comes second |
| `HexCodec.HexDataToString` | usim-fcp.c:125-133 | the loop writes exactly the digits into the front of the buffer and nothing behind them |
| `HexCodec.StringToHexData` | usim-fcp.c:136-147 | the loop writes exactly the bytes; for an odd length the last pair takes the terminating NUL |
| `UsimFcp.UsimDecodeDataLength` | usim-fcp.c:153-179 | size and value of a BER length, with 0 for an error and a zero value for an 81-form below 80 |
| `UsimFcp.UsimDecEfFileDescriptor` | usim-fcp.c:197-253 | new status and new 8-bit offset are those of the abstract turn |
| `UsimFcp.UsimDecFileSize` | usim-fcp.c:256-273 | big-endian size when the length is 2, else 0; offset behind the object modulo 256 |
| `UsimFcp.UsimDecEfFileId` | usim-fcp.c:276-296 | big-endian id when the length is 2, else 0; nothing else of the status changes |
| `UsimFcp.DecodeObject` | usim-fcp.c:320-418 | one switch of the loop is one abstract turn on offset and status |
| `UsimFcp.UsimDecodeEfStatusData` | usim-fcp.c:300-423 | on every block on which it ends, the loop leaves the status that iterating the turn gives |
| `UsimFcp.TurnConsumesObject` | usim-fcp.c:318-420 | a turn at a well-formed object advances by exactly its encoding and applies its meaning, reading only its bytes |
| `UsimFcp.IterateIsFold` | usim-fcp.c:318-420 | after k turns the offset is at object k and the status is the fold of the first k objects |
| `UsimFcp.TemplateDecodes` | usim-fcp.c:300-423 | for every template of at most 255 bytes the loop ends after one turn per object, offsets rise strictly from start to start without wrapping, only template bytes are read, and the result is the fold |
| `UsimFcp.TerminatesIffAtMost255` | usim-fcp.c:303-318 | for every well-formed template the loop guard ever fails if and only if the template has at most 255 bytes |
| `UsimFcp.LongTemplateLoops` | usim-fcp.c:303-318 | longer templates exist: one unknown object of 250 bytes makes 256, and the guard never fails on it |
| `UsimFcp.Stalls` | usim-fcp.c:251-294 | at a known object with length byte 254 the offset comes back to its start |
| `UsimFcp.ShortBlockLoops` | usim-fcp.c:303-420 | without well-formedness four bytes are enough for a loop that never ends and never leaves its block |
| `UsimFcp.FoldAnyOrder` | usim-fcp.c:318-420 | permuting objects with distinct known tags, among unknown ones, changes nothing |
| `UsimFcp.AbsentTagsChangeNothing` | usim-fcp.c:318-420 | fields whose tag does not occur keep their initial value |
| `UsimFcp.OnlyLifeCycle` | usim-fcp.c:366-386 | a sole life cycle object leaves the file valid unless it is one byte that is 4 or 6 |
| `UsimFcp.OddLengths` | usim-fcp.c:256-296 | sizes and ids that are not two bytes long count as 0 |
| `UsimFcp.DescriptorDetails` | usim-fcp.c:197-253 | the fifth byte of a descriptor is the number of records; structure and type codes that are not recognised change nothing |
| `UsimFcp.NoTemplate` | usim-fcp.c:308-314 | a block that does not start with 62 changes nothing |
| `UsimFcp.To2gSimStatus` | usim-fcp.c:425-462 | the fifteen stores make the 2G status bytes |
| `UsimFcp.LongerBlockHalts` | usim-fcp.c:469-474 | memory behind the block does not change the result of a run that stays inside it |
| `UsimFcp.ConvertUSimFcp` | usim-fcp.c:465-481 | the output is the thirty digits of the decoded status and a NUL |
| `UsimFcp.ConvertedStatus` | usim-fcp.c:425-481 | with one size, one id and one recognised descriptor the digits decode to a status with size at 2-3, id at 4-5, type at 6, structure at 13 and the low byte of the record length at 14 for linear-fixed and cyclic files |
| `UsimFcp.TextConverts` | usim-fcp.c:465-481 | the same from the hex text of any such template of at most 255 bytes, with termination, whatever the uninitialised record held |
| `CText.ParseDecimal` | at_tok.c:97-120 | `strtol` inverts `%d` on every int |
| `CText.SpacesAre` | at_tok.c:49-56 | blanks are the six characters of `isspace` |
| `CText.PlacesAre` | at_tok.c:97-120 | decimal numbers have the most significant digit first |
| `CText.NumberEnds` | at_tok.c:97-120 | `strtol` takes a plus sign and ignores what follows the digits |
| `CText.PrefixSkipped` | at_tok.c:143-146 | in base 16 a 0x or 0X in front is skipped |
| `CText.NumbersSaturate` | at_tok.c:108-116 | numbers out of the range of a 32-bit long are cut to its ends |
| `CText.UnsignedWraps` | at_tok.c:108-116 | an unsigned number behind a minus sign wraps, for both widths of long |
| `CText.CanonicalWord` | reference-ril.c:1525-1527 | a lower-case hex word without leading zeros is its own canonical form |
| `AtTok.TokenStays` | at_tok.c:71-88 | a token in front of the cursor survives any write at or behind the cursor |
| `AtTok.AtLine.Start` | at_tok.c:28-47 | the cursor goes behind the first colon, or to NULL with -1 when there is none |
| `AtTok.AtLine.SkipWhiteSpace` | at_tok.c:49-56 | the text left loses exactly its leading blanks |
| `AtTok.AtLine.SkipNextComma` | at_tok.c:58-69 | the text left is what follows the next comma, or nothing |
| `AtTok.AtLine.StrSep` | at_tok.c:80-84 | the token runs to the delimiter, ends in a NUL before the new cursor, and memory before the old cursor is untouched |
| `AtTok.AtLine.NextToken` | at_tok.c:71-88 | token and text left are those of the specification, for quoted and bare tokens |
| `AtTok.AtLine.NextIntBase` | at_tok.c:97-126 | value, failure code and text left, with saturation and the cut to int |
| `AtTok.AtLine.NextInt` | at_tok.c:133-136 | the same in base 10, signed |
| `AtTok.AtLine.NextHexInt` | at_tok.c:143-146 | the same in base 16, unsigned |
| `AtTok.AtLine.NextBoolean` | at_tok.c:148-169 | succeeds exactly on 0 and 1 |
| `AtTok.AtLine.NextStr` | at_tok.c:171-180 | the token handed out reads as specified and no later call can touch it |
| `AtTok.AtLine.HasMoreTokens` | at_tok.c:183-186 | true exactly when text is left |
| `AtTok.ReadField` | at_tok.c:71-180 | on any printed field the matching call returns it and leaves the rest of the line |
| `AtTok.ReadInvertsPrint` | at_tok.c:28-188 | on any list of fields the matching calls return the fields in order and then nothing is left |
| `AtTok.HasMoreBeforeField` | at_tok.c:183-186 | `hasmore` is true before a field unless it is the last and empty |
| `AtTok.BehindQuote` | at_tok.c:71-88 | between a closing quote and the next comma, or the end, anything is skipped; without a closing quote the rest is the token and nothing is left |
| `AtTok.BooleansAre` | at_tok.c:148-169 | of all ints only 0 and 1 are booleans; a NULL cursor yields nothing |
| `AtTok.ReadLine` | at_tok.c:28-188 | a caller that keeps every string token as a pointer until the end finds them all as they were, for every prefix without a colon |
| `Registration.RegistrationState` | reference-ril.c:1359-1446 | the parser with its in-place results computes the specified parse, failures included |
| `Registration.EveryShapeParses` | reference-ril.c:1381-1446 | each of the five shapes, solicited or not, for all stat and 32-bit lac and cid, parses to what the reply says |
| `Registration.WholeLineParses` | reference-ril.c:1357-1446 | the same from the whole response line, for every prefix without a colon |
| `Registration.LocationPrintsCanonically` | reference-ril.c:1525-1527 | `%x` then prints the canonical hex of the modem's lac and cid; without location both are -1 |
| `Registration.CanonicalLocationUnchanged` | reference-ril.c:1525-1527 | words sent in lower case without leading zeros are printed as they were sent |
| `Registration.MissingReadsAsAllOnes` | reference-ril.c:1389-1412 | -1 is read exactly for a missing location or the word ffffffff |
| `Registration.BlankBeforeNumber` | reference-ril.c:1395-1402 | the reply `" n,stat"`, blank included, parses to stat without location, for all ints |
| `Registration.TooManyFields` | reference-ril.c:1443-1446 | numbers separated by more than four commas are no reply |
| `ReadBinary.BlocksCover` | reference-ril.c:1975-2019 | the blocks are contiguous, at most 255 long and cover exactly the stretch |
| `ReadBinary.CommandAddressesBlock` | reference-ril.c:1984-1986 | P1 and P2 are bytes that recombine to the position of the block |
| `ReadBinary.CommandsInOrder` | reference-ril.c:1975-1986 | command k reads 255 bytes, the last one what remains, 255 k bytes behind the position of the request, from the same file |
| `ReadBinary.RequestReadBinary` | reference-ril.c:1972-2035 | for all responses: the commands sent are those of the blocks in order, and the outcome is the concatenation of the texts designated with the status words of the last block, an error at the first bad response, or an overrun at the first append that does not fit |
| `ReadBinary.FaithfulReply` | reference-ril.c:1995-2009 | a reply that carries the hex of a block, quoted or bare, is understood as that hex, with its status words |
| `ReadBinary.ReplySays` | reference-ril.c:1995-2009 | a reply that starts with two numbers has data exactly when a third field is there and not empty |
| `ReadBinary.CollectsHex` | reference-ril.c:2011-2014 | hex texts of pieces accumulate to the hex of their concatenation, within two characters a byte |
| `ReadBinary.PiecesCover` | reference-ril.c:1978-2019 | the pieces from block k on concatenate to the rest of the slice |
| `ReadBinary.ReadsTheSlice` | reference-ril.c:1972-2021 | for every stretch of a file of up to 65536 bytes faithful replies make the request succeed with the hex of exactly that slice and the status words of the last reply |
| `ReadBinary.CollectsDataIff` | reference-ril.c:2006-2014 | without failures the text collected is that of the data fields if and only if no reply without data comes while the text of an earlier one is still designated |
| `ReadBinary.ReturnsDataIff` | reference-ril.c:1972-2021 | with replies no longer than their blocks the request returns the data of its replies under exactly that condition, and then the buffer is large enough |
| `ReadBinary.SuccessIff` | reference-ril.c:1989-2014 | the request succeeds if and only if every response is an answer with a colon and two fields that convert, and every append fits |
| `ReadBinary.NotAnswered` | reference-ril.c:1989-2004 | an error, a line without a colon and a line whose first or second field has no digit or is missing are no answers |
| `ReadBinary.FailedCommandFails` | reference-ril.c:1989-2004 | when the first response that is no answer comes behind faithful replies the request completes with an error, whatever comes later |
| `ReadBinary.SecondReplyStale` | reference-ril.c:2006-2014 | a request of two blocks whose second reply has no data returns the first text twice if that fits and overruns its buffer otherwise |
| `ReadBinary.StaleReplyOverruns` | reference-ril.c:1972-2014 | such an overrun: 256 bytes, a faithful first reply, and two status words |
| `ChatMatcher.DecideMeaning` | chat.c:1423-1537 | the matcher with the whole history succeeds at the first prefix ending in the expect string unless an abort ended an earlier one, else reports the lowest abort, else gives up with the input |
| `ChatMatcher.VerdictUnique` | chat.c:1423-1537 | that description determines verdict and number of characters read |
| `ChatMatcher.WatchedOnlyClears` | chat.c:1450-1466 | waiting only turns report strings into NULLs, and a NULL stays one |
| `ChatMatcher.Gathers` | chat.c:1467-1472 | behind a report the characters of the line are added to it until they do not fit |
| `ChatMatcher.ReportIsFiled` | chat.c:1473-1476 | at the control character that ends the line the report string and the line are written to the report file |
| `ChatMatcher.OverrunIff` | chat.c:1450-1477 | `report_buffer` is overrun during a wait if and only if a report starts, or was under way, and string and line behind it have more than 239 characters together before a control character |
| `ChatWindow.WindowDecides` | chat.c:1479-1495 | a window of enough characters ends in a string exactly when the whole history does |
| `ChatMatcher.ShiftWindow` | chat.c:1510-1520 | the shift keeps the last `minlen` characters and every logged or pending character |
| `ChatMatcher.StoreChar` | chat.c:1428-1441 | one character with its newline and eighty-character flushes keeps flushed spans plus pending span equal to the stream without newlines |
| `ChatMatcher.ScanStream` | chat.c:1392-1538 | for every stream, every expect string of 1 to 1024 characters and aborts of at most 49, the 1024-byte window decides as the unbounded matcher; the report table, the report being gathered and the reports written are those of the whole history; the log accounts for everything read, and on a match or abort nothing is pending |
| `ChatEscapes.PipelineIsInterpreter` | chat.c:694-875 | for all scripts and plain substituted texts, decoding the cleaned text does what the one-pass interpreter does, and the decoder stops on the terminator of `clean` whatever is behind it |
| `ChatEscapes.AgreesIffPlain` | chat.c:694-875 | sending does what the script says and stops at the terminator, for all scripts and all memory behind, if and only if neither phone number nor, with `-E`, any variable a script can name contains a backslash |
| `ChatEscapes.BackslashInNumberRunsOver` | chat.c:781-787 | the shortest case: a number that is a backslash makes the decoder pass its terminator |
| `ChatEscapes.WaitsForWhatIsSent` | chat.c:694-875 | for every script string whose tokens mean the same both ways, `clean(s, 0)` followed by a return is what sending the string writes |
| `ChatEscapes.LetterSent` | chat.c:762-868 | what a backslash and a letter send, by character codes: control characters, delay, pause, break, numbers, nothing, or the letter |
| `ChatEscapes.LetterAwaited` | chat.c:762-868 | what they wait for: `\N` and letters without a meaning here are themselves, `\T` and `\U` stay two characters, `\q` is nothing |
| `ChatEscapes.LetterCoded` | chat.c:762-868 | the intermediate text that they become for sending |
| `ChatEscapes.NothingAwaited` | chat.c:749-755 | a final backslash and an octal NUL wait for nothing |
| `ChatEscapes.OctalSent` | chat.c:838-860 | octal escapes take up to three digits and are cut to a byte |
| `ChatEscapes.CaretSent` | chat.c:712-725 | `^` and a character send the control character of either case; `^@` sends nothing, a final `^` itself |
| `ChatEscapes.VariableSent` | chat.c:727-743 | with `-E` a variable sends and waits for its text, an unknown one nothing |
| `ChatEscapes.StopsIffBalanced` | chat.c:1324-1352 | the decoder stops on the terminator of `clean`, for all scripts and all memory behind, if and only if in no text a script can have substituted a backslash is left dangling |
| `ChatEscapes.CleanIsString` | chat.c:827-859 | `clean(s, 0)` contains no NUL |
| `ChatEscapes.CleanNeverLonger` | chat.c:694-875 | `clean(s, 0)` is never longer than `s` with `-E` off, or when no variable a script can name outgrows `$` and its name |
| `ChatEscapes.NeverLongerIff` | chat.c:694-875 | that condition is exact: it holds if and only if no cleaned string is longer than its source |
| `ChatEscapes.VariableMayBeLonger` | chat.c:727-743 | a small example in which one is |
| `ChatEscapes.BodyFits` | chat.c:701-755 | the text fits the source length plus substituted lengths, and one more only after a lone final backslash |
| `ChatEscapes.ThreeSparesAreNeeded` | chat.c:701 | the three spare characters of the buffer are all used by a lone backslash |
| `ChatEscapes.Grow` | chat.c:265-277 | a larger buffer with the same beginning |
| `ChatEscapes.CleanTurn` | chat.c:712-868 | one turn appends the code of exactly the next token, growing the buffer by what it substitutes, with every write in bounds from written + unread + 3 <= len |
| `ChatEscapes.CleanNext` | chat.c:712-868 | text so far and code of the rest make the same whole after every turn, and the bound holds again |
| `ChatEscapes.Clean` | chat.c:694-875 | a fresh buffer of the predicted size with the intermediate text and its NUL; no write is out of bounds on any input |
| `ChatEscapes.EmitIsPrefix` | chat.c:1291-1307 | a failed write cuts the actions right before a byte and loses nothing else |
| `ChatEscapes.Transmit` | chat.c:1324-1356 | the sending loop emits the decoded actions until a write fails |
| `ChatAborts.ClearRemovesAllIff` | chat.c:1110-1121 | CLR_ABORT removes every occurrence if and only if behind the last one there are at least as many entries as occurrences before it |
| `ChatAborts.DuplicateSurvives` | chat.c:1110-1121 | the smallest table in which a duplicate survives |
| `ChatAborts.ClearRemovesFirst` | chat.c:1110-1124 | the first match always goes; if it is the only one the result is the table without it |
| `ChatAborts.ClearIsStable` | chat.c:1110-1124 | entries other than the string all stay, in order |
| `ChatAborts.ClearAbsent` | chat.c:1110-1124 | a string that is not there changes nothing |
| `ChatAborts.PackArray` | chat.c:1577-1594 | the in-place loop is the stable compaction of the first `end` entries, NULLs behind, the rest untouched |
| `ChatAborts.AbortTable.Add` | chat.c:1075-1094 | appends unless the table is full |
| `ChatAborts.AbortTable.ScanForClear` | chat.c:1110-1121 | the scan under its own falling bound clears what the specification says |
| `ChatAborts.AbortTable.ClearAbort` | chat.c:1096-1125 | scan and compaction leave a packed table with the specified entries |
| `ChatAborts.Declare` | chat.c:1075-1125 | after any sequence of ABORT and CLR_ABORT, entries below `n_aborts` are non-NULL, the others NULL, and the entries are those of the list specification |
| `ChatReports.ClearReportDefinedIff` | chat.c:1147-1176 | CLR_REPORT compares with no NULL if and only if no report has fired, or the string occurs before the first that has at least as often as there are entries from there on |
| `ChatReports.ControlsAre` | chat.c:1468 | the characters that end a report are the codes below 32, and 127 |
| `ChatReports.NoticeStarts` | chat.c:1450-1464 | the first report string seen, wherever it stands, becomes NULL and starts the report |
| `ChatReports.FiredReportBlocksClear` | chat.c:1450-1464 | a single report, once fired, makes every CLR_REPORT undefined |
| `ChatReports.ClearReportOfLive` | chat.c:1147-1176 | while none has fired CLR_REPORT does to its table what CLR_ABORT does to the abort strings |
| `ChatReports.ReportTable.Add` | chat.c:1128-1145 | appends unless the table is full |
| `ChatReports.ReportTable.Watch` | chat.c:1450-1477 | within the window: the lowest report that ends the whole history becomes NULL and is gathered with the line behind it, up to a control character or the end of the buffer |
| `ChatReports.ReportTable.Clear` | chat.c:1160-1178 | scan under the falling bound, compaction behind it, and the stop at a NULL leave the specified entries |
| `ChatSplit.SplitCovers` | chat.c:881-930 | the tokens joined by dashes give back the string, less one unescaped trailing dash |
| `ChatSplit.TokensHaveNoDash` | chat.c:898-925 | no token contains an unescaped dash |
| `ChatSplit.SplitInvertsJoin` | chat.c:881-930 | splitting inverts joining |
| `ChatSplit.StrTok.ToDash` | chat.c:898-920 | the escape-flag loop stops at the first unescaped dash |
| `ChatSplit.StrTok.ExpectStrtok` | chat.c:881-930 | the static cursor yields the next token as a C string, leaves the rest of the text, and writes only inside the string |
| `ChatSplit.StrTok.NextPair` | chat.c:985-993 | the two calls at the top of the loop take the next two tokens of the list |
| `ChatControl.DirectiveRoundTrip` | chat.c:1047-1190 | a keyword followed by its argument acts as the directive and leaves no flag |
| `ChatControl.TakeMeaning` | chat.c:1052-1180 | the directive taken is the first pending one in the order of the tests, it alone is reset, and nothing is taken only when nothing pends |
| `ChatControl.CallsAreDisciplined` | chat.c:400-405 | on entry to `chat_expect` no directive is pending, on entry to `chat_send` exactly the keyword just read, for every script and every call in it |
| `ChatControl.RunIsInterpreter` | chat.c:400-405 | the run with flags is the direct interpreter over pairs of words |
| `ChatControl.DialogueDecides` | chat.c:985-1017 | a dialogue that returns has a reached match or all expects answered; one that ends does so at a reached expect, with that failure's code or as its reply does |
| `ChatControl.DialogueMatches` | chat.c:998-999 | a reached match is where the dialogue returns |
| `ChatControl.DialogueAnswered` | chat.c:1005-1009 | when every expect timed out and was answered the dialogue returns |
| `ChatControl.DialogueReturnsIff` | chat.c:985-1017 | the dialogue returns if and only if some expect matches after all earlier ones timed out and were answered, or all were |
| `ChatScript.AbortCodeIsIndex` | chat.c:1493-1507 | an exit code above 3 minus 4 is the lowest index among the live declarations of an abort that ends what was received |
| `ChatScript.AbortAcceptedIff` | chat.c:1083-1087 | when no variable a script can name outgrows its name, an abort string is accepted exactly when the table has room and it has at most 49 characters |
| `ChatScript.KeywordIff` | chat.c:942-980 | a word is the keyword of a directive exactly when it is its name |
| `ChatScript.SpecialWords` | chat.c:1228-1231 | EOT sends one control character and BREAK one break, without a return |
| `ChatUndefined.UndefinedIff` | chat.c:1052-1190 | the only directive that ends undefined is CLR_REPORT with a short enough string whose scan comes to a report that has fired, and it always does then |
| `ChatUndefined.LostIff` | chat.c:1392-1538 | a wait ends undefined if and only if it reads at all and a report is followed by a line too long for its buffer before the wait is over |
| `ChatUndefined.FiredReportEndsScript` | chat.c:1146-1176 | for every plain word p and short enough s, the script `REPORT p p '' CLR_REPORT s` on a modem that says p ends undefined |
| `ChatUndefined.LongReportEndsScript` | chat.c:1450-1477 | for all plain words p and q, the script `REPORT p p '' q ''` on a modem that says p and then a line ending in q ends undefined if and only if p and the line have more than 239 characters together |
| `ChatScenarios.ExitCodes` | chat.c:1392-1538 | without an overrun a wait with any meaning of its input gives success, or 4 plus the index of the abort string, or 3 when the input falls silent or ends; 1 for a string of more than 1024 characters; an empty one succeeds at once |
| `ChatScenarios.SilenceIsTimeout` | chat.c:1525-1537 | silence first gives exit code 3 |
| `ChatScenarios.ReplyIsSent` | chat.c:985-1017 | for all plain words the script `p-q-r ''` on a modem that is silent and then says r sends q and a return, and goes on |
| `ChatScenarios.AbortEndsScript` | chat.c:1075-1094 | for all plain words the script `ABORT p q ''` on a modem that says p, with no q before, exits with status 4 |
| `ChatScenarios.ClearedAbortIsIgnored` | chat.c:1096-1125 | with `CLR_ABORT p` in between the script goes on when q comes, whatever p the modem has said |
| `ChatScenarios.StringsAreDeclared` | chat.c:1075-1145 | ABORT and REPORT append their string; a table of 50 gives status 2, a string of 50 characters status 1, also for the CLR forms |
| `ChatScenarios.BlankIsDeclared` | chat.c:1075-1094 | `\s` in the string of ABORT declares a blank |
| `ChatScenarios.ReportsAreCleared` | chat.c:1147-1178 | while no report has fired CLR_REPORT does to the report strings what CLR_ABORT does to the abort strings |
| `ChatScenarios.TimeoutIsSet` | chat.c:1178-1190 | TIMEOUT with a decimal int sets it when it is positive and 45 otherwise |
| `ChatScenarios.SwitchesAndSay` | chat.c:1052-1073 | ECHO is on exactly for ON, HANGUP ignores exactly for OFF, SAY writes a plain word and a return |
| `ChatScenarios.WordIsSent` | chat.c:1228-1235 | a plain word is sent as its characters and a return; when they cannot all be written as many as can be are, with status 1 |
| `ChatScenarios.FileIsSent` | chat.c:1196-1225 | `@` and a file name, with or without blanks, send the text of the file less a final newline |
| `ChatScenarios.MissingFileFails` | chat.c:1207-1208 | a file that is not there ends the program with status 1 |
| `ChatEngine.Chat.GetString` | chat.c:1392-1538 | success, exit code, input left and reports are those of the specification, over-long and empty expect strings included; lost when a report outgrows its buffer |
| `ChatEngine.Chat.PutString` | chat.c:1309-1357 | the real two-stage pipeline emits what the interpreter emits |
| `ChatEngine.Chat.DeclareString` | chat.c:1075-1094 | table and exit code after ABORT |
| `ChatEngine.Chat.ClearString` | chat.c:1096-1125 | table and exit code after CLR_ABORT |
| `ChatEngine.Chat.DeclareReport` | chat.c:1128-1145 | table, NULLs included, and exit code after REPORT |
| `ChatEngine.Chat.ForgetReport` | chat.c:1147-1178 | table and exit code after CLR_REPORT, or its end at a report that has fired |
| `ChatEngine.Chat.FileNameOf` | chat.c:1197-1203 | the scan over the blanks behind `@` finds the name |
| `ChatEngine.Chat.ReadFile` | chat.c:1204-1225 | the buffer holds at most 1023 bytes of the file, less a final newline, as a C string |
| `ChatEngine.Chat.SendWord` | chat.c:1193-1235 | `@name`, EOT, BREAK and plain words, with the exits |
| `ChatEngine.Chat.Perform` | chat.c:1052-1190 | each directive block changes exactly what the directive means, or is undefined where CLR_REPORT is |
| `ChatEngine.Chat.TakeDirective` | chat.c:1052-1180 | the first pending flag in the order of the tests, reset |
| `ChatEngine.Chat.ChatSend` | chat.c:1047-1236 | flags and state after `chat_send` |
| `ChatEngine.Chat.RaiseKeyword` | chat.c:942-980 | exactly the eight keywords raise exactly their flag |
| `ChatEngine.Chat.Converse` | chat.c:985-1017 | the loop over the destructive cursor is the dialogue over the token list, and memory outside the string is untouched |
| `ChatEngine.Chat.ChatExpect` | chat.c:936-1018 | flags and state after `chat_expect` |
| `ChatEngine.Chat.RunArguments` | chat.c:400-405 | the argument loop, from a state without flags, ends as the direct interpreter does, with status or undefined |
| `ChatEngine.Chat.DoFile` | chat.c:416-480 | `do_file` ends as the direct interpreter does on the words of the file, with status or undefined, or with status 1 at an unterminated quote |
| `ChatEngine.Chat.DoLine` | chat.c:444-476 | the inner loop makes the calls for the words of its line, in turn, and hands the turn on to the next line |
| `ChatFile.ReadLine` | chat.c:433-436 | `fgets` through a buffer of 1024 characters and the removal of the newline leave the text of the line |
| `ChatFile.ToQuote` | chat.c:452-463 | the scan stops at the closing quote, over escaped characters, or reports an unterminated one |
| `ChatFile.ToBlank` | chat.c:465-469 | the scan stops at the first blank or the end |
| `ChatFile.CutFirstWord` | chat.c:445-472 | the word cut off in place and the text behind it are the first word and the rest of the line |
| `ChatFile.FileReadBack` | chat.c:416-480 | the words of a printed script, quoted or bare, with any blanks, comments, lines of up to 1023 characters and a last line with or without newline, are the words it was made of |
| `ChatFile.BareWordsOfLine` | chat.c:465-472 | bare words end at spaces and tabs |
| `ChatFile.QuotedWordsOfLine` | chat.c:450-463 | words may be enclosed in either quote |
| `ChatFile.CommentSkipped` | chat.c:441-442 | a line that starts with # is skipped |
| `ChatFile.OpenQuoteFails` | chat.c:455-456 | a quote that is not closed ends the program with status 1 |
| `ChatFile.LongWordIsCut` | chat.c:430-433 | lines of 1023 characters are the longest: a bare word of 1024 is read as two words |
| `ChatFile.PrintedScriptRuns` | chat.c:399-480 | a printed script does what the argument loop does on the same words |
| `ChatFile.FileIsInterpreter` | chat.c:444-476 | the calls with flags for the words of a file are the direct interpreter |

## Left out

- UsimDecodeEfStatusData: requires a block on which the loop ends inside the block (`HaltsAfter`); `TemplateDecodes` shows this for every template of at most 255 bytes, `TerminatesIffAtMost255` that longer ones loop.
- ConvertUSimFcp: the same hypothesis; `malloc` never fails.
- RequestReadBinary: the command is a record, not its `%d` text; P2 is a byte and P3 is not negative; behind an overrun nothing is said.
- RegistrationState: the fourth result, the `AT^SYSINFO` query and the sending of the command are not modelled.
- RunArguments: the argument strings must not share memory.
- ReportTable.Watch: `report_buffer` is a string with its bound, not an array; the time stamp is only its length; the reading loop goes on behind an overrun, but the wait ends undefined whatever it reads.
- ForgetReport: behind a comparison with NULL nothing is said.
- EveryScheduleWakes: speaks of runs of the workers under way; `EveryRunWakes` is about all runs.
- TerminatesIffAtMost255: speaks of well-formed templates only; `ShortBlockLoops` shows one of four bytes that is not and loops.
- Verbose and stderr output other than the spans of received text, `\q` (it only hides a log line), `fail_reason`, message formatting, syslog.
- Terminal set-up, signals, `alarm` as a clock, the masking to seven bits in `get_char`, the duration of pauses and breaks.
- `getenv`: the NUL that `clean` writes behind a variable name and takes back (chat.c:733-736); the environment is a map.
- `fopen`, `fread` and `realloc` failures other than a missing `@name` file; ownership and `free`.
- `callFromCLCCLine` and `requestGetCurrentCalls`: another client of the tokenizer theorem, whose dispatch is commented out.
- The other request handlers, `onRequest` dispatch, card-status tables, `misc.c`: table lookups and one-branch facts. Not every handler completes its request exactly once, so no such claim is made.
- `atchannel.c` is not part of this model: its replies are arbitrary.
- USB discovery and socket opening in `mainLoop`, `pppd.c`, `ip-up.c`, `ip-down.c`, `usb_find.c`.
