# SMS forwarder: model and proofs

The firmware reads text messages from a 4G modem over a UART, puts long messages together,
publishes every message over MQTT and keeps what cannot be published in flash. This project models
the parts of it that hold state and proves what they keep, for every input and every run. The C
code that works in place on a buffer is a class with an array and the same loops here; each such
method is proved to refine a step of a state machine or to compute a function of the text, and the
results are about those.

| Files | What they model |
|---|---|
| `SmsStream`, `AtTasks`, `AtAnswers`, `AtRecovery`, `AtReceiver` | the 4096-byte receive buffer shared by the UART task and the AT task: the URC filter, the `+CMT:` blocks, the event bits, the clearing of command data, the answer to a command, the recovery delay |
| `CmtParser`, `Ucs2`, `Utf8` | from a `+CMT:` block to sender and digits, and from UCS2 digits to UTF-8 |
| `Reassembly`, `SmsJoining`, `FragmentBuffer`, `AtMessages` | long messages in parts; from the modem's reports to queued messages |
| `SmsStorage`, `SmsProcessor`, `SmsTask` | the store of numbered slots, the retry slot, publish / retry / persist |
| `DtuFraming`, `DtuParser`, `Fingerprint`, `DtuDedup`, `DtuTask` | the DTU firmware's path: lines off the wire, their hexadecimal text, suppression of repeats |
| `LogText`, `LogLines`, `RemoteLog` | the log forwarder: lines cleaned in place, batched as JSON in a fixed buffer, read back |
| `Text`, `CStrings`, `Hex`, `Words`, `Options`, `Sequences`, `Messages` | `strstr`, NUL-terminated buffers, digits, 32-bit words, concatenation, the message record |

Bytes are Dafny `char`s and C strings are `string`s without NUL. What the environment decides is an
input of each step: how the stream is cut into chunks, which task runs next, whether the broker is
connected and accepts a message, whether a queue has room, which storage call fails, what the clock
says. A run is any sequence of steps.

## How the layers fit

- *Receive.* A state of `AtTasks` is the buffer's text, the event bits, where the AT task stands,
  the blocks handed to the parser and everything received. A step is one mutex section or one
  wait, so that a sequence of steps is an interleaving of the two tasks. `AtReceiver.Receiver`
  keeps `Abs() == After(steps)`: its memmoves, copies and searches compute the machine's functions.
  The filter commutes with appending (`FilterAppend`), a drain commutes with what arrives later
  (`DrainKeepsBlocks`), and delivery is therefore a function of the whole stream alone
  (`RunDelivers`). `AtReceiver.EndToEnd` goes on through the parser to the reassembly, and
  `AtMessages.EndToEnd` through reassembly and decoding to the queued messages.
- *Reassembly.* `Reassembly.Run` is the state machine; `FragmentBuffer.Buffer` holds its two
  character arrays and keeps `Run(Idle, events) == (state, outs)`.
- *Persist.* `SmsStorage` gives each operation over slots and count with a fault at any call, and
  its refinement of a bounded queue. `SmsProcessor` is the task's loop over it, `SmsTask` its code.
- *DTU.* `DtuFraming` cuts lines, `DtuParser` and its printer are inverse to each other, and the
  ring of fingerprints is the last eight entries of a history. `DtuTask.Link` joins the three, and
  its `EndToEnd` goes from the wire to the queue.
- *Log.* `RemoteLog.Forwarder` keeps `batch[..len] == Render(head, pending)`; `LogText` has an
  independent reader of JSON strings, numbers and the batch's shape (RFC 8259) that accepts UTF-8
  only, and reading is proved inverse to the escaping printer.

## Where the code differs from what it is meant to do

Each of these is proved, with the exact condition under which the code does what is meant.

- **Clearing command data** (`main/uart_at_manager.c:313-326`) is meant to keep an SMS report that
  is still arriving. Text without a complete `+CMT:` mark is discarded even when it is the start of
  a report's header, and text before a mark on its own line is cut off, which can turn a line that
  would have been deleted into a report. `SmsStream.ClearSafety`: no delivery can change exactly
  when `ClearIsSafe` holds: the buffer stops at a line end, or what precedes the first mark on its
  line is not an unrelated URC.
- **An empty line between header and content** is taken for the content
  (`AtTasks.EmptyLineTakenForContent`), and the parser refuses the empty message
  (`CmtParser.EmptyContentRefused`). A report arrives
  intact exactly when the first line after its header that the filter keeps is its content
  (`AtTasks.ReportIntact`).
- **A last part that happens to be 612, 608, 268 or 264 digits long** does not complete its message;
  it waits for the timeout or for other parts of that sender (`Reassembly.DeliveredByOwnParts`).
- **A delete whose erase succeeds and whose count write fails** (`main/sms_storage.c:198-213`) leaves
  a counted slot empty, in exactly that case (`DeleteKeepsWellFormed`, `HoleExample`). No operation
  fills it again if it is above slot 0 (`HoleStays`). A hole in slot 0 could be filled by a delete
  (`FirstHoleFilled`, exactly when: `FirstHoleKept`), but the task deletes only what it has found in
  slot 0, so that nothing stored is ever found (`HoleForever`). Otherwise the drain loop with a
  working broker publishes stored messages again without end (`DrainNeverEnds`).
- **The drain loop ignores the result of delete_oldest** (`main/sms_processor.c:58`). A round whose
  delete does not write the smaller count publishes a message that stays stored, and with deletes
  that never do the loop does not end, on a sound store too (`UndeletedForever`). It ends if and
  only if the counts and the faults alone bring the count to zero, or empty slot 0 as the last
  (`DrainEnds`); every round that leaves the count costs one repeated publication (`DrainProgress`).
- **A log batch is JSON of its own lines** if and only if device and phone have no quote,
  backslash or control character and are UTF-8, no tag has a control character, and every line is
  UTF-8 (`LogText.ReadBatchText`): names and tags are printed without escaping, and text is cut at
  255 bytes wherever that falls. The cut keeps UTF-8 exactly when it ends at a character
  (`RemoteLog.CutKeepsUtf8`, `CutSplits`), and removing colours never breaks it
  (`LogLines.StripKeepsUtf8`).
- **A sender is shown whole** if and only if it has 1 to 16 code units, none of them NUL, and all but
  the last take at most 27 bytes; otherwise it is cut or becomes UNKNOWN (`CmtParser.SenderWhole`).
- **An old OK is taken for the answer to a command.** at_send_command clears its response bits
  after the section that clears the text (`main/uart_at_manager.c:360-367`). An OK that arrives in
  between stays in the text, and the next chunk, the command's echo for one, is reported as OK
  (`AtAnswers.StaleAnswer`). For chunks that fit the buffer: if the text says OK when the bits are
  cleared, OK is reported exactly when anything arrives; if not, exactly when what arrives brings
  the text an OK (`AtAnswers.CommandAnswer`). So the OK reported is a new one exactly when the text
  says none at that moment (`AtAnswers.EchoReported`).
- **Leaving the recovery delay** can leave a complete report in the buffer, by the loop's guard
  (`AtRecovery.GuardLeavesPending`) and after a wait that is not woken (`WaitLeavesPending`). That is
  so exactly when the chunks since its last drain or wait complete a report
  (`AtRecovery.LeftPending`, `LastChunksLeavePending`). The wake-up is then pending too
  (`AtReceiver.Receiver.WaitForRecovery`), and the next section drains the report.
- **A short SMS of the same sender** that comes within 30 s of a pending part is joined to it as its
  end (`SmsJoining.ShortSmsJoined`): the concatenation header is not read. Messages hold parts of
  one SMS only exactly when every fragment that is joined belongs to the SMS of the fragment before
  it (`SmsJoining.UnmixedExactly`).
- **A long SMS is split** into several messages by a fragment of another sender, a part that comes
  late or one that finds no room (`SmsJoining.OtherSenderSplits`). Every SMS comes out whole and alone
  exactly when each fragment is joined if and only if parts of its SMS came before it, the last of
  them just before it (`SmsJoining.WholeExactly`).
- **A message read again and again** is meant to stay suppressed, since every read refreshes its
  entry (comment at `main/uart_dtu_manager.c:220`). The ring evicts by order of acceptance, though:
  read at least once in every window, it stays suppressed exactly until eight others have been
  accepted (`DtuDedup.ReadAgain`, `DtuTask.EightOthersEvict`).
- The repository's README promises up to 3 retries; the code makes 3 attempts, the first included.
  Retries are `main/sms_processor.c:44`'s 3 attempts here.
- The repository's README gives about 4 to 5 parts as the limit of a long message; the buffer holds
  up to 7 (`RunBounded`).

## Model

| member | source | states |
|---|---|---|
| SmsStream.FilterAppend | main/uart_at_manager.c:175-214 | filtering what has arrived and filtering again after more arrives is filtering the whole: filter(filter(a) + b) = filter(a + b) |
| SmsStream.FilterSplit | main/uart_at_manager.c:175-214 | the filter acts line by line: it splits at every line end |
| SmsStream.FilterIdempotent | main/uart_at_manager.c:175-214 | a filtered buffer is left alone |
| SmsStream.DrainKeepsBlocks | main/uart_at_manager.c:286-298 | blocks drained now and blocks completed later are, together and in order, the blocks of the text without the drain; what is left is still filtered |
| SmsStream.ReportBlock | main/uart_at_manager.c:811-819 | a header line and the next line form one block, whole |
| SmsStream.UnmarkedLines | main/uart_at_manager.c:811-852 | complete lines without `+CMT:` add no block and hide none |
| SmsStream.ClearHarmless | main/uart_at_manager.c:313-326 | a safe clear changes no delivery, whatever arrives later |
| SmsStream.UnmarkedClearHarmful | main/uart_at_manager.c:322-325 | an unsafe clear without a mark: a continuation whose deliveries differ |
| SmsStream.MarkedClearHarmful | main/uart_at_manager.c:316-321 | an unsafe clear with a mark: a continuation whose deliveries differ |
| SmsStream.ClearSafety | main/uart_at_manager.c:313-326 | clearing never changes a delivery if and only if the buffer meets `ClearIsSafe` |
| AtTasks.NoLostWakeup | main/uart_at_manager.c:229-242 | in every interleaving a complete block in the buffer has the event bit set or the AT task about to drain; the text is filtered and leaves room for its NUL |
| AtTasks.NoSpuriousWakeup | main/uart_at_manager.c:229-242 | in every interleaving, overflows and clears included, a set URC bit means that a complete block is in the buffer |
| AtTasks.AcceptFits | main/uart_at_manager.c:136-170 | a chunk that fits in 4096 bytes is appended whole; one that does not is appended to the text from the first `+CMT:` on, as far as it fits; the index stays below the buffer size |
| AtTasks.RunDelivers | main/uart_at_manager.c:136-214 | after every run in which only buffers that may be cleared were cleared, by commands or to make room, blocks handed over and blocks any continuation will yield are those of the filtered whole stream |
| AtTasks.LinesFiltered | main/uart_at_manager.c:177-203 | line by line: `^` lines and `+` lines are deleted, except those that start with `+CMT:`, `+CME ERROR:` or `+CMS ERROR:`; all others are kept |
| AtTasks.UnrelatedRemoved | main/uart_at_manager.c:178-183 | the filter's test finds exactly those lines |
| AtTasks.ChunkingIndependence | main/uart_at_manager.c:286-305 | neither chunks nor task switches change what is delivered: handed over plus buffered = blocks of the filtered stream |
| AtTasks.QuietMeansDelivered | main/uart_at_manager.c:786-798 | an idle AT task with a clear event bit has handed over every complete block received so far |
| AtTasks.WakeupDelivers | main/uart_at_manager.c:787-798 | a pending block wakes the task; the drain that follows, whatever chunks arrive in between, leaves nothing complete, and all that was received has been handed over |
| AtAnswers.AnswerSince | main/uart_at_manager.c:216-227 | over every run: the OK bit is set if and only if, since the bits were last cleared, a chunk left a text that says OK; the ERROR bit for an error or prompt and no OK |
| AtAnswers.AnswerTexts | main/uart_at_manager.c:216-227 | a text says OK if `OK\r\n` occurs in it; it says error if that does not and `ERROR\r\n`, `+CME ERROR:`, `+CMS ERROR:` or the prompt does |
| AtAnswers.OpenedSaysOk | main/uart_at_manager.c:360-365 | the section that opens a command leaves a text that says OK if and only if the header of a report still arriving ends in OK, before anything else arrives |
| AtAnswers.SectionLeaves | main/uart_at_manager.c:313-326 | either section of a command hands over every complete block and leaves of the rest exactly the text from the first `+CMT:` on |
| AtAnswers.OkStays | main/uart_at_manager.c:216-221 | a text that says OK goes on saying so, whatever arrives and is filtered |
| AtAnswers.AnswerExact | main/uart_at_manager.c:367-376 | for chunks that fit: if the text says OK when the bits are cleared, OK is reported if and only if anything arrives; if not, if and only if what arrives brings the text an OK |
| AtAnswers.CommandAnswer | main/uart_at_manager.c:360-376 | the same from the section that opens a command on: the text at the clearing of the bits is the cleared rest and what arrived since, filtered, and an OK in it makes any chunk an OK |
| AtAnswers.EchoReported | main/uart_at_manager.c:216-221 | text without a line feed, an echo, is reported as OK if and only if the text said OK when the bits were cleared |
| AtAnswers.StaleAnswer | main/uart_at_manager.c:365-376 | a run: an OK before the clearing of the bits, one character after it, and OK is reported |
| AtRecovery.LeftPending | main/uart_at_manager.c:328-345 | the recovery delay, left by its guard or by a wait that is not woken, ends with a complete report in the buffer if and only if the chunks since its last drain or wait leave one; once it has waited, that drain or wait left none |
| AtRecovery.LastChunksLeavePending | main/uart_at_manager.c:328-345 | for chunks that fit, however cut: one is pending if and only if the text left by the last drain or wait and what arrived since hold one when filtered |
| AtRecovery.GuardLeavesPending | main/uart_at_manager.c:331-344 | a run of one woken turn: the first report is handed over, the second stays with its wake-up pending |
| AtRecovery.WaitLeavesPending | main/uart_at_manager.c:341-345 | a run whose wait is not woken: a report that arrives before the return stays with its wake-up pending |
| AtTasks.ReportIntact | main/uart_at_manager.c:807-848 | a report reaches the parser byte for byte if and only if the first line kept after its header is its content |
| AtTasks.EmptyLineTakenForContent | main/uart_at_manager.c:815-819 | an empty line after the header becomes the content of its block |
| AtTasks.ItemsBecomeBlocks | main/uart_at_manager.c:175-214 | modem output of reports, `^` and `+` lines other than `+CMT:`, `+CME ERROR:` and `+CMS ERROR:` anywhere in and between them, and other lines without a mark yields exactly the reports, once and in order |
| AtTasks.EveryReportDelivered | main/uart_at_manager.c:807-848 | the same over every undisturbed run of both tasks |
| AtReceiver.Receiver.constructor | main/uart_at_manager.c:120-128 | an empty buffer, and a history with no steps |
| AtReceiver.Receiver.StrStr | main/uart_at_manager.c:276-283 | the offset returned is where the pattern first occurs at or after the start, or -1 if it occurs nowhere |
| AtReceiver.Receiver.CutOut | main/uart_at_manager.c:286-298 | memmove and index together remove exactly a stretch of the text |
| AtReceiver.Receiver.FilterUrcs | main/uart_at_manager.c:173-214 | the in-place clean-up loop computes the filter of the buffer's text |
| AtReceiver.Receiver.FilterOneLine | main/uart_at_manager.c:177-213 | one round keeps or removes one line; filtered front and filtered rest stay those of the whole |
| AtReceiver.Receiver.MakeRoom | main/uart_at_manager.c:137-154 | what precedes the first mark is dropped, everything if there is none |
| AtReceiver.Receiver.Store | main/uart_at_manager.c:136-170 | a chunk is appended, after making room, cut if it still does not fit; terminator and index bound are kept |
| AtReceiver.Receiver.HasCompleteUrc | main/uart_at_manager.c:276-284 | true exactly when the text has a complete block |
| AtReceiver.Receiver.OnUartData | main/uart_at_manager.c:132-246 | the UART_DATA case is the machine's step: new text, event bits and history |
| AtReceiver.Receiver.ReceiveAll | main/uart_at_manager.c:130-248 | chunks that come one after the other are as many steps of the UART task |
| AtReceiver.Receiver.WaitForUrc | main/uart_at_manager.c:787-798 | a wait returns woken exactly when the bit was set, and consumes it |
| AtReceiver.Receiver.HandleUrc | main/uart_at_manager.c:807-852 | the first complete block, and no other text, goes to the parser; the length returned is its end |
| AtReceiver.Receiver.Deliver | main/uart_at_manager.c:825-842 | the block's fragment reaches the reassembly, which keeps its record of all fragments |
| AtReceiver.Receiver.ProcessPendingLocked | main/uart_at_manager.c:286-305 | all complete blocks are handed over in order, the rest stays, the bit says whether a block is left |
| AtReceiver.Receiver.ProcessPending | main/uart_at_manager.c:307-311 | a drain by the AT task is the machine's drain step |
| AtReceiver.Receiver.ClearCommandData | main/uart_at_manager.c:313-326 | the text from the first mark on is kept, nothing if there is none |
| AtReceiver.Receiver.DrainAndClear | main/uart_at_manager.c:363-364 | a section drains, then clears: the text is the cleared rest, all complete blocks are handed over, the bit says whether one is left |
| AtReceiver.Receiver.OpenCommandSection | main/uart_at_manager.c:360-365 | the section before a command is the machine's step |
| AtReceiver.Receiver.TakeAnswer | main/uart_at_manager.c:367-376 | the response bits are read and cleared |
| AtReceiver.Receiver.CloseCommandSection | main/uart_at_manager.c:378-383 | the section after it copies the text, cut to the caller's buffer, then drains and clears |
| AtReceiver.Receiver.SendCommand | main/uart_at_manager.c:357-402 | the whole exchange, with chunks between any two of its steps: OK is reported if and only if, since the bits were cleared, a chunk left a text that says OK; the response is the text just before the closing section |
| AtReceiver.Receiver.WaitForRecovery | main/uart_at_manager.c:328-345 | with chunks between any two steps, both exits, and chunks before the return: the history is the delay's run, which says what is left pending, the task is idle, and a pending block has its wake-up |
| AtReceiver.Receiver.RecoveryTurn | main/uart_at_manager.c:331-344 | one turn: a wait, and a drain exactly when it was woken |
| AtReceiver.Receiver.MainLoopPass | main/uart_at_manager.c:786-804 | one pass of the main loop: a wait, a drain if it was woken, and the check of the fragment timeout |
| AtReceiver.PrintsParse | main/uart_at_manager.c:419-521 | the blocks of printed reports, whatever their senders, parse to the fragments the modem meant, in order |
| AtReceiver.EndToEnd | main/uart_at_manager.c:807-852 | for the in-place code: once drained, every fragment of every report has reached the reassembly exactly once, in order, and is delivered, refused, dropped or pending |
| AtMessages.EndToEnd | main/uart_at_manager.c:786-852 | for the in-place code, with timeout checks anywhere, after the last SMS too: the fragments of the SMS are those the modem reported, and each SMS has become one queued message with the sender shown and all its parts decoded, in order; nothing is pending |
| CmtParser.ParseInto | main/uart_at_manager.c:419-521 | the parser's searches and copies compute `Parse` of the block |
| CmtParser.SenderText | main/uart_at_manager.c:419-521 | the sender is the decoded text between the first two quotes, UNKNOWN when empty or too long |
| CmtParser.SenderWhole | main/uart_at_manager.c:437-459 | the sender is shown whole if and only if it has 1 to 16 units, none NUL, and all but the last take at most 27 bytes |
| CmtParser.UnknownSender | main/uart_at_manager.c:437-459 | no sender, or one of more than 16 units, is shown as `UNKNOWN`; a header without quotes has an empty one |
| CmtParser.TrimsBreaks | main/uart_at_manager.c:471-474 | line breaks at the end of a content are cut off, nothing else |
| CmtParser.UnendedContent | main/uart_at_manager.c:461-474 | a content whose line is not ended is read to the end of the text |
| CmtParser.ParsePrint | main/uart_at_manager.c:419-521 | every printed report parses to its content and its sender as shown |
| CmtParser.HeaderContentParse | main/uart_at_manager.c:419-521 | the content is the line after the header |
| CmtParser.EmptyContentRefused | main/uart_at_manager.c:419-521 | a block with an empty content line is refused |
| CmtParser.HexContent | main/uart_at_manager.c:175-214 | hexadecimal content is never removed by the filter, shortened by trimming or mistaken for a mark |
| Ucs2.DecodeInto | main/uart_at_manager.c:866-909 | the loop over digits writes exactly `Decode` of them and a NUL within the buffer |
| Ucs2.WriteUnit | main/uart_at_manager.c:885-905 | one unit is appended as one, two or three bytes |
| Ucs2.RoundTrip | main/uart_at_manager.c:866-909 | the bytes are whole encodings of a longest prefix of the units, read back to it, end at size - 2 or before, and are valid UTF-8 if and only if no unit taken is a surrogate |
| Ucs2.TakenIsMaximal | main/uart_at_manager.c:872 | decoding stops only when all is taken or at most four bytes are left |
| Ucs2.TakesAll | main/uart_at_manager.c:872 | a text is decoded whole if and only if all of it but the last unit leaves more than four bytes |
| Ucs2.UnitsConcat | main/uart_at_manager.c:872-883 | texts of whole groups decode to the concatenation of their units |
| Ucs2.UnitsOfPrint | main/uart_at_manager.c:872-883 | reading the digits of printed units gives the units |
| Ucs2.UnitsStop | main/uart_at_manager.c:872-883 | decoding stops at the first group with a character that is no digit, and at a group cut short |
| Ucs2.DecodeExample | main/uart_at_manager.c:866-909 | digits and bytes of two Chinese characters, of a letter and of an accented one |
| Hex.HexDigits | main/uart_at_manager.c:855-864 | the hexadecimal digits in either case and their values, and no other character |
| Utf8.DecodeEncode | main/uart_at_manager.c:885-905 | reading back what was encoded gives the code units |
| Utf8.EncodedValid | main/uart_at_manager.c:885-905 | the encoding is valid UTF-8 (RFC 3629, section 4) if and only if no unit is a surrogate |
| Utf8.BoundaryIsLongest | main/uart_dtu_manager.c:116-137 | the start of the character cut at n ends the longest valid prefix of at most n bytes |
| Reassembly.Conservation | main/uart_at_manager.c:1001-1104 | over every run: fragments delivered, refused or dropped, then those pending, are all fragments exactly once, in order, each under its sender |
| Reassembly.TakeKeepsFragments | main/uart_at_manager.c:1019-1101 | one call accounts for its fragment and for all that was pending |
| Reassembly.RunBounded | main/uart_at_manager.c:1046-1071 | every pending buffer has 1 to 7 full parts, a multiple of 4 and at most 2044 digits; every joined message at most 2046 |
| Reassembly.DecodingCommutes | main/uart_at_manager.c:1064-1071 | decoding the joined parts is joining the decoded parts; nothing is cut; at most 1533 bytes |
| Reassembly.NothingStale | main/uart_at_manager.c:786-804 | after every run and a timeout check, what is pending got its newest part at most 30 s before |
| Reassembly.PartLengths | main/uart_at_manager.c:53-59 | the lengths of a part that is not last are exactly those of 140 bytes less a header of 6 or 7 bytes, filled with 7-bit or 16-bit characters: 612, 608, 268 and 264 digits |
| Reassembly.TwoParts | main/uart_at_manager.c:1001-1104 | a part of such a length and a last part are one message if they come at most 3000 ticks apart, and two otherwise |
| Reassembly.PollFlushes | main/uart_at_manager.c:800-803 | a timeout check lets parts wait for 3000 ticks and no longer, and delivers them unless the queue is full |
| Reassembly.CarriedSms | main/uart_at_manager.c:1019-1075 | parts in time complete their message, unless the last has the length of a part that is not last |
| Reassembly.DeliveredByOwnParts | main/uart_at_manager.c:1058-1075 | an SMS is delivered by its own last part, whole and alone, if and only if that part's length is not 612, 608, 268 or 264 |
| Reassembly.TrafficDelivered | main/uart_at_manager.c:1001-1104 | SMS after SMS, each comes out as one message of exactly its parts, in order |
| Reassembly.TrafficArrivals | main/uart_at_manager.c:1001-1104 | the fragments that arrive in such traffic are those of its SMS, in order |
| SmsJoining.ArrivalStep | main/uart_at_manager.c:1019-1101 | a fragment is joined if and only if its sender's parts are pending, in time and with room; otherwise what is pending leaves and it starts anew, or is dropped for want of room |
| SmsJoining.UnmixedExactly | main/uart_at_manager.c:1001-1104 | over every run: messages and pending parts hold parts of one SMS only if and only if every joined fragment belongs to the SMS of the fragment before it |
| SmsJoining.WholeExactly | main/uart_at_manager.c:1001-1104 | over every run: each message, and what is pending, holds all parts of one SMS that arrived and no others if and only if every fragment is joined exactly when parts of its SMS came before, and then just before it |
| SmsJoining.OtherSenderSplits | main/uart_at_manager.c:1087-1101 | a fragment of another sender between two parts makes two messages of one SMS |
| SmsJoining.ShortSmsJoined | main/uart_at_manager.c:1043-1075 | a short SMS of the same sender completes another's pending part: one message of two SMS |
| FragmentBuffer.Buffer.constructor | main/uart_at_manager.c:951-955 | an empty buffer and an empty history |
| FragmentBuffer.Buffer.IsTimeout | main/uart_at_manager.c:928-946 | true exactly when the pending parts are older than 30 s |
| FragmentBuffer.Buffer.AssembleStored | main/uart_at_manager.c:972-975 | the stored sender and the decoded joined parts make the message |
| FragmentBuffer.Buffer.ClearFields | main/uart_at_manager.c:951-955 | nothing is pending; the history is untouched |
| FragmentBuffer.Buffer.Flush | main/uart_at_manager.c:964-988 | the pending parts leave as one message, delivered or refused by a full queue |
| FragmentBuffer.Buffer.ProcessFragment | main/uart_at_manager.c:1001-1104 | the in-place code takes the machine's step; status and message are those of the completed SMS |
| FragmentBuffer.Buffer.Start | main/uart_at_manager.c:1019-1041 | the branch for an empty buffer: a full part is kept, anything else is a whole message |
| FragmentBuffer.Buffer.Accumulate | main/uart_at_manager.c:1044-1086 | the branch for one more part of the same sender, overflow included |
| FragmentBuffer.Buffer.ProcessAndSend | main/uart_at_manager.c:826-842 | a completed message is sent after what was flushed |
| FragmentBuffer.Buffer.OnFragment | main/uart_at_manager.c:826-842 | a fragment from the parser is an arrival of the run |
| FragmentBuffer.Buffer.OnPoll | main/uart_at_manager.c:800-803 | the timeout check of the main loop is a poll of the run |
| FragmentBuffer.Buffer.Accounted | main/uart_at_manager.c:1001-1104 | for the in-place code: every fragment is accounted for, the queue received the delivered ones, every message fits |
| SmsStorage.SaveRefines | main/sms_storage.c:24-92 | with working storage, save appends, and refuses exactly at 20 messages |
| SmsStorage.GetNextRefines | main/sms_storage.c:94-145 | get_next is the first message, get_count the length |
| SmsStorage.StoreLimit | main/sms_storage.c:24-145 | twenty messages are the limit; whatever fails, a save succeeds exactly when none of its calls fails and there is room, and then the message is the newest; a found message is the one in slot 0 |
| SmsStorage.DeleteRefines | main/sms_storage.c:147-226 | delete_oldest drops the first message |
| SmsStorage.ShiftShape | main/sms_storage.c:172-196 | the shift loop moves a number of slots down by one, leaves the others, and stops only at a failed or missing read or a failed write |
| SmsStorage.InterruptedDelete | main/sms_storage.c:172-196 | stopped after k slots it leaves m[1..k+1] + m[k..]: no message but perhaps the first is lost, in order |
| SmsStorage.ShiftCompletes | main/sms_storage.c:172-196 | the shift moves every slot if and only if all its reads and writes succeed |
| SmsStorage.DeleteOutcome | main/sms_storage.c:147-226 | every delete, whatever fails: the first message and its count are gone; or the last counted slot is empty; or the count stays and the store holds m[1..k+1] + m[k..] for some k |
| SmsStorage.DeleteKeepsWellFormed | main/sms_storage.c:147-226 | a delete from n messages keeps every counted slot filled unless its first 2n + 1 calls succeed and the next, the write of the count, fails |
| SmsStorage.DeleteCount | main/sms_storage.c:205-220 | the count falls by one if and only if the shift succeeds and the smaller count is written and stays |
| SmsStorage.HoleExample | main/sms_storage.c:198-213 | a store of two messages and a fault that empty slot 1 while 2 are counted |
| SmsStorage.SaveKeepsWellFormed | main/sms_storage.c:24-92 | a save does so whatever fails |
| SmsStorage.DeleteLosesOnlyFirst | main/sms_storage.c:147-226 | whatever fails, a delete loses at most one copy of the message in slot 0 |
| SmsStorage.SaveKeepsStored | main/sms_storage.c:24-92 | whatever fails, a save keeps what is stored, and stores its message if it reports success |
| SmsStorage.StoredIsContents | main/sms_storage.c:228-259 | the copies counted in the slots are those of the sequence |
| SmsStorage.HoleAppears | main/sms_storage.c:198-213 | an erase without a new count empties the last counted slot |
| SmsStorage.HoleStays | main/sms_storage.c:24-226 | no later save fills that slot, and unless it is slot 0 no delete does, whatever fails or succeeds |
| SmsStorage.FirstHoleKept | main/sms_storage.c:147-226 | a delete keeps a hole in slot 0 if and only if it fails before it moves or counts anything, has nothing to move down, or is reverted |
| SmsStorage.FirstHoleFilled | main/sms_storage.c:172-196 | a working delete with slot 0 empty and slot 1 filled moves that message into slot 0 |
| SmsProcessor.NothingUnaccounted | main/sms_processor.c:48-158 | over every run and every storage fault: each message is published, to be retried, stored or logged as lost, as often as it was taken |
| SmsProcessor.RunExact | main/sms_processor.c:48-158 | with working storage exactly as often; stored messages leave in the order they were saved; at most 2 failed attempts wait in the slot |
| SmsProcessor.LostOnlyWhenFull | main/sms_storage.c:50-55 | a message is lost only while 20 are stored |
| SmsProcessor.ReceiptPublished | main/sms_processor.c:137-142 | after every run: a message received with the slot free, connected and accepted, is published at once, and nothing else changes |
| SmsProcessor.RetryPublished | main/sms_processor.c:69-77 | a due check that is connected and accepted publishes the slot's message and frees the slot |
| SmsProcessor.NotPublished | main/sms_processor.c:124-157 | offline or refused, a received message takes the free slot, due 1000 ticks later, or is saved or lost if the slot is taken; a check publishes nothing, and before it is due changes nothing |
| SmsProcessor.DrainPublishes | main/sms_processor.c:50-64 | a round of the drain loop publishes exactly the message read from slot 0, when connected and accepted, and deletes it; otherwise it changes nothing |
| SmsProcessor.RetryEdge | main/sms_processor.c:66-77 | a message that found the broker away is published 1000 ticks later and not before |
| SmsProcessor.OnlinePublishesAll | main/sms_processor.c:48-158 | with a broker that accepts everything, every run from an empty store publishes every message once, in the order it came, and nothing is stored, lost or waiting |
| SmsProcessor.PublishedAtMostOnce | main/sms_processor.c:48-158 | none is published more often than it was taken or found stored |
| SmsProcessor.SlotKept | main/sms_processor.c:66-117 | until the next attempt is due, neither drain rounds nor messages from the queue change the slot |
| SmsProcessor.UnsentPersists | main/sms_processor.c:44-157 | an unpublished message gets three attempts, each at least 10 s after the one before, whatever is drained and received in between; then the slot is free, nothing else has changed, and the message is the newest stored or, if 20 are stored then, lost |
| SmsProcessor.DrainProgress | main/sms_processor.c:50-64 | with deletes that fail in any way: after every round the store is as counts and faults alone say, published plus stored has grown by the rounds whose delete left the count, and the loop goes on unless nothing is counted or slot 0 is empty |
| SmsProcessor.DrainEnds | main/sms_processor.c:50-64 | the loop ends if and only if the counts and the faults bring the count to zero or empty slot 0 as the last |
| SmsProcessor.DrainedAllPublished | main/sms_processor.c:50-64 | when it ends with nothing counted, every message stored at the start has been published |
| SmsProcessor.DrainEmptiesStore | main/sms_processor.c:50-64 | with working deletes it ends after as many rounds as messages are stored, all published oldest first |
| SmsProcessor.UndeletedForever | main/sms_processor.c:56-58 | deletes that fail at once keep it publishing without end, from a store with no empty slot |
| SmsProcessor.HoleForever | main/sms_processor.c:50-64 | a hole outlasts every run; in slot 0 it stops every delivery from the store |
| SmsProcessor.DrainNeverEnds | main/sms_processor.c:50-64 | a hole above slot 0 keeps the drain loop publishing without end, whether or not deletes work |
| SmsTask.Storage.SaveSms | main/sms_storage.c:24-92 | the calls in order compute the specified state and result under every fault |
| SmsTask.Storage.Next | main/sms_storage.c:94-145 | likewise get_next |
| SmsTask.Storage.ShiftDown | main/sms_storage.c:172-196 | the loop computes the shift |
| SmsTask.Storage.DeleteFirst | main/sms_storage.c:147-226 | likewise delete_oldest |
| SmsTask.Storage.CountStored | main/sms_storage.c:228-259 | likewise get_count, -1 on failure |
| SmsTask.Task.SaveOrLose | main/sms_processor.c:83-88 | a message is stored, or logged as lost |
| SmsTask.Task.DrainOne | main/sms_processor.c:52-63 | one round is the machine's drain step; the loop goes on exactly when a message was found and published |
| SmsTask.Task.DrainStored | main/sms_processor.c:50-64 | the loop runs only when connected and makes exactly the machine's rounds up to the first without a message or with a failed publish; it says whether it has ended |
| SmsTask.Task.DrainAll | main/sms_processor.c:50-64 | with everything working the loop terminates, having published the whole store in order |
| SmsTask.Task.CheckRetry | main/sms_processor.c:66-117 | the retry check is the machine's step; due, connected and accepted, it publishes the slot's message and frees the slot; otherwise it publishes nothing |
| SmsTask.Task.OnReceived | main/sms_processor.c:119-157 | a message from the queue is the machine's step; with the slot free it is published at once if connected and accepted, and otherwise put into the slot as first attempt, due 1000 ticks later |
| SmsTask.Task.Accounted | main/sms_processor.c:48-158 | for the task's fields: every message is accounted for at any time |
| DtuFraming.LinesAppend | main/uart_dtu_manager.c:68-107 | the newline split of a stream goes on from the tail of any part of it |
| DtuFraming.FramingIndependence | main/uart_dtu_manager.c:68-107 | over every run of reads and timeouts, lines cut out and text buffered are the newline split of all that was read |
| DtuFraming.NothingDropped | main/uart_dtu_manager.c:94-100 | a stream whose lines and tail leave a byte of the 4608 is never thrown away |
| DtuFraming.DropsExactlyLongLines | main/uart_dtu_manager.c:94-100 | for a stream of whole lines, bytes are thrown away if and only if some line is too long |
| DtuFraming.LineReader.constructor | main/uart_dtu_manager.c:31-32 | an empty buffer and an empty history |
| DtuFraming.LineReader.ReadLine | main/uart_dtu_manager.c:68-107 | the in-place code takes exactly the reads up to the first complete line or the deadline; of each read all its bytes, or as many as fill the 4608; it finds a line if and only if a newline was held or read; the line returned is the one cut out, without its CR, never cut in the full-size line buffer |
| DtuFraming.ServedTakes | main/uart_dtu_manager.c:94-105 | the stream of a call grows by exactly what its reads take: all bytes at hand, or as many as fill the buffer |
| DtuFraming.TakesAllThatFits | main/uart_dtu_manager.c:94-105 | while they fit with what is held, that is every byte of the reads made |
| DtuFraming.ChompsOne | main/uart_dtu_manager.c:76-78 | one carriage return at the end of a line is cut off, no other |
| DtuFraming.LineReader.TakeLine | main/uart_dtu_manager.c:71-88 | a line is copied out and exactly the text after it stays |
| DtuFraming.LineReader.CopyLine | main/uart_dtu_manager.c:73-83 | the copy is the line without CR, cut to the given size |
| DtuFraming.LineReader.DropFront | main/uart_dtu_manager.c:84-86 | memmove leaves the text after the newline |
| DtuFraming.LineReader.Fill | main/uart_dtu_manager.c:94-105 | a read appends what fits; a full buffer is thrown away first (how much is taken: ServedTakes) |
| DtuParser.TrimIncompleteTail | main/uart_dtu_manager.c:117-137 | the in-place trim finds the specified length and leaves the bytes before it |
| DtuParser.TrimIsBoundary | main/uart_dtu_manager.c:117-137 | on a cut of valid UTF-8 the trim ends at the start of the character the cut fell into |
| DtuParser.TrimExactly | main/uart_dtu_manager.c:117-137 | on any bytes, a lead byte with fewer continuation bytes after it than it announces is cut off with them, and nothing else is |
| DtuParser.DecodeInto | main/uart_dtu_manager.c:141-166 | the decoder fills its buffer with the decoded text and a NUL, or fails |
| DtuParser.DecodeBytes | main/uart_dtu_manager.c:153-160 | the byte loop succeeds exactly when every digit pair it reads is hexadecimal |
| DtuParser.DecodePrint | main/uart_dtu_manager.c:141-166 | decoding inverts hexadecimal printing of every text that fits |
| DtuParser.DecodePrintCut | main/uart_dtu_manager.c:146-164 | a longer valid text is cut to its longest valid prefix of at most size - 1 bytes |
| DtuParser.PrintDecode | main/uart_dtu_manager.c:141-166 | printing inverts decoding up to the digits' case when nothing was cut |
| DtuParser.DecodeFails | main/uart_dtu_manager.c:141-158 | decoding fails if and only if the input is empty, odd, or has a bad digit among those read |
| DtuParser.ParseLine | main/uart_dtu_manager.c:170-195 | the parser's code computes `Parse` of the line |
| DtuParser.ParsePrint | main/uart_dtu_manager.c:170-195 | every printed message with a sender of 1 to 31 bytes without comma and a content of 1 to 2047 bytes is parsed back exactly |
| DtuParser.ParsePrintCut | main/uart_dtu_manager.c:170-195 | a longer valid content arrives as its longest valid prefix that fits |
| DtuParser.PrintParse | main/uart_dtu_manager.c:170-195 | every line that parses is a printed message, exactly up to the digits' case when nothing was cut |
| Fingerprint.Compute | main/uart_dtu_manager.c:212-218 | the three loops compute the hash of sender, comma, content |
| Fingerprint.TestVectors | main/uart_dtu_manager.c:212-218 | the published values of 32-bit FNV-1a for no byte and for one letter |
| Fingerprint.SerialText | main/uart_dtu_manager.c:212-218 | hashed are sender, comma and content, from the basis 0x811c9dc5 |
| Fingerprint.TimesPrimeInjective | main/uart_dtu_manager.c:214-216 | multiplying by the prime loses nothing modulo 2^32 |
| Fingerprint.AbsorbInjective | main/uart_dtu_manager.c:214-216 | a step is injective in the hash and in the byte |
| Fingerprint.HashSeparates | main/uart_dtu_manager.c:212-218 | texts of one length that differ in exactly one byte never share a hash |
| Fingerprint.SerialInjective | main/uart_dtu_manager.c:175-187 | the hashed text determines a message whose sender has no comma |
| Fingerprint.FingerprintSeparates | main/uart_dtu_manager.c:212-218 | messages whose hashed texts differ in one byte are told apart |
| DtuDedup.DuplicateExactly | main/uart_dtu_manager.c:221-232 | a message is a duplicate if and only if one of the last eight accepted has its fingerprint and was seen within ten minutes |
| DtuDedup.DedupGuarantee | main/uart_dtu_manager.c:199-240 | over every run, equal fingerprints let through are a full window apart since the last sighting, or at least eight other accepted messages lie between them |
| DtuDedup.OneLiveEntry | main/uart_dtu_manager.c:221-240 | after every run at most one unexpired entry per fingerprint is in the ring |
| DtuDedup.WindowEdge | main/uart_dtu_manager.c:221-232 | the same message is let through again from 60000 ticks after it was recorded, not before |
| DtuDedup.DuplicateRefreshes | main/uart_dtu_manager.c:227 | a suppressed message counts as seen |
| DtuDedup.ReadAgain | main/uart_dtu_manager.c:220-240 | a message read at least once in every window and not queued again so far is a duplicate if and only if fewer than eight others have been accepted since it was; otherwise it is queued again if the queue takes it |
| DtuTask.EightOthersEvict | main/uart_dtu_manager.c:235-240 | after eight others the first message gets through again, however soon it is read |
| DtuTask.SevenOthersKeep | main/uart_dtu_manager.c:235-240 | after seven it is still suppressed, within 60000 ticks |
| DtuDedup.Dedup.constructor | main/uart_dtu_manager.c:208-209 | an empty ring is an empty history |
| DtuDedup.Dedup.IsDuplicate | main/uart_dtu_manager.c:221-232 | the scan of the ring decides as the history does, and refreshes the entry it hits |
| DtuDedup.Dedup.Record | main/uart_dtu_manager.c:235-240 | the slot written is the oldest: the ring stays the last eight of the history |
| DtuTask.Receiver.constructor | main/uart_dtu_manager.c:208-209 | nothing queued, nothing arrived |
| DtuTask.Receiver.HandleLine | main/uart_dtu_manager.c:243-267 | a parsed message is queued exactly when it is no duplicate and the queue has room, and only then recorded |
| DtuTask.Receiver.HandleMessage | main/uart_dtu_manager.c:251-266 | the same for the message once parsed |
| DtuTask.Receiver.QueueSpaced | main/uart_dtu_manager.c:243-267 | copies of one message in the queue are a full window or more than eight places apart |
| DtuTask.Link.constructor | main/uart_dtu_manager.c:28-37 | nothing read, nothing queued |
| DtuTask.Link.ServeLine | main/uart_dtu_manager.c:385-388 | one pass of the task's loop handles exactly the line cut off the stream, up to a NUL in it; the messages seen stay those of all lines cut off |
| DtuTask.WireSplits | main/uart_dtu_manager.c:68-107 | reports and other lines on the wire, in any order, split into their lines; exactly the reports parse, to their messages |
| DtuTask.AnswerIgnored | main/uart_dtu_manager.c:168-180 | a line that does not start as a report does, or has no content field, is no message |
| DtuTask.ReportText | main/uart_dtu_manager.c:168-187 | a report is `config,sms,ok,`, the sender, a comma, the content's digits and a line end |
| DtuTask.ReportExample | main/uart_dtu_manager.c:141-195 | a report parsed byte for byte, with digits in either case |
| DtuTask.ReportableSizes | main/uart_dtu_manager.c:181-189 | senders of 1 to 31 bytes without comma, and contents of 1 to 2047 bytes |
| DtuTask.NulEndsLine | main/uart_dtu_manager.c:170-195 | of a line with a NUL only what precedes it is parsed |
| DtuTask.EmptyPollIgnored | main/uart_dtu_manager.c:169 | so the answer `config,sms,ok,0` may come anywhere between reports |
| DtuTask.LinesDelivered | main/uart_dtu_manager.c:68-107 | whatever whole lines come off the wire, in any chunks and with any timeouts: no byte is dropped if and only if all are short, and then exactly the lines sent are cut off |
| DtuTask.WireDelivered | main/uart_dtu_manager.c:68-107 | with other lines anywhere between reports no byte is dropped and the lines cut off hold the messages reported, in order |
| DtuTask.StreamServed | main/uart_dtu_manager.c:383-388 | for the in-place code and any whole short lines: the messages seen are those of the lines that parse, in order, and the queue holds exactly those that were no duplicates and that it took |
| DtuTask.EndToEnd | main/uart_dtu_manager.c:383-394 | from the wire to the queue, for the in-place code, with other lines such as answers to polling anywhere: the messages seen are those reported, once and in order, and the queue holds exactly those that were no duplicates and that it took |
| DtuTask.DistinctAllKept | main/uart_dtu_manager.c:243-267 | with room in the queue, messages of different fingerprints all get through |
| LogLines.StripLine | main/remote_log.c:48-69 | the in-place loops leave exactly the text without control sequences and trailing line breaks |
| LogLines.SkipSequence | main/remote_log.c:53-58 | a control sequence is passed up to and including its final byte |
| LogLines.StripSettles | main/remote_log.c:48-69 | no escape character is left, no trailing line break, and a second pass changes nothing |
| LogLines.ColoursRemoved | main/remote_log.c:48-69 | of a coloured line exactly the text between the colour codes is kept |
| LogLines.ColourCodes | main/remote_log.c:48-69 | the colour codes and line end of ESP-IDF around a text are removed, the text is kept |
| LogLines.SequencesRemoved | main/remote_log.c:50-62 | a sequence ends at its first byte from `@` to `~`; an escape character that starts none is dropped alone, an unfinished sequence to the end |
| LogLines.StripKeepsUtf8 | main/remote_log.c:48-69 | stripping UTF-8 leaves UTF-8 |
| LogLines.ReadPrefix | main/remote_log.c:72-103 | level, tag and time stamp are those of the prefix, with 32-bit wrap-around, or it is refused |
| LogLines.ReadFields | main/remote_log.c:209-221 | the fields printed for a line; what they are: LineTells |
| LogText.DigitsWrap | main/remote_log.c:87-91 | the 32-bit accumulation is the number modulo 2^32 |
| LogText.EscapeLength | main/remote_log.c:180-205 | escaping takes one to six bytes a character |
| LogText.EscapeTexts | main/remote_log.c:183-202 | what each character is escaped to |
| LogText.DecimalExample | main/remote_log.c:226-233 | a number and its decimal digits |
| LogText.EscapedValid | main/remote_log.c:180-205 | an escaped text is UTF-8 if and only if the text is |
| LogText.ReadEscaped | main/remote_log.c:180-205 | a JSON reader gives back exactly the text that was escaped if it is UTF-8, and refuses it otherwise |
| LogText.ReadRaw | main/remote_log.c:239-242 | text without quotes and backslashes printed without escaping is read back if and only if it has no control character and is UTF-8 |
| LogText.ReadName | main/remote_log.c:226-231 | any text printed without escaping is read back as itself if and only if it has no quote, backslash or control character and is UTF-8 |
| LogText.TagValid | main/remote_log.c:209-221 | the tag of a line that is UTF-8 is UTF-8 |
| LogText.ReadLineText | main/remote_log.c:239-257 | a printed line is read back as its fields and its text if and only if its tag has no control character and it is UTF-8; otherwise it is refused |
| LogText.ReadBatchText | main/remote_log.c:226-280 | a flushed batch is read back as its header and its lines, in order, if and only if device and phone may stand in a JSON string as they are and all its lines are readable |
| LogText.ReadsUtf8 | main/remote_log.c:272-286 | what reads as a batch is UTF-8 as a whole (RFC 8259, section 8.1) |
| LogText.TextsAreItems | main/remote_log.c:246-252 | the texts of the lines of a batch are the items put into it |
| LogText.OneLineFits | main/remote_log.c:223-257 | a batch of one item of at most 255 bytes takes at most 2048 bytes |
| RemoteLog.PayloadRead | main/remote_log.c:272-286 | a published payload reads as its own batch if and only if its names are clean and its lines readable; with clean names its lines are read, or none |
| RemoteLog.PayloadText | main/remote_log.c:226-286 | a payload of one line of ESP_LOG, in so many words |
| RemoteLog.PayloadsRead | main/remote_log.c:272-286 | with clean names, reading all published payloads gives in order the items of each batch, or nothing for a batch with an unreadable line |
| RemoteLog.AllCarried | main/remote_log.c:272-286 | if every line is readable, that is every item of every batch |
| RemoteLog.RenderSnoc | main/remote_log.c:226-257 | adding a line to a batch only appends to its text |
| RemoteLog.EveryLineForwarded | main/remote_log.c:337-357 | for the in-place code: batch n carries number n modulo 2^32 and reads as itself if and only if names are clean and its lines readable, and then tells device, phone, number and of every line the fields ESP_LOG printed; with clean names the published batches and the one being filled give the lines of every batch without an unreadable one, and all lines taken from the ring if all are readable |
| RemoteLog.Forwarder.constructor | main/remote_log.c:314-321 | nothing taken, nothing published |
| RemoteLog.Forwarder.Print | main/remote_log.c:226-233 | snprintf appends a text that fits and reports its full length otherwise |
| RemoteLog.Forwarder.PutEscaped | main/remote_log.c:183-202 | one character is escaped, or does not fit with a terminator |
| RemoteLog.Forwarder.EscapeInto | main/remote_log.c:180-205 | escaping fails if and only if the escaped text and its NUL do not fit, and otherwise appends exactly it |
| RemoteLog.Forwarder.Append | main/remote_log.c:207-269 | transactional: a line is added if and only if the batch with it stays below 4093 bytes; a refusal leaves text, length and lines as they were |
| RemoteLog.Forwarder.AppendLine | main/remote_log.c:238-269 | the same from the printed header on |
| RemoteLog.Forwarder.PrintLine | main/remote_log.c:239-260 | head, escaped text and end of a line are printed if and only if they fit together; what was there before is untouched either way |
| RemoteLog.Forwarder.Flush | main/remote_log.c:272-286 | a batch with lines is published closed, the number goes up by one, no line changes place |
| RemoteLog.Forwarder.Forward | main/remote_log.c:338-349 | a line that fits joins the batch and nothing is published; one that does not fit starts the next batch after a flush; it is never lost |
| RemoteLog.Forwarder.StartBatch | main/remote_log.c:338-349 | a line that did not fit starts the next batch once the full one is published closed |
| RemoteLog.Forwarder.FlushIfDue | main/remote_log.c:352-357 | a batch is flushed if and only if it has 40 lines, 3800 bytes or is 2 s old |
| RemoteLog.DueExactly | main/remote_log.c:352-357 | 40 lines, 3800 bytes or two seconds; a batch without lines is never due |
| RemoteLog.Forwarder.Round | main/remote_log.c:324-358 | lines taken plus lines in the ring are conserved; after a connected round a batch is below 40 lines, 3800 bytes and 2 s of age |
| RemoteLog.Forwarder.Offer | main/remote_log.c:128-177 | all text goes to the serial port; the stripped line cut at 255 bytes is queued if it is not the forwarder's own, is wanted and finds room; one that finds no room is counted as dropped |
| RemoteLog.CutKeepsUtf8 | main/remote_log.c:143-153 | cutting UTF-8 at 255 bytes leaves UTF-8 if and only if it is short or the cut ends at a character; then the line queued is UTF-8 |
| RemoteLog.CutSplits | main/remote_log.c:143-153 | a text that the cut splits inside a character |
| LogText.PrefixRead | main/remote_log.c:72-103 | the prefix of every line ESP_LOG prints is read back as its level, tag and time stamp modulo 2^32 |
| LogText.PrefixOnly | main/remote_log.c:72-103 | whatever has a prefix is a line ESP_LOG could have printed |
| LogText.EspLineRead | main/remote_log.c:209-257 | a line of ESP_LOG with a plain tag and UTF-8 text is read back with the level, the tag and the time (modulo 2^32) that were printed, and the whole line |
| LogText.LineTells | main/remote_log.c:209-221 | for every line: level and time as printed, the tag unless it has a quote or backslash; level I, tag raw and time 0 for a line ESP_LOG did not print |
| RemoteLog.Forwarder.IsWanted | main/remote_log.c:161-171 | the code's two tests compute `Wanted` |
| RemoteLog.LevelMonotone | main/remote_log.c:105-115 | raising the level silences no line |
| RemoteLog.WantedLines | main/remote_log.c:161-171 | of the lines ESP_LOG prints, errors, warnings and information are judged by their level alone; debug and verbose lines of the MQTT stack are sent at no level |
| RemoteLog.RawWanted | main/remote_log.c:155-167 | a line ESP_LOG did not print counts as information |

## Left out

- UART driver, FreeRTOS queues, event groups and mutexes, the ESP ring buffer: a chunk, a boolean answer, an atomic section and a sequence stand for them. Messages between the drivers' buffers and this code are not modelled.
- NUL bytes in the AT modem's output: the C string functions stop at them; chunks are NUL-free there. Likewise NUL bytes printed by a log format, and U+0000 in a decoded content, which ends the C string for its consumers.
- AtTasks.RunDelivers: says nothing about runs that clear a buffer which may not be cleared, for a command or to make room, or that cut a chunk; delivery is not promised there, and only the bounds and the wake-up invariants are proved for them.
- AtReceiver.Receiver.WaitForRecovery: the turns that the time allows stand for the clock, as do those of its waits.
- AtReceiver.Receiver.HandleUrc: the NUL written after the block for the parser and taken back is not modelled; the parser gets the block's text.
- AtReceiver.Receiver.SendCommand: the bytes written to the modem, and whether a command without OK failed or timed out, which only the log tells apart.
- FragmentBuffer.Buffer.Flush: bytes of a message after its NUL are not modelled, nor are log lines.
- SmsTask.Task.DrainStored: a loop that does not end is modelled by its rounds so far; DrainEnds says when it ends, DrainAll has the loop itself for working storage.
- DtuFraming.LineReader.ReadLine: each turn's reading of the clock is an input, and the clock is taken to reach the deadline.
- SmsStorage.DeleteLosesOnlyFirst: a failed commit leaves the old or the new state as a whole; a mixture is not modelled. A failed write leaves the old value. Opening a namespace that does not exist is reading no count.
- Clocks: ticks are unbounded integers, so they do not wrap; a tick is 10 ms. Each call reads the clock at most twice, `now` and `later`.
- RemoteLog.EveryLineForwarded: publishing is QoS 0; whether the broker receives a payload is not modelled.
- RemoteLog.Forwarder.Offer: the text is what `vsnprintf` prints; its format string is not modelled.
- AT command scripting, modem configuration, probing and back-off, IMSI and ICCID operator tables, DTU queries at start-up (the lines they read and do not take are handled before the loop as in it): fixed command sequences and table look-ups that keep no state of the paths above.
- Wi-Fi, SNTP, MQTT configuration and events, task creation, metrics, masking of phone numbers: plumbing.
- The JSON payload of an SMS: its content is not escaped by the code, so there is no round trip to state; publishing succeeds or fails here.
- `sms_storage_clear_all`: erases the namespace; nothing in the firmware calls it.
