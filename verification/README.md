# QP/C++ verified

This project models the parts of the QP/C++ framework that hold its state and its protocols together,
and proves what they promise:

* **QS software tracing** (`QsFraming`, `QsRecord`, `QsTrace`, `QsFilter`, `QsSelection`, `QsFields`,
  `QsResync`, `QsHost`, `QsSession`): records are escaped, checksummed and framed into a ring buffer that
  overwrites its oldest bytes. Records are produced by exactly the macros whose bit is set and whose local
  filter fits, and the values of their fields come back from the frames. Proved from the single byte up to
  whole sessions in which macros, reads and overruns alternate in any way: every admitted record that lies
  wholly in a stretch that was read without loss is decoded, good and in order, with at most one other
  frame in a stretch, at its beginning. What that frame holds, when it is marked good although it was never
  sent, and when the first whole record is lost to it, is said exactly; so is how much every read takes and
  which macros lose something. After a single read-out the host has exactly the newest admitted records
  that fit the buffer, after at most one such frame. The host program is not part of the repository; the
  decoder used for the host is the loop of `rxParse` (src/qs/qs_rx.cpp:297-339), which undoes the same
  framing on the target.
* **The QS receive channel** (`QsReceive`, `QsInterleaving`): the lock-free ring between the interrupt
  that puts bytes in and the parser that takes them out, as methods that refine a bounded queue and as a
  state machine whose steps are the single reads and writes of both sides, in any interleaving: no step
  breaks the order, and neither side ever waits for the other.
* **The hierarchical event processor** (`StateTree`, `Hsm`): an event is offered outwards until a handler
  settles it, past those whose guards fail. The path-array algorithm of `hsm_tran` is proved to exit and
  enter what the least common ancestor of source and target demands, in the proper order, and every run of
  dispatches keeps the stack discipline of nested states.
* **Events** (`EventQueue`, `MemPool`, `EventManager`, `EventLife`, `Publish`): event queues as deques,
  memory pools as free lists, reference counting and garbage collection over all interleavings of any
  number of threads, and multicasting.
* **Time events** (`TimeEvents`, `TickScan`, `TimerRuns`): the linked lists of armed time events. The runs
  are any sequences of arming, disarming, rearming and ticks, with more such calls between the critical
  sections of a tick. Each time event is posted at exactly the ticks at which it is due, counted from the
  last call for it; a call in the middle of a tick has this tick counted exactly if its scan had not yet
  passed the time event.
* **Priority sets** (`PrioritySet`) down to the bits of one or two words, and the **display line stream**
  of the bundled board support (`Display`).
* `Arithmetic`, `RingIndex`, `DownwardRing` and `Collections` hold bytes, the arithmetic of ring positions,
  the ring that is filled downwards, and facts about lists.

Classes mirror the objects that the source updates in place; their methods are proved against functions
of the old state, and the lemmas are about those functions. Ghost fields hold histories: every byte that
ever entered the trace buffer, every signal sent to a state handler, the contents of a linked list.

## Where the code does not do what it says

The model follows the code. In these places the code and its documentation disagree, or the code has a
case it does not handle; the lemma named gives the exact condition under which the promise holds.

* `beginRec` inserts the record number and `str_`/`str` insert characters without escaping
  (src/qs/qs.cpp:312, 674-681; "ASCII characters don't need escaping"). The characters `}` and `~` are the
  control bytes: `QsRecord.RecordRecoveredIff`.
* The global filter command from the host means to keep the records 0x7D to 0x7F off, but its mask 0xE0
  keeps exactly these and drops the five before them (src/qs/qs_rx.cpp:914-915; `filterOn` uses 0x1F):
  `QsFilter.LastThreeRecordsStayOff`.
* Four record groups do not cover what the headings and comments of include/qs.h say: the time-event group
  has a record too many, the last user group and the group of all user records miss some, and the
  event-queue group misses the reserved record 23, which stands under its heading:
  `QsFilter.GroupsVsDocumentation` and `QsFilter.GroupExceptions`.
* Records documented as not maskable are switched off if `filterOff` is called with their own number:
  `QsFilter.UnmaskableStayOn`.
* The checksums are said to let the host detect any data loss (src/qs/qs.cpp:69-71). When an overrun cuts a
  record, what the host holds of an earlier one is joined with the rest behind the cut, and the frame is
  good exactly if the checksum of what is held equals that of what is missing, with a correction if one
  of the two ends in the middle of an escape: `QsResync.CutFrame`, `QsResync.JoinedIsGoodIff`,
  `QsResync.JoinedRecords`. So the loss of a sequence number zero goes unnoticed
  (`QsResync.CutBehindZero`, `QsHost.OverrunMayForge`), and in the middle of a session even a frame with the
  expected number may arrive that was never sent (`QsSession.ForgedSession`).
* `rxGetNfree` promises a conservative number of free bytes, but computes it as for a ring that is filled
  upwards: `QsReceive.ReportedIsConservativeIff`.
* A `post_` with a margin that fails collects the event ("to avoid a leak", src/qf/qf_actq.cpp:200) even if
  the poster still holds a counted reference to it: `EventLife.StepKeepsInvIff` and
  `EventLife.FailedRepostRecyclesTwice`.
* `noTimeEvtsActiveX` promises true if no time event is armed; it returns true if both lists are occupied,
  and a disarmed time event stays in its list until the next tick: `TimeEvents.TickRate.NoTimeEvtsActiveX`
  and, from what was called, `TimerRuns.AskAfterTick`, with two states in which the answer is wrong in
  `TimeEvents.FreshRateIsReportedActive` and `TimerRuns.DisarmedRateIsReportedActive`.
* A time event is said to fire after the given number of ticks. If it is armed or rearmed between two critical
  sections of a tick, that tick may be one of them, so that a time event armed for one tick is posted at
  once, and may be posted twice by one tick: `TickScan.CountedUnlessPassed` gives the exact condition,
  `TickScan.ArmedInTickIsPosted` and `TickScan.PostedTwiceInTick` the runs.
* `hsm_tran` and the drilling loop of `dispatch` write the path array before the assertion that guards its
  size (src/qf/qep_hsm.cpp:333-339, 447-469). The documented limit is a nesting of six, but transitions are
  in range for all states exactly up to a nesting of five, and initial transitions up to six:
  `Hsm.TransitionsFitUpTo`, `Hsm.InitialsFitUpTo`, `Hsm.SixDeepOverruns`. The model asks for the exact
  condition of each transition, `Hsm.TransitionFitsIff`, and not for the limit.

## Model

| member | source | states |
|---|---|---|
| QsFraming.FlipEscIsXor | src/qs_pkg.h:84-88 | The model's arithmetic flip is the exclusive-or with 0x20, and the inverted checksum the exclusive-or with 0xFF. |
| QsFraming.AddWraps | src/qs_pkg.h:52-52 | The model's checksum addition is addition modulo 256. |
| QsFraming.SumConcat | src/qs_pkg.h:52-52 | The checksum of a concatenation is the wrapped sum of the checksums, so escaping has no influence on it. |
| QsFraming.SumSeesOneByte | src/qs_pkg.h:90-91 | Changing one decoded byte of a record changes its checksum exactly if the byte is really different. |
| QsFraming.TrailerIsTheOnlyGoodByte | src/qs/qs.cpp:326-345 | Among all trailing bytes, just the inverted checksum brings the total to the good value. |
| QsFraming.EscapeConcat | src/qs_pkg.h:51-60 | Escaping distributes over concatenation, so record fields can be escaped one by one. |
| QsFraming.EscapeLength | src/qs_pkg.h:51-60 | Escaping n bytes writes n bytes plus one for each control byte, which is what `used` is raised by. |
| QsFraming.FeedEscape | src/qs_pkg.h:51-60 | Decoding undoes escaping for every payload and every decoder that is not in the middle of an escape, and adds the payload to its checksum. |
| QsFraming.DecodeOne | src/qs/qs.cpp:326-345 | A record closed by endRec is decoded as one good frame holding the body and its trailer, and leaves the decoder as at the start. |
| QsFraming.DecodeStream | src/qs/qs_rx.cpp:297-339 | Every list of records comes back from its stream exactly, in order, all frames good. |
| QsFraming.EscapeIsStuffed | src/qs_pkg.h:51-60 | Encoder output holds no frame byte, and each escape byte is followed by 0x5D or 0x5E. |
| QsFraming.StuffedIsEscaped | src/qs_pkg.h:51-60 | Every such string is the escaped form of some payload. |
| QsFraming.StuffedIffEncoderOutput | src/qs_pkg.h:51-60 | Encoding after decoding restores a string exactly if it has that form; with FeedEscape the two are inverse bijections. |
| QsResync.TailOfRecord | src/qs/qs_rx.cpp:317-333 | Any tail of a record ends in exactly one frame and a fresh decoder, whatever the decoder held before, except a frame byte right after a dangling escape. |
| QsResync.SplitAtCut | src/qs_pkg.h:78-79 | Behind a cut at any offset lie the rest of at most one record and then whole records. |
| QsResync.CutFrame | src/qs/qs_rx.cpp:307-333 | Whatever the decoder holds, the rest of a record that was cut completes exactly one frame, which joins the two, except a lone frame byte behind a dangling escape; it is good exactly if, once both are past an escape, the checksum of what is held equals that of what is missing. |
| QsResync.JoinedIsGoodIff | src/qs/qs_rx.cpp:307-333 | When that frame is good, in terms of the two checksums, for all four combinations of a dangling escape in the decoder and in front of the cut. |
| QsResync.CutFromStart | src/qs/qs_rx.cpp:307-333 | With nothing pending it is good exactly if the bytes decoded before the cut sum to zero or, in the middle of an escape, to 0xE0. |
| QsResync.JoinedRecords | src/qs/qs.cpp:67-71 | If the beginning of a record arrives and then the end of another one, a frame arrives that was never sent, good exactly if the beginning that arrived and the one that is missing have the same checksum. |
| QsResync.WholeRecordIff | src/qs/qs_rx.cpp:307-338 | A whole record comes out as it was sent if and only if nothing was pending. |
| QsResync.CutBehindZero | src/qs/qs.cpp:67-71 | A record with sequence number zero that is cut behind that number arrives as a good frame of something never sent. |
| QsResync.ResyncFromStart | src/qs/qs_rx.cpp:297-339 | A receiver that starts at any cut reports all records behind it, good and in order, after the one frame of CutFrame for the record that was cut, or none if the cut is a boundary. |
| QsResync.ResyncAtBoundary | src/qs/qs_rx.cpp:297-339 | From any decoder state, a stream of records costs at most its first record, which is joined with what was pending and comes out as it was sent if and only if nothing was. |
| QsResync.ResyncFromAnywhere | src/qs/qs_rx.cpp:297-339 | From any decoder state and any cut, all records behind the cut are reported, good and in order, after the frame of the record that was cut; the first of them is joined with what is held, and lost, exactly if a lone frame byte follows a dangling escape or the cut is a boundary and something is pending. |
| QsResync.ByteErrorIsDetected | src/qs_pkg.h:90-91 | One wire byte of a record replaced by another, neither a control byte, always yields exactly one frame, marked bad. |
| QsRecord.CleanRecordIsEncoded | src/qs/qs.cpp:300-317 | A record whose number and strings avoid the control bytes looks on the wire as if everything had been escaped. |
| QsRecord.FeedTakesYield | src/qs/qs_rx.cpp:307-338 | The number of data bytes a decoder takes out of a string of wire bytes depends on nothing but the string and the pending escape. |
| QsRecord.DirtyTextLosesRecord | src/qs/qs.cpp:670-691 | A record with a control byte in a string is never recovered, whatever else it holds. |
| QsRecord.RawFrameAsRecordLosesRecord | src/qs/qs.cpp:311-312 | Nor is a record whose number is the frame byte. |
| QsRecord.RawEscapeAsRecordLosesRecord | src/qs/qs.cpp:311-312 | Nor is one whose number is the escape byte, even if the byte it swallows happens to look right. |
| QsRecord.RecordRecoveredIff | src/qs/qs.cpp:300-352 | A record is recovered, intact and good, if and only if its number is not 0x7D or 0x7E and no string contains one of them. |
| QsTrace.QsTrace.constructor | src/qs/qs.cpp:73-94 | The buffer starts empty, with its end as the exclusive limit. |
| QsTrace.QsTrace.InsertByte | src/qs_pkg.h:43-48 | One byte is appended to the history, and the buffer keeps the newest `end` bytes, the i-th in cell i mod end. |
| QsTrace.QsTrace.InsertEscByte | src/qs_pkg.h:51-60 | The escaped byte is appended, the checksum covers the unescaped one, and `used` grows by the extra byte only. |
| QsTrace.QsTrace.BeginRec | src/qs/qs.cpp:300-317 | The next sequence number, escaped, and the raw record number start a record; nothing unread is given up yet. |
| QsTrace.QsTrace.EndRec | src/qs/qs.cpp:326-352 | Trailer and frame byte close the record; an overrun gives up exactly the bytes that no longer fit, otherwise nothing. |
| QsTrace.QsTrace.InsertTrailer | src/qs/qs.cpp:336-343 | The trailer is escaped without entering the checksum. |
| QsTrace.QsTrace.U8_ | src/qs/qs.cpp:591-602 | Appends one escaped byte to the record and changes nothing else. |
| QsTrace.QsTrace.U8U8_ | src/qs/qs.cpp:608-620 | Appends two escaped bytes in order. |
| QsTrace.QsTrace.U16_ | src/qs/qs.cpp:626-643 | Appends the two bytes of a 16-bit value, low byte first, escaped. |
| QsTrace.QsTrace.U32_ | src/qs/qs.cpp:649-664 | Appends the four bytes of a 32-bit value, low byte first, escaped. |
| QsTrace.QsTrace.U8 | src/qs/qs.cpp:523-536 | Appends format and byte. |
| QsTrace.QsTrace.U16 | src/qs/qs.cpp:543-562 | Appends format and 16-bit value. |
| QsTrace.QsTrace.U32 | src/qs/qs.cpp:568-585 | Appends format and 32-bit value. |
| QsTrace.QsTrace.Str_ | src/qs/qs.cpp:670-691 | Appends the characters of a string and its closing zero as they are, unescaped. |
| QsTrace.QsTrace.Str | src/qs/qs.cpp:889-914 | The same behind a format byte. |
| QsTrace.QsTrace.Mem | src/qs/qs.cpp:860-883 | Appends format, size and an escaped block. |
| QsTrace.QsTrace.GetByte | src/qs/qs.cpp:703-723 | Takes the oldest unread byte out, or reports end of data if there is none. |
| QsTrace.QsTrace.GetBlock | src/qs/qs.cpp:748-779 | Takes out a contiguous block of the oldest unread bytes, from the cell of the next one on, as long as unread data, the caller's limit and the end of the buffer allow. |
| QsTrace.ValueOfLittleEndian | src/qs/qs.cpp:655-661 | A value comes back from its bytes, low byte first, if and only if it is within the width of the field. |
| QsTrace.Output | src/qs/qs.cpp:523-691 | Every output function appends exactly its data and leaves unread bytes, numbering and read position alone. |
| QsTrace.Record | include/qs.h:783-798 | Begin, data and end of a record put its whole wire image into the buffer, with the next sequence number. |
| QsTrace.Trace | include/qs.h:783-798 | Any run of tracing macros appends exactly the wire images of the admitted records, consecutively numbered; lost are only bytes that no longer fit. |
| QsFilter.Filter.FilterOn | src/qs/qs.cpp:122-198 | Switches on exactly the records of the argument, and for all records those up to 124; every other record keeps its setting. |
| QsFilter.Filter.FilterOff | src/qs/qs.cpp:210-291 | Switches off exactly the records of the argument, and for all records everything but the records that cannot be masked. |
| QsFilter.Filter.Command | src/qs/qs_rx.cpp:906-924 | The received filter is taken over with the records that cannot be masked on and, by its mask, the records 120 to 124 off. |
| QsFilter.SetBits | src/qs/qs.cpp:133-135 | Or-ing a run of bits into one byte switches on exactly the corresponding records. |
| QsFilter.ClearBits | src/qs/qs.cpp:228-231 | Masking a run of bits out of one byte switches off exactly the corresponding records. |
| QsFilter.GroupsVsDocumentation | include/qs.h:74-196 | A filter argument switches exactly the records that the headings of the record list and the comments of the groups assign to it, if and only if it is none of four groups. |
| QsFilter.FailingGroups | include/qs.h:101-196 | One record for each of these groups by which it fails. |
| QsFilter.GroupExceptions | include/qs.h:181-196 | How these four deviate: one takes a record too many, three leave some out. |
| QsFilter.AllRecordsVsDocumentation | include/qs.h:182-182 | Switching everything off leaves on exactly the records under headings that say not maskable; switching everything on leaves no record up to 124 off. |
| QsFilter.NoControlRecordKept | src/qs/qs.cpp:129-131 | The records 0x7D to 0x7F stay off in every run of filter calls in which no received command asks for them. |
| QsFilter.LastThreeRecordsStayOff | src/qs/qs_rx.cpp:914-915 | They stay off throughout a run if and only if no received command asks for any of them. |
| QsFilter.UnmaskableKept | include/qs.h:162-174 | The records documented as not maskable stay on as long as none of them is switched off by its own number. |
| QsFilter.UnmaskableStayOn | src/qs/qs.cpp:282-289 | They stay on throughout a run of filter calls if and only if no call switches off one of them by its own number. |
| QsFilter.MakeAll | src/qs/qs.cpp:122-291 | Any sequence of filter calls goes through a run of filter states as the contracts of the single calls say. |
| QsFilter.RecordFollowsLastCall | src/qs/qs.cpp:122-291 | In any run of filter calls, whether a record passes is decided by the last call that concerns it, and how, for each kind of call. |
| QsSelection.AdmitsIff | include/qs.h:783-786 | A call produces a record if and only if bit rec & 7 of byte rec >> 3 of the global filter is set and the call names no local filter or the object that it is about. |
| QsSelection.AdmittedAreChosen | include/qs.h:783-786 | The records of a run of calls are those of the calls chosen in this way, each once and in order. |
| QsSelection.LocalFilterSelects | include/qs.h:783-786 | With an object named in the local filter, of what is produced without one the records about this object are left, in order. |
| QsFields.PlainOfField | src/qs/qs.cpp:523-914 | The bytes that each output function contributes to the data of a record. |
| QsFields.FieldComesBack | src/qs/qs.cpp:523-914 | A receiver that knows the kind of a field gets its values back from the front of the data, whatever follows, for all values of its C types. |
| QsFields.FieldsComeBack | src/qs/qs.cpp:523-914 | So it gets all fields of a record, in order. |
| QsFields.RecordComesBack | src/qs/qs.cpp:300-345 | From a good frame come the sequence number, the record number and the values of all fields, with only the checksum left. |
| QsHost.CleanCallsAreEncoded | include/qs.h:783-798 | A run of clean records is the encoded stream of its numbered bodies. |
| QsHost.SafeFilterAdmitsCleanCalls | include/qs.h:669-674 | A filter without the last three records admits no record number that is a control byte. |
| QsHost.TraceDecodes | include/qs.h:783-798 | For every run of macros and every such filter the decoded stream is exactly the records of the chosen calls, in order, numbered consecutively, all good. |
| QsHost.LocalFilterDecodes | include/qs.h:783-786 | If all macros name one object in their local filter, the host reads, of the records that it would read without local filters, just those about this object, in order. |
| QsHost.OverrunKeepsTheNewest | src/qs/qs.cpp:348-351 | After an overrun the host recovers exactly the newest records that fit the buffer as a whole, after one frame for the rest of the record before, if some is left, which is bad unless what is missing does not show in the checksum. |
| QsHost.OverrunMayForge | src/qs/qs.cpp:67-71 | An overrun that takes just a sequence number zero makes the host see a good frame that was never sent. |
| QsHost.Drain | src/qs/qs.cpp:703-723 | Reading byte by byte until end of data yields all unread bytes in order and empties the buffer. |
| QsHost.TraceAndRead | src/qs/qs.cpp:73-94 | A fresh buffer, any run of macros and a complete read deliver the newest bytes that fit the buffer. |
| QsHost.SessionDecodes | src/qs/qs.cpp:348-351 | What is left of any run of clean macros in a buffer of any size decodes to the newest admitted records that fit. |
| QsHost.Session | include/qs.h:783-798 | End to end: for every buffer size, filter and run of macros the host decodes the newest admitted records that fit, and one more would not have fitted. |
| QsHost.BodiesAreNumbered | src/qs/qs.cpp:301-307 | The i-th record carries the i-th sequence number modulo 256 and its own record number. |
| QsHost.GapShowsInSequenceNumber | src/qs/qs.cpp:301-307 | Lost records show in the sequence numbers if and only if their count is not a multiple of 256. |
| QsSession.SentOneMore | include/qs.h:783-798 | Each admitted macro puts the encoded body of its record, with the next number, on the wire. |
| QsSession.SentAreBodies | include/qs.h:783-798 | What a session sends are the consecutively numbered bodies of the macros that pass both filters, in order, wherever the reads fall. |
| QsSession.SentAreChosen | include/qs.h:783-798 | These are the macros whose bit is set in the global filter and that name no local filter or their own object. |
| QsSession.ReadsTake | src/qs/qs.cpp:703-779 | A byte read takes one byte if there is one; a block read takes at least one if there is one and the limit allows it, never more than the limit, all if they fit the limit and do not go round the end of the buffer, and otherwise stops at one of the two. |
| QsSession.TwoBlocksEmpty | src/qs/qs.cpp:738-745 | Two block reads with room for the whole buffer empty it, wherever its contents begin. |
| QsSession.NoLosses | src/qs/qs.cpp:348-351 | The number of overruns is zero exactly if no macro leaves more unread than the buffer holds. |
| QsSession.PromptReadsLoseNothing | src/qs/qs.cpp:738-745 | If two such block reads follow every macro, no record that fits into the buffer is ever overwritten. |
| QsSession.PlayRead | src/qs/qs.cpp:703-779 | Reading a byte or a block takes the next bytes of the wire, exactly as many as ReadsTake is about. |
| QsSession.PlayMacro | src/qs/qs.cpp:348-351 | A macro either loses nothing or, by an overrun, exactly the bytes that no longer fit, and then a new stretch begins. |
| QsSession.Play | src/qs/qs.cpp:326-352 | For any alternation of macros and reads of either kind, what the host has read are stretches of the wire in order, with nothing lost within one and only overrun bytes lost between them, one stretch more than there are macros that leave more unread than the buffer holds. |
| QsSession.StretchDecodes | src/qs/qs_rx.cpp:297-339 | From any decoder state that bytes can lead to, a stretch of the wire is decoded to the records that lie wholly in it, good and in order, after the one frame for the record that was cut; the first record is joined with what was pending exactly under the condition of ResyncFromAnywhere; the rest of the stretch adds no frame. |
| QsSession.SessionDecodes | src/qs/qs.cpp:67-71 | This holds for every stretch of every session, with the decoder as the stretches before have left it. |
| QsSession.SessionWithoutLoss | src/qs/qs.cpp:703-779 | If after each macro the unread bytes fit into the buffer, there is a single stretch and the session is decoded completely, however its reads are spread over it. |
| QsSession.PromptSessionIsComplete | src/qs/qs.cpp:738-745 | In particular if behind every macro two blocks of the whole buffer are read and every record fits into the buffer. |
| QsSession.ForgedSession | src/qs/qs.cpp:67-71 | A session of three macros and two reads of a buffer of nine bytes, in which an overrun goes unnoticed: what is read decodes to one good frame with the expected number that is none of the records sent. |
| QsReceive.FullTestIsExact | include/qs.h:339-350 | The two-branch test in unsigned arithmetic says exactly that `end` bytes wait, which is when the tail is right below the head. |
| QsReceive.PushCell | include/qs.h:341-342 | Writing the cell at the head changes no waiting byte; moving the head then appends the byte. |
| QsReceive.PopCell | src/qs/qs_rx.cpp:299-306 | The cell at the tail holds the oldest waiting byte, and moving the tail removes just that one. |
| QsReceive.Receiver.constructor | src/qs/qs_rx.cpp:243-247 | The channel starts empty and its last index is one less than the storage. |
| QsReceive.Receiver.RxPut | include/qs.h:338-351 | Appends the byte if fewer than `end` bytes wait, and otherwise changes nothing. |
| QsReceive.Receiver.RxParse | src/qs/qs_rx.cpp:297-339 | Empties the channel and runs the decoder over its bytes, oldest first. |
| QsReceive.Receiver.RxGetNfree | src/qs/qs_rx.cpp:281-294 | What the function reports, for each position of head and tail, and that an empty channel reports all its bytes. |
| QsReceive.ReportedIsConservativeIff | src/qs/qs_rx.cpp:281-294 | The reported number never exceeds the room exactly if the channel is empty or at most about half full. |
| QsReceive.ReportedByPosition | src/qs/qs_rx.cpp:281-294 | In terms of what waits: an empty channel reports all bytes; otherwise the report is the number of waiting bytes, less one if they go round the end. |
| QsReceive.ReportedOverstates | src/qs/qs_rx.cpp:288-292 | A fresh channel of any size that is filled up to one byte reports all but two bytes as free. |
| QsInterleaving.InitInv | src/qs/qs_rx.cpp:243-247 | The initial state satisfies the invariant. |
| QsInterleaving.ProducerKeepsInv | include/qs.h:338-351 | Every single read or write of rxPut keeps the invariant. |
| QsInterleaving.TestKeepsHistory | include/qs.h:339-350 | A byte for which there is no room is the one that drops out of the history. |
| QsInterleaving.ConsumerKeepsInv | src/qs/qs_rx.cpp:298-306 | So does every single read or write of the parser's removal of a byte. |
| QsInterleaving.ParseKeepsInv | src/qs/qs_rx.cpp:308-338 | So does decoding the byte. |
| QsInterleaving.RunKeepsInv | include/qs.h:338-351 | The invariant holds in every state of every run, under any interleaving. |
| QsInterleaving.RunIsFifo | include/qs.h:338-351 | At every moment the consumed bytes are a prefix of the accepted ones, the rest waits in the ring, the decoder has seen exactly the consumed ones, the accepted ones are all that arrived without the dropped ones, in order, and a byte was only dropped when `end` bytes waited. |
| QsInterleaving.NoUnreadCellIsOverwritten | include/qs.h:341-342 | The producer never writes a cell that holds an unread byte. |
| QsInterleaving.ConsumerTakesTheOldest | src/qs/qs_rx.cpp:299-306 | The byte taken out is the oldest unread one even if the producer moves on between its reading and the move of the tail. |
| QsInterleaving.RecordsArrive | src/qs/qs_rx.cpp:297-339 | A stream of records of which no byte was dropped is decoded completely under every interleaving. |
| QsInterleaving.RecordsArriveAfterLoss | src/qs/qs_rx.cpp:297-339 | After any loss the frames are those of what was accepted before, the first record of the next stream that gets through joined with what was pending, as it was sent if and only if nothing was, and all its other records, good. |
| QsInterleaving.TestAcceptsIff | include/qs.h:339-350 | The test lets a byte through if and only if fewer than `end` bytes wait at that moment. |
| QsInterleaving.PutByte | include/qs.h:338-351 | With room, four steps of the producer put any byte behind all others and touch nothing else. |
| QsInterleaving.DropByte | include/qs.h:338-351 | Without room, two steps drop the byte and leave the ring as it is. |
| QsInterleaving.TakeByte | src/qs/qs_rx.cpp:298-338 | If a byte waits, four steps of the consumer take out and decode just the oldest one. |
| QsInterleaving.ProducerNeverBlocks | include/qs.h:338-351 | Wherever the consumer is, a call of rxPut under way has a next step, which brings it nearer to its end. |
| QsInterleaving.ConsumerNeverBlocks | src/qs/qs_rx.cpp:298-338 | Wherever the producer is, the consumer has its next step as long as a byte waits or is in its hands. |
| QsInterleaving.RunDelivers | src/qs/qs_rx.cpp:297-339 | From an empty ring with room for a byte, any bytes can be sent through and decoded without a loss. |
| StateTree.Lca | src/qf/qep_hsm.cpp:397-536 | The state found contains both source and target. |
| StateTree.LcaIsInnermost | src/qf/qep_hsm.cpp:397-536 | Every state that contains both contains it: it is the least common ancestor. |
| StateTree.ReplayExitPath | src/qf/qep_hsm.cpp:282-293 | Leaving states inside out is possible step by step and ends at the ancestor. |
| StateTree.ReplayEntryPath | src/qf/qep_hsm.cpp:310-312 | Entering states outside in is possible step by step and ends at the target. |
| StateTree.ReplayTransition | src/qf/qep_hsm.cpp:397-536 | The exits and entries of any transition lead from source to target, each state being left only as the innermost active one and entered only from its superstate. |
| StateTree.TransitionTouches | src/qf/qep_hsm.cpp:397-536 | A transition leaves exactly the states that contain the source and not the target, and enters exactly those that contain the target and not the source; one from a state to itself leaves and enters just this state. |
| StateTree.ExitPathByLevel | src/qf/qep_hsm.cpp:282-293 | The exits go level by level from the state outwards and end below the ancestor. |
| StateTree.EntryPathByLevel | src/qf/qep_hsm.cpp:309-312 | The entries go level by level inwards, down to the target. |
| Hsm.QHsm.TrigEmpty | src/qf/qep_hsm.cpp:223-225 | The empty signal makes a handler name its superstate, and the top state ignores it. |
| Hsm.QHsm.FindSettler | src/qf/qep_hsm.cpp:257-271 | The event goes outwards until a handler settles it; a handler whose guard fails passes it on. |
| Hsm.SettlerIsFirst | src/qf/qep_hsm.cpp:257-271 | The event is offered level by level as long as the handlers do not know it or their guards fail; it is settled by the first that answers otherwise, or by the top state. |
| Hsm.StepByOffers | src/qf/qep_hsm.cpp:238-384 | If the one that settles it takes a transition, the states up to it and on to the least common ancestor are left, the target is entered, and the step ends in a state inside the target without an initial transition; otherwise nothing happens. |
| Hsm.DrillFollowsChain | src/qf/qep_hsm.cpp:316-348 | Drilling follows the chain of initial transitions to its end, asks every state of the chain once and enters the states between. |
| Hsm.QHsm.ExitToSource | src/qf/qep_hsm.cpp:282-293 | The states from the current one up to the source of the transition are left in order. |
| Hsm.QHsm.StorePath | src/qf/qep_hsm.cpp:444-463 | The stored path holds the target and its superstates, ends below the source if that contains the target and at the top otherwise; the largest index written is the distance to the source or to the top. |
| Hsm.QHsm.ExitToPath | src/qf/qep_hsm.cpp:493-529 | The superstates of the source are left one by one up to the least common ancestor, and the index points to the outermost state to enter. |
| Hsm.QHsm.TranByPath | src/qf/qep_hsm.cpp:433-531 | The general cases of a transition together exit what the least common ancestor demands. |
| Hsm.QHsm.HsmTran | src/qf/qep_hsm.cpp:397-536 | For every source and target the exits are exactly those of the least common ancestor, the path array holds exactly the states to enter, and the largest index written is exactly the stated one. |
| Hsm.QHsm.EnterPath | src/qf/qep_hsm.cpp:309-312 | Retracing the path enters its states outside in. |
| Hsm.QHsm.StoreDown | src/qf/qep_hsm.cpp:326-336 | The path of an initial transition is stored from its target up to the state that takes it; the largest index written is their distance less one. |
| Hsm.QHsm.Drill | src/qf/qep_hsm.cpp:316-348 | Initial transitions are followed down until a state without one is reached. |
| Hsm.QHsm.constructor | src/qf/qep_hsm.cpp:140-145 | A machine before its top-most initial transition. |
| Hsm.QHsm.Init | src/qf/qep_hsm.cpp:140-206 | The top-most initial transition enters its target from the top and drills down, and leaves a stable configuration. |
| Hsm.QHsm.Dispatch | src/qf/qep_hsm.cpp:238-384 | A run-to-completion step has exactly the specified actions and end state, and the actions of all steps so far lead from the top to the current state without breaking the nesting. |
| Hsm.QHsm.IsIn | src/qf/qep_hsm.cpp:551-573 | True exactly if the state contains the current one, with the configuration left stable. |
| Hsm.QHsm.ChildState | src/qf/qep_hsm.cpp:594-618 | The direct substate of the parent that contains the current state, or the current state itself. |
| Hsm.ReplayStep | src/qf/qep_hsm.cpp:238-384 | The actions of a step lead from one configuration to the next within the nesting discipline. |
| Hsm.ReplayDrill | src/qf/qep_hsm.cpp:316-348 | So do the entries and initial transitions of drilling. |
| Hsm.DrillEnd | src/qf/qep_hsm.cpp:316-348 | Drilling ends in a substate that has no initial transition. |
| Hsm.TransitionFitsIff | src/qf/qep_hsm.cpp:444-463 | Beyond the nearest relatives, all writes for a transition are in range if and only if one meets the source or the top state among the first six states from the target outwards. |
| Hsm.TransitionsFitUpTo | include/qep.h:460-462 | No transition between states nested up to some depth writes out of range if and only if that depth is at most five. |
| Hsm.SixDeepOverruns | src/qf/qep_hsm.cpp:447-469 | A transition from an unrelated source to a target nested six deep writes behind the array. |
| Hsm.InitialsFitUpTo | src/qf/qep_hsm.cpp:331-339 | No initial transition between states nested up to some depth writes out of range if and only if that depth is at most six. |
| Hsm.EntersIsEntries | src/qf/qep_hsm.cpp:309-312 | Retracing the stored path enters exactly what the transition has to enter. |
| EventQueue.QEQueue.constructor | src/qf/qf_qeq.cpp:83-95 | The queue starts empty with room for one event more than its ring. |
| EventQueue.QEQueue.Post | src/qf/qf_qeq.cpp:118-187 | Succeeds exactly if more than the margin is free, then appends the event and counts a reference; otherwise the queue is unchanged. The low-water mark is exact. |
| EventQueue.QEQueue.PostLIFO | src/qf/qf_actq.cpp:220-270 | Puts the event in front of all others and counts a reference. |
| EventQueue.QEQueue.Get | src/qf/qf_qeq.cpp:274-320 | Takes the event at the front, or returns null from an empty queue. |
| EventQueue.QEQueue.GetMin | src/qf/qf_actq.cpp:360-372 | The reported minimum is the capacity less the largest number of events that ever waited. |
| DownwardRing.InsertAtHead | src/qf/qf_qeq.cpp:154-161 | Writing below the youngest element of the ring appends to it. |
| DownwardRing.InsertAtTail | src/qf/qf_actq.cpp:263-268 | Writing above the oldest element prepends, and the head stays right. |
| DownwardRing.RemoveAtTail | src/qf/qf_actq.cpp:306-310 | Moving the tail down removes the oldest element, and the head stays right. |
| MemPool.QMPool.constructor | src/qf/qf_mem.cpp:102-155 | The storage is divided into as many blocks as fit, of the requested size rounded up to whole links, all free and chained in order. |
| MemPool.QMPool.Get | src/qf/qf_mem.cpp:222-281 | Takes the first free block if more than the margin are free; the chain, the counts and the minimum stay right, and the assertions about them hold. |
| MemPool.QMPool.Put | src/qf/qf_mem.cpp:173-194 | The block becomes the first free one; that it was allocated implies the asserted count. |
| MemPool.RoundUp | src/qf/qf_mem.cpp:117-127 | The block size is the least multiple of the link size, at least one, that fits. |
| MemPool.Chain | src/qf/qf_mem.cpp:132-150 | The chain runs through all blocks at their distances and ends at the last that fits. |
| MemPool.PopChain | src/qf/qf_mem.cpp:229-262 | Following one link from the head leaves the chain of the rest. |
| MemPool.PushChain | src/qf/qf_mem.cpp:183-186 | Linking a block in front makes it the head of the longer chain. |
| MemPool.UserMayWrite | src/qf/qf_mem.cpp:250-255 | What users write into allocated blocks cannot damage the chain. |
| EventManager.NewX | src/qf/qf_dyn.cpp:125-170 | The event comes from the pool with the smallest blocks that fit, with counter zero; if the margin is not there, nothing changes. |
| EventManager.Gc | src/qf/qf_dyn.cpp:192-236 | One reference less, or, with the last one, the block goes back to its own pool; static events are left alone. |
| EventManager.Recall | src/qf/qf_defer.cpp:112-155 | The oldest deferred event moves to the front of the queue with its number of references unchanged, and the assertion about two references holds. |
| EventLife.ActKeepsSoundIff | src/qf/qf_dyn.cpp:192-236 | For one event: a critical section keeps its counter equal to its references exactly if it is proper. |
| EventLife.StepKeepsInvIff | src/qf/qf_actq.cpp:108-203 | A critical section of the framework keeps all counters right if and only if no counter runs over and no failing post concerns an event that somebody references. |
| EventLife.RunKeepsInvIff | src/qf/qf_dyn.cpp:192-236 | Over whole runs, under any interleaving of any number of threads: the counters are always right if and only if every step is proper. |
| EventLife.ProperRunKeepsInv | src/qf/qf_dyn.cpp:192-236 | The same for the beginning of a run. |
| EventLife.NoDanglingNoLeak | src/qf/qf_dyn.cpp:192-236 | No event is recycled while it is queued or held, none is recycled twice, and one without references is in its pool or about to return. |
| EventLife.RecallFindsTwoReferences | src/qf/qf_defer.cpp:125-129 | The assertion of recall holds in every proper run. |
| EventLife.FailedRepostRecyclesTwice | src/qf/qf_actq.cpp:186-201 | A failing post of the event being processed recycles it under its holder and later puts its block into the free list twice. |
| EventLife.OneReferenceHeld | src/qf/qf_dyn.cpp:192-236 | An event in its books that one thread holds and no queue contains has counter one and is nowhere else. |
| EventLife.EventInProcessing | src/qv/qv.cpp:160-162 | Every free event gets into that standing by being allocated, posted and taken out. |
| EventLife.NewEvent | src/qf/qf_dyn.cpp:125-170 | In the books a new event has counter zero and is nowhere else. |
| EventLife.HoldAndRelease | src/qf/qf_dyn.cpp:255-280 | Taking a reference makes one more in the hands of the thread and none in the queues; giving it up leads back. |
| EventLife.PostGetAndRelease | src/qf/qf_actq.cpp:88-203 | A post makes one more reference from a queue, getting the event moves it to the thread, and giving it up leads back. |
| EventLife.PublishedToNobody | src/qf/qf_ps.cpp:134-180 | A new event that is published to nobody goes back to its pool. |
| EventLife.FailedPost | src/qf/qf_actq.cpp:186-201 | A failing post recycles a new event, and makes the counter of a referenced one too low by one. |
| Publish.PostActive | src/qf/qf_actq.cpp:88-203 | A post to an active object appends the event, or, without the margin, leaves the queue alone and gives up one reference. |
| Publish.PostTo | src/qf/qf_ps.cpp:160-161 | One subscriber gets the event at the end of its queue; all other queues are unchanged. |
| Publish.Turn | src/qf/qf_ps.cpp:156-170 | One turn of the loop serves the highest subscriber left and takes just it off the list. |
| Publish.PostToAll | src/qf/qf_ps.cpp:148-173 | The loop visits every subscriber once, in strictly decreasing order of priority, and ends after exactly as many turns as there are subscribers. |
| Publish.Multicast | src/qf/qf_ps.cpp:134-173 | During the posts the event has one reference more, so it cannot be recycled meanwhile. |
| Publish.PublishEvent | src/qf/qf_ps.cpp:118-180 | Every subscriber's queue gets the event once and no other queue changes; there are as many posts as subscribers, the counter grows by that number, and an event without any reference goes back to its pool. |
| Publish.DeliveredToAll | src/qf/qf_ps.cpp:148-173 | What the queues then hold, written out: those of the subscribers have the event at their ends, once, and the others are as before. |
| TimeEvents.PostedExactlyWhenDue | src/qf/qf_time.cpp:135-150 | A time event armed for n ticks with an interval is posted by tick n, by every interval-th tick after it if there is an interval, and by no other. |
| TimeEvents.AfterInClosedForm | src/qf/qf_time.cpp:135-150 | The counter after any number of ticks, in closed form. |
| TimeEvents.TickRate.constructor | src/qf/qf_time.cpp:54-54 | A tick rate starts with empty lists. |
| TimeEvents.TickRate.Arm | src/qf/qf_time.cpp:329-377 | The time event gets its counter and interval; it goes to the front of the list of new ones, or stays where it is if it is still linked, and the main list is not touched. |
| TimeEvents.TickRate.Disarm | src/qf/qf_time.cpp:398-436 | The counter becomes zero, the lists stay, and the answer tells whether it was armed. |
| TimeEvents.TickRate.Rearm | src/qf/qf_time.cpp:458-518 | The counter is reloaded and the interval stays; the time event goes to the front of the list of new ones, or stays where it is if it is linked. |
| TimeEvents.TickRate.Append | src/qf/qf_time.cpp:113-122 | The list of newly armed time events is appended to the main list. |
| TimeEvents.TickRate.Unlink | src/qf/qf_time.cpp:129-133 | One time event leaves the main list, all others keep their order. |
| TimeEvents.TickRate.FindNext | src/qf/qf_time.cpp:105-126 | The scan goes on with the next time event of the main list and then of the new ones, and ends only when both are done. |
| TimeEvents.TickRate.CountDown | src/qf/qf_time.cpp:128-183 | A time event is removed if disarmed, counted down otherwise, posted on reaching zero, then reloaded if periodic or removed if not. |
| TimeEvents.TickRate.Count | src/qf/qf_time.cpp:128-183 | In the lists and states as a whole: only this time event is counted, and it alone may leave the main list. |
| TimeEvents.TickRate.NoTimeEvtsActiveX | src/qf/qf_time.cpp:216-228 | The answer is yes exactly if both lists are occupied, in every state; so it is the documented one if and only if some time event is armed and a list is empty, or none is armed and both are occupied. |
| TimeEvents.TickRate.RightIfLinkedAreArmed | src/qf/qf_time.cpp:216-228 | If no linked time event is disarmed, that is exactly if one list is empty and the other is not. |
| TimeEvents.FreshRateIsReportedActive | src/qf/qf_time.cpp:218-220 | With nothing ever armed the answer is the wrong one. |
| TickScan.Perform | src/qf/qf_time.cpp:329-518 | Arming, disarming and rearming change one time event only, never the main list, and put it in front of the new ones exactly if it is loaded and not linked. |
| TickScan.LastCallDecides | src/qf/qf_time.cpp:329-518 | Of several calls in a row the last one for a time event decides: disarming leaves zero, rearming the new number of ticks, both with the interval it had; arming loads both if it was not armed. |
| TickScan.Pass | src/qf/qf_time.cpp:105-186 | One critical section of the scan counts the next time event, and other code may arm, disarm and rearm any of them before the scan goes on. |
| TickScan.Tick | src/qf/qf_time.cpp:88-189 | A tick with any calls between its critical sections leaves exactly the lists and states, and posts exactly the sequence, that the specification computes from the start and these calls. |
| TickScan.CountedUnlessPassed | src/qf/qf_time.cpp:105-186 | A time event that is not touched any more after some critical section of a tick is counted down from then on, once, if and only if the scan has not yet passed it then, and posted, once, exactly if it is due besides; with no touch at all, every time event is counted once. |
| TickScan.LastCallInTick | src/qf/qf_time.cpp:105-186 | The same for the last call in the middle of a tick. |
| TickScan.DisarmedInTick | src/qf/qf_time.cpp:398-436 | A time event that is disarmed in the middle of a tick is not posted by it from then on. |
| TickScan.AfterThenFinal | src/qf/qf_time.cpp:105-186 | A tick can be taken apart behind any of its critical sections. |
| TickScan.ArmedInTickIsPosted | src/qf/qf_time.cpp:113-122 | A time event that is armed for one tick between two critical sections is posted by the tick under way. |
| TickScan.RearmedBehindScanIsNotCounted | src/qf/qf_time.cpp:172-178 | One that was already passed and is rearmed then is not counted by the tick under way. |
| TickScan.PostedTwiceInTick | src/qf/qf_time.cpp:139-165 | A one-shot time event that is posted and armed again for one tick before the scan goes on is posted twice by the same tick. |
| TickScan.PostsInOrder | src/qf/qf_time.cpp:88-189 | A tick that is not interrupted posts the time events that expire in the order of the two lists, and leaves only armed ones linked. |
| TimerRuns.Run | src/qf/qf_time.cpp:88-518 | In any run of arming, disarming, rearming and interrupted ticks, the lists, states and posts follow the specification, operation by operation. |
| TimerRuns.PostedWhenDue | src/qf/qf_time.cpp:135-150 | In any such run a time event that is left alone from some point on, while all others may be touched at any time, is posted by exactly the ticks at which it is due, counted from there, and by each once; a disarmed one by none. |
| TimerRuns.ArmedIsPostedWhenDue | src/qf/qf_time.cpp:329-377 | In particular after arming: by the tick with the given number and then at every interval. |
| TimerRuns.DisarmedIsNotPosted | src/qf/qf_time.cpp:398-436 | After disarming it is not posted by any tick. |
| TimerRuns.RearmedIsPostedWhenDue | src/qf/qf_time.cpp:458-518 | After rearming, whether it was armed or not, it is posted by exactly the ticks due from the new number and the interval that it had. |
| TimerRuns.TouchedInTickIsPostedWhenDue | src/qf/qf_time.cpp:105-186 | If the last call for a time event comes in the middle of a tick, it is posted by exactly the ticks that are due from what this call leaves, the tick under way being the first of them if and only if its scan had not yet passed the time event. |
| TimerRuns.DisarmedInTickIsNotPosted | src/qf/qf_time.cpp:398-436 | One whose last call disarms it in the middle of a tick is not posted by later ticks. |
| TimerRuns.RearmedInTickIsPostedWhenDue | src/qf/qf_time.cpp:458-518 | One whose last call rearms it there is posted by exactly the ticks due from the new number and its interval, the tick under way being the first of them if and only if its scan had not yet passed it. |
| TimerRuns.NewerIfLinked | src/qf/qf_time.cpp:358-370 | After calls, the list of new ones is empty exactly if it was before and no call links a time event. |
| TimerRuns.AskAfterTick | src/qf/qf_time.cpp:216-228 | From the history: after a tick and calls, the answer is yes exactly if the tick left a time event in the main list and one of the calls linked another; as long as none does, it is the documented one if and only if some time event is armed. |
| TimerRuns.DisarmedRateIsReportedActive | src/qf/qf_time.cpp:221-223 | With the only time event armed, ticked and disarmed the answer is the wrong one, although then one list is empty and the other is not. |
| PrioritySet.OrBit | include/qpset.h:86-89 | The union of bits, for every bit number. |
| PrioritySet.AndNotBit | include/qpset.h:92-95 | Masking out, for every bit number. |
| PrioritySet.TestBit | include/qpset.h:79-83 | The mask test is the membership test. |
| PrioritySet.Log2IsHighest | src/qf/qf_act.cpp:144-149 | The logarithm of the ports is zero just for zero and otherwise the one-based number of the highest bit. |
| PrioritySet.HighestBit | src/qf/qf_act.cpp:176-194 | The search by halves and table lookup computes this logarithm. |
| PrioritySet.InsertIntoWord | include/qpset.h:86-89 | Setting a bit adds one element and disturbs no other, within 32 bits. |
| PrioritySet.RemoveFromWord | include/qpset.h:92-95 | Clearing a bit removes one element and disturbs no other. |
| PrioritySet.GreatestInWord | include/qpset.h:97-102 | The logarithm of a word is its greatest element, and zero for the empty word only. |
| PrioritySet.PSet32.SetEmpty | include/qpset.h:63-66 | The set becomes empty. |
| PrioritySet.PSet32.IsEmpty | include/qpset.h:69-71 | True exactly for the empty set. |
| PrioritySet.PSet32.NotEmpty | include/qpset.h:74-76 | True exactly for the other sets. |
| PrioritySet.PSet32.HasElement | include/qpset.h:79-83 | True exactly for elements of the set. |
| PrioritySet.PSet32.Insert | include/qpset.h:86-89 | The set with the element added. |
| PrioritySet.PSet32.Remove | include/qpset.h:92-95 | The set with the element removed. |
| PrioritySet.PSet32.FindMax | src/qf/qf_act.cpp:150-195 | Zero for the empty set, otherwise the greatest element. |
| PrioritySet.PSet64.SetEmpty | include/qpset.h:123-126 | The set becomes empty. |
| PrioritySet.PSet64.IsEmpty | include/qpset.h:130-134 | True exactly for the empty set, over both words. |
| PrioritySet.PSet64.NotEmpty | include/qpset.h:138-142 | True exactly for the other sets. |
| PrioritySet.PSet64.HasElement | include/qpset.h:145-153 | True exactly for elements, on both sides of the word boundary. |
| PrioritySet.PSet64.Insert | include/qpset.h:156-165 | The set with the element added, nothing else disturbed across the word boundary. |
| PrioritySet.PSet64.Remove | include/qpset.h:168-177 | The set with the element removed, nothing else disturbed. |
| PrioritySet.PSet64.FindMax | src/qf/qf_act.cpp:150-195 | Zero for the empty set, otherwise the greatest element, from the higher word if it is occupied. |
| PrioritySet.EmptyWords | include/qpset.h:130-134 | Two zero words are the only representation of the empty set. |
| PrioritySet.SameSetIff | include/qpset.h:56-190 | The two variants hold the same set exactly if the lower words are equal and the upper word is zero. |
| PrioritySet.Run32 | include/qpset.h:56-106 | Every run of operations with elements 1 to 32 is answered by the one-word set, call by call, as by a mathematical set. |
| PrioritySet.Run64 | include/qpset.h:116-190 | Every run of operations with elements 1 to 64 is answered by the two-word set, call by call, as by a mathematical set. |
| PrioritySet.ElementsByHistory | include/qpset.h:56-190 | An element is in the set exactly if some call inserted it and no call removed it or emptied the set since. |
| PrioritySet.RepliesByHistory | include/qpset.h:56-190 | So every call of a run is answered from the history: whether an element is in the set, whether any is, and the greatest that is. |
| PrioritySet.VariantsAgree | include/qpset.h:56-190 | On every run of operations with elements 1 to 32 the two variants return the same, call by call, and end with the same lower word and an upper word of zero. |
| Display.SpiTransmit | 3rd_party/efm32pg1b/displaypalemlib.c:150-176 | The bytes go out in order, words are read at even addresses only, and exactly the possible number of double transmissions is made. |
| Display.DoublesAreWords | 3rd_party/efm32pg1b/displaypalemlib.c:150-176 | The number of double transmissions is the number of aligned words that lie wholly within the bytes. |
| Display.SendPA | 3rd_party/efm32pg1b/display_ls013b7dh03.c:155-194 | The update has the exact length and parses back to the rows of the array: its k-th line of 18 bytes is the one-based line address, the k-th row and 0xFF; the trailer closes it, and nothing beyond the array is read. |
| Display.SendLine | 3rd_party/efm32pg1b/display_ls013b7dh03.c:175-180 | Sending a row, a dummy byte and the next address completes one line and begins the next. |
| Display.LineCompleted | 3rd_party/efm32pg1b/display_ls013b7dh03.c:175-180 | The lines sent before stay as they were. |
| RingIndex.NextCell | src/qs_pkg.h:43-48 | Incrementing a position with wrap-around is incrementing modulo the size. |
| RingIndex.DistinctCells | src/qs_pkg.h:43-48 | Bytes fewer than a lap apart never share a cell. |

## Left out

- The widths of the trace buffer's counters: `used`, `head` and `tail` are unbounded; a record of 2^32 bytes would be needed to wrap them. Queue, pool and tick counters are unbounded as well; they only ever count down from their initial values.
- QsTrace.QsTrace.constructor: the empty record and the target information that `initBuf` writes into the buffer are left out, which begins empty.
- Time stamps, dictionary records, 64-bit and floating-point fields: more records of the same kind.
- Critical sections, `volatile`, weak memory ordering and real interrupts: the steps are atomic under sequential consistency, with one producer and one consumer for the receive channel.
- The command parser of the receive channel behind the framing (`rxParseData_` and the command handlers), except for the global filter command: frames are handed on as bytes.
- Local filters as state: their values at the time of a call are part of the call.
- QsTrace.Trace: the recursion stands for the application's consecutive uses of the macros, during which the global filter stays the same.
- The split of long functions into helpers (`InsertRaw`, `InsertWord`, `InsertChars`, `AllOn`, `KernelGroupOn`, `StorePath`, `FindNext` and others) is the model's; it follows the order of the statements.
- Hsm: handlers answer each signal of a step once, as functions of the state; history transitions differ from others only in their trace record; trace output and assertions are not modelled, and the paths to enter are required to fit into the path array.
- Publish.PublishEvent, EventQueue.QEQueue.Post: the counter is modelled with 8 bits; PublishEvent asks that it does not run over, which EventLife shows to be necessary. Signals to the kernel's scheduler and scheduler locking are not modelled.
- EventLife: queue order is left to EventQueue; a state only counts the references from all queues. Static events, which are not counted, do not occur.
- EventManager: an event is an object that names its block, not the memory of the block itself; flushDeferred, newRef_ and deleteRef_ are only modelled as steps of EventLife.
- Calls in the middle of a tick are atomic, and each comes behind one of its critical sections; posts are the result of the tick, and what they lead to is among these calls.
- TimeEvents: wasDisarmed, the tick counter and the sharing of the flags in one byte are not modelled; arming an armed time event, which the source stops by an assertion, has no effect in TickScan.
- PrioritySet: element 0 and elements above the size of the variant, for which the source shifts out of range, and the count-leading-zeros versions of the logarithm in the ports.
- Display: an empty pixel array, which the source does not handle, the chip-select pin, delays and the wait for the end of the transmission.
- The kernels (QV, QK, QXK), semaphores and mutexes, QMsm state machines, subscription lists by signal, assertions, the test harness and the rest of the board support package.
