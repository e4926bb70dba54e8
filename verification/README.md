# The protocol core of nephele, modelled and proved

A Dafny model of the parts of nephele whose correctness does not show in any one function: the HPACK codec and the
scheduler and flow control of its HTTP/2 stack, and the framing, date and MIME codecs beside them. The model takes
the form of the code: where the code changes fields step by step the model has a class with those fields and methods
with loops, and every such method is proved against a specification on values, about which the theorems are stated.
`dafny verify dfyconfig.toml` checks everything.

## What is modelled

**Header compression** (RFC 7541).

* `RobinHood`, `HpackTableRep`, `HpackTable`: the encoder's dynamic table, a Robin Hood hash index over a deque of
  slots with per-name chains. `FifoTable` is the plain list it refines, for every hash function.
* `Bits`, `HuffmanCode`, `HuffmanCoder`, `HuffmanDecoder`: the 64-bit packing encoder and the nibble automaton. The code
  is any prefix code with the bounds of section 5.2, and the table of the automaton any table that unrolls it.
* `HpackWire`, `HpackBlock`, `HpackChunks`: what integers, strings, representations and blocks look like, what reading
  them yields, and that encoder and decoder stay in step over every run, however blocks are cut. `HpackExamples` holds
  the bytes against Appendix C, without the encoder.
* `HpackEncoder`, `HpackDecoder`, `HeaderFrames`, `HeaderReader`: the encoder with its limited buffer and its resumption
  in the next frame, the decoder with its cursor and deque, HEADERS and CONTINUATION frames written and put together.

**Streams** (sections 5 and 6 of RFC 7540).

* `StreamState`, `FlowControl`, `StreamStore`, `FrameBuffer`: stream states, signed windows, the slab with its six
  intrusive queues, and the frame queues that share another slab.
* `SendFlow`, `Sharing`, `SendBooks`, `Prioritize`: one connection window shared out among streams, payloads cut into DATA
  frames and remainders put back. `Scheduler.Valid` is the invariant all steps keep; what it says of capacity beyond the
  bounds of single streams depends on the ghost field `exact`, which is true until the last handle is dropped of an open
  stream that is not `Reclaimable`.
* `StreamLife`, `Streams`, `Backlog`, `StreamCourse`, `StreamRuns`: counters, handles, removal from the slab, GOAWAY and
  failure, progress of writing, how far the halves of a stream have come, and whole runs of a connection. `ImplicitReset`:
  what may follow a dropped handle.
* `RecvFlow`, `RecvRuns`: the mirrored accounting of received data, and whole runs of it.

**Smaller codecs.** `Framer` (length-delimited frames and the loop that reads them), `HttpDate`, `MimeType`.

## Where the code and its promise part

Each of these is a lemma or an exact condition in a contract; the code was kept as it is.

* Dropping the last handle of an open stream takes back what was asked for beyond the buffered data, whether or not it had
  been assigned, and leaves the stream asking for it still. That is without harm if and only if the stream is `Reclaimable`:
  it asked for nothing beyond, or nothing is buffered and all it asked for was assigned (`ImplicitReset.BreaksExactly`, over
  all runs that can follow, and `SendFlow.ImplicitResetKeepsBounds`). If less had been assigned than is taken back, the
  stream is left owing it, and the connection believes in more than its window (`SendFlow.ImplicitResetOwes`,
  `SendFlow.ImplicitResetOverdraws`); sending may then fail the assertion on the connection window. If enough had, the
  stream can be given capacity again that it does not need and carry it off when it closes, so that the connection is left
  with less. Everything but what is said of capacity is kept all the same (`Streams.Connection.Guarantees`).
* An empty DATA payload on a stream whose send window is negative fails the assertion in `FlowControl::send_data`, and
  while capacity is accounted for exactly nothing else does (`Prioritize.FailsExactly`); empty data received on a negative
  window likewise (`RecvFlow.PanicsExactly`).
* A closed stream waiting for capacity is taken off that queue without being let go. It is left in the slab for good if and
  only if it has no handle and is in no other queue (`StreamLife.SharingLoses`). So after every event that shares out
  capacity exactly those are left behind that only waited for capacity and were taken off the queue for it; all other
  events leave none (`StreamRuns.Handle`, from `LosesExactly`, `LosesServed` and `LosesNone` in the contracts of
  `Streams.Connection`). Where many streams are closed at once, only waiters are. `StreamLife.ClosedWaiter` is a state
  where that comes about. While capacity is shared out as it should be, who gets a turn can be told beforehand: a stream
  that takes no part is taken off the queue if and only if there is more to share out than the streams in front of it lack
  (`Sharing.TakenOffExactly`, and `LosesInTurn` in the contracts for an update of the connection window and for resets).
* Padding of DATA is stripped before the windows are charged, while a peer counts it (section 6.9.1 of RFC 7540). The two
  counts agree if and only if nothing was padded (`RecvRuns.ViewsAgreeExactly`), and what padding took is never returned
  (`RecvRuns.PaddingIsLost`): 255 frames of padding alone stop a peer for good (`RecvRuns.PaddingStarves`).
* A literal with a raw name loses it if a block is cut inside the value (`HpackChunks.RawNameIsLost`). This encoder never
  writes one. Every part may begin with a size update, so that one after a field, for which a whole block is refused, is
  admitted if the block is cut right in front of it, and only then (`HpackChunks.CutInFrontOfUpdate`).
* A size change that is pending while a block is resumed would be announced in the middle of the block
  (`HpackEncoder.Encoder.Encode`), where section 4.2 of RFC 7541 has no place for it. The connection applies settings only
  between blocks.
* Reducing and then restoring the initial window leaves the windows of streams that are done with sending behind
  (`SendFlow.ShrinkThenWiden`), in the end below what 32 bits hold (`SendFlow.LeftBehindForGood`).
* Parsing a date checks the ranges of the fields only, not the day against the month or the weekday
  (`HttpDate.ThereAndBack`); the two-digit year of RFC 850 is unambiguous for a century only (`HttpDate.AllFormsAgree`).
* A codec that takes the whole head off a frame reports a clean end for a stream that stops before the payload
  (`Framer.MissingPayloadSeenExactly`). The HTTP/2 configuration keeps the head and does not.
* A quoted MIME parameter that is never closed is read on from its last escape, so that what follows a semicolon in it
  becomes a parameter of its own, contrary to section 4.4 of the WHATWG standard (`MimeType.ValueIsStandard`,
  `MimeType.ReadTwiceExample`).
* A string whose coded length takes more than one byte is accepted only if the buffer has one byte more than it needs
  (`HpackEncoder.EncodeStr`).
* When the oldest remembered reset stream makes room, or expires, while it still has frames to send, the count is not
  reduced (`Streams.Connection.Expire`), and in the former case the new one is not remembered
  (`Streams.Connection.EnqueueResetExpiration`).

## Model

| member | source | states |
|---|---|---|
| `RobinHood.NothingBeyond` | nephele/src/proto/h2/hpack/table.rs:140-174 | a probe that stopped has missed nothing: no entry with the same home lies further on |
| `RobinHood.ShiftInKeepsOrder` | nephele/src/proto/h2/hpack/table.rs:260-291 | pushing entries on, from the place of a new one up to the next vacancy, keeps Robin Hood order (no gap between home and cell, no entry nearer home in front of one further from it) |
| `RobinHood.ShiftOutKeepsOrder` | nephele/src/proto/h2/hpack/table.rs:381-400 | shifting back up to a vacancy or an entry at home keeps Robin Hood order |
| `FifoTable.EvictIsLongestFit` | nephele/src/proto/h2/hpack/table.rs:321-335 | eviction keeps the longest run of newest entries that fits: what stays fits, and one more would not |
| `FifoTable.EvictAfterPush` | nephele/src/proto/h2/hpack/table.rs:223-292 | for every entry, also one larger than the table: evicting with the entry already counted is evicting first and then putting it in front, as section 4.4 of RFC 7541 says |
| `FifoTable.AddIsLongestFit` | nephele/src/proto/h2/hpack/decoder.rs:348-374 | adding an entry keeps the longest run of newest entries, the new one included, that fits; an entry larger than the table empties it |
| `FifoTable.EvictTwice` | nephele/src/proto/h2/hpack/table.rs:304-335 | two shrinks are one shrink to the smaller size |
| `FifoTable.FindEqual` | nephele/src/proto/h2/hpack/table.rs:176-221 | the newest entry equal to a header, or none only if there is none |
| `FifoTable.IndexKeepsNoDuplicates` | nephele/src/proto/h2/hpack/table.rs:121-221 | indexing never stores a header the list already has |
| `FifoTable.AnswersAre` | nephele/src/proto/h2/hpack/table.rs:121-221 | what indexing answers, told by what the position answered denotes: an equal header only if there is one, else the name if there is one, the static table before the list |
| `FifoTable.EntersExactly` | nephele/src/proto/h2/hpack/table.rs:121-174 | a header enters the list, and is then its newest entry, if and only if its name is not skipped, it is not sensitive, it charges at most three quarters of the table, and neither a static entry with a value nor an entry of the list equals it |
| `Headers.IndexStatic` | nephele/src/proto/h2/hpack/table.rs:511-599 | the first static entry equal to a header, if there is one with a value, else the first of its name, else none |
| `HpackTableRep.SomeVacancy` | nephele/src/proto/h2/hpack/table.rs:402-416 | with fewer slots than cells some cell is vacant, so every probe loop ends |
| `HpackTableRep.NextVacancy` | nephele/src/proto/h2/hpack/table.rs:49-61 | from any cell the next vacancy is reached after finitely many steps |
| `HpackTableRep.NameAbsent` | nephele/src/proto/h2/hpack/table.rs:140-174 | a lookup that reached the place of a name without meeting it proves that no slot has the name |
| `HpackTableRep.OldestAfterEvict` | nephele/src/proto/h2/hpack/table.rs:337-379 | once the last slot is gone, the oldest slots of their names are the old ones and the successor of the evicted one in its chain, and no other |
| `HpackTableRep.EvictMovesOn` | nephele/src/proto/h2/hpack/table.rs:337-379 | evicting a slot with a newer namesake and moving its cell on keeps the whole representation invariant, all homes unchanged |
| `HpackTableRep.EvictRemoves` | nephele/src/proto/h2/hpack/table.rs:337-400 | evicting the only slot of a name and shifting back keeps the whole representation invariant |
| `HpackTableRep.InsertNewName` | nephele/src/proto/h2/hpack/table.rs:223-302 | inserting a new name at its Robin Hood place keeps the whole representation invariant |
| `HpackTableRep.InsertHeldName` | nephele/src/proto/h2/hpack/table.rs:176-221 | linking the newest slot of a name to a new slot keeps the whole representation invariant |
| `HpackTableRep.DoubledHome` | nephele/src/proto/h2/hpack/table.rs:418-444 | doubling the capacity sends every home to itself or one old capacity further |
| `HpackTable.Table.constructor` | nephele/src/proto/h2/hpack/table.rs:64-87 | an empty table with the invariant |
| `HpackTable.Table.Index` | nephele/src/proto/h2/hpack/table.rs:121-138 | for any hash function: what position it answers, told by what that denotes in the static table and the list; the header is in the list afterwards, in front, if and only if it may be stored and is not there yet (not skipped, not sensitive, at most three quarters of the table, no equal static entry with a value); answers and list are those of a plain list, and the invariant is kept |
| `HpackTable.Table.IndexDynamic` | nephele/src/proto/h2/hpack/table.rs:140-174 | the same for headers that may enter the dynamic table |
| `HpackTable.Table.Lookup` | nephele/src/proto/h2/hpack/table.rs:140-174 | ends at the cell of the header's name, or at its Robin Hood place if no slot has that name |
| `HpackTable.Table.IndexOccupied` | nephele/src/proto/h2/hpack/table.rs:176-221 | the same for a name the table holds: an equal header is found if there is one, and otherwise one is added, unless sensitive |
| `HpackTable.Table.WalkChain` | nephele/src/proto/h2/hpack/table.rs:176-200 | the chain leads to the slot with the value, or to the newest of the name if none has it |
| `HpackTable.Table.InsertBehind` | nephele/src/proto/h2/hpack/table.rs:200-221 | a new value for a held name: evicted for and added in front, even if eviction removes the slot to link from |
| `HpackTable.Table.IndexVacant` | nephele/src/proto/h2/hpack/table.rs:223-292 | the same for a new name, whose place may move while entries are evicted |
| `HpackTable.Table.Resize` | nephele/src/proto/h2/hpack/table.rs:304-319 | the entries left are the longest newest run within the new size |
| `HpackTable.Table.Converge` | nephele/src/proto/h2/hpack/table.rs:326-335 | evicts exactly as far as needed; tells whether it evicted anything; the index stays right throughout |
| `HpackTable.Table.EvictOne` | nephele/src/proto/h2/hpack/table.rs:337-379 | removes exactly the oldest slot, and keeps slots and index in agreement |
| `HpackTable.Table.RemovePhaseTwo` | nephele/src/proto/h2/hpack/table.rs:381-400 | the backward shift restores the invariant for the slots without the evicted one |
| `HpackTable.Table.ReserveOne` | nephele/src/proto/h2/hpack/table.rs:402-416 | there is room for one more slot, the entries being the same |
| `HpackTable.Table.Grow` | nephele/src/proto/h2/hpack/table.rs:418-444 | twice the capacity, same slots, invariant kept: entries reinserted in ring order from one at home need no displacement |
| `HuffmanCode.EncodedInjective` | nephele/src/proto/h2/hpack/huffman/mod.rs:39-73 | for any prefix code, only one string has a given coded form |
| `HuffmanCode.EncodedFromBits` | nephele/src/proto/h2/hpack/huffman/mod.rs:17-37 | any bytes that are code words followed by at most seven one-bits are the coded form of those words |
| `HuffmanCode.DecodedIsPrefix` | nephele/src/proto/h2/hpack/huffman/mod.rs:83-100 | what was decoded so far is a prefix of the original, and the bits in hand begin the code of the rest |
| `HuffmanCode.DecodedOfEncoded` | nephele/src/proto/h2/hpack/huffman/mod.rs:17-73 | decoding undoes encoding, for every byte string |
| `HuffmanCoder.HoldsWord` | nephele/src/proto/h2/hpack/huffman/mod.rs:39-58 | oring a code word into the accumulator appends it to the pending bits |
| `HuffmanCoder.HoldsShift` | nephele/src/proto/h2/hpack/huffman/mod.rs:58-63 | shifting the 64-bit accumulator by eight, losing its top, drops exactly the byte put |
| `HuffmanCoder.Encode` | nephele/src/proto/h2/hpack/huffman/mod.rs:39-73 | writes the code words in order, padded with ones, or reports exactly when they do not fit |
| `HuffmanDecoder.StepKeepsBits` | nephele/src/proto/h2/hpack/huffman/mod.rs:83-100 | every step of any nibble table that unrolls the code accounts for every bit read |
| `HuffmanDecoder.StepMeetsNoError` | nephele/src/proto/h2/hpack/huffman/mod.rs:83-100 | reading a coded string never meets an error entry |
| `HuffmanDecoder.Automaton.Decode4` | nephele/src/proto/h2/hpack/huffman/mod.rs:83-100 | one nibble: error without a change, or the byte completed and the next state |
| `HuffmanDecoder.Decode` | nephele/src/proto/h2/hpack/huffman/mod.rs:17-37 | accepts exactly the strings the encoder can write, each with its own original |
| `HpackWire.ReadIntOfWritten` | nephele/src/proto/h2/hpack/encoder.rs:345-391 | reading an integer undoes writing it, whatever follows |
| `HpackWire.ReadStrOfWritten` | nephele/src/proto/h2/hpack/encoder.rs:295-343 | reading a string undoes writing it, whatever follows |
| `HpackWire.IntCut` | nephele/src/proto/h2/hpack/decoder.rs:252-298 | an integer cut short asks for more, and nothing of the input is lost |
| `HpackWire.StrCut` | nephele/src/proto/h2/hpack/decoder.rs:192-218 | a string cut short asks for more, and nothing of the input is lost |
| `HpackWire.ItemCut` | nephele/src/proto/h2/hpack/decoder.rs:77-145 | a representation cut short asks for more and keeps the table; its bytes are all kept exactly if the cut does not fall behind a raw name |
| `HpackWire.FieldKind` | nephele/src/proto/h2/hpack/encoder.rs:170-293 | the representation written for an indexed header, told by its first byte: an index, with indexing, without, or never indexed for a sensitive one |
| `HpackWire.NamelessKind` | nephele/src/proto/h2/hpack/encoder.rs:217-293 | a further value for a name is never to be indexed if and only if it is sensitive itself |
| `HpackExamples.Integers` | nephele/src/proto/h2/hpack/encoder.rs:345-391 | the integers of Appendix C.1 of RFC 7541 |
| `HpackExamples.LongInteger` | nephele/src/proto/h2/hpack/decoder.rs:252-298 | an integer that goes on after its fifth byte is refused |
| `HpackExamples.RawLiteral` | nephele/src/proto/h2/hpack/decoder.rs:170-218 | for all names and values below 127 bytes sent as they are: a literal read as in section 6.2 of RFC 7541, its first byte deciding alone whether it is stored |
| `HpackExamples.Huffman` | nephele/src/proto/h2/hpack/huffman/mod.rs:39-73 | Huffman coding from the most significant bit on, filled up with ones, on code words of Appendix B |
| `HpackExamples.WithIndexing` | nephele/src/proto/h2/hpack/decoder.rs:94-144 | Appendix C.2.1: a literal stored, charged 55, and found at index 62 from then on |
| `HpackExamples.WithoutIndexing` | nephele/src/proto/h2/hpack/decoder.rs:94-144 | Appendix C.2.2 to C.2.4: fields that leave the table as it is |
| `HpackBlock.IndexingFinds` | nephele/src/proto/h2/hpack/table.rs:97-119 | the position answered by indexing holds the header, or a header of its name |
| `HpackBlock.FieldRoundTrip` | nephele/src/proto/h2/hpack/encoder.rs:170-215 | a field read back is the field, and reading it changes the decoder's table as writing it changed the encoder's |
| `HpackBlock.NamelessRoundTrip` | nephele/src/proto/h2/hpack/encoder.rs:217-246 | a nameless field is read back with the name of the field before it |
| `HpackBlock.CoalesceAnnouncesLeastAndLast` | nephele/src/proto/h2/hpack/encoder.rs:46-72 | of several size changes the least is announced if it is below the size in force, and then the last, as section 4.2 of RFC 7541 demands |
| `HpackBlock.CoalescingIsResizing` | nephele/src/proto/h2/hpack/encoder.rs:46-72 | announcing the coalesced changes leaves the table that applying every change at once, in order, would have left |
| `HpackBlock.AnnounceRoundTrip` | nephele/src/proto/h2/hpack/encoder.rs:152-168 | the updates sent bring a synchronised decoder to the encoder's table |
| `HpackBlock.BlockRoundTrip` | nephele/src/proto/h2/hpack/encoder.rs:74-246 | a whole block decodes to its fields and leaves both tables the same |
| `HpackBlock.RunRoundTrip` | nephele/src/proto/h2/hpack/encoder.rs:46-246 | over every run of blocks and size changes within the decoder's limit: each block decodes to its fields, and after each step the decoder has the encoder's entries and maximum size |
| `HpackBlock.RunHoldsWorthyOnly` | nephele/src/proto/h2/hpack/table.rs:121-138 | from an empty table, over every run of blocks and size changes, the encoder's table never holds a header with a skipped name, a sensitive one, or one that the static table has with its value |
| `HpackBlock.PieceKind` | nephele/src/proto/h2/hpack/encoder.rs:170-293 | the first byte of a field, as a decoder tells representations apart: never to be indexed if and only if it is sensitive and not sent as an index; with indexing if and only if it entered the table |
| `HpackBlock.DecodeWithinLimit` | nephele/src/proto/h2/hpack/decoder.rs:77-163 | whatever bytes come, the decoder's table stays within its maximum, that within the limit announced, and after the first field the maximum stays what it is |
| `HpackChunks.CutAnywhere` | nephele/src/proto/h2/hpack/decoder.rs:77-145 | decoding a prefix and then what it left over with the rest is decoding it all |
| `HpackChunks.AnyParts` | nephele/src/proto/h2/codec/framed_read.rs:198-254 | the same for any number of parts |
| `HpackChunks.PartsRoundTrip` | nephele/src/proto/h2/codec/framed_read.rs:198-254 | however a block of this encoder is cut into parts, feeding the parts one by one yields its fields and the encoder's table |
| `HpackChunks.CutInFrontOfUpdate` | nephele/src/proto/h2/hpack/decoder.rs:77-145 | any block in two parts, the cut losing no name, comes to what it comes to whole, accepted or refused, except if the second part begins with a size update after a field: that is refused whole, and read on in the part |
| `HpackChunks.RawNameIsLost` | nephele/src/proto/h2/hpack/decoder.rs:170-218 | the boundary of that: a literal with a raw name, cut inside its value, loses the name |
| `HpackEncoder.EncodeInt` | nephele/src/proto/h2/hpack/encoder.rs:345-391 | writes the integer, and fails exactly if it does not fit |
| `HpackEncoder.EncodeStr` | nephele/src/proto/h2/hpack/encoder.rs:295-343 | writes the string behind its length, shifted up in place if the length takes more than one byte; fails exactly if the room is less than that takes, which for such a length is one byte more than is written |
| `HpackEncoder.MoveUp` | nephele/src/proto/h2/hpack/encoder.rs:328-336 | moves the coded string up within the buffer, last byte first, without damage |
| `HpackEncoder.TakeField` | nephele/src/proto/h2/hpack/encoder.rs:74-150 | a field taken off the list and indexed is owed; nothing is lost or repeated |
| `HpackEncoder.PayOwed` | nephele/src/proto/h2/hpack/encoder.rs:74-150 | once what is owed is written, exactly the rest is left |
| `HpackEncoder.WroughtAfter` | nephele/src/proto/h2/hpack/encoder.rs:74-150 | writing in two stages amounts to writing from the start |
| `HpackEncoder.Encoder.UpdateMaxSize` | nephele/src/proto/h2/hpack/encoder.rs:46-72 | the change is coalesced with those pending |
| `HpackEncoder.Encoder.EncodeSizeUpdates` | nephele/src/proto/h2/hpack/encoder.rs:152-168 | writes the pending updates and applies them to the table |
| `HpackEncoder.Encoder.EncodeHeader` | nephele/src/proto/h2/hpack/encoder.rs:170-215 | writes the bytes of the representation chosen, or fails exactly if there is less room than those and the slack of its value; the first byte marks a literal as never to be indexed if and only if the header is sensitive |
| `HpackEncoder.Encoder.EncodeHeaderWithoutName` | nephele/src/proto/h2/hpack/encoder.rs:217-246 | the same for a further value under the last name, which goes by its own mark |
| `HpackEncoder.Encoder.EncodeField` | nephele/src/proto/h2/hpack/encoder.rs:74-150 | indexes and writes one field; on failure nothing of it stays in the buffer, and what is owed is what was to be written |
| `HpackEncoder.Encoder.Encode` | nephele/src/proto/h2/hpack/encoder.rs:74-150 | announced size changes first, also in the middle of a block; what is written and what is left over make up what was to be written, the table ends up the same, and it stops only at a field that did not fit |
| `HpackDecoder.DecodeInt` | nephele/src/proto/h2/hpack/decoder.rs:252-298 | reads an integer as specified; the cursor moves by what it took |
| `HpackDecoder.EntryTable.Insert` | nephele/src/proto/h2/hpack/decoder.rs:348-358 | the list is the longest run of the new entry and those before it that fits, empty if the entry is larger than the table: section 4.4 of RFC 7541 |
| `HpackDecoder.EntryTable.SetMaxSize` | nephele/src/proto/h2/hpack/decoder.rs:360-363 | evicts down to the new size |
| `HpackDecoder.EntryTable.Reserve` | nephele/src/proto/h2/hpack/decoder.rs:365-374 | evicts exactly as far as needed |
| `HpackDecoder.EntryTable.Consolidate` | nephele/src/proto/h2/hpack/decoder.rs:376-391 | evicts exactly as far as needed; the deque never runs dry before |
| `HpackWire.Load` | nephele/src/proto/h2/hpack/decoder.rs:227-249 | every byte begins a representation, told apart by its leading bits as section 6 of RFC 7541 has them |
| `HpackDecoder.Decoder.QueueSizeUpdate` | nephele/src/proto/h2/hpack/decoder.rs:68-75 | the largest bound queued is the one to take effect |
| `HpackDecoder.Decoder.DecodeString` | nephele/src/proto/h2/hpack/decoder.rs:192-218 | reads a string as specified; a raw one is cut off the buffer at once |
| `HpackDecoder.Decoder.DecodeLiteral` | nephele/src/proto/h2/hpack/decoder.rs:170-190 | reads a literal as specified |
| `HpackDecoder.Decoder.ProcessSizeUpdate` | nephele/src/proto/h2/hpack/decoder.rs:147-163 | a size update within the limit evicts; one beyond it is refused, and changes nothing |
| `HpackDecoder.Decoder.DecodeItem` | nephele/src/proto/h2/hpack/decoder.rs:94-144 | one turn of the loop reads one representation as specified, the table included |
| `HpackDecoder.Decoder.Decode` | nephele/src/proto/h2/hpack/decoder.rs:77-145 | reports the headers of all representations there are and leaves exactly the bytes that are still incomplete |
| `HeaderFrames.PatchHead` | nephele/src/proto/h2/frame/headers.rs:518-562 | overwriting length and flag of a head already written gives the head that should have been there |
| `HeaderFrames.EncodeFrame` | nephele/src/proto/h2/frame/headers.rs:518-562 | one frame within the maximum length, with its true length and END_HEADERS exactly if nothing is left |
| `HeaderFrames.FrameProgress` | nephele/src/proto/h2/hpack/encoder.rs:74-150 | if every field is accepted by an empty frame, every frame but the last carries something |
| `HeaderFrames.EncodeBlock` | nephele/src/proto/h2/frame/headers.rs:444-458 | the frames of a block: payloads make up the block, END_HEADERS is on the last only, and a decoder fed the payloads ends up with the fields and the encoder's table |
| `HeaderReader.ParseHeadOfFrame` | nephele/src/proto/h2/frame/head.rs:37-71 | the head is read back as written, the length field being that of the payload |
| `HeaderReader.HeadLayout` | nephele/src/proto/h2/frame/head.rs:59-71 | the nine bytes of a head one by one: length, kind, flags, stream identifier |
| `HeaderReader.FrameExample` | nephele/src/proto/h2/frame/headers.rs:71-75 | HEADERS and CONTINUATION heads byte by byte, and each flag by its bit |
| `HeaderReader.PaddingIsDropped` | nephele/src/proto/h2/frame/headers.rs:107-160 | whatever padding and priority is put around a fragment, loading it yields the fragment, or an error exactly if the stream is to depend on itself |
| `HeaderReader.LoadedWasWrapped` | nephele/src/proto/h2/frame/headers.rs:107-160 | and nothing else loads: where a fragment comes out of a payload, some priority and padding were put around it |
| `HeaderReader.WholeIfComplete` | nephele/src/proto/h2/codec/framed_read.rs:74-254 | whatever fragments come, of this encoder or not: the block is handed out if and only if all of them together decode and nothing is left over, and otherwise it is an error of the connection |
| `HeaderReader.Reader.DecodeFrame` | nephele/src/proto/h2/codec/framed_read.rs:50-260 | only the CONTINUATION of the block in progress is admitted; payloads are decoded with what the last one left over |
| `HeaderReader.ReceiveBlock` | nephele/src/proto/h2/codec/framed_read.rs:198-254 | frame by frame a block comes out whole with the last one, and every other asks for more |
| `HeaderReader.Exchange` | nephele/src/proto/h2/codec/framed_read.rs:74-254 | from one end to the other: a list of fields written as frames and read back is the list, and both ends have the same table |
| `Framer.OneMoreCome` | nephele/src/common/codec/length_delimited.rs:55-147 | one attempt at a frame comes to the same whether or not more bytes are there already |
| `Framer.StreamCutAnywhere` | nephele/src/common/codec/length_delimited.rs:55-147 | framing does not depend on where the stream is cut, for every configuration that makes progress |
| `Framer.LengthDelimitedCodec.DecodeHead` | nephele/src/common/codec/length_delimited.rs:55-111 | reads the length of the frame, or says what is wrong with it |
| `Framer.LengthDelimitedCodec.Decode` | nephele/src/common/codec/length_delimited.rs:122-147 | takes one frame off the buffer if it is all there |
| `Framer.Framed.DecodeEof` | nephele/src/common/codec/decoder.rs:11-22 | at the end of the stream what is left is a whole frame, nothing, or an error |
| `Framer.Framed.PollNext` | nephele/src/common/codec/framed_impl.rs:115-147 | for every sequence of reads: hands out the next frame there is in all bytes read so far, and waits, ends or fails only when there is none; the loop's own assertion never fails |
| `Framer.StreamIsFrames` | nephele/src/proto/h2/codec/mod.rs:37-42 | as configured for HTTP/2, frames and leftover make up the stream, each frame being nine bytes and its length (section 4.1 of RFC 7540), and what is left is the beginning of one more or too long |
| `Framer.FramesComeBack` | nephele/src/proto/h2/codec/mod.rs:37-42 | frames put on a stream come off it as they were |
| `Framer.BlockComesBack` | nephele/src/proto/h2/frame/headers.rs:518-562 | the frames of a header block, run together and cut anywhere, come off the stream one by one |
| `Framer.CleanEndIsWhole` | nephele/src/common/codec/framed_impl.rs:115-147 | as configured for HTTP/2 a stream ends cleanly if and only if it held whole frames and nothing else |
| `Framer.MissingPayloadSeenExactly` | nephele/src/common/codec/decoder.rs:11-22 | for every configuration that makes progress: no stream that stops between a head and its payload ends cleanly if and only if some of the head stays on the frame, or no admitted length leaves a payload |
| `Framer.MissingPayloadSeen` | nephele/src/common/codec/length_delimited.rs:55-147 | such a configuration is back at a head whenever a stream ends cleanly |
| `Framer.MissingPayloadUnseen` | nephele/src/common/codec/decoder.rs:11-22 | for any other the head with the largest admitted length, alone, is a stream that ends cleanly while its payload is awaited |
| `StreamStore.ChainPush` | nephele/src/proto/h2/proto/streams/store.rs:222-251 | linking one more key behind the tail appends it |
| `StreamStore.ChainPop` | nephele/src/proto/h2/proto/streams/store.rs:255-275 | unlinking the head drops it |
| `StreamStore.OneChainChanged` | nephele/src/proto/h2/proto/streams/store.rs:204-293 | what is done to the links of one queue leaves every other queue as it was |
| `StreamStore.Store.Push` | nephele/src/proto/h2/proto/streams/store.rs:222-251 | appends a stream unless it is queued already; every other queue is as it was |
| `StreamStore.Store.Pop` | nephele/src/proto/h2/proto/streams/store.rs:255-275 | takes off the first, whose key is never dangling; every other queue is as it was |
| `StreamStore.Store.Insert` | nephele/src/proto/h2/proto/streams/store.rs:94-105 | a new stream is in the index and in no queue |
| `StreamStore.Store.Unlink` | nephele/src/proto/h2/proto/streams/store.rs:312-315 | takes the identifier out of the index, the last one taking its place |
| `StreamStore.Store.Remove` | nephele/src/proto/h2/proto/streams/store.rs:304-310 | frees a stream that no queue and no index entry refers to; all queues stay intact |
| `FrameBuffer.Buffer.PushBack` | nephele/src/proto/h2/proto/streams/buffer.rs:40-55 | appends to the frames of one stream; the frames of all others in the same slab are unchanged |
| `FrameBuffer.Buffer.PushFront` | nephele/src/proto/h2/proto/streams/buffer.rs:57-72 | puts in front of the frames of one stream; all others are unchanged |
| `FrameBuffer.Buffer.PopFront` | nephele/src/proto/h2/proto/streams/buffer.rs:74-92 | takes the first frame of one stream; all others are unchanged |
| `FlowControl.Flow.IncWindow32` | nephele/src/proto/h2/proto/streams/flow_control.rs:64-84 | the wrapping sum of 32 bits gives the true sum, or the error for one above 2^31 - 1, exactly for increments of 31 bits |
| `FlowControl.Flow.UnclaimedCapacity` | nephele/src/proto/h2/proto/streams/flow_control.rs:47-62 | an update is due if and only if what may be restored exceeds the window, and by at least half of the window; the increment is all of it |
| `StreamState.State.SendOpen` | nephele/src/proto/h2/proto/streams/state.rs:43-80 | HEADERS may be sent if and only if the stream was not reset and the sending half is still waiting; they start it, or end it with END_STREAM, and leave the receiving half alone |
| `StreamState.State.RecvOpen` | nephele/src/proto/h2/proto/streams/state.rs:82-132 | the same for HEADERS received and the receiving half; they open the stream if and only if it was idle |
| `StreamState.State.RecvClose` | nephele/src/proto/h2/proto/streams/state.rs:157-174 | END_STREAM may be received if and only if the stream is open for that; it ends the receiving half and leaves the other alone |
| `StreamState.SendCloses` | nephele/src/proto/h2/proto/streams/state.rs:216-228 | END_STREAM sent ends the sending half and leaves the other alone |
| `StreamState.HalvesDecide` | nephele/src/proto/h2/proto/streams/state.rs:253-328 | a stream has come to its end if and only if both halves are done; whether it may send data, receive data or expects its first HEADERS is decided by the half in question |
| `SendFlow.WorkConserving` | nephele/src/proto/h2/proto/streams/prioritize.rs:247-274 | while any connection capacity is unassigned, every stream that takes part has all it asks for or all its window admits |
| `SendFlow.WithinConnection` | nephele/src/proto/h2/proto/streams/prioritize.rs:276-333 | no stream holds more than the connection window |
| `SendFlow.ClosedHoldsNothing` | nephele/src/proto/h2/proto/streams/stream.rs:132-145 | a stream that can be removed holds no capacity |
| `SendFlow.ShareFits` | nephele/src/proto/h2/proto/streams/prioritize.rs:276-333 | giving a stream its share keeps every stream within its bounds and, while capacity is accounted for exactly, conserves it and leaves nobody out of line |
| `SendFlow.SendKeeps` | nephele/src/proto/h2/proto/streams/flow_control.rs:107-119 | what passes the assertion on both windows is taken off both, and keeps all bounds and, while capacity is accounted for exactly, conservation |
| `SendFlow.WindowsSuffice` | nephele/src/proto/h2/proto/streams/flow_control.rs:107-119 | while capacity is accounted for exactly, what is assigned passes the assertion on both windows |
| `SendFlow.ImplicitResetKeepsBounds` | nephele/src/proto/h2/proto/streams/prioritize.rs:228-235 | an implicit reset keeps the bounds of a stream if and only if nothing was asked for beyond the buffered data, or all of it had been assigned and nothing is buffered |
| `SendFlow.ImplicitResetOwes` | nephele/src/proto/h2/proto/streams/prioritize.rs:228-235 | if less had been assigned than is taken back, the stream owes the rest, and what the connection and all other streams have to send exceeds the window by as much |
| `SendFlow.ImplicitResetOverdraws` | nephele/src/proto/h2/proto/streams/prioritize.rs:228-235 | it can come to that: an instance that meets all invariants |
| `ImplicitReset.BreaksExactly` | nephele/src/proto/h2/proto/streams/prioritize.rs:228-235 | for every open stream, alone on its connection and nothing of it in flight: some run of window updates, settings, writes and RST_STREAM after its last handle was dropped ends with the stream closed and the connection left with more or less than its window, if and only if the stream was not reclaimable; with more if it was left owing, with less if not |
| `ImplicitReset.AloneIsValid` | nephele/src/proto/h2/proto/streams/prioritize.rs:247-333 | the streams that is said of are all that the invariant of the scheduler admits |
| `SendFlow.ShrinkFits` | nephele/src/proto/h2/proto/streams/send.rs:388-421 | a smaller window gives back exactly what was assigned beyond it; nothing is created or lost |
| `SendFlow.OneMoreWidened` | nephele/src/proto/h2/proto/streams/send.rs:424-431 | widening stream by stream leaves those already widened as they are but for capacity granted |
| `SendFlow.ShrinkThenWiden` | nephele/src/proto/h2/proto/streams/send.rs:375-436 | shrinking and widening the initial window again restores a window exactly if the stream was not done with sending |
| `SendFlow.LeftBehindForGood` | nephele/src/proto/h2/proto/streams/send.rs:375-436 | such a window falls below what 32 bits hold when a peer moves its initial window to and fro three times |
| `Sharing.TurnComes` | nephele/src/proto/h2/proto/streams/prioritize.rs:247-274 | with so much to share out a waiting stream has a turn if and only if those in front of it lack less than that |
| `Sharing.TakenOffExactly` | nephele/src/proto/h2/proto/streams/prioritize.rs:247-333 | a waiting stream is off the queue afterwards if and only if there was more than those in front of it lack, and enough for itself; told from the state before |
| `SendBooks.BookGiven` | nephele/src/proto/h2/proto/streams/prioritize.rs:85-142 | a payload queued is accounted for behind those given before |
| `SendBooks.BookSlice` | nephele/src/proto/h2/proto/streams/prioritize.rs:505-564 | a slice cut off the first payload continues what was sent; nothing was given up before; END_STREAM goes out just when it finishes the last payload, and then everything given has been sent |
| `SendBooks.BookPutBack` | nephele/src/proto/h2/proto/streams/prioritize.rs:437-449 | the rest of a payload put back in front restores the order |
| `Prioritize.Scheduler.TryAssignCapacity` | nephele/src/proto/h2/proto/streams/prioritize.rs:276-333 | gives a stream exactly what it wants and the connection has, queues it for more only if the connection ran out, and for sending if it has data; no subtraction underflows |
| `Prioritize.FailsExactly` | nephele/src/proto/h2/proto/streams/prioritize.rs:505-564 | while capacity is accounted for exactly, an assertion on a window fails on sending if and only if the payload is empty and the window of its stream negative |
| `Prioritize.Scheduler.AssignConnectionCapacity` | nephele/src/proto/h2/proto/streams/prioritize.rs:247-274 | shares out first come, first served, until nothing is left or nobody waits: while capacity is shared out as it should be, exactly who has a turn, what each gets, what is left and who waits again, told from the state before; nobody new is queued for capacity, and for sending only who takes part |
| `Prioritize.Scheduler.ReserveCapacity` | nephele/src/proto/h2/proto/streams/prioritize.rs:144-183 | asking for less returns what is held too much, asking for more adds to it; nothing else changes |
| `Prioritize.Scheduler.SendData` | nephele/src/proto/h2/proto/streams/prioritize.rs:85-142 | on an error nothing changes; otherwise the payload is queued, capacity asked for, and END_STREAM closes the stream |
| `Prioritize.Scheduler.PopStream` | nephele/src/proto/h2/proto/streams/prioritize.rs:482-618 | sends from the first stream in line the smallest of payload, frame size and capacity; panics exactly if the window of the stream is negative or that of the connection too small for that |
| `Prioritize.Scheduler.SendSlice` | nephele/src/proto/h2/proto/streams/prioritize.rs:505-564 | takes the slice off both windows, the request and the buffered count; neither window is exceeded |
| `Prioritize.Scheduler.ReclaimFrame` | nephele/src/proto/h2/proto/streams/prioritize.rs:383-435 | what the codec left of a payload is the first frame of its stream again, unless the stream was reset |
| `Prioritize.Scheduler.PushBackFrame` | nephele/src/proto/h2/proto/streams/prioritize.rs:437-449 | puts the frame in front and the stream in line |
| `Prioritize.Scheduler.ClearQueue` | nephele/src/proto/h2/proto/streams/prioritize.rs:451-466 | gives up everything queued and in flight of the stream, of no other |
| `Prioritize.Scheduler.ReclaimAllCapacity` | nephele/src/proto/h2/proto/streams/prioritize.rs:222-226 | the stream holds nothing any more, what it held is shared out, and nobody new is queued for capacity |
| `Prioritize.Scheduler.RecvErr` | nephele/src/proto/h2/proto/streams/send.rs:365-373 | the stream is closed, empty and holds nothing |
| `Prioritize.Scheduler.SendReset` | nephele/src/proto/h2/proto/streams/send.rs:140-192 | RST_STREAM takes the place of all that was queued; a reset or finished stream gets none |
| `Prioritize.Scheduler.SendTrailers` | nephele/src/proto/h2/proto/streams/send.rs:226-251 | trailers end the stream and return what was asked for beyond the buffered data |
| `Prioritize.Scheduler.SendHeaders` | nephele/src/proto/h2/proto/streams/send.rs:100-138 | HEADERS are queued; without leave to open the stream waits for it |
| `Prioritize.Scheduler.OpenNext` | nephele/src/proto/h2/proto/streams/prioritize.rs:620-633 | the first that waits to be opened is scheduled |
| `Prioritize.Scheduler.ScheduleImplicitReset` | nephele/src/proto/h2/proto/streams/send.rs:194-209 | a reset is scheduled behind the data queued, and what was asked for beyond is taken back, assigned or not; all invariants are kept, those of capacity if the stream is reclaimable or was closed |
| `Prioritize.Scheduler.RecvStreamWindowUpdate` | nephele/src/proto/h2/proto/streams/prioritize.rs:185-208 | widens the window and gives the stream its share; fails exactly if it would become too large |
| `Prioritize.Scheduler.RecvConnectionWindowUpdate` | nephele/src/proto/h2/proto/streams/prioritize.rs:210-220 | what is admitted is shared out at once, first come, first served |
| `Prioritize.Scheduler.ShrinkWindows` | nephele/src/proto/h2/proto/streams/send.rs:388-421 | every window shrinks, below zero if need be, and what was assigned beyond is collected and shared out again |
| `Prioritize.Scheduler.RemoveStream` | nephele/src/proto/h2/proto/streams/store.rs:304-310 | a stream freed held no capacity while capacity is accounted for exactly; the invariants are kept |
| `StreamLife.LivingCounted` | nephele/src/proto/h2/proto/streams/counts.rs:41-59 | the counters stay exact when a stream is counted |
| `StreamLife.LivingUncounted` | nephele/src/proto/h2/proto/streams/counts.rs:123-135 | a counted stream's counter is positive, and the counters stay exact when it no longer counts |
| `StreamLife.LeftByTransition` | nephele/src/proto/h2/proto/streams/counts.rs:90-121 | what a transition takes away was closed and had no handle; others at most stop being counted |
| `StreamLife.TransitionLosesNone` | nephele/src/proto/h2/proto/streams/counts.rs:90-121 | a closed stream that went through its transition is not left in the slab with nothing referring to it, nor is any other by that |
| `StreamLife.SharingLoses` | nephele/src/proto/h2/proto/streams/prioritize.rs:247-274 | of sharing out capacity: a stream is left so if and only if it was before, or it was closed, nothing but the queue for capacity referred to it, and it was taken off that queue |
| `StreamLife.SharedDead` | nephele/src/proto/h2/proto/streams/prioritize.rs:178-274 | whoever is newly queued for capacity or sending takes part in sending, so that of a closed stream without a handle at most its place in the queue for capacity changes |
| `StreamLife.ServedGetLost` | nephele/src/proto/h2/proto/streams/prioritize.rs:247-274 | if no stream was left so before, exactly those are afterwards that only waited for capacity and were taken off the queue for it |
| `StreamLife.ClosedWaiter` | nephele/src/proto/h2/proto/streams/prioritize.rs:247-274 | a state with such a stream that meets all invariants of capacity and counters, and the state it is left in once the connection gets one byte |
| `StreamLife.ReceivingKeepsBounds` | nephele/src/proto/h2/proto/streams/state.rs:82-174 | receiving HEADERS or END_STREAM neither opens nor closes a stream for sending |
| `Streams.Connection.ReleasedIsUnreferenced` | nephele/src/proto/h2/proto/streams/stream.rs:132-145 | the test of the source is exactly: closed, no handle, in none of the six queues |
| `Streams.Connection.TransitionAfter` | nephele/src/proto/h2/proto/streams/counts.rs:90-121 | a closed stream leaves the index and the counters, and is freed if and only if nothing refers to it; none is left behind |
| `Streams.Connection.SendRequest` | nephele/src/proto/h2/proto/streams/streams.rs:569-635 | opens a stream within the peer's limit, or has it wait, its HEADERS queued; its sending half is started, or done with END_STREAM; denied exactly after the connection failed, when identifiers are used up, while an earlier stream waits, on a server, or for unsendable headers, which use up an identifier |
| `Streams.Connection.RecvRequest` | nephele/src/proto/h2/proto/streams/streams.rs:97-200 | the peer opens a stream, its receiving half started, or done with END_STREAM; ignored beyond the last one announced, refused over the limit, reset for bad headers |
| `Streams.Connection.NextIncoming` | nephele/src/proto/h2/proto/streams/streams.rs:476-492 | the first that waits is accepted, with a handle |
| `Streams.Connection.SendData` | nephele/src/proto/h2/proto/streams/streams.rs:773-793 | as the scheduler's: the payload is queued behind what there is and asks for the capacity it lacks, and END_STREAM ends the sending half and no other; a stream closed by it is let go |
| `Streams.Connection.SendTrailers` | nephele/src/proto/h2/proto/streams/streams.rs:795-811 | HEADERS with END_STREAM are queued and end the sending half; a stream closed by that is let go |
| `Streams.Connection.SendResponse` | nephele/src/proto/h2/proto/streams/streams.rs:825-845 | exactly the first HEADERS are admitted; they are queued and start the sending half, or end it with END_STREAM |
| `Streams.Connection.ReserveCapacity` | nephele/src/proto/h2/proto/streams/streams.rs:915-924 | what is asked for comes on top of what is buffered, unless more is asked for of a stream closed for sending; while the connection has some to spare the stream then holds as much of it as its window admits; others at most gain |
| `Streams.Connection.RecvEndStream` | nephele/src/proto/h2/proto/streams/state.rs:157-174 | END_STREAM ends the receiving half and leaves the other alone, and a stream done with both is let go; an error exactly on an idle stream, one reset, or one that ended it before |
| `Streams.Connection.RecvHeaders` | nephele/src/proto/h2/proto/streams/streams.rs:97-200 | headers of a response or trailers: the first start the receiving half, END_STREAM ends it, the other half stays; what is wrong with them resets the stream, or is an error of the connection exactly for END_STREAM on a half that was done or a stream reset by the peer; only trailers without END_STREAM leave the stream remembered as reset; exactly which others are left behind |
| `Streams.Connection.RecvStreamError` | nephele/src/proto/h2/proto/streams/streams.rs:1207-1221 | a stream error resets the stream without remembering it, and lets it go if nothing refers to it; exactly which others are left behind, told beforehand while capacity is shared out as it should be |
| `Streams.Connection.RecvReset` | nephele/src/proto/h2/proto/streams/streams.rs:256-298 | RST_STREAM received: the stream is closed, empty, holds nothing, and is gone if nothing refers to it; exactly which others are left behind, told beforehand while capacity is shared out as it should be |
| `Streams.Connection.EnqueueResetExpiration` | nephele/src/proto/h2/proto/streams/recv.rs:646-663 | only so many reset streams are remembered, the oldest making room; exactly what becomes of queue, count and that stream |
| `Streams.Connection.Expire` | nephele/src/proto/h2/proto/streams/recv.rs:687-696 | the longest remembered stream is let go, and no longer counted as reset if and only if it is closed by then |
| `Streams.Connection.SendReset` | nephele/src/proto/h2/proto/streams/streams.rs:813-823 | a reset stream has nothing to send but RST_STREAM, not even that if it had come to its end and sent everything; it holds nothing, and is remembered, the oldest making room if it must; it is gone if and only if nothing is left of it; exactly which others are left behind, told beforehand while capacity is shared out as it should be |
| `Streams.Connection.DropRef` | nephele/src/proto/h2/proto/streams/streams.rs:1128-1173 | with the last handle an open stream, whatever it had asked for, is to be reset behind the frames it has queued, and is in line for that; it is gone if and only if it is closed and nothing else refers to it; the invariants of capacity go on unless the stream was open, lost its last handle and was not reclaimable |
| `Streams.Connection.RecvStreamWindowUpdate` | nephele/src/proto/h2/proto/streams/send.rs:333-350 | widens the stream's window, or resets it exactly if the window would become too large |
| `Streams.Connection.RecvConnectionWindowUpdate` | nephele/src/proto/h2/proto/streams/streams.rs:364-394 | what the peer admits is shared out at once, first come, first served; exactly those streams are left in the slab with nothing referring to them that had closed, only waited for capacity, and had a turn: those behind streams that lack less than there is to share out |
| `Streams.Connection.ApplyInitialWindow` | nephele/src/proto/h2/proto/streams/send.rs:375-436 | every window in the index moves by the difference, below zero if need be; fails exactly if one would become too large |
| `Streams.Connection.WidenWindows` | nephele/src/proto/h2/proto/streams/send.rs:424-431 | all windows widened, or the first that would become too large has its stream reset, and no other stream moved on |
| `Streams.Connection.SchedulePendingOpen` | nephele/src/proto/h2/proto/streams/prioritize.rs:620-633 | streams are opened in turn, as many as the limit admits |
| `Streams.Connection.PopFrame` | nephele/src/proto/h2/proto/streams/prioritize.rs:482-618 | what goes out is the first frame of a stream, of a payload as much as frame size and capacity admit, within the connection window, and behind the last one the reset that is due; the stream stays in line if it has more; nothing to send only if no open stream can send; panics exactly where an assertion on a window fails; no stream is left behind |
| `Streams.Connection.WriteOne` | nephele/src/proto/h2/proto/streams/prioritize.rs:335-381 | one round of writing; what goes out is the first frame of a stream once the codec handed back what it did not send, continues what was sent of it and makes the backlog smaller; nothing goes out only if no stream that may be opened can send |
| `Streams.Connection.CloseAll` | nephele/src/proto/h2/proto/streams/store.rs:119-149 | every stream is visited although visiting may unlink it; those beyond the last one named are closed, for the given cause unless they had closed before, the others at most get capacity |
| `Streams.Connection.RecvGoAway` | nephele/src/proto/h2/proto/streams/streams.rs:326-358 | GOAWAY closes exactly the streams beyond the last that is answered; an error exactly if a smaller one was named before |
| `Streams.Connection.RecvErr` | nephele/src/proto/h2/proto/streams/streams.rs:300-324 | an error of the connection closes every stream, and all capacity is back |
| `Streams.Connection.RecvEof` | nephele/src/proto/h2/proto/streams/streams.rs:696-725 | every stream is closed, all capacity is back with the connection, the queues are empty, and streams with a handle are still there |
| `Streams.Connection.Guarantees` | nephele/src/proto/h2/proto/streams/counts.rs:41-135 | in every state the steps modelled reach, whatever was reset and however: no queued or in-flight key dangles; the counters are exact; what is out of the index is closed; what was sent is a prefix of what was given; each stream holds no more than its window and its request |
| `Streams.Connection.CapacityGuarantees` | nephele/src/proto/h2/proto/streams/prioritize.rs:247-333 | and until a handle is dropped that upsets the sharing: capacity is conserved; no stream holds more than the connection window; nothing is left over that anybody wants; whoever can send is in line; closed streams hold nothing; the only assertion that can fail is that for an empty payload on a negative window |
| `Backlog.OutIsLess` | nephele/src/proto/h2/proto/streams/prioritize.rs:482-618 | every frame written makes what is left to write smaller, the remainder in flight counted in |
| `Streams.Connection.Quiescent` | nephele/src/proto/h2/proto/streams/prioritize.rs:335-381 | when nothing more can be written, a stream that was opened has sent all it was given, with END_STREAM if that was given, unless it was given up; or its own window is used up, or the connection has nothing to assign |
| `StreamRuns.WriteAll` | nephele/src/proto/h2/proto/streams/prioritize.rs:335-381 | writing round after round ends, and then that holds of every stream that was opened; all are if the limit of the peer admits them; an assertion fails only for an empty payload on a negative window |
| `StreamRuns.Run` | nephele/src/proto/h2/proto/streams/streams.rs:63-770 | over every run of events in any order, until an assertion on a window fails: the invariants hold; what was written of a stream is a prefix of what was given, in order and once; END_STREAM is written only if everything given is, and nothing after it; the halves of every stream are as far as what was sent and received moved them, so that one that was not given up is closed, or gone, if and only if END_STREAM was both taken from its user and received; the invariants of capacity hold as long as no last handle was dropped of an open stream that was not reclaimable, and so long only an empty payload on a negative window panics; without sharing of capacity no stream is left behind |
| `StreamCourse.OneMoreTold` | nephele/src/proto/h2/proto/streams/state.rs:43-228 | what one event sent, received or gave up carries the account of all streams on: heard of, how far either half is, given up, closed, gone |
| `StreamCourse.ClosedExactly` | nephele/src/proto/h2/proto/streams/state.rs:43-228 | a stream that was not given up is closed, or gone, exactly if END_STREAM went both ways; one that is not there was otherwise never heard of |
| `StreamRuns.Handle` | nephele/src/proto/h2/proto/streams/streams.rs:63-770 | every event keeps the invariants unless an assertion on a window fails; payloads are taken and slices written as the books say; only a handle dropped on an open stream that is not reclaimable ends the invariants of capacity; an event that shares out no capacity leaves no stream behind; any other, unless it closes all or many streams, exactly those that only waited for capacity and were taken off that queue, which for window updates of the connection and resets can be told from the state before |
| `RecvFlow.UpdateRestores` | nephele/src/proto/h2/proto/streams/flow_control.rs:47-62 | an update that is due is positive, admissible, and restores the window |
| `RecvFlow.UsedUpMeansDue` | nephele/src/proto/h2/proto/streams/flow_control.rs:47-62 | a window kept here that is used up with everything released has an update due |
| `RecvFlow.NotDueMeansWide` | nephele/src/proto/h2/proto/streams/flow_control.rs:47-62 | while no update is due the window is more than two thirds of what it may be restored to |
| `RecvFlow.ContentAsAnnounced` | nephele/src/proto/h2/proto/streams/stream.rs:169-192 | of an announced length no more than that is admitted, in however many pieces, and the end if and only if all of it came |
| `RecvFlow.PanicsExactly` | nephele/src/proto/h2/proto/streams/recv.rs:408-491 | the assertion of a stream's window fails exactly for empty data, otherwise in order, while the window is negative |
| `RecvFlow.Received` | nephele/src/proto/h2/proto/streams/recv.rs:462-491 | data accepted is unread, taken off the window and off the announced length, and END_STREAM ends the receiving half and no other |
| `RecvFlow.VerdictIs` | nephele/src/proto/h2/proto/streams/recv.rs:408-514 | when exactly data is an error of the connection, of its stream or of its flow control, told from the windows, the announced length and the state |
| `RecvFlow.Receiver.RecvData` | nephele/src/proto/h2/proto/streams/streams.rs:202-254 | which data is accepted, ignored or refused, and what each does to both windows and to what is unread |
| `RecvFlow.Receiver.RecvContent` | nephele/src/proto/h2/proto/streams/recv.rs:408-491 | data for a stream that expects some |
| `RecvFlow.Receiver.IgnoreData` | nephele/src/proto/h2/proto/streams/recv.rs:493-498 | data nobody will read is released at once |
| `RecvFlow.Receiver.ConsumeConnectionWindow` | nephele/src/proto/h2/proto/streams/recv.rs:500-514 | fails exactly if the connection window is too small, and then changes nothing |
| `RecvFlow.Receiver.ReleaseCapacity` | nephele/src/proto/h2/proto/streams/recv.rs:290-317 | moves released bytes back to both windows, and queues the stream for an update if and only if what it may restore exceeds its window by at least half of that |
| `RecvFlow.Receiver.DropRef` | nephele/src/proto/h2/proto/streams/recv.rs:319-336 | what a dropped stream left unread is released to the connection |
| `RecvFlow.Receiver.SetTargetConnectionWindow` | nephele/src/proto/h2/proto/streams/recv.rs:338-358 | available and unread together make the new target |
| `RecvFlow.Receiver.ApplyLocalSettings` | nephele/src/proto/h2/proto/streams/recv.rs:360-398 | every stream in the index moves by the difference; no window becomes too large |
| `RecvFlow.Receiver.SendConnectionWindowUpdate` | nephele/src/proto/h2/proto/streams/recv.rs:750-773 | an update is sent if and only if what may be restored exceeds the window by at least half of that, and it is all of it; adding it never fails |
| `RecvFlow.Receiver.SendStreamWindowUpdate` | nephele/src/proto/h2/proto/streams/recv.rs:775-815 | the same for the first stream waiting, unless it no longer expects data |
| `RecvFlow.Receiver.Guarantees` | nephele/src/proto/h2/proto/streams/recv.rs:272-514 | in every reachable state: what is unread adds up over the streams; available and unread make the target; for an open stream they make the initial window, and its window is within what is available |
| `RecvRuns.Run` | nephele/src/proto/h2/proto/streams/recv.rs:272-815 | over every run of events in any order the windows kept here are those a peer counts for itself from what it sent and was told, plus what it counted of padding and of frames that were errors of the connection |
| `RecvRuns.HandleContent` | nephele/src/proto/h2/frame/data.rs:89-110 | of a DATA frame only the content left once padding is stripped counts against the windows |
| `RecvRuns.ViewsAgreeExactly` | nephele/src/proto/h2/proto/streams/recv.rs:408-514 | the peer's count is never above the window kept, and the same if and only if no padded DATA was received and none was an error of the connection; so for the connection and for each open stream |
| `RecvRuns.PaddingIsLost` | nephele/src/proto/h2/proto/streams/recv.rs:493-514 | in every state and whatever is released and announced later, a peer never counts more than the largest window less all the padding it sent, nor on a stream more than the initial window less what it sent there |
| `RecvRuns.PaddingStarves` | nephele/src/proto/h2/proto/streams/recv.rs:408-514 | a receiver that takes n frames with nothing but padding keeps all windows as they were and has no update due, while the peer counts 256 n less |
| `RecvRuns.UsedUpIsRestored` | nephele/src/proto/h2/proto/streams/flow_control.rs:47-62 | without padding, a peer that used up the connection window gets an update once all it sent is released |
| `RecvRuns.NeverStarved` | nephele/src/proto/h2/proto/streams/flow_control.rs:47-62 | without padding, once everything is released and no update is due, a peer still counts more than two thirds of the target |
| `RecvRuns.WithinViewIsWithinWindow` | nephele/src/proto/h2/proto/streams/recv.rs:408-514 | a peer that keeps to its own count, padding included, is never told that it broke a window |
| `HttpDate.DaysBeforeYearIs` | nephele/src/proto/h1/date.rs:271-303 | closed form of the days before a year |
| `HttpDate.ToTime` | nephele/src/proto/h1/date.rs:271-303 | the seconds of a date, counted day by day in the Gregorian calendar |
| `HttpDate.MarchYear` | nephele/src/proto/h1/date.rs:190-238 | the cycles of 400, 100, 4 and 1 years, with truncated division, find the year that begins in March |
| `HttpDate.MarchMonth` | nephele/src/proto/h1/date.rs:232-250 | the month loop ends in the right month, never past the last |
| `HttpDate.FromTime` | nephele/src/proto/h1/date.rs:190-269 | the date is the real one of that second, on its true weekday; fails exactly from the year 10000 on |
| `HttpDate.SecondsAreUnique` | nephele/src/proto/h1/date.rs:190-303 | a second belongs to one real date only |
| `HttpDate.ThereAndBack` | nephele/src/proto/h1/date.rs:35-49 | every date that passes validation can be converted and back, and is the same afterwards if and only if it exists and names its true weekday |
| `HttpDate.ValidIsInRange` | nephele/src/proto/h1/date.rs:271-303 | no valid date lies beyond the end of the year 9999 |
| `HttpDate.Display` | nephele/src/proto/h1/date.rs:319-371 | filling in the template yields the IMF-fixdate of section 7.1.1.1 of RFC 7231 |
| `HttpDate.PrintedIsParsed` | nephele/src/proto/h1/date.rs:305-371 | parsing a printed date yields it again, white space around it or not |
| `HttpDate.FmtHttpDate` | nephele/src/proto/h1/date.rs:27-33 | printing a second, parsing the text and converting back yields the second |
| `HttpDate.AllFormsAgree` | nephele/src/proto/h1/date.rs:94-188 | the asctime form is understood as the same date; that of RFC 850 if and only if the year is from 1970 to 2069 |
| `HttpDate.NamesAre` | nephele/src/proto/h1/date.rs:319-345 | the names of days and months of section 7.1.1.1 of RFC 7231, one by one |
| `HttpDate.ValidIs` | nephele/src/proto/h1/date.rs:35-49 | a date is valid if and only if every field is within what its names and the longest month admit |
| `HttpDate.SignExamples` | nephele/src/proto/h1/date.rs:51-92 | numbers in a date may have a plus sign in front, and nothing else |
| `HttpDate.StandardExample` | nephele/src/proto/h1/date.rs:51-188 | the three examples given there are one real date, second 784111777 |
| `MimeType.UnquotePlain` | nephele/src/common/http_types/mime/parse.rs:135-161 | an ordinary character inside a quoted string is taken as it is, and is read again if neither quote nor backslash follows |
| `MimeType.CollectQuotedString` | nephele/src/common/http_types/mime/parse.rs:135-161 | the loop reads what the recursive reading of a quoted string yields |
| `MimeType.UnquoteIs` | nephele/src/common/http_types/mime/parse.rs:135-161 | contents are those of the standard; where to read on differs if and only if the string is never closed: there it is the text since the last escape |
| `MimeType.ValueIsStandard` | nephele/src/common/http_types/mime/parse.rs:55-68 | a parameter's value and what follows it are read as section 4.4 of the standard says, except exactly for a quoted value that is never closed and has a semicolon after its last escape |
| `MimeType.ReadTwiceExample` | nephele/src/common/http_types/mime/parse.rs:55-95 | such a value, whose end is taken for one more parameter |
| `MimeType.UnquoteOfEscaped` | nephele/src/common/http_types/mime/parse.rs:202-228 | escaping, closing the quote and reading back yields the value and stops right behind the quote |
| `MimeType.EscapeMimeValue.Next` | nephele/src/common/http_types/mime/parse.rs:213-228 | yields the escaped characters one by one |
| `MimeType.Parse` | nephele/src/common/http_types/mime/parse.rs:5-95 | the loop computes the parse specified |
| `MimeType.Format` | nephele/src/common/http_types/mime/parse.rs:163-200 | the printer prints the text specified |
| `MimeType.PrintedExamples` | nephele/src/common/http_types/mime/parse.rs:163-200 | a value is quoted if it is empty or not a token, and a quote in it is escaped |
| `MimeType.ParsedIsWellFormed` | nephele/src/common/http_types/mime/parse.rs:5-95 | whatever is accepted has lower-case tokens for type and subtype, and distinct lower-case tokens for parameter names |
| `MimeType.ParamRead` | nephele/src/common/http_types/mime/parse.rs:163-200 | a printed parameter, quoted or not, is read back, and what follows is left |
| `MimeType.ParseOfText` | nephele/src/common/http_types/mime/parse.rs:5-200 | printing is undone by parsing, for every well-formed type |
| `MimeType.Stable` | nephele/src/common/http_types/mime/parse.rs:5-200 | what was accepted, printed and parsed again, is the same |
| `MimeType.CharactersAre` | nephele/src/common/http_types/mime/parse.rs:97-125 | tokens are the visible characters that are not delimiters, quoted strings all of ISO 8859-1 but controls; letter by letter lower case |
| `MimeType.SpacedText` | nephele/src/common/http_types/mime/parse.rs:5-40 | exactly the white space around a type is passed over |
| `MimeType.SpacedParam` | nephele/src/common/http_types/mime/parse.rs:36-95 | white space in front of a parameter name is passed over, and the value kept |
| `MimeType.SpacedSubtype` | nephele/src/common/http_types/mime/parse.rs:16-34 | so it is behind a subtype |
| `MimeType.SpacedValue` | nephele/src/common/http_types/mime/parse.rs:55-68 | and behind a value |
| `MimeType.PassedOver` | nephele/src/common/http_types/mime/parse.rs:36-75 | a parameter is passed over if and only if it has no equals sign, or neither a quote nor anything but white space behind it |
| `MimeType.FirstStands` | nephele/src/common/http_types/mime/parse.rs:70-95 | what is there of a name is not touched by what follows |
| `MimeType.FirstStandsExample` | nephele/src/common/http_types/mime/parse.rs:5-95 | so of two values of one name the first stands |

## Left out

- Streams.Connection.Guarantees: the connection's own count of unassigned capacity is a mathematical integer; after handles were dropped over and over that upset the sharing it could leave 32 bits, where the source would panic or wrap round. A stream error for an identifier out of the index, as of DATA for a stream that closed while its handle was held, is not covered either: the source enters a second stream for the identifier in slab and index in order to reset it, and a handle dropped on the first takes the second out of the index.
- ImplicitReset.BreaksExactly: is about a connection with that one stream, nothing of which is in flight and whose window can still be moved (it is below the largest, or the initial window is above 0); updates that would make a window too large are no steps of its runs.
- StreamRuns.Run: covers the events whose preconditions hold (streams that are there, handles that are held, a last identifier not above the one announced before), passing over others, and ends where an assertion on a window fails.
- Framer.StreamCutAnywhere: configurations under which a frame may take no byte off the stream are not covered; the source would hand out empty frames for ever.
- HeaderReader.Reader.DecodeFrame: blocks of PUSH_PROMISE, messages malformed by rules about names and pseudo-headers, and the limit on the size of header lists are not covered.
- HpackEncoder.EncodeInt: values above 2^28 - 1 plus the prefix, for which the source panics, are excluded; so are table sizes beyond that.
- HpackEncoder.Encoder.Encode: a buffer too small for the size updates is excluded, as is resuming a field that the announced change evicted; the source panics.
- RecvRuns.Run: DATA padded with more than it holds is excluded; the codec reports it as an error of the connection before the windows are looked at.
- Streams.Connection.EnqueueResetExpiration: time is not modelled; expiry is an event.
- Server push: promised streams, their counts and PUSH_PROMISE frames.
- Streams.Connection.RecvRequest: a request whose headers are too large is only modelled as one with bad headers, not as the response and implicit reset that a server sends for it.
- The last identifier processed; RST_STREAM sent for streams no longer in the index; what the connection does about an error it is given, such as sending GOAWAY.
- Sockets, polling, wakers, mutexes and tracing: readiness is a parameter of each step. I/O errors are not modelled.
- The receive half has a slab of its own here, so a stream's two halves are not tied together; header and trailer queues of the receive half are left out.
- The width of buffered, requested and in-flight counts and of stored slot positions: they are mathematical integers, and so are windows. Windows are checked against 2^31 - 1 where the source checks them, for which `FlowControl.Flow.IncWindow32` has the 32-bit form; how far a window may fall is not bounded.
- Slab keys are stream identifiers, never reused; links and marks of the queues are kept beside the streams, by stream and queue. The frames of a stream are a sequence in the scheduler, the linked form being proved separately in `FrameBuffer`.
- `mask & hash` is a remainder by the capacity, a power of two, and the or of disjoint bits is an addition.
- The contents of the static table, of the Huffman code and of the decoding table, and the list of names whose values are not indexed, are parameters under stated hypotheses.
- The validity rules of the http crate for names, values, methods and status codes; limits on the size of header lists; rules about malformed pseudo-headers.
- Frames other than HEADERS and CONTINUATION are handed on unread.
- Capacity notifications (`poll_capacity`) and error codes.
- The chunked codec, HTTP/1 heads, TLS, and the well-known MIME constants.
