# BDUP batch reassembly, verified

This project models the receiver, the wire format and the senders of the BDUP batch harness (`server.cpp`,
`packet.hpp`, `client.cpp`, `linux/scripts/send_batches.py`) and proves what a session does with any stream
of bytes.

A sender puts batches on the wire: a 20-byte header (magic, sequence number, batch total, length, CRC) and a
payload. The receiver gets the bytes in datagrams cut anywhere. It looks for a header, latches the batch total
of the first plausible one, fills a buffer of the announced length and checks the CRC. When the CRC fails it
may push a tail of the failed batch back through itself. At the end of a session it counts what was accepted,
bad, duplicate, out of order and lost.

## How the project is built

- `Bytes`, `Crc32`, `CheckValue`, `Packet`, `Boundary`: bytes, the bitwise CRC, the header rules, what a
  CRC change means, and which bursts the check catches.
- `WireExample`: one batch byte by byte, with its checksum and generated payload as literals.
- `History`: what the sequence counters mean, as functions of the list of accepted numbers alone.
- `StreamParser`: the specification, a recursive parser of the whole stream that never sees datagrams.
  Parsing may stop anywhere and go on with the pending bytes, so cutting does not matter.
- `StreamProperties`, `Recovery`: what every run of the parser keeps, and what it does on junk, on runs of
  batches and after a failed batch.
- `Reassembly`: the source's mutable state as two classes and its loops as methods. `IngestFragment` refines
  the parser on the pending bytes followed by the datagram, mutual recursion included.
- `Session`: end-of-session accounting and the receive loop over a finite list of datagrams.
- `Sender`, `Script`: the C++ and Python senders, both proved against one function for the wire bytes.
- `Generator`: the script's payload generator in closed form, and the period of the bytes it produces.
- `Cutting`: new receivers that get the same bytes in different datagrams end in the same state.
- `EndToEnd`, `Counting`, `Loopback`: lossless runs, exactly when a wanted count is met, and the client's
  datagrams fed to the receive loop for any wanted count.
- `Reordering`, `Corruption`: runs whose batches are reordered, repeated or lost, and runs whose batches are
  corrupted in place; which batches count as failed in any stream.
- `Resync`, `Detection`, `Mss`: recovery after a loss, and exactly when the sender's segment size is reported.
- `Instances`: whole streams that go through the salvage path and through a recovered loss, so that the
  hypotheses of those theorems are known to be met.

`ingest_fragment` is one function in the source; here its two branches are the methods `LookForHeader` and
`FillBatch`, called from the loop of `IngestFragment`. Likewise `TryCompleteBatch` calls `AcceptBatch` and
`FailBatch`. The branches of the source that no reachable state enters (`server.cpp:255-259`, `266-276`,
`479-493`, `511-520`) are kept as branches that assert false.

`ServerStats` has three ghost fields: the number of bytes consumed, the list of accepted batches with their
place in the stream, and the number of failures resumed from a tail. `Valid` ties every counter to them.

## Where the code and its documentation differ

- The header has 20 bytes; the figure of 16 at `README.md:161` is not what the code uses.
- `--count n` is documented as exactly n batches (`cli.hpp:78`). The session stops after the first datagram
  that reaches n, so one datagram with more batches overshoots: `Counting.CountOvershoot`. For any cutting of
  a lossless run `Counting.CountMet` says when the count is met: exactly if some number of datagrams carries
  at least n batches and less than n + 1. The client's own datagrams never carry bytes of two batches, so in
  order they meet every count up to the number of batches sent (`Loopback.ClientStops`).
- The loss count runs over a 32-bit counter. With a count that is a multiple of 2^32 it never ends, and above
  2^32 it counts to a truncated bound; it accounts for the whole count exactly below 2^32
  (`Session.CountConservation`). The client's count is truncated in the same way (`Sender.RunClient`).
- A batch that is only a header is completed by the next byte, not by its own last one, so the last batch of
  a run of bare headers stays pending (`EndToEnd.BareHeaderRun`).
- The CRC catches every change within four consecutive bytes on one side of the header boundary
  (`Packet.BurstRejected`). Across the boundary it does not: `Boundary.StraddlingBurstAccepted` gives a
  change of four consecutive bytes that every valid 25-byte batch survives. `Packet.ChangeAccepted` says
  exactly which changes survive.

## Model

| member | source | states |
|---|---|---|
| Crc32.Crc32Update | packet.hpp:28-36 | the masked eight-step loop is one byte step of the reflected division |
| Crc32.Crc32Compute | packet.hpp:38-46 | the loop over the bytes is the checksum of the sequence |
| Crc32.TableStep | packet.hpp:28-36 | the bitwise step equals the table-driven step of section 8 of RFC 1952 |
| CheckValue.CheckValue | packet.hpp:38-46 | the nine ASCII digits give CBF43926, which fixes polynomial, bit order, start and inversion |
| Crc32.CrcDifference | packet.hpp:38-46 | two messages of one length have equal checksums exactly when the syndrome of their difference is zero |
| Crc32.BurstDetected | packet.hpp:28-46 | any change within four consecutive bytes of a message changes its checksum |
| Packet.BatchCrc32 | packet.hpp:48-56 | the loop over a copy computes the batch checksum, which Packet.ChecksumCovers spells out |
| Packet.ChecksumCovers | packet.hpp:48-56 | the batch checksum is the CRC of the header words and the payload with four zero bytes in place of the checksum field, whatever that field holds |
| Packet.OkBytes | packet.hpp:109-136 | a batch passes exactly if it starts with 50 44 55 42, its number is below its total, its length field is its size and in 20..65536, and bytes 16 to 19 are the CRC of the rest with zeros there |
| Packet.ValidateSession | packet.hpp:138-153 | Ok exactly for plausible meta data that agrees with the total latched afterwards; a latched total never moves; a rejected header latches nothing |
| Packet.PeekLength | packet.hpp:169-186 | non-zero exactly when a plausible header starts here, and then its length, in 20..65536 |
| Packet.PeekBytes | packet.hpp:169-186 | the same on bytes: the magic bytes, a number below the total and a length field in 20..65536, each little-endian |
| Packet.MagicDoesNotOverlap | packet.hpp:13-13 | two magics start at least four bytes apart |
| Packet.MagicOnWire | packet.hpp:90-91 | the magic is written low byte first |
| Packet.BurstRejected | packet.hpp:109-136 | a valid batch stops passing after any change within four bytes on one side of byte 20 |
| Packet.ChangeAccepted | packet.hpp:109-136 | a changed batch still passes exactly when its header is plausible with the same length and the syndrome equals the change of the checksum field |
| Boundary.StraddlingBurstAccepted | packet.hpp:109-136 | a change of bytes 17 to 20 that every valid 25-byte batch survives |
| WireExample.ExampleOnWire | linux/scripts/send_batches.py:32-43 | number 1 of 258 for size 22 and seed 42, all 22 bytes as literals: field order, byte order, checksum and payload |
| Packet.BuiltVerdict | packet.hpp:90-96 | a built batch carries its fields and passes exactly up to 65536 bytes; above that BadMeta, from 2^32 bytes BadLength |
| History.DuplicatesAppend | server.cpp:182-185 | accepting a number adds a duplicate exactly when it was seen before |
| History.OutOfOrderAppend | server.cpp:187-189 | a new number counts as out of order exactly when a larger one came before |
| History.InOrderIff | server.cpp:180-198 | nothing is out of order exactly when the first acceptances increase |
| History.IncreasingSummary | server.cpp:180-223 | strictly increasing numbers below m: no duplicates, none out of order, m minus their number missing |
| History.MissingPartition | server.cpp:218-222 | missing and seen numbers below n make up n |
| StreamParser.FirstCandidate | server.cpp:382-429 | the first offset with a header of the session and the wanted number, none before it, or the length |
| StreamParser.ParseIsQuiet | server.cpp:443-548 | what is left pending is a short tail or an incomplete batch of the latched session, and consumed plus pending bytes are conserved |
| StreamParser.ParseAppend | server.cpp:442-550 | parsing a then b from the pending bytes equals parsing a followed by b |
| StreamParser.FeedIsParse | server.cpp:442-550 | feeding chunks one by one equals parsing their concatenation |
| StreamParser.FragmentationIndependence | server.cpp:442-550 | of the specification: two ways of cutting one stream end in the same ledger and pending bytes |
| Cutting.IngestAll | server.cpp:431-551 | a new receiver that ingests a list of datagrams stands where the parser is after their bytes; fragments are the datagrams plus the resumes |
| Cutting.IngestTwoCuts | server.cpp:431-551 | of the receiver: for two cuts of the same bytes every field ends equal, except that the fragment counts differ by the numbers of datagrams and the slices only in how they divide the same bytes |
| StreamProperties.AcceptedAreDisjointSlices | server.cpp:278-358 | every accepted batch is a slice of the received stream that passes with the latched total; slices are in order and disjoint, and the pending bytes are the rest of the stream |
| StreamProperties.ParseSound | server.cpp:278-358 | the same from any point of a stream |
| StreamProperties.ParseKeeps | server.cpp:264-265 | every run keeps the byte budget, the latch once set, and numbers below the total, and only appends to the log |
| StreamProperties.SalvageSkipsMagic | server.cpp:286-319 | a salvage offset is at least 4 |
| StreamProperties.ByteBudget | server.cpp:281-340 | 20 bytes an accepted batch, 4 a failed one, plus the pending bytes fit in the received bytes |
| StreamProperties.OnlyChecksumFails | server.cpp:278-281 | of a complete batch with a session header only the checksum can fail |
| StreamProperties.SalvageExact | server.cpp:286-319 | a tail is carried from an offset exactly when the first header there with the session's total and, unless the failed batch was the last, the next number, starts a complete batch that passes |
| StreamProperties.SalvagedNumber | server.cpp:286-300 | the batch at the head of a carried tail has the number after the failed batch's own, unless that was the last |
| StreamProperties.UniformNoCarry | server.cpp:302-318 | once a total is latched: if all headers with that total announce one length, no tail is ever carried |
| Recovery.UniformSession | server.cpp:302-318 | the same for any session, new ones included: only headers with the total of the first plausible one, from there on, must announce one length |
| Recovery.SalvageProgress | server.cpp:332-336 | parsing a carried tail accepts the batch at its head at once, unless it is a bare header that stays pending |
| Recovery.ResumesArePaid | server.cpp:332-336 | over any run, resumed failures are at most the accepted batches plus one for a pending bare header |
| Recovery.SkipJunk | server.cpp:362-379 | bytes where no header of the session starts are dropped one by one |
| Recovery.TakeBatch | server.cpp:536-548 | a valid batch of the session is accepted at once, given one more byte if it is a bare header |
| Recovery.JunkThenBatch | server.cpp:444-509 | junk without headers followed by a valid batch adds exactly that batch and no failure, however it is cut |
| Recovery.ParseRun | server.cpp:536-548 | a run of valid batches is accepted batch by batch, whatever follows |
| Reassembly.ServerStats.constructor | server.cpp:33-44 | a new session has consumed and accepted nothing |
| Reassembly.ServerStats.TrackSequence | server.cpp:180-198 | duplicates, out of order, seen set and highest number stay what History says of the accepted list |
| Reassembly.ServerStats.CountBatch | server.cpp:340-341 | an accepted batch extends the log by its slice, and all counters keep their meaning |
| Reassembly.BatchReassembly.Reset | server.cpp:144-151 | idle with an empty buffer |
| Reassembly.FindBatchHeaderOffset | server.cpp:362-379 | the first plausible header of any session, or the length if there is none |
| Reassembly.FindNextBatchHeaderOffset | server.cpp:382-429 | the first candidate from offset 1, and the total it latches when none was latched |
| Reassembly.SalvageTail | server.cpp:286-319 | the carried tail is the one the specification salvages, it starts with the next number, and the latched total does not move |
| Reassembly.TryCompleteBatch | server.cpp:249-359 | accepts exactly a batch that passes, and ends where the parser ends on the carried tail; termination with IngestFragment |
| Reassembly.AcceptBatch | server.cpp:340-358 | one span is logged and one line printed, with the slices the batch arrived in |
| Reassembly.FailBatch | server.cpp:280-337 | one failure is counted and the carried tail is ingested |
| Reassembly.AlignToHeader | server.cpp:444-467 | skipping to a header or keeping a short tail agrees with the parser |
| Reassembly.FillWindow | server.cpp:469-474 | bytes move from the datagram to the window unchanged, until it holds 20 or the datagram ends |
| Reassembly.CheckWindow | server.cpp:476-533 | the window starts a batch and latches the total exactly when it is a header of the session, else one byte is dropped |
| Reassembly.LookForHeader | server.cpp:443-534 | one pass without an active batch agrees with the parser and makes progress |
| Reassembly.CopySlice | server.cpp:536-544 | the next bytes extend the received part, the header and the zero tail stay, and the slice size is recorded |
| Reassembly.FillBatch | server.cpp:536-549 | one pass with an active batch agrees with the parser, carries included |
| Reassembly.IngestFragment | server.cpp:431-551 | ingesting a datagram equals parsing the pending bytes followed by it; fragments grow by one plus the resumes; lines match the log; while a batch grows its slices behind the header are recorded, and its line shows them |
| Reassembly.ConsistentIsQuiet | server.cpp:443-548 | between datagrams the receiver holds a short tail or an incomplete batch of the session |
| Reassembly.StandingFixesState | server.cpp:33-52 | the parser state fixes every counter and the whole buffer state except fragments, the loss count and slice sizes |
| Session.CounterPasses | server.cpp:218-222 | the 32-bit loop ends exactly when its bound is not the largest number |
| Session.FinalizeLost | server.cpp:200-223 | adds the number of unseen numbers up to the bound, or reports that the loop never ends |
| Session.EndSession | server.cpp:748-767 | the printed summary is the one computed from accepted batches, failures and pending bytes; each counter is printed as it stands, bad with one more for an incomplete batch |
| Session.RunReceiveLoop | server.cpp:662-768 | how many datagrams are read, and the summary of exactly those, for any list of datagrams and any count: duplicates and out of order are those of the accepted numbers |
| Session.IdleConservation | server.cpp:748-765 | without a count, batches plus lost equal the latched total plus duplicates; all zero if nothing was latched |
| Session.CountConservation | server.cpp:205-222 | with count c, lost plus seen below c equals c exactly when c is below 2^32; it never ends exactly for multiples of 2^32 |
| Mss.InferDetectedMss | server.cpp:153-178 | nothing below two slices, else the most frequent size, the largest of those |
| Mss.DetectsUnique | server.cpp:153-178 | the report is unique and depends only on how often each size occurs |
| Mss.AlignedDetection | server.cpp:153-178 | for n slices with any shortened first and last one, exactly when the report is the full size |
| Detection.ReceiveBatch | server.cpp:442-550 | an idle receiver that gets a batch in any non-empty datagrams prints one line with the slices it arrived in, even if its header is split; a bare header prints none and waits |
| Detection.RecordedCut | server.cpp:536-547 | the slices of a batch cut by the sender, for every segment size from 1 |
| Detection.SegmentDetection | server.cpp:153-178 | for every size and every segment size, 0 included, exactly when the report is the sender's segment size |
| Detection.ReceiveSegments | client.cpp:48-79 | sending a batch to an idle receiver, for every segment size: one line, and the report is the sender's segment size exactly under that condition |
| Sender.BuildBatch | packet.hpp:72-97 | the errors in the source's order, nothing written on an error, else the batch of this payload |
| Sender.SendBatch | client.cpp:48-79 | the datagrams sent are the segments of the batch, one datagram for mss 0 |
| Sender.CutShape | client.cpp:65-76 | segments lose nothing, all but the last have mss bytes, and the last is not empty |
| Sender.WireBytes | client.cpp:159-166 | the datagrams of a run carry the batches' bytes in order |
| Sender.RunClient | client.cpp:82-175 | batches 0, 1, ... of the truncated total are sent; it fails exactly from count 2^32, after the truncated count of batches |
| Script.BuildBatch | linux/scripts/send_batches.py:32-43 | the same wire bytes as the C++ sender with the generated payload, or an exception exactly for a small size or a field beyond 32 bits |
| Generator.StateClosed | linux/scripts/send_batches.py:37-39 | after k steps the state is a^k * start + 12345 * (1 + ... + a^(k-1)) modulo 2^32, for a = 1103515245 |
| Generator.BatchBytes | linux/scripts/send_batches.py:37-40 | each payload byte of a batch is 109 times the byte before plus 57 modulo 256, the first one from seed and number |
| Generator.PayloadPeriod | linux/scripts/send_batches.py:37-40 | two payload bytes are equal exactly if their distance is a multiple of 256 |
| Script.SendUsoLike | linux/scripts/send_batches.py:46-54 | for any integer segment size: the same segments as the C++ sender and their number when the loop ends, and never the whole batch when it does not |
| Script.LoopEnds | linux/scripts/send_batches.py:46-54 | the sending loop ends exactly for a segment size of at least 1, or for no data |
| EndToEnd.LosslessRun | client.cpp:159-166 | for 1 to 2^32-1 batches of 21 to 65536 bytes and any cutting: all accepted, nothing bad, lost, duplicate, out of order or pending |
| EndToEnd.BareHeaderRun | server.cpp:522-533 | for bare headers and any cutting exactly the last batch is left pending, bad and lost |
| Reordering.AnyOrder | server.cpp:180-223 | whole batches in any order, repeated or missing, cut anywhere: all arrivals accepted, lost and duplicates from the number of distinct ones, out of order as History says |
| Reordering.PermutedRun | server.cpp:180-223 | a complete run in any order loses and repeats nothing, and none is out of order exactly if it arrives as sent |
| Reordering.ReverseRun | server.cpp:187-189 | a complete run of n batches in reverse order: n - 1 out of order, nothing else |
| Corruption.BadAreFailures | server.cpp:278-281 | in any stream the bad count is the length of an increasing list of positions where a complete batch of the session starts that does not pass |
| Corruption.CorruptedRun | server.cpp:278-340 | a run with any set of batches corrupted behind their headers: exactly that many are bad and lost, and the others are accepted in order |
| Corruption.BurstsCaught | packet.hpp:109-136 | if each batch of a sent run arrives whole or changed within four consecutive payload bytes, exactly the changed ones are bad and lost |
| Counting.MetIfReached | server.cpp:662-682 | for any stream, a wanted count is met exactly if some number of datagrams holds exactly that many batches |
| Counting.AcceptedInRun | server.cpp:662-682 | how many batches the first m datagrams of a lossless run complete, from their total length alone |
| Counting.CountMet | server.cpp:662-682 | over any cutting of a lossless run the session accepts exactly the wanted count if and only if the datagram lengths reach it without reaching one more |
| Counting.CountOvershoot | server.cpp:662-682 | a witness that it can fail: one datagram with all batches of a run overshoots any smaller count |
| Loopback.ClientStops | client.cpp:48-79 | a session that gets the client's own datagrams in order stops right behind the wanted batch, or reads all |
| Loopback.ClientSession | server.cpp:662-768 | the summary of such a session for no count and for every count, fragments and loss count included |
| Loopback.Loopback | client.cpp:82-175 | the client's loop feeding the receive loop ends with that summary, for any segment size and count |
| Resync.ResyncAfterLoss | server.cpp:283-337 | after a loss behind the header of batch k exactly batches k and k+1 are lost, one is bad, and all others are accepted in order |
| Resync.SpliceFails | server.cpp:278-337 | the spliced slice is counted as one failure and dropped whole, with nothing salvaged |
| Instances.WrappedBatchRecovered | server.cpp:286-336 | a corrupt batch wrapped around a valid one: one failure, the inner batch accepted, nothing pending |
| Instances.WrappedOtherDropped | server.cpp:286-300 | batch 2 inside a corrupt batch 0 of 3 passes but is not the next one: one failure, nothing accepted |
| Instances.LossesExist | server.cpp:283-337 | the hypotheses of the recovery theorem hold for a real loss |

## Left out

- Sockets, timeouts and clocks: a session is a finite list of datagrams, and its end stands for the idle timeout.
- The receive buffer of 64 KiB: a longer datagram is not truncated.
- Short sends and socket errors: sending always takes the whole chunk.
- Verbose output other than the ok line of an accepted batch, and the sender's address.
- Random payloads: the bytes drawn are an input of the senders.
- Command line parsing: sizes, counts and segment sizes are the methods' inputs.
- Windows USO and URO calls: a coalesced read is a longer datagram.
- Counters of type size_t are unbounded here.
- Repeated sessions (`--loop`): each starts from a new state, so one session is modelled.
- Script.SendUsoLike: reports a sending loop that never ends instead of not ending; the empty datagrams it would send are not listed.
- Session.FinalizeLost: reports a loss count that never ends instead of not ending.
- Resync.ResyncAfterLoss: assumes that up to the second batch after the loss no header of the session appears in the remaining bytes except the true ones, and that the spliced slice fails its CRC; both are false for some payloads.
- Corruption.CorruptedRun: assumes that no header of the session with another length appears inside a received batch.
- Corruption.BurstsCaught: makes the same assumption of each received batch.
- Recovery.JunkThenBatch: assumes that no header of the session starts in the junk.
