# Verified model of the firmware tools

This project models ten algorithms of the NWA50AX firmware sources and proves what they are
for. Each is stated in the terms of the code: byte buffers, 32- and 64-bit counters that wrap,
cursors into text, sector tables, packets on a serial line.

| files | what they model |
|---|---|
| `BlockHash`, `Sha256`, `Md5`, `HashConstants`, `HashExamples` | the streaming hashes of mkhash: carry buffer, split counters, padding, the optimised block functions; where the constants come from; a published digest of each, worked out |
| `KermitFrame`, `KermitReply`, `KermitReceiver`, `KermitRun`, `KermitExamples` | loadb: quoting, packets, replies, the receiver `k_recv`, whole transfers over a lossy line, and a short transfer character by character |
| `SRecord` | saves: S3 records |
| `EfiMap` | the EFI memory map: comparison, shell sort, compaction in place |
| `FlashPlan`, `FlashErase` | address ranges turned into sector ranges over several flash banks |
| `StorEnum` | storage enumeration of the API, a resumable iterator |
| `Strto`, `Gpt`, `GptLayout`, `Fdt` | number texts, the GPT partition list, device-tree property values: printed and parsed back, or written by hand and understood |
| `Floppy`, `AfsChecksum` | the floppy reader; the ARM flash image checksum |
| `Words` | bytes, 32-bit words, byte order, division with remainder, small sequence facts |

Objects that the source updates in place are classes, buffers are arrays, loops are loops. Every
such method is proved against a function on values, and the theorems are about that function.

Words are integers below 2^32; only the bit operations go through bit vectors. `unsigned long` is
32 bits and `char` is signed (MIPS32); `size_t` in the host tool mkhash is 64 bits. Input and
output (characters on the line, block reads, seeks, the outcome of an erase call, the environment)
are parameters.

## Main results

- Any cutting of any message into updates gives the SHA-256 of FIPS 180-4 and the MD5 of RFC 1321
  (`Sha256.HashChunks`, `Md5.HashChunks`), with the block functions proved equal to the round
  loops of the standards. The constants of SHA-256 are the roots of primes that the standard says
  (`HashConstants.RoundConstants`, `HashConstants.InitialValue`), and a published digest comes out
  of each (`Sha256Example.Abc`, `Md5Example.Letters`).
- Whatever a stop-and-wait Kermit sender puts on the line, with packets garbled after their
  sequence character, packets vanishing and replies lost, `k_recv` reports the length of the file
  and has it in memory once the run is finished (`KermitRun.ReceiveFile`, `KermitRun.FileLoaded`).
- The EFI table, without empty entries in the map, gives every address the types it had if and
  only if sorting did not put a conventional entry at address 0 right after one that ends at 2^64.
  It then loses no page, and it is in normal form when the sort came out sorted
  (`EfiMap.BuildMemTable`, `EfiMap.MeaningExactly`). Both hold for every map whose addresses lie
  within 2^63 of each other (`EfiMap.RegularNoWrap`, `EfiSort.Qsort`).
- On contiguous flash banks it is exact which ranges are accepted, what an accepted plan selects,
  and when it covers its range (`FlashPlan.AcceptedExactly`, `FlashPlan.AcceptedIsExact`,
  `FlashPlan.AcceptedTiles`). The erase command erases exactly the sectors asked for, bank by bank,
  up to the first bank that fails (`FlashErase.EraseCommand`).
- Partition lists and property values survive printing and parsing. Numbers written as C writes
  them are understood in every form (`Strto.ReadsText`), in property values
  (`FdtNumbers.NumbersStored`) and, with units, in whole partition layouts
  (`GptLayout.LayoutParsed`).

## Where a property fails

Each of these has an exact condition, and a concrete case where one is named.

- Kermit: an error before the sequence character rolls back past the packet acknowledged last, and
  its data are lost (`KermitRun.HeaderFailureLoses`). The file is loaded exactly when no such error
  follows the acknowledgement of a packet with data before anything of its successor has arrived;
  this is read off the events of the run (`KermitRun.FileLoadedExactly`).
- Kermit quoting: decoding undoes quoting for all bytes exactly for the quote characters that
  `ktrans` leaves alone (`KermitQuote.QuoteCharacters`).
- Kermit replies: a reply ends in the character the peer asked for, and the receiver's own rules
  accept it exactly when that is CR (`KermitReply.ReplyAccepted`, `KermitReply.OfferAccepted`); a
  peer that asks for line feeds is an example (`KermitReply.LineFeedPeer`).
- EFI: the comparison is right exactly when the first address is less than 2^63 above and at most
  2^63 below the second (`EfiSort.CompareExact`); beyond that it runs in circles
  (`EfiSort.CompareCircular`). The sort puts neighbours in the order of the comparison; the result
  is sorted exactly when no address is followed by one 2^63 or more below it
  (`EfiSort.LinkedSorted`), and two entries far apart end up in an unsorted table
  (`EfiMap.FarApart`).
- EFI: a conventional entry at 0 that the sort leaves right after one that ends at 2^64 is joined
  to it, since the end address wraps to 0, and page 0 is lost. This is the only way in which
  meaning is lost (`EfiMap.MeaningExactly`); one page at the top and one at the bottom show it, in
  either order (`EfiMap.TopAndBottom`).
- Flash: a range that runs past the end of the last bank is accepted, and what lies in the banks
  is erased without a word about the rest (`FlashPlan.ShortExample`). An accepted plan covers its
  range exactly when the range does not run past that end (`FlashPlan.AcceptedTiles`).
- Flash: a range that ends at the top of the address space goes on at address 0. Accepted plans
  stay inside their range exactly when no bank at address 0 follows a bank that ends at the top
  (`FlashPlan.InsideExactly`, `FlashPlan.WrapExample`).
- Floppy: the seven result bytes that follow a break look like data, so a break within the last
  seven bytes of a transfer is not seen and the call succeeds with result bytes in the buffer
  (`Floppy.LateBreak`). The buffer is right exactly when no such break occurred, or its result
  bytes happen to equal the bytes of the disk (`Floppy.ReadData`).
- Storage: a network device or an inactive device leaves a cookie that is foreign to the next
  configured group, and that group is passed over (`StorEnum.NetworkHides`,
  `StorEnum.CompleteExactly`). The comment at `api/api_storage.c:181-196` promises the first
  available device there; the model follows the code.
- GPT: the list is read back exactly when its partition part is at most 7153 characters long, or
  7665 in builds with 64-bit block numbers (`Gpt.ListRoundTrip`, `Gpt.MaxList`). A full table of
  long entries goes beyond it (`Gpt.LongListExample`).
- GPT: the list fits the buffer allocated for it exactly when names, ids and hexadecimal offsets
  keep to their share of it (`Gpt.BufferFitsExactly`, `Gpt.LargeDiskExample`).
- FDT: printed strings typed in as shown come back exactly when there is one string, it ends in
  NUL, holds no quote and does not start with `<` or `[` (`FdtRetype.RetypedReturns`). Otherwise
  the commas between strings become part of the value (`FdtRetype.TwoStringsLost`), quotes vanish
  (`FdtRetype.QuoteLost`), or the text is read as cells or bytes. The strings given as separate
  arguments come back exactly when the value ends in NUL and does not start with a bracket
  (`FdtRetype.StringsReturn`).

## Model

| member | source | states |
|---|---|---|
| `BlockHash.FoldConcat` | openwrt/scripts/mkhash.c:642-646 | mixing blocks in two goes is mixing them in one |
| `BlockHash.HoldsShort` | openwrt/scripts/mkhash.c:629-633 | data that do not complete the block only extend the carry buffer |
| `BlockHash.HoldsFull` | openwrt/scripts/mkhash.c:635-639 | data that complete the block leave the fold over one block more and an empty buffer |
| `BlockHash.HoldsBlocks` | openwrt/scripts/mkhash.c:329-332 | with an empty buffer, whole blocks may be mixed straight from the caller's data |
| `BlockHash.PadOneBlock` | openwrt/scripts/mkhash.c:565-591 | marker, zeros and length in the current block give the fold over the standard's padded message |
| `BlockHash.PadTwoBlocks` | openwrt/scripts/mkhash.c:565-591 | the same when the length spills into a second block |
| `BlockHash.LengthBytes` | openwrt/scripts/mkhash.c:358-366 | a 64-bit counter loses nothing of what eight length bytes show, in either byte order |
| `BlockHash.CopyInto` | openwrt/scripts/mkhash.c:630-649 | memcpy into the carry buffer changes that stretch and nothing else |
| `Sha256Words.ChForms` | openwrt/scripts/mkhash.c:442-442 | the Ch macro equals Ch of section 4.1.2 of FIPS 180-4 |
| `Sha256Words.MajForms` | openwrt/scripts/mkhash.c:443-443 | the Maj macro equals Maj of section 4.1.2 |
| `Sha256Words.SigmaForms` | openwrt/scripts/mkhash.c:444-479 | the four sigma macros, built from two shifts each, equal the rotations of section 4.1.2 |
| `Sha256Transform.SlotMoves` | openwrt/scripts/mkhash.c:488-493 | indexing by (64 - i) % 8 renames register r of a round to r + 1 of the next, without moving it |
| `Sha256Transform.RoundForms` | openwrt/scripts/mkhash.c:481-485 | the three assignments of RND compute one round of section 6.2.2 |
| `Sha256Transform.RoundInPlace` | openwrt/scripts/mkhash.c:481-493 | RNDr turns the registers seen by round j into those of round j + 1 of the standard |
| `Sha256Transform.ExtendSchedule` | openwrt/scripts/mkhash.c:495-497 | MSCH writes the next word of the standard's message schedule |
| `Sha256Transform.DecodeWords` | openwrt/scripts/mkhash.c:430-436 | the first sixteen words are the block read with the first byte most significant |
| `Sha256Transform.MixSixteen` | openwrt/scripts/mkhash.c:505-522 | one pass is sixteen rounds and leaves every register at its own index |
| `Sha256Transform.GrowSixteen` | openwrt/scripts/mkhash.c:524-542 | one pass grows the schedule by sixteen words |
| `Sha256Transform.AddInto` | openwrt/scripts/mkhash.c:552-554 | the registers are added to the state word by word |
| `Sha256Transform.Transform` | openwrt/scripts/mkhash.c:450-555 | for every state and block, the state becomes the compression of section 6.2.2 |
| `Sha256.Be32EncIsBigEndian` | openwrt/scripts/mkhash.c:91-100 | be32enc writes the big-endian digits |
| `Sha256.Be64EncIsBigEndian` | openwrt/scripts/mkhash.c:102-110 | be64enc writes the eight big-endian digits |
| `Sha256.Buffered` | openwrt/scripts/mkhash.c:620-621 | the buffered byte count is right even after the bit counter wrapped |
| `Sha256.LengthOf` | openwrt/scripts/mkhash.c:586-587 | the length field is the bit count of the whole message modulo 2^64 |
| `Sha256.Context.constructor` | openwrt/scripts/mkhash.c:594-611 | a fresh context has absorbed nothing |
| `Sha256.Context.Update` | openwrt/scripts/mkhash.c:613-650 | state is the fold over whole blocks, buf holds the rest, count is the bit count: kept for any data, also none |
| `Sha256.Context.PadInBlock` | openwrt/scripts/mkhash.c:565-591 | fewer than 56 bytes waiting: one block finishes the padded message |
| `Sha256.Context.PadAcross` | openwrt/scripts/mkhash.c:565-591 | 56 or more bytes waiting: two blocks do |
| `Sha256.Context.Final` | openwrt/scripts/mkhash.c:656-667 | the digest is SHA-256 of everything absorbed, and the context is wiped |
| `Sha256.EncodeWords` | openwrt/scripts/mkhash.c:416-422 | the eight words as 32 big-endian bytes |
| `Sha256.HashChunks` | openwrt/scripts/mkhash.c:707-720 | for every cutting into updates the result is SHA-256 of the concatenation |
| `HashConstants.RoundConstants` | openwrt/scripts/mkhash.c:454-471 | every round constant is the first 32 bits of the fractional part of the cube root of the prime with the same number |
| `HashConstants.InitialValue` | openwrt/scripts/mkhash.c:602-609 | the initial words are those of the square roots of the first eight primes |
| `HashConstants.BitsUnique` | openwrt/scripts/mkhash.c:454-471 | at most one word meets those conditions |
| `Primes.TableIsPrimes` | openwrt/scripts/mkhash.c:454-471 | the 64 primes used are all the primes below 312, in order |
| `Sha256Example.Abc` | openwrt/scripts/mkhash.c:594-667 | the digest of "abc" is the one published with the standard |
| `Md5Words.MacroForms` | openwrt/scripts/mkhash.c:143-147 | F, G, H, H2 and I equal the functions of section 3.4 of RFC 1321 |
| `Md5Words.RotateForms` | openwrt/scripts/mkhash.c:152-155 | the rotation inside STEP is the circular shift, for all sixteen amounts |
| `Md5Body.Step` | openwrt/scripts/mkhash.c:152-155 | one STEP line is operation i of section 3.4 with the registers renamed |
| `Md5Body.Round1` | openwrt/scripts/mkhash.c:203-219 | the first sixteen lines are operations 0 to 15 |
| `Md5Body.Round2` | openwrt/scripts/mkhash.c:221-237 | operations 16 to 31 |
| `Md5Body.Round3` | openwrt/scripts/mkhash.c:239-255 | operations 32 to 47 |
| `Md5Body.Round4` | openwrt/scripts/mkhash.c:257-273 | operations 48 to 63 |
| `Md5Body.Body` | openwrt/scripts/mkhash.c:181-289 | on any positive multiple of 64 bytes, the fold of the section 3.4 block step over the blocks |
| `Md5.CountedRight` | openwrt/scripts/mkhash.c:308-311 | hi * 2^29 + lo stays the byte count modulo 2^61: the carry test is right |
| `Md5.LengthOf` | openwrt/scripts/mkhash.c:358-366 | the eight length bytes are the bit count modulo 2^64, low byte first |
| `Md5.Context.constructor` | openwrt/scripts/mkhash.c:291-300 | a fresh context has absorbed nothing |
| `Md5.Context.Blocks` | openwrt/scripts/mkhash.c:329-334 | whole blocks are mixed directly, the rest is buffered |
| `Md5.Context.Update` | openwrt/scripts/mkhash.c:302-335 | state, buffer and counters hold the message so far, for any data |
| `Md5.Context.PadInBlock` | openwrt/scripts/mkhash.c:337-368 | fewer than 56 bytes waiting: one block |
| `Md5.Context.PadAcross` | openwrt/scripts/mkhash.c:337-368 | fewer than eight bytes free after the marker: two blocks |
| `Md5.Context.Final` | openwrt/scripts/mkhash.c:337-388 | the digest is MD5 of everything absorbed, and the context is wiped |
| `Md5.HashChunks` | openwrt/scripts/mkhash.c:692-705 | for every cutting into updates the result is MD5 of the concatenation |
| `Md5Example.Letters` | openwrt/scripts/mkhash.c:178-388 | the digest of the letters a to z is the one of the test suite of RFC 1321 |
| `KermitQuote.DecodeConcat` | u-boot-mips-mt7621/cmd/load.c:662-677 | decoding may be suspended anywhere, also between a quote and the character it quotes |
| `KermitQuote.RoundTrip` | u-boot-mips-mt7621/cmd/load.c:545-677 | decoding undoes control quoting for every byte string, when ktrans keeps the quote character or the string lacks it |
| `KermitQuote.QuotedIsShortest` | u-boot-mips-mt7621/cmd/load.c:662-677 | no shorter text of quote characters and characters that need no quoting decodes to the same bytes as the quoted ones |
| `KermitQuote.QuoteCharacters` | u-boot-mips-mt7621/cmd/load.c:545-553 | exactly the quote characters outside 0x3f to 0x5f, bit 7 ignored, are safe for all strings |
| `KermitFrame.FrameAccepted` | u-boot-mips-mt7621/cmd/load.c:835-927 | every short or extended packet a sender builds is accepted wherever it stands on the line, with its type and data |
| `KermitFrame.CheckOnBits` | u-boot-mips-mt7621/cmd/load.c:562 | the block check adds bits 6 and 7 of the sum to it and keeps six bits |
| `KermitFrame.CheckChanges` | u-boot-mips-mt7621/cmd/load.c:562 | sums that differ by one bit have different checks |
| `KermitFrame.FlippedRefused` | u-boot-mips-mt7621/cmd/load.c:902-927 | a short or extended packet with one bit of one data character flipped is refused |
| `KermitFrame.LongHeader` | u-boot-mips-mt7621/cmd/load.c:877-900 | the extended length and its own check are understood |
| `KermitFrame.ParseLocal` | u-boot-mips-mt7621/cmd/load.c:835-927 | what is made of a packet depends only on the characters up to where it ends |
| `KermitReply.SignedCheck` | u-boot-mips-mt7621/cmd/load.c:555-563 | summing signed characters gives the same block check as summing unsigned ones |
| `KermitReply.Chk1` | u-boot-mips-mt7621/cmd/load.c:555-563 | the check of the characters up to the NUL |
| `KermitReply.SendAck` | u-boot-mips-mt7621/cmd/load.c:574-585 | the buffer holds a well-formed acknowledgement, inside its 24 bytes |
| `KermitReply.SendNack` | u-boot-mips-mt7621/cmd/load.c:587-598 | the buffer holds a well-formed negative acknowledgement |
| `KermitReply.ReadParms` | u-boot-mips-mt7621/cmd/load.c:696-758 | one parameter is offered for each received, the peer's four parameters are taken |
| `KermitReply.HandleSendPacket` | u-boot-mips-mt7621/cmd/load.c:685-769 | the reply to a send-init packet, for any number of parameters received |
| `KermitReply.ReplyAccepted` | u-boot-mips-mt7621/cmd/load.c:555-598 | for every end-of-line character, the receiver's own rules take length, type, data and check of every reply, and accept it if and only if it ends in CR |
| `KermitReply.OfferAccepted` | u-boot-mips-mt7621/cmd/load.c:685-769 | the same for every send-init reply, which fits the 24-byte buffer with its NUL |
| `KermitReply.LineFeedPeer` | u-boot-mips-mt7621/cmd/load.c:725-728 | the parameters of a peer whose send-init reply the receiver's own rules refuse |
| `KermitData.FeedStores` | u-boot-mips-mt7621/cmd/load.c:625-677 | feeding characters stores exactly what they decode to, and touches no other address |
| `KermitReceiver.Receiver.constructor` | u-boot-mips-mt7621/cmd/load.c:782-795 | the state k_recv starts from |
| `KermitReceiver.Receiver.DataChar` | u-boot-mips-mt7621/cmd/load.c:662-677 | one character through the decoder into memory |
| `KermitReceiver.Receiver.ReadData` | u-boot-mips-mt7621/cmd/load.c:901-918 | reads and decodes the data characters, stopping at one below SPACE |
| `KermitReceiver.Receiver.ReadLong` | u-boot-mips-mt7621/cmd/load.c:877-900 | the extended length, or the error where it occurs |
| `KermitReceiver.Receiver.ReadHead` | u-boot-mips-mt7621/cmd/load.c:870-900 | type and length as the packet grammar gives them |
| `KermitReceiver.Receiver.ReadTail` | u-boot-mips-mt7621/cmd/load.c:919-927 | block check and end character |
| `KermitReceiver.Receiver.Checkpoint` | u-boot-mips-mt7621/cmd/load.c:851-868 | same number: restore; new number: save |
| `KermitReceiver.Receiver.Packet` | u-boot-mips-mt7621/cmd/load.c:835-943 | one packet attempt on any characters: new state, position and reply |
| `KermitReceiver.Receiver.Receive` | u-boot-mips-mt7621/cmd/load.c:772-946 | k_recv over any line ends in the state, outcome and size of the session function |
| `KermitRun.BaseStands` | u-boot-mips-mt7621/cmd/load.c:851-868 | each retry starts decoding after exactly the packets before it |
| `KermitRun.RetransmissionChangesNothing` | u-boot-mips-mt7621/cmd/load.c:851-868 | an accepted packet that arrives again leaves receiver and memory as they were |
| `KermitRun.RunKeeps` | u-boot-mips-mt7621/cmd/load.c:772-946 | the invariant on decoder, checkpoint and memory holds in every state of every run |
| `KermitRun.HistoryIsEvents` | u-boot-mips-mt7621/cmd/load.c:836-933 | the sender position and the set of discarded packets follow from the events of the run alone |
| `KermitRun.AttemptLocal` | u-boot-mips-mt7621/cmd/load.c:835-943 | a packet attempt, receiver state included, depends only on its own characters |
| `KermitRun.SessionFollowsRun` | u-boot-mips-mt7621/cmd/load.c:806-945 | on one line made of the characters of a run, with characters other than START and ^C between packets and anything after, k_recv completes in the state of the finished run or goes on from the state of the unfinished one |
| `KermitRun.FinishedRun` | u-boot-mips-mt7621/cmd/load.c:772-946 | every finished run leaves exactly the kept packets' data, decoded, at the start address, with the right length |
| `KermitRun.FileLoaded` | u-boot-mips-mt7621/cmd/load.c:772-946 | without header failures that is the file, for every run, every cutting into packets and every quote character safe for it |
| `KermitRun.FileLoadedExactly` | u-boot-mips-mt7621/cmd/load.c:836-933 | with header failures, the file is loaded if and only if no header failure comes after the acknowledgement of a packet with data and before its successor is heard of |
| `KermitRun.ReceiveFile` | u-boot-mips-mt7621/cmd/load.c:772-946 | k_recv, called on the line of a finished run, returns the length of the file and leaves it in memory under exactly that condition |
| `KermitRun.HeaderFailureLoses` | u-boot-mips-mt7621/cmd/load.c:836-933 | a run, and a line on which k_recv completes, in which an acknowledged byte is lost |
| `KermitRun.Progress` | u-boot-mips-mt7621/cmd/load.c:806-945 | every unfinished run, whatever has happened in it, finishes once the remaining packets arrive and are acknowledged, each once |
| `KermitExamples.BreakAccepted` | u-boot-mips-mt7621/cmd/load.c:896-927 | the break packet of an empty transfer is accepted |
| `KermitExamples.ExtendedHeader` | u-boot-mips-mt7621/cmd/load.c:877-900 | the header characters of an extended packet of 200 data characters |
| `KermitExamples.PeerExample` | u-boot-mips-mt7621/cmd/load.c:696-758 | what is taken from the parameters of one peer |
| `KermitExamples.FullOffer` | u-boot-mips-mt7621/cmd/load.c:696-758 | the thirteen parameters offered to a peer that sends ten or more |
| `KermitExamples.Replies` | u-boot-mips-mt7621/cmd/load.c:574-598 | the characters of three replies |
| `KermitExamples.Interrupt` | u-boot-mips-mt7621/cmd/load.c:824-833 | ^C between packets ends the transfer |
| `KermitExamples.RecordedTransfer` | u-boot-mips-mt7621/cmd/load.c:772-946 | k_recv on the 39 characters of a transfer of four bytes reports four and has them in memory |
| `SRecord.RecordRoundTrip` | u-boot-mips-mt7621/cmd/load.c:337-354 | a record reads back as its address and data, its bytes sum to 0xff, and it fits the 48-byte buffer |
| `SRecord.RecordsRebuild` | u-boot-mips-mt7621/cmd/load.c:313-366 | the records are contiguous pieces of one to sixteen bytes that rebuild the range |
| `SRecord.RecordCount` | u-boot-mips-mt7621/cmd/load.c:335-361 | there is one record for every sixteen bytes begun |
| `SRecord.RecordExample` | u-boot-mips-mt7621/cmd/load.c:309 | the characters of one record |
| `SRecord.FirstLine` | u-boot-mips-mt7621/cmd/load.c:308 | the header line is a record with a right check byte |
| `SRecord.LastLine` | u-boot-mips-mt7621/cmd/load.c:310 | so is the final line |
| `SRecord.BuildRecord` | u-boot-mips-mt7621/cmd/load.c:337-353 | count, address, data and check byte of one record |
| `SRecord.SaveSerial` | u-boot-mips-mt7621/cmd/load.c:313-366 | start line, the records of the range, end line, for every range within 32 bits |
| `EfiSort.CompareExact` | u-boot-mips-mt7621/cmd/efi.c:58-69 | h_cmp_entry orders two entries rightly if and only if the first is less than 2^63 above and at most 2^63 below the second |
| `EfiSort.CompareCircular` | u-boot-mips-mt7621/cmd/efi.c:58-69 | three entries that h_cmp_entry puts in a circle |
| `EfiSort.Insert` | u-boot-mips-mt7621/lib/qsort.c:43-60 | moving one element down in steps of the gap permutes, and with gap 1 extends the part whose neighbours are in the order of the comparison |
| `EfiSort.Qsort` | u-boot-mips-mt7621/lib/qsort.c:22-66 | the shell sort yields a permutation of any entries with all neighbours in the order of the comparison, sorted when they lie in one stretch of 2^63 |
| `EfiSort.LinkedSorted` | u-boot-mips-mt7621/cmd/efi.c:58-69 | neighbours in the order of the comparison are sorted if and only if no address is followed by one 2^63 or more below it |
| `EfiMap.Absorb` | u-boot-mips-mt7621/cmd/efi.c:90-116 | one turn of the loop: the write cursor never overwrites an entry not yet read |
| `EfiMap.CompactInPlace` | u-boot-mips-mt7621/cmd/efi.c:86-119 | the in-place loop computes the table of the sorted map, closed by the end mark |
| `EfiMap.TypesAfterwards` | u-boot-mips-mt7621/cmd/efi.c:51-56 | with skip_bs types 1 to 4 become 7 and no other type changes |
| `EfiMap.BuildMemTable` | u-boot-mips-mt7621/cmd/efi.c:71-122 | from any map: the compacted sort of its entries and the end mark; without empty entries every address has the types it had, 1 to 4 read as 7 with skip_bs, if and only if no conventional entry at 0 was sorted right after one that ends at 2^64; then the same page total, and with skip_bs the normal form if the sort came out sorted |
| `EfiMap.JoinIsExact` | u-boot-mips-mt7621/cmd/efi.c:99-115 | an entry that is joined starts where the last one ends, and the page counts do not wrap |
| `EfiMap.TableKeepsMeaning` | u-boot-mips-mt7621/cmd/efi.c:86-119 | every address keeps its types, with multiplicity, and no page is gained or lost, in any order in which no conventional entry at 0 follows one that ends at 2^64 |
| `EfiMap.RegularNoWrap` | u-boot-mips-mt7621/cmd/efi.c:85-116 | no such pair arises without skip_bs, in maps whose addresses lie in one stretch of 2^63, or in maps without conventional entries at one of the two ends |
| `EfiMap.MeaningExactly` | u-boot-mips-mt7621/cmd/efi.c:86-119 | without empty entries, every address keeps its types if and only if no conventional entry at 0 comes right after one that ends at 2^64 |
| `EfiMap.TopAndBottom` | u-boot-mips-mt7621/cmd/efi.c:101-115 | a map of two pages whose table loses page 0, in either order |
| `EfiMap.FarApart` | u-boot-mips-mt7621/cmd/efi.c:58-85 | a map of two entries whose table is not sorted |
| `EfiMap.TableMeansMap` | u-boot-mips-mt7621/cmd/efi.c:71-122 | the same from the firmware's unsorted map to the finished table |
| `EfiMap.TableIsNormal` | u-boot-mips-mt7621/cmd/efi.c:86-119 | with skip_bs: sorted, no boot-service types, no two neighbours conventional and contiguous |
| `EfiMap.TableWithoutSkip` | u-boot-mips-mt7621/cmd/efi.c:86-119 | without skip_bs the table is the sorted map |
| `FlashPlan.FindSectors` | u-boot-mips-mt7621/cmd/flash.c:218-234 | the sector that starts at the first address and the one that ends at the last, or -1 |
| `FlashPlan.FillBank` | u-boot-mips-mt7621/cmd/flash.c:206-264 | the plan for one bank: selection and next address, or the error |
| `FlashPlan.FillSectRanges` | u-boot-mips-mt7621/cmd/flash.c:187-268 | the arrays, count and return code are those of the bank-by-bank plan |
| `FlashPlan.PlanInside` | u-boot-mips-mt7621/cmd/flash.c:187-268 | return code 0 means no sector outside the range is selected, when no bank at 0 follows one at the top |
| `FlashPlan.InsideExactly` | u-boot-mips-mt7621/cmd/flash.c:187-268 | for separate banks that condition is necessary too |
| `FlashPlan.WrapExample` | u-boot-mips-mt7621/cmd/flash.c:252-254 | two banks on which an accepted plan leaves the range |
| `FlashPlan.CountIsSelected` | u-boot-mips-mt7621/cmd/flash.c:187-268 | the reported count is the number of sectors selected |
| `FlashPlan.Covered` | u-boot-mips-mt7621/cmd/flash.c:187-268 | on contiguous banks a range from a sector start to a sector end is accepted, and exactly the sectors in it are selected |
| `FlashPlan.HeldOnce` | u-boot-mips-mt7621/cmd/flash.c:187-268 | no address lies in two sectors, so none is selected twice |
| `FlashPlan.TiledExactly` | u-boot-mips-mt7621/cmd/flash.c:187-268 | on contiguous banks a range is accepted and tiled if and only if it runs from a sector start to a sector end |
| `FlashPlan.AcceptedExactly` | u-boot-mips-mt7621/cmd/flash.c:187-268 | on contiguous banks a range is accepted with sectors selected if and only if it starts at a sector start and ends at a sector end or beyond the last bank |
| `FlashPlan.AcceptedIsExact` | u-boot-mips-mt7621/cmd/flash.c:187-268 | every accepted plan on contiguous banks selects exactly the sectors that lie in its range |
| `FlashPlan.AcceptedTiles` | u-boot-mips-mt7621/cmd/flash.c:235-238 | an accepted plan covers its range if and only if the range does not end beyond the last bank |
| `FlashPlan.ShortExample` | u-boot-mips-mt7621/cmd/flash.c:235-238 | a bank and a range twice its size: accepted, and half of it is not covered |
| `FlashErase.SectRoundb` | u-boot-mips-mt7621/cmd/flash.c:91-127 | the result is the end of the sector that holds the address, or the address is in no bank |
| `FlashErase.AddrSpec` | u-boot-mips-mt7621/cmd/flash.c:146-185 | an end address is kept, a length gives the sector end at or after its last address |
| `FlashErase.LengthForm` | u-boot-mips-mt7621/cmd/flash.c:146-268 | start plus length plans exactly the sectors that meet the range |
| `FlashErase.OrdersExactly` | u-boot-mips-mt7621/cmd/flash.c:406-419 | for any plan and any outcomes the erase calls cover exactly the chosen sectors of the banks up to the first that fails, one call a bank, in bank order |
| `FlashErase.ResultExactly` | u-boot-mips-mt7621/cmd/flash.c:406-419 | the return code is 0 if no called bank fails, else that of the first that does |
| `FlashErase.SectErase` | u-boot-mips-mt7621/cmd/flash.c:393-429 | an accepted plan is carried out: its sectors and no others are erased, in bank order, up to the first bank that fails, and the number erased is the number planned; a refused or empty plan erases nothing |
| `FlashErase.EraseCommand` | u-boot-mips-mt7621/cmd/flash.c:377-429 | on contiguous banks the command is carried out if and only if the start is a sector start and the end is a sector end above it or beyond all banks, or, given a length, its last address lies in a sector that ends above the start; it then erases exactly the sectors in the range, or that meet it, in bank order up to the first bank that fails, and returns that bank's code or 0; otherwise it erases nothing and fails |
| `StorEnum.Enumerator.constructor` | u-boot-mips-mt7621/api/api_storage.c:49-86 | the groups, with any flags left over from earlier calls |
| `StorEnum.Enumerator.StorType` | u-boot-mips-mt7621/api/api_storage.c:154-164 | the first group that holds the cookie's device |
| `StorEnum.Enumerator.StorGet` | u-boot-mips-mt7621/api/api_storage.c:98-149 | the next device slot after the cookie, past the end when the cookie is foreign |
| `StorEnum.Enumerator.EnumStor` | u-boot-mips-mt7621/api/api_storage.c:175-263 | both flags, cookie and result for every combination of cookie and flags |
| `StorEnum.Enumerator.EnumStorage` | u-boot-mips-mt7621/api/api_storage.c:275-286 | yields the next device to come, or reports that none is left |
| `StorEnum.Enumerator.Reset` | u-boot-mips-mt7621/api/api_storage.c:265-273 | no group is started or ended |
| `StorEnum.Enumerator.DevEnum` | u-boot-mips-mt7621/api/api.c:196-226 | each call takes the next element of the listing; at its end the cookie is NULL |
| `StorEnum.EnumerateAll` | u-boot-mips-mt7621/api/api.c:179-226 | repeated calls from NULL yield the listing in one call more than it is long |
| `StorEnum.CompleteExactly` | u-boot-mips-mt7621/api/api_storage.c:175-286 | the listing is all active devices in order if and only if no group is hidden |
| `StorEnum.CompleteWhenAllActive` | u-boot-mips-mt7621/api/api_storage.c:175-286 | with no network device and no inactive device it is |
| `StorEnum.ActiveIsListed` | u-boot-mips-mt7621/api/api_storage.c:275-286 | no active device is missing from that order |
| `StorEnum.ActiveOnce` | u-boot-mips-mt7621/api/api_storage.c:275-286 | and none occurs twice |
| `StorEnum.NetworkHides` | u-boot-mips-mt7621/api/api_net.c:56-71 | a network device hides the only storage device |
| `StorEnum.YieldedIsActive` | u-boot-mips-mt7621/api/api_storage.c:98-149 | every storage cookie yielded names an active device |
| `StorEnum.OpenStor` | u-boot-mips-mt7621/api/api_storage.c:288-312 | a cookie can be opened if and only if it names an active device |
| `Strto.SimpleStrtoul` | u-boot-mips-mt7621/lib/strto.c:17-50 | where the number stops and its positional value modulo the width, for every base prefix |
| `Strto.Ustrtoull` | u-boot-mips-mt7621/lib/strto.c:108-148 | the value times the factor its suffix stands for, modulo the width, and where reading stops |
| `Strto.ReadsPrefixed` | u-boot-mips-mt7621/lib/strto.c:17-50 | digits after 0x are read back whole when no digit follows |
| `Strto.DigitsAre` | u-boot-mips-mt7621/lib/strto.c:41-42 | digits of either case count the same, and nothing else is a digit |
| `Strto.ReadsText` | u-boot-mips-mt7621/lib/strto.c:17-50 | in base 0 every number is read back, decimal, octal after 0 or hexadecimal after 0x, up to the first character that is no digit of its base |
| `Strto.ReadsBareX` | u-boot-mips-mt7621/lib/strto.c:20-24 | 0x without a hexadecimal digit is 0 and stops before the x |
| `Strto.ReadsUpperX` | u-boot-mips-mt7621/lib/strto.c:21 | 0X is read as 0x |
| `KeyList.ExtractVal` | u-boot-mips-mt7621/cmd/gpt.c:95-123 | the text after = of the first comma field with that key, none if it has no = |
| `KeyList.FoundKey` | u-boot-mips-mt7621/cmd/gpt.c:132-156 | whether some comma field is the key |
| `KeyList.FieldsOfJoined` | u-boot-mips-mt7621/cmd/gpt.c:95-123 | fields without the delimiter, joined by it, come apart again |
| `Gpt.CreateGptPartitionsList` | u-boot-mips-mt7621/cmd/gpt.c:265-300 | appending piece by piece yields the list of key=value fields of each entry, in order |
| `Gpt.ParseToken` | u-boot-mips-mt7621/cmd/gpt.c:451-537 | the fields of one partition, or the error |
| `Gpt.FillParts` | u-boot-mips-mt7621/cmd/gpt.c:431-540 | one entry for each semicolon field, or the error |
| `Gpt.SetGptInfo` | u-boot-mips-mt7621/cmd/gpt.c:372-550 | disk id, count and entries, or -2, -3, -4 or -EINVAL |
| `Gpt.PartRoundTrip` | u-boot-mips-mt7621/cmd/gpt.c:279-298 | the text of one entry parses to its name, id, start and size |
| `Gpt.ListRoundTrip` | u-boot-mips-mt7621/cmd/gpt.c:265-550 | printed and parsed again: same count, disk id, names, ids, starts and sizes in order, if and only if the text fits the limit, for both widths of block numbers |
| `Gpt.MaxList` | u-boot-mips-mt7621/cmd/gpt.c:158-175 | the limit calc_parts_list_len gives for 64 partitions: 7153 characters, 7665 with 64-bit block numbers |
| `Gpt.BufferFitsExactly` | u-boot-mips-mt7621/cmd/gpt.c:158-175 | list and NUL fit the buffer of calc_parts_list_len if and only if disk id, names, ids and hexadecimal offsets take no more than 37 characters and 82 (90) an entry |
| `Gpt.HexLength` | u-boot-mips-mt7621/cmd/gpt.c:284-293 | how many digits an offset takes |
| `Gpt.LargeDiskExample` | u-boot-mips-mt7621/cmd/gpt.c:676-684 | one entry on a large disk that does not fit |
| `Gpt.LongListExample` | u-boot-mips-mt7621/cmd/gpt.c:424-430 | a full table of long entries, beyond the limit, whose list is not read back |
| `GptLayout.AmountRead` | u-boot-mips-mt7621/lib/strto.c:108-148 | every number with KiB, MiB, GiB or nothing after it gives that many bytes in blocks |
| `GptLayout.VariableExpanded` | u-boot-mips-mt7621/cmd/gpt.c:36-84 | ${name} stands for the value of the variable, or for itself |
| `GptLayout.EntryParsed` | u-boot-mips-mt7621/cmd/gpt.c:451-537 | a partition written by hand, with or without start and boot flag, is understood as meant, or refused for a name of more than 31 or an id of more than 36 characters |
| `GptLayout.LayoutParsed` | u-boot-mips-mt7621/cmd/gpt.c:372-550 | a whole layout is understood partition by partition, or refused for such an entry, within the length limit; beyond it, it is not understood |
| `GptLayout.LayoutRefused` | u-boot-mips-mt7621/cmd/gpt.c:398-425 | the codes for a missing disk id, a missing semicolon and an empty list |
| `GptLayout.UBootEntry` | u-boot-mips-mt7621/cmd/gpt.c:258-262 | the documented entry for u-boot gives 122880 blocks of 512 bytes |
| `GptLayout.BootEntry` | u-boot-mips-mt7621/cmd/gpt.c:451-537 | an entry with a variable, a start, an octal size in KiB and the boot flag |
| `Gpt.SwapNames` | u-boot-mips-mt7621/cmd/gpt.c:708-728 | every bearer of one name gets the other; success means two names borne equally often |
| `Gpt.SwapTwice` | u-boot-mips-mt7621/cmd/gpt.c:714-728 | done twice it restores every entry, and succeeds again whenever it succeeded |
| `Gpt.SwapKeepsLength` | u-boot-mips-mt7621/cmd/gpt.c:714-728 | a successful swap leaves the list exactly as long |
| `Gpt.SwapWritesSwapped` | u-boot-mips-mt7621/cmd/gpt.c:708-762 | after a successful swap the list reads back, names exchanged and nothing else of it changed, if and only if the old one did |
| `FdtParse.ReadCells` | u-boot-mips-mt7621/cmd/fdt.c:766-803 | the loop for cells over any arguments: bytes written, kept (?) or left alone, length and error |
| `FdtParse.ReadBytes` | u-boot-mips-mt7621/cmd/fdt.c:804-825 | the loop for bytes |
| `FdtParse.ReadStrings` | u-boot-mips-mt7621/cmd/fdt.c:826-839 | the strings one after the other, each with its NUL |
| `FdtParse.FdtParseProp` | u-boot-mips-mt7621/cmd/fdt.c:756-841 | data area, length and return code for every list of arguments |
| `FdtNumbers.NumbersStored` | u-boot-mips-mt7621/cmd/fdt.c:766-803 | numbers between < and > in any mixture of forms, split into arguments at any spaces, are stored one cell each |
| `FdtNumbers.ThreeForms` | u-boot-mips-mt7621/cmd/fdt.c:776-778 | 10, 010 and 0x10 are ten, eight and sixteen |
| `FdtPrint.IsPrintableString` | u-boot-mips-mt7621/cmd/fdt.c:849-884 | shown characters and single NULs, ended by NUL, or by a newline with NUL after the value |
| `Ctype.ShownIs` | u-boot-mips-mt7621/lib/ctype.c:14-39 | the character table shows white space, ASCII graphic characters and Latin-1 from 160 on |
| `FdtPrint.PrintData` | u-boot-mips-mt7621/cmd/fdt.c:892-941 | the text shown for every value |
| `FdtPrint.CellsRoundTrip` | u-boot-mips-mt7621/cmd/fdt.c:766-803 | printed cells, split into arguments at any of the spaces, parse to the same bytes |
| `FdtPrint.BytesRoundTrip` | u-boot-mips-mt7621/cmd/fdt.c:804-825 | so do printed bytes |
| `FdtPrint.DumpReturns` | u-boot-mips-mt7621/cmd/fdt.c:756-941 | whatever is shown in full as cells or bytes comes back as the same value and length |
| `FdtPrint.LongIsSummed` | u-boot-mips-mt7621/cmd/fdt.c:917-921 | more than 64 bytes that are not text are shown by address and length |
| `FdtPrint.StringsTerminated` | u-boot-mips-mt7621/cmd/fdt.c:900-915 | the strings shown, with terminators, are the value, plus one NUL if it did not end in one |
| `FdtPrint.StringsKept` | u-boot-mips-mt7621/cmd/fdt.c:826-839 | for any value that does not start with a bracket, the strings as arguments are accepted, and give back the value if and only if it ends in NUL |
| `FdtRetype.StringsReturn` | u-boot-mips-mt7621/cmd/fdt.c:756-839 | for every value printed as strings, the strings as arguments give back the value if and only if it ends in NUL and does not start with a bracket |
| `FdtBound.CellsBound` | u-boot-mips-mt7621/cmd/fdt.c:766-802 | cells that stand for text without two NULs in a row take at least as many characters as octets, all before the first comma |
| `FdtBound.NeverItself` | u-boot-mips-mt7621/cmd/fdt.c:766-825 | arguments that start with a bracket never parse to such a text of their own length |
| `FdtRetype.RetypedReturns` | u-boot-mips-mt7621/cmd/fdt.c:900-915 | the text typed in as shown gives back the value if and only if it is one string ended by NUL, without a quote and not starting with a bracket |
| `FdtRetype.TwoStringsLost` | u-boot-mips-mt7621/cmd/fdt.c:900-915 | a value of two strings that does not come back |
| `FdtRetype.QuoteLost` | u-boot-mips-mt7621/cmd/fdt.c:900-915 | a string with a quote in it that does not come back |
| `Floppy.ChsInverse` | u-boot-mips-mt7621/cmd/fdc.c:252-268 | track, head and sector are in range and invert back to the block number |
| `Floppy.ChsOf` | u-boot-mips-mt7621/cmd/fdc.c:252-268 | every triple in range is the address of the block it names |
| `Floppy.ChsNext` | u-boot-mips-mt7621/cmd/fdc.c:252-268 | the next block is the next sector of the side, else the next side of the track, else the next track, from sector 1 of track 0 on |
| `Floppy.Transfer` | u-boot-mips-mt7621/cmd/fdc.c:452-493 | what the byte loop stores, result bytes after a break included; a break is seen unless it lies in the last seven bytes, and then the results are read back out of the buffer |
| `Floppy.StoredExactly` | u-boot-mips-mt7621/cmd/fdc.c:452-466 | an accepted transfer stores the disk bytes if and only if it did not break off in its last seven bytes or the result bytes equal them |
| `Floppy.Attempt` | u-boot-mips-mt7621/cmd/fdc.c:442-493 | one read command at the next block stays on one side of one track; failing keeps what was read |
| `Floppy.ReadData` | u-boot-mips-mt7621/cmd/fdc.c:405-526 | every read command starts at the first missing block and stays on one side of one track; success takes exactly the blocks asked for, and the buffer holds them if and only if no accepted transfer was spoilt; with seeks succeeding the 25th error seen ends the call and nothing else does |
| `Floppy.LateBreak` | u-boot-mips-mt7621/cmd/fdc.c:452-466 | a call that succeeds with a result byte in the buffer |
| `AfsChecksum.ComputeCrc` | u-boot-mips-mt7621/cmd/armflash.c:37-56 | the inverse of the end-around-carry sum, or 0 for a length that is no multiple of 4 |
| `AfsChecksum.ZeroExactly` | u-boot-mips-mt7621/cmd/armflash.c:37-56 | zero if and only if some word is not and the sum is a multiple of 2^32 - 1 |
| `AfsChecksum.OrderIrrelevant` | u-boot-mips-mt7621/cmd/armflash.c:37-56 | the same words in any order have the same checksum |
| `AfsChecksum.StoredInverse` | u-boot-mips-mt7621/cmd/armflash.c:136-144 | storing the checksum of the other words anywhere among them makes it zero |

## Left out

- KermitRun.FileLoaded: takes for granted, single flipped bits in data apart, that a packet garbled after its sequence character is noticed by its length, its check or its end character, that its length and sequence characters are then right, as the comment at `cmd/load.c:852` assumes, and that the sender tells an acknowledgement from anything else.
- KermitReply.ReplyAccepted: the pad characters sent before a reply are not part of it.
- FlashErase.SectErase: the messages and the protected-sector warning of the drivers are not modelled.
- Floppy.ReadData: a status register that stays busy is polled for ever in the source; the model takes the readings that end a poll.
- FdtRetype.RetypedReturns: of the command line only blanks and quotes are modelled, not variables, escapes or separators.
- FdtParse.FdtParseProp: memory after the data area is memory like any other, the source does not bound its writes; the character read after the last argument is a parameter.
- Gpt.ListRoundTrip: the printed list does not carry the boot flag, so it comes back cleared.
- The table of MD5 is written out once and shared by the code's model and the standard's; that its entries are sines is not proved, the published digest vouches for them.
- Random ids and type ids of GPT partitions, and memory allocation failures.
- The rename command's number form, and writing the table to disk.
- flash_sect_protect, protect and flinfo: the same plan as erase with another call per bank.
- X/Ymodem, reading S-records, and the command-line wrappers around the modelled functions.
- libfdt, the environment, block drivers, boot commands and the rest of the tree.
