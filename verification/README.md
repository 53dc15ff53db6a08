# Two vendored libraries of Know the Quote, modelled and proved

The app's own code is glue over UIKit, Core Data and Firebase. What is hard in
its repository lies in two libraries under `Know the Quote/Pods`: nanopb, a
table-driven Protocol Buffers encoder and decoder, and BoringSSL. This project
models their central state machines and transformations in Dafny and proves
what they are for. `dafny verify dfyconfig.toml` checks all of it.

Code that changes things in place is a class or a method with a loop, proved
equal to a function on values or against a direct statement; the laws are
lemmas about those functions and about whole runs.

## What is proved

**nanopb** (`Pb*.dfy`). A struct is one slot per table entry: the cell behind
`pSize` and the values behind `pData`. The streams, the field iterator and the
bitset of required fields are classes over arrays and words.

* Encoding and decoding are inverse. `RoundTripExactly` covers every
  well-formed table and every typed struct: nested submessages, packed,
  unpacked and fixed-count arrays, oneofs, has flags, proto3 fields without
  one, required fields. Decoding what was encoded succeeds *exactly when* every
  string written has its NUL inside its buffer: the encoder writes a full
  buffer without a NUL, and the decoder then has no room for one. It yields the
  same logical message *exactly when* the fixed-count arrays of the submessages
  that were not written hold what the defaults leave in the destination
  (`Kept`). Where no submessage with such an array can be dropped that always
  holds, and `MessageRoundTrip` is the round trip without it.
* The sizing pass is exact at every depth: `EncodeToBuffer` succeeds exactly
  when `EncodedSize` does and the size fits, so the size of a submessage never
  changes between the passes.
* Every varint is read back. The 32-bit decoder reads every sign-extended
  int32; `Varint32RoundTrip` says exactly which 64-bit values it accepts.
  Wherever it and the 64-bit decoder both accept, they agree modulo 2^32.
* The bytes themselves are stated bit by bit: zigzag codes, varints, keys and
  fixed-width integers as written, and what both varint decoders make of any
  bytes at all (`PbForm.dfy`).
* A message that is read by its table with fields removed is read as if they
  had not been written (`FieldsRemoved`). Laws over any input say when required
  fields, arrays, repeated fields, submessages and malformed unknown fields make
  it refused (`PbLaws.dfy`, `PbArrays.dfy`).
* The iterator's state depends on its position alone, and the required-field
  test is exact.

**DTLS** (`Dtls*.dfy`, sections 4.1, 4.1.2.6, 4.2.2 and 4.2.3 of RFC 6347).

* The reassembly mask stands for exactly the union of the marked ranges and is
  released exactly when every byte has come.
* Over every run of a sender that may cut its messages anew at any MTU, a
  network that loses, repeats and reorders, and a receiver with key changes,
  what is handed out is a prefix of what was sent, byte for byte and in order.
  `DeliveredIsPrefix` states when: exactly for fewer than 2^16 messages,
  because the 16-bit message number is not checked for wrapping. In those runs
  a message is available exactly when the pieces of it that came cover every
  byte (`AvailableInRuns`).
* Every kind of record has its verdict over all runs, by the key changes before
  it and the pieces that have come: application data, ChangeCipherSpec, any
  fragment, authentic or not, and the change of read keys (`DtlsRecords.dfy`,
  `FragmentRefused`, `KeysCanChange`).
* The replay window stands for the set of accepted numbers. Nothing is
  delivered twice exactly for fewer than 2^16 epoch changes.
* No record name is used twice exactly until a counter reports its wrap or the
  epoch has wrapped. The counter is left wrapped after the report, and the
  next seal starts over at zero.
* The fragments of a flight join up to its messages for every choice of packet
  sizes, every packet fits the MTU and brings the flight closer to its end,
  and a failed write leaves the flight at the last packet written. `SendAll`
  gives the whole outcome as a function of what cipher and transport do.

**TLS handshake** (`Handshake*.dfy`, sections 7.3 and 7.4 of RFC 5246). The
script lists the message at each of 17 stages (9 when resuming) for every
agreed choice of twelve flags. Client and server are classes with one method
for each state; each keeps the side in step with the script. `RunInLockstep`
covers every interleaving over FIFO channels, `NoDeadlock` says that both can
only rest at the end, and `Connect` drives the two classes there: on each side
exactly one Finished sent, one verified, one read-key and one write-key change,
and the two transcripts are the flow of RFC 5246, which `HandshakeFlow.dfy`
writes out without the script. At every moment the keys of a side change only
behind what must come before, and each side refuses exactly the messages that no
honest peer could send next (`HandshakeRefusal.dfy`).

**Smaller parts.** The lock-free reference count takes effect like the locked
one in every interleaving, and a saturated count never changes
(`Refcount.dfy`). The cipher choice is the best one, and finds every shared
cipher exactly for lists in which none stands in an open group alone
(`CipherChoice.dfy`). The constant-time premaster check is the branching one (`Premaster.dfy`). A
resumable application write leaves no gap and repeats nothing, exactly as long
as no call offers less than was flushed already (`AppWrite.dfy`). The parser of
stored TLS sessions is specified on every input; what it makes of any session
that was stored is stated exactly, and whatever it accepts from fewer than 2^32
bytes can be stored again and comes back (`Der*.dfy`, `Session*.dfy`).

## Where the code does not do what it says

* `d1_both.cc:380-384` says that fragments too far ahead are ignored, but the
  number `read_seq + 7` passes that test and makes
  `dtls1_get_incoming_message` fail (`d1_both.cc:267-271`); only from
  `read_seq + 8` on are they ignored. `RefusedExactly` says for every piece of
  a message sent when it is an error, and `NeverFatal` that an honest sender
  causes none as long as it is at most seven messages ahead of what was handed
  out.
* A seal that fails after other records of the same packet have been sealed
  does not take the flight back: what was sealed for the abandoned packet is
  passed over. `LostExactly` says when, `PositionKept` what it means, and
  `LostLeavesGap` shows a flight that is then completed without its first
  message. A retransmission starts from the beginning.
* A proto3 submessage with a fixed-count array takes the array's own first four
  bytes for its count, and is not written when they are zero. Decoding then
  succeeds, and what the array holds is what the destination held before
  (`FixedCountIsDropped`). `RoundTripExactly` says of every message whether it
  survives, and into which memory.
* A cipher list whose last group is not closed by a clear flag: the loop ends
  without looking at the minimum it found. `CompleteExactly` says for which
  lists some client and server are refused a cipher that they share, and
  `LastFlagDecides` that in a list of different usable ciphers it is the last
  flag alone.
* `cbs.c:221-222` says that only tags of one byte are supported, but longer ones
  are parsed (`cbs.c:225-235`). A chain of certificates may contain elements
  with such tags, and the parser accepts them.
* A write retried with fewer bytes than were already flushed is refused, and
  forgets how far the write had come; the next full retry seals bytes again
  (`ShortRunRepeats`). `SealedOnce` says that nothing else causes it.
* The message number, the epoch and the reporting counter wrap as said above;
  `WrapDelivers`, `WrapIsRun`, `OverrunIsRun` and `EpochWrapIsRun` are the runs
  that show it.

## Model

| member | source | states |
|---|---|---|
| PbWire.Varint64RoundTrip | Know the Quote/Pods/nanopb/pb_encode.c:574-594 | Every uint64 encodes in at most ten bytes, and the 64-bit decoder reads it back from them before any suffix, taking exactly those bytes. |
| PbWire.SvarintRoundTrip | Know the Quote/Pods/nanopb/pb_encode.c:596-605 | Zigzag maps int64 one to one into uint64 and back, and a signed varint survives writing and reading. |
| PbWire.Varint32RoundTrip | Know the Quote/Pods/nanopb/pb_decode.c:182-242 | The 32-bit decoder on the varint of any uint64: it accepts exactly the values below 2^32 and those whose groups of seven bits above bit 34 are all zeros or all ones, with bits 31 and 63 set; it answers the low 32 bits and touches nothing after the varint. |
| PbWire.Int32RoundTrip | Know the Quote/Pods/nanopb/pb_decode.c:182-242 | Every int32, sign-extended to 64 bits as the encoder writes it, is read back by the 32-bit decoder as its 32 bits. |
| PbWire.DecodersAgree | Know the Quote/Pods/nanopb/pb_decode.c:182-270 | On any bytes that both varint decoders accept, they take the same bytes and agree modulo 2^32; this covers over-long and sign-extended forms. |
| PbWire.OrInIsBitOr | Know the Quote/Pods/nanopb/pb_decode.c:250-270 | The way the decoders gather seven bits at a time, by addition when the bits are free, is the C bitwise or of the shifted group cut to the word. |
| PbWire.LittleEndianRoundTrip | Know the Quote/Pods/nanopb/pb_decode.c:1254-1287 | Fixed-width integers survive being written and read, least significant byte first. |
| PbForm.ZigZagBits | Know the Quote/Pods/nanopb/pb_encode.c:596-605 | The code of any int64, bit by bit: bit 0 is the sign, and bit k + 1 is bit k of the value, turned round when it is negative. |
| PbForm.ZigZagOnto | Know the Quote/Pods/nanopb/pb_decode.c:1240-1252 | Every uint64 is the code of one int64, which is what it is read as. |
| PbForm.VarintForm | Know the Quote/Pods/nanopb/pb_encode.c:574-594 | Byte i of a varint carries bits 7i to 7i + 6 of the value, its top bit says that another byte follows, and the last byte is not zero unless it is alone. |
| PbForm.VarintEnds | Know the Quote/Pods/nanopb/pb_encode.c:574-594 | A value has no bits beyond the last byte of its varint. |
| PbForm.Varint64Exactly | Know the Quote/Pods/nanopb/pb_decode.c:250-270 | Any bytes at all: the 64-bit decoder accepts them exactly when one of the first ten has a clear top bit, takes the bytes up to it, and answers their groups of seven bits, those from bit 64 on dropped. |
| PbForm.Varint32Exactly | Know the Quote/Pods/nanopb/pb_decode.c:182-242 | Any bytes that stop within 37: the 32-bit decoder accepts them exactly when a fifth and last byte is below 16 and each byte from the sixth on carries nothing or goes on with a set bit 31 as a sign does; it answers bits 0 to 31. |
| PbForm.LittleEndianForm | Know the Quote/Pods/nanopb/pb_encode.c:607-632 | Byte i of a fixed-width integer carries bits 8i to 8i + 7. |
| PbForm.FromLittleEndianForm | Know the Quote/Pods/nanopb/pb_decode.c:1254-1287 | And so it is read, from any bytes. |
| PbForm.KeyForm | Know the Quote/Pods/nanopb/pb_encode.c:635-672 | A field's key is the varint of a word that has the wire type in bits 0 to 2 and the field number above: 0 for varints, 1 for eight bytes, 2 for what has a length, packed arrays included, and 5 for four bytes. |
| PbForm.KeyRead | Know the Quote/Pods/nanopb/pb_decode.c:293-314 | And so it is read, from any bytes; the word zero is the end. |
| PbForm.VarintItemExactly | Know the Quote/Pods/nanopb/pb_decode.c:1289-1324 | An int field, from any bytes: accepted exactly when its C type holds the number congruent to the varint modulo 2^64, or 2^32 for fewer than eight bytes, and then it is that number. |
| PbForm.UvarintItemExactly | Know the Quote/Pods/nanopb/pb_decode.c:1326-1348 | A uint field: accepted exactly when its C type holds the varint. |
| PbForm.SvarintItemExactly | Know the Quote/Pods/nanopb/pb_decode.c:1350-1372 | A sint field: accepted exactly when its C type holds the value whose code the varint is. |
| PbForm.PayloadExactly | Know the Quote/Pods/nanopb/pb_decode.c:367-380 | A payload is exactly the varint of its length and that many bytes. |
| PbForm.PayloadItemsExactly | Know the Quote/Pods/nanopb/pb_decode.c:1391-1508 | Bytes are accepted exactly when they fit behind the four-byte length, strings when they are shorter than the buffer, fixed-length bytes when they fill it or are none; and what stands in the field then: the bytes, the bytes and a NUL, the bytes or zeros. |
| PbIterator.FieldIter.constructor | Know the Quote/Pods/nanopb/pb_common.c:8-18 | Starts on the first entry, with data offset, size cell and required index those of position 0. |
| PbIterator.FieldIter.Rewind | Know the Quote/Pods/nanopb/pb_common.c:8-18 | Going back to the first entry restores the offsets of position 0. |
| PbIterator.FieldIter.Next | Know the Quote/Pods/nanopb/pb_common.c:20-76 | Moves to the next entry, or back to the first and answers false; whatever path led there, data offset, size cell and required index depend on the position alone. |
| PbIterator.FieldIter.Find | Know the Quote/Pods/nanopb/pb_common.c:78-95 | Terminates; succeeds exactly when an entry has the tag, standing on the first such entry from where it started, going round; otherwise it is back where it was. On an empty table it succeeds exactly for tag 0, the terminator. |
| PbIterator.SearchFound | Know the Quote/Pods/nanopb/pb_common.c:78-95 | The circular search of the specification finds an entry when it is the first with its tag from the start going round. |
| PbRequired.MaskTest | Know the Quote/Pods/nanopb/pb_decode.c:1036-1043 | A word without bits from n up equals 2^n - 1 exactly when all its lower n bits are set. |
| PbRequired.FieldsSeen.Mark | Know the Quote/Pods/nanopb/pb_decode.c:988-993 | Setting bit i of the 32-bit words adds required field i, and nothing else, to the set of fields seen. |
| PbRequired.FieldsSeen.Complete | Know the Quote/Pods/nanopb/pb_decode.c:1024-1046 | The comparison of whole words and of the masked last word succeeds exactly when each of the first `count` required fields has been seen. |
| PbDecode.CountRequired | Know the Quote/Pods/nanopb/pb_decode.c:1007-1022 | The walk to the end of the table yields the number of its required entries. |
| PbDecode.SetToDefault | Know the Quote/Pods/nanopb/pb_decode.c:812-882 | One field at its default: flag, count or chosen member cleared, a single value set to its initial value. The zero count of a fixed-count array goes over its first four bytes. |
| PbDecode.SetToDefaults | Know the Quote/Pods/nanopb/pb_decode.c:884-895 | The walk over the table sets every field, at every depth, to its default. |
| PbEncode.OStream.FromBuffer | Know the Quote/Pods/nanopb/pb_encode.c:84-99 | A stream over a buffer starts empty, with the buffer's length as its limit. |
| PbEncode.OStream.Write | Know the Quote/Pods/nanopb/pb_encode.c:72-119 | Succeeds exactly when the bytes fit under the limit; then they stand in the buffer at the cursor, nothing else in it has changed, and the count has grown by their number. A failed write changes nothing. A sizing stream only counts. |
| PbEncode.FillVarint | Know the Quote/Pods/nanopb/pb_encode.c:581-591 | The loop that cuts a value into groups of seven bits leaves its varint in the first bytes of the ten-byte buffer. |
| PbEncode.EncodeVarint | Know the Quote/Pods/nanopb/pb_encode.c:574-594 | Writes exactly the varint of the value, or nothing. |
| PbEncode.EncodeTag | Know the Quote/Pods/nanopb/pb_encode.c:635-672 | Writes the varint of field number times eight plus wire type, or nothing. |
| PbEncode.EncodeString | Know the Quote/Pods/nanopb/pb_encode.c:674-680 | Writes the length and the bytes when both fit; when only the length fits it has been written, and otherwise nothing has. |
| PbEncode.EncodeFixed | Know the Quote/Pods/nanopb/pb_encode.c:607-632 | Writes the 4 or 8 bytes of the value, least significant first, or nothing. |
| PbEncode.CheckDefault | Know the Quote/Pods/nanopb/pb_encode.c:215-303 | The test that drops proto3 fields, over the slot of one field, decides exactly whether that field is at its default; for a fixed-count array that is whether its own first four bytes are zero. |
| PbEncode.CheckDefaultStruct | Know the Quote/Pods/nanopb/pb_encode.c:261-279 | A proto3 submessage counts as default exactly when each of its fields does. |
| PbEncode.WriteItem | Know the Quote/Pods/nanopb/pb_encode.c:734-868 | For each of the field types, writes exactly the bytes that the type prescribes for the value, or refuses it. |
| PbEncode.WriteSubmessage | Know the Quote/Pods/nanopb/pb_encode.c:682-730 | The sizing pass and the limited writing pass come to the same length, so the submessage is written behind its length whenever that fits, at every depth of nesting. |
| PbEncode.WritePacked | Know the Quote/Pods/nanopb/pb_encode.c:154-181 | The items of a packed array, sized or written, come out in order without tags. |
| PbEncode.WritePackedArray | Know the Quote/Pods/nanopb/pb_encode.c:139-181 | A packed array is one length-delimited field: tag, the length found by arithmetic (fixed types) or by a sizing pass, then the items; the length found is the length written. |
| PbEncode.FixedPackedLength | Know the Quote/Pods/nanopb/pb_encode.c:145-153 | For 32- and 64-bit items the length computed by multiplication is the length of what is written. |
| PbEncode.WriteUnpacked | Know the Quote/Pods/nanopb/pb_encode.c:180-207 | Each entry of an unpacked array is written behind its own tag, in order. |
| PbEncode.WriteArray | Know the Quote/Pods/nanopb/pb_encode.c:126-211 | Nothing for an empty array, failure for one longer than the table allows, otherwise the packed or the unpacked form. |
| PbEncode.WriteField | Know the Quote/Pods/nanopb/pb_encode.c:307-392 | Required fields always; optional ones when their has flag is set, or without a flag when they are not at their default; arrays by their count; of a oneof the member whose tag is chosen. |
| PbEncode.WriteMessage | Know the Quote/Pods/nanopb/pb_encode.c:494-516 | Writes the concatenation of what the fields of the table give, in order, and fails exactly when a field is refused or the bytes do not fit. |
| PbEncode.EncodedSize | Know the Quote/Pods/nanopb/pb_encode.c:533-543 | The sizing pass succeeds exactly when the message can be encoded, and answers the length that encoding writes. |
| PbEncode.EncodeToBuffer | Know the Quote/Pods/nanopb/pb_encode.c:494-516 | Encoding into a buffer succeeds exactly when sizing does and the size fits; the buffer then starts with the encoding and is otherwise unchanged. |
| PbDecode.IStream.constructor | Know the Quote/Pods/nanopb/pb_decode.c:154-179 | A stream over a buffer reads the buffer's bytes from the first on. |
| PbDecode.IStream.Read | Know the Quote/Pods/nanopb/pb_decode.c:100-134 | Succeeds exactly when that many bytes are left, hands out those bytes and moves past them; cursor plus bytes left stay the same. |
| PbDecode.IStream.ReadByte | Know the Quote/Pods/nanopb/pb_decode.c:136-152 | The same for one byte. |
| PbDecode.IStream.DecodeVarint64 | Know the Quote/Pods/nanopb/pb_decode.c:250-270 | The loop is the 64-bit varint decoder of the specification: same verdict, same value, same bytes taken. |
| PbDecode.IStream.DecodeVarint32 | Know the Quote/Pods/nanopb/pb_decode.c:182-242 | The loop is the 32-bit varint decoder of the specification, with its tolerance of sign-extended values; the end of the stream is reported exactly when nothing was left. |
| PbDecode.IStream.SkipVarintBytes | Know the Quote/Pods/nanopb/pb_decode.c:273-282 | Skips bytes up to and with the first one below 128. |
| PbDecode.IStream.ReadPayload | Know the Quote/Pods/nanopb/pb_decode.c:284-291 | A length and that many bytes. |
| PbDecode.IStream.ReadTag | Know the Quote/Pods/nanopb/pb_decode.c:293-314 | Tells a field's tag, a clean end (no bytes, or a zero tag word) and a malformed tag apart, as the specification does. |
| PbDecode.IStream.Skip | Know the Quote/Pods/nanopb/pb_decode.c:316-328 | Skips a value by its wire type; an unknown wire type fails. |
| PbDecode.IStream.MakeSubstream | Know the Quote/Pods/nanopb/pb_decode.c:367-380 | The substream reads exactly the payload, and the parent is left with exactly what follows it. |
| PbDecode.IStream.CloseSubstream | Know the Quote/Pods/nanopb/pb_decode.c:382-395 | After closing, the parent's cursor is where the substream ends and its bytes left are what they were, read or unread. |
| PbDecode.ReadVarintItem | Know the Quote/Pods/nanopb/pb_decode.c:1289-1324 | Signed integers of each width: range check included, same verdict and value as the specification. |
| PbDecode.ReadUvarintItem | Know the Quote/Pods/nanopb/pb_decode.c:1326-1348 | The same for unsigned integers. |
| PbDecode.ReadSvarintItem | Know the Quote/Pods/nanopb/pb_decode.c:1350-1372 | The same for zigzag integers. |
| PbDecode.ReadFixedItem | Know the Quote/Pods/nanopb/pb_decode.c:1374-1389 | The same for 32- and 64-bit integers. |
| PbDecode.ReadBytesItem | Know the Quote/Pods/nanopb/pb_decode.c:1391-1426 | The same for bytes, which must fit their field; bytes past the length keep what they held. |
| PbDecode.ReadStringItem | Know the Quote/Pods/nanopb/pb_decode.c:1428-1461 | The same for strings, which must fit with their NUL; the NUL is written behind them. |
| PbDecode.ReadFixedLengthItem | Know the Quote/Pods/nanopb/pb_decode.c:1487-1508 | The same for fixed-length bytes, empty input included. |
| PbDecode.ReadItem | Know the Quote/Pods/nanopb/pb_decode.c:1289-1508 | The dispatch by field type. |
| PbDecode.ReadSubmessage | Know the Quote/Pods/nanopb/pb_decode.c:1463-1485 | A nested message is decoded within its own length; entries of an array start from their defaults. |
| PbDecode.ReadPacked | Know the Quote/Pods/nanopb/pb_decode.c:426-442 | The loop over a packed payload stores item after item and fails when the array is full before the payload ends. |
| PbDecode.ReadRepeated | Know the Quote/Pods/nanopb/pb_decode.c:418-460 | A repeated field takes a packed payload or one entry, whichever the wire type says. |
| PbDecode.ReadSlot | Know the Quote/Pods/nanopb/pb_decode.c:401-475 | A field's value goes to its slot: has flag, count or chosen member included. |
| PbDecode.ReadField | Know the Quote/Pods/nanopb/pb_decode.c:961-996 | Fixed-count bookkeeping, the required bit and the decoding of the field. |
| PbDecode.ReadOne | Know the Quote/Pods/nanopb/pb_decode.c:919-997 | One round of the loop does to the struct, the iterator, the set of fields seen and the fixed-count bookkeeping exactly what the specification says, and on success keeps cursor plus bytes left. |
| PbDecode.ReadMessage | Know the Quote/Pods/nanopb/pb_decode.c:901-1049 | The decoder's loop and its final checks give the verdict and the struct of the specification; success leaves cursor plus bytes left unchanged and unread exactly what the specification leaves unread, failure never moves past the end. |
| PbDecode.Decode | Know the Quote/Pods/nanopb/pb_decode.c:1051-1063 | The same after the defaults have been set. |
| PbDefaults.DefaultsPristine | Know the Quote/Pods/nanopb/pb_decode.c:812-895 | Setting a struct to its defaults leaves it well typed and with nothing present, at every depth. |
| PbDefaults.ClearedTyped | Know the Quote/Pods/nanopb/pb_decode.c:832-839 | A fixed-count array over whose first four bytes a zero was written still holds values of its type. |
| PbDefaults.DefaultsSame | Know the Quote/Pods/nanopb/pb_encode.c:215-303 | Two structs, one at its proto3 defaults and the other freshly initialised, are the same logical message exactly when their fixed-count arrays agree, at every depth of proto3 submessages: all else that the encoder drops, the decoder restores. |
| PbRoundTrip.StructRoundTrip | Know the Quote/Pods/nanopb/pb_decode.c:901-1049 | For every well-formed table and typed struct that can be encoded with lengths below 2^32: decoding the bytes into a fresh struct fails if some written string, at any depth, has no NUL inside its buffer. Otherwise it reads them all, and the logical message is the same exactly when the fixed-count arrays of each submessage that was not written agree with what the struct has there. |
| PbRoundTrip.RoundTripExactly | Know the Quote/Pods/nanopb/pb_decode.c:1051-1063 | The round trip of whole messages, for every well-formed table and a destination with any previous contents: pb_decode of what pb_encode wrote succeeds exactly when the written strings are NUL-terminated, then reads every byte, and gives the same logical message exactly when the fixed-count arrays dropped with their submessages agree with what the defaults leave in the destination. |
| PbRoundTrip.KeptAlways | Know the Quote/Pods/nanopb/pb_encode.c:215-303 | That condition holds of every struct and destination when each proto3 submessage of the table, at every depth, has a required field or no fixed-count array. |
| PbRoundTrip.MessageRoundTrip | Know the Quote/Pods/nanopb/pb_decode.c:1051-1063 | For those tables: pb_decode of what pb_encode wrote gives the same logical message, whatever the destination held, exactly when the written strings are NUL-terminated. |
| PbRoundTrip.FullBufferIsLost | Know the Quote/Pods/nanopb/pb_encode.c:831-855 | A one-byte string field that holds a letter and no NUL is written as three bytes that the decoder refuses. |
| PbRoundTrip.FixedCountIsDropped | Know the Quote/Pods/nanopb/pb_encode.c:225-229 | The round trip that fails: a proto3 submessage with the fixed-count array 0, 7 is encoded as no bytes at all; decoded into memory that holds a, b it comes back as 0, b, the same message exactly when b is 7. |
| PbRoundTrip.LoopRoundTrip | Know the Quote/Pods/nanopb/pb_decode.c:919-997 | From any state in which the first i entries have been read back, decoding what the remaining entries encode to reads them back too and takes every byte, or fails at the first string without its NUL. |
| PbRoundTrip.RepeatedStep | Know the Quote/Pods/nanopb/pb_encode.c:126-211 | A repeated field, packed or not, with a count member or of fixed count, is read back whole. |
| PbUnknown.OneLocal | Know the Quote/Pods/nanopb/pb_decode.c:919-997 | What the decoder does with one field does not depend on what follows the field. |
| PbUnknown.Compose | Know the Quote/Pods/nanopb/pb_decode.c:919-997 | Decoding whole fields and then more bytes is decoding the more bytes from the state the fields lead to. |
| PbUnknown.UnknownTransparent | Know the Quote/Pods/nanopb/pb_decode.c:932-959 | A well-formed field with an unlisted non-zero tag between whole fields changes neither success nor the decoded message. |
| PbEvolution.PayloadSkipped | Know the Quote/Pods/nanopb/pb_decode.c:316-328 | Skipping takes exactly the payload of the wire type: bytes up to the first below 128, eight bytes, a length and that many, four bytes. |
| PbEvolution.SkippedIsPayload | Know the Quote/Pods/nanopb/pb_decode.c:316-328 | And nothing else is skipped: groups, unknown types and payloads cut short are refused. |
| PbEvolution.EncodedIsSkipped | Know the Quote/Pods/nanopb/pb_decode.c:932-959 | Whatever the encoder writes for a field that the table does not have is whole fields to the decoder and leaves every state as it was. |
| PbEvolution.FieldsRemoved | Know the Quote/Pods/nanopb/pb_decode.c:901-1049 | A message written by one table and read by that table with any entries removed, members of oneofs included: what is read is what would be read had the removed fields not been written, and the remaining fields are those of the message. |
| PbLaws.RequiredExactly | Know the Quote/Pods/nanopb/pb_decode.c:988-1046 | Any bytes are accepted exactly when every field in them can be read, the last array of fixed count is full, and each of the first 64 required fields of the table is among them. |
| PbLaws.ZeroKeyEnds | Know the Quote/Pods/nanopb/pb_decode.c:293-314 | A zero byte where a key should stand ends the message, whatever follows it. |
| PbLaws.UnknownRefused | Know the Quote/Pods/nanopb/pb_decode.c:316-328 | An unknown field without a payload of its type makes the message refused. |
| PbLaws.LastWins | Know the Quote/Pods/nanopb/pb_decode.c:401-475 | A scalar that comes twice, or two scalar members of a oneof: the message is read as if the first had not been there. |
| PbLaws.WireTypeIgnored | Know the Quote/Pods/nanopb/pb_decode.c:401-460 | The wire type of a listed field matters only for whether an array of scalars is packed. |
| PbLaws.EmptySubmessage | Know the Quote/Pods/nanopb/pb_decode.c:1463-1485 | A submessage that comes empty is refused when something in it is required; a member of a oneof starts from its defaults, any other keeps what it had, and its flag or choice is set. |
| PbLaws.EmptyEntry | Know the Quote/Pods/nanopb/pb_decode.c:1463-1485 | A new entry of an array of submessages starts from its defaults. |
| PbLaws.AbsentIsDefault | Know the Quote/Pods/nanopb/pb_decode.c:812-895 | A field that is not in the message has its default, in whatever memory; a count, a flag or a choice is zero. |
| PbArrays.PackedOrNot | Know the Quote/Pods/nanopb/pb_decode.c:418-460 | Entries of a scalar array in one packed record or in a record each: the decoder takes them either way, behind those that are there, and refuses them when there are more than the array holds. |
| PbArrays.FixedCountWhole | Know the Quote/Pods/nanopb/pb_decode.c:961-1004 | A message that ends with entries of an array of fixed count is accepted exactly when they fill it, and it would be without them. |
| PbArrays.FixedCountInterrupted | Know the Quote/Pods/nanopb/pb_decode.c:964-986 | While an array of fixed count is not full, another one is refused. |
| PbPresence.DefaultLeftOut | Know the Quote/Pods/nanopb/pb_encode.c:215-303 | A proto3 scalar, string or bytes field is left out exactly when it is at its default. |
| PbPresence.SubmessageLeftOut | Know the Quote/Pods/nanopb/pb_encode.c:261-279 | A proto3 submessage without arrays of fixed count is left out exactly when it would come out empty. |
| DtlsReassembly.RangeBits | Know the Quote/Pods/BoringSSL-GRPC/ssl/d1_both.cc:203-205 | The byte `bit_range` builds has exactly the bits of the range. |
| DtlsReassembly.MarkByte | Know the Quote/Pods/BoringSSL-GRPC/ssl/d1_both.cc:211-239 | Setting the bits of a range in one byte of the mask adds exactly that range to the set the mask stands for. |
| DtlsReassembly.FullByte | Know the Quote/Pods/BoringSSL-GRPC/ssl/d1_both.cc:241-246 | A byte of the mask is all ones up to n exactly when those message bytes have all come. |
| DtlsReassembly.MaskFullMeansAll | Know the Quote/Pods/BoringSSL-GRPC/ssl/d1_both.cc:241-250 | The whole test, full bytes and the last partial one, holds exactly when every message byte has been marked. |
| DtlsReassembly.HmFragment.constructor | Know the Quote/Pods/BoringSSL-GRPC/ssl/d1_both.cc:152-199 | A fresh message has no byte, and no mask when it is empty. |
| DtlsReassembly.HmFragment.Mark | Know the Quote/Pods/BoringSSL-GRPC/ssl/d1_both.cc:211-251 | The marked set grows by exactly the range; no bit at or past the length is ever set; the mask is released exactly when every byte has come. |
| DtlsReassembly.HmFragment.IsFull | Know the Quote/Pods/BoringSSL-GRPC/ssl/d1_both.cc:241-250 | The loop over the mask decides whether all its bits up to the length are set. |
| DtlsReassembly.HmFragment.Store | Know the Quote/Pods/BoringSSL-GRPC/ssl/d1_both.cc:392-402 | A fragment's bytes overlay what has come before at their offset, and are marked. |
| DtlsFormat.ParseRoundTrip | Know the Quote/Pods/BoringSSL-GRPC/ssl/d1_both.cc:459-473 | A fragment's twelve-byte header and body are read back as they were, leaving what follows. |
| DtlsFormat.ParseInverse | Know the Quote/Pods/BoringSSL-GRPC/ssl/d1_both.cc:459-473 | Whatever the parser accepts is the header and body of what it returned, followed by what it left. |
| DtlsFormat.FragmentLayout | Know the Quote/Pods/BoringSSL-GRPC/ssl/d1_both.cc:459-473 | The header, byte by byte: type, message length, message number, offset and length, each with the most significant byte first. |
| DtlsReceiver.Receiver.IsCurrentComplete | Know the Quote/Pods/BoringSSL-GRPC/ssl/d1_both.cc:255-259 | Says whether every byte of the next message has come. |
| DtlsReceiver.Receiver.GetIncomingMessage | Know the Quote/Pods/BoringSSL-GRPC/ssl/d1_both.cc:265-295 | Fails exactly for a number outside [read_seq, read_seq + 7) or a header that contradicts earlier fragments; otherwise it is the slot's message, opened if it was not. The ring invariant it keeps is why a message found has the right number. |
| DtlsReceiver.Receiver.Fill | Know the Quote/Pods/BoringSSL-GRPC/ssl/d1_both.cc:386-402 | The fragment's bytes enter its slot and nothing else. |
| DtlsReceiver.Receiver.OpenFragment | Know the Quote/Pods/BoringSSL-GRPC/ssl/d1_both.cc:350-403 | One turn of the loop: out-of-range fragments fail, only the expected message is taken in epoch 1, numbers below read_seq or above read_seq + 7 are ignored, and read_seq + 7 itself fails. |
| DtlsReceiver.Receiver.OpenHandshake | Know the Quote/Pods/BoringSSL-GRPC/ssl/d1_both.cc:297-406 | A record's effect on the ring and its verdict, for handshake records with any number of fragments and for every other record type. |
| DtlsReceiver.Receiver.OpenChangeCipherSpec | Know the Quote/Pods/BoringSSL-GRPC/ssl/d1_both.cc:475-490 | A ChangeCipherSpec that waits is consumed without reading; otherwise a record is read, with its effect on the ring, and the ChangeCipherSpec is consumed if that was it. |
| DtlsReceiver.Receiver.GetMessage | Know the Quote/Pods/BoringSSL-GRPC/ssl/d1_both.cc:408-424 | Hands out the next message, byte for byte, exactly when it is complete. |
| DtlsReceiver.Receiver.NextMessage | Know the Quote/Pods/BoringSSL-GRPC/ssl/d1_both.cc:426-438 | Empties the slot and moves to the next number, modulo 2^16, keeping the ring invariant. |
| DtlsReceiver.Receiver.HasUnprocessed | Know the Quote/Pods/BoringSSL-GRPC/ssl/d1_both.cc:440-457 | True exactly when a ChangeCipherSpec or any slot but the message just handed out is waiting. |
| DtlsReceiver.Receiver.SetReadState | Know the Quote/Pods/BoringSSL-GRPC/ssl/dtls_method.cc:81-95 | Refuses to change keys over left-over data, otherwise enters the next epoch; the ring is kept. |
| DtlsReplay.ReplayBitmap.ShouldDiscard | Know the Quote/Pods/BoringSSL-GRPC/ssl/dtls_record.cc:140-150 | Discards a number exactly when it has been recorded or lies at least 64 below the largest recorded. |
| DtlsReplay.ReplayBitmap.Record | Know the Quote/Pods/BoringSSL-GRPC/ssl/dtls_record.cc:155-175 | The recorded set grows by exactly the number; the shifting window keeps standing for the 64 numbers up to the maximum. |
| DtlsReplay.ToU64 | Know the Quote/Pods/BoringSSL-GRPC/ssl/dtls_record.cc:128-136 | Eight bytes read as one number, most significant first. |
| DtlsReplay.RecordReader.OpenRecord | Know the Quote/Pods/BoringSSL-GRPC/ssl/dtls_record.cc:177-272 | The whole answer, and how many bytes are taken, for any input: closed, empty, malformed or too long or of a wrong version, of which only the first byte counts until the first key change; wrong epoch, stale or not authentic; too long when opened; an alert; and otherwise accepted, which alone records the number. |
| DtlsReplay.RecordReader.SetReadState | Know the Quote/Pods/BoringSSL-GRPC/ssl/dtls_method.cc:81-95 | The next epoch, modulo 2^16, with an empty window. |
| DtlsReplay.RunKeeps | Know the Quote/Pods/BoringSSL-GRPC/ssl/dtls_record.cc:225-259 | In every run of accepted records and fewer than 2^16 epoch changes no record number is accepted twice. |
| DtlsReplay.WrapIsRun | Know the Quote/Pods/BoringSSL-GRPC/ssl/dtls_method.cc:81-95 | A run with 2^16 or more epoch changes in which a number is accepted twice. |
| DtlsReplay.NoReplayUntilEpochWrap | Know the Quote/Pods/BoringSSL-GRPC/ssl/dtls_record.cc:225-259 | In all runs with c epoch changes nothing is delivered twice, if and only if c < 2^16. |
| DtlsSeal.SequenceUpdate | Know the Quote/Pods/BoringSSL-GRPC/ssl/tls_record.cc:154-163 | The loop adds one to the big-endian counter modulo its range, and reports success exactly when it did not wrap. |
| DtlsSeal.RecordWriter.SealRecord | Know the Quote/Pods/BoringSSL-GRPC/ssl/dtls_record.cc:294-351 | Succeeds exactly when there is room for a header, the cipher seals, the length fits 16 bits and the counter does not wrap; the header written has type, version, the record's name and the length. The counter counts up whenever the cipher was called and sealed. |
| DtlsSeal.RecordWriter.SetWriteState | Know the Quote/Pods/BoringSSL-GRPC/ssl/dtls_method.cc:97-107 | The present counter becomes the previous epoch's, a new one starts at zero, and the epoch grows modulo 2^16. |
| DtlsSeal.RecordName | Know the Quote/Pods/BoringSSL-GRPC/ssl/dtls_record.cc:294-351 | The eight bytes that name a record are the number the receiver makes of them. |
| DtlsSeal.HeaderLayout | Know the Quote/Pods/BoringSSL-GRPC/ssl/dtls_record.cc:316-351 | The record header, byte by byte: type, version, epoch, sequence number and length, each with the most significant byte first. |
| DtlsSeal.RecordRoundTrip | Know the Quote/Pods/BoringSSL-GRPC/ssl/dtls_record.cc:190-203 | What stands in front of a sealed record is read back by the receiver, with the body and whatever follows it. |
| DtlsSeal.SealKeeps | Know the Quote/Pods/BoringSSL-GRPC/ssl/dtls_record.cc:294-351 | Until a counter reports a wrap, a seal under the present or the previous epoch uses a name never used before. |
| DtlsSeal.WriterRunKeeps | Know the Quote/Pods/BoringSSL-GRPC/ssl/dtls_record.cc:294-351 | The same over whole runs of seals and key changes. |
| DtlsSeal.OverrunIsRun | Know the Quote/Pods/BoringSSL-GRPC/ssl/tls_record.cc:154-163 | A run that goes on sealing after a reported wrap, in which a name is used twice. |
| DtlsSeal.EpochWrapIsRun | Know the Quote/Pods/BoringSSL-GRPC/ssl/dtls_method.cc:97-107 | A run over 2^16 key changes without a reported wrap, in which a name is used twice. |
| DtlsSeal.NoReuseUntilWrap | Know the Quote/Pods/BoringSSL-GRPC/ssl/dtls_record.cc:294-351 | All runs that end with c key changes, with or without a wrap reported before the last seal, use each name once, if and only if none was reported and c < 2^16. |
| DtlsSend.AfterSplit | Know the Quote/Pods/BoringSSL-GRPC/ssl/d1_both.cc:644-780 | Records sent in two packets move the flight as they do in one. |
| DtlsSend.FragmentsJoin | Know the Quote/Pods/BoringSSL-GRPC/ssl/d1_both.cc:644-734 | Whatever the packet sizes, the fragments of each message since the start of the flight join up to its body as far as the flight has come: no gap, no overlap, no byte of another message. |
| DtlsFlight.RecordGoesOn | Know the Quote/Pods/BoringSSL-GRPC/ssl/d1_both.cc:644-734 | The record sealed is the next piece of the flight; without success the position has not moved. |
| DtlsFlight.RecordFits | Know the Quote/Pods/BoringSSL-GRPC/ssl/d1_both.cc:644-734 | A record goes out under its message's epoch and that epoch's cipher, a header longer than what the cipher makes of the payload; a partial one fills the packet as far as the overhead allows; there is no progress exactly when not one byte of payload would have fitted. |
| DtlsFlight.SealFailsExactly | Know the Quote/Pods/BoringSSL-GRPC/ssl/d1_both.cc:644-734 | Nothing can be sealed exactly when the message is of neither of the last two epochs, its data is not one whole message, the cipher fails, the counter is at its last number or the record would take 2^16 bytes. |
| DtlsFlight.PacketGoesOn | Know the Quote/Pods/BoringSSL-GRPC/ssl/d1_both.cc:739-780 | The records of a packet continue the flight from where it stood and fit the packet. |
| DtlsFlight.MovesForward | Know the Quote/Pods/BoringSSL-GRPC/ssl/d1_both.cc:644-827 | Every non-empty sequence of records moves the flight strictly forward. |
| DtlsFlight.PacketMoves | Know the Quote/Pods/BoringSSL-GRPC/ssl/d1_both.cc:788-824 | Every packet brings the flight strictly closer to its end, in messages and then bytes. |
| DtlsFlight.FlightGoesOn | Know the Quote/Pods/BoringSSL-GRPC/ssl/d1_both.cc:782-827 | All packets written, and the records lost with a packet that was given up, continue the flight from any point on; every packet was taken and fits. |
| DtlsFlight.PositionKept | Know the Quote/Pods/BoringSSL-GRPC/ssl/d1_both.cc:788-809 | The position is where the packets written have brought it, if and only if nothing was lost. |
| DtlsFlight.PacketFailsExactly | Know the Quote/Pods/BoringSSL-GRPC/ssl/d1_both.cc:739-780 | A packet is given up with j records sealed exactly when j records go in whole and the next cannot be sealed. |
| DtlsFlight.LostExactly | Know the Quote/Pods/BoringSSL-GRPC/ssl/d1_both.cc:782-827 | Records are lost if and only if, of some packet reached, a record after the first cannot be sealed. |
| DtlsFlight.LostLeavesGap | Know the Quote/Pods/BoringSSL-GRPC/ssl/d1_both.cc:782-834 | Two messages in one packet, the second of which fails to be sealed: the next call completes the flight, and no byte of the first message has been written. |
| DtlsSender.Sender.ClearOutgoing | Know the Quote/Pods/BoringSSL-GRPC/ssl/d1_both.cc:500-509 | Nothing is left of the flight. |
| DtlsSender.Sender.AddMessage | Know the Quote/Pods/BoringSSL-GRPC/ssl/d1_both.cc:511-602 | The message gets the next number modulo 2^16 and is added to the flight, after the flight before it was completed and dropped; it fails exactly when its body needs more than 24 bits or the flight already has seven. |
| DtlsSender.Sender.AddChangeCipherSpec | Know the Quote/Pods/BoringSSL-GRPC/ssl/d1_both.cc:555-602 | The same for a ChangeCipherSpec, which has no number. |
| DtlsSender.Sender.SealNextMessage | Know the Quote/Pods/BoringSSL-GRPC/ssl/d1_both.cc:644-734 | The code in place seals the record that `NextRecord` says, with the same outcome, counters and position. |
| DtlsSender.Sender.SealNextPacket | Know the Quote/Pods/BoringSSL-GRPC/ssl/d1_both.cc:739-780 | The loop fills the packet that `PacketFrom` says and stops where it stops. |
| DtlsSender.Sender.SendFlight | Know the Quote/Pods/BoringSSL-GRPC/ssl/d1_both.cc:782-827 | The loop writes the packets that `SendAll` says, given what the cipher and the transport do. Every packet fits the MTU, was taken and continues the flight; a failed write leaves the flight after the last packet written, a completed one leaves it at the end, and the position lies beyond the packets written exactly when records were lost. |
| DtlsSender.Sender.FlushFlight | Know the Quote/Pods/BoringSSL-GRPC/ssl/d1_both.cc:829-834 | The same in full, and the flight is marked complete. |
| DtlsSender.Sender.Retransmit | Know the Quote/Pods/BoringSSL-GRPC/ssl/d1_both.cc:836-845 | The same in full from the start of the flight; once it is through, the fragments written of each message join up to the message's body. |
| DtlsSender.Sender.SetWriteState | Know the Quote/Pods/BoringSSL-GRPC/ssl/dtls_method.cc:97-107 | The cipher in use becomes the previous one. |
| DtlsSender.NumbersDiffer | Know the Quote/Pods/BoringSSL-GRPC/ssl/d1_both.cc:555-594 | The messages of one flight have different numbers. |
| DtlsSender.AddKeeps | Know the Quote/Pods/BoringSSL-GRPC/ssl/d1_both.cc:511-602 | A flight stays made of the latest messages sent, whole, under their own numbers. |
| DtlsEndToEnd.SenderIsAuthentic | Know the Quote/Pods/BoringSSL-GRPC/ssl/d1_both.cc:644-845 | Every handshake record a sender puts out, whatever the packet sizes, is a piece of a message it was given, under that message's number. |
| DtlsEndToEnd.StepKeeps | Know the Quote/Pods/BoringSSL-GRPC/ssl/d1_both.cc:265-490 | Every step of sender, network or receiver, reading and consuming a ChangeCipherSpec and key changes included, keeps the system invariant: each slot holds only bytes of the message it is numbered for, and what was handed out is what was sent first. |
| DtlsEndToEnd.RunKeeps | Know the Quote/Pods/BoringSSL-GRPC/ssl/d1_both.cc:297-438 | The invariant holds after every run with fewer than 2^16 messages. |
| DtlsEndToEnd.WrapDelivers | Know the Quote/Pods/BoringSSL-GRPC/ssl/d1_both.cc:426-438 | With 2^16 or more messages there is a run that hands out a message that was not sent in its place. |
| DtlsEndToEnd.DeliveredIsPrefix | Know the Quote/Pods/BoringSSL-GRPC/ssl/d1_both.cc:297-490 | Over all runs with n messages sent and any key changes, the network losing, repeating and reordering and the sender cutting anew, what is handed out is a prefix of what was sent, byte for byte and in order, if and only if n < 2^16. |
| DtlsRecords.EpochCounts | Know the Quote/Pods/BoringSSL-GRPC/ssl/dtls_method.cc:81-95 | In every run the receiver reads in the clear exactly until the first key change, and its epoch counts the changes modulo 2^16. |
| DtlsRecords.ApplicationData | Know the Quote/Pods/BoringSSL-GRPC/ssl/d1_both.cc:306-317 | In every run, a record of application data is an error until the read keys have been changed for the first time, and dropped from then on; either way the receiver stays as it was. |
| DtlsRecords.ChangeCipherSpecRecord | Know the Quote/Pods/BoringSSL-GRPC/ssl/d1_both.cc:319-339 | In every run, a ChangeCipherSpec is taken and remembered exactly when it is the byte 1 and the read keys have not been changed; otherwise it is an error and changes nothing. |
| DtlsRecords.OtherRecord | Know the Quote/Pods/BoringSSL-GRPC/ssl/d1_both.cc:344-348 | Records of any other type are errors and change nothing. |
| DtlsRecords.ChangeCipherSpecWaits | Know the Quote/Pods/BoringSSL-GRPC/ssl/d1_both.cc:319-339 | In every run, a ChangeCipherSpec waits exactly when one came before the first key change and none was waited for since. |
| DtlsRecords.Awaited | Know the Quote/Pods/BoringSSL-GRPC/ssl/d1_both.cc:475-490 | Waiting for one: a ChangeCipherSpec that waits is used up and no record read; otherwise it succeeds exactly on a record that is one, in the clear, and any other record has the effect and the verdict it always has. |
| DtlsRecords.ManyFragments | Know the Quote/Pods/BoringSSL-GRPC/ssl/d1_both.cc:350-403 | A record may hold any number of fragments; each has its effect, in order, up to the first that is refused. |
| DtlsRecords.OnlyFragments | Know the Quote/Pods/BoringSSL-GRPC/ssl/d1_both.cc:350-403 | A record that is accepted is nothing but fragments. |
| DtlsDelivery.PiecesAssemble | Know the Quote/Pods/BoringSSL-GRPC/ssl/d1_both.cc:350-403 | Pieces of the next message, by themselves, overlapping or not and in any order, leave exactly the bytes they cover in its slot. |
| DtlsDelivery.AvailableExactly | Know the Quote/Pods/BoringSSL-GRPC/ssl/d1_both.cc:408-424 | By themselves they make the message available exactly when they cover every byte of it, and then it is that message. |
| DtlsDelivery.FragmentHolds | Know the Quote/Pods/BoringSSL-GRPC/ssl/d1_both.cc:350-403 | Any fragment leaves the slot of any message not yet handed out holding exactly the bytes of the pieces of it taken so far. |
| DtlsDelivery.StepHolds | Know the Quote/Pods/BoringSSL-GRPC/ssl/d1_both.cc:297-490 | So does any step of the system. |
| DtlsDelivery.AvailableInRuns | Know the Quote/Pods/BoringSSL-GRPC/ssl/d1_both.cc:297-424 | In every run with fewer than 2^16 messages, whatever was lost, repeated, mixed in or ignored: the next message can be handed out exactly when the pieces of it that came while it could be taken cover every byte of it, and then it is the message sent. |
| DtlsDelivery.RefusedExactly | Know the Quote/Pods/BoringSSL-GRPC/ssl/d1_both.cc:350-384 | A piece of a message sent is an error exactly when the message is too long or, in the encrypted epoch, not the next, or else is the one seven after the next. |
| DtlsDelivery.NeverFatal | Know the Quote/Pods/BoringSSL-GRPC/ssl/d1_both.cc:267-384 | Over all runs with n messages sent beyond those handed out: the receiver, outside the encrypted epoch and with room for the longest, fails on none of their fragments, nor on application data once the read keys have been changed, if and only if n <= 7. |
| DtlsDelivery.FragmentRefused | Know the Quote/Pods/BoringSSL-GRPC/ssl/d1_both.cc:265-384 | In every run, any fragment at all, authentic or not: it is an error exactly when it does not fit its message, the message is too long, it is not of the next message in the encrypted epoch, it is of the one seven after the next, or it contradicts a message of which pieces have been taken; and then it changes nothing. |
| DtlsDelivery.KeysCanChange | Know the Quote/Pods/BoringSSL-GRPC/ssl/d1_both.cc:440-457 | In every run the read keys can be changed exactly when no ChangeCipherSpec waits and no piece has been taken of any message not handed out, but for the one being looked at. |
| DtlsDelivery.KeyChangeRun | Know the Quote/Pods/BoringSSL-GRPC/ssl/dtls_method.cc:81-95 | The ordinary end of a handshake is a run: a ChangeCipherSpec arrives and is consumed, keys change, and a message arrives under the new ones. |
| HandshakeScript.MoveKeeps | Know the Quote/Pods/BoringSSL-GRPC/ssl/handshake_server.cc:1539-1621 | Whatever a side does by the message list, one side is ahead and what is under way is exactly the messages between the two. |
| HandshakeScript.CanDeliver | Know the Quote/Pods/BoringSSL-GRPC/ssl/handshake.cc:491-628 | The channel can always deliver any number of the messages under way. |
| HandshakeScript.DeliveryKeeps | Know the Quote/Pods/BoringSSL-GRPC/ssl/handshake.cc:491-628 | Delivery of the first messages under way keeps both sides in step. |
| HandshakeScript.NextKeeps | Know the Quote/Pods/BoringSSL-GRPC/ssl/handshake.cc:491-628 | Every step of the two sides and the channels keeps them in step. |
| HandshakeScript.RunInLockstep | Know the Quote/Pods/BoringSSL-GRPC/ssl/handshake.cc:491-628 | In every run from the start, with any agreed flags, the two sides are in step: the messages of one side are those the other's place in the list expects. |
| HandshakeScript.InboxIsExpected | Know the Quote/Pods/BoringSSL-GRPC/ssl/handshake.cc:491-628 | What waits to be read is the next message of the list that exists under the agreed flags, and it is the peer's to send. |
| HandshakeScript.NoDeadlock | Know the Quote/Pods/BoringSSL-GRPC/ssl/handshake.cc:491-628 | When nothing is under way and both sides rest, both are at the end. |
| HandshakeFlow.ListIsFlow | Know the Quote/Pods/BoringSSL-GRPC/ssl/handshake.cc:491-628 | At every stage the handshake messages of the list are a part, from the start, of the flow of RFC 5246 written out as a list of messages, and at the end all of it. |
| HandshakeFlow.FullFlow | Know the Quote/Pods/BoringSSL-GRPC/ssl/handshake_client.cc:1220-1371 | A full handshake has a ClientKeyExchange, behind ServerHelloDone and the client's certificate; the server's certificate, CertificateStatus, ServerKeyExchange, CertificateRequest, CertificateVerify, NextProto, ChannelId and a ticket exactly by their flags. |
| HandshakeFlow.ResumedFlow | Know the Quote/Pods/BoringSSL-GRPC/ssl/handshake_server.cc:1463-1509 | A resumed one has the hellos, what was negotiated, a ticket, both Finished, and nothing else. |
| HandshakeFlow.Senders | Know the Quote/Pods/BoringSSL-GRPC/ssl/handshake_server.cc:949-1065 | Each message of the list is sent by the side it belongs to; a certificate is the server's until ServerHelloDone. |
| HandshakeFlow.FinishedUnderNewKeys | Know the Quote/Pods/BoringSSL-GRPC/ssl/handshake_client.cc:1457-1512 | Each Finished comes right under the key change of the side that sends it, with nothing from the other side in between. |
| HandshakeFlow.ClientFacts | Know the Quote/Pods/BoringSSL-GRPC/ssl/handshake_client.cc:1457-1705 | The client at every moment: its transcript is a part of the flow; in a full handshake its write keys change only behind ClientKeyExchange and what belongs before it, and its read keys behind its own Finished and the ticket; the server's Finished is believed only under the new read keys; resuming, in the reverse order. |
| HandshakeFlow.ServerFacts | Know the Quote/Pods/BoringSSL-GRPC/ssl/handshake_server.cc:1365-1537 | The server at every moment: its transcript is a part of the flow; in a full handshake its read keys change only behind ClientKeyExchange and what belongs before it, and its write keys behind the client's Finished; resuming, in the reverse order. |
| HandshakeFlow.ServerPolicy | Know the Quote/Pods/BoringSSL-GRPC/ssl/handshake_server.cc:572-702 | A certificate is asked for exactly when the server verifies peers, the cipher has certificates and no Channel ID stands in for one; a Channel ID is taken exactly when it was offered, the exchange is ephemeral and, resuming, the hash was recorded. |
| HandshakeRefusal.ClientRefuses | Know the Quote/Pods/BoringSSL-GRPC/ssl/handshake_client.cc:771-1167 | From the certificate to ServerHelloDone the client takes a message, whatever it is, exactly when an honest server could send it next, given what both hellos settled. |
| HandshakeRefusal.ClientRefusesTicket | Know the Quote/Pods/BoringSSL-GRPC/ssl/handshake_client.cc:1566-1647 | The same of a ticket that was promised. |
| HandshakeRefusal.ClientRefusesFinished | Know the Quote/Pods/BoringSSL-GRPC/ssl/handshake.cc:380-410 | The same of the server's Finished, which must be over this side's transcript. |
| HandshakeRefusal.ServerRefusesCertificate | Know the Quote/Pods/BoringSSL-GRPC/ssl/handshake_server.cc:949-1040 | The server takes exactly the certificate messages that an honest client could send, an empty list only if it does not insist on a certificate. |
| HandshakeRefusal.ServerRefuses | Know the Quote/Pods/BoringSSL-GRPC/ssl/handshake_server.cc:1058-1461 | Wherever else the server reads, it takes exactly the next message of the list. |
| HandshakeEndpoint.Endpoint.Add | Know the Quote/Pods/BoringSSL-GRPC/ssl/handshake.cc:176-184 | A message sent is the next of the list, joins the transcript and the pending flight, and keeps the side in step. |
| HandshakeEndpoint.Endpoint.Accept | Know the Quote/Pods/BoringSSL-GRPC/ssl/handshake.cc:215-222 | A message taken joins the transcript, which stays the list's messages so far. |
| HandshakeEndpoint.Endpoint.AcceptChangeCipherSpec | Know the Quote/Pods/BoringSSL-GRPC/ssl/handshake.cc:508-541 | A ChangeCipherSpec taken off the wire does not join the transcript. |
| HandshakeEndpoint.Endpoint.FlushFlight | Know the Quote/Pods/BoringSSL-GRPC/ssl/handshake.cc:500-506 | Everything pending goes out, in order. |
| HandshakeClient.ClientHandshake.constructor | Know the Quote/Pods/BoringSSL-GRPC/ssl/handshake_client.cc:385-452 | A fresh client stands at the start of the list with nothing sent. |
| HandshakeClient.ClientHandshake.DoStartConnect | Know the Quote/Pods/BoringSSL-GRPC/ssl/handshake_client.cc:385-452 | Sends the ClientHello, which is what the list has first, and waits for the flush. |
| HandshakeClient.ClientHandshake.DoEnterEarlyData | Know the Quote/Pods/BoringSSL-GRPC/ssl/handshake_client.cc:454-489 | Without early data it goes on to the ServerHello and does not move in the list. |
| HandshakeClient.ClientHandshake.DoReadServerHello | Know the Quote/Pods/BoringSSL-GRPC/ssl/handshake_client.cc:535-759 | What it reads is the ServerHello, so it never fails; the flags and the session are then those of the list. |
| HandshakeClient.ClientHandshake.DoReadServerCertificate | Know the Quote/Pods/BoringSSL-GRPC/ssl/handshake_client.cc:771-819 | Reads the certificate exactly when the cipher has one. |
| HandshakeClient.ClientHandshake.DoReadCertificateStatus | Know the Quote/Pods/BoringSSL-GRPC/ssl/handshake_client.cc:821-869 | Takes a promised CertificateStatus if it came, and goes on if the server left it out. |
| HandshakeClient.ClientHandshake.DoVerifyServerCertificate | Know the Quote/Pods/BoringSSL-GRPC/ssl/handshake_client.cc:871-889 | For a certificate that verifies it goes on without moving in the list. |
| HandshakeClient.ClientHandshake.DoReadServerKeyExchange | Know the Quote/Pods/BoringSSL-GRPC/ssl/handshake_client.cc:891-1071 | Takes a ServerKeyExchange if one came; one missing where the cipher needs it never happens. |
| HandshakeClient.ClientHandshake.DoReadCertificateRequest | Know the Quote/Pods/BoringSSL-GRPC/ssl/handshake_client.cc:1073-1143 | Tells a CertificateRequest from a ServerHelloDone; afterwards the request is remembered exactly when the list has one. |
| HandshakeClient.ClientHandshake.DoReadServerHelloDone | Know the Quote/Pods/BoringSSL-GRPC/ssl/handshake_client.cc:1145-1167 | What it reads is the ServerHelloDone. |
| HandshakeClient.ClientHandshake.DoSendClientCertificate | Know the Quote/Pods/BoringSSL-GRPC/ssl/handshake_client.cc:1169-1215 | Sends a certificate, possibly empty, exactly when one was asked for. |
| HandshakeClient.ClientHandshake.DoSendClientKeyExchange | Know the Quote/Pods/BoringSSL-GRPC/ssl/handshake_client.cc:1220-1371 | Sends the ClientKeyExchange in its place. |
| HandshakeClient.ClientHandshake.DoSendClientCertificateVerify | Know the Quote/Pods/BoringSSL-GRPC/ssl/handshake_client.cc:1373-1455 | Sends CertificateVerify exactly when it was asked for a certificate and has one. |
| HandshakeClient.ClientHandshake.SendFinalFlight | Know the Quote/Pods/BoringSSL-GRPC/ssl/handshake_client.cc:1457-1512 | ChangeCipherSpec, what was negotiated to follow it, and a Finished over the transcript so far: four places of the list, one write-key change, one Finished sent. |
| HandshakeClient.ClientHandshake.DoSendClientFinished | Know the Quote/Pods/BoringSSL-GRPC/ssl/handshake_client.cc:1457-1512 | The step around it, after which the flight is to be flushed. |
| HandshakeClient.ClientHandshake.DoFinishFlight | Know the Quote/Pods/BoringSSL-GRPC/ssl/handshake_client.cc:1538-1564 | A resumed handshake is done after its last flight; a full one reads on. |
| HandshakeClient.ClientHandshake.DoReadSessionTicket | Know the Quote/Pods/BoringSSL-GRPC/ssl/handshake_client.cc:1566-1647 | Reads a ticket exactly when one was promised, then waits for the ChangeCipherSpec. |
| HandshakeClient.ClientHandshake.DoProcessChangeCipherSpec | Know the Quote/Pods/BoringSSL-GRPC/ssl/handshake_client.cc:1649-1656 | One read-key change, without moving in the list. |
| HandshakeClient.ClientHandshake.DoReadServerFinished | Know the Quote/Pods/BoringSSL-GRPC/ssl/handshake_client.cc:1658-1672 | The server's Finished vouches for this side's transcript, so it verifies, once. |
| HandshakeClient.ClientHandshake.DoFinishClientHandshake | Know the Quote/Pods/BoringSSL-GRPC/ssl/handshake_client.cc:1674-1705 | Reaches the end only at the end of the list. |
| HandshakeClient.ClientHandshake.Step | Know the Quote/Pods/BoringSSL-GRPC/ssl/handshake_client.cc:1707-1789 | Each state's step keeps the side in step with the list, never fails, and moves on or says what it waits for. |
| HandshakeClient.ClientHandshake.Handshake | Know the Quote/Pods/BoringSSL-GRPC/ssl/handshake_client.cc:1707-1789 | The driver loop terminates, done or waiting; if there was something to read and it waits to read, it has moved. |
| HandshakeClient.ClientHandshake.Run | Know the Quote/Pods/BoringSSL-GRPC/ssl/handshake.cc:491-628 | The outer driver flushes, reads and goes on until the side rests: done, or waiting for a message that is the peer's to send. |
| HandshakeServer.ServerHandshake.constructor | Know the Quote/Pods/BoringSSL-GRPC/ssl/handshake_server.cc:426-430 | A fresh server stands at the start of the list with nothing sent. |
| HandshakeServer.ServerHandshake.DoStartAccept | Know the Quote/Pods/BoringSSL-GRPC/ssl/handshake_server.cc:426-430 | Goes on without moving in the list. |
| HandshakeServer.ServerHandshake.DoReadClientHello | Know the Quote/Pods/BoringSSL-GRPC/ssl/handshake_server.cc:432-510 | What it reads is the ClientHello. |
| HandshakeServer.ServerHandshake.DoSelectCertificate | Know the Quote/Pods/BoringSSL-GRPC/ssl/handshake_server.cc:512-560 | Goes on without taking the ClientHello off. |
| HandshakeServer.ServerHandshake.DoSelectParameters | Know the Quote/Pods/BoringSSL-GRPC/ssl/handshake_server.cc:572-684 | Resumes or not, and settles the flags of the list: certificate request, ticket, NPN and Channel ID. |
| HandshakeServer.ServerHandshake.DoSendServerHello | Know the Quote/Pods/BoringSSL-GRPC/ssl/handshake_server.cc:686-752 | Sends the ServerHello with the settled flags, and goes to the last flight when resuming. |
| HandshakeServer.ServerHandshake.SendCertificates | Know the Quote/Pods/BoringSSL-GRPC/ssl/handshake_server.cc:754-840 | Certificate and CertificateStatus exactly when the list has them. |
| HandshakeServer.ServerHandshake.DoSendServerCertificate | Know the Quote/Pods/BoringSSL-GRPC/ssl/handshake_server.cc:754-840 | The step around it. |
| HandshakeServer.ServerHandshake.DoSendServerKeyExchange | Know the Quote/Pods/BoringSSL-GRPC/ssl/handshake_server.cc:842-912 | Sends ServerKeyExchange exactly when the cipher is ephemeral or a PSK hint is to be told. |
| HandshakeServer.ServerHandshake.FinishHello | Know the Quote/Pods/BoringSSL-GRPC/ssl/handshake_server.cc:914-947 | CertificateRequest when wanted, then ServerHelloDone. |
| HandshakeServer.ServerHandshake.DoSendServerHelloDone | Know the Quote/Pods/BoringSSL-GRPC/ssl/handshake_server.cc:914-947 | The step around it, after which the flight is to be flushed. |
| HandshakeServer.ServerHandshake.DoReadClientCertificate | Know the Quote/Pods/BoringSSL-GRPC/ssl/handshake_server.cc:949-1040 | Reads a certificate exactly when one was asked for, and remembers whether it was empty. |
| HandshakeServer.ServerHandshake.DoVerifyClientCertificate | Know the Quote/Pods/BoringSSL-GRPC/ssl/handshake_server.cc:1042-1056 | For a certificate that verifies it goes on without moving in the list. |
| HandshakeServer.ServerHandshake.DoReadClientKeyExchange | Know the Quote/Pods/BoringSSL-GRPC/ssl/handshake_server.cc:1058-1267 | What it reads is the ClientKeyExchange. |
| HandshakeServer.ServerHandshake.DoReadClientCertificateVerify | Know the Quote/Pods/BoringSSL-GRPC/ssl/handshake_server.cc:1269-1363 | Reads CertificateVerify exactly when the client has a certificate. |
| HandshakeServer.ServerHandshake.DoReadChangeCipherSpec | Know the Quote/Pods/BoringSSL-GRPC/ssl/handshake_server.cc:1365-1368 | Waits for the ChangeCipherSpec, which is what the list has next. |
| HandshakeServer.ServerHandshake.DoProcessChangeCipherSpec | Know the Quote/Pods/BoringSSL-GRPC/ssl/handshake_server.cc:1370-1377 | One read-key change, without moving in the list. |
| HandshakeServer.ServerHandshake.DoReadNextProto | Know the Quote/Pods/BoringSSL-GRPC/ssl/handshake_server.cc:1379-1413 | Reads NextProto exactly when it was negotiated. |
| HandshakeServer.ServerHandshake.DoReadChannelId | Know the Quote/Pods/BoringSSL-GRPC/ssl/handshake_server.cc:1415-1437 | Reads the Channel ID exactly when it was negotiated. |
| HandshakeServer.ServerHandshake.DoReadClientFinished | Know the Quote/Pods/BoringSSL-GRPC/ssl/handshake_server.cc:1439-1461 | The client's Finished vouches for this side's transcript, so it verifies, once; then the last flight, or the end when resuming. |
| HandshakeServer.ServerHandshake.SendFinalFlight | Know the Quote/Pods/BoringSSL-GRPC/ssl/handshake_server.cc:1463-1509 | A promised ticket, ChangeCipherSpec and Finished over the transcript so far: three places of the list, one write-key change, one Finished sent. |
| HandshakeServer.ServerHandshake.DoSendServerFinished | Know the Quote/Pods/BoringSSL-GRPC/ssl/handshake_server.cc:1463-1509 | The step around it: done after a full handshake, reading on after a resumed one. |
| HandshakeServer.ServerHandshake.DoFinishServerHandshake | Know the Quote/Pods/BoringSSL-GRPC/ssl/handshake_server.cc:1511-1537 | Reaches the end only at the end of the list. |
| HandshakeServer.ServerHandshake.Step | Know the Quote/Pods/BoringSSL-GRPC/ssl/handshake_server.cc:1539-1621 | Each state's step keeps the side in step with the list, never fails, and moves on or says what it waits for. |
| HandshakeServer.ServerHandshake.Handshake | Know the Quote/Pods/BoringSSL-GRPC/ssl/handshake_server.cc:1539-1621 | The driver loop terminates, done or waiting; if there was something to read and it waits to read, it has moved. |
| HandshakeServer.ServerHandshake.Run | Know the Quote/Pods/BoringSSL-GRPC/ssl/handshake.cc:491-628 | As for the client. |
| Handshake.Deliver | Know the Quote/Pods/BoringSSL-GRPC/ssl/handshake.cc:491-628 | The first messages sent by one side join the other's inbox, in order. |
| Handshake.ClientTurn | Know the Quote/Pods/BoringSSL-GRPC/ssl/handshake_client.cc:1707-1789 | The client does all it can and its flight reaches the server; both stay joined, and having had something to read it has moved. |
| Handshake.ServerTurn | Know the Quote/Pods/BoringSSL-GRPC/ssl/handshake_server.cc:1539-1621 | The same for the server. |
| Handshake.Connect | Know the Quote/Pods/BoringSSL-GRPC/ssl/handshake.cc:491-628 | For every agreed choice of flags, client and server joined by FIFO channels both reach the end, and on each side one Finished has been sent, one verified, and both keys changed once; both transcripts are the flow of RFC 5246 for these flags, with a ClientKeyExchange unless resuming. |
| Refcount.LockedCount.Increment | Know the Quote/Pods/BoringSSL-GRPC/crypto/refcount_lock.c:29-35 | The count under the lock grows by one unless it is saturated. |
| Refcount.LockedCount.DecrementAndTestZero | Know the Quote/Pods/BoringSSL-GRPC/crypto/refcount_lock.c:37-51 | It shrinks by one unless saturated, says whether it reached zero, and aborts at zero. |
| Refcount.AtomicCount.CompareExchangeWeak | Know the Quote/Pods/BoringSSL-GRPC/crypto/refcount_c11.c:40-46 | Exchanges only an expected value, may fail without cause, and tells the value it saw. |
| Refcount.Increment | Know the Quote/Pods/BoringSSL-GRPC/crypto/refcount_c11.c:37-47 | Against any finite interference by other threads and any spurious failures of the exchange, the lock-free loop ends and has the effect of one increment under the lock at one moment of the run. |
| Refcount.DecrementAndTestZero | Know the Quote/Pods/BoringSSL-GRPC/crypto/refcount_c11.c:49-65 | The same for the decrement, whose answer is the one the lock would have given at that moment. |
| Refcount.StepIsAtomic | Know the Quote/Pods/BoringSSL-GRPC/crypto/refcount_c11.c:37-65 | Every atomic step of any thread either changes nothing shared or is one whole operation of the locked version, with its outcome. |
| Refcount.StepKeeps | Know the Quote/Pods/BoringSSL-GRPC/crypto/refcount_c11.c:37-65 | Each step keeps the log of effects a run of the locked version, each thread's answers being its own effects in order. |
| Refcount.Linearizable | Know the Quote/Pods/BoringSSL-GRPC/crypto/refcount_c11.c:37-65 | In every interleaving of any number of threads the count is what the locked version gives for the logged effects, and every completed operation took effect once, in its thread's order, with that outcome. |
| Refcount.Saturated | Know the Quote/Pods/BoringSSL-GRPC/crypto/refcount_c11.c:37-65 | A count that has reached 2^32 - 1 never changes again, in any run. |
| Refcount.Counts | Know the Quote/Pods/BoringSSL-GRPC/crypto/refcount_c11.c:37-65 | Under every interleaving, until the count has reached 2^32 - 1: it is what was there, plus what was taken, less what was given back; giving back says that nothing is left exactly when that is so, and aborts exactly when there was nothing. |
| CipherChoice.Find | Know the Quote/Pods/BoringSSL-GRPC/ssl/handshake_server.cc:398-402 | The index of a cipher's first place in the other list, or none. |
| CipherChoice.GroupDecides | Know the Quote/Pods/BoringSSL-GRPC/ssl/handshake_server.cc:404-420 | The first group with an acceptable cipher settles the choice when it closes. |
| CipherChoice.Choose | Know the Quote/Pods/BoringSSL-GRPC/ssl/handshake_server.cc:357-424 | Null exactly when no closed group has an acceptable shared cipher; otherwise the choice is the best: earliest such group, and in it first in the other list. |
| CipherChoice.ChooseCipher | Know the Quote/Pods/BoringSSL-GRPC/ssl/handshake_server.cc:357-424 | By the client's order, or with the last flag clear: null exactly when no acceptable shared cipher exists. By the server's groups in any list: null only when no closed group has one. Otherwise an acceptable shared cipher, best by server groups and then client order, or by the client's order alone. |
| CipherChoice.BestIsUnique | Know the Quote/Pods/BoringSSL-GRPC/ssl/handshake_server.cc:357-424 | There is only one best cipher. |
| CipherChoice.EveryGroupCloses | Know the Quote/Pods/BoringSSL-GRPC/ssl/internal.h:1860-1893 | When the last flag is clear, every entry's group has an end. |
| CipherChoice.CompleteExactly | Know the Quote/Pods/BoringSSL-GRPC/ssl/handshake_server.cc:390-421 | For every list with any flags: the loop finds a cipher for every client and server that share one, exactly when no cipher that some server can do stands in the open group alone. |
| CipherChoice.LastFlagDecides | Know the Quote/Pods/BoringSSL-GRPC/ssl/internal.h:1860-1893 | For every list of different ciphers that some server can do: that is so exactly when the last flag is clear. |
| Premaster.ZeroMask | Know the Quote/Pods/BoringSSL-GRPC/crypto/internal.h:302-316 | The mask is all ones exactly at zero and zero elsewhere. |
| Premaster.EqualMask | Know the Quote/Pods/BoringSSL-GRPC/crypto/internal.h:324-328 | The mask is all ones exactly for equal words and zero otherwise. |
| Premaster.SelectMask | Know the Quote/Pods/BoringSSL-GRPC/crypto/internal.h:348-355 | Selecting by the two masks gives the first or the second word. |
| Premaster.ByteMasks | Know the Quote/Pods/BoringSSL-GRPC/crypto/internal.h:318-362 | The byte versions of the three. |
| Premaster.FixedZeroIsFirstZero | Know the Quote/Pods/BoringSSL-GRPC/ssl/handshake_server.cc:1142-1166 | A block unpads, by the rule that looks for the first zero, to 48 bytes that start with the client's version exactly when the bytes the code looks at are as it wants them. |
| Premaster.UnpadExactly | Know the Quote/Pods/BoringSSL-GRPC/ssl/handshake_server.cc:1142-1166 | A block holds a message exactly when it is 0, 2, at least eight bytes that are not zero, 0 and the message. |
| Premaster.VersionBytes | Know the Quote/Pods/BoringSSL-GRPC/ssl/handshake_server.cc:1159-1166 | The two version bytes that are compared are those of the client's version, the major one first. |
| Premaster.CheckPadding | Know the Quote/Pods/BoringSSL-GRPC/ssl/handshake_server.cc:1146-1158 | The loop's mask is all ones exactly for block type 2 with non-zero padding, and zero otherwise. |
| Premaster.CheckTail | Know the Quote/Pods/BoringSSL-GRPC/ssl/handshake_server.cc:1159-1166 | With the separating zero and the version added, the mask is still all ones or zero, exactly by the rule. |
| Premaster.ReadPremaster | Know the Quote/Pods/BoringSSL-GRPC/ssl/handshake_server.cc:1142-1178 | Blocks of a wrong length are refused; otherwise the premaster is the block's last 48 bytes when the branching rule accepts the block, and the random bytes it held before when not. |
| AppWrite.AppWriter.WritePending | Know the Quote/Pods/BoringSSL-GRPC/ssl/s3_pkt.cc:202-218 | Flushes the waiting record only with arguments that match those it was sealed with, as `FlushRecord` says. |
| AppWrite.AppWriter.WriteRecord | Know the Quote/Pods/BoringSSL-GRPC/ssl/s3_pkt.cc:221-289 | Flushes the waiting record, or seals the data given and flushes it, as `PutRecord` says. |
| AppWrite.AppWriter.Write | Know the Quote/Pods/BoringSSL-GRPC/ssl/s3_pkt.cc:129-200 | The loop does what `PutData` says for every state, data and behaviour of cipher and transport, refusals included. |
| AppWrite.RecordGoesOn | Know the Quote/Pods/BoringSSL-GRPC/ssl/s3_pkt.cc:221-289 | Inside a call, sealing or flushing one record keeps what is sealed the next bytes of the stream, once and in order. |
| AppWrite.LoopKeeps | Know the Quote/Pods/BoringSSL-GRPC/ssl/s3_pkt.cc:155-199 | So does the whole loop, whatever it answers. |
| AppWrite.CallKeeps | Know the Quote/Pods/BoringSSL-GRPC/ssl/s3_pkt.cc:129-200 | A call keeps what is sealed and flushed the next bytes of the stream, if and only if it does not offer less than is flushed already. |
| AppWrite.ReportIsExact | Know the Quote/Pods/BoringSSL-GRPC/ssl/s3_pkt.cc:129-200 | A positive answer r: exactly the first r bytes offered have been sealed and flushed, and nothing waits. |
| AppWrite.CutsEvenly | Know the Quote/Pods/BoringSSL-GRPC/ssl/s3_pkt.cc:129-200 | A call cuts what is not yet sealed into records of the largest fragment, all full but the last. |
| AppWrite.AnswerIs | Know the Quote/Pods/BoringSSL-GRPC/ssl/s3_pkt.cc:160-200 | A positive answer is all of the data, or in the partial mode what was flushed before and one record. |
| AppWrite.RecordsFit | Know the Quote/Pods/BoringSSL-GRPC/ssl/s3_pkt.cc:129-200 | Over all sequences of calls every record holds at least one byte and at most the largest fragment. |
| AppWrite.OtherAddressRefused | Know the Quote/Pods/BoringSSL-GRPC/ssl/s3_pkt.cc:202-211 | A retry under another address changes nothing, unless the buffer may move. |
| AppWrite.ShortRunRepeats | Know the Quote/Pods/BoringSSL-GRPC/ssl/s3_pkt.cc:136-152 | After a call that offers too little, the full retry seals a byte again that had been sealed. |
| AppWrite.SealedOnce | Know the Quote/Pods/BoringSSL-GRPC/ssl/s3_pkt.cc:129-289 | Over all sequences of calls on a stream: what is sealed is the stream so far, without gap or repetition, if and only if no call offered less than was flushed already. |
| Der.NumberLoop | Know the Quote/Pods/BoringSSL-GRPC/crypto/bytestring/cbs.c:183-208 | The loop reads a tag number of seven bits a byte: as `Base128` says, with the refusal of a leading zero group and of a value past 64 bits. |
| Der.ReadTag | Know the Quote/Pods/BoringSSL-GRPC/crypto/bytestring/cbs.c:210-241 | Tags of one byte and of several; a long form with a number below 31 or of more than 29 bits is refused. |
| Der.ReadElement | Know the Quote/Pods/BoringSSL-GRPC/crypto/bytestring/cbs.c:243-322 | On any input: tag, minimal definite length and contents of the element in front, or a refusal, as `GetElement` says. |
| Der.LengthInverse | Know the Quote/Pods/BoringSSL-GRPC/crypto/bytestring/cbs.c:243-322 | A length written in its shortest form is read back, before anything that follows. |
| Der.ElementInverse | Know the Quote/Pods/BoringSSL-GRPC/crypto/bytestring/cbs.c:324-371 | An element with a one-byte tag is read back with its contents, before anything that follows. |
| Der.UintInverse | Know the Quote/Pods/BoringSSL-GRPC/crypto/bytestring/cbs.c:391-426 | An unsigned 64-bit integer written as an INTEGER is read back from its contents. |
| Der.UintContent | Know the Quote/Pods/BoringSSL-GRPC/crypto/bytestring/cbb.c:473-506 | The loop skips leading zero bytes and puts a zero in front of a set sign bit, as the shortest non-negative INTEGER. |
| Der.UintLoop | Know the Quote/Pods/BoringSSL-GRPC/crypto/bytestring/cbs.c:391-426 | The loop accepts exactly the contents of non-negative minimal integers below 2^64, and computes their value. |
| Der.Cbb.AddTlv | Know the Quote/Pods/BoringSSL-GRPC/crypto/bytestring/cbb.c:359-390 | Appends the element, or fails exactly when the contents are too long. |
| Der.Cbs.GetOptional | Know the Quote/Pods/BoringSSL-GRPC/crypto/bytestring/cbs.c:444-459 | Absent exactly when the next tag is another; then nothing is taken. |
| Der.Cbs.GetOptionalOctetString | Know the Quote/Pods/BoringSSL-GRPC/crypto/bytestring/cbs.c:461-481 | The same for an octet string inside the tag. |
| DerElement.ElementThen | Know the Quote/Pods/BoringSSL-GRPC/crypto/bytestring/cbs.c:243-322 | An element, with a tag and a length of any form that is accepted, is read in the same way whatever follows it. |
| DerElement.WholeIsElement | Know the Quote/Pods/BoringSSL-GRPC/crypto/bytestring/cbs.c:243-322 | The bytes that an element was read from are an element by themselves. |
| DerElement.FrontCanonical | Know the Quote/Pods/BoringSSL-GRPC/crypto/bytestring/cbs.c:243-371 | An element that is accepted under a tag of one byte is in the only form the writer gives it. |
| DerElement.IntCanonical | Know the Quote/Pods/BoringSSL-GRPC/crypto/bytestring/cbs.c:391-426 | The contents of an integer that is accepted are those the writer gives it. |
| DerForm.UniversalTags | Know the Quote/Pods/BoringSSL-GRPC/crypto/bytestring/cbb.c:359-390 | The tags that are written, by class, form and number: BOOLEAN 1, INTEGER 2, OCTET STRING 4, and the constructed SEQUENCE 16. |
| DerForm.UniversalTagsRead | Know the Quote/Pods/BoringSSL-GRPC/crypto/bytestring/cbs.c:210-241 | And those that are read. |
| DerForm.LengthForm | Know the Quote/Pods/BoringSSL-GRPC/crypto/bytestring/cbb.c:223-276 | A length up to 127 is one byte; a longer one is the number of the bytes that follow, with the top bit set, and its digits without leading zeros. |
| DerForm.IntegerForm | Know the Quote/Pods/BoringSSL-GRPC/crypto/bytestring/cbb.c:473-506 | The contents of an integer: the most significant byte first, the sign bit clear, no byte more than that takes. |
| DerForm.IntegerExactly | Know the Quote/Pods/BoringSSL-GRPC/crypto/bytestring/cbs.c:391-426 | From any bytes, an INTEGER is read as n exactly when it is that of n. |
| DerForm.FrontExactly | Know the Quote/Pods/BoringSSL-GRPC/crypto/bytestring/cbs.c:243-371 | From any bytes, an element of a one-byte tag is read exactly when it is the one that would be written. |
| DerForm.LongTagExactly | Know the Quote/Pods/BoringSSL-GRPC/crypto/bytestring/cbs.c:183-241 | From any bytes, a tag of more than one byte is accepted exactly when its number is from 31 to 2^29 - 1, in as few groups of seven bits as it takes. |
| SessionFormat.TagsAhead | Know the Quote/Pods/BoringSSL-GRPC/ssl/ssl_asn1.cc:200-399 | What follows an element starts with a higher tag or not at all, so an absent field is seen as absent. |
| SessionFormat.ReadField | Know the Quote/Pods/BoringSSL-GRPC/ssl/ssl_asn1.cc:407-525 | At its turn a field is found exactly when it was written, with its contents, and what follows is the next field's turn. |
| SessionForm.FieldTags | Know the Quote/Pods/BoringSSL-GRPC/ssl/ssl_asn1.cc:153-199 | Field n stands under the constructed context-specific tag n, and the whole under the constructed universal tag 16. |
| SessionForm.FieldTagsRead | Know the Quote/Pods/BoringSSL-GRPC/ssl/ssl_asn1.cc:527-757 | The parser takes an element as field n only under that tag, and without it sees no field. |
| SessionForm.OptionalExactly | Know the Quote/Pods/BoringSSL-GRPC/crypto/bytestring/cbs.c:444-459 | From any bytes, an optional field is read exactly as it would be written. |
| SessionForm.UintExactly | Know the Quote/Pods/BoringSSL-GRPC/ssl/ssl_asn1.cc:488-525 | From any bytes, an integer field is v exactly when the INTEGER of v stands under the tag alone and v is within the limit, or the field is not there and v is its default. |
| SessionForm.MandatoryExactly | Know the Quote/Pods/BoringSSL-GRPC/ssl/ssl_asn1.cc:580-593 | From any bytes, a mandatory integer is v exactly when the INTEGER of v comes first under the tag; what stands behind it there is not looked at. |
| SessionForm.OctetsExactly | Know the Quote/Pods/BoringSSL-GRPC/ssl/ssl_asn1.cc:450-471 | From any bytes, an octet string field is read exactly as it would be written. |
| SessionForm.BoolExactly | Know the Quote/Pods/BoringSSL-GRPC/crypto/bytestring/cbs.c:501-529 | From any bytes, a boolean field is one byte, all ones or zero, or its default when it is not there. |
| SessionForm.HostNameIgnored | Know the Quote/Pods/BoringSSL-GRPC/ssl/ssl_asn1.cc:610-617 | An old host name is not looked at, whatever is in it. |
| SessionForm.NothingElse | Know the Quote/Pods/BoringSSL-GRPC/ssl/ssl_asn1.cc:721-754 | Fields 21 to 26 take all that is left: whatever else stands there, the session is refused. |
| SessionForm.Bounds | Know the Quote/Pods/BoringSSL-GRPC/ssl/ssl_asn1.cc:527-757 | The bounds of the parser, as numbers. |
| SessionCodec.PutHead | Know the Quote/Pods/BoringSSL-GRPC/ssl/ssl_asn1.cc:207-216 | Writes version, protocol version, cipher, session ID and master key. |
| SessionCodec.PutFirst | Know the Quote/Pods/BoringSSL-GRPC/ssl/ssl_asn1.cc:217-275 | Writes fields 1 to 10, each where the format has it. |
| SessionCodec.PutMiddle | Know the Quote/Pods/BoringSSL-GRPC/ssl/ssl_asn1.cc:277-348 | Writes fields 13 to 19; certificates only when no hash stands for them. |
| SessionCodec.JoinCerts | Know the Quote/Pods/BoringSSL-GRPC/ssl/ssl_asn1.cc:336-346 | The chain is the certificates after the first, one after another. |
| SessionCodec.PutAge | Know the Quote/Pods/BoringSSL-GRPC/ssl/ssl_asn1.cc:350-358 | The ticket age, four bytes in an octet string, exactly when it is valid. |
| SessionCodec.PutLast | Know the Quote/Pods/BoringSSL-GRPC/ssl/ssl_asn1.cc:350-396 | Writes fields 21 to 26 with their defaults left out. |
| SessionCodec.ToBytes | Know the Quote/Pods/BoringSSL-GRPC/ssl/ssl_asn1.cc:200-399 | The serialization is the SEQUENCE of the fields that differ from their defaults, and it fails exactly when that is too long. |
| SessionParse.TakeUint | Know the Quote/Pods/BoringSSL-GRPC/ssl/ssl_asn1.cc:488-525 | On any input: an optional integer within its bound, or its default, or a refusal, as `UintIn` says. |
| SessionParse.TakeOctets | Know the Quote/Pods/BoringSSL-GRPC/ssl/ssl_asn1.cc:450-471 | An optional octet string, as `OctetsIn` says of any input. |
| SessionParse.TakeStowed | Know the Quote/Pods/BoringSSL-GRPC/ssl/ssl_asn1.cc:436-448 | An optional octet string, an empty one being none, as `StowedIn` says of any input. |
| SessionParse.TakeBounded | Know the Quote/Pods/BoringSSL-GRPC/ssl/ssl_asn1.cc:475-486 | An optional octet string within its bound, or empty, as `BoundedIn` says of any input. |
| SessionParse.TakeBool | Know the Quote/Pods/BoringSSL-GRPC/crypto/bytestring/cbs.c:501-529 | An optional boolean, of one byte 0 or 255, or its default, as `BoolIn` says of any input. |
| SessionParse.CutChain | Know the Quote/Pods/BoringSSL-GRPC/ssl/ssl_asn1.cc:698-713 | The loop cuts a chain into its elements, or refuses it, as `ChainOf` says. |
| SessionParse.TakeCerts | Know the Quote/Pods/BoringSSL-GRPC/ssl/ssl_asn1.cc:669-714 | Leaf and chain; an empty chain or one without a leaf is refused. |
| SessionParse.ParseHead | Know the Quote/Pods/BoringSSL-GRPC/ssl/ssl_asn1.cc:536-578 | Version to master key, with every refusal, as `HeadIn` says of any input. |
| SessionParse.ParseStart | Know the Quote/Pods/BoringSSL-GRPC/ssl/ssl_asn1.cc:580-604 | Time to session ID context, as `StartIn` says. |
| SessionParse.ParseTicket | Know the Quote/Pods/BoringSSL-GRPC/ssl/ssl_asn1.cc:602-625 | Verify result to ticket, the old host name skipped, as `TicketIn` says. |
| SessionParse.ParseDigest | Know the Quote/Pods/BoringSSL-GRPC/ssl/ssl_asn1.cc:627-653 | Hash of the peer's certificate to OCSP response, as `DigestIn` says. |
| SessionParse.ParseChain | Know the Quote/Pods/BoringSSL-GRPC/ssl/ssl_asn1.cc:655-714 | Extended master secret to certificate chain, as `ChainIn` says. |
| SessionParse.ParseLast | Know the Quote/Pods/BoringSSL-GRPC/ssl/ssl_asn1.cc:721-754 | Ticket age to ALPN string, with nothing after it, as `LastIn` says. |
| SessionParse.Parse | Know the Quote/Pods/BoringSSL-GRPC/ssl/ssl_asn1.cc:527-757 | On any input the parser answers what `SessionIn` says, taking as much; what it returns is within its bounds. |
| SessionRestore.UintReads | Know the Quote/Pods/BoringSSL-GRPC/ssl/ssl_asn1.cc:488-525 | From a stored session an integer field reads as its value, present or not, leaving the next field; it is refused exactly when it is over the limit. |
| SessionRestore.OctetsReads | Know the Quote/Pods/BoringSSL-GRPC/ssl/ssl_asn1.cc:450-471 | An octet string reads as it was. |
| SessionRestore.BoolReads | Know the Quote/Pods/BoringSSL-GRPC/crypto/bytestring/cbs.c:501-529 | So does a boolean. |
| SessionRestore.ChainExactly | Know the Quote/Pods/BoringSSL-GRPC/ssl/ssl_asn1.cc:698-713 | A chain is cut into a list of certificates exactly when each is one element and, one after another, they make up the chain. |
| SessionRestore.HeadReads | Know the Quote/Pods/BoringSSL-GRPC/ssl/ssl_asn1.cc:536-578 | Version, cipher, session ID and master key of a stored session read back as they were, or are refused exactly when the version or the cipher is not known or a string is too long. |
| SessionRestore.StartReads | Know the Quote/Pods/BoringSSL-GRPC/ssl/ssl_asn1.cc:580-604 | So do time, timeout, leaf certificate and session ID context; refused exactly when the leaf is empty or the context too long. |
| SessionRestore.TicketReads | Know the Quote/Pods/BoringSSL-GRPC/ssl/ssl_asn1.cc:602-625 | So do verify result, PSK identity, lifetime hint and ticket; refused exactly for a negative result or a NUL in the identity. |
| SessionRestore.DigestReads | Know the Quote/Pods/BoringSSL-GRPC/ssl/ssl_asn1.cc:627-653 | So do the hashes, the timestamps and the OCSP response; refused exactly for a hash of another length than 32, or an original handshake hash of more than 64. |
| SessionRestore.CertsRead | Know the Quote/Pods/BoringSSL-GRPC/ssl/ssl_asn1.cc:669-714 | The certificates read back are the leaf and what the rest of the chain is cut into, whatever the bytes of the certificates were; refused exactly when the chain is empty or cannot be cut. |
| SessionRestore.RebuiltExactly | Know the Quote/Pods/BoringSSL-GRPC/ssl/ssl_asn1.cc:669-714 | They are those that were stored exactly when each behind the leaf is one element. |
| SessionRestore.LastReads | Know the Quote/Pods/BoringSSL-GRPC/ssl/ssl_asn1.cc:721-754 | Ticket age, side, algorithm, early data, timeout and ALPN string always read back, with their defaults when left out. |
| SessionRestore.SessionReadsExactly | Know the Quote/Pods/BoringSSL-GRPC/ssl/ssl_asn1.cc:527-757 | For every session that can be stored, with any field values: what the parser answers on its serialization, whatever follows it. It refuses exactly when a field breaks a bound of the parser; otherwise it answers the session, without the certificates beside their hash, with empty tickets and ALPN strings as none, and with the certificates as they are cut. |
| SessionRestore.SessionReads | Know the Quote/Pods/BoringSSL-GRPC/ssl/ssl_asn1.cc:527-757 | The session comes back as it was, up to what is not stored, exactly when it is within the parser's bounds and its certificates are elements. |
| SessionStable.BodyCost | Know the Quote/Pods/BoringSSL-GRPC/ssl/ssl_asn1.cc:200-757 | Whatever bytes are accepted as the contents: stored again, the session takes at most four bytes more than they did. |
| SessionStable.AcceptedIsStable | Know the Quote/Pods/BoringSSL-GRPC/ssl/ssl_asn1.cc:200-757 | Whatever is accepted from fewer than 2^32 bytes can be stored again, and what is read back is the same up to what is not stored, once and for all. |
| SessionParse.StoreAndRestore | Know the Quote/Pods/BoringSSL-GRPC/ssl/ssl_asn1.cc:200-757 | Storing and parsing in place, for every session: it comes back, up to what is not stored, exactly when its serialization is not too long and it is within the parser's bounds; and in each other case what comes back instead. |

## Left out

nanopb:
- Callbacks, extensions, pointer and malloc fields, streams other than memory buffers, and the delimited and NUL-terminated message variants: user code, heap ownership, or one call around what is modelled.
- Raw memory: a struct is typed slot values. Reading a union member that was not the one written, or a slot whose shape is not its entry's, is an error result instead of the bytes found there.
- Sizes of `size_t` are unbounded; `pb_size_t` has 32 bits, as the repository's build sets it (PB_FIELD_32BIT).
- PbEncode.CheckDefault: of the first four bytes of a fixed-count array of submessages nothing is known, and a slot cell stands for them.
- PbDecode.SetToDefault: writes a count over the first four bytes of a fixed-count array, but not past the end of an array shorter than that.
- A submessage entry without a table (`ptr` NULL) cannot be told from one with an empty table.
- PbEncode.EncodeFixed: gathers the bytes in a loop where the source writes eight assignments.
- PbEncode.WriteItem: on failure it says that nothing outside the stream's own part of the buffer has changed, not how far the item was written; the same holds for every larger encoder.
- PbUnknown.UnknownTransparent: the extension lookup before an unknown field is skipped is not modelled.

DTLS:
- The AEAD is ideal: whether it seals or opens is given from outside, and what it opens is what was sealed.
- DtlsSeal.RecordWriter.SealRecord: the test that input and output buffers do not overlap.
- Timers, MTU queries, message callbacks, alerts' contents and a closed write side; the MTU is a parameter that is at least the minimum.
- DtlsReceiver.Receiver.NextMessage: the `flight_has_reply` flag, which only settles when a finished flight is thrown away.
- DtlsDelivery.PiecesAssemble: one message by itself, from an empty slot; `FragmentHolds` and `StepHolds` state it with everything else mixed in.
- DtlsDelivery.AvailableExactly: the same; `AvailableInRuns` states it over whole runs.
- DtlsEndToEnd.DeliveredIsPrefix: the network repeats payloads at will; that the replay window drops most repetitions is stated separately in `DtlsReplay`.

TLS handshake:
- TLS 1.3, early data, SSL 3.0, V2ClientHello, renegotiation, handoff, HelloVerifyRequest and False Start.
- Parsing and checking of message contents, certificates, signatures, key agreement and application callbacks: these local checks are assumed to pass, so the flags are what both hellos settle. A Finished carries the transcript it vouches for instead of a hash.
- HandshakeClient.ClientHandshake.DoEnterEarlyData: the branches for DTLS and early data.
- HandshakeClient.ClientHandshake.DoFinishFlight: the return of False Start.
- HandshakeServer.ServerHandshake.DoSelectCertificate: certificate callback and cipher choice are settled by the configuration; the choice is in `CipherChoice`.
- The test for left-over data at a TLS key change, alerts, and the channel as anything but FIFO.
- HandshakeScript.RunInLockstep: stages without a message are passed by either side when it comes to them.

Smaller parts:
- Refcount.Increment: interference is a finite sequence of operations between the loop's own steps, so that the loop ends; the interleaving lemmas have no such bound. Memory is sequentially consistent, and an abort ends the operation with its own outcome.
- Premaster: words have 64 bits; `constant_time_lt` and `constant_time_ge` are not used by the check and are not modelled. The decryption and the random bytes are inputs.
- AppWrite.AppWriter.Write: no early data; a record is taken by the transport whole or not at all.
- AppWrite.AppWriter.WriteRecord: no pending handshake flight in front and no key update, and the test for a write buffer in use, which without them is empty when no record waits.
- AppWrite.SealedOnce: the caller offers the stream it has from the last report on; offering other bytes instead breaks the interface's rule for retries.
- SessionCodec: the form for tickets, the `not_resumable` placeholder and allocation failures. `session_cache_objects` is a flag.
- Der: readers and writers only as the session code uses them; tags of more than one byte are read and never written. Fields that a peer no longer writes are parsed only as far as the code does (the old host name is skipped).

The rest of the repository: the app's Swift code, X.509, ciphers, hashes and the remaining pods.
