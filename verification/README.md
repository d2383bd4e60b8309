# Mobile-base firmware: verified models

This project models four parts of a mobile robot's base-board firmware and proves what they
are for. `dafny verify dfyconfig.toml` checks everything.

**The nanopb codec** (`protobuffer/`). A message type is a table of fields; a message is a
struct with one slot per field. `Wire`, `Schema`, `Encoding` and `Decoding` say, as
functions, what bytes a struct becomes and what bytes do to a struct. `Encoder`, `Decoder`
and `FieldIteration` are the C functions themselves, as methods over streams, buffers and
the circular iterator, each proved against those functions. The other
modules prove the laws of the format for every well-formed table: what decoding an encoding
does to any destination (`Merging`), when a struct survives the trip (`RoundTrip`), that
decoding is an action of concatenation and unknown fields are transparent
(`Concatenation`), what is left in the struct whatever the outcome (`Aftermath`), which
truncated messages pass and what a cut leaves (`Truncation`), that whatever was decoded
can be encoded again (`Reencoding`), what a reader with another version of the table makes
of a message (`Evolution`, `VersionedRoundTrip`), that the words of presence bits mean what
they should (`RequiredBits`), and that the three reports of the board always fit their
buffer (`Sizes`). `WireFormat`, `Omission` and `InPlace` relate the codec to the format itself
rather than to its other half: every byte and range in numbers, what is left out, and how
repeated submessages add up. `Transfer` runs encoder and decoder back to back, and `NavSpeed` says what
setpoint any datagram turns into.

**The chassis command handshake** (`src/chassis.cxx`, `src/task_chassis.cxx`). `Chassis` is
a state machine whose steps are single reads and writes of the shared flags, setpoints and
semaphore, so that every interleaving of dispatcher, timer signal and chassis task is a run.
The member functions of the device are proved to be runs of that machine.

**The gyro frame receiver** (`src/Gyro.cxx`). `Gyro` has the byte-at-a-time receiver as a
class, the step function it refines, and results about arbitrary byte streams; `GyroFrames`
says which frames are accepted, byte by byte.

**Odometry and kinematics** (`src/Mileage.cxx`, `src/Utils.cxx`). `Angles` and `Mileage`
work over the reals for the two-wheel differential chassis; `DeadReckoning` says which way and
how far the robot moves.

How the C is represented:

- A table is a sequence of `Field`; its end is the `PB_LAST_FIELD` terminator. A proto3
  singular field is `OPTIONAL` with size offset 0; an optional field with a `has_` flag has
  another size offset. `WellFormed` asks for distinct nonzero tags below 2^29 and storable
  sizes, as in every generated table. What ends with the final test of the presence words
  also asks for `PresenceTestable`: fewer than 64 required fields, not a nonzero multiple of
  32. Nothing in the source rules those out, but with them the shift at
  `protobuffer/pb_decode.c:947` or the word index is out of range. Tables in which tags repeat
  have the loop of `RepeatedTags`.
- Slots keep stale contents (array entries past the count, bytes past a terminator), because
  the default test at `protobuffer/pb_encode.c:205-267` reads entry 0 of an array whatever
  its count. Two structs are compared by `SameMsg`, which looks at live contents only.
- Fixed-width words are numbers with explicit ranges; where the C ors together disjoint bit
  groups, the model adds them. `pb_size_t` has 8 bits, so the header of a bytes member is
  one byte. Float and double payloads are raw 32- and 64-bit words.
- A stream is a position and a limit in a byte buffer, or a counter (`PB_OSTREAM_SIZING`).
- In the handshake the numbers of a setpoint are the raw 64-bit words of the datagram, and
  every stored one carries the number of the command that stored it; the stamps exist in the
  model only.
- Encoder readings are 32-bit numbers, and their differences wrap as the C subtraction does.
- Sine and cosine of the heading are two numbers handed in with c*c + s*s = 1. Motor
  replies (`waitCmdRet`), the byte in memory before the receive buffer, and when signals
  arrive are inputs.

What the proofs show the code does, where its documentation or names suggest otherwise:

- A struct that was only just cleared can still be written: the stale first entry of an array
  inside a singular submessage counts as content (`Omission.ClearedOmittedExactly`).
- A singular submessage that is skipped as "default" loses live array entries and set
  `has_` flags inside it (`RoundTrip.LossWitness`); `RoundTrip.RoundTripExact` gives the exact
  condition and `RoundTrip.SafeTableLossless` the tables, among them all of this board's
  reports, on which it cannot happen.
- A tag that is cut off at the very end of the input, or a zero tag, ends the message
  without an error (`protobuffer/pb_decode.c:258-270`); hence the `Clean` condition on
  concatenation. `Truncation.TruncationExact` says which truncated messages pass.
- On the table of an empty message a field numbered 0 is "found" at the terminator and fails
  instead of being skipped.
- The gyro's trailer byte is never compared with anything; at power-up no header is needed
  (`Gyro.HeaderlessBodiesExactly` says when); length byte 1 reads memory before the buffer and
  length byte 50 repeats.
- A setpoint can be sent with components of two commands (the newer one then follows), and a
  timer request can be left without a wake-up; `Chassis.SendIsWholeExactly` and
  `Chassis.OdometryTakenUpExactly` give the exact conditions.
- A wake-up left over from posts that coincided makes the chassis task repeat its last command
  (`Chassis.LeftoverWakeRepeats`).
- `chassisCmdHandler` stores what the decoder left behind even if decoding failed: a datagram
  that stops inside its second number is an error and still becomes a setpoint
  (`NavSpeed.BrokenDatagramIsTaken`). `NavSpeed.CutCommandExactly` says which cuts of a
  command leave its setpoint as it was sent.
- The stopped flag of the odometry starts out true and is never set again, because the code
  that would is commented out.
- The odometer report needs at most 146 bytes, not the declared 148.

## Model

| member | source | states |
|---|---|---|
| Wire.VarintRoundTrip | protobuffer/pb_decode.c:209-229 | for every 64-bit number, reading what was written gives it back and consumes exactly those bytes, whatever follows |
| Wire.VarintShortest | protobuffer/pb_encode.c:494-514 | no byte string that decodes to a number is shorter than the one the encoder writes for it |
| Wire.Varint32RoundTrip | protobuffer/pb_decode.c:173-207 | the same inversion for the 32-bit reader |
| Wire.Varint32Agrees | protobuffer/pb_decode.c:173-229 | whenever the 32-bit reader succeeds the 64-bit one consumes the same bytes and agrees modulo 2^32 |
| Wire.ZigZagRoundTrip | protobuffer/pb_encode.c:516-525 | zigzag numbers the signed integers 0, -1, 1, -2, ... and is inverted by the decoder for every int64 |
| Wire.ZigZagOnto | protobuffer/pb_decode.c:1118-1130 | every 64-bit code is the zigzag form of exactly the integer it decodes to |
| Wire.FixedRoundTrip | protobuffer/pb_encode.c:527-551 | little-endian words of any width are inverted |
| WireFormat.VarintBytes | protobuffer/pb_encode.c:494-514 | byte k of a written varint holds bits 7k to 7k+6 of the number, and its top bit is set exactly when more bits follow |
| WireFormat.VarintReadAt | protobuffer/pb_decode.c:173-229 | a byte string whose first byte below 128 is the k-th reads as the sum of its groups, modulo 2^64 if k < 10 and modulo 2^32 if k < 5, in any form, also longer than needed |
| WireFormat.VarintReadExactly | protobuffer/pb_decode.c:173-229 | nothing else can be read as a varint |
| WireFormat.WordBytes | protobuffer/pb_encode.c:527-551 | byte k of a written word holds bits 8k to 8k+7 |
| WireFormat.WordOnto | protobuffer/pb_decode.c:1132-1163 | every word read is written back as the same bytes |
| WireFormat.WrittenNumber | protobuffer/pb_encode.c:652-704 | the number written for each kind of integer: itself, its 64-bit complement or its zigzag code, whatever the member's size |
| WireFormat.WrittenBytes | protobuffer/pb_encode.c:706-764 | a word is its four or eight bytes, bytes and strings are a length and the live bytes |
| WireFormat.EntryTagNumber | protobuffer/pb_encode.c:553-590 | an entry begins with 8 times its tag plus 0 for integers, 1 for 64-bit words, 2 for bytes, strings and submessages, 5 for 32-bit words |
| WireFormat.ArrayTagNumber | protobuffer/pb_encode.c:126-165 | a non-empty array of numbers begins with 8 times its tag plus 2, and is one length-prefixed run |
| WireFormat.TagReadExactly | protobuffer/pb_decode.c:251-275 | every number is read as a tag, also with tag 0, except that the number 0 ends the message |
| WireFormat.SkipExactly | protobuffer/pb_decode.c:277-287 | how many bytes of any string are passed over for wire types 0, 1, 2 and 5, when that fails, and that every other wire type is an error |
| WireFormat.WireTypeIgnored | protobuffer/pb_decode.c:356-429 | only an array of numbers looks at the wire type, and only whether it is 2 |
| WireFormat.ZeroFieldExactly | protobuffer/pb_common.c:78-95 | a field numbered 0 is skipped on every table but the empty one, where it is an error |
| WireFormat.UnsignedExactly | protobuffer/pb_decode.c:1202-1224 | an unsigned member of 1, 2, 4 or 8 bytes takes exactly the numbers below 2^8, 2^16, 2^32, 2^64; any other is an error and leaves its low bits in the member |
| WireFormat.SignedExactly | protobuffer/pb_decode.c:1165-1200 | an int member reads the low 32 bits with their sign, or all 64 if it has eight bytes, and takes what is in its range; anything else is an error and leaves its low bits |
| WireFormat.ZigZagExactly | protobuffer/pb_decode.c:1226-1248 | the same for zigzag members, with the number the code stands for |
| WireFormat.BytesExactly | protobuffer/pb_decode.c:1262-1297 | a bytes member takes any payload that fits behind its one-byte size; what lies behind the payload stays as it was |
| WireFormat.StringExactly | protobuffer/pb_decode.c:1299-1332 | a string member takes any payload that leaves room for the NUL, also with NULs inside; what lies behind stays as it was |
| WireFormat.WordExactly | protobuffer/pb_decode.c:1132-1163 | a word takes exactly the next four or eight bytes, low byte first, or fails and leaves the member alone |
| WireFormat.PackedOverflow | protobuffer/pb_decode.c:374-402 | a packed run that does not fit is an error and fills the array with its first entries up to the end |
| WireFormat.PackedRejected | protobuffer/pb_decode.c:374-402 | a number too large for its entries ends a packed run with an error, uncounted but stored in its low bits |
| WireFormat.FullArray | protobuffer/pb_decode.c:403-413 | a single entry for a full array is an error and changes nothing |
| WireFormat.DelimitedExactly | protobuffer/pb_decode.c:969-982 | pb_decode_delimited leaves what pb_decode leaves, but a message cut short does not even clear the struct |
| Encoding.MsgEncodable | protobuffer/pb_encode.c:451-473 | the encoder meets a value error exactly when some count or bytes size that is written leaves its buffer |
| Omission.ScalarOmittedExactly | protobuffer/pb_encode.c:205-267 | a singular field that is not a submessage is left out exactly when its number is 0, its bytes are none or its string begins with NUL |
| Omission.SubmessageOmittedExactly | protobuffer/pb_encode.c:225-244 | a singular submessage is left out exactly when each of its members would be as a singular field, flags and counts not looked at, and of an array only entry 0 |
| Omission.OthersOmittedExactly | protobuffer/pb_encode.c:271-349 | a required field is never left out, a flagged one exactly without its flag, an array exactly when its count is 0 |
| Omission.MemberCleared | protobuffer/pb_decode.c:763-846 | pb_message_set_to_defaults switches flags off, sets counts to 0 and keeps array entries |
| Omission.DataCleared | protobuffer/pb_decode.c:763-846 | it makes numbers 0, every byte of every buffer 0, and goes through submessages member by member |
| Omission.ClearedOmittedExactly | protobuffer/pb_encode.c:205-267 | a cleared member is not written, except a singular submessage in which some array's stale entry 0 is not zero |
| Decoding.DecodeSlot | protobuffer/pb_decode.c:356-429 | on every byte string, decoding a field ends, consumes at least one byte and leaves a struct member of the right type |
| RepeatedTags.WalkLoop | protobuffer/pb_decode.c:852-917 | the field loop with the position of its iterator, on every table, also one in which tags repeat: for every byte string it ends, with its recursion through submessages, and keeps the struct well typed |
| RepeatedTags.LoopWithoutRepeats | protobuffer/pb_decode.c:877-906 | with distinct tags at every depth that loop is Decoding.DecodeLoop, wherever the iterator stands |
| RepeatedTags.WalkIsAction | protobuffer/pb_decode.c:863-917 | on every table: decoding a and then b, the iterator left where it was, equals decoding a followed by b |
| RepeatedTags.RestartsMatter | protobuffer/pb_common.c:78-95 | a table with a repeated tag on which two decodes in a row store other members than one decode of the whole |
| Merging.TagRoundTrip | protobuffer/pb_decode.c:251-275 | every written tag is read back with its wire type, whatever follows |
| Merging.SubstreamRoundTrip | protobuffer/pb_decode.c:322-335 | a length-prefixed run is set apart exactly, and what follows is untouched |
| Merging.ScalarExact | protobuffer/pb_decode.c:1165-1332 | one encoded entry decodes to the merge of old and new contents, and fails exactly for a string without NUL; covers sign extension, truncation checks, bytes and strings |
| Merging.EachExact | protobuffer/pb_decode.c:403-413 | tagged entries of an array are appended in order, or there is an error exactly when they do not fit |
| Merging.PackedExact | protobuffer/pb_decode.c:374-402 | a packed run appends its entries in order, or there is an error exactly when they do not fit |
| Merging.SlotExact | protobuffer/pb_decode.c:356-429 | the bytes of one field, inside any message, turn the slot into the merge of old and new |
| Merging.FromExact | protobuffer/pb_decode.c:863-917 | the bytes of all fields from i on, followed by anything, merge those fields, mark the required ones, and leave the loop at what follows |
| Merging.MessageExact | protobuffer/pb_decode.c:852-953 | decoding exactly the bytes of a struct turns any destination into the merge of the two, or fails because there is no room; nothing else can happen |
| InPlace.OccurrenceExactly | protobuffer/pb_decode.c:1334-1356 | an occurrence of a singular submessage is the field loop of its table on the struct that is already there, in success, failure and what is left |
| InPlace.EmptyOccurrence | protobuffer/pb_decode.c:1334-1356 | an empty occurrence leaves a singular submessage as it was, setting its flag, and fails exactly if something is required in it |
| InPlace.EmptyEntry | protobuffer/pb_decode.c:1334-1356 | an empty occurrence in an array makes the next entry its defaults, whatever was left there |
| InPlace.TwoOccurrences | protobuffer/pb_decode.c:1334-1356 | two occurrences with payloads a and b are one with a followed by b, for any b, also in what a failure leaves |
| InPlace.OccurrencesJoin | protobuffer/pb_decode.c:863-917 | the same inside the bytes of any message |
| RoundTrip.RoundTripExact | protobuffer/pb_decode.c:955-967 | whatever the destination held: the bytes of a struct decode if and only if every string sent is terminated, all bytes are consumed, and the same struct comes back if and only if no skipped submessage has anything set |
| RoundTrip.DelimitedRoundTrip | protobuffer/pb_decode.c:969-982 | the same for the delimited forms, and the bytes after the message stay in the stream |
| RoundTrip.SkippedSame | protobuffer/pb_encode.c:205-267 | a value skipped as default comes back the same exactly when no count and no flag inside it is set |
| RoundTrip.SafeTableLossless | protobuffer/pb_encode.c:225-244 | if no type used as a singular submessage has arrays or flags, no struct loses anything |
| RoundTrip.RoundTripSafe | protobuffer/pb_encode.c:451-473 | on such tables every terminated struct within its bounds encodes, and decodes to itself |
| RoundTrip.LastOneWins | protobuffer/pb_decode.c:852-953 | decoding two encodings in a row merges the first and then the second into the destination, or fails exactly when one of them has no room; what merging is for submessages is said by InPlace |
| RoundTrip.LossWitness | protobuffer/pb_encode.c:225-263 | a concrete struct with one live array entry equal to 0 that encodes to nothing and comes back empty |
| Concatenation.SlotLocal | protobuffer/pb_decode.c:356-429 | a field that decodes from some bytes decodes alike from those bytes with more behind them, and leaves the more |
| Concatenation.ConcatIsAction | protobuffer/pb_decode.c:863-917 | for arbitrary bytes: decoding a and then b equals decoding a followed by b, unless a ended the message early |
| Concatenation.NoInitConcat | protobuffer/pb_decode.c:852-953 | the same for pb_decode_noinit itself on tables without required fields |
| Concatenation.StopHidesTheRest | protobuffer/pb_decode.c:266-270 | a zero tag ends the message there and everything after it stays in the stream |
| Concatenation.UnknownRun | protobuffer/pb_decode.c:877-906 | any number of whole fields the table does not have is skipped without effect, in any form the reader takes: tags, lengths and varints of any length, tag 0 included |
| Concatenation.UnknownFieldsTransparent | protobuffer/pb_decode.c:277-287 | inserting such fields at a field boundary leaves the outcome as it was |
| Concatenation.AnySplitSameArray | protobuffer/pb_decode.c:374-413 | however a repeated scalar is cut into packed chunks and single entries, the outcome depends on the values alone: appended in order if they fit, an error if they do not |
| Concatenation.EntrySkippable | protobuffer/pb_encode.c:559-590 | every entry the encoder writes is exactly the payload that its wire type makes a skipping reader pass over |
| Aftermath.MessageAgrees | protobuffer/pb_decode.c:852-953 | what is said to be left in the struct after any byte string is, when those bytes decode, exactly the decoded struct |
| Aftermath.SlotAgrees | protobuffer/pb_decode.c:356-429 | the same for one field |
| Aftermath.LeftIsAction | protobuffer/pb_decode.c:863-917 | after bytes that decode, whatever follows works on their struct, also when it fails: a failure never takes back what came before |
| Truncation.CutOffExact | protobuffer/pb_decode.c:258-264 | a tail counts as a cut-off tag if and only if it has at most five bytes and each announces another |
| Truncation.CutOffEndsTheMessage | protobuffer/pb_decode.c:863-875 | after bytes that decode, such a tail, and no other, is swallowed as a cut-off tag and leaves the struct as it was |
| Truncation.PayloadCut | protobuffer/pb_decode.c:356-429 | a field whose payload is cut short is an error, wherever it is cut |
| Truncation.TruncationExact | protobuffer/pb_decode.c:852-953 | of an encoded message that decodes, exactly those prefixes decode that end between two fields or inside a tag, after the last required field |
| Truncation.TruncationLeaves | protobuffer/pb_decode.c:852-967 | what pb_decode leaves after any cut, reported or not, member by member: every field that ends before the cut is merged, members whose fields begin after it are cleared, and the one in between has its flag set or its entry counted once the tag is read, the size of a bytes member or the NUL of a string stored once the length is read, the whole array entries before the cut, and nothing else |
| Reencoding.DecodedIsSound | protobuffer/pb_decode.c:852-967 | whatever bytes are accepted, counts are within arrays, sizes within buffers and strings terminated, so the decoded struct can be encoded |
| Reencoding.DecodedCanBeForwarded | protobuffer/pb_decode.c:955-967 | what was decoded from any bytes encodes and decodes again, and is the same exactly when it is lossless |
| Evolution.SlotSkipped | protobuffer/pb_encode.c:559-590 | whatever the encoder writes for a field, under the wire type it chooses, a reader without that tag passes over exactly |
| Evolution.SharedScalarExact | protobuffer/pb_decode.c:1165-1332 | an entry written from a member of one size and read into one of another: the value is stored, an `int` in a member below 64 bits being cut to its low 32 bits first, or there is an error exactly when the member cannot hold it |
| Evolution.VersionsExact | protobuffer/pb_decode.c:852-953 | a message written with one version of a table and decoded with another; at any depth fields may come and go, and shared ones may change their member size, array size and presence kind: shared fields are merged, all others stay, and it fails exactly when something shared that is sent does not fit the reader's member or a field the reader requires is not sent |
| VersionedRoundTrip.SharedFieldsSurvive | protobuffer/pb_decode.c:955-967 | into a fresh struct: succeeds exactly when the writer sends, at every depth of what is sent, the fields the reader requires, and everything shared fits the reader's members; then shared members are the writer's and all others cleared exactly when no skipped submessage has a shared member set and no integer was cut to 32 bits |
| RequiredBits.SetBitIsInsert | protobuffer/pb_decode.c:908-913 | setting a bit of a presence word is inserting into the set it stands for |
| RequiredBits.AllOrdinals | protobuffer/pb_common.c:65-70 | all required fields were met exactly when the recorded indices are 0 up to their number |
| RequiredBits.WordsCompleteExact | protobuffer/pb_decode.c:937-949 | the test on whole words and remaining bits passes exactly when every required field was met |
| RequiredBits.PresenceTestableExactly | protobuffer/pb_decode.c:919-950 | the words can be tested for any number of required fields up to 63 except 32, in a table and those of its submessages |
| Sizes.MessageBound | protobuffer/pb_encode.c:480-489 | no struct of a table encodes to more bytes than a bound computed from the table alone, nor, where one-byte signed members are C bools, than the sharper one the generated headers use |
| Sizes.OdometerTableBound | protobuffer/message_odometer.pb.h:61 | that bound is 146 for the odometer message, below the declared 148 |
| Sizes.ImuTableBound | protobuffer/message_imu.pb.h:62 | that bound is 138 for the IMU message, as declared |
| Sizes.ControllerTableBound | protobuffer/message_controller.pb.h:52 | that bound is 39 for the controller message, as declared |
| Sizes.OdometerTableIsWellFormed | protobuffer/message_odometer.pb.c:13-27 | the odometer table is well formed and nothing can be lost on it |
| Sizes.OdometerLayout | protobuffer/message_odometer.pb.h:20-35 | the running offsets of the odometer table in bytes: 0, 16, 24, ..., the four encoder entries at 84, steer_angle behind them and padding at 104 |
| Sizes.ImuTableIsWellFormed | protobuffer/message_imu.pb.c:13-28 | the same for the IMU table |
| Sizes.ControllerTableIsWellFormed | protobuffer/message_controller.pb.c:13-24 | the same for the controller table |
| Sizes.ReportsFit | src/Mileage.cxx:619-699 | every odometer, IMU and controller value encodes, stays within its declared size and the transmit buffer less its head, and decodes to itself |
| FieldIteration.FieldIter.Begin | protobuffer/pb_common.c:8-18 | puts the iterator on the first field with all its derived fields consistent; false exactly for the empty table |
| FieldIteration.FieldIter.Next | protobuffer/pb_common.c:20-76 | goes one field on or wraps to the first, never rests on the terminator of a non-empty table, and keeps pointer and required index equal to what the position determines |
| FieldIteration.FieldIter.Find | protobuffer/pb_common.c:78-95 | goes round at most once; on success stands on the first match at or after the old position, else before it; on failure is back where it was |
| FieldIteration.CircleRefinesScan | protobuffer/pb_common.c:78-95 | the circular search agrees with a scan from the start from every position if and only if the tag does not occur twice |
| FieldIteration.OffsetsAreLayout | protobuffer/pb.h:393-401 | summed up, the relative offsets of a table land on every member of the struct it was made from |
| Encoder.OStream.BufWrite | protobuffer/pb_encode.c:62-72 | copies the bytes to the write position, advances it, and leaves the rest of the buffer alone |
| Encoder.OStream.Write | protobuffer/pb_encode.c:91-109 | succeeds exactly when the bytes fit, then they are appended and counted; otherwise nothing changes |
| Encoder.CollectGroups | protobuffer/pb_encode.c:505-511 | the in-place loop fills at most ten bytes with exactly the varint form |
| Encoder.EncodeVarintTo | protobuffer/pb_encode.c:494-514 | appends exactly the varint form or reports that it does not fit |
| Encoder.StringLength | protobuffer/pb_encode.c:753-760 | the length loop stops at the first NUL or at the end of the buffer |
| Encoder.EncodeStringTo | protobuffer/pb_encode.c:592-598 | appends the length prefix and the bytes |
| Encoder.PackedSize | protobuffer/pb_encode.c:135-155 | the size computed or counted ahead is exactly the number of payload bytes of the packed array |
| Encoder.EncodeArrayTo | protobuffer/pb_encode.c:116-201 | appends exactly the bytes of the array, packed or entry by entry, and fails without a trace before them when the count is too large |
| Encoder.EncodeFieldTo | protobuffer/pb_encode.c:271-349 | appends exactly the bytes of one field, nothing for a skipped one |
| Encoder.Encode | protobuffer/pb_encode.c:451-473 | on a counting or a writing stream alike: succeeds exactly when the struct has an encoding and it fits, then appends exactly that encoding; bytes before it and beyond the stream never change |
| Encoder.GetEncodedSize | protobuffer/pb_encode.c:480-489 | returns exactly the length of the encoding |
| Encoder.EncodeSubmessage | protobuffer/pb_encode.c:600-648 | appends the length prefix and exactly that many bytes, at every nesting depth |
| Encoder.WritingPass | protobuffer/pb_encode.c:623-648 | the writing pass emits as many bytes as the counting pass counted, so the "size changed" error cannot be reached |
| Encoder.EncodeIntoBuffer | protobuffer/pb_encode.c:74-89 | encoding into a buffer succeeds if and only if the encoded size is at most its length; the bytes written are the encoding and the rest of the buffer is untouched |
| Encoder.EmitsThen | protobuffer/pb_encode.c:91-109 | writes compose: one effect after another is the effect of the concatenation, success and room included |
| Encoder.MessageAddressable | protobuffer/pb_encode.c:615-617 | a total size below 2^32 keeps every inner length below it |
| Decoder.IStream.Read | protobuffer/pb_decode.c:76-123 | takes exactly the bytes asked for or fails without moving; never reaches past the end, and position plus bytes left stays the same |
| Decoder.IStream.ReadByte | protobuffer/pb_decode.c:127-143 | the same for one byte |
| Decoder.DecodeVarint32From | protobuffer/pb_decode.c:173-207 | the shift-and-or loop computes the specified number, fails exactly when the specification does, and stops at the same byte |
| Decoder.DecodeVarintFrom | protobuffer/pb_decode.c:209-229 | the same for the 64-bit loop |
| Decoder.DecodeTagFrom | protobuffer/pb_decode.c:251-275 | tells apart a tag, a stop tag, a cut-off at the very end and a malformed tag, each with the exact rest of the stream |
| Decoder.SkipFieldFrom | protobuffer/pb_decode.c:277-287 | skips exactly one field of wire type 0, 1, 2 or 5 and rejects the others |
| Decoder.MakeSubstream | protobuffer/pb_decode.c:322-335 | the substream ends exactly at prefix plus length, the parent keeps exactly the bytes after it, and together they end where the parent did |
| Decoder.CloseSubstream | protobuffer/pb_decode.c:337-350 | moves the parent exactly to the end of the substream, however much of it was read |
| Decoder.DecodeIntegerFrom | protobuffer/pb_decode.c:1165-1248 | stores the integer the specification gives, or rejects one the member cannot hold |
| Decoder.DecodeFixedFrom | protobuffer/pb_decode.c:1132-1163 | assembles the little-endian word |
| Decoder.DecodeBufferFrom | protobuffer/pb_decode.c:1262-1332 | stores bytes or a string with its NUL over the old contents, and rejects what does not fit |
| Decoder.SetToDefaults | protobuffer/pb_decode.c:763-846 | clears flags, counts and data recursively and leaves array entries alone |
| Decoder.DecodeSubmessage | protobuffer/pb_decode.c:1334-1356 | decodes inside its substream only, merging into a singular member and starting an array entry from defaults |
| Decoder.DecodePackedFrom | protobuffer/pb_decode.c:385-397 | the packed loop fills the array as specified or reports an overflow, with the exact array in both cases |
| Decoder.DecodeFieldFrom | protobuffer/pb_decode.c:356-429 | computes the specified slot and leaves exactly the specified rest, with the end of the stream unchanged; the slot is exact after a failure too |
| Decoder.MarkSeen | protobuffer/pb_decode.c:908-913 | the two presence words represent the set with this field added |
| Decoder.CheckRequired | protobuffer/pb_decode.c:919-950 | from any position of the iterator: true exactly when every required field of the table was met |
| Decoder.DecodeNoInit | protobuffer/pb_decode.c:852-953 | the whole loop with iterator, streams and bit words computes the specified result, fails exactly when the specification does, never reads past the stream's end, and leaves exactly the specified struct in every outcome |
| Decoder.DecodeFrom | protobuffer/pb_decode.c:955-967 | the same for pb_decode, from the defaults on |
| Decoder.DecodeDelimitedFrom | protobuffer/pb_decode.c:969-982 | the same for pb_decode_delimited; afterwards the parent stands right behind the message; without a readable length the struct is not even cleared |
| Transfer.SendAndReceive | protobuffer/pb_encode.c:451-473 | encode into a buffer, decode from the bytes written: it works exactly when the encoded size fits, and then the receiver holds the struct that was sent |
| NavSpeed.NavSpeedTableIsWellFormed | protobuffer/message_navigation.pb.c:18-26 | the speed command's table is well formed and nothing can be lost on it |
| NavSpeed.DecodeSpeed | src/chassis.cxx:61-66 | for every datagram, decodable or not, the three numbers are those of the struct the decoder leaves |
| NavSpeed.PlainDatagramIsTaken | src/chassis.cxx:61-69 | three words under tags 1, 2 and 3 become x, y and w, for all numbers |
| NavSpeed.CutCommandExactly | src/chassis.cxx:59-72 | every command cut after any number of bytes: the handler's setpoint is the command's if and only if the cut comes after the last byte of the third number |
| NavSpeed.BrokenDatagramIsTaken | src/chassis.cxx:64-70 | for every first number there is a datagram that does not decode and still becomes a setpoint, with zeros for the other two |
| Gyro.GyroDevice.DecodeFrame | src/Gyro.cxx:263-293 | one byte moves the receiver one step of the machine, hands on at most one body, and keeps the write index below 50 |
| Gyro.GyroDevice.CommandRoute | src/Gyro.cxx:295-382 | hands the buffered body on exactly when a frame is complete and its sum is right |
| Gyro.GyroDevice.SumCheck | src/Gyro.cxx:384-394 | true exactly when the last byte but one is the sum of the bytes before it modulo 256 |
| Gyro.GyroDevice.ReceiveBlock | src/Gyro.cxx:94-125 | a block of any length is the machine run over its bytes, with every body handed on in order |
| GyroFrames.SumExactly | src/Gyro.cxx:384-394 | the sum starts at 0 and every byte adds itself |
| GyroFrames.AcceptedExactly | src/Gyro.cxx:384-394 | a body is accepted exactly when its last byte but one and the sum of all before it differ by a multiple of 256 |
| GyroFrames.OneWrongByte | src/Gyro.cxx:384-394 | if a body is accepted, no body with one other byte in its length, contents or sum is; one with another trailer is |
| GyroFrames.SentIsReceived | src/Gyro.cxx:263-302 | from every receiver state, A5 5A, a length, up to 47 bytes, their sum and a plain trailer are handed on once and unchanged |
| GyroFrames.ZerosAreReceived | src/Gyro.cxx:263-302 | for example a body of zeros, whose sum is its length byte |
| GyroFrames.LengthsNotTaken | src/Gyro.cxx:284-292 | after a length byte of 0 or above 50 nothing is handed on, whatever follows up to the next start |
| GyroFrames.TrailerMustBePlain | src/Gyro.cxx:263-293 | a frame whose trailer is A5 or 5A is not handed on, even with a right sum |
| Gyro.BodyCompletes | src/Gyro.cxx:280-289 | from any point inside a body its remaining bytes complete exactly that body |
| Gyro.FrameHandledOnce | src/Gyro.cxx:263-302 | from every receiver state a frame hands its body on once if the sum is right, hands on nothing else, and leaves the receiver quiet |
| Gyro.QuietUntilStart | src/Gyro.cxx:263-293 | a quiet receiver hands nothing on until the next start, whatever the noise |
| Gyro.StreamHandsOnGoodBodies | src/Gyro.cxx:94-125 | from a stream of frames with noise between them exactly the bodies with a right sum are handed on, once and in order |
| Gyro.Resynchronises | src/Gyro.cxx:263-302 | from any state after any noise one frame synchronises the receiver for the whole stream that follows |
| Gyro.ImpossibleLengthIsQuiet | src/Gyro.cxx:284-292 | length bytes 0 and above 50, A5 and 5A among them, hand nothing on until the next start |
| Gyro.LengthOneReadsOutside | src/Gyro.cxx:384-394 | with length byte 1 the outcome depends on the byte before the buffer |
| Gyro.LengthFiftyRepeats | src/Gyro.cxx:291-292 | from every receiver state, a frame of length 50 with a right sum hands its body on and then one more body for each plain byte that follows; with a wrong sum none |
| Gyro.PowerUpNeedsNoHeader | src/Gyro.cxx:263-293 | a receiver just started takes a body without its header |
| Gyro.HeaderlessBodiesExactly | src/Gyro.cxx:263-293 | bytes without a start can make a receiver hand a body on if and only if nothing was received yet, or at least three bytes of its length are missing, or two and the sum need not complete a start, or one and the sum is right already |
| Chassis.StepKeepsInv | src/chassis.cxx:221-302 | every step of every actor, in any order, keeps: stamps genuine, stores in order, no flagged command lost, a wake-up pending for every set flag |
| Chassis.NoSetpointLost | src/chassis.cxx:59-72 | over every run: once a command has set its flag, the flag is still set or the send under way (or the last one) carries that command or newer in every component; nothing is sent that was not received |
| Chassis.DeliveredWithinSixteenMoves | src/task_chassis.cxx:94-113 | over every run: such a command was already sent, or the next 16 moves of the chassis loop contain a send no part of which is older |
| Chassis.AtRestTheLatestWasSent | src/chassis.cxx:268-285 | whenever all is at rest, the setpoint sent last is exactly the one received last |
| Chassis.NeverAsleepOnACommand | src/chassis.cxx:221-266 | over every run: blocked on an empty semaphore with the flag set only while a post is on its way |
| Chassis.PendingCommandGetsSent | src/chassis.cxx:221-285 | left alone, a waiting loop with a command pending sends the stored setpoint, with the exact final state |
| Chassis.RoundsEndWaiting | src/task_chassis.cxx:94-113 | with the reply received that round ends where it began, in the wait, with only the setpoint sent and a wake-up used |
| Chassis.RequestGetsQueried | src/chassis.cxx:221-252 | a timer request that finds the task waiting becomes a query by the signal alone, with the exact states |
| Chassis.LeftoverWakeRepeats | src/chassis.cxx:237-251 | a wake-up with neither flag set repeats the last command: a setpoint is sent, or the query made, again |
| Chassis.SendCanBeTorn | src/chassis.cxx:268-285 | a run in which a send mixes components of two commands |
| Chassis.SendIsWholeExactly | src/chassis.cxx:268-285 | every send of every run consists of what the store held at the three reads, and it is one command's setpoint if and only if no command's stores fall partly before and partly after the matching reads |
| Chassis.OdometryCanBeMissed | src/chassis.cxx:299-302 | a run that ends asleep with a timer request set and nothing to wake it |
| Chassis.OdometryTakenUpExactly | src/chassis.cxx:221-252 | in every reachable state with a timer request set: the chassis task left to itself takes it up if and only if it is past the test of the speed flag, or will test with that flag clear, or has the wake-ups for another round |
| Chassis.ChassisDevice.ChassisCmdHandler | src/chassis.cxx:59-72 | on every datagram, decodable or not, the handler is a run of the machine: the three stores of what decoding left, flag, post |
| Chassis.ChassisDevice.NewSpeedCmd | src/chassis.cxx:254-266 | is the handler's last two machine steps in their order: with the flag set and nothing posted in between |
| Chassis.ChassisDevice.QueryOdoCmd | src/chassis.cxx:299-302 | is the machine's timer step; it does not post |
| Chassis.ChassisDevice.WaitCmd | src/chassis.cxx:221-252 | is a run of the machine; a pending speed command wins and leaves the odometry request set, an interrupt without a request returns -1, and without either flag the last command is returned again |
| Chassis.ChassisDevice.SendSpeedCmd | src/chassis.cxx:268-285 | undisturbed, is a run of the machine that sends exactly the stored setpoint |
| Angles.WrapHeading | src/Mileage.cxx:111-116 | the wrapping loops end and reach the direction's only representative in (-PI, PI] |
| Angles.Normalize | src/Utils.cxx:14-27 | remainder first, the same representative |
| Angles.OneRepresentative | src/Utils.cxx:14-27 | a direction has exactly one representative in (-PI, PI] |
| DeadReckoning.HalfTurn | src/Utils.cxx:14-27 | angles in (-3.1415926, 3.1415926] are their own representatives |
| Angles.RemainderLeavesOneTurn | src/Utils.cxx:16-18 | after the remainder less than one turn is left |
| Mileage.ConfigMeansMetres | src/Mileage.cxx:500-533 | with the configured scales one wheel turn moves the robot by the mean circumference and turns it by the difference over the axle; a motor at its rated rpm runs its wheel exactly at the speed limit |
| DeadReckoning.ConfigExactly | src/Mileage.cxx:500-533 | millimetres, encoder lines and revolutions a minute to scales and limits, in numbers |
| DeadReckoning.RotatesExactly | src/Mileage.cxx:509-512 | the noise thresholds in counts: rotating means more than 0, 1, 2 or 3 counts by the encoder's resolution |
| Mileage.ForwardOfInverse | src/Mileage.cxx:192-220 | forward of inverse kinematics is 10 times (vx, w) |
| DeadReckoning.ForwardExactly | src/Mileage.cxx:192-203 | wheels that rolled l and r move the robot by half their sum and turn it by their difference over the axle, right minus left |
| DeadReckoning.InverseExactly | src/Mileage.cxx:205-220 | each wheel's speed in motor units stands for vx less or plus half the axle times w, left and right |
| Mileage.LimitSpeeds | src/Mileage.cxx:156-183 | the two loops multiply every wheel by the one factor that the fastest wheel determines |
| Mileage.LimitHolds | src/Mileage.cxx:156-183 | afterwards no wheel exceeds the limit, and if any did, some wheel runs at it |
| Mileage.LimitKeepsCurvature | src/Mileage.cxx:150-188 | speed and turn rate shrink by one factor in [0, 1], positive if the limit is, which is 1 exactly when no wheel was too fast |
| Mileage.SetVelocities | src/Mileage.cxx:564-595 | every driven wheel gets its rounded speed in its motor's direction; the others are left alone |
| Mileage.MotorSpeedRounds | src/Mileage.cxx:564-595 | the stored speed is within half a unit of the wheel's, symmetric in sign |
| DeadReckoning.TiesGoAway | src/Mileage.cxx:564-595 | half a unit is rounded away from zero |
| DeadReckoning.MirroredExactly | src/Mileage.cxx:541-595 | which wheels are mirrored: the left one of two, the two middle ones of four |
| Mileage.GetPositions | src/Mileage.cxx:541-562 | every driven wheel's position in the wheel's direction; the others are left alone |
| Mileage.MountSignsCancel | src/Mileage.cxx:541-595 | the signs of commands and readings cancel: a motor that moves as told reads back as the wheel speed, within half a unit |
| Mileage.Mileage.DoCalc | src/Mileage.cxx:46-119 | the method computes the specified pose, last movement, readings, stopped flag and return code |
| Mileage.Mileage.TakeMovements | src/Mileage.cxx:58-85 | the wheel loop, re-basing as it goes, ends with every wheel re-based, tells exactly whether some wheel jumped, and clears the stopped flag exactly when it saw a wheel rotate before a jump; movements wrap at 32 bits |
| Mileage.CountsRollOver | src/Mileage.cxx:64-73 | the 32-bit difference of two readings is their difference plus 2^32 for every rollover, and there is none if they are less than 2^31 apart |
| Mileage.HeadingTelescopes | src/Mileage.cxx:94-116 | over any run the heading depends, up to whole turns, on the first and last readings and on how often each encoder rolled over, less what the samples not accepted jumped |
| Mileage.HeadingClosedForm | src/Mileage.cxx:106-116 | the end heading of any run, as an equation |
| Mileage.AcceptedRunHeading | src/Mileage.cxx:94-116 | if every sample is accepted, only the first and last readings and the rollovers between them matter, and without rollovers only the readings |
| Mileage.JumpOnlyRebases | src/Mileage.cxx:60-70 | a sample is rejected exactly when a wheel jumped; it leaves pose and last movement alone and re-bases both wheels, so the same readings are accepted next time |
| Mileage.StepHasLength | src/Mileage.cxx:98-107 | an accepted sample moves the robot by exactly the distance its wheels rolled, and reports that distance and turn as the last movement |
| DeadReckoning.StepHasDirection | src/Mileage.cxx:98-107 | an accepted sample moves the robot by the rolled distance along the heading and not at all across it, and reports that |
| DeadReckoning.StraightRun | src/Mileage.cxx:98-107 | over any run of accepted samples at one heading the robot moves on one straight line, as far as the first and last readings and the rollovers say |
| DeadReckoning.FirstSampleExactly | src/Mileage.cxx:50-56 | the first sample only takes over the readings |
| DeadReckoning.RejectedExactly | src/Mileage.cxx:64-70 | a later one is rejected exactly when some wheel moved by more than 2000000 counts |
| DeadReckoning.StoppedExactly | src/Mileage.cxx:58-85 | one sample clears the stopped flag exactly when the left wheel moved by more than the noise and did not jump, or the right one did and neither jumped |
| Mileage.StoppedMeansNeverMoved | src/Mileage.cxx:79-92 | over any run the stopped flag survives if and only if no wheel was seen rotating: nothing sets it again |

## Left out

- RoundTrip.RoundTripExact: assumes that the encoded size is below 2^32, because a length prefix is read as 32 bits; the other laws about encoded messages assume the same.
- Encoder.Encode: every length computed inside is below 2^32, so `size_t` does not wrap; by MessageAddressable a total below 2^32 is enough.
- Decoder.DecodeNoInit: passes the struct in and out as a value instead of updating it in place, and does not say where the stream stands after a failure, only that it is not past its end.
- Evolution.VersionsExact: a shared field keeps its wire format and is an array in both versions or in neither.
- FieldIteration.CircleRefinesScan: of tables in which a tag occurs twice only what `RepeatedTags` says is proved, because there the field found depends on where the last search ended.
- Gyro.FrameHandledOnce: lengths 2 to 49; the other length bytes have their own lemmas.
- Gyro.LengthOneReadsOutside: takes the byte before the buffer as fixed over a stream, while the receiver itself changes the member there when it handles a body (`src/Gyro.h:79-82`, `src/Gyro.cxx:356`); only length byte 1 is affected.
- Chassis.ChassisDevice.ChassisCmdHandler: stores the raw words, without the rounding from double to the float members.
- Mileage.Mileage.DoCalc: two wheels, reals instead of floats, and without the file-scope counter `stopCycle`, which nothing reads.
- Tables with 64 or more required fields, or a nonzero multiple of 32, in the methods of `Decoder` that end with the test of the presence words: the C shifts by 32 or indexes past its words there.
- Callback fields, which the tables in `protobuffer/message_io.pb.c`, `message_navigation.pb.c` and `message_ultrasonic.pb.c` use: they hand control to user code.
- Oneof, extension and pointer fields, fixed-length bytes and default values other than zero.
- Custom stream callbacks and I/O errors: only the buffer streams and the counting stream are modelled.
- The test against `PB_SIZE_MAX` when decoding bytes: implied by the test against the member's size for every table whose sizes fit 8 bits.
- The error texts.
- Extraction of sensor fields from a gyro body, freeze counters, calibration and power commands: straight-line code.
- `waitCmdRet`, the unused state command, semaphore errors and the drivers below `sendSpeedCmd`: the environment of the handshake.
- The velocities and time stamps of the odometer report; chassis types other than the differential one in odometry.
- IEEE rounding, and conversion of out-of-range floats to 32-bit integers.
- The two CRC functions of `src/Utils.cxx`, which nothing calls, the CAN drivers, the time synchronisation and all I/O plumbing: they would add only easy members.
