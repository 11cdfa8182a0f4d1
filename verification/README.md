# TFTP packet codec, modelled in Dafny

This project models the wire-format layer of a small TFTP library. The layer turns a received
datagram into a typed packet and writes a typed packet into a caller's buffer. It follows the
datagram layouts of section 5 of RFC 1350, plus error code 8 of RFC 2347. The model has three
parts, one per source file:

- **Reading** (`reader.dfy`, module `ByteReader`). The cursor reader is a class with an
  immutable byte buffer and a read position. `TakeU16`, `TakeString` and `TakeAll` advance the
  position after checking bounds. `FindNull` says on plain sequences where a string ends.
- **Writing** (`writer.dfy`, module `ByteWriter`). The cursor writer is a class over the
  caller's `array<u8>`, with a write position. `PutU16`, `PutString` and `PutBytes` check
  before they write. A failed put changes nothing. A successful put changes exactly the bytes
  `Overwrite` names.
- **The codec** (`tftp.dfy`, module `Tftp`):
  - the packet, opcode, error-code, transfer-mode and error types;
  - the opcode and error-code tables;
  - the `read` and `write` functions of each field type, as module-level methods that take a
    `Reader` or a `Writer`;
  - `OpcodeOf` (`Packet::opcode`), which `Fields` uses to put the opcode first;
  - `Parse` and `WritePacket`.

  Each of the two operations is proved against a function on byte sequences:
  - `Parse` returns exactly `Decode(buf)`.
  - `WritePacket` leaves the buffer and the result that `WriteOutcome` describes. That is the
    old buffer with the first `n` bytes of `Encode(p)` written at its front, where `n` and the
    error, if any, come from `Emit`, the writer's checks replayed field by field.

  The `match` of `Packet::write` has one method per arm (`WriteRequestArgs`, `WriteDataArgs`,
  `WriteAckArgs`, `WriteErrorArgs`), so that each arm's proof stands on its own.

`properties.dfy` (module `TftpProperties`) proves what these specifications mean:

- the tables are inverse to the wire values;
- every error path of parsing;
- the byte layout and size of each packet;
- a write succeeds exactly when the text fields are ASCII without a null and the encoding fits;
- a failed write leaves a proper prefix of the encoding behind;
- the round trips:
  - parsing an encoding gives the packet back, whatever bytes follow it;
  - what a successful parse consumed is the encoding of its result, up to the case of the
    mode's letters;
  - writing then parsing gives the packet back.

Bytes are modelled as the integer subset type `u8` (0 to 255) and 16-bit fields as `u16`.
Text fields (filename, mode, message) are byte sequences. `wrappers.dfy` holds the `Option`
and `Result` types, and `bytes.dfy` the big-endian packing and the ASCII predicates. `Bytes.IsAscii` stands for
`str::is_ascii` (called at src/writer.rs:66), `Bytes.AsciiLower` for `u8::to_ascii_lowercase`,
and `Bytes.EqIgnoreAsciiCase` for `eq_ignore_ascii_case` (called at src/tftp.rs:143); they are
definitions of those standard-library functions, with no contract of their own.

The model follows the code as written:

- `Packet::parse` dispatches only RRQ, ACK and ERROR. A WRQ or DATA datagram parses to
  `Unknown`, even though the types and `Data::read` exist (`ParseUnhandledOpcode`,
  `EncodedUnhandled`).
- `Packet::write` is not all-or-nothing. When a later field fails, the bytes of the earlier
  fields stay in the caller's buffer (`WriteNotAtomic`, `WriteOutcomeFails`).
- No limit of 512 bytes is placed on a DATA payload. Only the buffer's capacity bounds it.

## Model

| member | source | states |
|---|---|---|
| Bytes.FromBigEndian | src/reader.rs:58 | the 16-bit value read big-endian has the first byte as its high byte and the second as its low byte |
| Bytes.ToBigEndian | src/writer.rs:57 | a 16-bit value is written as two bytes that read back as the same value |
| Bytes.ToFromBigEndian | src/reader.rs:58 | packing two bytes and writing the value back gives the same two bytes |
| ByteReader.FindNull | src/reader.rs:67-68 | the scan finds the first null at or after the start, and reports none only when none exists |
| ByteReader.FindNullAt | src/reader.rs:67-73 | a null with no null before it (from the start) is the one the scan stops at |
| ByteReader.Reader.constructor | src/reader.rs:45-47 | a new reader is at position 0 over the given buffer |
| ByteReader.Reader.Len | src/reader.rs:48-50 | an accessor defined by its body: the buffer's length |
| ByteReader.Reader.Rem | src/reader.rs:52-54 | an accessor defined by its body, the length minus the position; its `requires Valid()` is what keeps that subtraction from underflowing |
| ByteReader.Reader.TakeU16 | src/reader.rs:56-64 | succeeds exactly when two bytes remain; returns them big-endian and advances by 2; otherwise NotEnoughData and no move |
| ByteReader.Reader.TakeString | src/reader.rs:66-76 | returns the bytes up to the first null and moves past that null; without a null, StringNotTerminated and no move |
| ByteReader.Reader.TakeAll | src/reader.rs:78-82 | returns every unread byte (possibly none) and moves to the end; never fails |
| ByteWriter.Overwrite | src/writer.rs:76-77 | copying data in at an offset keeps the length, puts the data there and keeps every other byte |
| ByteWriter.Writer.constructor | src/writer.rs:44-46 | a new writer is at position 0 over the caller's buffer |
| ByteWriter.Writer.Len | src/writer.rs:47-49 | an accessor defined by its body: the buffer's length |
| ByteWriter.Writer.Rem | src/writer.rs:51-53 | an accessor defined by its body, the length minus the position; its `requires Valid()` is what keeps that subtraction from underflowing |
| ByteWriter.Writer.PutU16 | src/writer.rs:55-63 | succeeds exactly when two bytes remain, writing the value big-endian there and advancing by 2; otherwise NotEnoughSpace with buffer and position unchanged |
| ByteWriter.Writer.PutString | src/writer.rs:65-85 | non-ASCII is StringNotASCII, then an embedded null is StringContainsNull, then no room for the text and its terminator is NotEnoughSpace; on success the text and a null are written and the position moves past them; a failure changes nothing |
| ByteWriter.Writer.PutBytes | src/writer.rs:87-96 | succeeds exactly when the bytes fit (an empty slice always does), copying them and advancing; otherwise NotEnoughSpace and nothing changes |
| Tftp.Opcode.Code | src/tftp.rs:76-82 | each opcode's wire value is one the opcode table maps back to it |
| Tftp.OpcodeFrom | src/tftp.rs:99-109 | the table knows exactly the values 1 to 5 |
| Tftp.ErrorCode.Code | src/tftp.rs:176-195 | each error code's wire value is one the error-code table maps back to it |
| Tftp.ErrorCodeFrom | src/tftp.rs:211-225 | the table knows exactly the values 0 to 8 |
| Tftp.ParseMode | src/tftp.rs:142-148 | accepted exactly when the text is five bytes, each the letter of "octet" in lower or upper case |
| Tftp.Decode | src/tftp.rs:22-37 | a successful parse is only ever RRQ, ACK or ERROR; the first two bytes are that packet's opcode; filename and message contain no null and lie inside the buffer |
| Tftp.FieldFault | src/writer.rs:55-96 | the checks of `put_u16`, `put_string` and `put_bytes` in their order; a put that raises no error fits in the remaining space |
| Tftp.Emit | src/tftp.rs:49-74 | a write run stops between its start and the capacity, never past its encoding, and strictly short of the encoding's end when it fails |
| Tftp.ReadOpcode | src/tftp.rs:85-92 | fewer than two bytes is a read error with no move; otherwise the opcode from the table, or InvalidOpCode carrying the value read |
| Tftp.ReadFilename | src/tftp.rs:115-117 | the bytes up to the first null, or StringNotTerminated wrapped as a read error |
| Tftp.ReadMode | src/tftp.rs:129-135 | an unterminated mode is a read error; a terminated mode other than "octet" in any case is Unknown |
| Tftp.ReadBlockNum | src/tftp.rs:154-156 | the next two bytes big-endian, or NotEnoughData wrapped as a read error |
| Tftp.ReadData | src/tftp.rs:166-168 | the payload is every remaining byte, and the reader ends at the end |
| Tftp.ReadErrorCode | src/tftp.rs:198-204 | a code that cannot be read becomes 999 and is reported as InvalidErrorCode(999), not as a short read; otherwise the table's answer |
| Tftp.ReadErrorMessage | src/tftp.rs:233-235 | the bytes up to the first null, or StringNotTerminated wrapped as a read error |
| Tftp.Parse | src/tftp.rs:22-37 | parsing through the reader computes exactly Decode |
| Tftp.WriteOpcode | src/tftp.rs:94-97 | puts the opcode's wire value as a 16-bit field, with the writer's error wrapped |
| Tftp.WriteFilename | src/tftp.rs:118-121 | puts the filename as a terminated string, with the writer's error wrapped |
| Tftp.WriteMode | src/tftp.rs:136-141 | puts "octet" as a terminated string |
| Tftp.WriteBlockNum | src/tftp.rs:157-160 | puts the block number as a 16-bit field |
| Tftp.WriteData | src/tftp.rs:169-172 | puts the payload bytes as they are |
| Tftp.WriteErrorCode | src/tftp.rs:206-209 | puts the error code's wire value as a 16-bit field |
| Tftp.WriteErrorMessage | src/tftp.rs:237-240 | puts the message as a terminated string |
| Tftp.WriteRequestArgs | src/tftp.rs:53-60 | after the opcode, filename then mode; the write ends as the whole packet's would |
| Tftp.WriteDataArgs | src/tftp.rs:61-64 | after the opcode, block number then payload; the write ends as the whole packet's would |
| Tftp.WriteAckArgs | src/tftp.rs:65-67 | after the opcode, the block number; the write ends as the whole packet's would |
| Tftp.WriteErrorArgs | src/tftp.rs:68-71 | after the opcode, error code then message; the write ends as the whole packet's would |
| Tftp.WritePacket | src/tftp.rs:49-74 | the buffer holds the encoding's first bytes up to where the write stopped, and old bytes after them; the result is the bytes written, or the first writer error |
| TftpProperties.OpcodeTable | src/tftp.rs:99-109 | the table maps a value to an opcode exactly when that opcode is written as that value |
| TftpProperties.ErrorCodeTable | src/tftp.rs:211-225 | the table maps a value to an error code exactly when that code is written as that value |
| TftpProperties.ParseTooShort | src/tftp.rs:85-86 | a buffer shorter than two bytes is NotEnoughData |
| TftpProperties.ParseInvalidOpcode | src/tftp.rs:88-91 | an opcode outside 1 to 5 is InvalidOpCode carrying the value |
| TftpProperties.ParseUnhandledOpcode | src/tftp.rs:35 | opcodes 2 (WRQ) and 3 (DATA) parse to Unknown |
| TftpProperties.ParseAckTruncated | src/tftp.rs:30 | an ACK without two bytes of block number is NotEnoughData |
| TftpProperties.ParseErrorCodeTruncated | src/tftp.rs:199 | an ERROR packet without two bytes of code is InvalidErrorCode(999) |
| TftpProperties.ParseErrorCodeOutOfRange | src/tftp.rs:200-203 | an ERROR packet with a code above 8 is InvalidErrorCode carrying that code |
| TftpProperties.ParseFilenameUnterminated | src/tftp.rs:26-28 | a read request whose filename has no terminator is StringNotTerminated |
| TftpProperties.ParseModeUnterminated | src/tftp.rs:129-130 | a read request whose mode has no terminator is StringNotTerminated |
| TftpProperties.ParseErrorMessageUnterminated | src/tftp.rs:233-234 | an error packet with a known code whose message has no terminator is StringNotTerminated |
| TftpProperties.ParseRequest | src/tftp.rs:26-29 | a read request with two terminated strings parses exactly when the mode is "octet" in any case; trailing bytes are ignored |
| TftpProperties.ParseErrorPacket | src/tftp.rs:31-34 | an error packet with a known code and a terminated message parses to that code and message; trailing bytes are ignored |
| TftpProperties.ParseAck | src/tftp.rs:30 | an ACK parses to its block number; trailing bytes are ignored |
| TftpProperties.OpcodeOfKind | src/tftp.rs:39-47 | two packets have the same opcode exactly when they are of the same kind |
| TftpProperties.EncodeStartsWithOpcode | src/tftp.rs:39-51 | every encoding starts with the two bytes of the packet's opcode, which the table reads back as that opcode |
| TftpProperties.EncodeLayout | src/tftp.rs:49-74 | the encoding of each packet kind: the opcode, then its fields in order, text followed by a null |
| TftpProperties.EncodedSize | src/tftp.rs:73 | the count a successful write returns for each packet kind |
| TftpProperties.WritableFields | src/writer.rs:66-67 | every field of a packet passes the text checks exactly when its filename or message is ASCII without a null |
| TftpProperties.EmitSucceeds | src/writer.rs:55-96 | a run of puts succeeds exactly when every text is ASCII without a null and everything fits, and then ends just after the last byte |
| TftpProperties.WriteSucceeds | src/tftp.rs:49-74 | a packet write succeeds exactly when its text is valid and its encoding fits, and then reports the encoding's length |
| TftpProperties.WriteRejectsNonAsciiName | src/writer.rs:66 | a non-ASCII filename fails as StringNotASCII after the opcode, whatever the room |
| TftpProperties.WriteNotAtomic | src/tftp.rs:50-55 | one instance: a read request for "abc" into a four-byte buffer fails with NotEnoughSpace after the opcode 0 1 was already written (`WriteOutcomeFails` states the general case) |
| TftpProperties.WriteOutcomeOk | src/tftp.rs:49-74 | a successful write leaves the encoding at the front with the old bytes after it, and returns its length |
| TftpProperties.WriteOutcomeFails | src/tftp.rs:49-74 | otherwise the write returns a writer error and leaves a proper prefix of the encoding |
| TftpProperties.DecodeEncode | src/tftp.rs:22-74 | parsing the encoding of an RRQ, ACK or ERROR packet whose text has no null gives it back, whatever follows |
| TftpProperties.EncodedUnhandled | src/tftp.rs:35 | the encoding of a WRQ or DATA packet parses to Unknown |
| TftpProperties.ReadParsedFrom | src/tftp.rs:26-29 | a parsed read request came from the opcode, the filename and a null, then "octet" in some case and a null |
| TftpProperties.AckParsedFrom | src/tftp.rs:30 | a parsed ACK came from its opcode and block number |
| TftpProperties.ErrorFieldsFrom | src/tftp.rs:198-204 | parsed error fields came from the code's two bytes, the message and a null |
| TftpProperties.ErrorParsedFrom | src/tftp.rs:31-34 | a parsed error packet came from its encoding |
| TftpProperties.ParseThenEncode | src/tftp.rs:22-37 | whatever parses is, at the front of the buffer, the encoding of the result (the mode up to letter case) |
| TftpProperties.WriteThenParse | src/tftp.rs:22-74 | writing a valid RRQ, ACK or ERROR packet that fits, then parsing the bytes written or the whole buffer, gives the packet back |
| TftpProperties.WritePacketThenParse | src/tftp.rs:22-74 | when the write of an RRQ, ACK or ERROR packet succeeds, parsing the bytes it reports as written gives the packet back |
| TftpProperties.ReadRequestScenario | src/tftp.rs:26-29 | the bytes 0 1 "abc" 0 "octet" 0 parse to a read request for "abc" |
| TftpProperties.UnknownOpcodeScenario | src/tftp.rs:88-91 | the bytes 0 9 parse to InvalidOpCode(9) |
| TftpProperties.AckScenario | src/tftp.rs:49-74 | writing an ACK into four bytes gives opcode 4 and the block number, and reports 4 |

## Left out

- `src/main.rs`, the UDP listener, is I/O and is not part of this model.
- The `println!` calls in `Packet::parse` and `Opcode::read` are output only and are left out.
- The `Display` and `std::error::Error` impls only produce message text and are left out.
  The same goes for the conversion into `io::Error`.
- `String::from_utf8_lossy` in `take_string` is left out. Strings stay raw bytes. On ASCII
  text the decoding is the identity, and the "octet" check depends only on ASCII. A filename or
  message with invalid UTF-8 would be altered by the source and is kept unchanged here.
- The `byteorder` crate is not part of this model. Its big-endian read and write are stated
  directly in `Bytes.FromBigEndian` and `Bytes.ToBigEndian`.
- Lifetimes and borrowing are not modelled. A parsed DATA payload is a copy of the bytes, where
  the source borrows a slice of the input.
- The methods take no ownership of packets. The source's `write(self, …)` consumes the packet,
  and the model does not track that.
- Arithmetic overflow of `usize` in `pos + len` is not modelled, because positions are
  unbounded integers. A slice in the source cannot be long enough to overflow.
- The empty `it_works` tests assert nothing and are left out.
