/** Properties of the TFTP codec: the opcode and error-code tables are inverse to the wire
    values, the error taxonomy of parsing, the byte layout and size of each packet, when a
    write succeeds, and the round trips between writing and parsing. */
module TftpProperties {
  import opened Wrappers
  import opened Bytes
  import ByteReader
  import ByteWriter
  import opened Tftp

  // ---------------------------------------------------------------------------------------
  // The tables

  /** `Opcode::from` and `opcode as u16` are inverse to each other. */
  lemma OpcodeTable(op: Opcode, code: u16)
    ensures OpcodeFrom(code) == Some(op) <==> op.Code() == code
  {
  }

  /** `ErrorCode::from` and `code as u16` are inverse to each other. */
  lemma ErrorCodeTable(ec: ErrorCode, code: u16)
    ensures ErrorCodeFrom(code) == Some(ec) <==> ec.Code() == code
  {
  }

  // ---------------------------------------------------------------------------------------
  // Parsing: the error taxonomy

  lemma ParseTooShort(buf: seq<u8>)
    requires |buf| < 2
    ensures Decode(buf) == Failure(ReadError(ByteReader.NotEnoughData))
  {
  }

  lemma ParseInvalidOpcode(buf: seq<u8>)
    requires |buf| >= 2 && !(1 <= FromBigEndian(buf[0], buf[1]) <= 5)
    ensures Decode(buf) == Failure(InvalidOpCode(FromBigEndian(buf[0], buf[1])))
  {
  }

  /** WRQ and DATA packets have no arm in the dispatch of `Packet::parse`. */
  lemma ParseUnhandledOpcode(buf: seq<u8>)
    requires |buf| >= 2 && FromBigEndian(buf[0], buf[1]) in {2, 3}
    ensures Decode(buf) == Failure(Unknown)
  {
  }

  /** An ACK cut short in its block number. */
  lemma ParseAckTruncated(buf: seq<u8>)
    requires 2 <= |buf| < 4 && FromBigEndian(buf[0], buf[1]) == 4
    ensures Decode(buf) == Failure(ReadError(ByteReader.NotEnoughData))
  {
  }

  /** An ERROR packet cut short in its code reports the sentinel code 999, not the short read. */
  lemma ParseErrorCodeTruncated(buf: seq<u8>)
    requires 2 <= |buf| < 4 && FromBigEndian(buf[0], buf[1]) == 5
    ensures Decode(buf) == Failure(InvalidErrorCode(999))
  {
  }

  lemma ParseErrorCodeOutOfRange(buf: seq<u8>)
    requires |buf| >= 4 && FromBigEndian(buf[0], buf[1]) == 5 && FromBigEndian(buf[2], buf[3]) > 8
    ensures Decode(buf) == Failure(InvalidErrorCode(FromBigEndian(buf[2], buf[3])))
  {
  }

  /** A filename without a terminator. */
  lemma ParseFilenameUnterminated(name: seq<u8>)
    requires 0 !in name
    ensures Decode(ToBigEndian(1) + name) == Failure(ReadError(ByteReader.StringNotTerminated))
  {
    var buf := ToBigEndian(1) + name;
    assert buf[2..] == name;
  }

  /** A read request whose mode has no terminator. */
  lemma ParseModeUnterminated(name: seq<u8>, mode: seq<u8>)
    requires 0 !in name && 0 !in mode
    ensures Decode(ToBigEndian(1) + name + [0] + mode) == Failure(ReadError(ByteReader.StringNotTerminated))
  {
    var buf := ToBigEndian(1) + name + [0] + mode;
    var k := 2 + |name|;
    assert buf[2..k] == name && buf[k] == 0;
    ByteReader.FindNullAt(buf, 2, k);
    assert buf[k + 1..] == mode;
  }

  /** An error packet whose message has no terminator. */
  lemma ParseErrorMessageUnterminated(code: ErrorCode, message: seq<u8>)
    requires 0 !in message
    ensures Decode(ToBigEndian(5) + ToBigEndian(code.Code()) + message) == Failure(ReadError(ByteReader.StringNotTerminated))
  {
    var buf := ToBigEndian(5) + ToBigEndian(code.Code()) + message;
    assert buf[2..4] == ToBigEndian(code.Code());
    assert buf[4..] == message;
    ErrorCodeTable(code, code.Code());
  }

  /** A read request with two terminated strings: accepted exactly when the mode is "octet"
      in any case, and anything after the mode's terminator is ignored. */
  lemma {:induction false} ParseRequest(name: seq<u8>, mode: seq<u8>, rest: seq<u8>)
    requires 0 !in name && 0 !in mode
    ensures Decode(ToBigEndian(1) + name + [0] + mode + [0] + rest)
         == if EqIgnoreAsciiCase(mode, OCTET) then Success(Read(name, Octet)) else Failure(Unknown)
  {
    var buf := ToBigEndian(1) + name + [0] + mode + [0] + rest;
    var k := 2 + |name|;
    var m := k + 1 + |mode|;
    assert buf[2..k] == name && buf[k] == 0;
    ByteReader.FindNullAt(buf, 2, k);
    assert buf[k + 1..m] == mode && buf[m] == 0;
    ByteReader.FindNullAt(buf, k + 1, m);
  }

  /** An error packet with a known code and a terminated message. */
  lemma {:induction false} ParseErrorPacket(code: ErrorCode, message: seq<u8>, rest: seq<u8>)
    requires 0 !in message
    ensures Decode(ToBigEndian(5) + ToBigEndian(code.Code()) + message + [0] + rest) == Success(Error(code, message))
  {
    var buf := ToBigEndian(5) + ToBigEndian(code.Code()) + message + [0] + rest;
    var k := 4 + |message|;
    assert buf[2..4] == ToBigEndian(code.Code());
    assert buf[4..k] == message && buf[k] == 0;
    ByteReader.FindNullAt(buf, 4, k);
    ErrorCodeTable(code, code.Code());
    assert FromBigEndian(buf[0], buf[1]) == 5 && FromBigEndian(buf[2], buf[3]) == code.Code();
    assert DecodeErrorPacket(buf) == Success(Error(code, message));
  }

  /** An acknowledgement with its block number. */
  lemma ParseAck(block: u16, rest: seq<u8>)
    ensures Decode(ToBigEndian(4) + ToBigEndian(block) + rest) == Success(Ack(block))
  {
    var buf := ToBigEndian(4) + ToBigEndian(block) + rest;
    assert buf[2..4] == ToBigEndian(block);
  }

  // ---------------------------------------------------------------------------------------
  // The opcode of a packet

  /** `Packet::opcode` tells the kinds of packet apart: two packets share an opcode exactly
      when they are of the same kind. */
  lemma OpcodeOfKind(p: Packet, q: Packet)
    ensures OpcodeOf(p) == OpcodeOf(q) <==>
      && p.Read? == q.Read? && p.Write? == q.Write? && p.Data? == q.Data?
      && p.Ack? == q.Ack? && p.Error? == q.Error?
  {
  }

  /** Every encoding starts with the packet's opcode, and the table reads it back. */
  lemma EncodeStartsWithOpcode(p: Packet)
    ensures |Encode(p)| >= 2 && Encode(p)[..2] == ToBigEndian(OpcodeOf(p).Code())
    ensures OpcodeFrom(FromBigEndian(Encode(p)[0], Encode(p)[1])) == Some(OpcodeOf(p))
  {
    EncodeLayout(p);
  }

  // ---------------------------------------------------------------------------------------
  // Writing: layout, size, success

  lemma FlattenOne(a: Field)
    ensures Flatten([a]) == FieldBytes(a)
  {
    assert [a][1..] == [];
  }

  lemma FlattenTwo(a: Field, b: Field)
    ensures Flatten([a, b]) == FieldBytes(a) + FieldBytes(b)
  {
    assert [a, b][1..] == [b];
    FlattenOne(b);
  }

  lemma FlattenThree(a: Field, b: Field, c: Field)
    ensures Flatten([a, b, c]) == FieldBytes(a) + FieldBytes(b) + FieldBytes(c)
  {
    assert [a, b, c][1..] == [b, c];
    FlattenTwo(b, c);
  }

  /** The bytes of each packet, as laid out in section 5 of RFC 1350. */
  lemma EncodeLayout(p: Packet)
    ensures Encode(p) == ToBigEndian(OpcodeOf(p).Code()) + match p
      case Read(f, m) => f + [0] + ModeName(m) + [0]
      case Write(f, m) => f + [0] + ModeName(m) + [0]
      case Data(b, d) => ToBigEndian(b) + d
      case Ack(b) => ToBigEndian(b)
      case Error(c, m) => ToBigEndian(c.Code()) + m + [0]
  {
    var op := U16Field(OpcodeOf(p).Code());
    match p
    case Read(f, m) => FlattenThree(op, TextField(f), TextField(ModeName(m)));
    case Write(f, m) => FlattenThree(op, TextField(f), TextField(ModeName(m)));
    case Data(b, d) => FlattenThree(op, U16Field(b), BytesField(d));
    case Ack(b) => FlattenTwo(op, U16Field(b));
    case Error(c, m) => FlattenThree(op, U16Field(c.Code()), TextField(m));
  }

  /** The number of bytes `Packet::write` reports for each packet when it succeeds. */
  lemma EncodedSize(p: Packet)
    ensures |Encode(p)| == match p
      case Read(f, _) => 2 + |f| + 1 + 6
      case Write(f, _) => 2 + |f| + 1 + 6
      case Data(_, d) => 4 + |d|
      case Ack(_) => 4
      case Error(_, m) => 4 + |m| + 1
  {
    EncodeLayout(p);
  }

  /** A field the writer accepts wherever there is room: text must be ASCII without a null. */
  predicate Writable(f: Field) {
    f.TextField? ==> IsAscii(f.text) && 0 !in f.text
  }

  /** The text fields of a packet are ASCII without a null. */
  predicate TextValid(p: Packet) {
    match p
    case Read(f, _) => IsAscii(f) && 0 !in f
    case Write(f, _) => IsAscii(f) && 0 !in f
    case Error(_, m) => IsAscii(m) && 0 !in m
    case _ => true
  }

  /** Writing a run of fields succeeds exactly when every field is writable and all of them
      fit; it then stops right after the last one. */
  lemma {:induction false} EmitSucceeds(fs: seq<Field>, pos: nat, cap: nat)
    requires pos <= cap
    ensures Emit(fs, pos, cap).fault.None? <==> (forall i :: 0 <= i < |fs| ==> Writable(fs[i])) && pos + |Flatten(fs)| <= cap
    ensures Emit(fs, pos, cap).fault.None? ==> Emit(fs, pos, cap).written == pos + |Flatten(fs)|
    decreases |fs|
  {
    if fs != [] {
      var f := fs[0];
      assert Flatten(fs) == FieldBytes(f) + Flatten(fs[1..]);
      match FieldFault(f, pos, cap)
      case Some(_) =>
        assert !Writable(fs[0]) || pos + |FieldBytes(f)| > cap;
      case None =>
        EmitSucceeds(fs[1..], pos + |FieldBytes(f)|, cap);
        assert forall i :: 1 <= i < |fs| ==> fs[i] == fs[1..][i - 1];
    }
  }

  /** The fields of a packet are all writable exactly when its text is valid. */
  lemma WritableFields(p: Packet)
    ensures (forall i :: 0 <= i < |Fields(p)| ==> Writable(Fields(p)[i])) <==> TextValid(p)
  {
    var fs := Fields(p);
    assert Writable(fs[0]);
    match p
    case Read(f, m) =>
      assert fs[1] == TextField(f) && fs[2] == TextField(OCTET);
    case Write(f, m) =>
      assert fs[1] == TextField(f) && fs[2] == TextField(OCTET);
    case Error(c, m) =>
      assert fs[2] == TextField(m);
    case _ =>
  }

  /** `Packet::write` succeeds exactly when the packet's text is ASCII without a null and its
      encoding fits the buffer, and it then reports the length of the encoding. */
  lemma WriteSucceeds(p: Packet, cap: nat)
    ensures Emit(Fields(p), 0, cap).fault.None? <==> TextValid(p) && |Encode(p)| <= cap
    ensures Emit(Fields(p), 0, cap).fault.None? ==> Emit(Fields(p), 0, cap).written == |Encode(p)|
  {
    EmitSucceeds(Fields(p), 0, cap);
    WritableFields(p);
  }

  /** The writer checks a filename's bytes before the room for it: a non-ASCII filename is
      reported as such whenever the opcode fits. */
  lemma WriteRejectsNonAsciiName(name: seq<u8>, cap: nat)
    requires 2 <= cap && !IsAscii(name)
    ensures Emit(Fields(Read(name, Octet)), 0, cap) == Emitted(2, Some(ByteWriter.StringNotASCII))
  {
    var fs := Fields(Read(name, Octet));
    assert fs[1..][0] == TextField(name);
  }

  /** `Packet::write` is not atomic: "abc" does not fit after the opcode in four bytes, and
      the write stops with the opcode already in the buffer. */
  lemma WriteNotAtomic()
    ensures Encode(Read([0x61, 0x62, 0x63], Octet))[..2] == [0, 1]
    ensures Emit(Fields(Read([0x61, 0x62, 0x63], Octet)), 0, 4) == Emitted(2, Some(ByteWriter.NotEnoughSpace))
  {
    var fs := Fields(Read([0x61, 0x62, 0x63], Octet));
    assert fs[1..][0] == TextField([0x61, 0x62, 0x63]);
    EncodeLayout(Read([0x61, 0x62, 0x63], Octet));
  }

  /** What `Packet::write` leaves when the packet is valid and fits: the encoding at the
      front of the buffer, the old bytes after it, and the encoding's length reported. */
  lemma WriteOutcomeOk(p: Packet, init: seq<u8>, now: seq<u8>, r: Result<nat, Error>)
    requires WriteOutcome(p, init, now, r)
    requires TextValid(p) && |Encode(p)| <= |init|
    ensures r == Success(|Encode(p)|)
    ensures now == Encode(p) + init[|Encode(p)|..]
  {
    WriteSucceeds(p, |init|);
    assert Encode(p)[..|Encode(p)|] == Encode(p);
  }

  /** What `Packet::write` leaves otherwise: an error from the writer, and only a proper
      prefix of the encoding in the buffer. */
  lemma WriteOutcomeFails(p: Packet, init: seq<u8>, now: seq<u8>, r: Result<nat, Error>)
    requires WriteOutcome(p, init, now, r)
    requires !(TextValid(p) && |Encode(p)| <= |init|)
    ensures r.Failure? && r.error.WriteError?
    ensures exists n :: 0 <= n < |Encode(p)| && n <= |init| && now == Encode(p)[..n] + init[n..]
  {
    WriteSucceeds(p, |init|);
    var n := Emit(Fields(p), 0, |init|).written;
    assert now == Encode(p)[..n] + init[n..];
  }

  // ---------------------------------------------------------------------------------------
  // Round trips

  /** Parsing the encoding of a read request, an acknowledgement or an error packet whose
      text has no null gives the packet back, whatever bytes follow it. */
  lemma DecodeEncode(p: Packet, rest: seq<u8>)
    requires p.Read? || p.Ack? || p.Error?
    requires p.Read? ==> 0 !in p.filename
    requires p.Error? ==> 0 !in p.message
    ensures Decode(Encode(p) + rest) == Success(p)
  {
    EncodeLayout(p);
    match p
    case Read(f, m) =>
      assert Encode(p) + rest == ToBigEndian(1) + f + [0] + OCTET + [0] + rest;
      assert EqIgnoreAsciiCase(OCTET, OCTET);
      ParseRequest(f, OCTET, rest);
      assert m == Octet;
    case Ack(b) =>
      assert Encode(p) + rest == ToBigEndian(4) + ToBigEndian(b) + rest;
      ParseAck(b, rest);
    case Error(c, m) =>
      assert Encode(p) + rest == ToBigEndian(5) + ToBigEndian(c.Code()) + m + [0] + rest;
      ParseErrorPacket(c, m, rest);
  }

  /** WRQ and DATA packets are written but not parsed back. */
  lemma EncodedUnhandled(p: Packet, rest: seq<u8>)
    requires p.Write? || p.Data?
    ensures Decode(Encode(p) + rest) == Failure(Unknown)
  {
    EncodeLayout(p);
    var buf := Encode(p) + rest;
    assert buf[..2] == ToBigEndian(OpcodeOf(p).Code());
    ParseUnhandledOpcode(buf);
  }

  lemma ReadParsedFrom(buf: seq<u8>, f: seq<u8>)
    requires Decode(buf) == Success(Read(f, Octet))
    ensures |f| + 9 <= |buf|
    ensures buf[..|f| + 3] == ToBigEndian(1) + f + [0]
    ensures EqIgnoreAsciiCase(buf[|f| + 3..|f| + 8], OCTET) && buf[|f| + 8] == 0
  {
    ToFromBigEndian(buf[0], buf[1]);
    assert OpcodeFrom(FromBigEndian(buf[0], buf[1])) == Some(RRQ);
    var k := ByteReader.FindNull(buf, 2).value;
    var m := ByteReader.FindNull(buf, k + 1).value;
    assert ParseMode(buf[k + 1..m]).Some?;
    assert f == buf[2..k];
    assert buf[..k + 1] == buf[..2] + f + [0];
  }

  lemma AckParsedFrom(buf: seq<u8>, b: u16)
    requires Decode(buf) == Success(Ack(b))
    ensures 4 <= |buf| && buf[..4] == ToBigEndian(4) + ToBigEndian(b)
  {
    ToFromBigEndian(buf[0], buf[1]);
    assert OpcodeFrom(FromBigEndian(buf[0], buf[1])) == Some(ACK);
    ToFromBigEndian(buf[2], buf[3]);
    assert buf[..4] == buf[..2] + buf[2..4];
  }

  /** What the fields of an error packet were read from, when they parse. */
  lemma ErrorFieldsFrom(buf: seq<u8>, c: ErrorCode, msg: seq<u8>)
    requires |buf| >= 2 && DecodeErrorPacket(buf) == Success(Error(c, msg))
    ensures |msg| + 5 <= |buf| && buf[..|msg| + 5] == buf[..2] + ToBigEndian(c.Code()) + msg + [0]
  {
    assert |buf| >= 4;
    ToFromBigEndian(buf[2], buf[3]);
    ErrorCodeTable(c, FromBigEndian(buf[2], buf[3]));
    var k := ByteReader.FindNull(buf, 4).value;
    assert buf[..k + 1] == buf[..2] + buf[2..4] + buf[4..k] + [0];
  }

  lemma ErrorParsedFrom(buf: seq<u8>, c: ErrorCode, msg: seq<u8>)
    requires Decode(buf) == Success(Error(c, msg))
    ensures |msg| + 5 <= |buf| && buf[..|msg| + 5] == ToBigEndian(5) + ToBigEndian(c.Code()) + msg + [0]
  {
    ToFromBigEndian(buf[0], buf[1]);
    assert buf[..2] == ToBigEndian(5);
    ErrorFieldsFrom(buf, c, msg);
  }

  /** What a successful parse read is the encoding of the packet it returns, up to the case
      of the mode's letters; bytes after it were ignored. */
  lemma ParseThenEncode(buf: seq<u8>, p: Packet)
    requires Decode(buf) == Success(p)
    ensures |Encode(p)| <= |buf|
    ensures !p.Read? ==> buf[..|Encode(p)|] == Encode(p)
    ensures p.Read? ==>
      var n := |p.filename|;
      && n + 9 <= |buf|
      && buf[..n + 3] == ToBigEndian(1) + p.filename + [0]
      && EqIgnoreAsciiCase(buf[n + 3..n + 8], OCTET) && buf[n + 8] == 0
  {
    EncodeLayout(p);
    match p
    case Read(f, _) =>
      ReadParsedFrom(buf, f);
    case Ack(b) =>
      assert Encode(p) == ToBigEndian(4) + ToBigEndian(b);
      AckParsedFrom(buf, b);
    case Error(c, msg) =>
      assert Encode(p) == ToBigEndian(5) + ToBigEndian(c.Code()) + msg + [0];
      ErrorParsedFrom(buf, c, msg);
  }

  /** Writing a read request, an acknowledgement or an error packet with valid text into a
      buffer large enough, then parsing the bytes written, gives the packet back; so does
      parsing the whole buffer, whatever it held after them. */
  lemma WriteThenParse(p: Packet, init: seq<u8>)
    requires p.Read? || p.Ack? || p.Error?
    requires TextValid(p) && |Encode(p)| <= |init|
    ensures Emit(Fields(p), 0, |init|) == Emitted(|Encode(p)|, None)
    ensures var out := ByteWriter.Overwrite(init, 0, Encode(p));
      Decode(out[..|Encode(p)|]) == Success(p) && Decode(out) == Success(p)
  {
    WriteSucceeds(p, |init|);
    var n := |Encode(p)|;
    var out := ByteWriter.Overwrite(init, 0, Encode(p));
    assert out == Encode(p) + init[n..];
    assert out[..n] == Encode(p) + [];
    DecodeEncode(p, []);
    DecodeEncode(p, init[n..]);
  }

  /** The round trip through what `Packet::write` guarantees: when it succeeds on an RRQ,
      ACK or ERROR packet, parsing the bytes it reports as written gives the packet back. */
  lemma WritePacketThenParse(p: Packet, init: seq<u8>, now: seq<u8>, r: Result<nat, Error>)
    requires p.Read? || p.Ack? || p.Error?
    requires WriteOutcome(p, init, now, r) && r.Success?
    ensures r.value <= |now| && Decode(now[..r.value]) == Success(p)
  {
    WriteSucceeds(p, |init|);
    WriteOutcomeOk(p, init, now, r);
    var n := |Encode(p)|;
    assert now[..n] == Encode(p) + [];
    DecodeEncode(p, []);
  }

  // ---------------------------------------------------------------------------------------
  // Concrete packets

  /** The request for "abc" in mode "octet", byte by byte. */
  lemma ReadRequestScenario()
    ensures Decode([0, 1, 0x61, 0x62, 0x63, 0, 0x6F, 0x63, 0x74, 0x65, 0x74, 0]) == Success(Read([0x61, 0x62, 0x63], Octet))
  {
    var name: seq<u8> := [0x61, 0x62, 0x63];
    assert EqIgnoreAsciiCase(OCTET, OCTET);
    ParseRequest(name, OCTET, []);
    assert ToBigEndian(1) + name + [0] + OCTET + [0] + [] == [0, 1, 0x61, 0x62, 0x63, 0, 0x6F, 0x63, 0x74, 0x65, 0x74, 0];
  }

  lemma UnknownOpcodeScenario()
    ensures Decode([0, 9]) == Failure(InvalidOpCode(9))
  {
  }

  /** An ACK into a four-byte buffer: the opcode and the block number, and 4 reported. */
  method AckScenario(block: u16) returns (bytes: seq<u8>, r: Result<nat, Error>)
    ensures bytes == [0, 4] + ToBigEndian(block) && r == Success(4)
  {
    var out := new u8[4];
    ghost var init := out[..];
    r := WritePacket(Ack(block), out);
    bytes := out[..];
    EncodeLayout(Ack(block));
    WriteOutcomeOk(Ack(block), init, bytes, r);
  }
}
