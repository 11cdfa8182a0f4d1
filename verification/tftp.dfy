/** The TFTP packet codec: the datagram layouts of section 5 of RFC 1350 plus error code 8
    of RFC 2347. `Parse` reads a packet through a `Reader`, `WritePacket` serialises one through a
    `Writer`; `Decode` and `Emit` say on plain byte sequences what the two compute. */
module Tftp {
  import opened Wrappers
  import opened Bytes
  import ByteReader
  import ByteWriter

  datatype Packet =
    | Read(filename: seq<u8>, mode: TransferMode)
    | Write(filename: seq<u8>, mode: TransferMode)
    | Data(block: u16, data: seq<u8>)
    | Ack(block: u16)
    | Error(code: ErrorCode, message: seq<u8>)

  datatype Opcode = RRQ | WRQ | DATA | ACK | ERROR
  {
    /** The opcode's value on the wire (`self as u16`); the opcode table maps it back. */
    function Code(): (c: u16)
      ensures OpcodeFrom(c) == Some(this)
    {
      match this
      case RRQ => 1
      case WRQ => 2
      case DATA => 3
      case ACK => 4
      case ERROR => 5
    }
  }

  /** `Opcode::from`: the opcode table. */
  function OpcodeFrom(code: u16): (op: Option<Opcode>)
    ensures op.Some? <==> 1 <= code <= 5
  {
    match code
    case 1 => Some(RRQ)
    case 2 => Some(WRQ)
    case 3 => Some(DATA)
    case 4 => Some(ACK)
    case 5 => Some(ERROR)
    case _ => None
  }

  /** `Packet::opcode`: the opcode that announces each kind of packet. */
  function OpcodeOf(p: Packet): Opcode {
    match p
    case Read(_, _) => RRQ
    case Write(_, _) => WRQ
    case Data(_, _) => DATA
    case Ack(_) => ACK
    case Error(_, _) => ERROR
  }

  datatype ErrorCode =
    | NotDefined         // not defined, see the error message
    | FileNotFound
    | AccessViolation
    | DiskFull           // disk full or allocation exceeded
    | IllegalOperation
    | UnknownTransferId
    | FileAlreadyExists
    | NoSuchUser
    | BadOptions         // options not acceptable (RFC 2347)
  {
    /** The error code's value on the wire; the error-code table maps it back. */
    function Code(): (c: u16)
      ensures ErrorCodeFrom(c) == Some(this)
    {
      match this
      case NotDefined => 0
      case FileNotFound => 1
      case AccessViolation => 2
      case DiskFull => 3
      case IllegalOperation => 4
      case UnknownTransferId => 5
      case FileAlreadyExists => 6
      case NoSuchUser => 7
      case BadOptions => 8
    }
  }

  /** `ErrorCode::from`: the error-code table. */
  function ErrorCodeFrom(code: u16): (ec: Option<ErrorCode>)
    ensures ec.Some? <==> code <= 8
  {
    match code
    case 0 => Some(NotDefined)
    case 1 => Some(FileNotFound)
    case 2 => Some(AccessViolation)
    case 3 => Some(DiskFull)
    case 4 => Some(IllegalOperation)
    case 5 => Some(UnknownTransferId)
    case 6 => Some(FileAlreadyExists)
    case 7 => Some(NoSuchUser)
    case 8 => Some(BadOptions)
    case _ => None
  }

  datatype TransferMode = Octet

  /** "octet" in ASCII. */
  const OCTET: seq<u8> := [0x6F, 0x63, 0x74, 0x65, 0x74]

  /** The text a mode is written as. */
  function ModeName(m: TransferMode): seq<u8> {
    match m
    case Octet => OCTET
  }

  /** `TransferMode::parse`: "octet" in any mix of upper and lower case, nothing else. */
  function ParseMode(s: seq<u8>): (m: Option<TransferMode>)
    ensures m.Some? <==> |s| == |OCTET| && forall i :: 0 <= i < |s| ==> s[i] == OCTET[i] || s[i] as int + 0x20 == OCTET[i]
  {
    if EqIgnoreAsciiCase(s, OCTET) then Some(Octet) else None
  }

  /** The codec's errors; the reader's and the writer's are wrapped unchanged (the `From`
      conversions that `?` applies are the constructors `ReadError` and `WriteError`). */
  datatype Error =
    | InvalidOpCode(opcode: u16)
    | InvalidErrorCode(errcode: u16)
    | ReadError(readError: ByteReader.Error)
    | WriteError(writeError: ByteWriter.Error)
    | Unknown

  // ---------------------------------------------------------------------------------------
  // What parsing computes, on the bytes

  /** The outcome of `Packet::parse` on `buf`. Only RRQ, ACK and ERROR have a dispatch arm;
      bytes after the last field are ignored. */
  function Decode(buf: seq<u8>): (r: Result<Packet, Error>)
    ensures r.Success? ==> r.value.Read? || r.value.Ack? || r.value.Error?
    ensures r.Success? ==> |buf| >= 2 && FromBigEndian(buf[0], buf[1]) == OpcodeOf(r.value).Code()
    ensures r.Success? && r.value.Read? ==> 0 !in r.value.filename && 2 + |r.value.filename| < |buf|
    ensures r.Success? && r.value.Error? ==> 0 !in r.value.message && 4 + |r.value.message| < |buf|
  {
    if |buf| < 2 then Failure(ReadError(ByteReader.NotEnoughData))
    else
      var code := FromBigEndian(buf[0], buf[1]);
      match OpcodeFrom(code)
      case None => Failure(InvalidOpCode(code))
      case Some(RRQ) => DecodeRequest(buf)
      case Some(ACK) =>
        if |buf| < 4 then Failure(ReadError(ByteReader.NotEnoughData))
        else Success(Ack(FromBigEndian(buf[2], buf[3])))
      case Some(ERROR) => DecodeErrorPacket(buf)
      case Some(_) => Failure(Unknown)
  }

  /** The fields of a read request after its opcode: filename, then mode. */
  function DecodeRequest(buf: seq<u8>): Result<Packet, Error>
    requires |buf| >= 2
  {
    match ByteReader.FindNull(buf, 2)
    case None => Failure(ReadError(ByteReader.StringNotTerminated))
    case Some(k) =>
      match ByteReader.FindNull(buf, k + 1)
      case None => Failure(ReadError(ByteReader.StringNotTerminated))
      case Some(m) =>
        match ParseMode(buf[k + 1..m])
        case None => Failure(Unknown)
        case Some(mode) => Success(Read(buf[2..k], mode))
  }

  /** The fields of an error packet after its opcode: error code, then message. A code
      that cannot be read becomes the sentinel 999, which the table rejects. */
  function DecodeErrorPacket(buf: seq<u8>): Result<Packet, Error>
    requires |buf| >= 2
  {
    var code := if |buf| >= 4 then FromBigEndian(buf[2], buf[3]) else 999;
    var pos := if |buf| >= 4 then 4 else 2;
    match ErrorCodeFrom(code)
    case None => Failure(InvalidErrorCode(code))
    case Some(ec) =>
      match ByteReader.FindNull(buf, pos)
      case None => Failure(ReadError(ByteReader.StringNotTerminated))
      case Some(k) => Success(Error(ec, buf[pos..k]))
  }

  // ---------------------------------------------------------------------------------------
  // What writing computes, on the bytes

  /** One field as the writer puts it: a 16-bit number, a null-terminated text, raw bytes. */
  datatype Field = U16Field(value: u16) | TextField(text: seq<u8>) | BytesField(bytes: seq<u8>)

  /** The fields `Packet::write` puts, in order, starting with the opcode. */
  function Fields(p: Packet): seq<Field> {
    [U16Field(OpcodeOf(p).Code())] +
    match p
    case Read(f, m) => [TextField(f), TextField(ModeName(m))]
    case Write(f, m) => [TextField(f), TextField(ModeName(m))]
    case Data(b, d) => [U16Field(b), BytesField(d)]
    case Ack(b) => [U16Field(b)]
    case Error(c, m) => [U16Field(c.Code()), TextField(m)]
  }

  function FieldBytes(f: Field): seq<u8> {
    match f
    case U16Field(v) => ToBigEndian(v)
    case TextField(t) => t + [0]
    case BytesField(b) => b
  }

  function Flatten(fs: seq<Field>): seq<u8> {
    if fs == [] then [] else FieldBytes(fs[0]) + Flatten(fs[1..])
  }

  /** The bytes of a packet on the wire. */
  function Encode(p: Packet): seq<u8> {
    Flatten(Fields(p))
  }

  /** The error the writer reports when it puts `f` at `pos` into a buffer of `cap` bytes. */
  function FieldFault(f: Field, pos: nat, cap: nat): (e: Option<ByteWriter.Error>)
    requires pos <= cap
    ensures e.None? ==> pos + |FieldBytes(f)| <= cap
  {
    match f
    case U16Field(_) => if cap - pos >= 2 then None else Some(ByteWriter.NotEnoughSpace)
    case TextField(t) =>
      if !IsAscii(t) then Some(ByteWriter.StringNotASCII)
      else if 0 in t then Some(ByteWriter.StringContainsNull)
      else if pos + |t| >= cap then Some(ByteWriter.NotEnoughSpace)
      else None
    case BytesField(b) => if pos + |b| > cap then Some(ByteWriter.NotEnoughSpace) else None
  }

  /** How far a writer gets putting `fs` from `pos` into `cap` bytes: the position it stops
      at and the error that stopped it, if any. */
  datatype Emitted = Emitted(written: nat, fault: Option<ByteWriter.Error>)

  function Emit(fs: seq<Field>, pos: nat, cap: nat): (e: Emitted)
    requires pos <= cap
    ensures pos <= e.written <= cap && e.written <= pos + |Flatten(fs)|
    ensures e.fault.Some? ==> e.written < pos + |Flatten(fs)|
    decreases |fs|
  {
    if fs == [] then Emitted(pos, None)
    else
      match FieldFault(fs[0], pos, cap)
      case Some(fault) => Emitted(pos, Some(fault))
      case None => Emit(fs[1..], pos + |FieldBytes(fs[0])|, cap)
  }

  /** One put of `f`: the buffer and position before and after, and the result. */
  ghost predicate Wrote(f: Field, pos: nat, before: seq<u8>, pos': nat, after: seq<u8>, r: Result<(), Error>)
  {
    pos <= |before| &&
    match FieldFault(f, pos, |before|)
    case Some(fault) => r == Failure(WriteError(fault)) && pos' == pos && after == before
    case None => r == Success(()) && pos' == pos + |FieldBytes(f)| && after == ByteWriter.Overwrite(before, pos, FieldBytes(f))
  }

  /** After the first `i` of the fields `fs` are written into a buffer that held `init`:
      the buffer holds the first `pos` bytes of their encoding and `init` after them, and
      the rest of the write goes as the whole would. */
  ghost predicate Progress(fs: seq<Field>, i: nat, init: seq<u8>, pos: nat, now: seq<u8>)
  {
    i <= |fs| && pos <= |init| && pos <= |Flatten(fs)| &&
    Flatten(fs[..i]) == Flatten(fs)[..pos] &&
    now == ByteWriter.Overwrite(init, 0, Flatten(fs)[..pos]) &&
    Emit(fs, 0, |init|) == Emit(fs[i..], pos, |init|)
  }

  lemma {:induction false} FlattenSplit(fs: seq<Field>, i: nat)
    requires i <= |fs|
    ensures Flatten(fs) == Flatten(fs[..i]) + Flatten(fs[i..])
  {
    if i > 0 {
      FlattenSplit(fs[1..], i - 1);
      assert fs[..i][1..] == fs[1..][..i - 1];
      assert fs[1..][i - 1..] == fs[i..];
    }
  }

  lemma ProgressStart(fs: seq<Field>, init: seq<u8>)
    ensures Progress(fs, 0, init, 0, init)
  {
    assert fs[0..] == fs;
    assert ByteWriter.Overwrite(init, 0, []) == init;
  }

  lemma FlattenSnoc(fs: seq<Field>, i: nat)
    requires i < |fs|
    ensures Flatten(fs[..i + 1]) == Flatten(fs[..i]) + FieldBytes(fs[i])
  {
    assert fs[..i + 1][..i] == fs[..i] && fs[..i + 1][i..] == [fs[i]];
    FlattenSplit(fs[..i + 1], i);
    assert Flatten([fs[i]]) == FieldBytes(fs[i]) + Flatten([]);
  }

  lemma OverwriteExtend(init: seq<u8>, a: seq<u8>, b: seq<u8>)
    requires |a| + |b| <= |init|
    ensures ByteWriter.Overwrite(ByteWriter.Overwrite(init, 0, a), |a|, b) == ByteWriter.Overwrite(init, 0, a + b)
  {
    var lhs := ByteWriter.Overwrite(ByteWriter.Overwrite(init, 0, a), |a|, b);
    var rhs := ByteWriter.Overwrite(init, 0, a + b);
    forall j | 0 <= j < |init|
      ensures lhs[j] == rhs[j]
    {
    }
  }

  lemma EmitStep(fs: seq<Field>, i: nat, pos: nat, cap: nat)
    requires i < |fs| && pos <= cap
    ensures match FieldFault(fs[i], pos, cap)
      case Some(fault) => Emit(fs[i..], pos, cap) == Emitted(pos, Some(fault))
      case None => Emit(fs[i..], pos, cap) == Emit(fs[i + 1..], pos + |FieldBytes(fs[i])|, cap)
  {
    assert fs[i..][0] == fs[i] && fs[i..][1..] == fs[i + 1..];
  }

  /** A field written in full extends the progress over it. */
  lemma AdvanceOk(fs: seq<Field>, i: nat, init: seq<u8>, pos: nat, now: seq<u8>, pos': nat, now': seq<u8>)
    requires Progress(fs, i, init, pos, now) && i < |fs|
    requires FieldFault(fs[i], pos, |init|).None?
    requires pos' == pos + |FieldBytes(fs[i])| && now' == ByteWriter.Overwrite(now, pos, FieldBytes(fs[i]))
    ensures Progress(fs, i + 1, init, pos', now')
  {
    var b := FieldBytes(fs[i]);
    EmitStep(fs, i, pos, |init|);
    FlattenSnoc(fs, i);
    FlattenSplit(fs, i + 1);
    var done := Flatten(fs)[..pos];
    assert Flatten(fs)[..pos + |b|] == done + b;
    OverwriteExtend(init, done, b);
  }

  /** One more field written: either the progress extends over it, or the write stops here
      with the error that field causes. */
  lemma Advance(fs: seq<Field>, i: nat, init: seq<u8>, pos: nat, now: seq<u8>, pos': nat, now': seq<u8>, r: Result<(), Error>)
    requires Progress(fs, i, init, pos, now) && i < |fs|
    requires Wrote(fs[i], pos, now, pos', now', r)
    ensures r.Success? ==> Progress(fs, i + 1, init, pos', now')
    ensures r.Failure? ==> r.error.WriteError? && pos' == pos && now' == now && Emit(fs, 0, |init|) == Emitted(pos, Some(r.error.writeError))
  {
    assert |now| == |init|;
    if r.Success? {
      AdvanceOk(fs, i, init, pos, now, pos', now');
    } else {
      EmitStep(fs, i, pos, |init|);
    }
  }

  /** What `WritePacket` leaves behind for `p` in a buffer that held `init`: as much of the
      encoding as was written before the first error (all of it when there is none), with
      `init` after it, and the position reached or the error. */
  ghost predicate WriteOutcome(p: Packet, init: seq<u8>, now: seq<u8>, r: Result<nat, Error>)
  {
    var e := Emit(Fields(p), 0, |init|);
    && e.written <= |Encode(p)|
    && now == ByteWriter.Overwrite(init, 0, Encode(p)[..e.written])
    && r == if e.fault.None? then Success(e.written) else Failure(WriteError(e.fault.value))
  }

  /** The write ends: after the last field, or at a field that failed. */
  lemma Conclude(p: Packet, i: nat, init: seq<u8>, pos: nat, now: seq<u8>, r: Result<nat, Error>)
    requires Progress(Fields(p), i, init, pos, now)
    requires || (i == |Fields(p)| && r == Success(pos))
             || (r.Failure? && r.error.WriteError? && Emit(Fields(p), 0, |init|) == Emitted(pos, Some(r.error.writeError)))
    ensures WriteOutcome(p, init, now, r)
  {
    var fs := Fields(p);
    assert fs[|fs|..] == [];
  }

  /** One field of `p` written: the progress extends over it, or the write of `p` ends
      here with that field's error. */
  lemma Step(p: Packet, i: nat, init: seq<u8>, pos: nat, now: seq<u8>, pos': nat, now': seq<u8>, e: Result<(), Error>)
    requires Progress(Fields(p), i, init, pos, now) && i < |Fields(p)|
    requires Wrote(Fields(p)[i], pos, now, pos', now', e)
    ensures e.Success? ==> Progress(Fields(p), i + 1, init, pos', now')
    ensures e.Failure? ==> WriteOutcome(p, init, now', Failure(e.error))
  {
    Advance(Fields(p), i, init, pos, now, pos', now', e);
    if e.Failure? {
      Conclude(p, i, init, pos, now', Failure(e.error));
    }
  }

  // ---------------------------------------------------------------------------------------
  // Reading the fields (the `read` functions of each field type)

  method ReadOpcode(rd: ByteReader.Reader) returns (r: Result<Opcode, Error>)
    requires rd.Valid()
    modifies rd
    ensures rd.Valid()
    ensures old(rd.Rem()) < 2 ==> r == Failure(ReadError(ByteReader.NotEnoughData)) && rd.pos == old(rd.pos)
    ensures old(rd.Rem()) >= 2 ==>
      var code := FromBigEndian(rd.buf[old(rd.pos)], rd.buf[old(rd.pos) + 1]);
      rd.pos == old(rd.pos) + 2 &&
      r == match OpcodeFrom(code) case Some(op) => Success(op) case None => Failure(InvalidOpCode(code))
  {
    var code := rd.TakeU16();
    if code.Failure? {
      return Failure(ReadError(code.error));
    }
    match OpcodeFrom(code.value)
    case Some(op) => r := Success(op);
    case None => r := Failure(InvalidOpCode(code.value));
  }

  method ReadFilename(rd: ByteReader.Reader) returns (r: Result<seq<u8>, Error>)
    requires rd.Valid()
    modifies rd
    ensures rd.Valid()
    ensures match ByteReader.FindNull(rd.buf, old(rd.pos))
      case None => r == Failure(ReadError(ByteReader.StringNotTerminated)) && rd.pos == old(rd.pos)
      case Some(k) => r == Success(rd.buf[old(rd.pos)..k]) && rd.pos == k + 1
  {
    var name := rd.TakeString();
    if name.Failure? {
      return Failure(ReadError(name.error));
    }
    r := Success(name.value);
  }

  method ReadMode(rd: ByteReader.Reader) returns (r: Result<TransferMode, Error>)
    requires rd.Valid()
    modifies rd
    ensures rd.Valid()
    ensures match ByteReader.FindNull(rd.buf, old(rd.pos))
      case None => r == Failure(ReadError(ByteReader.StringNotTerminated)) && rd.pos == old(rd.pos)
      case Some(k) =>
        rd.pos == k + 1 &&
        r == match ParseMode(rd.buf[old(rd.pos)..k]) case Some(m) => Success(m) case None => Failure(Unknown)
  {
    var mode := rd.TakeString();
    if mode.Failure? {
      return Failure(ReadError(mode.error));
    }
    match ParseMode(mode.value)
    case Some(m) => r := Success(m);
    case None => r := Failure(Unknown);
  }

  method ReadBlockNum(rd: ByteReader.Reader) returns (r: Result<u16, Error>)
    requires rd.Valid()
    modifies rd
    ensures rd.Valid()
    ensures old(rd.Rem()) < 2 ==> r == Failure(ReadError(ByteReader.NotEnoughData)) && rd.pos == old(rd.pos)
    ensures old(rd.Rem()) >= 2 ==>
      rd.pos == old(rd.pos) + 2 && r == Success(FromBigEndian(rd.buf[old(rd.pos)], rd.buf[old(rd.pos) + 1]))
  {
    var block := rd.TakeU16();
    if block.Failure? {
      return Failure(ReadError(block.error));
    }
    r := Success(block.value);
  }

  /** `Data::read`: the payload is the rest of the packet. `Parse` has no arm that calls it. */
  method ReadData(rd: ByteReader.Reader) returns (r: Result<seq<u8>, Error>)
    requires rd.Valid()
    modifies rd
    ensures rd.Valid()
    ensures r == Success(rd.buf[old(rd.pos)..]) && rd.pos == |rd.buf|
  {
    var rest := rd.TakeAll();  // never a failure, so `?` passes it through
    r := Success(rest.value);
  }

  /** `ErrorCode::read`: a failed read of the code is not reported as such; it becomes the
      code 999, which the table rejects. */
  method ReadErrorCode(rd: ByteReader.Reader) returns (r: Result<ErrorCode, Error>)
    requires rd.Valid()
    modifies rd
    ensures rd.Valid()
    ensures rd.pos == if old(rd.Rem()) >= 2 then old(rd.pos) + 2 else old(rd.pos)
    ensures
      var code := if old(rd.Rem()) >= 2 then FromBigEndian(rd.buf[old(rd.pos)], rd.buf[old(rd.pos) + 1]) else 999;
      r == match ErrorCodeFrom(code) case Some(ec) => Success(ec) case None => Failure(InvalidErrorCode(code))
  {
    var taken := rd.TakeU16();
    var code := if taken.Success? then taken.value else 999;
    match ErrorCodeFrom(code)
    case Some(ec) => r := Success(ec);
    case None => r := Failure(InvalidErrorCode(code));
  }

  method ReadErrorMessage(rd: ByteReader.Reader) returns (r: Result<seq<u8>, Error>)
    requires rd.Valid()
    modifies rd
    ensures rd.Valid()
    ensures match ByteReader.FindNull(rd.buf, old(rd.pos))
      case None => r == Failure(ReadError(ByteReader.StringNotTerminated)) && rd.pos == old(rd.pos)
      case Some(k) => r == Success(rd.buf[old(rd.pos)..k]) && rd.pos == k + 1
  {
    var message := rd.TakeString();
    if message.Failure? {
      return Failure(ReadError(message.error));
    }
    r := Success(message.value);
  }

  /** `Packet::parse`: reads the opcode, then the fields of the packet it announces. */
  method Parse(buf: seq<u8>) returns (r: Result<Packet, Error>)
    ensures r == Decode(buf)
  {
    var rd := new ByteReader.Reader(buf);
    var opcode := ReadOpcode(rd);
    if opcode.Failure? {
      return Failure(opcode.error);
    }
    match opcode.value
    case RRQ =>
      var filename := ReadFilename(rd);
      if filename.Failure? {
        return Failure(filename.error);
      }
      var mode := ReadMode(rd);
      if mode.Failure? {
        return Failure(mode.error);
      }
      r := Success(Read(filename.value, mode.value));
    case ACK =>
      var block := ReadBlockNum(rd);
      if block.Failure? {
        return Failure(block.error);
      }
      r := Success(Ack(block.value));
    case ERROR =>
      var code := ReadErrorCode(rd);
      if code.Failure? {
        return Failure(code.error);
      }
      var message := ReadErrorMessage(rd);
      if message.Failure? {
        return Failure(message.error);
      }
      r := Success(Error(code.value, message.value));
    case _ =>
      r := Failure(Unknown);
  }

  // ---------------------------------------------------------------------------------------
  // Writing the fields (the `write` functions of each field type)

  method WriteOpcode(op: Opcode, w: ByteWriter.Writer) returns (r: Result<(), Error>)
    requires w.Valid()
    modifies w, w.buf
    ensures w.Valid()
    ensures Wrote(U16Field(op.Code()), old(w.pos), old(w.buf[..]), w.pos, w.buf[..], r)
  {
    var put := w.PutU16(op.Code());
    if put.Failure? {
      return Failure(WriteError(put.error));
    }
    r := Success(());
  }

  method WriteFilename(filename: seq<u8>, w: ByteWriter.Writer) returns (r: Result<(), Error>)
    requires w.Valid()
    modifies w, w.buf
    ensures w.Valid()
    ensures Wrote(TextField(filename), old(w.pos), old(w.buf[..]), w.pos, w.buf[..], r)
  {
    var put := w.PutString(filename);
    if put.Failure? {
      return Failure(WriteError(put.error));
    }
    r := Success(());
  }

  method WriteMode(mode: TransferMode, w: ByteWriter.Writer) returns (r: Result<(), Error>)
    requires w.Valid()
    modifies w, w.buf
    ensures w.Valid()
    ensures Wrote(TextField(ModeName(mode)), old(w.pos), old(w.buf[..]), w.pos, w.buf[..], r)
  {
    var put := w.PutString(match mode case Octet => OCTET);
    if put.Failure? {
      return Failure(WriteError(put.error));
    }
    r := Success(());
  }

  method WriteBlockNum(block: u16, w: ByteWriter.Writer) returns (r: Result<(), Error>)
    requires w.Valid()
    modifies w, w.buf
    ensures w.Valid()
    ensures Wrote(U16Field(block), old(w.pos), old(w.buf[..]), w.pos, w.buf[..], r)
  {
    var put := w.PutU16(block);
    if put.Failure? {
      return Failure(WriteError(put.error));
    }
    r := Success(());
  }

  method WriteData(data: seq<u8>, w: ByteWriter.Writer) returns (r: Result<(), Error>)
    requires w.Valid()
    modifies w, w.buf
    ensures w.Valid()
    ensures Wrote(BytesField(data), old(w.pos), old(w.buf[..]), w.pos, w.buf[..], r)
  {
    var put := w.PutBytes(data);
    if put.Failure? {
      return Failure(WriteError(put.error));
    }
    r := Success(());
  }

  method WriteErrorCode(code: ErrorCode, w: ByteWriter.Writer) returns (r: Result<(), Error>)
    requires w.Valid()
    modifies w, w.buf
    ensures w.Valid()
    ensures Wrote(U16Field(code.Code()), old(w.pos), old(w.buf[..]), w.pos, w.buf[..], r)
  {
    var put := w.PutU16(code.Code());
    if put.Failure? {
      return Failure(WriteError(put.error));
    }
    r := Success(());
  }

  method WriteErrorMessage(message: seq<u8>, w: ByteWriter.Writer) returns (r: Result<(), Error>)
    requires w.Valid()
    modifies w, w.buf
    ensures w.Valid()
    ensures Wrote(TextField(message), old(w.pos), old(w.buf[..]), w.pos, w.buf[..], r)
  {
    var put := w.PutString(message);
    if put.Failure? {
      return Failure(WriteError(put.error));
    }
    r := Success(());
  }

  /** The arms of `Packet::write` for RRQ and WRQ: the filename, then the mode. */
  method WriteRequestArgs(filename: seq<u8>, mode: TransferMode, w: ByteWriter.Writer, ghost p: Packet, ghost init: seq<u8>) returns (r: Result<nat, Error>)
    requires w.Valid() && |init| == w.buf.Length
    requires |Fields(p)| == 3 && Fields(p)[1] == TextField(filename) && Fields(p)[2] == TextField(ModeName(mode))
    requires Progress(Fields(p), 1, init, w.pos, w.buf[..])
    modifies w, w.buf
    ensures WriteOutcome(p, init, w.buf[..], r)
  {
    ghost var pos, now := w.pos, w.buf[..];
    var e := WriteFilename(filename, w);
    Step(p, 1, init, pos, now, w.pos, w.buf[..], e);
    if e.Failure? {
      return Failure(e.error);
    }
    pos, now := w.pos, w.buf[..];
    e := WriteMode(mode, w);
    Step(p, 2, init, pos, now, w.pos, w.buf[..], e);
    if e.Failure? {
      return Failure(e.error);
    }
    Conclude(p, 3, init, w.pos, w.buf[..], Success(w.pos));
    r := Success(w.pos);
  }

  /** The arm of `Packet::write` for DATA: the block number, then the payload. */
  method WriteDataArgs(block: u16, data: seq<u8>, w: ByteWriter.Writer, ghost p: Packet, ghost init: seq<u8>) returns (r: Result<nat, Error>)
    requires w.Valid() && |init| == w.buf.Length
    requires |Fields(p)| == 3 && Fields(p)[1] == U16Field(block) && Fields(p)[2] == BytesField(data)
    requires Progress(Fields(p), 1, init, w.pos, w.buf[..])
    modifies w, w.buf
    ensures WriteOutcome(p, init, w.buf[..], r)
  {
    ghost var pos, now := w.pos, w.buf[..];
    var e := WriteBlockNum(block, w);
    Step(p, 1, init, pos, now, w.pos, w.buf[..], e);
    if e.Failure? {
      return Failure(e.error);
    }
    pos, now := w.pos, w.buf[..];
    e := WriteData(data, w);
    Step(p, 2, init, pos, now, w.pos, w.buf[..], e);
    if e.Failure? {
      return Failure(e.error);
    }
    Conclude(p, 3, init, w.pos, w.buf[..], Success(w.pos));
    r := Success(w.pos);
  }

  /** The arm of `Packet::write` for ACK: the block number. */
  method WriteAckArgs(block: u16, w: ByteWriter.Writer, ghost p: Packet, ghost init: seq<u8>) returns (r: Result<nat, Error>)
    requires w.Valid() && |init| == w.buf.Length
    requires |Fields(p)| == 2 && Fields(p)[1] == U16Field(block)
    requires Progress(Fields(p), 1, init, w.pos, w.buf[..])
    modifies w, w.buf
    ensures WriteOutcome(p, init, w.buf[..], r)
  {
    ghost var pos, now := w.pos, w.buf[..];
    var e := WriteBlockNum(block, w);
    Step(p, 1, init, pos, now, w.pos, w.buf[..], e);
    if e.Failure? {
      return Failure(e.error);
    }
    pos, now := w.pos, w.buf[..];
    Conclude(p, 2, init, w.pos, w.buf[..], Success(w.pos));
    r := Success(w.pos);
  }

  /** The arm of `Packet::write` for ERROR: the error code, then the message. */
  method WriteErrorArgs(code: ErrorCode, message: seq<u8>, w: ByteWriter.Writer, ghost p: Packet, ghost init: seq<u8>) returns (r: Result<nat, Error>)
    requires w.Valid() && |init| == w.buf.Length
    requires |Fields(p)| == 3 && Fields(p)[1] == U16Field(code.Code()) && Fields(p)[2] == TextField(message)
    requires Progress(Fields(p), 1, init, w.pos, w.buf[..])
    modifies w, w.buf
    ensures WriteOutcome(p, init, w.buf[..], r)
  {
    ghost var pos, now := w.pos, w.buf[..];
    var e := WriteErrorCode(code, w);
    Step(p, 1, init, pos, now, w.pos, w.buf[..], e);
    if e.Failure? {
      return Failure(e.error);
    }
    pos, now := w.pos, w.buf[..];
    e := WriteErrorMessage(message, w);
    Step(p, 2, init, pos, now, w.pos, w.buf[..], e);
    if e.Failure? {
      return Failure(e.error);
    }
    Conclude(p, 3, init, w.pos, w.buf[..], Success(w.pos));
    r := Success(w.pos);
  }

  /** `Packet::write`: puts the opcode, then the packet's fields, and returns the bytes
      written. It is not atomic: when a later field fails, the earlier ones stay in `out`. */
  method WritePacket(p: Packet, out: array<u8>) returns (r: Result<nat, Error>)
    modifies out
    ensures WriteOutcome(p, old(out[..]), out[..], r)
  {
    ghost var init := out[..];
    var w := new ByteWriter.Writer(out);
    ProgressStart(Fields(p), init);
    var e := WriteOpcode(OpcodeOf(p), w);
    Step(p, 0, init, 0, init, w.pos, out[..], e);
    if e.Failure? {
      return Failure(e.error);
    }
    match p
    case Read(filename, mode) => r := WriteRequestArgs(filename, mode, w, p, init);
    case Write(filename, mode) => r := WriteRequestArgs(filename, mode, w, p, init);
    case Data(block, data) => r := WriteDataArgs(block, data, w, p, init);
    case Ack(block) => r := WriteAckArgs(block, w, p, init);
    case Error(code, message) => r := WriteErrorArgs(code, message, w, p, init);
  }
}
