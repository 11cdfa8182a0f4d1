/** The cursor writer: a fixed-capacity mutable byte buffer and a write position. Every
    `put_*` checks before it writes, so a failed put changes neither the buffer nor the
    position, and a successful one changes only the bytes it puts. */
module ByteWriter {
  import opened Wrappers
  import opened Bytes

  datatype Error = NotEnoughSpace | StringNotASCII | StringContainsNull

  /** `s` with the bytes from `at` on replaced by `data`: same length, and every byte
      outside `[at, at + |data|)` as it was. */
  function Overwrite(s: seq<u8>, at: nat, data: seq<u8>): (t: seq<u8>)
    requires at + |data| <= |s|
    ensures |t| == |s|
    ensures forall i :: 0 <= i < |s| ==> t[i] == if at <= i < at + |data| then data[i - at] else s[i]
  {
    s[..at] + data + s[at + |data|..]
  }

  class Writer {
    /** The caller's output buffer; the reference is fixed, its bytes are not. */
    const buf: array<u8>
    var pos: nat

    ghost predicate Valid()
      reads this
    {
      pos <= buf.Length
    }

    constructor (buf: array<u8>)
      ensures Valid() && this.buf == buf && pos == 0
    {
      this.buf := buf;
      pos := 0;
    }

    function Len(): nat
    {
      buf.Length
    }

    /** The unwritten bytes; `Valid()` keeps the subtraction from going below zero. */
    function Rem(): nat
      reads this
      requires Valid()
    {
      buf.Length - pos
    }

    method PutU16(value: u16) returns (r: Result<(), Error>)
      requires Valid()
      modifies this, buf
      ensures Valid()
      ensures r.Success? <==> old(Rem()) >= 2
      ensures r.Success? ==> pos == old(pos) + 2 && buf[..] == Overwrite(old(buf[..]), old(pos), ToBigEndian(value))
      ensures r.Failure? ==> r.error == NotEnoughSpace && pos == old(pos) && buf[..] == old(buf[..])
    {
      if Rem() >= 2 {
        var bytes := ToBigEndian(value);
        buf[pos] := bytes[0];
        buf[pos + 1] := bytes[1];
        pos := pos + 2;
        r := Success(());
      } else {
        r := Failure(NotEnoughSpace);
      }
    }

    /** Writes `value` and a null terminator. The checks come in a fixed order: ASCII first,
        then an embedded null, then room for the bytes and the terminator. */
    method PutString(value: seq<u8>) returns (r: Result<(), Error>)
      requires Valid()
      modifies this, buf
      ensures Valid()
      ensures !IsAscii(value) ==> r == Failure(StringNotASCII)
      ensures IsAscii(value) && 0 in value ==> r == Failure(StringContainsNull)
      ensures IsAscii(value) && 0 !in value && old(pos) + |value| >= buf.Length ==> r == Failure(NotEnoughSpace)
      ensures r.Success? <==> IsAscii(value) && 0 !in value && old(pos) + |value| < buf.Length
      ensures r.Success? ==> pos == old(pos) + |value| + 1 && buf[..] == Overwrite(old(buf[..]), old(pos), value + [0])
      ensures r.Failure? ==> pos == old(pos) && buf[..] == old(buf[..])
    {
      if IsAscii(value) {
        if 0 in value {
          r := Failure(StringContainsNull);
        } else {
          var end := pos + |value|;
          // greater-or-equal: the terminator needs a byte too
          if end >= buf.Length {
            r := Failure(NotEnoughSpace);
          } else {
            forall i | 0 <= i < |value| {
              buf[pos + i] := value[i];
            }
            buf[end] := 0;
            pos := end + 1;
            r := Success(());
          }
        }
      } else {
        r := Failure(StringNotASCII);
      }
    }

    /** Copies `bytes` as they are; an empty slice always fits. */
    method PutBytes(bytes: seq<u8>) returns (r: Result<(), Error>)
      requires Valid()
      modifies this, buf
      ensures Valid()
      ensures r.Success? <==> old(pos) + |bytes| <= buf.Length
      ensures r.Success? ==> pos == old(pos) + |bytes| && buf[..] == Overwrite(old(buf[..]), old(pos), bytes)
      ensures r.Failure? ==> r.error == NotEnoughSpace && pos == old(pos) && buf[..] == old(buf[..])
    {
      var end := pos + |bytes|;
      if end > buf.Length {
        r := Failure(NotEnoughSpace);
      } else {
        forall i | 0 <= i < |bytes| {
          buf[pos + i] := bytes[i];
        }
        pos := end;
        r := Success(());
      }
    }
  }
}
