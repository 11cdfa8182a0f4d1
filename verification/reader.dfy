/** The cursor reader: an immutable byte buffer and a read position that the `take_*`
    operations advance, each checking the bounds before it touches a byte. */
module ByteReader {
  import opened Wrappers
  import opened Bytes

  datatype Error = NotEnoughData | StringNotTerminated

  /** The index of the first null byte at or after `from`, if there is one. */
  function FindNull(buf: seq<u8>, from: nat): (k: Option<nat>)
    requires from <= |buf|
    ensures k.Some? ==> from <= k.value < |buf| && buf[k.value] == 0 && 0 !in buf[from..k.value]
    ensures k.None? ==> 0 !in buf[from..]
    decreases |buf| - from
  {
    if from == |buf| then None
    else if buf[from] == 0 then Some(from)
    else
      var k := FindNull(buf, from + 1);
      assert k.Some? ==> buf[from..k.value] == [buf[from]] + buf[from + 1..k.value];
      assert buf[from..] == [buf[from]] + buf[from + 1..];
      k
  }

  /** A null at `k` with none between `from` and `k` is the one FindNull finds. */
  lemma FindNullAt(buf: seq<u8>, from: nat, k: nat)
    requires from <= k < |buf| && buf[k] == 0 && 0 !in buf[from..k]
    ensures FindNull(buf, from) == Some(k)
  {
  }

  class Reader {
    /** The packet bytes; a `const`, so no operation can change them. */
    const buf: seq<u8>
    var pos: nat

    ghost predicate Valid()
      reads this
    {
      pos <= |buf|
    }

    constructor (buf: seq<u8>)
      ensures Valid() && this.buf == buf && pos == 0
    {
      this.buf := buf;
      pos := 0;
    }

    function Len(): nat
    {
      |buf|
    }

    /** The unread bytes; `Valid()` keeps the subtraction from going below zero. */
    function Rem(): nat
      reads this
      requires Valid()
    {
      |buf| - pos
    }

    method TakeU16() returns (r: Result<u16, Error>)
      requires Valid()
      modifies this
      ensures Valid()
      ensures r.Success? <==> old(Rem()) >= 2
      ensures r.Success? ==> r.value == FromBigEndian(buf[old(pos)], buf[old(pos) + 1]) && pos == old(pos) + 2
      ensures r.Failure? ==> r.error == NotEnoughData && pos == old(pos)
    {
      if Rem() >= 2 {
        var value := FromBigEndian(buf[pos], buf[pos + 1]);
        pos := pos + 2;
        r := Success(value);
      } else {
        r := Failure(NotEnoughData);
      }
    }

    /** Scans for the first null byte from `pos`; the bytes before it are the string and the
        cursor moves past the null. Without a null nothing moves. */
    method TakeString() returns (r: Result<seq<u8>, Error>)
      requires Valid()
      modifies this
      ensures Valid()
      ensures r.Success? ==> 0 !in r.value && old(pos) < pos && buf[pos - 1] == 0 && r.value == buf[old(pos)..pos - 1]
      ensures match FindNull(buf, old(pos))
        case None => r == Failure(StringNotTerminated) && pos == old(pos)
        case Some(k) => r == Success(buf[old(pos)..k]) && pos == k + 1
    {
      for cur := pos to |buf|
        invariant pos == old(pos)
        invariant 0 !in buf[pos..cur]
      {
        if buf[cur] == 0 {
          FindNullAt(buf, pos, cur);
          r := Success(buf[pos..cur]);
          pos := cur + 1;
          return;
        }
        assert buf[pos..cur + 1] == buf[pos..cur] + [buf[cur]];
      }
      assert buf[pos..] == buf[pos..|buf|];
      r := Failure(StringNotTerminated);
    }

    /** The rest of the buffer, possibly empty; never fails. */
    method TakeAll() returns (r: Result<seq<u8>, Error>)
      requires Valid()
      modifies this
      ensures Valid()
      ensures r == Success(buf[old(pos)..]) && pos == |buf|
    {
      var rest := buf[pos..];
      pos := |buf|;
      r := Success(rest);
    }
  }
}
