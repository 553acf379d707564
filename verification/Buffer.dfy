/** The read side of bytes.Buffer, with binary.Read on top of it. */
module Buffer {
  import opened Bytes

  datatype Read = Got(value: nat, rest: seq<byte>) | Eof

  /** Read an n-byte little-endian integer off the front; too few bytes is an error. */
  function ReadUint(b: seq<byte>, n: nat): Read {
    if |b| < n then Eof else Got(FromLittleEndian(b[..n]), b[n..])
  }

  lemma ReadUintEncoded(v: nat, n: nat, tail: seq<byte>)
    requires v < Pow256(n)
    ensures ReadUint(LittleEndian(v, n) + tail, n) == Got(v, tail)
  {
    LittleEndianInverse(v, n);
    var b := LittleEndian(v, n) + tail;
    assert b[..n] == LittleEndian(v, n) && b[n..] == tail;
  }

  lemma ReadUintExact(b: seq<byte>, n: nat)
    requires ReadUint(b, n).Got?
    ensures var r := ReadUint(b, n); r.value < Pow256(n) && b == LittleEndian(r.value, n) + r.rest
  {
    FromLittleEndianInverse(b[..n]);
    assert b == b[..n] + b[n..];
  }

  class ByteBuffer {
    var rest: seq<byte>

    constructor (b: seq<byte>)
      ensures rest == b
    {
      rest := b;
    }

    /** Consume up to n bytes; silently fewer when the buffer is short. */
    method Next(n: nat) returns (data: seq<byte>)
      modifies this
      ensures data == Take(old(rest), n) && rest == Drop(old(rest), n)
    {
      var m := if n > |rest| then |rest| else n;
      data := rest[..m];
      rest := rest[m..];
    }

    /** Decode an n-byte integer; a short buffer is drained and reported. */
    method ReadLittleEndian(n: nat) returns (r: Option<nat>)
      modifies this
      ensures match ReadUint(old(rest), n)
              case Got(v, tail) => r == Some(v) && rest == tail
              case Eof => r == None && rest == []
    {
      if |rest| < n {
        rest := [];
        return None;
      }
      r := Some(FromLittleEndian(rest[..n]));
      rest := rest[n..];
    }
  }
}
