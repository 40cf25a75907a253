/** Input streams: some bytes, then either a clean end of file or an error, forever. */
module Readers {
  import opened Bytes

  datatype ByteRead = Got(b: byte) | EndOfFile | Failed

  /** What filling a whole buffer reports besides the number of bytes it delivered. */
  datatype FullRead = Complete | NothingLeft | CutShort | ReadError

  class Reader {
    const data: Bytes
    const fails: bool
    var pos: nat

    ghost predicate Valid()
      reads this
    {
      pos <= |data|
    }

    /** The bytes still to come. */
    ghost function Rest(): Bytes
      requires Valid()
      reads this
    {
      data[pos..]
    }

    constructor (data: Bytes, fails: bool)
      ensures Valid() && this.data == data && this.fails == fails && pos == 0
    {
      this.data := data;
      this.fails := fails;
      pos := 0;
    }

    method ReadByte() returns (r: ByteRead)
      requires Valid()
      modifies this
      ensures Valid()
      ensures old(pos) < |data| ==> r == Got(data[old(pos)]) && pos == old(pos) + 1
      ensures old(pos) == |data| ==> pos == old(pos) && r == if fails then Failed else EndOfFile
    {
      if pos < |data| {
        r := Got(data[pos]);
        pos := pos + 1;
      } else {
        r := if fails then Failed else EndOfFile;
      }
    }

    /** Fills `buf` from the start, stopping early only at the end of the stream. */
    method ReadFull(buf: array<byte>) returns (n: nat, r: FullRead)
      requires Valid() && 1 <= buf.Length
      modifies this, buf
      ensures Valid()
      ensures n == Min(buf.Length, |old(Rest())|)
      ensures pos == old(pos) + n && buf[..n] == data[old(pos)..pos]
      ensures r == if n == buf.Length then Complete
                   else if fails then ReadError
                   else if n == 0 then NothingLeft else CutShort
    {
      n := 0;
      while n < buf.Length && pos < |data|
        invariant Valid() && n <= buf.Length && pos == old(pos) + n
        invariant buf[..n] == data[old(pos)..pos]
      {
        buf[n] := data[pos];
        n, pos := n + 1, pos + 1;
      }
      r := if n == buf.Length then Complete
           else if fails then ReadError
           else if n == 0 then NothingLeft else CutShort;
    }
  }
}
