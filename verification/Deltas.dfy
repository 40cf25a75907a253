/** Delta operations: their wire format and their replay on the receiver's side. */
module Deltas {
  import opened Bytes

  datatype Op = Copy(index: uint32) | Data(bytes: Bytes)

  datatype Delta = Delta(
    ops: seq<Op>,
    newFileSize: int64,
    newFileHash: Digest,
    blocksCopied: nat,
    bytesCopied: nat,
    bytesLiteral: nat)

  function LiteralBytes(ops: seq<Op>): nat {
    if ops == [] then 0 else
      var last := |ops| - 1;
      LiteralBytes(ops[..last]) + if ops[last].Data? then |ops[last].bytes| else 0
  }

  function TransferSize(d: Delta): nat {
    |d.ops| * 5 + d.bytesLiteral
  }

  // ------------------------------------------------------------------------------------------
  // The wire format
  // ------------------------------------------------------------------------------------------

  function EncodeOp(op: Op): (s: Bytes)
    ensures 5 <= |s|
  {
    match op
    case Copy(index) => [1] + BigEndian(4, index)
    case Data(bytes) => [2] + BigEndian(4, |bytes|) + bytes
  }

  function EncodeOps(ops: seq<Op>): Bytes {
    if ops == [] then [] else EncodeOp(ops[0]) + EncodeOps(ops[1..])
  }

  function EncodeHeader(d: Delta): (s: Bytes)
    ensures |s| == 44
  {
    BigEndian(8, ToUint64(d.newFileSize)) + d.newFileHash + BigEndian(4, |d.ops|)
  }

  function EncodeDelta(d: Delta): Bytes {
    EncodeHeader(d) + EncodeOps(d.ops)
  }

  lemma {:induction false} EncodeOpsAppend(ops: seq<Op>, op: Op)
    ensures EncodeOps(ops + [op]) == EncodeOps(ops) + EncodeOp(op)
  {
    hide EncodeOp;
    if ops == [] {
      assert [op][1..] == [];
    } else {
      EncodeOpsAppend(ops[1..], op);
      assert (ops + [op])[1..] == ops[1..] + [op];
    }
  }

  lemma NothingEncoded(d: Delta)
    ensures EncodeHeader(d) == EncodeHeader(d) + EncodeOps(d.ops[..0])
  {
  }

  method Encode(d: Delta) returns (buf: Bytes)
    ensures buf == EncodeDelta(d)
  {
    hide EncodeOp, EncodeOps, EncodeHeader;
    buf := EncodeHeader(d);
    NothingEncoded(d);
    for i := 0 to |d.ops|
      invariant buf == EncodeHeader(d) + EncodeOps(d.ops[..i])
    {
      EncodeOpsAppend(d.ops[..i], d.ops[i]);
      assert d.ops[..i + 1] == d.ops[..i] + [d.ops[i]];
      buf := buf + EncodeOp(d.ops[i]);
    }
    assert d.ops[..|d.ops|] == d.ops;
  }

  /** The layout in numbers: size, hash and operation count in 8, 32 and 4 bytes, then the operations, each with an
      opcode of one byte and four bytes of block index or length. */
  lemma DeltaLayout(d: Delta)
    ensures var data := EncodeDelta(d);
            && 44 <= |data| && data[0..8] == BigEndian(8, ToUint64(d.newFileSize)) && data[8..40] == d.newFileHash
            && data[40..44] == BigEndian(4, |d.ops|) && data[44..] == EncodeOps(d.ops)
    ensures EncodeOps([]) == []
    ensures forall ops, index: uint32 :: EncodeOps(ops + [Copy(index)]) == EncodeOps(ops) + [0x01] + BigEndian(4, index)
    ensures forall ops, bytes: Bytes ::
              EncodeOps(ops + [Data(bytes)]) == EncodeOps(ops) + [0x02] + BigEndian(4, |bytes|) + bytes
  {
    hide BigEndian, EncodeOps;
    assert EncodeOps([]) == [] by { NothingEncoded(d.(ops := [])); }
    forall ops, index: uint32
      ensures EncodeOps(ops + [Copy(index)]) == EncodeOps(ops) + [0x01] + BigEndian(4, index)
    {
      EncodeOpsAppend(ops, Copy(index));
    }
    forall ops, bytes: Bytes
      ensures EncodeOps(ops + [Data(bytes)]) == EncodeOps(ops) + [0x02] + BigEndian(4, |bytes|) + bytes
    {
      EncodeOpsAppend(ops, Data(bytes));
    }
  }

  /** The encoding of a delta whose literal count is right takes exactly the header and the announced
      transfer size. */
  lemma {:induction false} EncodedLength(ops: seq<Op>)
    ensures |EncodeOps(ops)| == |ops| * 5 + LiteralBytes(ops)
  {
    if ops != [] {
      var last := |ops| - 1;
      EncodedLength(ops[..last]);
      EncodeOpsAppend(ops[..last], ops[last]);
      assert ops == ops[..last] + [ops[last]];
    }
  }

  /** Reads at most `n` operations; stops early at the end of the input, and skips a byte that is no
      opcode (which still counts as one of the `n`). */
  function DecodeOps(s: Bytes, n: nat): (r: Result<seq<Op>>)
    decreases n
  {
    if n == 0 || s == [] then Ok([])
    else match DecodeOp(s)
      case Err => Err
      case Ok((op, size)) => Prepend(op, DecodeOps(s[size..], n - 1))
  }

  /** The operation at the start of the input (none for an unknown opcode) and the bytes it takes. */
  function DecodeOp(s: Bytes): (r: Result<(seq<Op>, nat)>)
    requires s != []
    ensures r.Ok? ==> 1 <= r.value.1 <= |s|
  {
    if s[0] == 1 then
      if |s| < 5 then Err else
        FromBigEndianBounds(s[1..5]);
        Ok(([Copy(FromBigEndian(s[1..5]))], 5))
    else if s[0] == 2 then
      if |s| < 5 then Err else
        var len := FromBigEndian(s[1..5]);
        if |s| < 5 + len then Err else Ok(([Data(s[5..5 + len])], 5 + len))
    else Ok(([], 1))
  }

  /** Decoding in numbers: nothing is read past the announced count or the end of the input; a byte that is no opcode
      is skipped and counts; an operation that is cut off is an error. */
  lemma DecodeInNumbers(s: Bytes, n: nat)
    ensures n == 0 || s == [] ==> DecodeOps(s, n) == Ok([])
    ensures 0 < n && s != [] && s[0] != 0x01 && s[0] != 0x02 ==> DecodeOps(s, n) == DecodeOps(s[1..], n - 1)
    ensures 0 < n && s != [] && s[0] in {0x01, 0x02} && |s| < 5 ==> DecodeOps(s, n) == Err
    ensures 0 < n && |s| >= 5 && s[0] == 0x02 && |s| < 5 + FromBigEndian(s[1..5]) ==> DecodeOps(s, n) == Err
  {
    if 0 < n && s != [] && s[0] != 0x01 && s[0] != 0x02 {
      PrependNothing(DecodeOps(s[1..], n - 1));
    }
  }

  function DecodeDelta(data: Bytes): Result<Delta> {
    if |data| < 44 then Err else
      FromBigEndianBounds(data[0..8]);
      match DecodeOps(data[44..], FromBigEndian(data[40..44]))
      case Err => Err
      case Ok(ops) => Ok(Delta(ops, ToInt64(FromBigEndian(data[0..8])), data[8..40], 0, 0, 0))
  }

  method Decode(data: Bytes) returns (r: Result<Delta>)
    ensures r == DecodeDelta(data)
    ensures |data| < 44 ==> r == Err
    ensures r.Ok? ==>
              && r.value.newFileSize == ToInt64(FromBigEndian(data[0..8])) && r.value.newFileHash == data[8..40]
              && DecodeOps(data[44..], FromBigEndian(data[40..44])) == Ok(r.value.ops)
  {
    if |data| < 44 {
      return Err;
    }
    FromBigEndianBounds(data[0..8]);
    var size := ToInt64(FromBigEndian(data[0..8]));
    var hash: Digest := data[8..40];
    var numOps := FromBigEndian(data[40..44]);
    var ops := DecodeOpsFrom(data, numOps);
    return if ops.Err? then Err else Ok(Delta(ops.value, size, hash, 0, 0, 0));
  }

  method DecodeOpsFrom(data: Bytes, numOps: nat) returns (r: Result<seq<Op>>)
    requires 44 <= |data|
    ensures r == DecodeOps(data[44..], numOps)
  {
    hide DecodeOp;
    var ops: seq<Op> := [];
    var offset, i := 44, 0;
    PrependNothing(DecodeOps(data[44..], numOps));
    while i < numOps && offset < |data|
      invariant offset <= |data| && i <= numOps
      invariant DecodeOps(data[44..], numOps) == Prepend(ops, DecodeOps(data[offset..], numOps - i))
    {
      match DecodeOp(data[offset..])
      case Err =>
        return Err;
      case Ok((op, len)) =>
        assert data[offset..][len..] == data[offset + len..];
        PrependTwice(ops, op, DecodeOps(data[offset + len..], numOps - i - 1));
        ops := ops + op;
        offset, i := offset + len, i + 1;
    }
    assert DecodeOps(data[offset..], numOps - i) == Ok([]);
    PrependNothing(Ok(ops));
    return Ok(ops);
  }

  function Prepend(ops: seq<Op>, r: Result<seq<Op>>): Result<seq<Op>> {
    match r
    case Err => Err
    case Ok(rest) => Ok(ops + rest)
  }

  lemma PrependNothing(r: Result<seq<Op>>)
    ensures Prepend([], r) == r
    ensures r.Ok? ==> Prepend(r.value, Ok([])) == r
  {
    if r.Ok? {
      assert [] + r.value == r.value + [] == r.value;
    }
  }

  lemma PrependTwice(ops: seq<Op>, more: seq<Op>, r: Result<seq<Op>>)
    ensures Prepend(ops, Prepend(more, r)) == Prepend(ops + more, r)
  {
    if r.Ok? {
      assert ops + (more + r.value) == ops + more + r.value;
    }
  }

  /** The statistics stay with the sender. */
  function OnTheWire(d: Delta): Delta {
    d.(blocksCopied := 0, bytesCopied := 0, bytesLiteral := 0)
  }

  /** What the 32-bit fields of the format can carry. */
  predicate Encodable(d: Delta) {
    && |d.ops| < TWO_32
    && forall i :: 0 <= i < |d.ops| ==> ShortLiteral(d.ops[i])
  }

  predicate ShortLiteral(op: Op) {
    op.Data? ==> |op.bytes| < TWO_32
  }

  lemma OpRoundTrip(op: Op, rest: Bytes)
    requires ShortLiteral(op)
    ensures DecodeOp(EncodeOp(op) + rest) == Ok(([op], |EncodeOp(op)|))
  {
    var s := EncodeOp(op) + rest;
    match op
    case Copy(index) =>
      assert s[1..5] == BigEndian(4, index);
      BigEndianFits(index);
    case Data(bytes) =>
      assert s[1..5] == BigEndian(4, |bytes|);
      BigEndianFits(|bytes|);
      assert s[5..5 + |bytes|] == bytes;
  }

  lemma {:induction false} OpsRoundTrip(ops: seq<Op>)
    requires forall i :: 0 <= i < |ops| ==> ShortLiteral(ops[i])
    ensures DecodeOps(EncodeOps(ops), |ops|) == Ok(ops)
  {
    if ops != [] {
      OpRoundTrip(ops[0], EncodeOps(ops[1..]));
      OpsRoundTrip(ops[1..]);
      hide EncodeOp, DecodeOp, ShortLiteral;
      DecodeNext(EncodeOp(ops[0]), EncodeOps(ops[1..]), ops[0], |ops|);
      assert [ops[0]] + ops[1..] == ops;
    }
  }

  lemma DecodeNext(head: Bytes, tail: Bytes, op: Op, n: nat)
    requires n > 0 && head != [] && DecodeOp(head + tail) == Ok(([op], |head|))
    ensures DecodeOps(head + tail, n) == Prepend([op], DecodeOps(tail, n - 1))
  {
    assert (head + tail)[|head|..] == tail;
  }

  /** Every decoded operation list fits the format, whatever the input. */
  lemma {:induction false} DecodedOpsFit(s: Bytes, n: nat)
    ensures var r := DecodeOps(s, n);
            r.Ok? ==> |r.value| <= n && forall i :: 0 <= i < |r.value| ==> ShortLiteral(r.value[i])
    decreases n
  {
    if n != 0 && s != [] && DecodeOp(s).Ok? {
      FromBigEndianBounds(if |s| < 5 then [] else s[1..5]);
      DecodedOpsFit(s[DecodeOp(s).value.1..], n - 1);
    }
  }

  /** Decoding undoes encoding exactly for the deltas the format can carry. */
  lemma DeltaRoundTrip(d: Delta)
    ensures DecodeDelta(EncodeDelta(d)) == Ok(OnTheWire(d)) <==> Encodable(d)
  {
    var data := EncodeDelta(d);
    assert data[0..8] == BigEndian(8, ToUint64(d.newFileSize));
    assert data[8..40] == d.newFileHash;
    assert data[40..44] == BigEndian(4, |d.ops|);
    assert data[44..] == EncodeOps(d.ops);
    Int64RoundTrip(d.newFileSize);
    if Encodable(d) {
      BigEndianFits(|d.ops|);
      OpsRoundTrip(d.ops);
    } else {
      FromBigEndianBounds(data[40..44]);
      DecodedOpsFit(data[44..], FromBigEndian(data[40..44]));
    }
  }

  // ------------------------------------------------------------------------------------------
  // Replay
  // ------------------------------------------------------------------------------------------

  /** How the receiver finds its old blocks. */
  type Lookup = uint32 -> Option<Bytes>

  /** The bytes the operations stand for, if every block they name can be found. */
  function Replay(ops: seq<Op>, base: Lookup): Option<Bytes> {
    if ops == [] then Some([]) else
      var last := |ops| - 1;
      match (Replay(ops[..last], base), Piece(ops[last], base))
      case (Some(before), Some(piece)) => Some(before + piece)
      case _ => None
  }

  function Piece(op: Op, base: Lookup): Option<Bytes> {
    match op
    case Copy(index) => base(index)
    case Data(bytes) => Some(bytes)
  }

  lemma ReplayAppend(ops: seq<Op>, op: Op, base: Lookup)
    ensures Replay(ops + [op], base) ==
            match (Replay(ops, base), Piece(op, base))
            case (Some(before), Some(piece)) => Some(before + piece)
            case _ => None
  {
    assert (ops + [op])[..|ops|] == ops;
  }

  lemma {:induction false} ReplayPrefix(ops: seq<Op>, i: nat, base: Lookup)
    requires i <= |ops| && Replay(ops[..i], base).None?
    ensures Replay(ops, base).None?
    decreases |ops|
  {
    if i < |ops| {
      var last := |ops| - 1;
      assert ops[..last][..i] == ops[..i];
      ReplayPrefix(ops[..last], i, base);
    } else {
      assert ops[..i] == ops;
    }
  }

  datatype Applied = Done | BlockNotFound(index: uint32) | HashMismatch | SizeMismatch

  /** Replays a delta into a writer that takes every byte, then compares the hash and the size of what
      was written with the header. */
  method ApplyDelta(sha: Bytes -> Digest, d: Delta, base: Lookup) returns (status: Applied, written: Bytes)
    ensures status.BlockNotFound? <==> Replay(d.ops, base) == None
    ensures status.BlockNotFound? ==>
              exists i :: 0 <= i < |d.ops| && d.ops[i] == Copy(status.index) && base(status.index) == None
                          && Replay(d.ops[..i], base) == Some(written)
    ensures !status.BlockNotFound? ==> Replay(d.ops, base) == Some(written)
    ensures status == Done ==> sha(written) == d.newFileHash && |written| == d.newFileSize
    ensures status == HashMismatch ==> sha(written) != d.newFileHash
    ensures status == SizeMismatch ==> sha(written) == d.newFileHash && |written| != d.newFileSize
  {
    written := [];
    for i := 0 to |d.ops|
      invariant Replay(d.ops[..i], base) == Some(written)
    {
      assert d.ops[..i + 1] == d.ops[..i] + [d.ops[i]];
      ReplayAppend(d.ops[..i], d.ops[i], base);
      match d.ops[i]
      case Copy(index) =>
        var data := base(index);
        if data.None? {
          ReplayPrefix(d.ops, i + 1, base);
          return BlockNotFound(index), written;
        }
        written := written + data.value;
      case Data(bytes) =>
        written := written + bytes;
    }
    assert d.ops[..|d.ops|] == d.ops;
    if sha(written) != d.newFileHash {
      return HashMismatch, written;
    }
    if |written| != d.newFileSize {
      return SizeMismatch, written;
    }
    return Done, written;
  }
}
