/** The block signature a receiver sends for its old file: its index, its wire format, its making. */
module Signatures {
  import opened Bytes
  import opened Readers
  import opened Splitting
  import Adler
  import RollingHashes

  datatype BlockSignature = BlockSignature(index: uint32, weak: uint32, strong: Digest)

  /** The value a signature object stands for. */
  datatype Sig = Sig(blockSize: nat, fileSize: int64, blocks: seq<BlockSignature>)

  // ------------------------------------------------------------------------------------------
  // The weak-hash index
  // ------------------------------------------------------------------------------------------

  /** The positions a linear scan finds for weak hash `w`. */
  function Positions(blocks: seq<BlockSignature>, w: uint32): seq<nat> {
    if blocks == [] then [] else
      var last := |blocks| - 1;
      Positions(blocks[..last], w) + if blocks[last].weak == w then [last] else []
  }

  /** `ps` lists exactly the positions with weak hash `w`, in ascending order. */
  ghost predicate Scans(ps: seq<nat>, blocks: seq<BlockSignature>, w: uint32) {
    && (forall k :: 0 <= k < |ps| ==> ps[k] < |blocks| && blocks[ps[k]].weak == w)
    && (forall k, l :: 0 <= k < l < |ps| ==> ps[k] < ps[l])
    && (forall i :: 0 <= i < |blocks| && blocks[i].weak == w ==> i in ps)
  }

  lemma {:induction false} PositionsScan(blocks: seq<BlockSignature>, w: uint32)
    ensures Scans(Positions(blocks, w), blocks, w)
  {
    if blocks != [] {
      var last := |blocks| - 1;
      PositionsScan(blocks[..last], w);
      ScanNext(Positions(blocks[..last], w), blocks, w);
    }
  }

  lemma ScanNext(ps: seq<nat>, blocks: seq<BlockSignature>, w: uint32)
    requires blocks != [] && Scans(ps, blocks[..|blocks| - 1], w)
    ensures Scans(ps + if blocks[|blocks| - 1].weak == w then [|blocks| - 1] else [], blocks, w)
  {
    forall i | 0 <= i < |blocks| - 1 && blocks[i].weak == w
      ensures i in ps
    {
      assert blocks[..|blocks| - 1][i] == blocks[i];
    }
  }

  class Signature {
    const blockSize: nat
    var fileSize: int64
    var blocks: seq<BlockSignature>
    var weakIndex: map<uint32, seq<nat>>

    /** The index agrees with a linear scan, for every weak hash. */
    ghost predicate Valid()
      reads this
    {
      forall w: uint32 :: Candidates(w) == Positions(blocks, w)
    }

    function Candidates(w: uint32): seq<nat>
      reads this
    {
      if w in weakIndex then weakIndex[w] else []
    }

    ghost function Model(): Sig
      reads this
    {
      Sig(blockSize, fileSize, blocks)
    }

    constructor (blockSize: nat, fileSize: int64)
      ensures Valid() && Model() == Sig(blockSize, fileSize, [])
    {
      this.blockSize, this.fileSize := blockSize, fileSize;
      blocks, weakIndex := [], map[];
    }

    method AddBlock(index: uint32, weak: uint32, strong: Digest)
      requires Valid()
      modifies this`blocks, this`weakIndex
      ensures Valid()
      ensures blocks == old(blocks) + [BlockSignature(index, weak, strong)]
    {
      var idx := |blocks|;
      var candidates := Candidates(weak);
      blocks := blocks + [BlockSignature(index, weak, strong)];
      weakIndex := weakIndex[weak := candidates + [idx]];
      assert blocks[..idx] == old(blocks);
    }

    method FindByWeakHash(w: uint32) returns (candidates: seq<nat>)
      requires Valid()
      ensures candidates == Positions(blocks, w)
    {
      candidates := Candidates(w);
    }

    function GetBlock(idx: int): (b: Option<BlockSignature>)
      reads this
      ensures b.Some? <==> 0 <= idx < |blocks|
    {
      if idx < 0 || idx >= |blocks| then None else Some(blocks[idx])
    }

    /** Header of 16 bytes, then 40 bytes a block, written into a buffer at growing offsets. */
    method Encode() returns (buf: array<byte>)
      ensures fresh(buf) && buf[..] == EncodeSig(Model())
    {
      hide EncodeBlock, EncodeHeader;
      buf := new byte[16 + |blocks| * 40](i => 0);
      StoreHeader(buf, Sig(blockSize, fileSize, blocks));
      var offset := 16;
      for i := 0 to |blocks|
        invariant offset == 16 + i * 40
        invariant buf[..offset] == EncodeHeader(Model()) + EncodeBlocks(blocks[..i])
      {
        EncodeBlocksAppend(blocks[..i], blocks[i]);
        assert blocks[..i + 1] == blocks[..i] + [blocks[i]];
        StoreBlock(buf, offset, blocks[i]);
        offset := offset + 40;
      }
      assert blocks[..|blocks|] == blocks;
      assert buf[..] == buf[..offset];
    }

    /** Reads up to `numBlocks` whole records behind the header. */
    method ReadBlocks(data: Bytes, numBlocks: nat)
      requires Valid() && blocks == [] && 16 <= |data|
      modifies this`blocks, this`weakIndex
      ensures Valid() && blocks == DecodeBlocks(data[16..], numBlocks)
    {
      hide DecodeBlock;
      var offset, i := 16, 0;
      while i < numBlocks && offset + 40 <= |data|
        invariant Valid() && i <= numBlocks && offset <= |data|
        invariant blocks + DecodeBlocks(data[offset..], numBlocks - i) == DecodeBlocks(data[16..], numBlocks)
      {
        DecodeBlocksNext(data, offset, numBlocks - i);
        var block := DecodeBlock(data[offset..offset + 40]);
        AddBlock(block.index, block.weak, block.strong);
        offset, i := offset + 40, i + 1;
      }
      assert DecodeBlocks(data[offset..], numBlocks - i) == [];
    }

    /** Signs one more block of the file. */
    method Append(sha: Bytes -> Digest, index: uint32, block: Bytes, ghost signed: seq<Bytes>)
      requires Valid() && blocks == SignBlocks(sha, signed) && index == |signed| % TWO_32
      requires fileSize + |block| < TWO_63
      modifies this
      ensures Valid() && blocks == SignBlocks(sha, signed + [block])
      ensures fileSize == old(fileSize) + |block|
    {
      var weak, strong := ComputeBlockSignature(sha, block);
      AddBlock(index, weak, strong);
      SignBlocksAppend(sha, signed, block);
      fileSize := fileSize + |block|;
    }
  }

  method StoreHeader(buf: array<byte>, m: Sig)
    requires 16 <= buf.Length
    modifies buf
    ensures buf[..16] == EncodeHeader(m)
  {
    Store(buf, 0, BigEndian(4, m.blockSize));
    Store(buf, 4, BigEndian(8, ToUint64(m.fileSize)));
    Store(buf, 12, BigEndian(4, |m.blocks|));
  }

  method StoreBlock(buf: array<byte>, offset: nat, block: BlockSignature)
    requires offset + 40 <= buf.Length
    modifies buf
    ensures buf[..offset + 40] == old(buf[..offset]) + EncodeBlock(block)
  {
    Store(buf, offset, BigEndian(4, block.index));
    Store(buf, offset + 4, BigEndian(4, block.weak));
    Store(buf, offset + 8, block.strong);
  }

  // ------------------------------------------------------------------------------------------
  // The wire format
  // ------------------------------------------------------------------------------------------

  function EncodeBlock(b: BlockSignature): (s: Bytes)
    ensures |s| == 40
  {
    BigEndian(4, b.index) + BigEndian(4, b.weak) + b.strong
  }

  function EncodeBlocks(blocks: seq<BlockSignature>): Bytes {
    if blocks == [] then [] else EncodeBlock(blocks[0]) + EncodeBlocks(blocks[1..])
  }

  lemma {:induction false} EncodeBlocksAppend(blocks: seq<BlockSignature>, b: BlockSignature)
    ensures EncodeBlocks(blocks + [b]) == EncodeBlocks(blocks) + EncodeBlock(b)
  {
    if blocks == [] {
      assert [b][1..] == [];
    } else {
      EncodeBlocksAppend(blocks[1..], b);
      assert (blocks + [b])[1..] == blocks[1..] + [b];
    }
  }

  function EncodeHeader(m: Sig): (s: Bytes)
    ensures |s| == 16
  {
    BigEndian(4, m.blockSize) + BigEndian(8, ToUint64(m.fileSize)) + BigEndian(4, |m.blocks|)
  }

  function EncodeSig(m: Sig): Bytes {
    EncodeHeader(m) + EncodeBlocks(m.blocks)
  }

  /** What decoding gives: nothing (input shorter than a header), a run-time panic while sizing the
      block list, or a signature. */
  datatype Decoded<+T> = Absent | Panicked | Present(value: T)

  /** The largest allocation of the runtime on 64-bit machines. */
  const MAX_ALLOC: nat := 0x1_0000_0000_0000

  /** Sizing the block list divides by the block size and allocates the rounded-up quotient, 40 bytes a
      block. The sum wraps at 64 bits and the division truncates, so that a file size of less than about minus two
      blocks and a huge one give a negative capacity, and a large one more than can be allocated. */
  predicate SizingPanics(blockSize: nat, fileSize: int64) {
    blockSize == 0 ||
    var sum := fileSize + blockSize - 1;
    var total := if sum < TWO_63 then sum else sum - TWO_64;
    total + blockSize <= 0 || (0 <= total && total / blockSize * 40 > MAX_ALLOC)
  }

  function DecodeBlock(s: Bytes): BlockSignature
    requires |s| == 40
  {
    FromBigEndianBounds(s[0..4]);
    FromBigEndianBounds(s[4..8]);
    BlockSignature(FromBigEndian(s[0..4]), FromBigEndian(s[4..8]), s[8..40])
  }

  function DecodeBlocks(s: Bytes, n: nat): (blocks: seq<BlockSignature>)
    ensures |blocks| <= n
    decreases n
  {
    if n == 0 || |s| < 40 then [] else [DecodeBlock(s[..40])] + DecodeBlocks(s[40..], n - 1)
  }

  lemma DecodeBlocksNext(data: Bytes, offset: nat, n: nat)
    requires offset + 40 <= |data| && 1 <= n
    ensures DecodeBlocks(data[offset..], n)
            == [DecodeBlock(data[offset..offset + 40])] + DecodeBlocks(data[offset + 40..], n - 1)
  {
    assert data[offset..][..40] == data[offset..offset + 40];
    assert data[offset..][40..] == data[offset + 40..];
  }

  function DecodeSig(data: Bytes): Decoded<Sig> {
    if |data| < 16 then Absent else
      FromBigEndianBounds(data[4..12]);
      var blockSize := FromBigEndian(data[0..4]);
      var fileSize := ToInt64(FromBigEndian(data[4..12]));
      if SizingPanics(blockSize, fileSize) then Panicked
      else Present(Sig(blockSize, fileSize, DecodeBlocks(data[16..], FromBigEndian(data[12..16]))))
  }

  method DecodeSignature(data: Bytes) returns (r: Decoded<Signature>)
    ensures r.Present? ==> fresh(r.value) && r.value.Valid()
    ensures match r
            case Absent => DecodeSig(data) == Absent
            case Panicked => DecodeSig(data) == Panicked
            case Present(sig) => DecodeSig(data) == Present(sig.Model())
  {
    if |data| < 16 {
      return Absent;
    }
    FromBigEndianBounds(data[4..12]);
    var blockSize := FromBigEndian(data[0..4]);
    var fileSize := ToInt64(FromBigEndian(data[4..12]));
    var numBlocks := FromBigEndian(data[12..16]);
    if SizingPanics(blockSize, fileSize) {
      return Panicked;
    }
    var sig := new Signature(blockSize, fileSize);
    sig.ReadBlocks(data, numBlocks);
    return Present(sig);
  }

  lemma BlockRoundTrip(b: BlockSignature)
    ensures DecodeBlock(EncodeBlock(b)) == b
  {
    var s := EncodeBlock(b);
    assert s[0..4] == BigEndian(4, b.index);
    assert s[4..8] == BigEndian(4, b.weak);
    assert s[8..40] == b.strong;
    BigEndianFits(b.index);
    BigEndianFits(b.weak);
  }

  lemma {:induction false} BlocksRoundTrip(blocks: seq<BlockSignature>)
    ensures DecodeBlocks(EncodeBlocks(blocks), |blocks|) == blocks
  {
    if blocks != [] {
      var s := EncodeBlocks(blocks);
      assert s[..40] == EncodeBlock(blocks[0]);
      assert s[40..] == EncodeBlocks(blocks[1..]);
      BlockRoundTrip(blocks[0]);
      BlocksRoundTrip(blocks[1..]);
    }
  }

  /** What the wire format can carry. */
  predicate Encodable(m: Sig) {
    && m.blockSize < TWO_32 && |m.blocks| < TWO_32
    && !SizingPanics(m.blockSize, m.fileSize)
  }

  /** Decoding undoes encoding exactly for the signatures the format can carry. */
  lemma SignatureRoundTrip(m: Sig)
    ensures DecodeSig(EncodeSig(m)) == Present(m) <==> Encodable(m)
  {
    var data := EncodeSig(m);
    assert data[0..4] == BigEndian(4, m.blockSize);
    assert data[4..12] == BigEndian(8, ToUint64(m.fileSize));
    assert data[12..16] == BigEndian(4, |m.blocks|);
    assert data[16..] == EncodeBlocks(m.blocks);
    Int64RoundTrip(m.fileSize);
    FromBigEndianBounds(data[0..4]);
    FromBigEndianBounds(data[12..16]);
    if Encodable(m) {
      BigEndianFits(m.blockSize);
      BigEndianFits(|m.blocks|);
      BlocksRoundTrip(m.blocks);
    }
  }

  /** The layout in numbers: block size, file size and block count in 4, 8 and 4 bytes, then 40 bytes for every
      block: its index, its weak and its strong hash. */
  lemma {:induction false} SignatureLayout(m: Sig, i: nat)
    requires i < |m.blocks|
    ensures var data := EncodeSig(m);
            && |data| == 16 + 40 * |m.blocks|
            && data[0..4] == BigEndian(4, m.blockSize) && data[4..12] == BigEndian(8, ToUint64(m.fileSize))
            && data[12..16] == BigEndian(4, |m.blocks|)
            && data[16 + 40 * i..20 + 40 * i] == BigEndian(4, m.blocks[i].index)
            && data[20 + 40 * i..24 + 40 * i] == BigEndian(4, m.blocks[i].weak)
            && data[24 + 40 * i..56 + 40 * i] == m.blocks[i].strong
  {
    hide BigEndian;
    BlocksLayout(m.blocks, i);
    var data, records := EncodeSig(m), EncodeBlocks(m.blocks);
    var k := 40 * i;
    SliceBehind(EncodeHeader(m), records, k, k + 4);
    SliceBehind(EncodeHeader(m), records, k + 4, k + 8);
    SliceBehind(EncodeHeader(m), records, k + 8, k + 40);
  }

  lemma {:induction false} BlocksLayout(blocks: seq<BlockSignature>, i: nat)
    requires i < |blocks|
    ensures var s := EncodeBlocks(blocks);
            && |s| == 40 * |blocks|
            && s[40 * i..40 * i + 4] == BigEndian(4, blocks[i].index)
            && s[40 * i + 4..40 * i + 8] == BigEndian(4, blocks[i].weak)
            && s[40 * i + 8..40 * i + 40] == blocks[i].strong
  {
    hide BigEndian;
    var s, rest := EncodeBlocks(blocks), EncodeBlocks(blocks[1..]);
    assert s[40..] == rest;
    if i > 0 {
      BlocksLayout(blocks[1..], i - 1);
      var k := 40 * (i - 1);
      assert s[40 * i..40 * i + 4] == rest[k..k + 4];
      assert s[40 * i + 4..40 * i + 8] == rest[k + 4..k + 8];
      assert s[40 * i + 8..40 * i + 40] == rest[k + 8..k + 40];
    } else if |blocks| > 1 {
      BlocksLayout(blocks[1..], 0);
    }
  }

  /** Decoding a header panics exactly when sizing its block list does. */
  lemma DecodePanics(m: Sig)
    requires m.blockSize < TWO_32
    ensures DecodeSig(EncodeSig(m)) == Panicked <==> SizingPanics(m.blockSize, m.fileSize)
  {
    var data := EncodeSig(m);
    assert data[0..4] == BigEndian(4, m.blockSize);
    assert data[4..12] == BigEndian(8, ToUint64(m.fileSize));
    Int64RoundTrip(m.fileSize);
    BigEndianFits(m.blockSize);
  }

  /** Any other file size panics exactly if rounding it up passes 2^63 or the list would pass 2^48 bytes. */
  lemma OtherSizePanics(blockSize: nat, fileSize: int64)
    requires 1 <= blockSize < TWO_32 && fileSize >= 0
    ensures SizingPanics(blockSize, fileSize)
            <==> || fileSize + blockSize - 1 >= 0x8000_0000_0000_0000
                 || (fileSize + blockSize - 1) / blockSize * 40 > 0x1_0000_0000_0000
  {
  }

  /** A negative file size panics exactly if it is below minus two blocks, give or take one byte. */
  lemma NegativeSizePanics(blockSize: nat, fileSize: int64)
    requires 1 <= blockSize < TWO_32 && fileSize < 0
    ensures SizingPanics(blockSize, fileSize) <==> fileSize + 2 * blockSize - 1 <= 0
  {
    var total := fileSize + blockSize - 1;
    if 0 <= total {
      QuotientIsUnique(total, blockSize, 0, total);
    }
  }

  /** Headers that end decoding in a panic, and one beside them that does not. */
  lemma PanickingHeaders()
    ensures DecodeSig(EncodeSig(Sig(0, 0, []))) == Panicked
    ensures DecodeSig(EncodeSig(Sig(4096, -8191, []))) == Panicked
    ensures DecodeSig(EncodeSig(Sig(4096, -8190, []))) == Present(Sig(4096, -8190, []))
    ensures DecodeSig(EncodeSig(Sig(1, TWO_63 - 1, []))) == Panicked
  {
    DecodePanics(Sig(0, 0, []));
    DecodePanics(Sig(4096, -8191, []));
    NegativeSizePanics(4096, -8191);
    NegativeSizePanics(4096, -8190);
    SignatureRoundTrip(Sig(4096, -8190, []));
    DecodePanics(Sig(1, TWO_63 - 1, []));
  }

  // ------------------------------------------------------------------------------------------
  // Signing a file
  // ------------------------------------------------------------------------------------------

  function SignBlock(sha: Bytes -> Digest, i: nat, block: Bytes): BlockSignature {
    BlockSignature(i % TWO_32, Adler.Weak(block), sha(block))
  }

  function SignBlocks(sha: Bytes -> Digest, blocks: seq<Bytes>): (r: seq<BlockSignature>)
    ensures |r| == |blocks|
  {
    seq(|blocks|, i requires 0 <= i < |blocks| => SignBlock(sha, i, blocks[i]))
  }

  lemma SignBlocksAppend(sha: Bytes -> Digest, blocks: seq<Bytes>, block: Bytes)
    ensures SignBlocks(sha, blocks + [block]) == SignBlocks(sha, blocks) + [SignBlock(sha, |blocks|, block)]
  {
  }

  /** The signature of a file: one entry a block, in file order. File sizes stay below 2^63. */
  function Sign(sha: Bytes -> Digest, file: Bytes, n: nat): Sig
    requires 1 <= n && |file| < TWO_63
  {
    Sig(n, |file|, SignBlocks(sha, Split(file, n)))
  }

  /** The signature in numbers: entry `i` holds the position and both hashes of the `i`-th slice. */
  lemma SignedBlocks(sha: Bytes -> Digest, file: Bytes, n: nat)
    requires 1 <= n && |file| < TWO_63
    ensures var sig := Sign(sha, file, n);
            && sig.blockSize == n && sig.fileSize == |file| && |sig.blocks| == (|file| + n - 1) / n
            && forall i :: 0 <= i < |sig.blocks| ==>
                 && 0 <= i * n < |file|
                 && sig.blocks[i].index == i % 0x1_0000_0000
                 && sig.blocks[i].weak == Adler.Weak(file[i * n..Min(|file|, i * n + n)])
                 && sig.blocks[i].strong == sha(file[i * n..Min(|file|, i * n + n)])
  {
    SplitAt(file, n);
    hide Adler.Weak, Split;
    var sig := Sign(sha, file, n);
    forall i | 0 <= i < |sig.blocks| ensures sig.blocks[i] == SignBlock(sha, i, Split(file, n)[i]) {}
  }

  method ComputeBlockSignature(sha: Bytes -> Digest, data: Bytes) returns (weak: uint32, strong: Digest)
    ensures weak == Adler.Weak(data) && strong == sha(data)
  {
    var h := Adler.Sums(1, 0);
    for i := 0 to |data|
      invariant h == Adler.Hash(data[..i])
    {
      Adler.HashPrefix(data, i);
      h := Adler.Step(h, data[i]);
    }
    assert data[..|data|] == data;
    Adler.HashBounds(data);
    weak, strong := h.Packed(), sha(data);
  }

  /** Reads and signs the next block; `signed` are the blocks signed before. */
  method SignNext(sha: Bytes -> Digest, r: Reader, buf: array<byte>, sig: Signature, index: uint32,
                  ghost signed: seq<Bytes>)
    returns (got: nat, status: FullRead, ghost signed': seq<Bytes>)
    requires r.Valid() && 1 <= buf.Length && sig.Valid()
    requires |r.data| < TWO_63 && sig.fileSize == r.pos
    requires sig.blocks == SignBlocks(sha, signed) && index == |signed| % TWO_32
    modifies r, buf, sig
    ensures r.Valid() && sig.Valid() && sig.fileSize == r.pos == old(r.pos) + got
    ensures got == Min(buf.Length, |r.data| - old(r.pos))
    ensures status == if got == buf.Length then Complete
                      else if r.fails then ReadError
                      else if got == 0 then NothingLeft else CutShort
    ensures sig.blocks == SignBlocks(sha, signed')
    ensures |signed'| == |signed| + if got > 0 then 1 else 0
    ensures signed' + Split(r.data[r.pos..], buf.Length) == signed + Split(r.data[old(r.pos)..], buf.Length)
  {
    got, status := r.ReadFull(buf);
    signed' := signed;
    if got > 0 {
      var block := buf[..got];
      sig.Append(sha, index, block, signed);
      signed' := signed + [block];
      SplitNext(r.data, old(r.pos), buf.Length);
      assert [block] + Split(r.data[r.pos..], buf.Length) == Split(r.data[old(r.pos)..], buf.Length);
    }
  }

  /** Signs everything a reader delivers, one buffer at a time; fails exactly when the reader does. */
  method GenerateSignature(sha: Bytes -> Digest, r: Reader, blockSize: int) returns (result: Result<Signature>)
    requires r.Valid() && r.pos == 0 && |r.data| < TWO_63
    modifies r
    ensures result.Ok? <==> !r.fails
    ensures result.Ok? ==>
              && fresh(result.value) && result.value.Valid()
              && result.value.Model() == Sign(sha, r.data, if blockSize <= 0 then 4096 else blockSize)
  {
    hide Split, SignBlocks, Signature.Valid;
    var n: nat := if blockSize <= 0 then RollingHashes.DEFAULT_BLOCK_SIZE else blockSize;
    var buf := new byte[n];
    var sig := new Signature(n, 0);
    var blockIndex: uint32 := 0;
    ghost var signed: seq<Bytes> := [];
    var more := true;
    while more
      invariant fresh(sig) && sig.Valid() && fresh(buf) && r.Valid()
      invariant sig.fileSize == r.pos
      invariant blockIndex == |signed| % TWO_32
      invariant sig.blocks == SignBlocks(sha, signed)
      invariant signed + Split(r.data[r.pos..], n) == Split(r.data, n)
      invariant !more ==> r.pos == |r.data| && !r.fails
      decreases more, |r.data| - r.pos
    {
      var got, status;
      got, status, signed := SignNext(sha, r, buf, sig, blockIndex, signed);
      if got > 0 {
        blockIndex := (blockIndex + 1) % TWO_32;
      }
      if status == NothingLeft || status == CutShort {
        more := false;
      } else if status == ReadError {
        return Err;
      }
    }
    SplitEmpty(n);
    assert r.data[r.pos..] == [] && signed + [] == signed;
    return Ok(sig);
  }
}
