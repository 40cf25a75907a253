/** The whole delta exchange between a receiver holding an old file and a sender holding a new one. */
module Exchange {
  import opened Bytes
  import opened Deltas
  import opened Greedy
  import opened Readers
  import opened RollingHashes
  import opened Splitting
  import Adler
  import Generator
  import Signatures

  /** The receiver finds block `i` of its old file by cutting the file up. */
  function OldBlocks(file: Bytes, n: nat): Lookup
    requires 1 <= n
  {
    (i: uint32) => if i < |Split(file, n)| then Some(Split(file, n)[i]) else None
  }

  /** The window of up to `n` bytes at a position. */
  function Ahead(file: Bytes, i: nat, n: nat): Bytes
    requires i <= |file|
  {
    file[i..Min(i + n, |file|)]
  }

  /** No block of the old file shares its strong hash with a different window of the new file. */
  ghost predicate NoCollision(sha: Bytes -> Digest, oldFile: Bytes, newFile: Bytes, n: nat)
    requires 1 <= n
  {
    forall k, i :: 0 <= k < |Split(oldFile, n)| && 0 <= i < |newFile| &&
                   sha(Split(oldFile, n)[k]) == sha(Ahead(newFile, i, n))
                   ==> Split(oldFile, n)[k] == Ahead(newFile, i, n)
  }

  // ------------------------------------------------------------------------------------------
  // What fits the wire formats
  // ------------------------------------------------------------------------------------------

  lemma {:induction false} LiteralAtMost(ops: seq<Op>, i: nat)
    requires i < |ops| && ops[i].Data?
    ensures |ops[i].bytes| <= LiteralBytes(ops)
  {
    if i < |ops| - 1 {
      LiteralAtMost(ops[..|ops| - 1], i);
    }
  }

  lemma {:induction false} OneByteAnOp(ops: seq<Op>, pending: Bytes, ts: seq<Token>)
    requires forall t :: t in ts && t.Reference? ==> t.window != []
    ensures |Assemble(ops, pending, ts)| <= |ops| + |pending| + |Text(ts)|
    decreases |ts|
  {
    FlushCounts(ops, pending);
    if ts != [] {
      match ts[0]
      case Literal(b) => OneByteAnOp(ops, pending + [b], ts[1..]);
      case Reference(index, _) => OneByteAnOp(Flush(ops, pending) + [Copy(index)], [], ts[1..]);
    }
  }

  /** New files below four gigabytes always fit the 32-bit fields of a delta. */
  lemma SmallFilesFit(sha: Bytes -> Digest, sig: Signatures.Sig, newFile: Bytes)
    requires 1 <= sig.blockSize && |newFile| < TWO_32
    ensures Encodable(DeltaOf(sha, sig, newFile))
  {
    var ts := Tokens(sha, sig, newFile, false);
    var d := DeltaOf(sha, sig, newFile);
    ReferencesBacked(sha, sig, newFile, false);
    assert forall t :: t in ts && t.Reference? ==> Backed(sha, sig, t) && t.window != [];
    TokensCover(sha, sig, newFile, false);
    OneByteAnOp([], [], ts);
    DeltaAccounts(sha, sig, newFile);
    forall i | 0 <= i < |d.ops| ensures ShortLiteral(d.ops[i]) {
      if d.ops[i].Data? {
        LiteralAtMost(d.ops, i);
      }
    }
  }

  // ------------------------------------------------------------------------------------------
  // The theorem
  // ------------------------------------------------------------------------------------------

  /** Token `k` stands for the stretch of the text between its offset and the next. */
  lemma {:induction false} SpanInText(ts: seq<Token>, k: nat)
    requires k < |ts|
    ensures var p := Offset(ts, k);
            p + |Span(ts[k])| <= |Text(ts)| && Text(ts)[p..p + |Span(ts[k])|] == Span(ts[k])
  {
    hide Text, Offset, Span;
    var t, rest := ts[0], ts[1..];
    assert ts == [t] + rest;
    TextCons(t, rest);
    var head, tail := Span(t), Text(rest);
    if k == 0 {
      OffsetStart(ts);
      SliceAhead(head, tail);
    } else {
      OffsetCons(t, rest, k);
      SpanInText(rest, k - 1);
      var p := Offset(rest, k - 1);
      SliceBehind(head, tail, p, p + |Span(ts[k])|);
    }
  }

  lemma OffsetStart(ts: seq<Token>)
    ensures Offset(ts, 0) == 0
  {
    assert ts[..0] == [];
  }

  lemma SliceAhead(head: Bytes, tail: Bytes)
    ensures (head + tail)[0..|head|] == head
  {
  }

  /** Without collisions, every reference finds the very bytes it stands for. */
  lemma ReferencesServed(sha: Bytes -> Digest, oldFile: Bytes, newFile: Bytes, n: nat)
    requires 1 <= n && |oldFile| < TWO_63 && |Split(oldFile, n)| <= TWO_32
    requires NoCollision(sha, oldFile, newFile, n)
    ensures Served(OldBlocks(oldFile, n), Tokens(sha, Signatures.Sign(sha, oldFile, n), newFile, false))
  {
    var sig := Signatures.Sign(sha, oldFile, n);
    var ts := Tokens(sha, sig, newFile, false);
    ReferencesBacked(sha, sig, newFile, false);
    TokensCover(sha, sig, newFile, false);
    hide Tokens, Backed, OldBlocks, NoCollision, Offset, Text;
    forall k | 0 <= k < |ts| && ts[k].Reference?
      ensures OldBlocks(oldFile, n)(ts[k].index) == Some(ts[k].window)
    {
      SpanInText(ts, k);
      ReferenceLength(sha, sig, newFile, false, ts, k);
      var p := Offset(ts, k);
      assert Ahead(newFile, p, n) == ts[k].window;
      assert Backed(sha, sig, ts[k]);
      BackedServed(sha, oldFile, newFile, n, ts[k], p);
    }
  }

  /** A window with the hashes of a block is that block, if the two do not collide. */
  lemma BackedServed(sha: Bytes -> Digest, oldFile: Bytes, newFile: Bytes, n: nat, t: Token, p: nat)
    requires 1 <= n && |oldFile| < TWO_63 && |Split(oldFile, n)| <= TWO_32
    requires NoCollision(sha, oldFile, newFile, n) && t.Reference? && Backed(sha, Signatures.Sign(sha, oldFile, n), t)
    requires p <= |newFile| && Ahead(newFile, p, n) == t.window
    ensures OldBlocks(oldFile, n)(t.index) == Some(t.window)
  {
    hide Adler.Weak, Split;
    var blocks := Signatures.Sign(sha, oldFile, n).blocks;
    var j :| 0 <= j < |blocks| && blocks[j].index == t.index && Matches(blocks[j], Adler.Weak(t.window), sha(t.window));
    SmallModulo(j, TWO_32);
    assert blocks[j] == Signatures.SignBlock(sha, j, Split(oldFile, n)[j]);
    assert p < |newFile|;
  }

  /** Replaying the greedy delta on the old blocks spells the new file. */
  lemma DeltaReplays(sha: Bytes -> Digest, oldFile: Bytes, newFile: Bytes, n: nat)
    requires 1 <= n && |oldFile| < TWO_63 && |newFile| < TWO_63 && |Split(oldFile, n)| <= TWO_32
    requires NoCollision(sha, oldFile, newFile, n)
    ensures Replay(DeltaOf(sha, Signatures.Sign(sha, oldFile, n), newFile).ops, OldBlocks(oldFile, n)) == Some(newFile)
  {
    var sig := Signatures.Sign(sha, oldFile, n);
    var ts := Tokens(sha, sig, newFile, false);
    ReferencesServed(sha, oldFile, newFile, n);
    AssembleReplays([], [], ts, OldBlocks(oldFile, n), []);
    TokensCover(sha, sig, newFile, false);
    assert [] + [] + newFile == newFile;
  }

  /** No literal is sent where the old file had the block: wherever a literal byte has a full window ahead of it, that
      window is no block of the old file. */
  lemma LiteralsAreNew(sha: Bytes -> Digest, oldFile: Bytes, newFile: Bytes, n: nat, k: nat, j: nat)
    requires 1 <= n && |oldFile| < TWO_63 && j < |Split(oldFile, n)|
    requires var ts := Tokens(sha, Signatures.Sign(sha, oldFile, n), newFile, false);
             k < |ts| && ts[k].Literal? && Offset(ts, k) + n <= |newFile|
    ensures var p := Offset(Tokens(sha, Signatures.Sign(sha, oldFile, n), newFile, false), k);
            newFile[p..p + n] != Split(oldFile, n)[j]
  {
    hide Tokens, Offset, Find, Signatures.Sign, Split;
    var sig := Signatures.Sign(sha, oldFile, n);
    SignKeepsBlockSize(sha, oldFile, n);
    var ts := Tokens(sha, sig, newFile, false);
    LiteralsAreNeeded(sha, sig, newFile, false, ts, k);
    NotFound(sha, oldFile, n, newFile[Offset(ts, k)..Offset(ts, k) + n], j);
  }

  /** What is not found in the signature is no block of the file. */
  lemma NotFound(sha: Bytes -> Digest, oldFile: Bytes, n: nat, window: Bytes, j: nat)
    requires 1 <= n && |oldFile| < TWO_63 && j < |Split(oldFile, n)|
    requires Find(sha, Signatures.Sign(sha, oldFile, n).blocks, window) == None
    ensures window != Split(oldFile, n)[j]
  {
    var blocks := Signatures.Sign(sha, oldFile, n).blocks;
    assert blocks[j] == Signatures.SignBlock(sha, j, Split(oldFile, n)[j]);
    assert !Matches(blocks[j], Adler.Weak(window), sha(window));
  }

  /** A window that is a block of the signed file is found. */
  lemma BlockFound(sha: Bytes -> Digest, file: Bytes, n: nat, j: nat)
    requires 1 <= n && |file| < TWO_63 && j < |Split(file, n)|
    ensures Find(sha, Signatures.Sign(sha, file, n).blocks, Split(file, n)[j]).Some?
  {
    hide Split, Adler.Weak;
    var blocks := Signatures.Sign(sha, file, n).blocks;
    var block := Split(file, n)[j];
    assert blocks[j] == Signatures.SignBlock(sha, j, block);
    assert Matches(blocks[j], Adler.Weak(block), sha(block));
  }

  /** From block `j` of an unchanged file on, everything is copied, the short tail only behind a full block. */
  lemma {:induction false} UnchangedFrom(sha: Bytes -> Digest, file: Bytes, n: nat, j: nat, afterCopy: bool)
    requires 1 <= n && |file| < TWO_63 && j * n <= |file| && (afterCopy || j * n + n <= |file|)
    ensures forall t :: t in Tokens(sha, Signatures.Sign(sha, file, n), file[j * n..], afterCopy) ==> t.Reference?
    decreases |file| - j * n
  {
    hide Find, Split, Signatures.Sign;
    var sig, rest := Signatures.Sign(sha, file, n), file[j * n..];
    SignKeepsBlockSize(sha, file, n);
    if rest != [] {
      BlockAhead(file, n, j);
      BlockFound(sha, file, n, j);
      if |rest| >= n {
        assert (j + 1) * n == j * n + n;
        assert rest[..n] == file[j * n..j * n + n] && rest[n..] == file[(j + 1) * n..];
        UnchangedFrom(sha, file, n, j + 1, true);
      } else {
        assert file[j * n..|file|] == rest;
      }
    }
  }

  lemma BlockAhead(file: Bytes, n: nat, j: nat)
    requires 1 <= n && j * n < |file|
    ensures j < |Split(file, n)| && Split(file, n)[j] == file[j * n..Min(|file|, j * n + n)]
  {
    SplitAt(file, n);
    hide Split, CeilDiv;
    CeilDivCovers(|file|, n);
    if j >= CeilDiv(|file|, n) {
      ProductBounded(CeilDiv(|file|, n), n, j, n);
    }
  }

  /** The delta of an unchanged file carries no byte of it, unless the file is shorter than a block: then it carries
      all of it. */
  lemma UnchangedCostsNothing(sha: Bytes -> Digest, file: Bytes, n: nat)
    requires 1 <= n && |file| < TWO_63
    ensures DeltaOf(sha, Signatures.Sign(sha, file, n), file).bytesLiteral == if |file| < n then |file| else 0
  {
    var sig := Signatures.Sign(sha, file, n);
    var ts := Tokens(sha, sig, file, false);
    DeltaAccounts(sha, sig, file);
    TokensCover(sha, sig, file, false);
    if |file| < n {
      CountLiterals(file);
    } else {
      assert 0 * n == 0 && file[0..] == file;
      UnchangedFrom(sha, file, n, 0, false);
      forall k | 0 <= k < |ts| ensures ts[k].Reference? {
        assert ts[k] in ts;
      }
      AllCopied(ts);
    }
  }

  /** Sign the old file, send the signature, generate the delta, send it, apply it to the old blocks.
      If that reports success, the bytes written have the length and the hash of the new file, whatever
      collides. If no old block collides with a window of the new file, it reports success and the bytes
      written are the new file. */
  method Exchange(sha: Bytes -> Digest, oldFile: Bytes, newFile: Bytes, n: nat)
    returns (status: Applied, written: Bytes)
    requires 1 <= n <= MAX_BLOCK_SIZE && |oldFile| < TWO_63
    requires CeilDiv(|oldFile|, n) < TWO_32 && |newFile| < TWO_32
    ensures status == Done ==> |written| == |newFile| && sha(written) == sha(newFile)
    ensures NoCollision(sha, oldFile, newFile, n) ==> status == Done && written == newFile
  {
    hide Signatures.Sign, Greedy.DeltaOf, Signatures.Encodable, Deltas.Encodable;
    ghost var model := Signatures.Sign(sha, oldFile, n);
    SignatureFits(sha, oldFile, n);
    SignKeepsBlockSize(sha, oldFile, n);
    SmallFilesFit(sha, model, newFile);
    // The receiver.
    var reader := new Reader(oldFile, false);
    var signed := Signatures.GenerateSignature(sha, reader, n);
    var wire := signed.value.Encode();
    Signatures.SignatureRoundTrip(model);
    // The sender.
    var received := Signatures.DecodeSignature(wire[..]);
    var input := new Reader(newFile, false);
    var generated := Generator.GenerateDelta(sha, input, received.value);
    var delta := generated.delta;
    var bytes := Encode(delta);
    DeltaRoundTrip(delta);
    // The receiver.
    var decoded := Decode(bytes);
    status, written := ApplyDelta(sha, decoded.value, OldBlocks(oldFile, n));
    Generator.DeltaHeader(sha, model, newFile);
    if NoCollision(sha, oldFile, newFile, n) {
      assert |Split(oldFile, n)| <= TWO_32 by { EncodableBlocks(sha, oldFile, n); }
      DeltaReplays(sha, oldFile, newFile, n);
    }
  }

  lemma SignKeepsBlockSize(sha: Bytes -> Digest, file: Bytes, n: nat)
    requires 1 <= n && |file| < TWO_63
    ensures Signatures.Sign(sha, file, n).blockSize == n
  {
  }

  lemma EncodableBlocks(sha: Bytes -> Digest, file: Bytes, n: nat)
    requires 1 <= n && |file| < TWO_63 && Signatures.Encodable(Signatures.Sign(sha, file, n))
    ensures |Split(file, n)| < TWO_32
  {
  }

  /** A signature fits its wire format exactly when the number of blocks fits 32 bits. */
  lemma SignatureFits(sha: Bytes -> Digest, file: Bytes, n: nat)
    requires 1 <= n <= MAX_BLOCK_SIZE && |file| < TWO_63
    ensures Signatures.Encodable(Signatures.Sign(sha, file, n)) <==> CeilDiv(|file|, n) < TWO_32
  {
    SplitAt(file, n);
    var q := CeilDiv(|file|, n);
    hide Split, Signatures.SignBlocks, CeilDiv;
    if q < TWO_32 {
      CeilDivCovers(|file|, n);
      ProductBounded(q, n, TWO_32, MAX_BLOCK_SIZE);
    }
  }

  lemma ProductBounded(x: nat, y: nat, xMax: nat, yMax: nat)
    requires x <= xMax && y <= yMax
    ensures x * y <= xMax * yMax
  {
    assert x * y <= xMax * y;
  }

  /** Whatever base a generated delta is applied to, and whatever the signature it was made from: success
      means the bytes written have the new file's length and hash, so they are the new file unless the
      two collide. */
  method ApplyToAnyBase(sha: Bytes -> Digest, sig: Signatures.Signature, newFile: Bytes, base: Lookup)
    returns (status: Applied, written: Bytes)
    requires sig.Valid() && 1 <= sig.blockSize <= MAX_BLOCK_SIZE && |newFile| < TWO_63
    ensures status == Done ==> |written| == |newFile| && sha(written) == sha(newFile)
    ensures Replay(Ops(sha, sig.Model(), newFile), base) == Some(newFile) ==> status == Done && written == newFile
  {
    var input := new Reader(newFile, false);
    var generated := Generator.GenerateDelta(sha, input, sig);
    status, written := ApplyDelta(sha, generated.delta, base);
  }

  lemma NoReferences(sha: Bytes -> Digest, sig: Signatures.Sig, s: Bytes, base: Lookup)
    requires 1 <= sig.blockSize && sig.blocks == []
    ensures Replay(Ops(sha, sig, s), base) == Some(s)
  {
    var ts := Tokens(sha, sig, s, false);
    ReferencesBacked(sha, sig, s, false);
    assert forall t :: t in ts && t.Reference? ==> Backed(sha, sig, t);
    AssembleReplays([], [], ts, base, []);
    TokensCover(sha, sig, s, false);
    assert [] + [] + s == s;
  }

  /** For a block larger than the window nobody notices the bytes that the first fill drops: against an empty old
      file, the delta of every file of at least one block is applied with success, and what is written lacks them. */
  method LossUnnoticed(sha: Bytes -> Digest, newFile: Bytes, n: nat, base: Lookup)
    returns (status: Applied, written: Bytes)
    requires MAX_BLOCK_SIZE < n <= |newFile| < TWO_63
    ensures status == Done && written == newFile[..MAX_BLOCK_SIZE] + newFile[n..]
  {
    hide Greedy.DeltaOf;
    var input := new Reader(newFile, false);
    var sig := new Signatures.Signature(n, 0);
    var generated := Generator.GenerateDelta(sha, input, sig);
    ghost var model := Generator.Sized(sig.Model(), MAX_BLOCK_SIZE);
    ghost var rest := Generator.Remains(newFile, n);
    status, written := ApplyDelta(sha, generated.delta, base);
    Generator.DeltaHeader(sha, model, rest);
    NoReferences(sha, model, rest, base);
    assert DeltaOf(sha, model, rest).ops == Ops(sha, model, rest) by { DeltaOps(sha, model, rest); }
  }

  lemma DeltaOps(sha: Bytes -> Digest, sig: Signatures.Sig, s: Bytes)
    requires 1 <= sig.blockSize && |s| < TWO_63
    ensures DeltaOf(sha, sig, s).ops == Ops(sha, sig, s)
  {
  }
}
