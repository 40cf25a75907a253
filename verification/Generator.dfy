/** The streaming delta generator: one pass over the new file with a sliding window. */
module Generator {
  import opened Bytes
  import opened Deltas
  import opened Greedy
  import opened Readers
  import opened RollingHashes
  import opened Signatures
  import Adler

  // ------------------------------------------------------------------------------------------
  // The accumulators
  // ------------------------------------------------------------------------------------------

  /** What the generator has accumulated: operations, pending literal bytes, statistics, the number of
      bytes handled and the input of the whole-file hash. */
  datatype Work = Work(
    ops: seq<Op>,
    pending: Bytes,
    blocksCopied: nat,
    bytesCopied: nat,
    bytesLiteral: nat,
    total: nat,
    hashed: Bytes)
  {
    function AddLiteral(s: Bytes): Work {
      this.(pending := pending + s, total := total + |s|, hashed := hashed + s)
    }

    /** Pending literals go out as one operation. */
    function FlushPending(): Work {
      if pending == [] then this
      else this.(ops := ops + [Data(pending)], bytesLiteral := bytesLiteral + |pending|, pending := [])
    }

    /** A copy of a window. The statistics count a whole block, which a full window need not be. */
    function AddCopy(index: uint32, window: Bytes, counted: nat): Work {
      var w := FlushPending();
      w.(ops := w.ops + [Copy(index)], blocksCopied := blocksCopied + 1,
         bytesCopied := bytesCopied + counted, total := total + |window|, hashed := hashed + window)
    }

    function ToDelta(sha: Bytes -> Digest): Delta
      requires total < TWO_63
    {
      Delta(ops, total, sha(hashed), blocksCopied, bytesCopied, bytesLiteral)
    }
  }

  const START := Work([], [], 0, 0, 0, 0, [])

  /** With the choices `todo` still to make, the accumulators hold the rest of `all`. */
  ghost predicate Progress(w: Work, todo: seq<Token>, all: seq<Token>) {
    && Assemble(w.ops, w.pending, todo) == Assemble([], [], all)
    && w.blocksCopied + References(todo) == References(all)
    && w.bytesCopied + CopiedBytes(todo) == CopiedBytes(all)
    && w.bytesLiteral == LiteralBytes(w.ops)
  }

  /** The `n` bytes of the input from `pos` on. */
  function Block(input: Bytes, pos: nat, n: nat): (s: Bytes)
    requires pos + n <= |input|
    ensures |s| == n
  {
    input[pos..pos + n]
  }

  /** With the input handled up to `pos`, going on greedily ends where a greedy run from the start ends, and
      what was handled so far is hashed and counted. */
  ghost predicate OnTrack(w: Work, sha: Bytes -> Digest, sig: Sig, input: Bytes, pos: nat, afterCopy: bool)
    requires 1 <= sig.blockSize
  {
    && pos <= |input| && w.hashed == input[..pos] && w.total == pos
    && Progress(w, Tokens(sha, sig, input[pos..], afterCopy), Tokens(sha, sig, input, false))
  }

  /** A reference moves from the choices still to make into the accumulators. */
  lemma ReferenceStep(w: Work, index: uint32, window: Bytes, todo: seq<Token>, all: seq<Token>)
    requires Progress(w, [Reference(index, window)] + todo, all)
    ensures Progress(w.AddCopy(index, window, |window|), todo, all)
  {
    AssembleReference(w.ops, w.pending, index, window, todo);
    CountCons(Reference(index, window), todo);
    FlushCounts(w.ops, w.pending);
    CopyCounts(Flush(w.ops, w.pending), index);
  }

  lemma LiteralStep(w: Work, b: byte, todo: seq<Token>, all: seq<Token>)
    requires Progress(w, [Literal(b)] + todo, all)
    ensures Progress(w.AddLiteral([b]), todo, all)
  {
    AssembleLiteral(w.ops, w.pending, b, todo);
    CountCons(Literal(b), todo);
  }

  lemma LiteralsStep(w: Work, s: Bytes, all: seq<Token>)
    requires Progress(w, Literals(s), all)
    ensures Progress(w.AddLiteral(s), [], all)
  {
    AssembleLiterals(w.ops, w.pending, s);
    CountLiterals(s);
  }

  lemma CopyOnTrack(w: Work, sha: Bytes -> Digest, sig: Sig, input: Bytes, pos: nat, afterCopy: bool, j: nat)
    requires 1 <= sig.blockSize && pos + sig.blockSize <= |input| && OnTrack(w, sha, sig, input, pos, afterCopy)
    requires Find(sha, sig.blocks, Block(input, pos, sig.blockSize)) == Some(j)
    ensures OnTrack(w.AddCopy(sig.blocks[j].index, Block(input, pos, sig.blockSize), sig.blockSize), sha, sig, input,
                    pos + sig.blockSize, true)
  {
    hide Progress, Find;
    var n, index, window := sig.blockSize, sig.blocks[j].index, Block(input, pos, sig.blockSize);
    var rest, after := input[pos..], input[pos + n..];
    assert rest[..n] == window && rest[n..] == after;
    var todo := Tokens(sha, sig, after, true);
    assert Tokens(sha, sig, rest, afterCopy) == [Reference(index, window)] + todo;
    hide Tokens;
    ReferenceStep(w, index, window, todo, Tokens(sha, sig, input, false));
    assert input[..pos] + window == input[..pos + n];
  }

  lemma LiteralOnTrack(w: Work, sha: Bytes -> Digest, sig: Sig, input: Bytes, pos: nat, afterCopy: bool)
    requires 1 <= sig.blockSize && pos + sig.blockSize <= |input| && OnTrack(w, sha, sig, input, pos, afterCopy)
    requires Find(sha, sig.blocks, Block(input, pos, sig.blockSize)) == None
    ensures OnTrack(w.AddLiteral([input[pos]]), sha, sig, input, pos + 1, false)
  {
    hide Progress, Find;
    var n, rest, after := sig.blockSize, input[pos..], input[pos + 1..];
    assert rest[..n] == Block(input, pos, n) && rest[0] == input[pos] && rest[1..] == after;
    var todo := Tokens(sha, sig, after, false);
    assert Tokens(sha, sig, rest, afterCopy) == [Literal(input[pos])] + todo;
    hide Tokens;
    LiteralStep(w, input[pos], todo, Tokens(sha, sig, input, false));
    assert input[..pos] + [input[pos]] == input[..pos + 1];
  }

  /** The end of the file, shorter than a block: a copy if it was looked up and found, else literal. */
  lemma TailLiteralOnTrack(w: Work, sha: Bytes -> Digest, sig: Sig, input: Bytes, pos: nat, afterCopy: bool)
    requires pos <= |input| < pos + sig.blockSize && OnTrack(w, sha, sig, input, pos, afterCopy)
    requires !afterCopy || pos == |input| || Find(sha, sig.blocks, input[pos..]) == None
    ensures OnTrack(w.AddLiteral(input[pos..]), sha, sig, input, |input|, false)
  {
    hide Progress, Find;
    var rest := input[pos..];
    LiteralsStep(w, rest, Tokens(sha, sig, input, false));
    assert input[..pos] + rest == input[..|input|];
    assert input[|input|..] == [] && Tokens(sha, sig, [], false) == [];
  }

  lemma TailCopyOnTrack(w: Work, sha: Bytes -> Digest, sig: Sig, input: Bytes, pos: nat, j: nat)
    requires pos < |input| < pos + sig.blockSize && OnTrack(w, sha, sig, input, pos, true)
    requires Find(sha, sig.blocks, input[pos..]) == Some(j)
    ensures OnTrack(w.AddCopy(sig.blocks[j].index, input[pos..], |input| - pos), sha, sig, input, |input|, false)
  {
    hide Progress, Find;
    var index, rest := sig.blocks[j].index, input[pos..];
    assert Tokens(sha, sig, rest, true) == [Reference(index, rest)] + [];
    ReferenceStep(w, index, rest, [], Tokens(sha, sig, input, false));
    assert input[..pos] + rest == input[..|input|];
    assert input[|input|..] == [] && Tokens(sha, sig, [], false) == [];
  }

  lemma StartOnTrack(sha: Bytes -> Digest, sig: Sig, input: Bytes)
    requires 1 <= sig.blockSize
    ensures OnTrack(START, sha, sig, input, 0, false)
  {
    assert input[0..] == input;
  }

  lemma Finished(w: Work, sha: Bytes -> Digest, sig: Sig, input: Bytes)
    requires 1 <= sig.blockSize && |input| < TWO_63 && OnTrack(w, sha, sig, input, |input|, false)
    ensures w.total == |input| && w.FlushPending().ToDelta(sha) == DeltaOf(sha, sig, input)
  {
    assert input[|input|..] == [] && Tokens(sha, sig, [], false) == [];
    assert input[..|input|] == input;
    FlushCounts(w.ops, w.pending);
  }

  // ------------------------------------------------------------------------------------------
  // The loops
  // ------------------------------------------------------------------------------------------

  datatype Ending = Filled | AtEnd | Broken | Crashed

  /** Reads up to `n` bytes into an empty window. A window of the buffer's size that is smaller than `n` keeps the
      first bytes and drops the others. */
  method Fill(rh: RollingHash, r: Reader, n: nat) returns (i: nat, ending: Ending)
    requires rh.Shape() && rh.count == 0 && r.Valid()
    modifies rh, rh.window, r
    ensures rh.Shape() && rh.blockSize == old(rh.blockSize) && r.Valid()
    ensures i <= n && r.pos == old(r.pos) + i && rh.count == Min(i, rh.blockSize)
    ensures ending == Filled ==> i == n
    ensures ending == AtEnd ==> i < n && r.pos == |r.data| && !r.fails
    ensures ending == Broken ==> i < n && r.pos == |r.data| && r.fails
    ensures old(rh.Valid()) && old(rh.fed) == [] ==>
              && ending != Crashed && rh.Valid()
              && rh.fed == r.data[old(r.pos)..old(r.pos) + Min(i, rh.blockSize)]
  {
    hide RollingHash.Valid;
    i := 0;
    ghost var p, cap, snug := r.pos, rh.blockSize, rh.Valid() && rh.fed == [];
    while i < n
      invariant rh.Shape() && rh.blockSize == cap && r.Valid()
      invariant i <= n && r.pos == p + i && rh.count == Min(i, cap)
      invariant snug ==> rh.Valid() && rh.fed == r.data[p..p + Min(i, cap)]
    {
      var b := r.ReadByte();
      match b
      case EndOfFile =>
        return i, AtEnd;
      case Failed =>
        return i, Broken;
      case Got(x) =>
        var _, ok := rh.RollIn(x);
        assert i < cap ==> r.data[p..p + i] + [x] == r.data[p..p + i + 1];
        i := i + 1;
        if !ok {
          return i, Crashed;
        }
    }
    ending := Filled;
  }

  /** The first candidate with the strong hash is the lowest block with both hashes... */
  lemma FirstCandidate(sha: Bytes -> Digest, blocks: seq<BlockSignature>, window: Bytes, candidates: seq<nat>, k: nat)
    requires Scans(candidates, blocks, Adler.Weak(window)) && k < |candidates|
    requires blocks[candidates[k]].strong == sha(window)
    requires forall l :: 0 <= l < k ==> blocks[candidates[l]].strong != sha(window)
    ensures Find(sha, blocks, window) == Some(candidates[k])
  {
    hide Adler.Weak;
    var weak, strong := Adler.Weak(window), sha(window);
    forall j | 0 <= j < candidates[k] ensures !Matches(blocks[j], weak, strong) {
      if blocks[j].weak == weak {
        var l :| 0 <= l < |candidates| && candidates[l] == j;
        assert l < k;
      }
    }
    assert Matches(blocks[candidates[k]], weak, strong);
  }

  /** ... and if no candidate has it, no block has both. */
  lemma NoCandidate(sha: Bytes -> Digest, blocks: seq<BlockSignature>, window: Bytes, candidates: seq<nat>)
    requires Scans(candidates, blocks, Adler.Weak(window))
    requires forall l :: 0 <= l < |candidates| ==> blocks[candidates[l]].strong != sha(window)
    ensures Find(sha, blocks, window) == None
  {
    hide Adler.Weak;
    forall j | 0 <= j < |blocks| ensures !Matches(blocks[j], Adler.Weak(window), sha(window)) {
      if blocks[j].weak == Adler.Weak(window) {
        var l :| 0 <= l < |candidates| && candidates[l] == j;
      }
    }
  }

  /** The index of the first candidate, in index order, whose strong hash is that of the window. */
  method FindMatch(sha: Bytes -> Digest, sig: Signature, ghost weak: uint32, candidates: seq<nat>, window: Bytes)
    returns (m: Option<nat>)
    requires sig.Valid() && Scans(candidates, sig.blocks, weak)
    ensures m.Some? ==> m.value < |sig.blocks|
    ensures weak == Adler.Weak(window) ==> m == Find(sha, sig.blocks, window)
  {
    hide Find, Signature.Valid, Adler.Weak;
    if |candidates| > 0 {
      var _, strong := ComputeBlockSignature(sha, window);
      for k := 0 to |candidates|
        invariant forall l :: 0 <= l < k ==> sig.blocks[candidates[l]].strong != strong
      {
        var block := sig.GetBlock(candidates[k]);
        if block.Some? && strong == block.value.strong {
          if weak == Adler.Weak(window) {
            FirstCandidate(sha, sig.blocks, window, candidates, k);
          }
          return Some(candidates[k]);
        }
      }
    }
    if weak == Adler.Weak(window) {
      NoCandidate(sha, sig.blocks, window, candidates);
    }
    return None;
  }

  /** Looks the full window up. It is copied out only if its weak hash has candidates. */
  method MatchWindow(sha: Bytes -> Digest, sig: Signature, rh: RollingHash)
    returns (m: Option<nat>, window: Bytes, ok: bool)
    requires sig.Valid() && rh.Shape() && rh.count == rh.blockSize
    ensures m.Some? ==> ok && m.value < |sig.blocks| && |window| == rh.blockSize
    ensures rh.Valid() ==> ok && m == Find(sha, sig.blocks, Last(rh.fed, rh.blockSize))
    ensures rh.Valid() && m.Some? ==> window == Last(rh.fed, rh.blockSize)
    ensures sig.blocks == [] ==> ok && m == None
  {
    hide Find, Positions, Signature.Valid, Adler.Weak, RollingHash.Valid, Last;
    var weak := rh.Sum();
    var candidates := sig.FindByWeakHash(weak);
    PositionsScan(sig.blocks, weak);
    if |candidates| == 0 {
      if rh.Valid() {
        NoCandidate(sha, sig.blocks, Last(rh.fed, rh.blockSize), candidates);
      }
      return None, [], true;
    }
    assert candidates[0] < |sig.blocks|;
    var copied, copiedOk := rh.Window();
    if !copiedOk {
      return None, [], false;
    }
    window := copied[..];
    assert copied[..rh.count] == window;
    m := FindMatch(sha, sig, weak, candidates, window);
    return m, window, true;
  }

  // ------------------------------------------------------------------------------------------
  // The state of the main loop
  // ------------------------------------------------------------------------------------------

  /** The window is full, and every byte read has been handled, is in the window, or is one of the `lost` ones. */
  ghost predicate Full(work: Work, rh: RollingHash, r: Reader, lost: nat)
    reads rh, r
  {
    rh.Shape() && r.Valid() && rh.count == rh.blockSize && work.total + rh.blockSize + lost == r.pos
  }

  /** From `pos` on, the input is what there is to see. */
  ghost predicate Seen(seen: Bytes, data: Bytes, pos: nat, lost: nat) {
    lost <= pos <= |data| && |seen| + lost == |data| && seen[pos - lost..] == data[pos..]
  }

  /** The window is the last block of what was read and not lost. */
  ghost predicate Aligned(rh: RollingHash, r: Reader, seen: Bytes, lost: nat)
    reads rh, r
  {
    && Seen(seen, r.data, r.pos, lost) && rh.blockSize + lost <= r.pos && rh.blockSize <= |rh.fed|
    && Last(rh.fed, rh.blockSize) == Block(seen, r.pos - lost - rh.blockSize, rh.blockSize)
  }

  /** The run so far is a greedy run over what there is to see, with blocks of the window's size. */
  ghost predicate Tracked(work: Work, sha: Bytes -> Digest, sig: Sig, rh: RollingHash, r: Reader,
                          seen: Bytes, lost: nat, afterCopy: bool)
    reads rh, rh.window, r
  {
    && rh.Valid() && Aligned(rh, r, seen, lost)
    && OnTrack(work, sha, Sized(sig, rh.blockSize), seen, r.pos - lost - rh.blockSize, afterCopy)
  }

  ghost function Sized(sig: Sig, n: nat): Sig {
    sig.(blockSize := n)
  }

  lemma SlideAligned(seen: Bytes, data: Bytes, pos: nat, lost: nat, fed: Bytes, n: nat)
    requires Seen(seen, data, pos, lost) && pos < |data| && 1 <= n <= |fed| && n + lost <= pos
    requires Last(fed, n) == Block(seen, pos - lost - n, n)
    ensures Last(fed + [data[pos]], n) == Block(seen, pos + 1 - lost - n, n)
    ensures Seen(seen, data, pos + 1, lost)
  {
    var at := pos - lost;
    assert seen[at] == seen[at..][0] == data[pos..][0] == data[pos];
    assert seen[at + 1..] == seen[at..][1..] == data[pos..][1..] == data[pos + 1..];
    LastPush(fed, data[pos], n);
    assert Block(seen, at - n, n)[1..] + [seen[at]] == Block(seen, at + 1 - n, n);
  }

  lemma FilledAligned(data: Bytes, pos: nat, fed: Bytes, n: nat)
    requires pos + n <= |data| && fed == data[pos..pos + n]
    ensures Last(fed, n) == Block(data, pos, n)
  {
  }

  /** The window is full and block `j` matches it: the window becomes a copy. */
  method CopyOn(sha: Bytes -> Digest, sig: Signature, rh: RollingHash, r: Reader, work: Work, window: Bytes, j: nat,
                ghost lost: nat, ghost tracked: bool, ghost afterCopy: bool)
    returns (work': Work, ending: Ending)
    requires sig.Valid() && 1 <= sig.blockSize && Full(work, rh, r, lost)
    requires |window| == rh.blockSize && j < |sig.blocks|
    requires tracked ==>
               && rh.blockSize == sig.blockSize && lost == 0 && window == Last(rh.fed, rh.blockSize)
               && Tracked(work, sha, sig.Model(), rh, r, r.data, 0, afterCopy)
               && Find(sha, sig.blocks, window) == Some(j)
    modifies rh, rh.window, r
    ensures Went(work', ending, rh, r, lost) && (ending == Filled ==> r.pos == old(r.pos) + sig.blockSize)
    ensures tracked ==>
              && ending != Crashed && rh.blockSize == sig.blockSize
              && (ending == Filled ==> Tracked(work', sha, sig.Model(), rh, r, r.data, 0, true))
              && (ending == AtEnd ==> OnTrack(work', sha, sig.Model(), r.data, |r.data|, false))
  {
    hide RollingHash.Valid, Signature.Valid, OnTrack, Find, Last, Block;
    work' := work.AddCopy(sig.blocks[j].index, window, sig.blockSize);
    if tracked {
      CopyOnTrack(work, sha, sig.Model(), r.data, r.pos - sig.blockSize, afterCopy, j);
    }
    work', ending := AfterMatch(sha, sig, rh, r, work', lost, tracked);
  }

  /** Where a step of the main loop can end. */
  ghost predicate Went(work: Work, ending: Ending, rh: RollingHash, r: Reader, lost: nat)
    reads rh, r
  {
    && rh.Shape() && r.Valid()
    && (ending == Filled ==> Full(work, rh, r, lost))
    && (ending == AtEnd ==> !r.fails && work.total + lost == |r.data|)
    && (ending == Broken ==> r.fails)
  }

  /** Everything after a match: restart the window on the following bytes; if the file ends inside it, try the short
      rest against the signature once, else keep it as a literal. */
  method AfterMatch(sha: Bytes -> Digest, sig: Signature, rh: RollingHash, r: Reader, work: Work,
                    ghost lost: nat, ghost tracked: bool)
    returns (work': Work, ending: Ending)
    requires sig.Valid() && 1 <= sig.blockSize && rh.Shape() && r.Valid() && work.total + lost == r.pos
    requires tracked ==>
               && sig.blockSize == rh.window.Length && lost == 0
               && OnTrack(work, sha, sig.Model(), r.data, r.pos, true)
    modifies rh, rh.window, r
    ensures Went(work', ending, rh, r, lost) && rh.blockSize == sig.blockSize
    ensures ending == Filled ==> r.pos == old(r.pos) + sig.blockSize
    ensures tracked ==>
              && ending != Crashed
              && (ending == Filled ==> Tracked(work', sha, sig.Model(), rh, r, r.data, 0, true))
              && (ending == AtEnd ==> OnTrack(work', sha, sig.Model(), r.data, |r.data|, false))
  {
    hide RollingHash.Valid, Signature.Valid, OnTrack, Find, Last, Block;
    ghost var start := r.pos;
    work' := work;
    rh.Reset(sig.blockSize);
    var count;
    count, ending := Fill(rh, r, sig.blockSize);
    if ending == AtEnd {
      var ok;
      work', ok := FinishPartial(sha, sig, rh, work, count, r.data, start, tracked);
      if !ok {
        ending := Crashed;
      }
    } else if ending == Filled && tracked {
      FilledAligned(r.data, start, rh.fed, sig.blockSize);
    }
  }

  method MatchTail(sha: Bytes -> Digest, sig: Signature, partial: Bytes) returns (m: Option<nat>)
    requires sig.Valid()
    ensures m == Find(sha, sig.blocks, partial)
  {
    hide Find, Positions, Signature.Valid, Adler.Weak;
    var weak, _ := ComputeBlockSignature(sha, partial);
    var candidates := sig.FindByWeakHash(weak);
    PositionsScan(sig.blocks, weak);
    m := FindMatch(sha, sig, weak, candidates, partial);
  }

  /** The window holds the last, partial block of the file. */
  method FinishPartial(sha: Bytes -> Digest, sig: Signature, rh: RollingHash, work: Work, partialCount: nat,
                       ghost input: Bytes, ghost pos: nat, ghost tracked: bool)
    returns (work': Work, ok: bool)
    requires sig.Valid() && rh.Shape() && partialCount == rh.count < sig.blockSize == rh.blockSize
    requires tracked ==>
               && rh.Valid() && pos <= |input| && rh.fed == input[pos..]
               && OnTrack(work, sha, sig.Model(), input, pos, true)
    ensures ok ==> work'.total == work.total + partialCount
    ensures tracked ==> ok && OnTrack(work', sha, sig.Model(), input, |input|, false)
  {
    if tracked {
      assert Last(rh.fed, rh.blockSize) == rh.fed;
    }
    hide RollingHash.Valid, Signature.Valid, OnTrack, Find, Last, Work.FlushPending;
    if partialCount > 0 {
      var window, copied := rh.Window();
      if !copied {
        return work, false;
      }
      var partial := window[..partialCount];
      var m := MatchTail(sha, sig, partial);
      if m.Some? {
        if tracked {
          TailCopyOnTrack(work, sha, sig.Model(), input, pos, m.value);
        }
        work' := work.AddCopy(sig.blocks[m.value].index, partial, partialCount);
      } else {
        if tracked {
          TailLiteralOnTrack(work, sha, sig.Model(), input, pos, true);
        }
        work' := work.AddLiteral(partial);
      }
    } else {
      if tracked {
        TailLiteralOnTrack(work, sha, sig.Model(), input, pos, true);
        assert work.AddLiteral(input[pos..]) == work;
      }
      work' := work;
    }
    ok := true;
  }

  /** The window is full and nothing matches: its oldest byte becomes a literal and the window slides, or,
      at the end of the file, all of it becomes literal. */
  method SlideOn(sha: Bytes -> Digest, ghost sig: Sig, rh: RollingHash, r: Reader, work: Work,
                 ghost seen: Bytes, ghost lost: nat, ghost tracked: bool, ghost afterCopy: bool)
    returns (work': Work, ending: Ending)
    requires Full(work, rh, r, lost)
    requires tracked ==>
               && Tracked(work, sha, sig, rh, r, seen, lost, afterCopy)
               && Find(sha, sig.blocks, Last(rh.fed, rh.blockSize)) == None
    modifies rh, rh.window, r
    ensures Went(work', ending, rh, r, lost) && rh.blockSize == old(rh.blockSize)
    ensures ending == Filled ==> r.pos == old(r.pos) + 1
    ensures tracked ==>
              && ending != Crashed
              && (ending == Filled ==> Tracked(work', sha, sig, rh, r, seen, lost, false))
              && (ending == AtEnd ==> OnTrack(work', sha, Sized(sig, rh.blockSize), seen, |seen|, false))
  {
    hide RollingHash.Valid, OnTrack, Find, Last, Block, Seen;
    ghost var n := rh.blockSize;
    if tracked {
      SeenBounds(seen, r.data, r.pos, lost);
      LiteralOnTrack(work, sha, Sized(sig, n), seen, r.pos - lost - n, afterCopy);
      BlockStart(seen, r.pos - lost - n, n);
    }
    var oldest, ok := rh.OldestByte();
    if !ok {
      return work, Crashed;
    }
    work' := work.AddLiteral([oldest]);
    var next := r.ReadByte();
    match next
    case Failed =>
      return work', Broken;
    case EndOfFile =>
      work', ok := LastWindow(sha, Sized(sig, n), rh, work', seen, tracked);
      return work', if ok then AtEnd else Crashed;
    case Got(x) =>
      if tracked {
        SlideAligned(seen, r.data, r.pos - 1, lost, rh.fed, n);
      }
      ok := rh.Roll(x);
      return work', if ok then Filled else Crashed;
  }

  lemma SeenBounds(seen: Bytes, data: Bytes, pos: nat, lost: nat)
    requires Seen(seen, data, pos, lost)
    ensures lost <= pos <= |data| && |seen| + lost == |data|
  {
  }

  lemma BlockStart(data: Bytes, pos: nat, n: nat)
    requires 1 <= n && pos + n <= |data|
    ensures Block(data, pos, n)[0] == data[pos]
    ensures pos + n == |data| ==> Block(data, pos, n)[1..] == data[pos + 1..]
  {
  }

  /** The file ends behind the window: the rest of the window, without its oldest byte, is literal. */
  method LastWindow(sha: Bytes -> Digest, ghost sig: Sig, rh: RollingHash, work: Work, ghost input: Bytes,
                    ghost tracked: bool)
    returns (work': Work, ok: bool)
    requires rh.Shape() && rh.count == rh.blockSize
    requires tracked ==>
               && rh.Valid() && sig.blockSize == rh.blockSize <= |input|
               && Last(rh.fed, sig.blockSize) == Block(input, |input| - sig.blockSize, sig.blockSize)
               && OnTrack(work, sha, sig, input, |input| - sig.blockSize + 1, false)
    ensures ok ==> work'.total == work.total + rh.blockSize - 1
    ensures tracked ==> ok && OnTrack(work', sha, sig, input, |input|, false)
  {
    hide RollingHash.Valid, OnTrack, Last, Block;
    var window, copied := rh.Window();
    if !copied {
      return work, false;
    }
    var n := rh.blockSize;
    assert window[1..n] == window[..n][1..];
    if tracked {
      BlockStart(input, |input| - n, n);
      TailLiteralOnTrack(work, sha, sig, input, |input| - n + 1, false);
    }
    return work.AddLiteral(window[1..n]), true;
  }

  /** The file is smaller than one block: all of it is literal. The window may have kept less than was read; cutting
      it to the number of bytes read is then out of range. */
  method FirstPartial(sha: Bytes -> Digest, sig: Signature, rh: RollingHash, i: nat, ghost input: Bytes)
    returns (work: Work, ok: bool)
    requires rh.Valid() && i == |input| < sig.blockSize && rh.fed == input[..Min(|input|, rh.blockSize)]
    requires OnTrack(START, sha, sig.Model(), input, 0, false)
    ensures ok <==> |input| <= rh.blockSize
    ensures ok ==> OnTrack(work, sha, sig.Model(), input, |input|, false)
  {
    hide RollingHash.Valid, OnTrack;
    if |input| <= rh.blockSize {
      assert input[..|input|] == input && input[0..] == input && Last(rh.fed, rh.blockSize) == input;
      TailLiteralOnTrack(START, sha, sig.Model(), input, 0, false);
    }
    if i > 0 {
      var window, _ := rh.Window();
      if i > window.Length {
        return START, false;
      }
      return START.AddLiteral(window[..i]), true;
    }
    assert START.AddLiteral(input) == START;
    return START, true;
  }

  /** The main loop, from the first full window to the end of the stream. As long as the window has the size of a
      block, or nothing can match, it handles all there is to see greedily; in any case it accounts for every byte
      that was not lost before. */
  method Slide(sha: Bytes -> Digest, sig: Signature, rh: RollingHash, r: Reader, ghost seen: Bytes, ghost lost: nat)
    returns (work: Work, ending: Ending)
    requires sig.Valid() && 1 <= sig.blockSize && Full(START, rh, r, lost)
    requires Tracked(START, sha, sig.Model(), rh, r, seen, lost, false)
    requires rh.blockSize == sig.blockSize ==> seen == r.data && lost == 0
    modifies rh, rh.window, r
    ensures ending == AtEnd ==> !r.fails && work.total + lost == |r.data|
    ensures ending == Broken ==> r.fails
    ensures ending != Filled
    ensures old(rh.blockSize) == sig.blockSize || sig.blocks == [] ==>
              && ending != Crashed
              && (ending == AtEnd ==> OnTrack(work, sha, Sized(sig.Model(), old(rh.blockSize)), seen, |seen|, false))
  {
    hide RollingHash.Valid, Signature.Valid, OnTrack, Find, Last, Tracked, RollingHash.Shape;
    TrackedValid(START, sha, sig.Model(), rh, r, seen, lost, false);
    ghost var n, afterCopy, tracked := rh.blockSize, false, true;
    ghost var snug := n == sig.blockSize;
    work, ending := START, Filled;
    while ending == Filled
      invariant Went(work, ending, rh, r, lost) && 1 <= n
      invariant snug || sig.blocks == [] ==> tracked
      invariant tracked ==>
                  && rh.blockSize == n && ending != Crashed
                  && (ending == Filled ==> Tracked(work, sha, sig.Model(), rh, r, seen, lost, afterCopy))
                  && (ending == AtEnd ==> OnTrack(work, sha, Sized(sig.Model(), n), seen, |seen|, false))
      decreases ending == Filled, |r.data| - r.pos
    {
      if tracked {
        TrackedValid(work, sha, sig.Model(), rh, r, seen, lost, afterCopy);
      }
      var m, window, ok := MatchWindow(sha, sig, rh);
      if !ok {
        ending := Crashed;
      } else if m.Some? {
        work, ending := CopyOn(sha, sig, rh, r, work, window, m.value, lost, tracked && snug, afterCopy);
        afterCopy, tracked := true, tracked && snug;
      } else {
        work, ending := SlideOn(sha, sig.Model(), rh, r, work, seen, lost, tracked, afterCopy);
        afterCopy := false;
      }
    }
  }

  lemma TrackedValid(work: Work, sha: Bytes -> Digest, sig: Sig, rh: RollingHash, r: Reader, seen: Bytes, lost: nat,
                     afterCopy: bool)
    requires Tracked(work, sha, sig, rh, r, seen, lost, afterCopy)
    ensures rh.Valid()
  {
  }

  /** What a pass can come to. A slice or an index out of range ends the program. */
  datatype Generated = Generated(delta: Delta) | ReadFailed | OutOfRange

  /** The window is as large as a block, or holds the whole file. */
  predicate WindowSuffices(blockSize: nat, fileSize: nat) {
    blockSize <= MAX_BLOCK_SIZE || fileSize <= MAX_BLOCK_SIZE
  }

  /** What is left of a file after the first fill dropped what the window could not keep. */
  function Remains(file: Bytes, blockSize: nat): Bytes
    requires MAX_BLOCK_SIZE <= blockSize <= |file|
  {
    file[..MAX_BLOCK_SIZE] + file[blockSize..]
  }

  /** The whole pass. It computes the delta of the greedy specification if and only if the window suffices and the
      reader does not fail. If the window does not suffice, a file that ends in the first fill ends the program; any
      other delta announces a file that is too short by what the first fill dropped, and for an empty signature it is
      exactly the delta of the rest. */
  method GenerateDelta(sha: Bytes -> Digest, r: Reader, sig: Signature) returns (result: Generated)
    requires r.Valid() && r.pos == 0 && |r.data| < TWO_63
    requires sig.Valid() && 1 <= sig.blockSize
    modifies r
    ensures result == Generated(DeltaOf(sha, sig.Model(), r.data))
            <==> !r.fails && WindowSuffices(sig.blockSize, |r.data|)
    ensures WindowSuffices(sig.blockSize, |r.data|) && r.fails ==> result == ReadFailed
    ensures !WindowSuffices(sig.blockSize, |r.data|) ==>
              && (|r.data| < sig.blockSize ==> result == if r.fails then ReadFailed else OutOfRange)
              && (result.Generated? ==> result.delta.newFileSize == |r.data| - (sig.blockSize - MAX_BLOCK_SIZE))
              && (sig.blocks == [] && sig.blockSize <= |r.data| ==>
                    result == if r.fails then ReadFailed else
                      Generated(DeltaOf(sha, Sized(sig.Model(), MAX_BLOCK_SIZE), Remains(r.data, sig.blockSize))))
  {
    hide RollingHash.Valid, Signature.Valid, OnTrack, DeltaOf, Tracked, RollingHash.Shape, Work.FlushPending;
    DeltaHeader(sha, sig.Model(), r.data);
    var rh := new RollingHash(sig.blockSize);
    var work := START;
    var i, ending := Fill(rh, r, sig.blockSize);
    if ending == AtEnd {
      StartOnTrack(sha, sig.Model(), r.data);
      assert r.data[0..Min(|r.data|, rh.blockSize)] == r.data[..Min(|r.data|, rh.blockSize)];
      var ok;
      work, ok := FirstPartial(sha, sig, rh, i, r.data);
      if !ok {
        return OutOfRange;
      }
      Finished(work, sha, sig.Model(), r.data);
    } else if ending == Filled {
      ghost var lost := sig.blockSize - rh.blockSize;
      ghost var seen := r.data[..rh.blockSize] + r.data[sig.blockSize..];
      ghost var n := rh.blockSize;
      FirstTracked(sha, sig.Model(), rh, r, seen, lost);
      work, ending := Slide(sha, sig, rh, r, seen, lost);
      if ending == AtEnd && (n == sig.blockSize || sig.blocks == []) {
        Finished(work, sha, Sized(sig.Model(), n), seen);
      }
    }
    if ending == Broken {
      return ReadFailed;
    }
    if ending == Crashed {
      return OutOfRange;
    }
    TotalKept(work, sha);
    return Generated(work.FlushPending().ToDelta(sha));
  }

  lemma DeltaHeader(sha: Bytes -> Digest, sig: Sig, s: Bytes)
    requires 1 <= sig.blockSize && |s| < TWO_63
    ensures DeltaOf(sha, sig, s).newFileSize == |s| && DeltaOf(sha, sig, s).newFileHash == sha(s)
  {
  }

  lemma TotalKept(work: Work, sha: Bytes -> Digest)
    ensures work.FlushPending().total == work.total
  {
  }

  /** After the first fill the window holds the first block of all that is left to see. */
  lemma FirstTracked(sha: Bytes -> Digest, sig: Sig, rh: RollingHash, r: Reader, seen: Bytes, lost: nat)
    requires 1 <= sig.blockSize && rh.Valid() && rh.blockSize == WindowSize(sig.blockSize) && r.Valid()
    requires r.pos == sig.blockSize && rh.fed == r.data[..rh.blockSize]
    requires lost == sig.blockSize - rh.blockSize && seen == r.data[..rh.blockSize] + r.data[sig.blockSize..]
    ensures Full(START, rh, r, lost) && Tracked(START, sha, sig, rh, r, seen, lost, false)
    ensures rh.blockSize == sig.blockSize ==> seen == r.data
  {
    hide OnTrack;
    StartOnTrack(sha, Sized(sig, rh.blockSize), seen);
  }
}
