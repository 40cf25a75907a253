/** What the delta generator is meant to compute, without windows or buffers: at each position of the
    new file take the lowest old block that matches the next full window, else one literal byte; the
    short tail of the file is looked up only right after a full-block copy. */
module Greedy {
  import opened Bytes
  import opened Deltas
  import opened Signatures
  import Adler

  // ------------------------------------------------------------------------------------------
  // Matching
  // ------------------------------------------------------------------------------------------

  predicate Matches(b: BlockSignature, weak: uint32, strong: Digest) {
    b.weak == weak && b.strong == strong
  }

  /** The lowest position, from `i` on, of a block with both hashes. */
  function FirstMatch(blocks: seq<BlockSignature>, weak: uint32, strong: Digest, i: nat): (r: Option<nat>)
    requires i <= |blocks|
    ensures r.Some? ==> i <= r.value < |blocks| && Matches(blocks[r.value], weak, strong)
    ensures r.Some? ==> forall j :: i <= j < r.value ==> !Matches(blocks[j], weak, strong)
    ensures r.None? ==> forall j :: i <= j < |blocks| ==> !Matches(blocks[j], weak, strong)
    decreases |blocks| - i
  {
    if i == |blocks| then None
    else if Matches(blocks[i], weak, strong) then Some(i)
    else FirstMatch(blocks, weak, strong, i + 1)
  }

  /** The lowest block of the signature whose hashes are those of `w`. */
  function Find(sha: Bytes -> Digest, blocks: seq<BlockSignature>, w: Bytes): (r: Option<nat>)
    ensures r.Some? ==> r.value < |blocks|
  {
    FirstMatch(blocks, Adler.Weak(w), sha(w), 0)
  }

  // ------------------------------------------------------------------------------------------
  // The greedy choice
  // ------------------------------------------------------------------------------------------

  /** One choice: a byte sent as it is, or a reference standing for a stretch of the new file. */
  datatype Token = Literal(b: byte) | Reference(index: uint32, window: Bytes)

  function Literals(s: Bytes): seq<Token> {
    if s == [] then [] else [Literal(s[0])] + Literals(s[1..])
  }

  function Tokens(sha: Bytes -> Digest, sig: Sig, s: Bytes, afterCopy: bool): (ts: seq<Token>)
    requires 1 <= sig.blockSize
    decreases |s|
  {
    var n := sig.blockSize;
    if |s| < n then Tail(sha, sig, s, afterCopy)
    else match Find(sha, sig.blocks, s[..n])
      case Some(j) => [Reference(sig.blocks[j].index, s[..n])] + Tokens(sha, sig, s[n..], true)
      case None => [Literal(s[0])] + Tokens(sha, sig, s[1..], false)
  }

  /** The first token of a stretch with a full window, and the stretch it leaves. */
  lemma FirstToken(sha: Bytes -> Digest, sig: Sig, s: Bytes, afterCopy: bool)
    returns (t: Token, step: nat, copied: bool)
    requires 1 <= sig.blockSize <= |s|
    ensures 1 <= step <= |s| && Span(t) == s[..step] && (t.Reference? ==> step == sig.blockSize)
    ensures Tokens(sha, sig, s, afterCopy) == [t] + Tokens(sha, sig, s[step..], copied)
    ensures t.Literal? ==> Find(sha, sig.blocks, s[..sig.blockSize]) == None
  {
    hide Find;
    match Find(sha, sig.blocks, s[..sig.blockSize])
    case Some(j) => t, step, copied := Reference(sig.blocks[j].index, s[..sig.blockSize]), sig.blockSize, true;
    case None => t, step, copied := Literal(s[0]), 1, false;
  }

  function Tail(sha: Bytes -> Digest, sig: Sig, s: Bytes, afterCopy: bool): seq<Token> {
    var m := if afterCopy && s != [] then Find(sha, sig.blocks, s) else None;
    match m
    case Some(j) => [Reference(sig.blocks[j].index, s)]
    case None => Literals(s)
  }

  /** The stretch of the new file a token stands for. */
  function Span(t: Token): Bytes {
    match t
    case Literal(b) => [b]
    case Reference(_, window) => window
  }

  function Text(ts: seq<Token>): Bytes {
    if ts == [] then [] else Span(ts[0]) + Text(ts[1..])
  }

  lemma TextCons(t: Token, ts: seq<Token>)
    ensures Text([t] + ts) == Span(t) + Text(ts)
  {
    assert ([t] + ts)[1..] == ts;
  }

  lemma {:induction false} LiteralsText(s: Bytes)
    ensures Text(Literals(s)) == s
  {
    if s != [] {
      LiteralsText(s[1..]);
      TextCons(Literal(s[0]), Literals(s[1..]));
    }
  }

  /** The tokens cover the new file, in order and without gaps. */
  lemma {:induction false} TokensCover(sha: Bytes -> Digest, sig: Sig, s: Bytes, afterCopy: bool)
    requires 1 <= sig.blockSize
    ensures Text(Tokens(sha, sig, s, afterCopy)) == s
    decreases |s|
  {
    hide Find, Text;
    if |s| < sig.blockSize {
      LiteralsText(s);
      if afterCopy && s != [] && Find(sha, sig.blocks, s).Some? {
        var t := Tail(sha, sig, s, afterCopy)[0];
        TextCons(t, []);
        LiteralsText([]);
        assert [t] + [] == [t];
      }
    } else {
      var t, step, copied := FirstToken(sha, sig, s, afterCopy);
      hide Tokens;
      TokensCover(sha, sig, s[step..], copied);
      TextCons(t, Tokens(sha, sig, s[step..], copied));
      assert s[..step] + s[step..] == s;
    }
  }

  /** A reference is right about the hashes: it names the lowest signature entry with those of its window. */
  ghost predicate Backed(sha: Bytes -> Digest, sig: Sig, t: Token) {
    t.Reference? ==>
      1 <= |t.window| <= sig.blockSize &&
      exists j :: 0 <= j < |sig.blocks| && sig.blocks[j].index == t.index &&
                  Matches(sig.blocks[j], Adler.Weak(t.window), sha(t.window)) &&
                  forall l :: 0 <= l < j ==> !Matches(sig.blocks[l], Adler.Weak(t.window), sha(t.window))
  }

  lemma {:induction false} LiteralsAreLiteral(s: Bytes)
    ensures |Literals(s)| == |s| && forall k :: 0 <= k < |s| ==> Literals(s)[k] == Literal(s[k])
  {
    if s != [] {
      LiteralsAreLiteral(s[1..]);
    }
  }

  lemma {:induction false} ReferencesBacked(sha: Bytes -> Digest, sig: Sig, s: Bytes, afterCopy: bool)
    requires 1 <= sig.blockSize
    ensures forall t :: t in Tokens(sha, sig, s, afterCopy) ==> Backed(sha, sig, t)
    decreases |s|
  {
    var n := sig.blockSize;
    if |s| < n {
      LiteralsAreLiteral(s);
    } else {
      match Find(sha, sig.blocks, s[..n])
      case Some(j) => ReferencesBacked(sha, sig, s[n..], true);
      case None => ReferencesBacked(sha, sig, s[1..], false);
    }
  }

  /** The position in the new file where token `k` starts. */
  function Offset(ts: seq<Token>, k: nat): nat
    requires k <= |ts|
  {
    |Text(ts[..k])|
  }

  lemma OffsetCons(t: Token, ts: seq<Token>, k: nat)
    requires 1 <= k <= |ts| + 1
    ensures Offset([t] + ts, k) == |Span(t)| + Offset(ts, k - 1)
  {
    assert ([t] + ts)[..k] == [t] + ts[..k - 1];
    TextCons(t, ts[..k - 1]);
  }

  /** The window of `s` at `p`, if there is a full one, is not in the signature. */
  predicate NoBlockAt(sha: Bytes -> Digest, sig: Sig, s: Bytes, p: nat) {
    p + sig.blockSize <= |s| ==> Find(sha, sig.blocks, s[p..p + sig.blockSize]) == None
  }

  lemma NoBlockShift(sha: Bytes -> Digest, sig: Sig, s: Bytes, p: nat, step: nat)
    requires step <= |s| && NoBlockAt(sha, sig, s[step..], p)
    ensures NoBlockAt(sha, sig, s, step + p)
  {
    if step + p + sig.blockSize <= |s| {
      assert s[step..][p..p + sig.blockSize] == s[step + p..step + p + sig.blockSize];
    }
  }

  /** No literal is sent where a copy was possible: wherever a literal byte has a full window ahead of
      it, no entry of the signature has that window's hashes. */
  lemma {:induction false} LiteralsAreNeeded(sha: Bytes -> Digest, sig: Sig, s: Bytes, afterCopy: bool,
                                             ts: seq<Token>, k: nat)
    requires 1 <= sig.blockSize && ts == Tokens(sha, sig, s, afterCopy)
    requires k < |ts| && ts[k].Literal?
    ensures NoBlockAt(sha, sig, s, Offset(ts, k))
    decreases |s|
  {
    hide Find, Tokens;
    var n := sig.blockSize;
    if |s| >= n {
      var t, step, copied := FirstToken(sha, sig, s, afterCopy);
      if k == 0 {
        assert ts[..0] == [] && s[0..n] == s[..n];
      } else {
        var rest := Tokens(sha, sig, s[step..], copied);
        LiteralsAreNeeded(sha, sig, s[step..], copied, rest, k - 1);
        OffsetCons(t, rest, k);
        NoBlockShift(sha, sig, s, Offset(rest, k - 1), step);
      }
    }
  }

  /** A reference stands for a whole block, or for the end of the file. */
  lemma {:induction false} ReferenceLength(sha: Bytes -> Digest, sig: Sig, s: Bytes, afterCopy: bool,
                                           ts: seq<Token>, k: nat)
    requires 1 <= sig.blockSize && ts == Tokens(sha, sig, s, afterCopy)
    requires k < |ts| && ts[k].Reference?
    ensures Offset(ts, k) + |ts[k].window| == Min(Offset(ts, k) + sig.blockSize, |s|)
    decreases |s|
  {
    hide Find;
    var n := sig.blockSize;
    if |s| >= n {
      var t, step, copied := FirstToken(sha, sig, s, afterCopy);
      hide Tokens;
      if k == 0 {
        assert ts[..0] == [];
      } else {
        var rest := Tokens(sha, sig, s[step..], copied);
        ReferenceLength(sha, sig, s[step..], copied, rest, k - 1);
        OffsetCons(t, rest, k);
      }
    } else {
      LiteralsAreLiteral(s);
      assert ts[..0] == [];
    }
  }

  // ------------------------------------------------------------------------------------------
  // From choices to operations
  // ------------------------------------------------------------------------------------------

  function Flush(ops: seq<Op>, pending: Bytes): seq<Op> {
    if pending == [] then ops else ops + [Data(pending)]
  }

  /** Runs of literals become one data operation. */
  function Assemble(ops: seq<Op>, pending: Bytes, ts: seq<Token>): seq<Op>
    decreases |ts|
  {
    if ts == [] then Flush(ops, pending)
    else match ts[0]
      case Literal(b) => Assemble(ops, pending + [b], ts[1..])
      case Reference(index, _) => Assemble(Flush(ops, pending) + [Copy(index)], [], ts[1..])
  }

  lemma AssembleLiteral(ops: seq<Op>, pending: Bytes, b: byte, ts: seq<Token>)
    ensures Assemble(ops, pending, [Literal(b)] + ts) == Assemble(ops, pending + [b], ts)
  {
    assert ([Literal(b)] + ts)[1..] == ts;
  }

  lemma AssembleReference(ops: seq<Op>, pending: Bytes, index: uint32, w: Bytes, ts: seq<Token>)
    ensures Assemble(ops, pending, [Reference(index, w)] + ts)
            == Assemble(Flush(ops, pending) + [Copy(index)], [], ts)
  {
    assert ([Reference(index, w)] + ts)[1..] == ts;
  }

  lemma {:induction false} AssembleLiterals(ops: seq<Op>, pending: Bytes, s: Bytes)
    ensures Assemble(ops, pending, Literals(s)) == Flush(ops, pending + s)
    decreases |s|
  {
    if s == [] {
      assert pending + s == pending;
    } else {
      AssembleLiteral(ops, pending, s[0], Literals(s[1..]));
      AssembleLiterals(ops, pending + [s[0]], s[1..]);
      assert pending + [s[0]] + s[1..] == pending + s;
    }
  }

  function Ops(sha: Bytes -> Digest, sig: Sig, s: Bytes): seq<Op>
    requires 1 <= sig.blockSize
  {
    Assemble([], [], Tokens(sha, sig, s, false))
  }

  function References(ts: seq<Token>): nat {
    if ts == [] then 0 else (if ts[0].Reference? then 1 else 0) + References(ts[1..])
  }

  function CopiedBytes(ts: seq<Token>): nat {
    if ts == [] then 0 else (if ts[0].Reference? then |ts[0].window| else 0) + CopiedBytes(ts[1..])
  }

  lemma CountCons(t: Token, ts: seq<Token>)
    ensures References([t] + ts) == (if t.Reference? then 1 else 0) + References(ts)
    ensures CopiedBytes([t] + ts) == (if t.Reference? then |t.window| else 0) + CopiedBytes(ts)
  {
    assert ([t] + ts)[1..] == ts;
  }

  lemma {:induction false} CountLiterals(s: Bytes)
    ensures References(Literals(s)) == 0 && CopiedBytes(Literals(s)) == 0
  {
    if s != [] {
      CountLiterals(s[1..]);
      CountCons(Literal(s[0]), Literals(s[1..]));
    }
  }

  /** The delta the sender should produce for the new file `s`. */
  function DeltaOf(sha: Bytes -> Digest, sig: Sig, s: Bytes): Delta
    requires 1 <= sig.blockSize && |s| < TWO_63
  {
    var ts := Tokens(sha, sig, s, false);
    var ops := Assemble([], [], ts);
    Delta(ops, |s|, sha(s), References(ts), CopiedBytes(ts), LiteralBytes(ops))
  }

  // ------------------------------------------------------------------------------------------
  // Accounting
  // ------------------------------------------------------------------------------------------

  lemma FlushCounts(ops: seq<Op>, pending: Bytes)
    ensures LiteralBytes(Flush(ops, pending)) == LiteralBytes(ops) + |pending|
    ensures |Flush(ops, pending)| <= |ops| + 1
  {
    assert (ops + [Data(pending)])[..|ops|] == ops;
  }

  lemma CopyCounts(ops: seq<Op>, index: uint32)
    ensures LiteralBytes(ops + [Copy(index)]) == LiteralBytes(ops)
  {
    assert (ops + [Copy(index)])[..|ops|] == ops;
  }

  lemma {:induction false} AssembleAccounts(ops: seq<Op>, pending: Bytes, ts: seq<Token>)
    ensures LiteralBytes(Assemble(ops, pending, ts)) + CopiedBytes(ts)
            == LiteralBytes(ops) + |pending| + |Text(ts)|
    decreases |ts|
  {
    FlushCounts(ops, pending);
    if ts != [] {
      match ts[0]
      case Literal(b) =>
        AssembleAccounts(ops, pending + [b], ts[1..]);
      case Reference(index, _) =>
        CopyCounts(Flush(ops, pending), index);
        AssembleAccounts(Flush(ops, pending) + [Copy(index)], [], ts[1..]);
    }
  }

  /** How many operations are copies. */
  function Copies(ops: seq<Op>): nat {
    if ops == [] then 0 else
      var last := |ops| - 1;
      Copies(ops[..last]) + if ops[last].Copy? then 1 else 0
  }

  lemma {:induction false} CopiesAre(ops: seq<Op>)
    ensures Copies(ops) == |set i | 0 <= i < |ops| && ops[i].Copy?|
  {
    var all := set i | 0 <= i < |ops| && ops[i].Copy?;
    if ops != [] {
      var last := |ops| - 1;
      var init := ops[..last];
      CopiesAre(init);
      var before := set i | 0 <= i < |init| && init[i].Copy?;
      assert all == before + if ops[last].Copy? then {last} else {};
    }
  }

  lemma {:induction false} AssembleCopies(ops: seq<Op>, pending: Bytes, ts: seq<Token>)
    ensures Copies(Assemble(ops, pending, ts)) == Copies(ops) + References(ts)
    decreases |ts|
  {
    FlushCopies(ops, pending);
    if ts != [] {
      match ts[0]
      case Literal(b) => AssembleCopies(ops, pending + [b], ts[1..]);
      case Reference(index, _) =>
        var flushed := Flush(ops, pending);
        AssembleCopies(flushed + [Copy(index)], [], ts[1..]);
        assert (flushed + [Copy(index)])[..|flushed|] == flushed;
    }
  }

  lemma FlushCopies(ops: seq<Op>, pending: Bytes)
    ensures Copies(Flush(ops, pending)) == Copies(ops)
  {
    assert (ops + [Data(pending)])[..|ops|] == ops;
  }

  /** Every byte of the new file is either copied or sent, and counted once; every copy is counted; and the
      encoded delta is exactly the header and the announced transfer size. */
  lemma DeltaAccounts(sha: Bytes -> Digest, sig: Sig, s: Bytes)
    requires 1 <= sig.blockSize && |s| < TWO_63
    ensures var d := DeltaOf(sha, sig, s);
            && d.bytesCopied + d.bytesLiteral == d.newFileSize
            && d.bytesLiteral == LiteralBytes(d.ops)
            && d.blocksCopied == |set i | 0 <= i < |d.ops| && d.ops[i].Copy?|
            && |EncodeDelta(d)| == 44 + TransferSize(d)
  {
    var ts := Tokens(sha, sig, s, false);
    TokensCover(sha, sig, s, false);
    AssembleAccounts([], [], ts);
    AssembleCopies([], [], ts);
    CopiesAre(Assemble([], [], ts));
    EncodedLength(Ops(sha, sig, s));
  }

  /** No empty literal, and no two literals in a row. */
  ghost predicate Coalesced(ops: seq<Op>) {
    && (forall i :: 0 <= i < |ops| ==> ops[i] != Data([]))
    && (forall i :: 0 < i < |ops| ==> ops[i - 1].Copy? || ops[i].Copy?)
  }

  lemma {:induction false} AssembleCoalesces(ops: seq<Op>, pending: Bytes, ts: seq<Token>)
    requires Coalesced(ops) && (ops == [] || ops[|ops| - 1].Copy?)
    ensures Coalesced(Assemble(ops, pending, ts))
    decreases |ts|
  {
    if ts != [] {
      match ts[0]
      case Literal(b) => AssembleCoalesces(ops, pending + [b], ts[1..]);
      case Reference(index, _) => AssembleCoalesces(Flush(ops, pending) + [Copy(index)], [], ts[1..]);
    }
  }

  lemma DeltaCoalesced(sha: Bytes -> Digest, sig: Sig, s: Bytes)
    requires 1 <= sig.blockSize
    ensures Coalesced(Ops(sha, sig, s))
  {
    AssembleCoalesces([], [], Tokens(sha, sig, s, false));
  }

  /** At most two operations for every full block the rest of the file has room for, and one more. */
  lemma {:induction false} OpsBounded(sha: Bytes -> Digest, sig: Sig, s: Bytes, afterCopy: bool,
                                      ops: seq<Op>, pending: Bytes)
    requires 1 <= sig.blockSize && (afterCopy ==> pending == [])
    ensures |Assemble(ops, pending, Tokens(sha, sig, s, afterCopy))| <= |ops| + 2 * (|s| / sig.blockSize) + 1
    decreases |s|
  {
    hide Find, Assemble;
    var n := sig.blockSize;
    if |s| < n {
      AssembleTail(sha, sig, s, afterCopy, ops, pending);
    } else {
      match Find(sha, sig.blocks, s[..n])
      case Some(j) =>
        var index := sig.blocks[j].index;
        var rest := Tokens(sha, sig, s[n..], true);
        AssembleReference(ops, pending, index, s[..n], rest);
        OpsBounded(sha, sig, s[n..], true, Flush(ops, pending) + [Copy(index)], []);
        QuotientDrops(|s|, n, n);
      case None =>
        AssembleLiteral(ops, pending, s[0], Tokens(sha, sig, s[1..], false));
        OpsBounded(sha, sig, s[1..], false, ops, pending + [s[0]]);
        QuotientDrops(|s|, n, 1);
    }
  }

  lemma AssembleTail(sha: Bytes -> Digest, sig: Sig, s: Bytes, afterCopy: bool, ops: seq<Op>, pending: Bytes)
    requires afterCopy ==> pending == []
    ensures var r := Assemble(ops, pending, Tail(sha, sig, s, afterCopy));
            || r == Flush(ops, pending + s)
            || (s != [] && pending == [] && exists index :: r == ops + [Copy(index)])
  {
    AssembleLiterals(ops, pending, s);
    if afterCopy && s != [] {
      match Find(sha, sig.blocks, s)
      case None =>
      case Some(j) => AssembleReference(ops, pending, sig.blocks[j].index, s, []);
    }
  }

  lemma QuotientDrops(x: nat, n: nat, k: nat)
    requires 1 <= n <= x && k <= x
    ensures (x - k) / n <= x / n
    ensures k == n ==> (x - k) / n == x / n - 1
  {
    var q, r := x / n, x % n;
    assert x == q * n + r;
    if k == n {
      assert (q - 1) * n == q * n - n;
      if q == 0 {
        assert false;
      }
      QuotientIsUnique(x - n, n, q - 1, r);
    }
    QuotientMonotone(x - k, x, n);
  }

  lemma QuotientMonotone(y: nat, x: nat, n: nat)
    requires y <= x && 1 <= n
    ensures y / n <= x / n
  {
    if y / n > x / n {
      assert y == y / n * n + y % n;
      assert x == x / n * n + x % n;
      ProductAtLeast(y / n - x / n, n);
    }
  }

  /** With blocks of at least 10 bytes, a delta costs at most five bytes more than the file. */
  lemma {:induction false} EncodingBounded(sha: Bytes -> Digest, sig: Sig, s: Bytes, afterCopy: bool,
                                           ops: seq<Op>, pending: Bytes)
    requires 10 <= sig.blockSize && (afterCopy ==> pending == [])
    ensures |EncodeOps(Assemble(ops, pending, Tokens(sha, sig, s, afterCopy)))|
            <= |EncodeOps(ops)| + |pending| + |s| + 5
    decreases |s|
  {
    hide Find, Assemble, EncodeOps;
    var n := sig.blockSize;
    FlushLength(ops, pending);
    if |s| < n {
      AssembleTail(sha, sig, s, afterCopy, ops, pending);
      FlushLength(ops, pending + s);
      forall index { EncodeOpsAppend(ops, Copy(index)); }
    } else {
      match Find(sha, sig.blocks, s[..n])
      case Some(j) =>
        var index := sig.blocks[j].index;
        AssembleReference(ops, pending, index, s[..n], Tokens(sha, sig, s[n..], true));
        EncodingBounded(sha, sig, s[n..], true, Flush(ops, pending) + [Copy(index)], []);
        EncodeOpsAppend(Flush(ops, pending), Copy(index));
      case None =>
        AssembleLiteral(ops, pending, s[0], Tokens(sha, sig, s[1..], false));
        EncodingBounded(sha, sig, s[1..], false, ops, pending + [s[0]]);
    }
  }

  lemma FlushLength(ops: seq<Op>, pending: Bytes)
    ensures |EncodeOps(Flush(ops, pending))| <= |EncodeOps(ops)| + |pending| + 5
  {
    if pending != [] {
      EncodeOpsAppend(ops, Data(pending));
    }
  }

  /** The size limits of every generated delta. */
  lemma DeltaBounded(sha: Bytes -> Digest, sig: Sig, s: Bytes)
    requires 1 <= sig.blockSize && |s| < TWO_63
    ensures var d := DeltaOf(sha, sig, s);
            && |d.ops| <= 2 * (|s| / sig.blockSize) + 1
            && (10 <= sig.blockSize ==> |EncodeDelta(d)| <= d.newFileSize + 49)
  {
    OpsBounded(sha, sig, s, false, [], []);
    if 10 <= sig.blockSize {
      EncodingBounded(sha, sig, s, false, [], []);
    }
  }

  lemma {:induction false} AllCopied(ts: seq<Token>)
    requires forall k :: 0 <= k < |ts| ==> ts[k].Reference?
    ensures CopiedBytes(ts) == |Text(ts)|
  {
    if ts != [] {
      AllCopied(ts[1..]);
    }
  }

  // ------------------------------------------------------------------------------------------
  // Replay
  // ------------------------------------------------------------------------------------------

  /** Every reference finds the stretch of the new file it stands for in the old one. */
  ghost predicate Served(base: Lookup, ts: seq<Token>) {
    forall t :: t in ts && t.Reference? ==> base(t.index) == Some(t.window)
  }

  lemma FlushReplays(ops: seq<Op>, pending: Bytes, base: Lookup, out: Bytes)
    requires Replay(ops, base) == Some(out)
    ensures Replay(Flush(ops, pending), base) == Some(out + pending)
  {
    if pending == [] {
      assert out + pending == out;
    } else {
      ReplayAppend(ops, Data(pending), base);
    }
  }

  /** Replaying the assembled operations spells out the text of the tokens. */
  lemma {:induction false} AssembleReplays(ops: seq<Op>, pending: Bytes, ts: seq<Token>, base: Lookup, out: Bytes)
    requires Replay(ops, base) == Some(out) && Served(base, ts)
    ensures Replay(Assemble(ops, pending, ts), base) == Some(out + pending + Text(ts))
    decreases |ts|
  {
    FlushReplays(ops, pending, base, out);
    if ts == [] {
      assert out + pending + Text(ts) == out + pending;
    } else {
      var t, rest := ts[0], ts[1..];
      match t
      case Literal(b) =>
        AssembleReplays(ops, pending + [b], rest, base, out);
        assert out + (pending + [b]) + Text(rest) == out + pending + ([b] + Text(rest));
      case Reference(index, w) =>
        ReplayAppend(Flush(ops, pending), Copy(index), base);
        AssembleReplays(Flush(ops, pending) + [Copy(index)], [], rest, base, out + pending + w);
        assert out + pending + w + [] + Text(rest) == out + pending + (w + Text(rest));
    }
  }
}
