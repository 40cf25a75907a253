/** The sliding window of the delta generator: a circular buffer with the weak hash of its contents. */
module RollingHashes {
  import opened Bytes
  import Adler

  const DEFAULT_BLOCK_SIZE: nat := 4096
  const MAX_BLOCK_SIZE: nat := 65536

  /** The window size a caller gets for the block size it asks for. */
  function WindowSize(requested: int): (n: nat)
    ensures n == if requested < 1 then 4096 else if requested > 65536 then 65536 else requested
  {
    if requested <= 0 then DEFAULT_BLOCK_SIZE
    else if requested > MAX_BLOCK_SIZE then MAX_BLOCK_SIZE
    else requested
  }

  /** The remainder of a division that truncates toward zero. */
  function Remainder(x: int, n: nat): (r: int)
    requires 1 <= n
    ensures 0 < r + n && r < n && (0 <= x ==> 0 <= r)
  {
    if x >= 0 then x % n else -((-x) % n)
  }

  /** Indices of a circular buffer need at most one subtraction. */
  lemma Wraps(x: nat, n: nat)
    requires 1 <= n && x < 2 * n
    ensures Remainder(x, n) == if x < n then x else x - n
  {
    if x < n {
      QuotientIsUnique(x, n, 0, x);
    } else {
      QuotientIsUnique(x, n, 1, x - n);
    }
  }

  /** The `count` bytes of the circular buffer `w` from `start` on, in order. */
  ghost function Ring(w: Bytes, start: nat, count: nat): (s: Bytes)
    requires start < |w| && count <= |w|
    ensures |s| == count
  {
    if start + count <= |w| then w[start..start + count]
    else w[start..] + w[..start + count - |w|]
  }

  /** Where the oldest of `count` bytes sits when the next one goes to `pos`. */
  ghost function Oldest(pos: nat, count: nat, n: nat): (start: nat)
    requires pos < n && count <= n
    ensures start < n
  {
    if count <= pos then pos - count else pos - count + n
  }

  lemma RingAt(w: Bytes, start: nat, count: nat, i: nat)
    requires start < |w| && i < count <= |w|
    ensures Ring(w, start, count)[i] == w[if start + i < |w| then start + i else start + i - |w|]
  {
  }

  lemma RingPush(w: Bytes, pos: nat, count: nat, x: byte)
    requires pos < |w| && count < |w|
    ensures var pos' := if pos + 1 < |w| then pos + 1 else 0;
            Ring(w[pos := x], Oldest(pos', count + 1, |w|), count + 1)
            == Ring(w, Oldest(pos, count, |w|), count) + [x]
  {
    var w', pos' := w[pos := x], if pos + 1 < |w| then pos + 1 else 0;
    var start := Oldest(pos, count, |w|);
    assert Oldest(pos', count + 1, |w|) == start;
    if start + count < |w| {
      assert pos == start + count;
      assert w'[start..pos + 1] == w[start..pos] + [x];
    } else {
      assert pos == start + count - |w|;
      assert w'[start..] == w[start..] && w'[..pos + 1] == w[..pos] + [x];
    }
  }

  lemma RingSlide(w: Bytes, pos: nat, x: byte)
    requires pos < |w|
    ensures var pos' := if pos + 1 < |w| then pos + 1 else 0;
            Ring(w[pos := x], Oldest(pos', |w|, |w|), |w|)
            == Ring(w, Oldest(pos, |w|, |w|), |w|)[1..] + [x]
  {
    var w' := w[pos := x];
    assert Oldest(pos, |w|, |w|) == pos;
    if pos + 1 < |w| {
      assert w'[pos + 1..] == w[pos..][1..] && w'[..pos + 1] == w[..pos] + [x];
    } else {
      assert w' == w[..pos] + [x];
    }
  }

  /** The last `n` bytes of `s`, or all of it. */
  function Last(s: Bytes, n: nat): (r: Bytes)
    ensures |r| == Min(|s|, n)
  {
    s[|s| - Min(|s|, n)..]
  }

  lemma LastPush(s: Bytes, x: byte, n: nat)
    ensures |s| < n ==> Last(s + [x], n) == Last(s, n) + [x]
    ensures |s| >= n >= 1 ==> Last(s + [x], n) == Last(s, n)[1..] + [x]
  {
  }

  class RollingHash {
    var a: nat
    var b: nat
    const window: array<byte>
    var size: nat
    var pos: nat
    var count: nat
    var blockSize: nat

    /** Every byte accepted since the last reset. */
    ghost var fed: Bytes

    /** The layout invariant. The block size is what the last reset asked for; the buffer does not grow. */
    ghost predicate Shape()
      reads this
    {
      && 1 <= size == window.Length && 1 <= blockSize
      && pos < size && count <= blockSize
      && a < Adler.MOD && b < Adler.MOD
    }

    /** The invariant of every run of resets, fills and rolls whose block size is that of the buffer: the buffer
        holds the last bytes that were fed in, up to the block size, and the two sums are their weak hash. */
    ghost predicate Valid()
      reads this, window
      ensures Valid() ==> count == Min(|fed|, blockSize) && 1 <= blockSize == window.Length && Shape()
    {
      && Shape() && blockSize == size
      && Contents() == Last(fed, blockSize)
      && Adler.Sums(a, b) == Adler.Hash(Contents())
    }

    /** The bytes of the window, oldest first. */
    ghost function Contents(): (s: Bytes)
      requires Shape() && count <= size
      reads this, window
      ensures |s| == count
    {
      Ring(window[..], Oldest(pos, count, size), count)
    }

    /** Where the oldest byte sits; negative if more bytes are counted than the buffer holds and they do not end at its
        start. */
    function Start(): (start: int)
      requires Shape()
      reads this
      ensures start < size
      ensures count <= size ==> start == Oldest(pos, count, size)
    {
      if count <= size then Wraps(pos - count + size, size); Remainder(pos - count + size, size)
      else Remainder(pos - count + size, size)
    }

    constructor (requested: int)
      ensures Valid() && fresh(window)
      ensures blockSize == WindowSize(requested) && fed == [] && count == 0
    {
      var n := WindowSize(requested);
      window := new byte[n](i => 0);
      size, blockSize := n, n;
      a, b, pos, count := 1, 0, 0, 0;
      fed := [];
    }

    /** Forgets everything. Whatever block size is asked for, the buffer keeps its length. */
    method Reset(blockSize: nat)
      requires 1 <= window.Length && 1 <= blockSize
      modifies this, window
      ensures Shape() && this.blockSize == blockSize && count == 0 && fed == []
      ensures blockSize == window.Length ==> Valid()
    {
      a, b := 1, 0;
      pos, count := 0, 0;
      this.blockSize := blockSize;
      size := window.Length;
      for i := 0 to window.Length
        invariant Shape() && count == 0 && a == 1 && b == 0 && this.blockSize == blockSize
      {
        window[i] := 0;
      }
      fed := [];
    }

    /** Computes both sums again from the window, byte by byte in order; false for an index out of range. */
    method Recompute() returns (ok: bool)
      requires Shape()
      modifies this`a, this`b
      ensures Shape()
      ensures count <= size ==> ok && Adler.Sums(a, b) == Adler.Hash(Contents())
    {
      hide Remainder, Ring, Adler.Step;
      a, b := 1, 0;
      var startPos := Start();
      ghost var w := if count <= size then Contents() else [];
      for i := 0 to count
        invariant Shape()
        invariant count <= size ==> 0 <= startPos && |w| == count && w == Ring(window[..], startPos, count)
        invariant count <= size ==> Adler.Sums(a, b) == Adler.Hash(w[..i])
      {
        var idx := Remainder(startPos + i, size);
        if idx < 0 {
          return false;
        }
        var h := Adler.Step(Adler.Sums(a, b), window[idx]);
        if count <= size {
          Wraps(startPos + i, size);
          RingAt(window[..], startPos, count, i);
          Adler.HashPrefix(w, i);
        }
        a, b := h.a, h.b;
      }
      if count <= size {
        assert w[..count] == w;
      }
      return true;
    }

    /** Adds a byte to a window that is not full yet; a full window ignores it. */
    method RollIn(x: byte) returns (full: bool, ok: bool)
      requires Shape()
      modifies this, window
      ensures Shape() && blockSize == old(blockSize)
      ensures count == Min(old(count) + 1, blockSize) && full == (count == blockSize)
      ensures old(Valid()) ==>
                ok && Valid() && fed == if |old(fed)| < blockSize then old(fed) + [x] else old(fed)
    {
      if count < blockSize {
        ok := Push(x);
        return count == blockSize, ok;
      }
      return true, true;
    }

    method Push(x: byte) returns (ok: bool)
      requires Shape() && count < blockSize
      modifies this, window
      ensures Shape() && blockSize == old(blockSize) && count == old(count) + 1
      ensures old(Valid()) ==> ok && Valid() && fed == old(fed) + [x]
    {
      hide Last, Adler.Hash, Ring, Remainder;
      if count < size {
        RingPush(window[..], pos, count, x);
      }
      LastPush(fed, x, blockSize);
      Wraps(pos + 1, size);
      ghost var updated := window[..][pos := x];
      window[pos] := x;
      assert window[..] == updated;
      pos := Remainder(pos + 1, size);
      count := count + 1;
      fed := fed + [x];
      ok := Recompute();
    }

    /** Slides the window by one byte. */
    method Roll(x: byte) returns (ok: bool)
      requires Shape()
      modifies this, window
      ensures Shape() && blockSize == old(blockSize) && count == old(count)
      ensures old(Valid()) && |old(fed)| >= blockSize ==> ok && Valid() && fed == old(fed) + [x]
    {
      hide Last, Adler.Hash, Ring, Remainder;
      RingSlide(window[..], pos, x);
      LastPush(fed, x, blockSize);
      Wraps(pos + 1, size);
      ghost var updated := window[..][pos := x];
      window[pos] := x;
      assert window[..] == updated;
      pos := Remainder(pos + 1, size);
      fed := fed + [x];
      ok := Recompute();
    }

    function Sum(): (h: uint32)
      requires Shape()
      reads this, window
      ensures Valid() ==> h == Adler.Weak(Last(fed, blockSize))
    {
      Adler.Sums(a, b).Packed()
    }

    /** The byte the next roll pushes out; false for an index out of range. */
    method OldestByte() returns (x: byte, ok: bool)
      requires Shape()
      ensures Valid() && fed != [] ==> ok && x == Last(fed, blockSize)[0]
    {
      var oldestPos := Start();
      if oldestPos < 0 {
        return 0, false;
      }
      if count <= size && 0 < count {
        RingAt(window[..], oldestPos, count, 0);
      }
      return window[oldestPos], true;
    }

    /** A copy of the window, oldest byte first, padded with zeros up to the block size; false for a slice out of
        range. */
    method Window() returns (result: array<byte>, ok: bool)
      requires Shape()
      ensures fresh(result) && result.Length == blockSize
      ensures Valid() ==> ok && result[..count] == Last(fed, blockSize)
    {
      hide Last, Adler.Hash, Ring, Remainder;
      result := new byte[blockSize](i => 0);
      var startPos := Start();
      if startPos < 0 {
        return result, false;
      }
      if startPos + count <= size {
        forall i | 0 <= i < count { result[i] := window[startPos + i]; }
      } else {
        var firstPart := size - startPos;
        if firstPart > blockSize || count - firstPart > size {
          return result, false;
        }
        forall i | 0 <= i < firstPart { result[i] := window[startPos + i]; }
        forall i | firstPart <= i < count { result[i] := window[i - firstPart]; }
      }
      if Valid() {
        forall i | 0 <= i < count ensures result[i] == Contents()[i] {
          RingAt(window[..], startPos, count, i);
        }
        assert result[..count] == Contents();
      }
      return result, true;
    }
  }
}
