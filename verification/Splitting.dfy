/** Cutting a file into fixed-size blocks, the last one possibly shorter. */
module Splitting {
  import opened Bytes

  function Split(s: Bytes, n: nat): (blocks: seq<Bytes>)
    requires 1 <= n
    decreases |s|
  {
    if s == [] then []
    else if |s| <= n then [s]
    else [s[..n]] + Split(s[n..], n)
  }

  function Join(blocks: seq<Bytes>): Bytes {
    if blocks == [] then [] else blocks[0] + Join(blocks[1..])
  }

  function CeilDiv(x: nat, n: nat): nat
    requires 1 <= n
  {
    (x + n - 1) / n
  }

  lemma {:induction false} JoinSplit(s: Bytes, n: nat)
    requires 1 <= n
    ensures Join(Split(s, n)) == s
    decreases |s|
  {
    if |s| > n {
      JoinSplit(s[n..], n);
      var blocks := Split(s, n);
      assert blocks[1..] == Split(s[n..], n);
      assert Join(blocks) == s[..n] + Join(blocks[1..]);
      assert s == s[..n] + s[n..];
    } else if s != [] {
      assert Join([s]) == s + Join([]);
    }
  }

  lemma SplitEmpty(n: nat)
    requires 1 <= n
    ensures Split([], n) == []
  {
  }

  /** Splitting the rest of a file peels off one block at a time. */
  lemma SplitNext(s: Bytes, pos: nat, n: nat)
    requires 1 <= n && pos < |s|
    ensures var next := Min(|s|, pos + n);
            Split(s[pos..], n) == [s[pos..next]] + Split(s[next..], n)
  {
    if |s| - pos > n {
      assert s[pos..][..n] == s[pos..pos + n] && s[pos..][n..] == s[pos + n..];
    } else {
      assert s[pos..|s|] == s[pos..] && s[|s|..] == [];
    }
  }

  lemma {:induction false} JoinAppend(blocks: seq<Bytes>, b: Bytes)
    ensures Join(blocks + [b]) == Join(blocks) + b
  {
    if blocks == [] {
      assert [b][1..] == [];
      assert Join([b]) == b + Join([]);
    } else {
      JoinAppend(blocks[1..], b);
      assert (blocks + [b])[1..] == blocks[1..] + [b];
    }
  }

  /** The number of blocks, and what block `i` holds. */
  lemma {:induction false} SplitAt(s: Bytes, n: nat)
    requires 1 <= n
    ensures |Split(s, n)| == CeilDiv(|s|, n)
    ensures forall i :: 0 <= i < |Split(s, n)| ==>
              0 <= i * n < |s| && Split(s, n)[i] == s[i * n..Min(|s|, i * n + n)]
    decreases |s|
  {
    if s == [] {
      CeilDivSmall(0, n);
    } else if |s| <= n {
      CeilDivSmall(|s|, n);
    } else {
      SplitAt(s[n..], n);
      CeilDivStep(|s|, n);
      forall i | 0 < i < |Split(s, n)|
        ensures 0 <= i * n < |s| && Split(s, n)[i] == s[i * n..Min(|s|, i * n + n)]
      {
        assert Split(s, n)[i] == Split(s[n..], n)[i - 1];
        ShiftSlice(s, n, i);
      }
    }
  }

  lemma ShiftSlice(s: Bytes, n: nat, i: nat)
    requires 1 <= i && n <= |s| && (i - 1) * n < |s| - n
    ensures n <= i * n < |s|
    ensures s[n..][(i - 1) * n..Min(|s| - n, (i - 1) * n + n)] == s[i * n..Min(|s|, i * n + n)]
  {
    var lo := (i - 1) * n;
    assert i * n == lo + n;
    assert s[n..][lo..Min(|s| - n, lo + n)] == s[lo + n..Min(|s|, lo + n + n)];
  }

  lemma CeilDivSmall(x: nat, n: nat)
    requires 1 <= n && x <= n
    ensures CeilDiv(x, n) == if x == 0 then 0 else 1
  {
    if x == 0 {
      QuotientIsUnique(x + n - 1, n, 0, n - 1);
    } else {
      QuotientIsUnique(x + n - 1, n, 1, x - 1);
    }
  }

  lemma CeilDivStep(x: nat, n: nat)
    requires 1 <= n <= x
    ensures CeilDiv(x, n) == 1 + CeilDiv(x - n, n)
  {
    var y := x - n + n - 1;
    assert y == y / n * n + y % n;
    assert (1 + y / n) * n == n + y / n * n;
    QuotientIsUnique(x + n - 1, n, 1 + y / n, y % n);
  }

  lemma CeilDivCovers(x: nat, n: nat)
    requires 1 <= n
    ensures x <= CeilDiv(x, n) * n
  {
    var y := x + n - 1;
    assert y == y / n * n + y % n;
  }
}
