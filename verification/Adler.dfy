/** The weak block hash: Adler-32 sums modulo 65521 (section 2.2 of RFC 1950). */
module Adler {
  import opened Bytes

  const MOD: int := 65521

  datatype Sums = Sums(a: nat, b: nat) {
    /** `(b << 16) | a`; both halves are below 2^16, so the shift and the or are a sum. */
    function Packed(): nat {
      b * 65536 + a
    }
  }

  /** One byte of the loop shared by the block signature and the rolling hash. */
  function Step(h: Sums, x: byte): (r: Sums)
    ensures r.a < MOD && r.b < MOD
  {
    var a := (h.a + x) % MOD;
    Sums(a, (h.b + a) % MOD)
  }

  function Hash(s: Bytes): Sums {
    if s == [] then Sums(1, 0) else Step(Hash(s[..|s| - 1]), s[|s| - 1])
  }

  lemma {:induction false} HashBounds(s: Bytes)
    ensures Hash(s).a < MOD && Hash(s).b < MOD
  {
  }

  /** The weak hash of a block: 32 bits. */
  function Weak(s: Bytes): uint32 {
    HashBounds(s);
    Hash(s).Packed()
  }

  lemma HashAppend(s: Bytes, x: byte)
    ensures Hash(s + [x]) == Step(Hash(s), x)
  {
    assert (s + [x])[..|s|] == s;
  }

  lemma HashPrefix(s: Bytes, i: nat)
    requires i < |s|
    ensures Hash(s[..i + 1]) == Step(Hash(s[..i]), s[i])
  {
    assert s[..i + 1] == s[..i] + [s[i]];
    HashAppend(s[..i], s[i]);
  }

  // The unreduced sums.

  function Sum(s: Bytes): nat {
    if s == [] then 0 else Sum(s[..|s| - 1]) + s[|s| - 1]
  }

  /** Every byte weighted by its distance from the end of the window. */
  function Weighted(s: Bytes): nat {
    if s == [] then 0 else Weighted(s[..|s| - 1]) + Sum(s)
  }

  /** The closed form of Adler-32: the reductions along the way do not change the result. */
  lemma {:induction false} ClosedForm(s: Bytes)
    ensures Hash(s) == Sums((1 + Sum(s)) % MOD, (|s| + Weighted(s)) % MOD)
  {
    if s != [] {
      var init := s[..|s| - 1];
      ClosedForm(init);
      ReduceLeft(1 + Sum(init), s[|s| - 1]);
      ReduceBoth(|init| + Weighted(init), 1 + Sum(s));
    }
  }

  /** The weak hash, in numbers: the plain byte sum in the low half, the weighted one in the high half. */
  lemma WeakValue(s: Bytes)
    ensures Weak(s) == (|s| + Weighted(s)) % 65521 * 0x1_0000 + (1 + Sum(s)) % 65521
  {
    ClosedForm(s);
  }

  /** The byte sums, position by position from the end. */
  lemma SumValues(s: Bytes, x: byte)
    ensures Sum([]) == 0 && Sum(s + [x]) == Sum(s) + x
    ensures Weighted([]) == 0 && Weighted(s + [x]) == Weighted(s) + Sum(s) + x
  {
    assert (s + [x])[..|s|] == s;
  }

  lemma ReduceLeft(x: nat, y: nat)
    ensures (x % MOD + y) % MOD == (x + y) % MOD
  {
  }

  lemma ReduceBoth(x: nat, y: nat)
    ensures (x % MOD + y % MOD) % MOD == (x + y) % MOD
  {
  }

  lemma {:induction false} SumDropsFirst(s: Bytes)
    requires s != []
    ensures Sum(s) == s[0] + Sum(s[1..])
    ensures Weighted(s) == |s| * s[0] + Weighted(s[1..])
  {
    if |s| > 1 {
      var init := s[..|s| - 1];
      SumDropsFirst(init);
      assert s[1..][..|s| - 2] == init[1..];
      assert |s| * s[0] == |init| * s[0] + s[0];
    } else {
      assert s[..0] == [] && s[1..] == [];
      assert Sum(s) == s[0];
    }
  }

  lemma {:induction false} SlidSums(w: Bytes, x: byte)
    requires w != []
    ensures Sum(w[1..] + [x]) == Sum(w) - w[0] + x
    ensures Weighted(w[1..] + [x]) == Weighted(w) - |w| * w[0] + Sum(w[1..] + [x])
  {
    SumDropsFirst(w);
    assert (w[1..] + [x])[..|w| - 1] == w[1..];
  }

  /** The constant-time update for a window sliding by one byte: for every full window of `n` bytes
      that loses `w[0]` and gains `x`,
      `a' = a - w[0] + x` and `b' = b - n * w[0] + a' - 1`, modulo 65521. */
  lemma {:induction false} RollingRecurrence(w: Bytes, x: byte)
    requires w != []
    ensures Hash(w[1..] + [x]).a == (Hash(w).a - w[0] + x) % MOD
    ensures Hash(w[1..] + [x]).b == (Hash(w).b - |w| * w[0] + Hash(w[1..] + [x]).a - 1) % MOD
  {
    hide Hash, Sum, Weighted;
    var w' := w[1..] + [x];
    ClosedForm(w);
    ClosedForm(w');
    SlidSums(w, x);
    SlideClosedForm(Hash(w), Hash(w'), |w|, Sum(w), Weighted(w), Sum(w'), |w| * w[0], w[0], x);
  }

  /** The arithmetic of the recurrence, with `k` for `n * out`. */
  lemma SlideClosedForm(h: Sums, h': Sums, n: nat, s: nat, ws: nat, s': nat, k: int, out: byte, x: byte)
    requires s' == s - out + x && 0 <= ws - k + s'
    requires h == Sums((1 + s) % MOD, (n + ws) % MOD)
    requires h' == Sums((1 + s') % MOD, (n + (ws - k + s')) % MOD)
    ensures h'.a == (h.a - out + x) % MOD
    ensures h'.b == (h.b - k + h'.a - 1) % MOD
  {
    ReduceInt(1 + s, x - out);
    SlideSecondSum(n + ws, k, 1 + s');
  }

  lemma SlideSecondSum(u: int, k: int, t: int)
    ensures (u - k + t - 1) % MOD == (u % MOD - k + t % MOD - 1) % MOD
  {
    ReduceInt(u, t % MOD - k - 1);
    ReduceInt(t, u - k - 1);
  }

  lemma ReduceInt(x: int, y: int)
    ensures (x % MOD + y) % MOD == (x + y) % MOD
  {
  }
}
