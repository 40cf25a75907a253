/** Byte strings, digests and the big-endian integers that every wire format of the program uses. */
module Bytes {

  type byte = b: int | 0 <= b < 256

  type Bytes = seq<byte>

  /** A SHA-256 digest. SHA-256 itself is a parameter of the model, of type `Bytes -> Digest`. */
  type Digest = d: Bytes | |d| == 32 witness seq(32, i => 0)

  /** Names are byte strings: that is how they are compared, hashed and put into paths. */
  type Name = Bytes

  type Path = seq<Name>

  datatype Option<+T> = None | Some(value: T)

  datatype Result<+T> = Ok(value: T) | Err

  const TWO_32: int := 0x1_0000_0000
  const TWO_63: int := 0x8000_0000_0000_0000
  const TWO_64: int := 0x1_0000_0000_0000_0000

  type uint32 = x: int | 0 <= x < TWO_32

  type int64 = x: int | -TWO_63 <= x < TWO_63

  function Min(x: nat, y: nat): nat {
    if x <= y then x else y
  }

  function Pow256(n: nat): (p: nat)
    ensures 1 <= p
  {
    if n == 0 then 1 else 256 * Pow256(n - 1)
  }

  lemma Pow256Values()
    ensures Pow256(2) == 0x1_0000 && Pow256(4) == TWO_32 && Pow256(8) == TWO_64
  {
    assert Pow256(3) == 0x100_0000;
    assert Pow256(6) == 0x1_0000_0000_0000;
  }

  /** The low `n` bytes of `v`, most significant first: the cast to a fixed width followed by the
      big-endian store. */
  function BigEndian(n: nat, v: nat): (s: Bytes)
    ensures |s| == n
  {
    if n == 0 then [] else BigEndian(n - 1, v / 256) + [v % 256]
  }

  function FromBigEndian(s: Bytes): (v: nat)
    ensures v < Pow256(|s|)
  {
    if s == [] then 0 else
      assert Pow256(|s|) == 256 * Pow256(|s| - 1);
      FromBigEndian(s[..|s| - 1]) * 256 + s[|s| - 1]
  }

  lemma {:induction false} BigEndianRoundTrip(n: nat, v: nat)
    ensures FromBigEndian(BigEndian(n, v)) == v % Pow256(n)
  {
    if n != 0 {
      var s := BigEndian(n, v);
      assert s[..n - 1] == BigEndian(n - 1, v / 256);
      BigEndianRoundTrip(n - 1, v / 256);
      ModuloByteStep(v, Pow256(n - 1));
    }
  }

  /** Storing what was read gives the same bytes. */
  lemma {:induction false} BytesRoundTrip(s: Bytes)
    ensures BigEndian(|s|, FromBigEndian(s)) == s
  {
    if s != [] {
      var init := s[..|s| - 1];
      BytesRoundTrip(init);
      assert s == init + [s[|s| - 1]];
    }
  }

  lemma ModuloByteStep(v: nat, p: nat)
    requires 1 <= p
    ensures v % (256 * p) == (v / 256) % p * 256 + v % 256
  {
    var q, r := (v / 256) / p, (v / 256) % p;
    var low := r * 256 + v % 256;
    assert v == (q * p + r) * 256 + v % 256 == q * (256 * p) + low;
    assert low < 256 * p;
    QuotientIsUnique(v, 256 * p, q, low);
  }

  lemma QuotientIsUnique(v: nat, m: nat, q: nat, r: nat)
    requires 0 < m && r < m && v == q * m + r
    ensures v / m == q && v % m == r
  {
    var q', r' := v / m, v % m;
    assert v == q' * m + r';
    if q > q' {
      ProductAtLeast(q - q', m);
    } else if q < q' {
      ProductAtLeast(q' - q, m);
    }
  }

  lemma ProductAtLeast(k: nat, m: nat)
    requires 1 <= k
    ensures m <= k * m
  {
  }

  lemma FitsWidth(n: nat, v: nat)
    requires v < Pow256(n)
    ensures FromBigEndian(BigEndian(n, v)) == v
  {
    BigEndianRoundTrip(n, v);
    SmallModulo(v, Pow256(n));
  }

  lemma SmallModulo(v: nat, m: nat)
    requires v < m
    ensures v % m == v
  {
  }

  /** Reads back what was stored when the value fits the width, with the widths spelled out. */
  lemma BigEndianFits(v: nat)
    ensures v < 0x1_0000 ==> FromBigEndian(BigEndian(2, v)) == v
    ensures v < TWO_32 ==> FromBigEndian(BigEndian(4, v)) == v
    ensures v < TWO_64 ==> FromBigEndian(BigEndian(8, v)) == v
  {
    Pow256Values();
    if v < 0x1_0000 { FitsWidth(2, v); }
    if v < TWO_32 { FitsWidth(4, v); }
    if v < TWO_64 { FitsWidth(8, v); }
  }

  /** The bounds on decoded fixed-width integers. */
  lemma FromBigEndianBounds(s: Bytes)
    ensures |s| == 2 ==> FromBigEndian(s) < 0x1_0000
    ensures |s| == 4 ==> FromBigEndian(s) < TWO_32
    ensures |s| == 8 ==> FromBigEndian(s) < TWO_64
  {
    Pow256Values();
  }

  /** Reinterprets an unsigned 64-bit value as a signed one, and back. */
  function ToInt64(u: nat): (i: int64)
    requires u < TWO_64
    ensures ToUint64(i) == u
  {
    if u < TWO_63 then u else u - TWO_64
  }

  function ToUint64(i: int64): (u: nat)
    ensures u < TWO_64
  {
    if i < 0 then i + TWO_64 else i
  }

  lemma Int64RoundTrip(i: int64)
    ensures ToInt64(FromBigEndian(BigEndian(8, ToUint64(i)))) == i
  {
    BigEndianFits(ToUint64(i));
  }

  /** The bytes on the wire, most significant first. */
  lemma BigEndianBytes(v: nat)
    ensures BigEndian(2, v) == [v / 0x100 % 256, v % 256]
    ensures BigEndian(4, v) == [v / 0x100_0000 % 256, v / 0x1_0000 % 256, v / 0x100 % 256, v % 256]
    ensures BigEndian(8, v) == BigEndian(4, v / 0x1_0000_0000) + BigEndian(4, v)
  {
    hide BigEndian;
    var v1 := v / 256;
    var v2 := v1 / 256;
    var v3 := v2 / 256;
    var v4 := v3 / 256;
    assert v2 == v / 0x1_0000 && v3 == v / 0x100_0000 && v4 == v / 0x1_0000_0000;
    LastByte(1, v);
    LastByte(1, v1);
    LastByte(1, v2);
    LastByte(1, v3);
    LastByte(2, v);
    LastByte(2, v1);
    LastByte(2, v2);
    LastByte(3, v);
    LastByte(3, v1);
    LastByte(4, v);
    LastByte(8, v);
    LastByte(7, v1);
    LastByte(6, v2);
    LastByte(5, v3);
  }

  lemma LastByte(n: nat, v: nat)
    requires 1 <= n
    ensures BigEndian(n, v) == (if n == 1 then [] else BigEndian(n - 1, v / 256)) + [v % 256]
  {
  }

  /** The value of bytes on the wire. */
  lemma FromBigEndianValue(s: Bytes)
    ensures |s| == 2 ==> FromBigEndian(s) == 0x100 * (s[0] as int) + s[1]
    ensures |s| == 4 ==> FromBigEndian(s)
                         == 0x100_0000 * (s[0] as int) + 0x1_0000 * (s[1] as int) + 0x100 * (s[2] as int) + s[3]
  {
    if |s| == 2 {
      assert FromBigEndian(s[..1]) == FromBigEndian(s[..1][..0]) * 256 + s[0];
    }
    if |s| == 4 {
      var t, u, w := s[..3], s[..2], s[..1];
      assert t[..2] == u && u[..1] == w && w[..0] == [];
      assert FromBigEndian(w) == s[0];
      assert FromBigEndian(u) == FromBigEndian(w) * 256 + s[1];
      assert FromBigEndian(t) == FromBigEndian(u) * 256 + s[2];
    }
  }

  lemma SliceBehind(head: Bytes, tail: Bytes, a: nat, b: nat)
    requires a <= b <= |tail|
    ensures (head + tail)[|head| + a..|head| + b] == tail[a..b]
  {
  }

  /** Copies `s` into the buffer at `offset`. */
  method Store(buf: array<byte>, offset: nat, s: Bytes)
    requires offset + |s| <= buf.Length
    modifies buf
    ensures buf[..] == old(buf[..offset]) + s + old(buf[offset + |s|..])
  {
    for i := 0 to |s|
      invariant buf[..] == old(buf[..offset]) + s[..i] + old(buf[offset + i..])
    {
      buf[offset + i] := s[i];
    }
  }
}
