/** Where chunks live on disk: hex names in 256 subdirectories, temporary files beside them. */
module ChunkPaths {
  import opened Bytes

  const SLASH: byte := 47
  const DOT: byte := 46
  const TMP: Name := [46, 116, 109, 112]

  /** The digit characters 0-9 and a-f. */
  function Digit(d: nat): (c: byte)
    requires d < 16
    ensures c != SLASH && c != DOT
  {
    if d < 10 then 48 + d else 87 + d
  }

  function HexByte(b: byte): (s: Name)
    ensures |s| == 2
  {
    [Digit(b / 16), Digit(b % 16)]
  }

  function Hex(s: Bytes): (r: Name)
    ensures |r| == 2 * |s|
  {
    if s == [] then [] else HexByte(s[0]) + Hex(s[1..])
  }

  function Nibble(c: byte): (r: Option<nat>)
    ensures r.Some? ==> r.value < 16
  {
    if 48 <= c <= 57 then Some(c - 48)
    else if 97 <= c <= 102 then Some(c - 87)
    else if 65 <= c <= 70 then Some(c - 55)
    else None
  }

  /** Hexadecimal decoding, of either case; none for an odd length or another character. */
  function Unhex(s: Name): Option<Bytes> {
    if s == [] then Some([])
    else if |s| == 1 then None
    else match (Nibble(s[0]), Nibble(s[1]), Unhex(s[2..]))
      case (Some(hi), Some(lo), Some(rest)) => Some([hi * 16 + lo] + rest)
      case _ => None
  }

  lemma {:induction false} HexRoundTrip(s: Bytes)
    ensures Unhex(Hex(s)) == Some(s)
  {
    if s != [] {
      HexRoundTrip(s[1..]);
      assert Hex(s)[2..] == Hex(s[1..]);
      assert s == [s[0]] + s[1..];
    }
  }

  lemma {:induction false} HexPlain(s: Bytes)
    ensures forall i :: 0 <= i < |Hex(s)| ==> Hex(s)[i] != SLASH && Hex(s)[i] != DOT
  {
    if s != [] {
      HexPlain(s[1..]);
    }
  }

  /** Hex names in letters: two lower-case digits for every byte, the high half first. */
  lemma {:induction false} HexLetters(s: Bytes, i: nat)
    requires i < |s|
    ensures Hex(s)[2 * i] == "0123456789abcdef"[s[i] / 16] as int
    ensures Hex(s)[2 * i + 1] == "0123456789abcdef"[s[i] % 16] as int
  {
    if i > 0 {
      HexLetters(s[1..], i - 1);
      assert Hex(s)[2..] == Hex(s[1..]);
      assert Hex(s)[2 * i] == Hex(s)[2..][2 * (i - 1)] && Hex(s)[2 * i + 1] == Hex(s)[2..][2 * (i - 1) + 1];
    }
    DigitLetter(s[i] / 16);
    DigitLetter(s[i] % 16);
  }

  lemma DigitLetter(d: nat)
    requires d < 16
    ensures Digit(d) == "0123456789abcdef"[d] as int
  {
  }

  /** A chunk lies in a directory named by its first two digits, under the other 62; beside it the temporary file,
      with `.tmp` behind its name. */
  lemma SlotInLetters(h: Digest)
    ensures Slot(h) == [Hex(h)[..2], Hex(h)[2..]]
    ensures Temp(h) == [Hex(h)[..2], Hex(h)[2..] + ['.' as int, 't' as int, 'm' as int, 'p' as int]]
    ensures IsTemp(Temp(h)) && !IsTemp(Slot(h))
  {
    SlotReads(h);
    var name := Slot(h)[1];
    HexPlain(h);
    assert name + [46, 116, 109, 112] == name + [46] + [116] + [109] + [112];
    DotStays(name + [46], 116);
    DotStays(name + [46] + [116], 109);
    DotStays(name + [46] + [116] + [109], 112);
    assert (name + TMP)[|name|..] == TMP;
  }

  lemma DotStays(s: Name, c: byte)
    requires c != DOT
    ensures AfterLastDot(s + [c]) == AfterLastDot(s)
  {
    assert (s + [c])[..|s|] == s;
  }

  /** The path of a chunk below the storage directory. */
  function ChunkPath(hex: Name): Path {
    if |hex| < 2 then [hex] else [hex[..2], hex[2..]]
  }

  function Slot(h: Digest): (path: Path)
    ensures |path| == 2 && |path[1]| == 62
  {
    ChunkPath(Hex(h))
  }

  function Temp(h: Digest): (path: Path)
    ensures |path| == 2 && |path[1]| == 66
  {
    [Slot(h)[0], Slot(h)[1] + TMP]
  }

  /** Different chunks have different paths, and no chunk's path is a temporary file's. */
  lemma SlotsApart(g: Digest, h: Digest)
    ensures Slot(g) == Slot(h) ==> g == h
    ensures Temp(g) != Slot(h)
  {
    if Slot(g) == Slot(h) {
      var x, y := Hex(g), Hex(h);
      assert x == Slot(g)[0] + Slot(g)[1] == Slot(h)[0] + Slot(h)[1] == y;
      HexRoundTrip(g);
      HexRoundTrip(h);
    }
  }

  // ------------------------------------------------------------------------------------------
  // From a path back to a hash
  // ------------------------------------------------------------------------------------------

  /** The names of a path with slashes between them; the empty path is a dot. */
  function Joined(path: Path): Name {
    if path == [] then [DOT]
    else if |path| == 1 then path[0]
    else Joined(path[..|path| - 1]) + [SLASH] + path[|path| - 1]
  }

  /** What the walk takes for the hex name of a file: its directory and its own name, put together. */
  function SpelledHash(path: Path): Name {
    if path == [] then [DOT] else Joined(path[..|path| - 1]) + path[|path| - 1]
  }

  /** The position behind the last dot, or 0. */
  function AfterLastDot(s: Name): (i: nat)
    ensures i <= |s|
  {
    if s == [] then 0
    else if s[|s| - 1] == DOT then |s|
    else AfterLastDot(s[..|s| - 1])
  }

  lemma {:induction false} NoDot(s: Name)
    requires forall i :: 0 <= i < |s| ==> s[i] != DOT
    ensures AfterLastDot(s) == 0
  {
    if s != [] {
      NoDot(s[..|s| - 1]);
    }
  }

  predicate IsTemp(path: Path) {
    path != [] &&
    var name := path[|path| - 1];
    var dot := AfterLastDot(name);
    dot != 0 && name[dot - 1..] == TMP
  }

  /** Taking a chunk's path apart gives its hash back, and it does not look temporary. */
  lemma SlotReads(h: Digest)
    ensures SpelledHash(Slot(h)) == Hex(h) && !IsTemp(Slot(h))
  {
    HexPlain(h);
    assert Slot(h)[..1] == [Hex(h)[..2]];
    NoDot(Slot(h)[1]);
  }
}
