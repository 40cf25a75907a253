/** Merkle trees of a directory: nodes, their hashes, and what a root hash commits to. */
module Merkle {
  import opened Bytes

  /** Modes and sizes play no part in hashing or comparing and are not modelled. The hash is a field: a
      manifest received from a peer carries whatever hash the peer wrote there. */
  datatype Node =
    | File(name: Name, hash: Bytes, chunks: seq<Digest>)
    | Dir(name: Name, hash: Bytes, children: seq<Node>)

  function Concat(parts: seq<Bytes>): Bytes {
    if parts == [] then [] else parts[0] + Concat(parts[1..])
  }

  // ------------------------------------------------------------------------------------------
  // The order of names
  // ------------------------------------------------------------------------------------------

  /** Byte-wise lexicographic order, the order of Go strings. */
  predicate Below(x: Name, y: Name) {
    y != [] && (x == [] || x[0] < y[0] || (x[0] == y[0] && Below(x[1..], y[1..])))
  }

  /** The order in plain words: up to some position the names agree, and there the first ends or has the smaller
      byte. */
  ghost predicate Lexical(x: Name, y: Name) {
    exists k :: 0 <= k <= |x| && k <= |y| && x[..k] == y[..k]
                && (k == |x| < |y| || (k < |x| && k < |y| && x[k] < y[k]))
  }

  lemma {:induction false} BelowIsLexical(x: Name, y: Name)
    ensures Below(x, y) <==> Lexical(x, y)
  {
    if x != [] && y != [] && x[0] == y[0] {
      BelowIsLexical(x[1..], y[1..]);
      LexicalTail(x, y);
    } else if Below(x, y) {
      assert x[..0] == y[..0];
    }
  }

  lemma LexicalTail(x: Name, y: Name)
    requires x != [] && y != [] && x[0] == y[0]
    ensures Lexical(x, y) <==> Lexical(x[1..], y[1..])
  {
    var u, v := x[1..], y[1..];
    if k: nat :| k <= |u| && k <= |v| && u[..k] == v[..k]
                 && (k == |u| < |v| || (k < |u| && k < |v| && u[k] < v[k])) {
      assert x[..k + 1] == [x[0]] + u[..k] && y[..k + 1] == [y[0]] + v[..k];
      assert k < |u| && k < |v| ==> x[k + 1] == u[k] && y[k + 1] == v[k];
    }
    if k: nat :| k <= |x| && k <= |y| && x[..k] == y[..k]
                 && (k == |x| < |y| || (k < |x| && k < |y| && x[k] < y[k])) {
      if k > 0 {
        assert u[..k - 1] == x[..k][1..] && v[..k - 1] == y[..k][1..];
      }
    }
  }

  lemma {:induction false} BelowIrreflexive(x: Name)
    ensures !Below(x, x)
  {
    if x != [] {
      BelowIrreflexive(x[1..]);
    }
  }

  lemma {:induction false} BelowTrichotomy(x: Name, y: Name)
    ensures Below(x, y) || x == y || Below(y, x)
    ensures !(Below(x, y) && Below(y, x)) && (x == y ==> !Below(x, y))
  {
    BelowIrreflexive(x);
    if x != [] && y != [] {
      BelowTrichotomy(x[1..], y[1..]);
      assert x == [x[0]] + x[1..] && y == [y[0]] + y[1..];
    }
  }

  lemma {:induction false} BelowTransitive(x: Name, y: Name, z: Name)
    requires Below(x, y) && Below(y, z)
    ensures Below(x, z)
  {
    if x != [] && x[0] == y[0] == z[0] {
      BelowTransitive(x[1..], y[1..], z[1..]);
    }
  }

  // ------------------------------------------------------------------------------------------
  // Sorting children
  // ------------------------------------------------------------------------------------------

  predicate Distinct(nodes: seq<Node>) {
    forall i, j :: 0 <= i < j < |nodes| ==> nodes[i].name != nodes[j].name
  }

  predicate Ascending(nodes: seq<Node>) {
    forall i, j :: 0 <= i < j < |nodes| ==> Below(nodes[i].name, nodes[j].name)
  }

  function Insert(x: Node, nodes: seq<Node>): (r: seq<Node>)
    ensures multiset(r) == multiset(nodes) + multiset{x}
  {
    if nodes == [] then [x]
    else if Below(nodes[0].name, x.name) then
      assert nodes == [nodes[0]] + nodes[1..];
      [nodes[0]] + Insert(x, nodes[1..])
    else [x] + nodes
  }

  /** The children in the order of their names. The original calls a library sort; for distinct names
      every correct sort gives this list (`SortUnique`). */
  function SortByName(nodes: seq<Node>): (r: seq<Node>)
    ensures multiset(r) == multiset(nodes)
  {
    if nodes == [] then [] else
      assert nodes == [nodes[0]] + nodes[1..];
      Insert(nodes[0], SortByName(nodes[1..]))
  }

  lemma InSameMultiset(xs: seq<Node>, ys: seq<Node>, x: Node)
    requires multiset(xs) == multiset(ys)
    ensures x in xs <==> x in ys
  {
    assert x in xs <==> x in multiset(xs);
    assert x in ys <==> x in multiset(ys);
  }

  lemma {:induction false} InsertAscends(x: Node, nodes: seq<Node>)
    requires Ascending(nodes) && forall y :: y in nodes ==> y.name != x.name
    ensures Ascending(Insert(x, nodes))
  {
    if nodes != [] {
      BelowTrichotomy(nodes[0].name, x.name);
      if Below(nodes[0].name, x.name) {
        var rest := Insert(x, nodes[1..]);
        InsertAscends(x, nodes[1..]);
        forall j | 0 <= j < |rest| ensures Below(nodes[0].name, rest[j].name) {
          assert rest[j] in multiset(rest);
          assert rest[j] == x || rest[j] in nodes[1..];
        }
      } else {
        forall j | 0 <= j < |nodes| ensures Below(x.name, nodes[j].name) {
          if j > 0 {
            BelowTransitive(x.name, nodes[0].name, nodes[j].name);
          }
        }
      }
    }
  }

  lemma {:induction false} SortAscends(nodes: seq<Node>)
    requires Distinct(nodes)
    ensures Ascending(SortByName(nodes))
  {
    if nodes != [] {
      var rest := SortByName(nodes[1..]);
      SortAscends(nodes[1..]);
      forall y | y in rest ensures y.name != nodes[0].name {
        InSameMultiset(rest, nodes[1..], y);
      }
      InsertAscends(nodes[0], rest);
    }
  }

  /** The first of an ascending list is determined by its elements. */
  lemma SameFirst(xs: seq<Node>, ys: seq<Node>)
    requires Ascending(xs) && Ascending(ys) && multiset(xs) == multiset(ys) && xs != [] && ys != []
    ensures xs[0] == ys[0]
  {
    hide Below;
    InSameMultiset(xs, ys, xs[0]);
    InSameMultiset(xs, ys, ys[0]);
    var i :| 0 <= i < |ys| && ys[i] == xs[0];
    var j :| 0 <= j < |xs| && xs[j] == ys[0];
    BelowTrichotomy(xs[0].name, ys[0].name);
  }

  /** An ascending list is determined by its elements. */
  lemma {:induction false} AscendingUnique(xs: seq<Node>, ys: seq<Node>)
    requires Ascending(xs) && Ascending(ys) && multiset(xs) == multiset(ys)
    ensures xs == ys
  {
    hide Below;
    assert |xs| == |multiset(xs)| == |multiset(ys)| == |ys|;
    if xs != [] {
      SameFirst(xs, ys);
      assert xs == [xs[0]] + xs[1..] && ys == [ys[0]] + ys[1..];
      assert multiset(xs[1..]) == multiset(xs) - multiset{xs[0]};
      AscendingUnique(xs[1..], ys[1..]);
    }
  }

  /** Whatever sorting routine is used, on distinct names the result is the same list. */
  lemma SortUnique(nodes: seq<Node>, sorted: seq<Node>)
    requires Distinct(nodes) && Ascending(sorted) && multiset(sorted) == multiset(nodes)
    ensures sorted == SortByName(nodes)
  {
    SortAscends(nodes);
    AscendingUnique(sorted, SortByName(nodes));
  }

  // ------------------------------------------------------------------------------------------
  // Hashes
  // ------------------------------------------------------------------------------------------

  function ChildLine(n: Node): Bytes {
    n.name + n.hash
  }

  function ChildLines(nodes: seq<Node>): Bytes {
    if nodes == [] then [] else ChildLine(nodes[0]) + ChildLines(nodes[1..])
  }

  /** The bytes that are hashed for a node: the chunk hashes of a file, the names and hashes of the
      children of a directory. There is no tag for the type and no separator. */
  function Preimage(n: Node): Bytes {
    match n
    case File(_, _, chunks) => Concat(chunks)
    case Dir(_, _, children) => ChildLines(children)
  }

  lemma {:induction false} ConcatAppend(parts: seq<Bytes>, x: Bytes)
    ensures Concat(parts + [x]) == Concat(parts) + x
  {
    if parts == [] {
      assert [x][1..] == [] && Concat([x]) == x + Concat([]);
    } else {
      ConcatAppend(parts[1..], x);
      assert (parts + [x])[1..] == parts[1..] + [x];
    }
  }

  lemma {:induction false} ChildLinesAppend(nodes: seq<Node>, x: Node)
    ensures ChildLines(nodes + [x]) == ChildLines(nodes) + ChildLine(x)
  {
    if nodes == [] {
      assert [x][1..] == [] && ChildLines([x]) == ChildLine(x) + ChildLines([]);
    } else {
      ChildLinesAppend(nodes[1..], x);
      assert (nodes + [x])[1..] == nodes[1..] + [x];
    }
  }

  /** The chunk hashes stand one after the other, 32 bytes each. */
  lemma {:induction false} ConcatAt(chunks: seq<Digest>, i: nat)
    requires i < |chunks|
    ensures |Concat(chunks)| == 32 * |chunks| && Concat(chunks)[32 * i..32 * i + 32] == chunks[i]
  {
    var rest := chunks[1..];
    if i > 0 {
      ConcatAt(rest, i - 1);
      assert Concat(chunks)[32 * i..32 * i + 32] == Concat(rest)[32 * (i - 1)..32 * (i - 1) + 32];
    } else if rest != [] {
      ConcatAt(rest, 0);
    }
  }

  /** The line of a child stands right behind the lines of the children before it: its name, then its hash. */
  lemma {:induction false} ChildLinesAt(nodes: seq<Node>, i: nat)
    requires i < |nodes|
    ensures ChildLines(nodes) == ChildLines(nodes[..i]) + nodes[i].name + nodes[i].hash + ChildLines(nodes[i + 1..])
  {
    if i > 0 {
      ChildLinesAt(nodes[1..], i - 1);
      assert nodes[1..][..i - 1] == nodes[..i][1..] && nodes[1..][i..] == nodes[i + 1..];
    }
  }

  method NewFileNode(sha: Bytes -> Digest, name: Name, chunks: seq<Digest>) returns (node: Node)
    ensures node.File? && node.name == name && node.chunks == chunks && node.hash == sha(Preimage(node))
    ensures |Preimage(node)| == 32 * |chunks|
    ensures forall i :: 0 <= i < |chunks| ==> Preimage(node)[32 * i..32 * i + 32] == chunks[i]
  {
    var hashed: Bytes := [];
    for i := 0 to |chunks|
      invariant hashed == Concat(chunks[..i])
    {
      assert chunks[..i + 1] == chunks[..i] + [chunks[i]];
      ConcatAppend(chunks[..i], chunks[i]);
      hashed := hashed + chunks[i];
    }
    assert chunks[..|chunks|] == chunks;
    forall i | 0 <= i < |chunks|
      ensures 32 * i + 32 <= |Concat(chunks)| == 32 * |chunks| && Concat(chunks)[32 * i..32 * i + 32] == chunks[i]
    {
      ConcatAt(chunks, i);
    }
    node := File(name, sha(hashed), chunks);
  }

  method NewDirNode(sha: Bytes -> Digest, name: Name, children: seq<Node>) returns (node: Node)
    ensures node.Dir? && node.name == name && node.children == SortByName(children)
    ensures node.hash == sha(Preimage(node))
    ensures multiset(node.children) == multiset(children)
    ensures Distinct(children) ==> Ascending(node.children)
    ensures Distinct(children) ==>
              forall i, j :: 0 <= i < j < |node.children| ==> Lexical(node.children[i].name, node.children[j].name)
    ensures node.children == [] ==> Preimage(node) == []
    ensures forall i :: 0 <= i < |node.children| ==>
              Preimage(node) == ChildLines(node.children[..i]) + node.children[i].name + node.children[i].hash
                                + ChildLines(node.children[i + 1..])
  {
    hide Below, SortByName, ChildLine;
    var sorted := SortByName(children);
    var hashed: Bytes := [];
    for i := 0 to |sorted|
      invariant hashed == ChildLines(sorted[..i])
    {
      assert sorted[..i + 1] == sorted[..i] + [sorted[i]];
      ChildLinesAppend(sorted[..i], sorted[i]);
      hashed := hashed + ChildLine(sorted[i]);
    }
    assert sorted[..|sorted|] == sorted;
    node := Dir(name, sha(hashed), sorted);
    if Distinct(children) {
      SortAscends(children);
      forall i, j | 0 <= i < j < |sorted| ensures Lexical(sorted[i].name, sorted[j].name) {
        assert Below(sorted[i].name, sorted[j].name);
        BelowIsLexical(sorted[i].name, sorted[j].name);
      }
    }
    forall i | 0 <= i < |sorted|
      ensures ChildLines(sorted)
              == ChildLines(sorted[..i]) + sorted[i].name + sorted[i].hash + ChildLines(sorted[i + 1..])
    {
      ChildLinesAt(sorted, i);
    }
  }

  /** The hash of a directory does not depend on the order its distinctly named children came in. */
  lemma DirHashOrderFree(children: seq<Node>, shuffled: seq<Node>, name: Name, hash: Bytes)
    requires Distinct(children) && multiset(shuffled) == multiset(children)
    ensures Distinct(shuffled)
    ensures Preimage(Dir(name, hash, SortByName(shuffled))) == Preimage(Dir(name, hash, SortByName(children)))
  {
    DistinctOrderFree(children, shuffled);
    SortAscends(shuffled);
    SortUnique(children, SortByName(shuffled));
  }

  /** Distinctness of names is a matter of the elements: names are distinct exactly when no element occurs
      twice and no two different elements share a name. */
  lemma DistinctOrderFree(xs: seq<Node>, ys: seq<Node>)
    requires Distinct(xs) && multiset(xs) == multiset(ys)
    ensures Distinct(ys)
  {
    forall i, j | 0 <= i < j < |ys| ensures ys[i].name != ys[j].name {
      if ys[i] == ys[j] {
        TwiceInMultiset(ys, i, j);
        DistinctOnce(xs, ys[i]);
      } else if ys[i].name == ys[j].name {
        InSameMultiset(xs, ys, ys[i]);
        InSameMultiset(xs, ys, ys[j]);
      }
    }
  }

  lemma TwiceInMultiset(ys: seq<Node>, i: nat, j: nat)
    requires i < j < |ys| && ys[i] == ys[j]
    ensures multiset(ys)[ys[i]] >= 2
  {
    assert ys == ys[..i] + [ys[i]] + ys[i + 1..j] + [ys[j]] + ys[j + 1..];
  }

  lemma {:induction false} DistinctOnce(xs: seq<Node>, x: Node)
    requires Distinct(xs)
    ensures multiset(xs)[x] <= 1
  {
    if xs != [] {
      assert xs == [xs[0]] + xs[1..];
      DistinctOnce(xs[1..], x);
      assert xs[0] == x ==> x !in xs[1..];
    }
  }

  // ------------------------------------------------------------------------------------------
  // Lookup of a child
  // ------------------------------------------------------------------------------------------

  /** Binary search among the sorted children. */
  method GetChild(n: Node, name: Name) returns (r: Option<Node>)
    requires n.Dir? ==> Ascending(n.children)
    ensures r.Some? ==> n.Dir? && r.value in n.children && r.value.name == name
    ensures r.None? && n.Dir? ==> forall c :: c in n.children ==> c.name != name
  {
    if n.File? {
      return None;
    }
    var lo, hi := 0, |n.children|;
    while lo < hi
      invariant 0 <= lo <= hi <= |n.children|
      invariant forall i :: 0 <= i < lo ==> Below(n.children[i].name, name)
      invariant forall i :: hi <= i < |n.children| ==> !Below(n.children[i].name, name)
    {
      var mid := (lo + hi) / 2;
      if !Below(n.children[mid].name, name) {
        forall i | mid < i < |n.children| ensures !Below(n.children[i].name, name) {
          if Below(n.children[i].name, name) {
            BelowTransitive(n.children[mid].name, n.children[i].name, name);
          }
        }
        hi := mid;
      } else {
        forall i | 0 <= i < mid ensures Below(n.children[i].name, name) {
          BelowTransitive(n.children[i].name, n.children[mid].name, name);
        }
        lo := mid + 1;
      }
    }
    if lo < |n.children| && n.children[lo].name == name {
      return Some(n.children[lo]);
    }
    forall c | c in n.children ensures c.name != name {
      var i :| 0 <= i < |n.children| && n.children[i] == c;
      BelowIrreflexive(name);
      if i > lo {
        BelowTrichotomy(name, n.children[lo].name);
      }
    }
    return None;
  }

  // ------------------------------------------------------------------------------------------
  // What a root hash commits to
  // ------------------------------------------------------------------------------------------

  /** Every hash field is the hash the constructors compute. */
  ghost predicate Hashed(sha: Bytes -> Digest, n: Node) {
    && n.hash == sha(Preimage(n))
    && (n.Dir? ==> forall i :: 0 <= i < |n.children| ==> Hashed(sha, n.children[i]))
  }

  /** Same names, same types, same places. */
  ghost predicate SameShape(x: Node, y: Node) {
    && x.name == y.name && x.Dir? == y.Dir?
    && (x.Dir? ==>
          && |x.children| == |y.children|
          && forall i :: 0 <= i < |x.children| ==> SameShape(x.children[i], y.children[i]))
  }

  /** Every file holds the same list of chunks in both trees. */
  ghost predicate SameChunks(x: Node, y: Node)
    requires SameShape(x, y)
  {
    if x.File? then x.chunks == y.chunks
    else forall i :: 0 <= i < |x.children| ==> SameChunks(x.children[i], y.children[i])
  }

  /** No two nodes in the same place have different inputs with the same hash. */
  ghost predicate NoCollisions(sha: Bytes -> Digest, x: Node, y: Node)
    requires SameShape(x, y)
  {
    && (sha(Preimage(x)) == sha(Preimage(y)) ==> Preimage(x) == Preimage(y))
    && (x.Dir? ==> forall i :: 0 <= i < |x.children| ==> NoCollisions(sha, x.children[i], y.children[i]))
  }

  lemma {:induction false} ConcatInjective(xs: seq<Digest>, ys: seq<Digest>)
    requires Concat(xs) == Concat(ys)
    ensures xs == ys
  {
    if xs == [] || ys == [] {
      assert xs != [] ==> |Concat(xs)| >= 32;
      assert ys != [] ==> |Concat(ys)| >= 32;
    } else {
      assert xs[0] == Concat(xs)[..32] == Concat(ys)[..32] == ys[0];
      assert Concat(xs[1..]) == Concat(xs)[32..] == Concat(ys)[32..] == Concat(ys[1..]);
      ConcatInjective(xs[1..], ys[1..]);
      assert xs == [xs[0]] + xs[1..] && ys == [ys[0]] + ys[1..];
    }
  }

  /** With the same names in the same order, the input of a directory hash determines the child hashes. */
  lemma {:induction false} ChildLinesInjective(xs: seq<Node>, ys: seq<Node>)
    requires |xs| == |ys| && ChildLines(xs) == ChildLines(ys)
    requires forall i :: 0 <= i < |xs| ==> xs[i].name == ys[i].name && |xs[i].hash| == |ys[i].hash| == 32
    ensures forall i :: 0 <= i < |xs| ==> xs[i].hash == ys[i].hash
  {
    if xs != [] {
      var k := |xs[0].name|;
      assert xs[0].hash == ChildLines(xs)[k..k + 32] == ChildLines(ys)[k..k + 32] == ys[0].hash;
      assert ChildLines(xs[1..]) == ChildLines(xs)[k + 32..] == ChildLines(ys)[k + 32..] == ChildLines(ys[1..]);
      ChildLinesInjective(xs[1..], ys[1..]);
      assert forall i :: 1 <= i < |xs| ==> xs[i] == xs[1..][i - 1] && ys[i] == ys[1..][i - 1];
    }
  }

  lemma {:induction false} SameLines(xs: seq<Node>, ys: seq<Node>)
    requires |xs| == |ys| && forall i :: 0 <= i < |xs| ==> xs[i].name == ys[i].name && xs[i].hash == ys[i].hash
    ensures ChildLines(xs) == ChildLines(ys)
  {
    if xs != [] {
      SameLines(xs[1..], ys[1..]);
    }
  }

  /** The root hash is a commitment: for trees of the same shape and without collisions, the root hashes are
      equal exactly when every file has the same chunk list. */
  lemma {:induction false} RootCommits(sha: Bytes -> Digest, x: Node, y: Node)
    requires Hashed(sha, x) && Hashed(sha, y) && SameShape(x, y) && NoCollisions(sha, x, y)
    ensures x.hash == y.hash <==> SameChunks(x, y)
    decreases x
  {
    if x.File? {
      if x.hash == y.hash {
        ConcatInjective(x.chunks, y.chunks);
      }
    } else {
      forall i | 0 <= i < |x.children|
        ensures x.children[i].hash == y.children[i].hash <==> SameChunks(x.children[i], y.children[i])
      {
        RootCommits(sha, x.children[i], y.children[i]);
      }
      assert forall i :: 0 <= i < |x.children| ==> SameShape(x.children[i], y.children[i]);
      if x.hash == y.hash {
        ChildLinesInjective(x.children, y.children);
      }
      if SameChunks(x, y) {
        SameLines(x.children, y.children);
      }
    }
  }

  /** The types are not part of a hash: an empty file and an empty directory have the same one, under
      every hash function. */
  lemma EmptyFileHashesLikeEmptyDir(sha: Bytes -> Digest, name: Name)
    ensures var file, dir := File(name, sha([]), []), Dir(name, sha([]), []);
            Hashed(sha, file) && Hashed(sha, dir) && file.hash == dir.hash
  {
  }

  /** Names and hashes are not kept apart: two empty files `a` and `b` hash like one empty file that is named by the
      name of `a`, its hash and the name of `b`, under every hash function. */
  lemma NamesNotDelimited(sha: Bytes -> Digest, name: Name, a: Name, b: Name)
    ensures var empty := sha([]);
            var two := [File(a, empty, []), File(b, empty, [])];
            var one := [File(a + empty + b, empty, [])];
            var x, y := Dir(name, sha(ChildLines(two)), two), Dir(name, sha(ChildLines(one)), one);
            Hashed(sha, x) && Hashed(sha, y) && Preimage(x) == Preimage(y) && x.hash == y.hash
  {
    var empty := sha([]);
    var two := [File(a, empty, []), File(b, empty, [])];
    var one := [File(a + empty + b, empty, [])];
    assert one[1..] == [] && two[1..][1..] == [] && two[1..][0] == two[1];
    assert ChildLines(two[1..]) == b + empty + [];
    assert ChildLines(two) == a + empty + (b + empty + []);
    assert ChildLines(one) == a + empty + b + empty + [];
    assert ChildLines(two) == ChildLines(one);
  }
}
