/** When skipping subtrees with equal hashes is right: the exact condition, for trees made by the constructors. */
module Pruning {
  import opened Bytes
  import opened ManifestDiff
  import opened Merkle
  import opened Reports
  import opened TreeDiff

  /** A tree as the constructors make it: hashed, and sorted in every directory. */
  ghost predicate Built(sha: Bytes -> Digest, n: Node) {
    && n.hash == sha(Preimage(n))
    && (n.Dir? ==> Ascending(n.children) && forall i :: 0 <= i < |n.children| ==> Built(sha, n.children[i]))
  }

  ghost predicate BothHave(x: Node, y: Node, name: Name) {
    ChildNamed(Kids(x), name).Some? && ChildNamed(Kids(y), name).Some?
  }

  ghost function Kid(n: Node, name: Name): (kid: Node)
    requires ChildNamed(Kids(n), name).Some?
    ensures kid < n
  {
    ChildNamed(Kids(n), name).value
  }

  /** No two nodes at the same path have different hash inputs with the same hash. */
  ghost predicate Uncollided(sha: Bytes -> Digest, x: Node, y: Node)
    decreases x
  {
    && (sha(Preimage(x)) == sha(Preimage(y)) ==> Preimage(x) == Preimage(y))
    && forall name: Name :: BothHave(x, y, name) ==> Uncollided(sha, Kid(x, name), Kid(y, name))
  }

  /** The same hash input, but not the same names below. */
  ghost predicate Muddled(x: Node, y: Node) {
    Preimage(x) == Preimage(y) && Names(Kids(x)) != Names(Kids(y))
  }

  /** The same hash input, but not the same type or not the same names below. */
  ghost predicate Confusable(x: Node, y: Node) {
    Muddled(x, y) || (Preimage(x) == Preimage(y) && x.Dir? != y.Dir?)
  }

  /** No two nodes at the same path are confusable. */
  ghost predicate Clear(x: Node, y: Node)
    decreases x
  {
    && !Confusable(x, y)
    && forall name: Name :: BothHave(x, y, name) ==> Clear(Kid(x, name), Kid(y, name))
  }

  /** No two nodes at the same path are muddled. */
  ghost predicate TopClear(x: Node, y: Node)
    decreases x
  {
    && !Muddled(x, y)
    && forall name: Name :: BothHave(x, y, name) ==> TopClear(Kid(x, name), Kid(y, name))
  }

  // ------------------------------------------------------------------------------------------
  // Equal inputs and equal names give equal hashes below
  // ------------------------------------------------------------------------------------------

  lemma LastName(xs: seq<Node>, ys: seq<Node>)
    requires Ascending(xs) && Ascending(ys) && Names(xs) == Names(ys) && xs != []
    ensures ys != [] && xs[|xs| - 1].name == ys[|ys| - 1].name
  {
    hide Below;
    var x := xs[|xs| - 1];
    assert x.name in Names(xs);
    var j :| 0 <= j < |ys| && ys[j].name == x.name;
    var y := ys[|ys| - 1];
    assert y.name in Names(ys);
    var i :| 0 <= i < |xs| && xs[i].name == y.name;
    BelowTrichotomy(x.name, y.name);
  }

  lemma NamesWithoutLast(xs: seq<Node>)
    requires Ascending(xs) && xs != []
    ensures Ascending(xs[..|xs| - 1]) && Names(xs[..|xs| - 1]) == Names(xs) - {xs[|xs| - 1].name}
  {
    hide Below;
    var last := |xs| - 1;
    assert xs == xs[..last] + [xs[last]];
    BelowIrreflexive(xs[last].name);
    forall i | 0 <= i < last ensures xs[i].name != xs[last].name {
      assert Below(xs[i].name, xs[last].name);
    }
    assert Names(xs) == Names(xs[..last]) + {xs[last].name};
  }

  /** Two sorted lists with the same names have them in the same places. */
  lemma {:induction false} SameNames(xs: seq<Node>, ys: seq<Node>)
    requires Ascending(xs) && Ascending(ys) && Names(xs) == Names(ys)
    ensures |xs| == |ys| && forall i :: 0 <= i < |xs| ==> xs[i].name == ys[i].name
    decreases |xs|
  {
    if xs == [] {
      assert Names(xs) == {};
      if ys != [] {
        LastName(ys, xs);
      }
    } else {
      LastName(xs, ys);
      NamesWithoutLast(xs);
      NamesWithoutLast(ys);
      var as', bs := xs[..|xs| - 1], ys[..|ys| - 1];
      SameNames(as', bs);
      assert forall i :: 0 <= i < |as'| ==> xs[i] == as'[i] && ys[i] == bs[i];
    }
  }

  lemma PairBelow(sha: Bytes -> Digest, x: Node, y: Node, name: Name)
    requires Built(sha, x) && Built(sha, y) && Uncollided(sha, x, y) && BothHave(x, y, name)
    ensures var (c, d) := (Kid(x, name), Kid(y, name));
            Built(sha, c) && Built(sha, d) && Uncollided(sha, c, d)
  {
  }

  lemma InNames(kids: seq<Node>, name: Name)
    ensures name in Names(kids) <==> ChildNamed(kids, name).Some?
  {
  }

  /** Nodes with the same hash input and the same names below agree about the hashes of the children. */
  lemma SameHashesBelow(sha: Bytes -> Digest, x: Node, y: Node, name: Name)
    requires Built(sha, x) && Built(sha, y) && Preimage(x) == Preimage(y) && Names(Kids(x)) == Names(Kids(y))
    ensures ChildNamed(Kids(x), name).Some? == ChildNamed(Kids(y), name).Some?
    ensures BothHave(x, y, name) ==> Kid(x, name).hash == Kid(y, name).hash
  {
    InNames(Kids(x), name);
    InNames(Kids(y), name);
    if x.Dir? && y.Dir? {
      hide Below;
      SameNames(x.children, y.children);
      forall i | 0 <= i < |x.children| ensures |x.children[i].hash| == |y.children[i].hash| == 32 {
        assert Built(sha, x.children[i]) && Built(sha, y.children[i]);
      }
      ChildLinesInjective(x.children, y.children);
      var i := ChildPlace(x.children, y.children, name);
    }
  }

  lemma EqualInputs(sha: Bytes -> Digest, x: Node, y: Node)
    requires Built(sha, x) && Built(sha, y) && Uncollided(sha, x, y)
    ensures x.hash == y.hash <==> Preimage(x) == Preimage(y)
  {
  }

  // ------------------------------------------------------------------------------------------
  // The tree comparison
  // ------------------------------------------------------------------------------------------

  /** There is nothing to report about the pair. */
  ghost predicate Silent(x: Node, y: Node) {
    forall p: Path :: Expected(Some(x), Some(y), p) == None
  }

  lemma ExpectedBelow(x: Node, y: Node, name: Name, p: Path)
    requires !Clash(Some(x), Some(y))
    ensures Expected(Some(x), Some(y), [name] + p)
            == Expected(ChildNamed(Kids(x), name), ChildNamed(Kids(y), name), p)
  {
    assert ([name] + p)[1..] == p;
  }

  /** Where nothing is to be reported the names below agree. */
  lemma SilentNames(x: Node, y: Node)
    requires Silent(x, y)
    ensures x.Dir? == y.Dir? && (x.File? ==> x.chunks == y.chunks) && Names(Kids(x)) == Names(Kids(y))
  {
    assert Expected(Some(x), Some(y), []) == None;
    forall name: Name ensures name in Names(Kids(x)) <==> name in Names(Kids(y)) {
      InNames(Kids(x), name);
      InNames(Kids(y), name);
      ExpectedBelow(x, y, name, []);
    }
  }

  /** Skipping a pair hides nothing exactly when no two nodes of it are confusable. */
  lemma {:induction false} SilentExactly(sha: Bytes -> Digest, x: Node, y: Node)
    requires Built(sha, x) && Built(sha, y) && Uncollided(sha, x, y) && x.hash == y.hash
    ensures Silent(x, y) <==> Clear(x, y)
    decreases x
  {
    hide Expected, Built, Uncollided, Clear, ChildNamed, Kids, Kid;
    if Silent(x, y) {
      forall name: Name | BothHave(x, y, name) ensures Clear(Kid(x, name), Kid(y, name)) {
        SilentChild(sha, x, y, name);
        SilentExactly(sha, Kid(x, name), Kid(y, name));
      }
      SilentClear(x, y);
    }
    if Clear(x, y) {
      forall p: Path ensures Expected(Some(x), Some(y), p) == None {
        ClearSilent(sha, x, y, p);
      }
    }
  }

  lemma SilentClear(x: Node, y: Node)
    requires Silent(x, y)
    requires forall name: Name :: BothHave(x, y, name) ==> Clear(Kid(x, name), Kid(y, name))
    ensures Clear(x, y)
  {
    SilentNames(x, y);
  }

  lemma SilentChild(sha: Bytes -> Digest, x: Node, y: Node, name: Name)
    requires Built(sha, x) && Built(sha, y) && Uncollided(sha, x, y) && x.hash == y.hash
    requires Silent(x, y)
    requires BothHave(x, y, name)
    ensures var (c, d) := (Kid(x, name), Kid(y, name));
            && Built(sha, c) && Built(sha, d) && Uncollided(sha, c, d) && c.hash == d.hash
            && Silent(c, d)
  {
    hide Expected, Built, Uncollided, Names, Kids, ChildNamed, Preimage;
    SilentNames(x, y);
    EqualInputs(sha, x, y);
    SameHashesBelow(sha, x, y, name);
    PairBelow(sha, x, y, name);
    forall p: Path ensures Expected(Some(Kid(x, name)), Some(Kid(y, name)), p) == None {
      ExpectedBelow(x, y, name, p);
      assert Expected(Some(x), Some(y), [name] + p) == None;
    }
  }

  lemma ClearChild(x: Node, y: Node, name: Name)
    requires Clear(x, y)
    ensures BothHave(x, y, name) ==> Clear(Kid(x, name), Kid(y, name))
    ensures !Confusable(x, y)
  {
  }

  lemma {:induction false} ClearSilent(sha: Bytes -> Digest, x: Node, y: Node, p: Path)
    requires Built(sha, x) && Built(sha, y) && Uncollided(sha, x, y) && x.hash == y.hash && Clear(x, y)
    ensures Expected(Some(x), Some(y), p) == None
    decreases p
  {
    hide Built, Uncollided, Clear, Names, ChildNamed;
    EqualInputs(sha, x, y);
    if p == [] {
      ClearChild(x, y, []);
      if x.File? {
        ConcatInjective(x.chunks, y.chunks);
      }
    } else {
      ClearChild(x, y, p[0]);
      SameHashesBelow(sha, x, y, p[0]);
      if ChildNamed(Kids(x), p[0]).Some? {
        PairBelow(sha, x, y, p[0]);
        ClearSilent(sha, Kid(x, p[0]), Kid(y, p[0]), p[1..]);
      } else {
        NothingExpected(p[1..]);
      }
    }
  }

  /** The exact condition for the tree comparison of constructed trees without collisions: it is right if and only if
      no two nodes at the same path have the same hash input but different types or different names below. */
  lemma {:induction false} TruthfulExactly(sha: Bytes -> Digest, x: Node, y: Node)
    requires Built(sha, x) && Built(sha, y) && Uncollided(sha, x, y)
    ensures Truthful(x, y) <==> Clear(x, y)
    decreases x
  {
    hide Expected, Built, Uncollided, Truthful, Clear, ChildNamed, Kids, Kid, Preimage;
    EqualInputs(sha, x, y);
    if x.hash == y.hash {
      TruthfulPruned(x, y);
      SilentExactly(sha, x, y);
    } else {
      TruthfulStep(x, y);
      ClearStep(x, y);
      forall name: Name | BothHave(x, y, name)
        ensures Truthful(Kid(x, name), Kid(y, name)) <==> Clear(Kid(x, name), Kid(y, name))
      {
        PairBelow(sha, x, y, name);
        TruthfulExactly(sha, Kid(x, name), Kid(y, name));
      }
    }
  }

  lemma TruthfulPruned(x: Node, y: Node)
    requires x.hash == y.hash
    ensures Truthful(x, y) <==> Silent(x, y)
  {
  }

  /** A pair that is not skipped is right exactly if all pairs below it are... */
  lemma TruthfulStep(x: Node, y: Node)
    requires x.hash != y.hash && Preimage(x) != Preimage(y)
    ensures Truthful(x, y)
            <==> forall name: Name :: BothHave(x, y, name) ==> Truthful(Kid(x, name), Kid(y, name))
  {
    hide Expected, Topmost;
    if Truthful(x, y) {
      forall name: Name | BothHave(x, y, name) ensures Truthful(Kid(x, name), Kid(y, name)) {
        assert Kid(x, name) == ChildNamed(Kids(x), name).value && Kid(y, name) == ChildNamed(Kids(y), name).value;
      }
    } else if x.Dir? && y.Dir? {
      var name: Name :| ChildNamed(x.children, name).Some? && ChildNamed(y.children, name).Some?
                        && !Truthful(ChildNamed(x.children, name).value, ChildNamed(y.children, name).value);
      assert BothHave(x, y, name) && !Truthful(Kid(x, name), Kid(y, name));
    }
  }

  /** ... and clear exactly if all pairs below it are. */
  lemma ClearStep(x: Node, y: Node)
    requires Preimage(x) != Preimage(y)
    ensures Clear(x, y)
            <==> forall name: Name :: BothHave(x, y, name) ==> Clear(Kid(x, name), Kid(y, name))
  {
    hide ChildNamed, Kids, Kid, Names;
  }

  // ------------------------------------------------------------------------------------------
  // The manifest comparison
  // ------------------------------------------------------------------------------------------

  ghost predicate TopSilent(x: Node, y: Node) {
    forall p: Path :: Topmost(Some(x), Some(y), p) == None
  }

  lemma TopmostBelow(x: Node, y: Node, name: Name, p: Path)
    ensures Topmost(Some(x), Some(y), [name] + p)
            == Topmost(ChildNamed(Kids(x), name), ChildNamed(Kids(y), name), p)
  {
    assert ([name] + p)[1..] == p;
  }

  lemma SilentTopNames(x: Node, y: Node)
    requires TopSilent(x, y)
    ensures Names(Kids(x)) == Names(Kids(y))
  {
    forall name: Name ensures name in Names(Kids(x)) <==> name in Names(Kids(y)) {
      InNames(Kids(x), name);
      InNames(Kids(y), name);
      TopmostBelow(x, y, name, []);
      assert Topmost(Some(x), Some(y), [name] + []) == None;
    }
  }

  lemma SilentTopChild(sha: Bytes -> Digest, x: Node, y: Node, name: Name)
    requires Built(sha, x) && Built(sha, y) && Uncollided(sha, x, y) && x.hash == y.hash
    requires TopSilent(x, y)
    requires BothHave(x, y, name)
    ensures var (c, d) := (Kid(x, name), Kid(y, name));
            && Built(sha, c) && Built(sha, d) && Uncollided(sha, c, d) && c.hash == d.hash
            && TopSilent(c, d)
  {
    hide Topmost, Built, Uncollided, Names, Kids, ChildNamed, Preimage;
    SilentTopNames(x, y);
    EqualInputs(sha, x, y);
    SameHashesBelow(sha, x, y, name);
    PairBelow(sha, x, y, name);
    forall p: Path ensures Topmost(Some(Kid(x, name)), Some(Kid(y, name)), p) == None {
      TopmostBelow(x, y, name, p);
      assert Topmost(Some(x), Some(y), [name] + p) == None;
    }
  }

  lemma SilentTopClear(x: Node, y: Node)
    requires TopSilent(x, y)
    requires forall name: Name :: BothHave(x, y, name) ==> TopClear(Kid(x, name), Kid(y, name))
    ensures TopClear(x, y)
  {
    SilentTopNames(x, y);
  }

  lemma TopClearChild(x: Node, y: Node, name: Name)
    requires TopClear(x, y)
    ensures BothHave(x, y, name) ==> TopClear(Kid(x, name), Kid(y, name))
    ensures !Muddled(x, y)
  {
  }

  lemma {:induction false} TopClearSilent(sha: Bytes -> Digest, x: Node, y: Node, p: Path)
    requires Built(sha, x) && Built(sha, y) && Uncollided(sha, x, y) && x.hash == y.hash && TopClear(x, y)
    ensures Topmost(Some(x), Some(y), p) == None
    decreases p
  {
    hide Built, Uncollided, TopClear, Names, ChildNamed;
    EqualInputs(sha, x, y);
    if p == [] {
      if x.File? && y.File? {
        ConcatInjective(x.chunks, y.chunks);
      }
    } else {
      TopClearChild(x, y, p[0]);
      SameHashesBelow(sha, x, y, p[0]);
      if ChildNamed(Kids(x), p[0]).Some? {
        PairBelow(sha, x, y, p[0]);
        TopClearSilent(sha, Kid(x, p[0]), Kid(y, p[0]), p[1..]);
      }
    }
  }

  lemma {:induction false} TopSilentExactly(sha: Bytes -> Digest, x: Node, y: Node)
    requires Built(sha, x) && Built(sha, y) && Uncollided(sha, x, y) && x.hash == y.hash
    ensures TopSilent(x, y) <==> TopClear(x, y)
    decreases x
  {
    hide Topmost, Built, Uncollided, TopClear, ChildNamed, Kids, Kid;
    if TopSilent(x, y) {
      forall name: Name | BothHave(x, y, name) ensures TopClear(Kid(x, name), Kid(y, name)) {
        SilentTopChild(sha, x, y, name);
        TopSilentExactly(sha, Kid(x, name), Kid(y, name));
      }
      SilentTopClear(x, y);
    }
    if TopClear(x, y) {
      forall p: Path ensures Topmost(Some(x), Some(y), p) == None {
        TopClearSilent(sha, x, y, p);
      }
    }
  }

  /** The exact condition for the manifest comparison of constructed trees without collisions: it is right if and only
      if no two nodes at the same path have the same hash input but different names below. */
  lemma {:induction false} TopTruthfulExactly(sha: Bytes -> Digest, x: Node, y: Node)
    requires Built(sha, x) && Built(sha, y) && Uncollided(sha, x, y)
    ensures TopTruthful(x, y) <==> TopClear(x, y)
    decreases x
  {
    hide Topmost, Built, Uncollided, TopTruthful, TopClear, ChildNamed, Kids, Kid, Preimage;
    EqualInputs(sha, x, y);
    if x.hash == y.hash {
      TopTruthfulPruned(x, y);
      TopSilentExactly(sha, x, y);
    } else {
      TopTruthfulStep(x, y);
      TopClearStep(x, y);
      forall name: Name | BothHave(x, y, name)
        ensures TopTruthful(Kid(x, name), Kid(y, name)) <==> TopClear(Kid(x, name), Kid(y, name))
      {
        PairBelow(sha, x, y, name);
        TopTruthfulExactly(sha, Kid(x, name), Kid(y, name));
      }
    }
  }

  lemma TopTruthfulPruned(x: Node, y: Node)
    requires x.hash == y.hash
    ensures TopTruthful(x, y) <==> TopSilent(x, y)
  {
  }

  /** A pair that is not skipped is right exactly if all pairs below it are... */
  lemma TopTruthfulStep(x: Node, y: Node)
    requires x.hash != y.hash && Preimage(x) != Preimage(y)
    ensures TopTruthful(x, y)
            <==> forall name: Name :: BothHave(x, y, name) ==> TopTruthful(Kid(x, name), Kid(y, name))
  {
    hide Expected, Topmost;
    if TopTruthful(x, y) {
      forall name: Name | BothHave(x, y, name) ensures TopTruthful(Kid(x, name), Kid(y, name)) {
        assert Kid(x, name) == ChildNamed(Kids(x), name).value && Kid(y, name) == ChildNamed(Kids(y), name).value;
      }
    } else if x.Dir? && y.Dir? {
      var name: Name :| ChildNamed(x.children, name).Some? && ChildNamed(y.children, name).Some?
                        && !TopTruthful(ChildNamed(x.children, name).value, ChildNamed(y.children, name).value);
      assert BothHave(x, y, name) && !TopTruthful(Kid(x, name), Kid(y, name));
    }
  }

  /** ... and clear exactly if all pairs below it are. */
  lemma TopClearStep(x: Node, y: Node)
    requires Preimage(x) != Preimage(y)
    ensures TopClear(x, y)
            <==> forall name: Name :: BothHave(x, y, name) ==> TopClear(Kid(x, name), Kid(y, name))
  {
    hide ChildNamed, Kids, Kid, Names;
  }

  /** Names and hashes that run together: where two empty files were replaced by one with a fitting name, the hash of
      the directory stays, and neither comparison reports anything although everything below changed. */
  lemma ChangeMissed(sha: Bytes -> Digest, name: Name, a: Name, b: Name)
    requires Below(a, b)
    ensures var empty := sha([]);
            var two := [File(a, empty, []), File(b, empty, [])];
            var one := [File(a + empty + b, empty, [])];
            var x, y := Dir(name, sha(ChildLines(two)), two), Dir(name, sha(ChildLines(one)), one);
            && Built(sha, x) && Built(sha, y) && Muddled(x, y) && !Truthful(x, y) && !TopTruthful(x, y)
            && x.hash == y.hash && Expected(Some(x), Some(y), [a]) == Some(Added(two[0]))
  {
    var empty := sha([]);
    var two := [File(a, empty, []), File(b, empty, [])];
    var one := [File(a + empty + b, empty, [])];
    var x, y := Dir(name, sha(ChildLines(two)), two), Dir(name, sha(ChildLines(one)), one);
    NamesNotDelimited(sha, name, a, b);
    BelowIrreflexive(a);
    hide Below, ChildLines, ChildNamed, Names, Expected, Truthful, TopTruthful;
    BuiltOfEmptyFiles(sha, name, two);
    BuiltOfEmptyFiles(sha, name, one);
    OwnChild(two, 0);
    NoSuchChild(File(a + empty + b, empty, []), a);
    InNames(two, a);
    InNames(one, a);
    FirstLevel(x, y, a);
  }

  lemma BuiltOfEmptyFiles(sha: Bytes -> Digest, name: Name, files: seq<Node>)
    requires Ascending(files) && forall i :: 0 <= i < |files| ==> files[i] == File(files[i].name, sha([]), [])
    ensures Built(sha, Dir(name, sha(ChildLines(files)), files))
  {
  }

  lemma NoSuchChild(child: Node, name: Name)
    requires child.name != name
    ensures ChildNamed([child], name) == None
  {
    assert [child][..0] == [];
  }

  lemma FirstLevel(x: Node, y: Node, name: Name)
    requires x.Dir? && y.Dir? && x.hash == y.hash
    requires ChildNamed(x.children, name).Some? && ChildNamed(y.children, name).None?
    ensures Expected(Some(x), Some(y), [name]) == Some(Added(ChildNamed(x.children, name).value))
    ensures !Truthful(x, y) && !TopTruthful(x, y)
  {
    assert [name][1..] == [];
    assert Expected(Some(x), Some(y), [name]).Some? && Topmost(Some(x), Some(y), [name]).Some?;
  }
}
