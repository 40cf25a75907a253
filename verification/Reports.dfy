/** Reports about the paths of a tree, in any order: what it means that they are complete. */
module Reports {
  import opened Bytes
  import opened Merkle

  datatype Item<+C> = Item(path: Path, what: C)

  /** `es` reports, for the relative paths in `scope`, exactly what `f` expects there, each path once, and
      nothing else. The order of the reports is free. */
  ghost predicate Lists<C(!new)>(es: seq<Item<C>>, base: Path, f: Path -> Option<C>, scope: iset<Path>) {
    && (forall i :: 0 <= i < |es| ==> Justified(es[i], base, f, scope))
    && (forall p :: p in scope && f(p).Some? ==> Reported(es, base + p))
    && (forall i, j :: 0 <= i < j < |es| ==> es[i].path != es[j].path)
  }

  ghost predicate Justified<C(!new)>(e: Item<C>, base: Path, f: Path -> Option<C>, scope: iset<Path>) {
    exists p :: p in scope && e.path == base + p && f(p) == Some(e.what)
  }

  ghost predicate Reported<C>(es: seq<Item<C>>, path: Path) {
    exists i :: 0 <= i < |es| && es[i].path == path
  }

  ghost const EVERYWHERE: iset<Path> := iset p: Path | true
  ghost const HERE: iset<Path> := iset{[]}

  /** The paths that start with one of the names. */
  ghost function Under(names: set<Name>): iset<Path> {
    iset p: Path | p != [] && p[0] in names
  }

  /** A complete list has a report at a path exactly when one is expected, and it is that one. */
  lemma ListsAt<C(!new)>(es: seq<Item<C>>, base: Path, f: Path -> Option<C>, p: Path, c: C)
    requires Lists(es, base, f, EVERYWHERE)
    ensures Item(base + p, c) in es <==> f(p) == Some(c)
  {
    if Item(base + p, c) in es {
      var i :| 0 <= i < |es| && es[i] == Item(base + p, c);
      assert Justified(es[i], base, f, EVERYWHERE);
      var q :| base + p == base + q && f(q) == Some(c);
      assert p == (base + p)[|base|..] == (base + q)[|base|..] == q;
    }
    if f(p) == Some(c) {
      assert p in EVERYWHERE && Reported(es, base + p);
      var i :| 0 <= i < |es| && es[i].path == base + p;
      assert Justified(es[i], base, f, EVERYWHERE);
      var q :| base + p == base + q && f(q) == Some(es[i].what);
      assert p == (base + p)[|base|..] == (base + q)[|base|..] == q;
      assert es[i] == Item(base + p, c);
    }
  }

  lemma ListsUnion<C(!new)>(es: seq<Item<C>>, fs: seq<Item<C>>, base: Path, f: Path -> Option<C>,
                            s: iset<Path>, t: iset<Path>)
    requires Lists(es, base, f, s) && Lists(fs, base, f, t) && s !! t
    ensures Lists(es + fs, base, f, s + t)
  {
    forall i | 0 <= i < |es + fs| ensures Justified((es + fs)[i], base, f, s + t) {
      if i < |es| {
        assert Justified(es[i], base, f, s);
      } else {
        assert Justified(fs[i - |es|], base, f, t);
      }
    }
    forall p | p in s + t && f(p).Some? ensures Reported(es + fs, base + p) {
      if p in s {
        var i :| 0 <= i < |es| && es[i].path == base + p;
        assert (es + fs)[i].path == base + p;
      } else {
        var i :| 0 <= i < |fs| && fs[i].path == base + p;
        assert (es + fs)[|es| + i].path == base + p;
      }
    }
    forall i, j | 0 <= i < |es| && 0 <= j < |fs| ensures es[i].path != fs[j].path {
      assert Justified(es[i], base, f, s) && Justified(fs[j], base, f, t);
      var p :| p in s && es[i].path == base + p;
      var q :| q in t && fs[j].path == base + q;
      assert (base + p)[|base|..] == p && (base + q)[|base|..] == q;
    }
  }

  /** Paths where nothing is expected may join the scope. */
  lemma ListsWiden<C(!new)>(es: seq<Item<C>>, base: Path, f: Path -> Option<C>, s: iset<Path>, t: iset<Path>)
    requires Lists(es, base, f, s) && s <= t
    requires forall p :: p in t && p !in s ==> f(p) == None
    ensures Lists(es, base, f, t)
  {
    forall i | 0 <= i < |es| ensures Justified(es[i], base, f, t) {
      assert Justified(es[i], base, f, s);
    }
  }

  /** The reports for a child, seen from its parent. */
  lemma ListsFromChild<C(!new)>(es: seq<Item<C>>, base: Path, f: Path -> Option<C>, g: Path -> Option<C>, name: Name)
    requires Lists(es, base + [name], g, EVERYWHERE)
    requires forall p :: f([name] + p) == g(p)
    ensures Lists(es, base, f, Under({name}))
  {
    forall i | 0 <= i < |es| ensures Justified(es[i], base, f, Under({name})) {
      assert Justified(es[i], base + [name], g, EVERYWHERE);
      var p :| es[i].path == base + [name] + p && g(p) == Some(es[i].what);
      assert base + ([name] + p) == base + [name] + p;
      assert [name] + p in Under({name}) && f([name] + p) == g(p);
    }
    forall q | q in Under({name}) && f(q).Some? ensures Reported(es, base + q) {
      var p := q[1..];
      assert q == [name] + p && base + q == base + [name] + p;
      assert p in EVERYWHERE && f([name] + p) == g(p);
    }
  }

  lemma ListsOne<C(!new)>(base: Path, f: Path -> Option<C>, c: C)
    requires f([]) == Some(c)
    ensures Lists([Item(base, c)], base, f, HERE)
  {
    assert base + [] == base && [] in HERE;
    assert [Item(base, c)][0].path == base;
  }

  lemma ListsNone<C(!new)>(base: Path, f: Path -> Option<C>, s: iset<Path>)
    requires forall p :: p in s ==> f(p) == None
    ensures Lists([], base, f, s)
  {
  }

  // ------------------------------------------------------------------------------------------
  // Taking lists apart
  // ------------------------------------------------------------------------------------------

  /** All reports are about paths in the scope. */
  ghost predicate Within<C>(es: seq<Item<C>>, base: Path, scope: iset<Path>) {
    forall i :: 0 <= i < |es| ==> base <= es[i].path && es[i].path[|base|..] in scope
  }

  lemma WithinChild<C>(es: seq<Item<C>>, base: Path, name: Name)
    requires Within(es, base + [name], EVERYWHERE)
    ensures Within(es, base, Under({name}))
  {
    forall i | 0 <= i < |es| ensures base <= es[i].path && es[i].path[|base|..] in Under({name}) {
      assert base + [name] <= es[i].path;
      assert base <= base + [name] && es[i].path[|base|] == (base + [name])[|base|];
    }
  }

  lemma JustifiedNarrow<C(!new)>(e: Item<C>, base: Path, f: Path -> Option<C>, s: iset<Path>, t: iset<Path>)
    requires Justified(e, base, f, t) && base <= e.path && e.path[|base|..] in s
    ensures Justified(e, base, f, s)
  {
    var p :| p in t && e.path == base + p && f(p) == Some(e.what);
    assert (base + p)[|base|..] == p;
  }

  /** A complete list stays complete for a smaller scope that holds all its reports. */
  lemma ListsNarrow<C(!new)>(es: seq<Item<C>>, base: Path, f: Path -> Option<C>, s: iset<Path>, t: iset<Path>)
    requires Lists(es, base, f, t) && s <= t && Within(es, base, s)
    ensures Lists(es, base, f, s)
  {
    forall i | 0 <= i < |es| ensures Justified(es[i], base, f, s) {
      JustifiedNarrow(es[i], base, f, s, t);
    }
  }

  /** The parts of a complete list about disjoint scopes are complete. */
  lemma ListsSplit<C(!new)>(es: seq<Item<C>>, fs: seq<Item<C>>, base: Path, f: Path -> Option<C>,
                            s: iset<Path>, t: iset<Path>)
    requires Lists(es + fs, base, f, s + t) && s !! t && Within(es, base, s) && Within(fs, base, t)
    ensures Lists(es, base, f, s) && Lists(fs, base, f, t)
  {
    var all := es + fs;
    forall i | 0 <= i < |es| ensures Justified(es[i], base, f, s) {
      assert Justified(all[i], base, f, s + t);
      JustifiedNarrow(es[i], base, f, s, s + t);
    }
    forall i | 0 <= i < |fs| ensures Justified(fs[i], base, f, t) {
      assert Justified(all[|es| + i], base, f, s + t);
      JustifiedNarrow(fs[i], base, f, t, s + t);
    }
    forall p | p in s + t && f(p).Some? ensures Reported(if p in s then es else fs, base + p) {
      var i :| 0 <= i < |all| && all[i].path == base + p;
      assert (base + p)[|base|..] == p;
      assert if i < |es| then es[i] == all[i] else fs[i - |es|] == all[i];
    }
    forall i, j | 0 <= i < j < |es| ensures es[i].path != es[j].path {
      assert all[i].path != all[j].path;
    }
    forall i, j | 0 <= i < j < |fs| ensures fs[i].path != fs[j].path {
      assert all[|es| + i].path != all[|es| + j].path;
    }
  }

  lemma JustifiedInChild<C(!new)>(e: Item<C>, base: Path, f: Path -> Option<C>, g: Path -> Option<C>, name: Name)
    requires Justified(e, base, f, Under({name}))
    requires forall p :: f([name] + p) == g(p)
    ensures Justified(e, base + [name], g, EVERYWHERE)
  {
    var q :| q in Under({name}) && e.path == base + q && f(q) == Some(e.what);
    var p := q[1..];
    assert q == [name] + p;
    assert base + q == base + [name] + p;
    assert p in EVERYWHERE && g(p) == Some(e.what);
  }

  lemma ReportedInChild<C(!new)>(es: seq<Item<C>>, base: Path, f: Path -> Option<C>, g: Path -> Option<C>,
                                 name: Name, p: Path)
    requires Lists(es, base, f, Under({name})) && f([name] + p) == g(p) && g(p).Some?
    ensures Reported(es, base + [name] + p)
  {
    assert [name] + p in Under({name});
    assert base + ([name] + p) == base + [name] + p;
  }

  /** The reports about a child, seen from the child. */
  lemma ListsToChild<C(!new)>(es: seq<Item<C>>, base: Path, f: Path -> Option<C>, g: Path -> Option<C>, name: Name)
    requires Lists(es, base, f, Under({name}))
    requires forall p :: f([name] + p) == g(p)
    ensures Lists(es, base + [name], g, EVERYWHERE)
  {
    hide Justified, Reported;
    forall i | 0 <= i < |es| ensures Justified(es[i], base + [name], g, EVERYWHERE) {
      JustifiedInChild(es[i], base, f, g, name);
    }
    forall p | p in EVERYWHERE && g(p).Some? ensures Reported(es, base + [name] + p) {
      ReportedInChild(es, base, f, g, name, p);
    }
  }

  /** Handling one more child: the list so far and the child's are complete exactly when the joint one is. */
  lemma ListsAddChild<C(!new)>(es: seq<Item<C>>, extra: seq<Item<C>>, base: Path, f: Path -> Option<C>,
                               g: Path -> Option<C>, done: set<Name>, name: Name)
    requires name !in done && forall p :: f([name] + p) == g(p)
    requires Within(es, base, HERE + Under(done)) && Within(extra, base + [name], EVERYWHERE)
    ensures Within(es + extra, base, HERE + Under(done + {name}))
    ensures Lists(es + extra, base, f, HERE + Under(done + {name}))
            <==> Lists(es, base, f, HERE + Under(done)) && Lists(extra, base + [name], g, EVERYWHERE)
  {
    hide Lists;
    WithinChild(extra, base, name);
    var s, t := HERE + Under(done), Under({name});
    assert s + t == HERE + Under(done + {name});
    if Lists(es, base, f, s) && Lists(extra, base + [name], g, EVERYWHERE) {
      ListsFromChild(extra, base, f, g, name);
      ListsUnion(es, extra, base, f, s, t);
    }
    if Lists(es + extra, base, f, s + t) {
      ListsSplit(es, extra, base, f, s, t);
      ListsToChild(extra, base, f, g, name);
    }
  }

  /** Closing a directory: outside the handled names nothing is expected. */
  lemma ListsClose<C(!new)>(es: seq<Item<C>>, base: Path, f: Path -> Option<C>, done: set<Name>)
    requires Within(es, base, HERE + Under(done))
    requires forall p :: p !in HERE + Under(done) ==> f(p) == None
    ensures Within(es, base, EVERYWHERE)
    ensures Lists(es, base, f, EVERYWHERE) <==> Lists(es, base, f, HERE + Under(done))
  {
    hide Lists;
    if Lists(es, base, f, HERE + Under(done)) {
      ListsWiden(es, base, f, HERE + Under(done), EVERYWHERE);
    }
    if Lists(es, base, f, EVERYWHERE) {
      ListsNarrow(es, base, f, HERE + Under(done), EVERYWHERE);
    }
  }
}
