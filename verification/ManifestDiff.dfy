/** The comparison of two manifests that drives a sync run: what to fetch, what to replace, what to delete. */
module ManifestDiff {
  import opened Bytes
  import opened Merkle
  import opened Reports
  import opened TreeDiff

  // ------------------------------------------------------------------------------------------
  // The plain comparison, topmost paths only
  // ------------------------------------------------------------------------------------------

  datatype Outcome = Fetch(node: Node) | Replace(node: Node) | Remove

  function TopVerdict(l: Option<Node>, r: Option<Node>): Option<Outcome> {
    match (l, r)
    case (None, None) => None
    case (None, Some(y)) => Some(Fetch(y))
    case (Some(_), None) => Some(Remove)
    case (Some(x), Some(y)) =>
      if x.File? && y.File? && x.chunks != y.chunks then Some(Replace(y)) else None
  }

  /** A missing subtree is one outcome, at its top. */
  function Topmost(l: Option<Node>, r: Option<Node>, p: Path): Option<Outcome>
    decreases p
  {
    if p == [] then TopVerdict(l, r)
    else if l.None? || r.None? then None
    else Topmost(Child(l, p[0]), Child(r, p[0]), p[1..])
  }

  ghost function Tops(l: Option<Node>, r: Option<Node>): Path -> Option<Outcome> {
    p => Topmost(l, r, p)
  }

  lemma {:induction false} SameTreeNoTops(x: Node, y: Node, p: Path)
    requires SameTree(x, y)
    ensures Topmost(Some(x), Some(y), p) == None
    decreases p
  {
    if p != [] {
      var c, d := Child(Some(x), p[0]), Child(Some(y), p[0]);
      if c.Some? {
        SameTreeNoTops(c.value, d.value, p[1..]);
      }
    }
  }

  lemma ChildTops(x: Node, y: Node, name: Name)
    ensures forall p :: Tops(Some(x), Some(y))([name] + p) == Tops(Child(Some(x), name), Child(Some(y), name))(p)
  {
    forall p ensures Tops(Some(x), Some(y))([name] + p) == Tops(Child(Some(x), name), Child(Some(y), name))(p) {
      assert ([name] + p)[1..] == p;
    }
  }

  lemma NoTopsBelow(x: Node, y: Node, names: set<Name>)
    requires forall name: Name :: name !in names ==> Child(Some(x), name) == None && Child(Some(y), name) == None
    ensures forall p :: p !in HERE + Under(names) ==> Tops(Some(x), Some(y))(p) == None
  {
    forall p | p !in HERE + Under(names) ensures Topmost(Some(x), Some(y), p) == None {
      assert Topmost(None, None, p[1..]) == None;
    }
  }

  // ------------------------------------------------------------------------------------------
  // The program
  // ------------------------------------------------------------------------------------------

  function Fetched(log: seq<Item<Outcome>>): seq<Node> {
    if log == [] then [] else
      var last := |log| - 1;
      Fetched(log[..last]) + if log[last].what.Fetch? then [log[last].what.node] else []
  }

  function Replaced(log: seq<Item<Outcome>>): seq<Node> {
    if log == [] then [] else
      var last := |log| - 1;
      Replaced(log[..last]) + if log[last].what.Replace? then [log[last].what.node] else []
  }

  function Removed(log: seq<Item<Outcome>>): seq<Path> {
    if log == [] then [] else
      var last := |log| - 1;
      Removed(log[..last]) + if log[last].what.Remove? then [log[last].path] else []
  }

  /** The three result lists. The first two hold nodes without their paths; the ghost log remembers them. */
  class DiffResult {
    var added: seq<Node>
    var modified: seq<Node>
    var deleted: seq<Path>
    ghost var log: seq<Item<Outcome>>

    ghost predicate Valid()
      reads this
    {
      added == Fetched(log) && modified == Replaced(log) && deleted == Removed(log)
    }

    constructor ()
      ensures Valid() && log == []
    {
      added, modified, deleted, log := [], [], [], [];
    }

    method AppendAdded(node: Node, ghost path: Path)
      requires Valid()
      modifies this
      ensures Valid() && log == old(log) + [Item(path, Fetch(node))]
    {
      added := added + [node];
      log := log + [Item(path, Fetch(node))];
      assert log[..|log| - 1] == old(log);
    }

    method AppendModified(node: Node, ghost path: Path)
      requires Valid()
      modifies this
      ensures Valid() && log == old(log) + [Item(path, Replace(node))]
    {
      modified := modified + [node];
      log := log + [Item(path, Replace(node))];
      assert log[..|log| - 1] == old(log);
    }

    method AppendDeleted(path: Path)
      requires Valid()
      modifies this
      ensures Valid() && log == old(log) + [Item(path, Remove)]
    {
      deleted := deleted + [path];
      log := log + [Item(path, Remove)];
      assert log[..|log| - 1] == old(log);
    }
  }

  /** The condition under which this comparison is right about two nodes. */
  ghost predicate TopTruthful(x: Node, y: Node)
    decreases x
  {
    if x.hash == y.hash then forall p: Path :: Topmost(Some(x), Some(y), p) == None
    else if x.File? && y.File? then x.chunks != y.chunks
    else forall name: Name ::
           var (c, d) := (ChildNamed(Kids(x), name), ChildNamed(Kids(y), name));
           c.Some? && d.Some? ==> TopTruthful(c.value, d.value)
  }

  ghost predicate TopTruthfulPair(l: Option<Node>, r: Option<Node>) {
    l.Some? && r.Some? ==> TopTruthful(l.value, r.value)
  }

  ghost predicate TopTruthfulFor(x: Node, y: Node, names: set<Name>) {
    forall name :: name in names ==> TopTruthfulPair(Child(Some(x), name), Child(Some(y), name))
  }

  /** An outcome says what stands on the two sides. */
  ghost predicate Grounds(o: Outcome, l: Option<Node>, r: Option<Node>) {
    match o
    case Fetch(y) => l.None? && r == Some(y)
    case Replace(y) => l.Some? && l.value.File? && r == Some(y) && y.File?
    case Remove => l.Some? && r.None?
  }

  ghost predicate Grounded(es: seq<Item<Outcome>>, base: Path, l: Option<Node>, r: Option<Node>) {
    forall i :: 0 <= i < |es| ==>
      base <= es[i].path && Grounds(es[i].what, At(l, es[i].path[|base|..]), At(r, es[i].path[|base|..]))
  }

  lemma GroundedOne(path: Path, o: Outcome, l: Option<Node>, r: Option<Node>)
    requires Grounds(o, l, r)
    ensures Grounded([Item(path, o)], path, l, r)
  {
    assert path[|path|..] == [];
  }

  lemma GroundedAddChild(es: seq<Item<Outcome>>, extra: seq<Item<Outcome>>, base: Path, name: Name,
                         l: Option<Node>, r: Option<Node>)
    requires Grounded(es, base, l, r) && Grounded(extra, base + [name], Child(l, name), Child(r, name))
    ensures Grounded(es + extra, base, l, r)
  {
    hide Grounds;
    forall i | 0 <= i < |extra|
      ensures base <= extra[i].path
              && Grounds(extra[i].what, At(l, extra[i].path[|base|..]), At(r, extra[i].path[|base|..]))
    {
      var p := extra[i].path;
      assert base + [name] <= p && base <= base + [name];
      var q := p[|base|..];
      assert q[0] == p[|base|] == (base + [name])[|base|] == name && q[1..] == p[|base + [name]|..];
    }
  }

  /** Compares two nodes, at least one of which exists, pruning where hashes agree. Every outcome is a fact about the
      two trees, whatever the hashes. The result lists the topmost differences if and only if the hashes are
      truthful. */
  method DiffNode(local: Option<Node>, remote: Option<Node>, path: Path, result: DiffResult)
    returns (ghost more: seq<Item<Outcome>>)
    requires result.Valid() && (local.Some? || remote.Some?)
    modifies result
    ensures result.Valid() && result.log == old(result.log) + more && Within(more, path, EVERYWHERE)
    ensures Grounded(more, path, local, remote)
    ensures Lists(more, path, Tops(local, remote), EVERYWHERE) <==> TopTruthfulPair(local, remote)
    decreases local.Some?, if local.Some? then local.value else NO_NODE
  {
    hide Lists, Tops, TopTruthful, Grounded;
    if local.None? {
      result.AppendAdded(remote.value, path);
      more := [Item(path, Fetch(remote.value))];
      OneTop(path, local, remote);
      GroundedOne(path, Fetch(remote.value), local, remote);
      return;
    }
    if remote.None? {
      result.AppendDeleted(path);
      more := [Item(path, Remove)];
      OneTop(path, local, remote);
      GroundedOne(path, Remove, local, remote);
      return;
    }
    var x, y := local.value, remote.value;
    if x.hash == y.hash {
      PrunedTops(path, x, y);
      more := [];
      assert result.log == result.log + more;
      return;
    }
    if x.File? && y.File? {
      result.AppendModified(y, path);
      more := [Item(path, Replace(y))];
      ReplaceExact(path, x, y);
      GroundedOne(path, Replace(y), local, remote);
      return;
    }
    more := DiffChildNodes(x, y, path, result);
  }

  /** At least one of the nodes is a directory: every name of either side, in any order. */
  method DiffChildNodes(x: Node, y: Node, path: Path, result: DiffResult) returns (ghost more: seq<Item<Outcome>>)
    requires result.Valid() && (x.Dir? || y.Dir?) && x.hash != y.hash
    modifies result
    ensures result.Valid() && result.log == old(result.log) + more && Within(more, path, EVERYWHERE)
    ensures Grounded(more, path, Some(x), Some(y))
    ensures Lists(more, path, Tops(Some(x), Some(y)), EVERYWHERE) <==> TopTruthful(x, y)
    decreases true, x, 0
  {
    hide Lists, Tops, TopTruthful, TopTruthfulPair, Within, Under, ChildNamed, Grounded;
    var localChildren := ChildMap(Kids(x));
    var remoteChildren := ChildMap(Kids(y));
    var allNames := localChildren.Keys + remoteChildren.Keys;
    var todo := allNames;
    more := [];
    NoTopsYet(path, x, y);
    ghost var done: set<Name> := {};
    while todo != {}
      invariant result.Valid() && result.log == old(result.log) + more
      invariant todo <= allNames && done == allNames - todo
      invariant Within(more, path, HERE + Under(done)) && Grounded(more, path, Some(x), Some(y))
      invariant Lists(more, path, Tops(Some(x), Some(y)), HERE + Under(done)) <==> TopTruthfulFor(x, y, done)
      decreases todo
    {
      var name :| name in todo;
      var localChild := if name in localChildren then Some(localChildren[name]) else None;
      var remoteChild := if name in remoteChildren then Some(remoteChildren[name]) else None;
      assert localChild == Child(Some(x), name) && remoteChild == Child(Some(y), name);
      assert localChild.Some? ==> localChild.value in x.children && localChild.value < x;
      ghost var extra := DiffNode(localChild, remoteChild, path + [name], result);
      ChildTops(x, y, name);
      ListsAddChild(more, extra, path, Tops(Some(x), Some(y)), Tops(localChild, remoteChild), done, name);
      GroundedAddChild(more, extra, path, name, Some(x), Some(y));
      more, todo, done := more + extra, todo - {name}, done + {name};
    }
    assert done == allNames;
    NoTopsBelow(x, y, allNames);
    ListsClose(more, path, Tops(Some(x), Some(y)), allNames);
    TopTruthfulForAll(x, y, allNames);
  }

  lemma TopTruthfulForAll(x: Node, y: Node, names: set<Name>)
    requires (x.Dir? || y.Dir?) && x.hash != y.hash
    requires forall name: Name :: name !in names ==> Child(Some(x), name) == None && Child(Some(y), name) == None
    ensures TopTruthfulFor(x, y, names) <==> TopTruthful(x, y)
  {
    assert forall name: Name :: Child(Some(x), name) == ChildNamed(Kids(x), name)
                                && Child(Some(y), name) == ChildNamed(Kids(y), name);
  }

  /** An outcome other than a descent stands alone. */
  lemma OneTop(path: Path, l: Option<Node>, r: Option<Node>)
    requires TopVerdict(l, r).Some?
    ensures Lists([Item(path, TopVerdict(l, r).value)], path, Tops(l, r), EVERYWHERE)
  {
    ListsOne(path, Tops(l, r), TopVerdict(l, r).value);
    if l.Some? && r.Some? {
      NoTopsBelow(l.value, r.value, {});
    }
    ListsWiden([Item(path, TopVerdict(l, r).value)], path, Tops(l, r), HERE, EVERYWHERE);
  }

  lemma PrunedTops(path: Path, x: Node, y: Node)
    requires x.hash == y.hash
    ensures Lists([], path, Tops(Some(x), Some(y)), EVERYWHERE) <==> TopTruthful(x, y)
    ensures Grounded([], path, Some(x), Some(y))
  {
    if TopTruthful(x, y) {
      ListsNone(path, Tops(Some(x), Some(y)), EVERYWHERE);
    }
    if Lists([], path, Tops(Some(x), Some(y)), EVERYWHERE) {
      forall p: Path ensures Topmost(Some(x), Some(y), p) == None {
        assert p in EVERYWHERE;
        assert Tops(Some(x), Some(y))(p).None?;
      }
    }
  }

  lemma ReplaceExact(path: Path, x: Node, y: Node)
    requires x.hash != y.hash && x.File? && y.File?
    ensures Lists([Item(path, Replace(y))], path, Tops(Some(x), Some(y)), EVERYWHERE) <==> TopTruthful(x, y)
  {
    if x.chunks != y.chunks {
      OneTop(path, Some(x), Some(y));
    }
    if Lists([Item(path, Replace(y))], path, Tops(Some(x), Some(y)), EVERYWHERE) {
      assert path + [] == path && [Item(path, Replace(y))][0] == Item(path, Replace(y));
      ListsAt([Item(path, Replace(y))], path, Tops(Some(x), Some(y)), [], Replace(y));
    }
  }

  lemma NoTopsYet(path: Path, x: Node, y: Node)
    requires x.Dir? || y.Dir?
    ensures Within<Outcome>([], path, HERE + Under({})) && Grounded([], path, Some(x), Some(y))
    ensures Lists([], path, Tops(Some(x), Some(y)), HERE + Under({}))
  {
    ListsNone(path, Tops(Some(x), Some(y)), HERE + Under({}));
  }

  method DiffTrees(local: Option<Node>, remote: Option<Node>) returns (result: DiffResult)
    requires local.Some? || remote.Some?
    ensures fresh(result) && result.Valid() && Grounded(result.log, [], local, remote)
    ensures Lists(result.log, [], Tops(local, remote), EVERYWHERE) <==> TopTruthfulPair(local, remote)
  {
    hide Lists, Tops, TopTruthful, Within, Grounded;
    result := new DiffResult();
    ghost var more := DiffNode(local, remote, [], result);
    assert [] + more == more;
  }

  /** Hashes that stand for contents are truthful. */
  lemma {:induction false} FaithfulTopTruthful(x: Node, y: Node)
    requires Faithful(Some(x), Some(y))
    ensures TopTruthful(x, y)
    decreases x
  {
    FaithfulHere(x, y);
    if x.hash == y.hash {
      forall p: Path ensures Topmost(Some(x), Some(y), p) == None { SameTreeNoTops(x, y, p); }
    } else {
      forall name: Name | ChildNamed(Kids(x), name).Some? && ChildNamed(Kids(y), name).Some?
        ensures TopTruthful(ChildNamed(Kids(x), name).value, ChildNamed(Kids(y), name).value)
      {
        FaithfulChild(Some(x), Some(y), name);
        FaithfulTopTruthful(ChildNamed(Kids(x), name).value, ChildNamed(Kids(y), name).value);
      }
    }
  }

  // ------------------------------------------------------------------------------------------
  // The two comparisons agree
  // ------------------------------------------------------------------------------------------

  ghost predicate ClashFree(l: Option<Node>, r: Option<Node>) {
    forall p: Path :: !Clash(At(l, p), At(r, p))
  }

  lemma ClashFreeChild(l: Option<Node>, r: Option<Node>, name: Name)
    requires ClashFree(l, r)
    ensures ClashFree(Child(l, name), Child(r, name)) && !Clash(l, r)
  {
    assert At(l, []) == l && At(r, []) == r;
    forall p: Path ensures !Clash(At(Child(l, name), p), At(Child(r, name), p)) {
      assert ([name] + p)[1..] == p;
      assert At(l, [name] + p) == At(Child(l, name), p) && At(r, [name] + p) == At(Child(r, name), p);
    }
  }

  /** Without clashes, the plain comparison at a path only depends on what stands there. */
  lemma {:induction false} ExpectedIsVerdict(l: Option<Node>, r: Option<Node>, p: Path)
    requires ClashFree(l, r)
    ensures Expected(l, r, p) == Verdict(At(l, p), At(r, p))
    decreases p
  {
    if p != [] {
      ClashFreeChild(l, r, p[0]);
      ExpectedIsVerdict(Child(l, p[0]), Child(r, p[0]), p[1..]);
    }
  }

  /** The topmost comparison depends on what stands at the path and whether both sides have its parent. */
  lemma {:induction false} TopmostIsTopVerdict(l: Option<Node>, r: Option<Node>, p: Path)
    ensures Topmost(l, r, p) ==
            if p == [] || (At(l, p[..|p| - 1]).Some? && At(r, p[..|p| - 1]).Some?)
            then TopVerdict(At(l, p), At(r, p)) else None
    decreases p
  {
    if p != [] {
      var q := p[1..];
      if l.None? || r.None? {
        AtNone(p[..|p| - 1]);
      } else if |p| == 1 {
        assert q == [] && p[..0] == [];
      } else {
        TopmostIsTopVerdict(Child(l, p[0]), Child(r, p[0]), q);
        assert p[..|p| - 1][1..] == q[..|q| - 1];
      }
    }
  }

  /** A node can only exist below nodes that exist. */
  lemma {:induction false} AncestorsExist(n: Option<Node>, p: Path, k: nat)
    requires k <= |p| && At(n, p).Some?
    ensures At(n, p[..k]).Some?
    decreases p
  {
    if p == [] {
    } else if k == 0 {
      if n.None? {
        AtNone(p);
      }
    } else {
      AncestorsExist(Child(n, p[0]), p[1..], k - 1);
      assert p[..k][1..] == p[1..][..k - 1];
    }
  }

  /** Files modified: both comparisons name the same ones. */
  lemma ModifiedAgree(l: Option<Node>, r: Option<Node>, p: Path, y: Node)
    requires ClashFree(l, r)
    ensures Topmost(l, r, p) == Some(Replace(y))
            <==> exists x :: Expected(l, r, p) == Some(Modified(x, y))
  {
    ExpectedIsVerdict(l, r, p);
    TopmostIsTopVerdict(l, r, p);
    assert At(l, p[..0]) == l && At(r, p[..0]) == r;
    if At(l, p).Some? && At(r, p).Some? && p != [] {
      AncestorsExist(l, p, |p| - 1);
      AncestorsExist(r, p, |p| - 1);
      assert !Clash(At(l, p), At(r, p));
    } else if p == [] {
      assert !Clash(At(l, p), At(r, p));
    }
    if Topmost(l, r, p) == Some(Replace(y)) {
      assert Expected(l, r, p) == Some(Modified(At(l, p).value, y));
    }
  }

  /** Nodes to fetch: flattening the subtrees that the manifest comparison adds gives exactly the nodes that
      the tree comparison finds only on the remote side. */
  lemma FetchedAgree(l: Option<Node>, r: Option<Node>, p: Path)
    requires ClashFree(l, r)
    ensures (exists y :: Expected(l, r, p) == Some(Deleted(y)))
            <==> At(r, p).Some? && exists k :: 0 <= k <= |p| && IsFetch(Topmost(l, r, p[..k]))
  {
    ExpectedIsVerdict(l, r, p);
    if At(r, p).Some? && At(l, p).None? {
      assert Expected(l, r, p) == Some(Deleted(At(r, p).value));
      var k := FirstMissing(l, r, p);
      assert IsFetch(Topmost(l, r, p[..k]));
    }
    if k: nat :| k <= |p| && IsFetch(Topmost(l, r, p[..k])) {
      TopmostIsTopVerdict(l, r, p[..k]);
      if At(l, p).Some? {
        AncestorsExist(l, p, k);
      }
    }
  }

  predicate IsFetch(o: Option<Outcome>) {
    o.Some? && o.value.Fetch?
  }

  /** The top of the missing subtree that `p` lies in. */
  lemma {:induction false} FirstMissing(l: Option<Node>, r: Option<Node>, p: Path) returns (k: nat)
    requires At(r, p).Some? && At(l, p).None?
    ensures k <= |p| && IsFetch(Topmost(l, r, p[..k]))
    decreases |p|
  {
    TopmostIsTopVerdict(l, r, p);
    assert p[..|p|] == p;
    if p == [] {
      k := 0;
    } else {
      var q := p[..|p| - 1];
      AncestorsExist(r, p, |p| - 1);
      if At(l, q).Some? {
        k := |p|;
      } else {
        k := FirstMissing(l, r, q);
        assert q[..k] == p[..k];
      }
    }
  }

  /** Paths to delete: the topmost of those that the tree comparison finds only on the local side. */
  lemma DeletedAgree(l: Option<Node>, r: Option<Node>, p: Path)
    requires ClashFree(l, r)
    ensures Topmost(l, r, p) == Some(Remove)
            <==> IsLocalOnly(Expected(l, r, p)) && (p == [] || !IsLocalOnly(Expected(l, r, p[..|p| - 1])))
  {
    ExpectedIsVerdict(l, r, p);
    TopmostIsTopVerdict(l, r, p);
    if p != [] {
      ExpectedIsVerdict(l, r, p[..|p| - 1]);
      if At(l, p).Some? {
        AncestorsExist(l, p, |p| - 1);
      }
    }
  }

  predicate IsLocalOnly(c: Option<Change>) {
    c.Some? && c.value.Added?
  }

  /** The same for the lists the two programs produce: `es` from the tree comparison under the root name,
      `log` from the manifest comparison, whose deleted paths carry no root name. */
  lemma ResultsAgree(es: seq<Entry>, log: seq<Item<Outcome>>, root: Name, l: Option<Node>, r: Option<Node>, p: Path)
    requires ClashFree(l, r)
    requires Lists(es, [root], Plain(l, r), EVERYWHERE) && Lists(log, [], Tops(l, r), EVERYWHERE)
    ensures Item(p, Remove) in log
            <==> LocalOnlyIn(es, [root] + p) && (p == [] || !LocalOnlyIn(es, [root] + p[..|p| - 1]))
    ensures forall y :: Item(p, Replace(y)) in log <==> ModifiedIn(es, [root] + p, y)
    ensures RemoteOnlyIn(es, [root] + p)
            <==> At(r, p).Some? && exists k :: 0 <= k <= |p| && FetchedIn(log, p[..k])
  {
    EntryAt(es, root, l, r, p);
    DeletedAgree(l, r, p);
    OutcomeAt(log, l, r, p);
    if p != [] {
      EntryAt(es, root, l, r, p[..|p| - 1]);
    }
    forall y ensures Item(p, Replace(y)) in log <==> ModifiedIn(es, [root] + p, y) {
      ModifiedAgree(l, r, p, y);
    }
    FetchedAgree(l, r, p);
    forall k | 0 <= k <= |p| ensures FetchedIn(log, p[..k]) <==> IsFetch(Topmost(l, r, p[..k])) {
      OutcomeAt(log, l, r, p[..k]);
    }
  }

  ghost predicate LocalOnlyIn(es: seq<Entry>, path: Path) {
    exists e :: e in es && e.path == path && e.what.change.Added?
  }

  ghost predicate RemoteOnlyIn(es: seq<Entry>, path: Path) {
    exists e :: e in es && e.path == path && e.what.change.Deleted?
  }

  ghost predicate ModifiedIn(es: seq<Entry>, path: Path, y: Node) {
    exists e :: e in es && e.path == path && e.what.change.Modified? && e.what.change.remote == y
  }

  ghost predicate FetchedIn(log: seq<Item<Outcome>>, path: Path) {
    exists e :: e in log && e.path == path && e.what.Fetch?
  }

  lemma EntryAt(es: seq<Entry>, root: Name, l: Option<Node>, r: Option<Node>, p: Path)
    requires Lists(es, [root], Plain(l, r), EVERYWHERE)
    ensures LocalOnlyIn(es, [root] + p) <==> IsLocalOnly(Expected(l, r, p))
    ensures RemoteOnlyIn(es, [root] + p) <==> exists y :: Expected(l, r, p) == Some(Deleted(y))
    ensures forall y :: ModifiedIn(es, [root] + p, y)
                        <==> exists x :: Expected(l, r, p) == Some(Modified(x, y))
  {
    hide Lists;
    forall c ensures Item([root] + p, c) in es <==> Plain(l, r)(p) == Some(c) {
      ListsAt(es, [root], Plain(l, r), p, c);
    }
    var e := Expected(l, r, p);
    if e.Some? {
      assert Item([root] + p, Report(e.value, ChangeChunks(e.value))) in es;
    }
    forall d | d in es && d.path == [root] + p
      ensures e.Some? && d.what.change == e.value
    {
      assert Item([root] + p, d.what) in es;
    }
  }

  lemma OutcomeAt(log: seq<Item<Outcome>>, l: Option<Node>, r: Option<Node>, p: Path)
    requires Lists(log, [], Tops(l, r), EVERYWHERE)
    ensures forall o :: Item(p, o) in log <==> Topmost(l, r, p) == Some(o)
    ensures FetchedIn(log, p) <==> IsFetch(Topmost(l, r, p))
  {
    hide Lists;
    assert [] + p == p;
    forall o ensures Item(p, o) in log <==> Topmost(l, r, p) == Some(o) {
      ListsAt(log, [], Tops(l, r), p, o);
    }
    if IsFetch(Topmost(l, r, p)) {
      assert Item(p, Topmost(l, r, p).value) in log;
    }
    forall e | e in log && e.path == p ensures Topmost(l, r, p) == Some(e.what) {
      assert Item(p, e.what) in log;
    }
  }
}
