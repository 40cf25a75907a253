/** The hash-pruned comparison of two Merkle trees, against a plain comparison path by path. */
module TreeDiff {
  import opened Bytes
  import opened Merkle
  import opened Reports

  // ------------------------------------------------------------------------------------------
  // Paths
  // ------------------------------------------------------------------------------------------

  /** The child of that name; of several, the last, as when a map is filled in order. */
  function ChildNamed(children: seq<Node>, name: Name): (r: Option<Node>)
    ensures r.Some? ==> r.value in children && r.value.name == name
    ensures r.None? ==> forall c :: c in children ==> c.name != name
  {
    if children == [] then None else
      var last := |children| - 1;
      assert children == children[..last] + [children[last]];
      if children[last].name == name then Some(children[last]) else ChildNamed(children[..last], name)
  }

  /** Of several children with one name the last is found. */
  lemma {:induction false} LastOfName(children: seq<Node>, i: nat)
    requires i < |children| && forall j :: i < j < |children| ==> children[j].name != children[i].name
    ensures ChildNamed(children, children[i].name) == Some(children[i])
  {
    if i < |children| - 1 {
      LastOfName(children[..|children| - 1], i);
    }
  }

  function Kids(n: Node): seq<Node> {
    if n.Dir? then n.children else []
  }

  function Child(n: Option<Node>, name: Name): (r: Option<Node>)
    ensures r.Some? ==> n.Some? && r.value in Kids(n.value) && r.value.name == name
  {
    if n.None? then None else ChildNamed(Kids(n.value), name)
  }

  /** The node at a path below `n`. */
  function At(n: Option<Node>, p: Path): Option<Node>
    decreases p
  {
    if p == [] then n else At(Child(n, p[0]), p[1..])
  }

  ghost predicate Tidy(n: Node) {
    n.Dir? ==> Distinct(n.children) && forall i :: 0 <= i < |n.children| ==> Tidy(n.children[i])
  }

  ghost predicate TidyTree(n: Option<Node>) {
    n.Some? ==> Tidy(n.value)
  }

  lemma TidyChild(n: Option<Node>, name: Name)
    requires TidyTree(n)
    ensures TidyTree(Child(n, name))
  {
  }

  lemma {:induction false} OwnChild(children: seq<Node>, i: nat)
    requires Distinct(children) && i < |children|
    ensures ChildNamed(children, children[i].name) == Some(children[i])
  {
    if i < |children| - 1 {
      OwnChild(children[..|children| - 1], i);
    }
  }

  // ------------------------------------------------------------------------------------------
  // The plain comparison
  // ------------------------------------------------------------------------------------------

  datatype Change = Added(local: Node) | Deleted(remote: Node) | Modified(local: Node, remote: Node)

  /** What is reported at a path, given what stands there on both sides. */
  function Verdict(l: Option<Node>, r: Option<Node>): Option<Change> {
    match (l, r)
    case (None, None) => None
    case (Some(x), None) => Some(Added(x))
    case (None, Some(y)) => Some(Deleted(y))
    case (Some(x), Some(y)) =>
      if x.Dir? != y.Dir? || (x.File? && x.chunks != y.chunks) then Some(Modified(x, y)) else None
  }

  predicate Clash(l: Option<Node>, r: Option<Node>) {
    l.Some? && r.Some? && l.value.Dir? != r.value.Dir?
  }

  /** The plain comparison at path `p`: no hashes, and nothing below a clash of types. */
  function Expected(l: Option<Node>, r: Option<Node>, p: Path): Option<Change>
    decreases p
  {
    if p == [] then Verdict(l, r)
    else if Clash(l, r) then None
    else Expected(Child(l, p[0]), Child(r, p[0]), p[1..])
  }

  /** Where neither side has anything there is nothing to report. */
  lemma {:induction false} NothingExpected(p: Path)
    ensures Expected(None, None, p) == None
  {
    if p != [] {
      NothingExpected(p[1..]);
    }
  }

  /** The chunk list that goes with a change. */
  function ChangeChunks(c: Change): seq<Digest> {
    match c
    case Added(x) => if x.File? then x.chunks else []
    case Deleted(y) => if y.File? then y.chunks else []
    case Modified(x, y) => if x.File? && y.File? then Without(x.chunks, y.chunks) else []
  }

  /** The elements of `xs` that do not occur in `ys`, in order. */
  function Without(xs: seq<Digest>, ys: seq<Digest>): seq<Digest> {
    if xs == [] then [] else
      var last := |xs| - 1;
      Without(xs[..last], ys) + if xs[last] in ys then [] else [xs[last]]
  }

  /** `ds` are the elements of `xs` at the places `at`, in order, and those are the places of elements that are not
      in `had`. */
  ghost predicate LackingAt(ds: seq<Digest>, xs: seq<Digest>, had: iset<Digest>, at: seq<nat>) {
    && |ds| == |at|
    && (forall k :: 0 <= k < |at| ==> at[k] < |xs| && ds[k] == xs[at[k]])
    && (forall k, l :: 0 <= k < l < |at| ==> at[k] < at[l])
    && (forall i :: 0 <= i < |xs| ==> (i in at <==> xs[i] !in had))
  }

  /** `ds` are exactly the elements of `xs` that are not in `had`, each as often as there and in that order. */
  ghost predicate Lacking(ds: seq<Digest>, xs: seq<Digest>, had: iset<Digest>) {
    exists at: seq<nat> :: LackingAt(ds, xs, had, at)
  }

  ghost function Members(ys: seq<Digest>): iset<Digest> {
    iset y | y in ys
  }

  lemma LackingNothing(had: iset<Digest>)
    ensures Lacking([], [], had)
  {
    var none: seq<nat> := [];
    assert LackingAt([], [], had, none);
  }

  lemma LackingNext(ds: seq<Digest>, xs: seq<Digest>, had: iset<Digest>, x: Digest)
    requires Lacking(ds, xs, had)
    ensures Lacking(ds + (if x in had then [] else [x]), xs + [x], had)
  {
    var at: seq<nat> :| LackingAt(ds, xs, had, at);
    if x in had {
      LackingSkip(ds, xs, had, at, x);
      assert ds + [] == ds;
    } else {
      LackingTake(ds, xs, had, at, x);
    }
  }

  lemma LackingSkip(ds: seq<Digest>, xs: seq<Digest>, had: iset<Digest>, at: seq<nat>, x: Digest)
    requires LackingAt(ds, xs, had, at) && x in had
    ensures LackingAt(ds, xs + [x], had, at)
  {
    var xs' := xs + [x];
    forall i | 0 <= i < |xs'| ensures i in at <==> xs'[i] !in had {
      if i < |xs| {
        assert xs'[i] == xs[i];
      }
    }
  }

  lemma LackingTake(ds: seq<Digest>, xs: seq<Digest>, had: iset<Digest>, at: seq<nat>, x: Digest)
    requires LackingAt(ds, xs, had, at) && x !in had
    ensures LackingAt(ds + [x], xs + [x], had, at + [|xs|])
  {
    var xs', at', last := xs + [x], at + [|xs|], |at|;
    forall i | 0 <= i < |xs'| ensures i in at' <==> xs'[i] !in had {
      if i < |xs| {
        assert xs'[i] == xs[i];
        assert i in at' <==> i in at;
      } else {
        assert at'[last] == i;
      }
    }
    forall k | 0 <= k < |at'| ensures at'[k] < |xs'| && (ds + [x])[k] == xs'[at'[k]] {
      if k < last {
        assert at'[k] == at[k] && xs'[at[k]] == xs[at[k]];
      }
    }
  }

  ghost function Filtered(xs: seq<Digest>, had: iset<Digest>): seq<Digest> {
    if xs == [] then [] else
      var last := |xs| - 1;
      Filtered(xs[..last], had) + if xs[last] in had then [] else [xs[last]]
  }

  lemma FilteredNext(xs: seq<Digest>, had: iset<Digest>, x: Digest)
    ensures Filtered(xs + [x], had) == Filtered(xs, had) + if x in had then [] else [x]
  {
    assert (xs + [x])[..|xs|] == xs;
  }

  lemma {:induction false} FilteredConcat(xs: seq<Digest>, ys: seq<Digest>, had: iset<Digest>)
    ensures Filtered(xs + ys, had) == Filtered(xs, had) + Filtered(ys, had)
  {
    if ys == [] {
      assert xs + ys == xs;
    } else {
      var last := |ys| - 1;
      FilteredConcat(xs, ys[..last], had);
      assert (xs + ys)[..|xs + ys| - 1] == xs + ys[..last];
    }
  }

  lemma {:induction false} FilteredLacks(xs: seq<Digest>, had: iset<Digest>)
    ensures Lacking(Filtered(xs, had), xs, had)
  {
    if xs == [] {
      LackingNothing(had);
    } else {
      var last := |xs| - 1;
      FilteredLacks(xs[..last], had);
      hide Lacking;
      LackingNext(Filtered(xs[..last], had), xs[..last], had, xs[last]);
      assert xs[..last] + [xs[last]] == xs;
    }
  }

  lemma {:induction false} WithoutFilters(xs: seq<Digest>, ys: seq<Digest>)
    ensures Without(xs, ys) == Filtered(xs, Members(ys))
  {
    if xs != [] {
      WithoutFilters(xs[..|xs| - 1], ys);
    }
  }

  lemma WithoutLacks(xs: seq<Digest>, ys: seq<Digest>)
    ensures Lacking(Without(xs, ys), xs, Members(ys))
  {
    WithoutFilters(xs, ys);
    FilteredLacks(xs, Members(ys));
  }

  /** Membership, as a consequence. */
  lemma LackingMembers(ds: seq<Digest>, xs: seq<Digest>, had: iset<Digest>, h: Digest)
    requires Lacking(ds, xs, had)
    ensures h in ds <==> h in xs && h !in had
  {
    var at: seq<nat> :| LackingAt(ds, xs, had, at);
    if h in ds {
      var k :| 0 <= k < |ds| && ds[k] == h;
      assert at[k] in at;
    }
    if h in xs && h !in had {
      var i :| 0 <= i < |xs| && xs[i] == h;
      var k :| 0 <= k < |at| && at[k] == i;
      assert ds[k] == h;
    }
  }

  // ------------------------------------------------------------------------------------------
  // When hashes can be believed
  // ------------------------------------------------------------------------------------------

  /** The same contents: same types, same names, same chunk lists. */
  ghost predicate SameTree(x: Node, y: Node)
    decreases x
  {
    && x.Dir? == y.Dir?
    && (x.File? ==> x.chunks == y.chunks)
    && (x.Dir? ==> forall name: Name ::
          var (c, d) := (ChildNamed(x.children, name), ChildNamed(y.children, name));
          c.Some? == d.Some? && (c.Some? ==> SameTree(c.value, d.value)))
  }

  /** Equal hashes stand for equal contents, and files with equal chunk lists have equal hashes. */
  ghost predicate FaithfulPair(x: Node, y: Node) {
    && (x.hash == y.hash ==> SameTree(x, y))
    && (x.File? && y.File? && x.chunks == y.chunks ==> x.hash == y.hash)
  }

  ghost predicate Faithful(l: Option<Node>, r: Option<Node>) {
    forall p: Path :: At(l, p).Some? && At(r, p).Some? ==> FaithfulPair(At(l, p).value, At(r, p).value)
  }

  lemma FaithfulHere(x: Node, y: Node)
    requires Faithful(Some(x), Some(y))
    ensures FaithfulPair(x, y)
  {
    assert At(Some(x), []) == Some(x) && At(Some(y), []) == Some(y);
  }

  lemma FaithfulChild(l: Option<Node>, r: Option<Node>, name: Name)
    requires Faithful(l, r)
    ensures Faithful(Child(l, name), Child(r, name))
  {
    forall p: Path | At(Child(l, name), p).Some? && At(Child(r, name), p).Some?
      ensures FaithfulPair(At(Child(l, name), p).value, At(Child(r, name), p).value)
    {
      var q := [name] + p;
      assert q[1..] == p;
      assert At(l, q) == At(Child(l, name), p) && At(r, q) == At(Child(r, name), p);
    }
  }

  /** Equal contents leave nothing to report, at any depth. */
  lemma {:induction false} SameTreeNothing(x: Node, y: Node, p: Path)
    requires SameTree(x, y)
    ensures Expected(Some(x), Some(y), p) == None
    decreases p
  {
    if p != [] {
      var c, d := Child(Some(x), p[0]), Child(Some(y), p[0]);
      if c.Some? {
        SameTreeNothing(c.value, d.value, p[1..]);
      } else {
        NothingExpected(p[1..]);
      }
    }
  }

  // ------------------------------------------------------------------------------------------
  // Reports
  // ------------------------------------------------------------------------------------------

  datatype Report = Report(change: Change, chunks: seq<Digest>)

  type Entry = Item<Report>

  function MakeEntry(path: Path, change: Change): Entry {
    Item(path, Report(change, ChangeChunks(change)))
  }

  /** The report the plain comparison asks for at each path. */
  ghost function Plain(l: Option<Node>, r: Option<Node>): Path -> Option<Report> {
    p => match Expected(l, r, p)
      case None => None
      case Some(c) => Some(Report(c, ChangeChunks(c)))
  }

  /** Two sides differ at a path: one has nothing there, or their types differ, or they are files with different
      chunk lists. */
  predicate Differ(l: Option<Node>, r: Option<Node>) {
    || l.Some? != r.Some?
    || (l.Some? && r.Some? &&
        (l.value.Dir? != r.value.Dir? || (l.value.File? && r.value.File? && l.value.chunks != r.value.chunks)))
  }

  /** What a report says about the two sides. An added or deleted file carries its own chunk list, a modified one
      exactly the local chunks that the remote list lacks. */
  ghost predicate Means(rep: Report, l: Option<Node>, r: Option<Node>) {
    match rep.change
    case Added(x) => l == Some(x) && r == None && rep.chunks == if x.File? then x.chunks else []
    case Deleted(y) => l == None && r == Some(y) && rep.chunks == if y.File? then y.chunks else []
    case Modified(x, y) =>
      && l == Some(x) && r == Some(y)
      && (if x.File? && y.File? then x.chunks != y.chunks && Lacking(rep.chunks, x.chunks, Members(y.chunks))
          else x.Dir? != y.Dir? && rep.chunks == [])
  }

  /** No clash of types lies above the path. */
  ghost predicate Open(l: Option<Node>, r: Option<Node>, p: Path) {
    forall k :: 0 <= k < |p| ==> !Clash(At(l, p[..k]), At(r, p[..k]))
  }

  lemma OpenChild(l: Option<Node>, r: Option<Node>, p: Path)
    requires p != []
    ensures Open(l, r, p) <==> !Clash(l, r) && Open(Child(l, p[0]), Child(r, p[0]), p[1..])
  {
    var c, d, q := Child(l, p[0]), Child(r, p[0]), p[1..];
    assert p[..0] == [];
    forall k | 0 <= k < |q| ensures At(c, q[..k]) == At(l, p[..k + 1]) && At(d, q[..k]) == At(r, p[..k + 1]) {
      assert p[..k + 1][1..] == q[..k];
    }
    if Open(l, r, p) {
      forall k | 0 <= k < |q| ensures !Clash(At(c, q[..k]), At(d, q[..k])) {
        assert !Clash(At(l, p[..k + 1]), At(r, p[..k + 1]));
      }
      assert !Clash(At(l, p[..0]), At(r, p[..0]));
    }
    if !Clash(l, r) && Open(c, d, q) {
      forall k | 0 <= k < |p| ensures !Clash(At(l, p[..k]), At(r, p[..k])) {
        if k > 0 {
          assert !Clash(At(c, q[..k - 1]), At(d, q[..k - 1]));
        }
      }
    }
  }

  /** The plain comparison reports exactly the differences that have no clash above them, and says what they are. */
  lemma {:induction false} PlainMeans(l: Option<Node>, r: Option<Node>, p: Path)
    ensures Plain(l, r)(p).Some? <==> Open(l, r, p) && Differ(At(l, p), At(r, p))
    ensures Plain(l, r)(p).Some? ==> Means(Plain(l, r)(p).value, At(l, p), At(r, p))
    decreases p
  {
    if p == [] {
      if l.Some? && r.Some? && l.value.File? && r.value.File? {
        WithoutLacks(l.value.chunks, r.value.chunks);
      }
    } else {
      OpenChild(l, r, p);
      hide Open, Lacking;
      if !Clash(l, r) {
        PlainMeans(Child(l, p[0]), Child(r, p[0]), p[1..]);
      }
    }
  }

  ghost predicate Told(e: Entry, root: Name, l: Option<Node>, r: Option<Node>) {
    exists p :: e.path == [root] + p && Open(l, r, p) && Means(e.what, At(l, p), At(r, p))
  }

  /** Reports under the root name say, once for every path with a difference and no clash above it, what differs. */
  ghost predicate Tells(es: seq<Entry>, root: Name, l: Option<Node>, r: Option<Node>) {
    && (forall i :: 0 <= i < |es| ==> Told(es[i], root, l, r))
    && (forall p :: Open(l, r, p) && Differ(At(l, p), At(r, p)) ==> Reported(es, [root] + p))
    && (forall i, j :: 0 <= i < j < |es| ==> es[i].path != es[j].path)
  }

  lemma ListsTells(es: seq<Entry>, root: Name, l: Option<Node>, r: Option<Node>)
    requires Lists(es, [root], Plain(l, r), EVERYWHERE)
    ensures Tells(es, root, l, r)
  {
    hide Plain, Means, Open;
    forall i | 0 <= i < |es| ensures Told(es[i], root, l, r) {
      assert Justified(es[i], [root], Plain(l, r), EVERYWHERE);
      var p :| es[i].path == [root] + p && Plain(l, r)(p) == Some(es[i].what);
      PlainMeans(l, r, p);
    }
    forall p | Open(l, r, p) && Differ(At(l, p), At(r, p)) ensures Reported(es, [root] + p) {
      PlainMeans(l, r, p);
      assert p in EVERYWHERE;
    }
  }

  // ------------------------------------------------------------------------------------------
  // The program
  // ------------------------------------------------------------------------------------------

  /** Fills a map with the children, in order. */
  method ChildMap(children: seq<Node>) returns (m: map<Name, Node>)
    ensures forall name: Name :: name in m <==> ChildNamed(children, name).Some?
    ensures forall name :: name in m ==> ChildNamed(children, name) == Some(m[name])
  {
    m := map[];
    for i := 0 to |children|
      invariant forall name: Name :: name in m <==> ChildNamed(children[..i], name).Some?
      invariant forall name :: name in m ==> ChildNamed(children[..i], name) == Some(m[name])
    {
      assert children[..i + 1][..i] == children[..i];
      m := m[children[i].name := children[i]];
    }
    assert children[..|children|] == children;
  }

  /** The chunks of the local file that the remote file does not list. */
  method FindDifferingChunks(local: seq<Digest>, remote: seq<Digest>) returns (differing: seq<Digest>)
    ensures differing == Without(local, remote)
    ensures Lacking(differing, local, Members(remote))
    ensures forall h :: h in differing <==> h in local && h !in remote
  {
    var remoteSet: set<Digest> := {};
    for i := 0 to |remote|
      invariant forall h :: h in remoteSet <==> h in remote[..i]
    {
      assert remote[..i + 1] == remote[..i] + [remote[i]];
      remoteSet := remoteSet + {remote[i]};
    }
    differing := [];
    for i := 0 to |local|
      invariant differing == Without(local[..i], remote)
    {
      assert local[..i + 1][..i] == local[..i];
      if local[i] !in remoteSet {
        differing := differing + [local[i]];
      }
    }
    assert local[..|local|] == local;
    WithoutLacks(local, remote);
    forall h ensures h in differing <==> h in local && h !in remote {
      LackingMembers(differing, local, Members(remote), h);
    }
  }

  /** One side of a comparison: the node alone, local or remote. */
  function LocalSide(node: Node, added: bool): Option<Node> {
    if added then Some(node) else None
  }

  function RemoteSide(node: Node, added: bool): Option<Node> {
    if added then None else Some(node)
  }

  ghost function Names(nodes: seq<Node>): set<Name> {
    set n | n in nodes :: n.name
  }

  /** Reports every node of a subtree that only one side has. */
  method CollectAll(node: Node, parent: Path, added: bool, results: seq<Entry>)
    returns (results': seq<Entry>, ghost more: seq<Entry>)
    ensures results' == results + more
    ensures Tidy(node) ==>
              Lists(more, parent + [node.name], OneSided(node, added), EVERYWHERE)
    ensures Within(more, parent + [node.name], EVERYWHERE)
    decreases node
  {
    hide Lists, Expected, Plain, Tidy, Under, Names;
    var path := parent + [node.name];
    ghost var plain := OneSided(node, added);
    var entry := MakeEntry(path, if added then Added(node) else Deleted(node));
    results', more := results + [entry], [entry];
    FirstReport(node, added, path);
    var kids := Kids(node);
    for i := 0 to |kids|
      invariant results' == results + more
      invariant Tidy(node) ==> Lists(more, path, plain, HERE + Under(Names(kids[..i])))
      invariant Within(more, path, EVERYWHERE)
    {
      assert kids[i] < node;
      ghost var extra;
      results', extra := CollectAll(kids[i], path, added, results');
      if Tidy(node) {
        AddKid(node, added, i, path, more, extra);
      }
      more := more + extra;
    }
    assert kids[..|kids|] == kids;
    if Tidy(node) {
      BelowKids(LocalSide(node, added), RemoteSide(node, added), Names(kids)) by { NamesOfKids(node, added); }
      ListsWiden(more, path, plain, HERE + Under(Names(kids)), EVERYWHERE);
    }
  }

  ghost function OneSided(node: Node, added: bool): Path -> Option<Report> {
    Plain(LocalSide(node, added), RemoteSide(node, added))
  }

  lemma FirstReport(node: Node, added: bool, path: Path)
    ensures Lists([MakeEntry(path, if added then Added(node) else Deleted(node))], path, OneSided(node, added),
                  HERE + Under(Names(Kids(node)[..0])))
  {
    assert HERE + Under(Names(Kids(node)[..0])) == HERE;
    var entry := MakeEntry(path, if added then Added(node) else Deleted(node));
    ListsOne(path, OneSided(node, added), entry.what);
  }

  lemma AddKid(node: Node, added: bool, i: nat, path: Path, es: seq<Entry>, extra: seq<Entry>)
    requires Tidy(node) && i < |Kids(node)|
    requires Lists(es, path, OneSided(node, added), HERE + Under(Names(Kids(node)[..i])))
    requires Tidy(Kids(node)[i]) ==>
               Lists(extra, path + [Kids(node)[i].name], OneSided(Kids(node)[i], added), EVERYWHERE)
    ensures Lists(es + extra, path, OneSided(node, added), HERE + Under(Names(Kids(node)[..i + 1])))
  {
    var kids := Kids(node);
    ChildOfOneSide(node, added, i);
    hide Lists, Expected, Plain, Tidy;
    ChildReports(LocalSide(node, added), RemoteSide(node, added), kids[i].name);
    ListsFromChild(extra, path, OneSided(node, added), OneSided(kids[i], added), kids[i].name);
    NamesGrow(kids, i);
    ListsUnion(es, extra, path, OneSided(node, added), HERE + Under(Names(kids[..i])), Under({kids[i].name}));
  }

  lemma NamesOfKids(node: Node, added: bool)
    ensures forall name: Name :: name !in Names(Kids(node)) ==>
              Child(LocalSide(node, added), name) == None && Child(RemoteSide(node, added), name) == None
  {
  }

  lemma ChildReports(l: Option<Node>, r: Option<Node>, name: Name)
    requires !Clash(l, r)
    ensures forall p :: Plain(l, r)([name] + p) == Plain(Child(l, name), Child(r, name))(p)
  {
    forall p ensures Plain(l, r)([name] + p) == Plain(Child(l, name), Child(r, name))(p) {
      assert ([name] + p)[1..] == p;
    }
  }

  lemma ChildOfOneSide(node: Node, added: bool, i: nat)
    requires Tidy(node) && i < |Kids(node)|
    ensures var kid := Kids(node)[i];
            && Tidy(kid)
            && Child(LocalSide(node, added), kid.name) == LocalSide(kid, added)
            && Child(RemoteSide(node, added), kid.name) == RemoteSide(kid, added)
  {
    OwnChild(Kids(node), i);
  }

  lemma NamesGrow(kids: seq<Node>, i: nat)
    requires Distinct(kids) && i < |kids|
    ensures Names(kids[..i + 1]) == Names(kids[..i]) + {kids[i].name}
    ensures kids[i].name !in Names(kids[..i])
    ensures HERE + Under(Names(kids[..i])) !! Under({kids[i].name})
    ensures HERE + Under(Names(kids[..i])) + Under({kids[i].name}) == HERE + Under(Names(kids[..i + 1]))
  {
    assert kids[..i + 1] == kids[..i] + [kids[i]];
    assert Names(kids[..i + 1]) == Names(kids[..i]) + {kids[i].name};
  }

  /** Below a name that neither side has, nothing is expected. */
  lemma BelowKids(l: Option<Node>, r: Option<Node>, names: set<Name>)
    requires forall name: Name :: name !in names ==> Child(l, name) == None && Child(r, name) == None
    ensures forall p :: p !in HERE + Under(names) ==> Plain(l, r)(p) == None
  {
    forall p | p !in HERE + Under(names) ensures Plain(l, r)(p) == None {
      NothingExpected(p[1..]);
    }
  }

  /** The condition under which the pruned comparison is right about two nodes: equal hashes hide no
      difference, files with different hashes differ, and so on for the children it descends to. */
  ghost predicate Truthful(x: Node, y: Node)
    decreases x
  {
    if x.hash == y.hash then forall p: Path :: Expected(Some(x), Some(y), p) == None
    else if x.Dir? != y.Dir? then true
    else if x.File? then x.chunks != y.chunks
    else forall name: Name ::
           var (c, d) := (ChildNamed(x.children, name), ChildNamed(y.children, name));
           c.Some? && d.Some? ==> Truthful(c.value, d.value)
  }

  ghost predicate TruthfulPair(l: Option<Node>, r: Option<Node>) {
    l.Some? && r.Some? ==> Truthful(l.value, r.value)
  }

  ghost predicate TidyPair(l: Option<Node>, r: Option<Node>) {
    TidyTree(l) && TidyTree(r)
  }

  function NodeName(l: Option<Node>, r: Option<Node>): Name {
    if l.Some? then l.value.name else if r.Some? then r.value.name else []
  }

  /** A clash of types is seen exactly when the hashes differ. */
  function ClashReport(x: Node, y: Node, parent: Path): seq<Entry> {
    if x.hash == y.hash then [] else [MakeEntry(parent + [x.name], Modified(x, y))]
  }

  /** Compares two nodes and descends only where hashes differ. For trees with distinct names in every
      directory, the result is the plain comparison if and only if the hashes are truthful. */
  method DiffNodes(local: Option<Node>, remote: Option<Node>, parent: Path, results: seq<Entry>)
    returns (results': seq<Entry>, ghost more: seq<Entry>)
    ensures results' == results + more
    ensures Within(more, parent + [NodeName(local, remote)], EVERYWHERE)
    ensures TidyPair(local, remote) ==>
              (Lists(more, parent + [NodeName(local, remote)], Plain(local, remote), EVERYWHERE)
               <==> TruthfulPair(local, remote))
    ensures Clash(local, remote) ==> more == ClashReport(local.value, remote.value, parent)
    decreases local.Some?, if local.Some? then local.value else NO_NODE
  {
    hide Lists, Expected, Plain, Truthful, Tidy;
    if remote.None? {
      if local.None? {
        NothingPlain();
        ListsNone(parent + [NodeName(local, remote)], Plain(None, None), EVERYWHERE);
        return results, [];
      }
      results', more := CollectAll(local.value, parent, true, results);
      return;
    }
    if local.None? {
      results', more := CollectAll(remote.value, parent, false, results);
      return;
    }
    var x, y := local.value, remote.value;
    var path := parent + [x.name];
    if x.hash == y.hash {
      PrunedExact(path, x, y);
      return results, [];
    }
    if x.Dir? != y.Dir? {
      LeafExact(path, x, y);
      var entry := MakeEntry(path, Modified(x, y));
      return results + [entry], [entry];
    }
    if x.File? {
      var differing := FindDifferingChunks(x.chunks, y.chunks);
      LeafExact(path, x, y);
      var entry := Item(path, Report(Modified(x, y), differing));
      return results + [entry], [entry];
    }
    results', more := DiffChildren(x, y, path, results);
  }

  /** Both nodes are directories: first the local names, then those that only the remote side has. */
  method DiffChildren(x: Node, y: Node, path: Path, results: seq<Entry>)
    returns (results': seq<Entry>, ghost more: seq<Entry>)
    requires x.Dir? && y.Dir? && x.hash != y.hash
    ensures results' == results + more
    ensures Within(more, path, EVERYWHERE)
    ensures TidyPair(Some(x), Some(y)) ==>
              (Lists(more, path, Plain(Some(x), Some(y)), EVERYWHERE) <==> Truthful(x, y))
    decreases true, x, 0
  {
    hide Lists, Expected, Plain, Truthful, TruthfulPair, Tidy, Under, ChildNamed, Within;
    ghost var tidy := TidyPair(Some(x), Some(y));
    var localChildren := ChildMap(x.children);
    var remoteChildren := ChildMap(y.children);
    results', more := results, [];
    NoNamesYet(path, x, y);
    ghost var done: set<Name> := {};
    var todo := localChildren.Keys;
    while todo != {}
      invariant results' == results + more
      invariant done == localChildren.Keys - todo && todo <= localChildren.Keys
      invariant Within(more, path, HERE + Under(done))
      invariant tidy ==> (Lists(more, path, Plain(Some(x), Some(y)), HERE + Under(done)) <==> TruthfulFor(x, y, done))
      decreases todo
    {
      var name :| name in todo;
      var localChild := localChildren[name];
      var remoteChild := if name in remoteChildren then Some(remoteChildren[name]) else None;
      ghost var extra;
      assert localChild in x.children && localChild < x;
      results', extra := DiffNodes(Some(localChild), remoteChild, path, results');
      AddChild(more, extra, path, x, y, done, name);
      more, done, todo := more + extra, done + {name}, todo - {name};
    }
    todo := remoteChildren.Keys;
    ghost var seen: set<Name> := {};
    while todo != {}
      invariant results' == results + more
      invariant seen == remoteChildren.Keys - todo && todo <= remoteChildren.Keys
      invariant done == localChildren.Keys + seen
      invariant Within(more, path, HERE + Under(done))
      invariant tidy ==> (Lists(more, path, Plain(Some(x), Some(y)), HERE + Under(done)) <==> TruthfulFor(x, y, done))
      decreases todo
    {
      var name :| name in todo;
      if name !in localChildren {
        ghost var extra;
        results', extra := DiffNodes(None, Some(remoteChildren[name]), path, results');
        AddChild(more, extra, path, x, y, done, name);
        more := more + extra;
      } else {
        assert done + {name} == done;
      }
      done, seen, todo := done + {name}, seen + {name}, todo - {name};
    }
    BelowKids(Some(x), Some(y), done);
    ListsClose(more, path, Plain(Some(x), Some(y)), done);
    TruthfulForAll(x, y, done);
  }

  const NO_NODE := File([], [], [])

  /** The hashes of the children with these names are truthful. */
  ghost predicate TruthfulFor(x: Node, y: Node, names: set<Name>) {
    forall name :: name in names ==> TruthfulPair(Child(Some(x), name), Child(Some(y), name))
  }

  lemma TruthfulForAll(x: Node, y: Node, names: set<Name>)
    requires x.Dir? && y.Dir? && x.hash != y.hash
    requires forall name: Name :: name !in names ==> Child(Some(x), name) == None && Child(Some(y), name) == None
    ensures TruthfulFor(x, y, names) <==> Truthful(x, y)
  {
    assert forall name: Name :: Child(Some(x), name) == ChildNamed(x.children, name)
                                && Child(Some(y), name) == ChildNamed(y.children, name);
  }

  lemma NothingPlain()
    ensures forall p :: Plain(None, None)(p) == None
  {
    forall p ensures Plain(None, None)(p) == None { NothingExpected(p); }
  }

  /** Skipping a pair is right exactly when there was nothing to report. */
  lemma PrunedExact(path: Path, x: Node, y: Node)
    requires x.hash == y.hash
    ensures Lists([], path, Plain(Some(x), Some(y)), EVERYWHERE) <==> Truthful(x, y)
  {
    if Truthful(x, y) {
      ListsNone(path, Plain(Some(x), Some(y)), EVERYWHERE);
    }
    if Lists([], path, Plain(Some(x), Some(y)), EVERYWHERE) {
      forall p: Path ensures Expected(Some(x), Some(y), p) == None {
        assert p in EVERYWHERE;
        assert Plain(Some(x), Some(y))(p).None?;
      }
    }
  }

  /** Reporting a clash of types or a modified file, with nothing below it, is right exactly when there is one. */
  lemma LeafExact(path: Path, x: Node, y: Node)
    requires x.hash != y.hash && (x.Dir? != y.Dir? || (x.File? && y.File?))
    ensures Within([MakeEntry(path, Modified(x, y))], path, EVERYWHERE)
    ensures Lists([MakeEntry(path, Modified(x, y))], path, Plain(Some(x), Some(y)), EVERYWHERE) <==> Truthful(x, y)
  {
    var entry, plain := MakeEntry(path, Modified(x, y)), Plain(Some(x), Some(y));
    if Truthful(x, y) {
      ListsOne(path, plain, entry.what);
      if x.Dir? == y.Dir? {
        BelowKids(Some(x), Some(y), {});
      }
      ListsWiden([entry], path, plain, HERE, EVERYWHERE);
    }
    if Lists([entry], path, plain, EVERYWHERE) {
      assert path + [] == path && [entry][0] == entry;
      ListsAt([entry], path, plain, [], entry.what);
    }
  }

  lemma NoNamesYet(path: Path, x: Node, y: Node)
    requires x.Dir? && y.Dir?
    ensures Within<Report>([], path, HERE + Under({}))
    ensures Lists([], path, Plain(Some(x), Some(y)), HERE + Under({}))
  {
    ListsNone(path, Plain(Some(x), Some(y)), HERE + Under({}));
  }

  lemma AddChild(es: seq<Entry>, extra: seq<Entry>, path: Path, x: Node, y: Node, done: set<Name>, name: Name)
    requires name !in done && x.Dir? && y.Dir?
    requires Within(es, path, HERE + Under(done)) && Within(extra, path + [name], EVERYWHERE)
    requires TidyPair(Some(x), Some(y)) ==>
               (Lists(es, path, Plain(Some(x), Some(y)), HERE + Under(done)) <==> TruthfulFor(x, y, done))
    requires TidyPair(Child(Some(x), name), Child(Some(y), name)) ==>
               (Lists(extra, path + [name], Plain(Child(Some(x), name), Child(Some(y), name)), EVERYWHERE)
                <==> TruthfulPair(Child(Some(x), name), Child(Some(y), name)))
    ensures Within(es + extra, path, HERE + Under(done + {name}))
    ensures TidyPair(Some(x), Some(y)) ==>
              (Lists(es + extra, path, Plain(Some(x), Some(y)), HERE + Under(done + {name}))
               <==> TruthfulFor(x, y, done + {name}))
  {
    hide Lists, Expected, Plain, Within, TruthfulPair, Tidy;
    ChildReports(Some(x), Some(y), name);
    ListsAddChild(es, extra, path, Plain(Some(x), Some(y)), Plain(Child(Some(x), name), Child(Some(y), name)),
                  done, name);
    if TidyPair(Some(x), Some(y)) {
      TidyChild(Some(x), name);
      TidyChild(Some(y), name);
    }
  }

  /** The comparison of two trees, either of which may be missing: it is the plain comparison if and only if the
      hashes are truthful. */
  method Diff(local: Option<Node>, remote: Option<Node>) returns (results: seq<Entry>)
    ensures TidyPair(local, remote) ==>
              (Lists(results, [NodeName(local, remote)], Plain(local, remote), EVERYWHERE)
               <==> TruthfulPair(local, remote))
    ensures TidyPair(local, remote) && TruthfulPair(local, remote) ==>
              Tells(results, NodeName(local, remote), local, remote)
    ensures Clash(local, remote) ==> results == ClashReport(local.value, remote.value, [])
    ensures local.None? && remote.None? ==> results == []
  {
    results := DiffRoots(local, remote);
    hide Lists, Plain, Truthful, Tidy, Tells;
    if TidyPair(local, remote) && TruthfulPair(local, remote) {
      ListsTells(results, NodeName(local, remote), local, remote);
    }
  }

  method DiffRoots(local: Option<Node>, remote: Option<Node>) returns (results: seq<Entry>)
    ensures TidyPair(local, remote) ==>
              (Lists(results, [NodeName(local, remote)], Plain(local, remote), EVERYWHERE)
               <==> TruthfulPair(local, remote))
    ensures Clash(local, remote) ==> results == ClashReport(local.value, remote.value, [])
    ensures local.None? && remote.None? ==> results == []
  {
    hide Lists, Expected, Plain, Truthful, Tidy, Within;
    ghost var more: seq<Entry> := [];
    ghost var root: Path := [NodeName(local, remote)];
    assert root == [] + root;
    results := [];
    if local.None? {
      if remote.Some? {
        results, more := CollectAll(remote.value, [], false, results);
      } else {
        NothingPlain();
        ListsNone(root, Plain(None, None), EVERYWHERE);
      }
      assert [] + more == more;
      return;
    }
    if remote.None? {
      results, more := CollectAll(local.value, [], true, results);
      assert [] + more == more;
      return;
    }
    if local.value.hash == remote.value.hash {
      PrunedExact(root, local.value, remote.value);
      return;
    }
    results, more := DiffNodes(local, remote, [], results);
    assert [] + more == more;
  }

  /** Hashes that stand for contents are truthful. */
  lemma {:induction false} FaithfulTruthful(x: Node, y: Node)
    requires Faithful(Some(x), Some(y))
    ensures Truthful(x, y)
    decreases x
  {
    FaithfulHere(x, y);
    if x.hash == y.hash {
      forall p: Path ensures Expected(Some(x), Some(y), p) == None { SameTreeNothing(x, y, p); }
    } else if x.Dir? && y.Dir? {
      forall name: Name | ChildNamed(x.children, name).Some? && ChildNamed(y.children, name).Some?
        ensures Truthful(ChildNamed(x.children, name).value, ChildNamed(y.children, name).value)
      {
        FaithfulChild(Some(x), Some(y), name);
        FaithfulTruthful(ChildNamed(x.children, name).value, ChildNamed(y.children, name).value);
      }
    }
  }

  /** The comparison promises to report a change of type. For nodes hashed by the constructors it does so
      exactly when their hash inputs differ, if those do not collide... */
  lemma ClashSeen(sha: Bytes -> Digest, x: Node, y: Node)
    requires Hashed(sha, x) && Hashed(sha, y) && Clash(Some(x), Some(y))
    requires sha(Preimage(x)) == sha(Preimage(y)) ==> Preimage(x) == Preimage(y)
    ensures ClashReport(x, y, []) != [] <==> Preimage(x) != Preimage(y)
  {
  }

  /** ... and an empty file that became an empty directory is not reported, whatever the hash function. */
  lemma ClashMissed(sha: Bytes -> Digest, name: Name)
    ensures var x, y := File(name, sha([]), []), Dir(name, sha([]), []);
            && Expected(Some(x), Some(y), []) == Some(Modified(x, y))
            && ClashReport(x, y, []) == []
  {
  }

  // ------------------------------------------------------------------------------------------
  // Hashes of the constructors can be believed
  // ------------------------------------------------------------------------------------------

  /** Two trees of the same shape, hashed by the constructors, without collisions. */
  ghost predicate Comparable(sha: Bytes -> Digest, x: Node, y: Node) {
    Hashed(sha, x) && Hashed(sha, y) && SameShape(x, y) && NoCollisions(sha, x, y)
  }

  lemma ComparableKids(sha: Bytes -> Digest, x: Node, y: Node, i: nat)
    requires Comparable(sha, x, y) && x.Dir? && i < |x.children|
    ensures |y.children| == |x.children| && Comparable(sha, x.children[i], y.children[i])
    ensures x.children[i].name == y.children[i].name
  {
  }

  /** Children of the same name stand at the same place. */
  lemma {:induction false} ChildPlace(xs: seq<Node>, ys: seq<Node>, name: Name) returns (i: nat)
    requires |xs| == |ys| && forall k :: 0 <= k < |xs| ==> xs[k].name == ys[k].name
    ensures ChildNamed(xs, name).Some? == ChildNamed(ys, name).Some?
    ensures ChildNamed(xs, name).Some? ==>
              i < |xs| && ChildNamed(xs, name) == Some(xs[i]) && ChildNamed(ys, name) == Some(ys[i])
  {
    i := 0;
    if xs != [] {
      var last := |xs| - 1;
      if xs[last].name == name {
        i := last;
      } else {
        i := ChildPlace(xs[..last], ys[..last], name);
      }
    }
  }

  lemma ComparableChild(sha: Bytes -> Digest, x: Node, y: Node, name: Name)
    requires Comparable(sha, x, y)
    ensures var (c, d) := (Child(Some(x), name), Child(Some(y), name));
            c.Some? == d.Some? && (c.Some? ==> Comparable(sha, c.value, d.value))
  {
    if x.Dir? {
      forall i | 0 <= i < |x.children|
        ensures |y.children| == |x.children| && x.children[i].name == y.children[i].name
      {
        ComparableKids(sha, x, y, i);
      }
      var i := ChildPlace(x.children, y.children, name);
      if ChildNamed(x.children, name).Some? {
        ComparableKids(sha, x, y, i);
      }
    }
  }

  lemma {:induction false} SameChunksSameTree(sha: Bytes -> Digest, x: Node, y: Node)
    requires Comparable(sha, x, y) && x.hash == y.hash
    ensures SameTree(x, y)
    decreases x
  {
    RootCommits(sha, x, y);
    if x.Dir? {
      forall name: Name | ChildNamed(x.children, name).Some?
        ensures ChildNamed(y.children, name).Some?
        ensures SameTree(ChildNamed(x.children, name).value, ChildNamed(y.children, name).value)
      {
        forall i | 0 <= i < |x.children| ensures x.children[i].name == y.children[i].name {
          ComparableKids(sha, x, y, i);
        }
        var i := ChildPlace(x.children, y.children, name);
        ComparableKids(sha, x, y, i);
        RootCommits(sha, x.children[i], y.children[i]);
        SameChunksSameTree(sha, x.children[i], y.children[i]);
      }
      forall name: Name ensures ChildNamed(x.children, name).Some? == ChildNamed(y.children, name).Some? {
        ComparableChild(sha, x, y, name);
      }
    }
  }

  /** For trees of the same shape the hashes of the constructors are faithful, so that the pruned comparison
      misses nothing. */
  lemma ConstructedFaithful(sha: Bytes -> Digest, x: Node, y: Node)
    requires Comparable(sha, x, y)
    ensures Faithful(Some(x), Some(y))
  {
    forall p: Path | At(Some(x), p).Some? && At(Some(y), p).Some?
      ensures FaithfulPair(At(Some(x), p).value, At(Some(y), p).value)
    {
      ComparableAt(sha, x, y, p);
      var c, d := At(Some(x), p).value, At(Some(y), p).value;
      if c.hash == d.hash {
        SameChunksSameTree(sha, c, d);
      }
    }
  }

  lemma {:induction false} ComparableAt(sha: Bytes -> Digest, x: Node, y: Node, p: Path)
    requires Comparable(sha, x, y) && At(Some(x), p).Some? && At(Some(y), p).Some?
    ensures Comparable(sha, At(Some(x), p).value, At(Some(y), p).value)
    decreases p
  {
    if p != [] {
      ComparableChild(sha, x, y, p[0]);
      var c, d := Child(Some(x), p[0]), Child(Some(y), p[0]);
      if c.Some? {
        ComparableAt(sha, c.value, d.value, p[1..]);
      } else {
        AtNone(p[1..]);
      }
    }
  }

  lemma {:induction false} AtNone(p: Path)
    ensures At(None, p) == None
  {
    if p != [] {
      AtNone(p[1..]);
    }
  }
}
