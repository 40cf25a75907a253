/** What rebuilding a manifest leaves alone, what it leaves behind, and when it succeeds. */
module RebuildFacts {
  import opened Bytes
  import opened Cas
  import opened ChunkPaths
  import opened Files
  import opened Merkle
  import opened PutSteps
  import opened Rebuild
  import opened Reports
  import opened TreeDiff

  // ------------------------------------------------------------------------------------------
  // Manifests that stay in their place
  // ------------------------------------------------------------------------------------------

  /** Every name below the root of the tree is proper. The root's own name is never used. */
  ghost predicate ProperTree(node: Node) {
    node.Dir? ==>
      forall i :: 0 <= i < |node.children| ==> ProperName(node.children[i].name) && ProperTree(node.children[i])
  }

  /** No file of the tree at `path` is written to the place of a chunk. */
  ghost predicate OffStore(root: Path, path: Path, node: Node)
    decreases node
  {
    match node
    case File(_, _, chunks) => chunks == [] || !IsSlot(root, path)
    case Dir(_, _, children) =>
      forall i :: 0 <= i < |children| ==> OffStore(root, path + [children[i].name], children[i])
  }

  /** The tree has no `.storage/chunks`. */
  ghost predicate KeepsOff(manifest: Node) {
    forall i, j :: 0 <= i < |Kids(manifest)| && 0 <= j < |Kids(Kids(manifest)[i])| ==>
      Kids(manifest)[i].name != STORAGE[0] || Kids(Kids(manifest)[i])[j].name != STORAGE[1]
  }

  /** The place of the store, in letters. */
  lemma StorageInLetters()
    ensures |STORAGE| == 2 && |STORAGE[0]| == 8 && |STORAGE[1]| == 6
    ensures forall i :: 0 <= i < 8 ==> STORAGE[0][i] == ".storage"[i] as int
    ensures forall i :: 0 <= i < 6 ==> STORAGE[1][i] == "chunks"[i] as int
  {
  }

  /** Paths that leave the way to the store stay off it. */
  lemma {:induction false} OffElsewhere(root: Path, path: Path, node: Node, k: nat)
    requires k < |path| && k < |root| && path[k] != root[k]
    ensures OffStore(root, path, node)
    decreases node
  {
    forall h: Digest ensures path != root + Slot(h) {
      assert (root + Slot(h))[k] == root[k];
    }
    if node.Dir? {
      forall i | 0 <= i < |node.children| ensures OffStore(root, path + [node.children[i].name], node.children[i]) {
        OffElsewhere(root, path + [node.children[i].name], node.children[i], k);
      }
    }
  }

  lemma ShorterOff(root: Path, path: Path)
    requires |path| < |root| + 2
    ensures !IsSlot(root, path)
  {
  }

  lemma KeepsOffStore(base: Path, manifest: Node)
    requires KeepsOff(manifest) && manifest.Dir?
    ensures OffStore(base + STORAGE, base, manifest)
  {
    var root := base + STORAGE;
    forall i | 0 <= i < |manifest.children|
      ensures OffStore(root, base + [manifest.children[i].name], manifest.children[i])
    {
      var node := manifest.children[i];
      var path := base + [node.name];
      if node.File? {
        ShorterOff(root, path);
      } else if node.name != STORAGE[0] {
        OffElsewhere(root, path, node, |base|);
      } else {
        forall j | 0 <= j < |node.children| ensures OffStore(root, path + [node.children[j].name], node.children[j]) {
          assert Kids(Kids(manifest)[i])[j] == node.children[j];
          OffElsewhere(root, path + [node.children[j].name], node.children[j], |base| + 1);
        }
      }
    }
  }

  // ------------------------------------------------------------------------------------------
  // What rebuilding leaves alone
  // ------------------------------------------------------------------------------------------

  /** Writing a file away from the places of chunks keeps the store. */
  lemma FileKeepsStore(fs: Fs, root: Path, path: Path, chunks: seq<Digest>)
    requires !IsSlot(root, path)
    ensures StoreView(RebuildFile(fs, root, path, chunks).fs, root) == StoreView(fs, root)
  {
    hide StoreView, Slot;
    var made := MkdirAll(fs, ParentOf(path));
    if made.Ok? {
      MkdirKeepsStore(fs, ParentOf(path), root);
      forall h: Digest ensures path != root + Slot(h) {}
      SameStore(made.value, RebuildFile(fs, root, path, chunks).fs, root);
    }
  }

  /** Rebuilding a tree that stays off the store keeps the store, whether or not it succeeds. */
  lemma {:induction false} NodeKeepsStore(fs: Fs, root: Path, parent: Path, node: Node)
    requires ProperName(node.name) && ProperTree(node) && OffStore(root, parent + [node.name], node)
    ensures StoreView(RebuildNode(fs, root, parent, node).fs, root) == StoreView(fs, root)
    decreases node, 1, 0
  {
    hide StoreView, RebuildFile, RebuildNodes;
    LocateAt(parent, node.name);
    var path := parent + [node.name];
    match node
    case File(_, _, chunks) =>
      if chunks != [] {
        FileKeepsStore(fs, root, path, chunks);
      }
    case Dir(_, _, children) =>
      if MkdirAll(fs, path).Ok? {
        MkdirKeepsStore(fs, path, root);
        NodesKeepStore(MkdirAll(fs, path).value, root, path, node, |children|);
        assert children[..|children|] == children;
      }
  }

  lemma {:induction false} NodesKeepStore(fs: Fs, root: Path, path: Path, node: Node, i: nat)
    requires node.Dir? && ProperTree(node) && OffStore(root, path, node) && i <= |node.children|
    ensures StoreView(RebuildNodes(fs, root, path, node.children[..i]).fs, root) == StoreView(fs, root)
    decreases node, 0, i
  {
    hide StoreView, RebuildNode;
    if i > 0 {
      NodesKeepStore(fs, root, path, node, i - 1);
      RebuildNext(fs, root, path, node.children, i - 1);
      NodeKeepsStore(RebuildNodes(fs, root, path, node.children[..i - 1]).fs, root, path, node.children[i - 1]);
    }
  }

  lemma FileFrame(fs: Fs, root: Path, parent: Path, name: Name, chunks: seq<Digest>)
    requires AllDirectories(fs, parent)
    ensures Elsewhere(RebuildFile(fs, root, parent + [name], chunks).fs, fs, parent + [name], EVERYWHERE)
  {
    assert ParentOf(parent + [name]) == parent;
    MkdirExisting(fs, parent);
  }

  lemma DirFrame(fs: Fs, parent: Path, name: Name)
    requires AllDirectories(fs, parent) && MkdirAll(fs, parent + [name]).Ok?
    ensures var made := MkdirAll(fs, parent + [name]).value;
            && Elsewhere(made, fs, parent + [name], EVERYWHERE) && AllDirectories(made, parent + [name])
  {
    var path := parent + [name];
    assert path[..|path| - 1] == parent;
    MkdirBelow(fs, path);
    var made := MkdirAll(fs, path).value;
    forall k | 0 <= k <= |path| ensures IsDirectory(made, path[..k]) {
      if k <= |parent| {
        assert path[..k] == parent[..k] && IsDirectory(fs, parent[..k]);
      } else {
        assert path[..k] == path;
      }
    }
  }

  /** Rebuilding a subtree touches nothing but its own place and what lies below, whether or not it succeeds. */
  lemma {:induction false} NodeFrame(fs: Fs, root: Path, parent: Path, node: Node)
    requires ProperName(node.name) && ProperTree(node) && AllDirectories(fs, parent)
    ensures Elsewhere(RebuildNode(fs, root, parent, node).fs, fs, parent + [node.name], EVERYWHERE)
    decreases node, 1, 0
  {
    hide RebuildFile, RebuildNodes, AllDirectories;
    LocateAt(parent, node.name);
    var path := parent + [node.name];
    match node
    case File(_, _, chunks) =>
      if chunks != [] {
        FileFrame(fs, root, parent, node.name, chunks);
      }
    case Dir(_, _, children) =>
      if MkdirAll(fs, path).Ok? {
        DirFrame(fs, parent, node.name);
        NodesFrame(MkdirAll(fs, path).value, root, path, node, |children|);
        assert children[..|children|] == children;
      }
  }

  lemma {:induction false} NodesFrame(fs: Fs, root: Path, path: Path, node: Node, i: nat)
    requires node.Dir? && ProperTree(node) && AllDirectories(fs, path) && i <= |node.children|
    ensures var after := RebuildNodes(fs, root, path, node.children[..i]).fs;
            Elsewhere(after, fs, path, Under(Names(node.children[..i]))) && AllDirectories(after, path)
    decreases node, 0, i
  {
    hide RebuildNode, AllDirectories;
    if i > 0 {
      var before := RebuildNodes(fs, root, path, node.children[..i - 1]).fs;
      var after := RebuildNodes(fs, root, path, node.children[..i]).fs;
      NodesFrame(fs, root, path, node, i - 1);
      RebuildNext(fs, root, path, node.children, i - 1);
      NodeFrame(before, root, path, node.children[i - 1]);
      ElsewhereFromChild(after, before, path, node.children[i - 1].name);
      var s, t := Under(Names(node.children[..i - 1])), Under({node.children[i - 1].name});
      ElsewhereThen(after, before, fs, path, s, t);
      assert s + t == Under(Names(node.children[..i])) by { UnderNames(node.children, i - 1); }
      ElsewhereAbove(after, fs, path, s + t);
    }
  }

  lemma UnderNames(nodes: seq<Node>, i: nat)
    requires i < |nodes|
    ensures Under(Names(nodes[..i])) + Under({nodes[i].name}) == Under(Names(nodes[..i + 1]))
  {
    assert nodes[..i + 1] == nodes[..i] + [nodes[i]];
    assert Names(nodes[..i + 1]) == Names(nodes[..i]) + {nodes[i].name};
  }

  // ------------------------------------------------------------------------------------------
  // What a successful rebuild leaves behind
  // ------------------------------------------------------------------------------------------

  /** What must hold of a subtree for rebuilding it to lay it over the directory. */
  ghost predicate InPlace(root: Path, path: Path, node: Node) {
    Tidy(node) && ProperTree(node) && OffStore(root, path, node)
  }

  lemma InPlaceParts(root: Path, path: Path, node: Node)
    requires InPlace(root, path, node)
    ensures Tidy(node) && ProperTree(node) && OffStore(root, path, node)
    ensures node.File? && node.chunks != [] ==> !IsSlot(root, path)
  {
  }

  lemma InPlaceChild(root: Path, path: Path, node: Node, i: nat)
    requires InPlace(root, path, node) && node.Dir? && i < |node.children|
    ensures InPlace(root, path + [node.children[i].name], node.children[i]) && ProperName(node.children[i].name)
    ensures Distinct(node.children)
  {
  }

  /** A subtree that was rebuilt is laid over the directory, its files restored from the store. */
  lemma {:induction false} NodeLays(fs: Fs, root: Path, parent: Path, node: Node)
    requires InPlace(root, parent + [node.name], node) && ProperName(node.name) && AllDirectories(fs, parent)
    requires RebuildNode(fs, root, parent, node).written.Ok?
    ensures Overlaid(RebuildNode(fs, root, parent, node).fs, fs, parent + [node.name],
                     Writes(StoreView(fs, root), Some(node)), EVERYWHERE)
    decreases node, 1, 0
  {
    hide StoreView, RebuildFile, RebuildNodes, AllDirectories, Overlaid, Writes, InPlace;
    LocateAt(parent, node.name);
    var path, view := parent + [node.name], StoreView(fs, root);
    match node
    case File(_, _, chunks) =>
      if chunks == [] {
        FileWrites(view, node);
        OverlaidNothing(fs, path, Writes(view, Some(node)), EVERYWHERE);
      } else {
        InPlaceParts(root, path, node);
        FileLays(fs, root, parent, node);
      }
    case Dir(_, _, children) =>
      var made := MkdirAll(fs, path).value;
      MkdirKeepsStore(fs, path, root);
      DirMade(view, node, fs, made, parent);
      assert children[..|children|] == children;
      NodesLay(made, root, path, node, |children|);
      DirDone(view, node, fs, made, RebuildNode(fs, root, parent, node).fs, parent);
  }

  lemma {:induction false} NodesLay(fs: Fs, root: Path, path: Path, node: Node, i: nat)
    requires node.Dir? && InPlace(root, path, node) && AllDirectories(fs, path) && i <= |node.children|
    requires RebuildNodes(fs, root, path, node.children[..i]).written.Ok?
    ensures Overlaid(RebuildNodes(fs, root, path, node.children[..i]).fs, fs, path,
                     Writes(StoreView(fs, root), Some(node)), Under(Names(node.children[..i])))
    decreases node, 0, i
  {
    hide StoreView, RebuildNode, AllDirectories, Overlaid, Writes, InPlace, Names;
    var view := StoreView(fs, root);
    if i == 0 {
      NothingWritten(view, node, path, fs);
    } else {
      var before := RebuildNodes(fs, root, path, node.children[..i - 1]).fs;
      RebuildNext(fs, root, path, node.children, i - 1);
      NodesLay(fs, root, path, node, i - 1);
      InPlaceChild(root, path, node, i - 1);
      InPlaceNodes(fs, root, path, node, i - 1);
      NodeLays(before, root, path, node.children[i - 1]);
      ChildDone(view, node, fs, before, RebuildNodes(fs, root, path, node.children[..i]).fs, path, i - 1);
    }
  }

  /** Some children have been rebuilt: the store is as it was, and so is the way to the directory. */
  lemma InPlaceNodes(fs: Fs, root: Path, path: Path, node: Node, i: nat)
    requires node.Dir? && InPlace(root, path, node) && AllDirectories(fs, path) && i <= |node.children|
    ensures var after := RebuildNodes(fs, root, path, node.children[..i]).fs;
            StoreView(after, root) == StoreView(fs, root) && AllDirectories(after, path)
  {
    NodesKeepStore(fs, root, path, node, i);
    NodesFrame(fs, root, path, node, i);
  }

  lemma FileLays(fs: Fs, root: Path, parent: Path, node: Node)
    requires node.File? && node.chunks != [] && AllDirectories(fs, parent) && !IsSlot(root, parent + [node.name])
    requires RebuildFile(fs, root, parent + [node.name], node.chunks).written.Ok?
    ensures Overlaid(RebuildFile(fs, root, parent + [node.name], node.chunks).fs, fs, parent + [node.name],
                     Writes(StoreView(fs, root), Some(node)), EVERYWHERE)
  {
    hide StoreView;
    var path, view := parent + [node.name], StoreView(fs, root);
    assert ParentOf(path) == parent;
    MkdirExisting(fs, parent);
    SpellRestores(view, root, path, node.chunks);
    FileWrites(view, node);
    OverlaidOne(RebuildFile(fs, root, path, node.chunks).fs, fs, path, Writes(view, Some(node)),
                FsFile(Restore(view, node.chunks).value));
    OverlaidWiden(RebuildFile(fs, root, path, node.chunks).fs, fs, path, Writes(view, Some(node)), HERE, EVERYWHERE);
  }

  lemma FileWrites(view: Chunks, node: Node)
    requires node.File?
    ensures forall p :: p != [] || node.chunks == [] ==> Writes(view, Some(node))(p) == None
  {
    forall p: Path | p != [] || node.chunks == [] ensures Written(view, Some(node), p) == None {
      if p != [] {
        AtNone(p[1..]);
      }
    }
  }

  lemma DirMade(view: Chunks, node: Node, before: Fs, made: Fs, parent: Path)
    requires node.Dir? && MkdirAll(before, parent + [node.name]) == Ok(made) && AllDirectories(before, parent)
    ensures Overlaid(made, before, parent + [node.name], Writes(view, Some(node)), HERE)
    ensures AllDirectories(made, parent + [node.name])
  {
    var path := parent + [node.name];
    assert path[..|path| - 1] == parent;
    DirFrame(before, parent, node.name);
    MkdirBelow(before, path);
    OverlaidOne(made, before, path, Writes(view, Some(node)), FsDir);
  }

  lemma DirDone(view: Chunks, node: Node, before: Fs, made: Fs, after: Fs, parent: Path)
    requires node.Dir? && Overlaid(made, before, parent + [node.name], Writes(view, Some(node)), HERE)
    requires Overlaid(after, made, parent + [node.name], Writes(view, Some(node)), Under(Names(node.children)))
    ensures Overlaid(after, before, parent + [node.name], Writes(view, Some(node)), EVERYWHERE)
  {
    var path, writes := parent + [node.name], Writes(view, Some(node));
    OverlaidThen(after, made, before, path, writes, HERE, Under(Names(node.children)));
    NoWritesBelow(view, node, Names(node.children));
    OverlaidWiden(after, before, path, writes, HERE + Under(Names(node.children)), EVERYWHERE);
  }

  lemma NothingWritten(view: Chunks, node: Node, path: Path, fs: Fs)
    requires node.Dir?
    ensures Overlaid(fs, fs, path, Writes(view, Some(node)), Under(Names(node.children[..0])))
  {
    OverlaidNothing(fs, path, Writes(view, Some(node)), Under(Names(node.children[..0])));
  }

  lemma ChildDone(view: Chunks, node: Node, before: Fs, start: Fs, after: Fs, path: Path, i: nat)
    requires node.Dir? && Distinct(node.children) && i < |node.children|
    requires Overlaid(start, before, path, Writes(view, Some(node)), Under(Names(node.children[..i])))
    requires Overlaid(after, start, path + [node.children[i].name], Writes(view, Some(node.children[i])), EVERYWHERE)
    ensures Overlaid(after, before, path, Writes(view, Some(node)), Under(Names(node.children[..i + 1])))
  {
    var child, writes := node.children[i], Writes(view, Some(node));
    OwnChild(node.children, i);
    ChildWrites(view, node, child.name);
    hide Overlaid, Writes;
    OverlaidFromChild(after, start, path, writes, Writes(view, Some(child)), child.name);
    NamesGrow(node.children, i);
    OverlaidThen(after, start, before, path, writes, Under(Names(node.children[..i])), Under({child.name}));
    assert Under(Names(node.children[..i])) + Under({child.name}) == Under(Names(node.children[..i + 1]));
  }

  // ------------------------------------------------------------------------------------------
  // When rebuilding succeeds
  // ------------------------------------------------------------------------------------------

  /** A file can be restored only if all its chunks are present. */
  lemma FilePresent(node: Node, view: Chunks)
    requires node.File?
    ensures Restore(view, node.chunks).Some? <==> AllPresent(node, view)
  {
    if i: nat :| i < |node.chunks| && node.chunks[i] !in view {
      RestoreMissing(view, node.chunks, i);
      assert HasChunk(node, node.chunks[i]);
    } else {
      RestorePresent(view, node.chunks);
    }
  }

  /** A rebuild that succeeds has written every file that has chunks, and had all of them. */
  lemma {:induction false} NodeCounts(fs: Fs, root: Path, parent: Path, node: Node)
    requires ProperName(node.name) && ProperTree(node) && OffStore(root, parent + [node.name], node)
    requires RebuildNode(fs, root, parent, node).written.Ok?
    ensures RebuildNode(fs, root, parent, node).written.value == FileCount(node)
    ensures AllPresent(node, StoreView(fs, root))
    decreases node, 1, 0
  {
    hide StoreView, RebuildNodes, AllPresent;
    LocateAt(parent, node.name);
    var path, view := parent + [node.name], StoreView(fs, root);
    match node
    case File(_, _, chunks) =>
      FilePresent(node, view);
      if chunks != [] {
        SpellRestores(view, root, path, chunks);
      }
    case Dir(_, _, children) =>
      MkdirKeepsStore(fs, path, root);
      assert children[..|children|] == children;
      NodesCount(MkdirAll(fs, path).value, root, path, node, |children|);
      ChildrenPresent(node, view);
  }

  lemma {:induction false} NodesCount(fs: Fs, root: Path, path: Path, node: Node, i: nat)
    requires node.Dir? && ProperTree(node) && OffStore(root, path, node) && i <= |node.children|
    requires RebuildNodes(fs, root, path, node.children[..i]).written.Ok?
    ensures RebuildNodes(fs, root, path, node.children[..i]).written.value == FileCounts(node.children[..i])
    ensures forall k :: 0 <= k < i ==> AllPresent(node.children[k], StoreView(fs, root))
    decreases node, 0, i
  {
    hide StoreView, RebuildNode, AllPresent;
    if i > 0 {
      RebuildNext(fs, root, path, node.children, i - 1);
      NodesCount(fs, root, path, node, i - 1);
      NodesKeepStore(fs, root, path, node, i - 1);
      NodeCounts(RebuildNodes(fs, root, path, node.children[..i - 1]).fs, root, path, node.children[i - 1]);
      assert node.children[..i][..i - 1] == node.children[..i - 1];
    }
  }

  lemma ChildrenPresent(node: Node, view: Chunks)
    requires node.Dir? && forall k :: 0 <= k < |node.children| ==> AllPresent(node.children[k], view)
    ensures AllPresent(node, view)
  {
  }

  /** With all chunks there and nothing in the way, rebuilding cannot fail. */
  lemma {:induction false} NodeSucceeds(fs: Fs, root: Path, parent: Path, node: Node)
    requires InPlace(root, parent + [node.name], node) && ProperName(node.name) && AllDirectories(fs, parent)
    requires AllPresent(node, StoreView(fs, root)) && Fits(fs, parent + [node.name], node)
    ensures RebuildNode(fs, root, parent, node).written.Ok?
    decreases node, 1, 0
  {
    hide StoreView, RebuildNodes, AllDirectories, InPlace, AllPresent;
    LocateAt(parent, node.name);
    var path := parent + [node.name];
    FitsHere(fs, path, node);
    match node
    case File(_, _, chunks) =>
      if chunks != [] {
        InPlaceParts(root, path, node);
        FileSucceeds(fs, root, parent, node);
      }
    case Dir(_, _, children) =>
      assert path[..|path| - 1] == parent;
      MkdirBelow(fs, path);
      var made := MkdirAll(fs, path).value;
      MkdirKeepsStore(fs, path, root);
      DirFrame(fs, parent, node.name);
      FitsMade(fs, made, path, node);
      NodesSucceed(made, root, path, node, |children|);
      assert children[..|children|] == children;
  }

  lemma {:induction false} NodesSucceed(fs: Fs, root: Path, path: Path, node: Node, i: nat)
    requires node.Dir? && InPlace(root, path, node) && AllDirectories(fs, path) && i <= |node.children|
    requires AllPresent(node, StoreView(fs, root)) && Fits(fs, path, node)
    ensures RebuildNodes(fs, root, path, node.children[..i]).written.Ok?
    decreases node, 0, i
  {
    hide StoreView, RebuildNode, AllDirectories, InPlace, AllPresent, Fits;
    if i > 0 {
      RebuildNext(fs, root, path, node.children, i - 1);
      NodesSucceed(fs, root, path, node, i - 1);
      NextFits(fs, root, path, node, i - 1);
      NodeSucceeds(RebuildNodes(fs, root, path, node.children[..i - 1]).fs, root, path, node.children[i - 1]);
    }
  }

  /** After its elder siblings a child still finds what it needs. */
  lemma NextFits(fs: Fs, root: Path, path: Path, node: Node, i: nat)
    requires node.Dir? && InPlace(root, path, node) && AllDirectories(fs, path) && i < |node.children|
    requires AllPresent(node, StoreView(fs, root)) && Fits(fs, path, node)
    ensures var (before, child) := (RebuildNodes(fs, root, path, node.children[..i]).fs, node.children[i]);
            && InPlace(root, path + [child.name], child) && ProperName(child.name) && AllDirectories(before, path)
            && AllPresent(child, StoreView(before, root)) && Fits(before, path + [child.name], child)
  {
    hide StoreView, RebuildNodes, AllDirectories, InPlace, AllPresent, Fits, Under, Names, Elsewhere;
    InPlaceChild(root, path, node, i);
    InPlaceNodes(fs, root, path, node, i);
    InPlaceParts(root, path, node);
    NodesFrame(fs, root, path, node, i);
    FitsChild(fs, RebuildNodes(fs, root, path, node.children[..i]).fs, path, node, i);
    ChildPresent(node, i, StoreView(fs, root));
  }

  lemma ChildPresent(node: Node, i: nat, view: Chunks)
    requires node.Dir? && i < |node.children| && AllPresent(node, view)
    ensures AllPresent(node.children[i], view)
  {
    assert forall h :: HasChunk(node.children[i], h) ==> HasChunk(node, h);
  }

  lemma FitsHere(fs: Fs, path: Path, node: Node)
    requires Fits(fs, path, node)
    ensures node.Dir? ==> !IsFile(Look(fs, path))
    ensures node.File? && node.chunks != [] ==> Look(fs, path) != Some(FsDir)
  {
    assert At(Some(node), []) == Some(node) && path + [] == path;
  }

  lemma FitsMade(fs: Fs, made: Fs, path: Path, node: Node)
    requires path != [] && node.Dir? && Fits(fs, path, node)
    requires made == fs || made == fs[path := FsDir]
    ensures Fits(made, path, node)
  {
    forall p: Path | At(Some(node), p).Some? && Look(made, path + p).Some?
      ensures At(Some(node), p).value.Dir? ==> Look(made, path + p).value.FsDir?
      ensures At(Some(node), p).value.File? && At(Some(node), p).value.chunks != [] ==>
                Look(made, path + p).value.FsFile?
    {
      if p != [] {
        assert path + p != path;
      }
    }
  }

  /** Rebuilding its elder siblings puts nothing in the way of a child. */
  lemma FitsChild(fs: Fs, before: Fs, path: Path, node: Node, i: nat)
    requires node.Dir? && Distinct(node.children) && i < |node.children| && Fits(fs, path, node)
    requires Elsewhere(before, fs, path, Under(Names(node.children[..i])))
    ensures Fits(before, path + [node.children[i].name], node.children[i])
  {
    var child := node.children[i];
    OwnChild(node.children, i);
    NamesGrow(node.children, i);
    forall p: Path
      ensures Look(before, path + [child.name] + p) == Look(fs, path + ([child.name] + p))
      ensures At(Some(child), p) == At(Some(node), [child.name] + p)
    {
      var q := path + [child.name] + p;
      assert q == path + ([child.name] + p) && q[|path|..] == [child.name] + p;
      assert ([child.name] + p)[1..] == p;
    }
  }

  lemma FileSucceeds(fs: Fs, root: Path, parent: Path, node: Node)
    requires node.File? && AllDirectories(fs, parent) && !IsSlot(root, parent + [node.name])
    requires AllPresent(node, StoreView(fs, root)) && Look(fs, parent + [node.name]) != Some(FsDir)
    ensures RebuildFile(fs, root, parent + [node.name], node.chunks).written.Ok?
  {
    hide StoreView, AllPresent;
    var path := parent + [node.name];
    assert ParentOf(path) == parent;
    MkdirExisting(fs, parent);
    FilePresent(node, StoreView(fs, root));
    SpellRestores(StoreView(fs, root), root, path, node.chunks);
  }

  // ------------------------------------------------------------------------------------------
  // What success needs
  // ------------------------------------------------------------------------------------------

  /** A rebuild that succeeds had nothing in its way. */
  lemma {:induction false} NodeNeedsRoom(fs: Fs, root: Path, parent: Path, node: Node)
    requires InPlace(root, parent + [node.name], node) && ProperName(node.name) && AllDirectories(fs, parent)
    requires RebuildNode(fs, root, parent, node).written.Ok?
    ensures Fits(fs, parent + [node.name], node)
    decreases node, 1, 0
  {
    hide StoreView, RebuildNodes, AllDirectories, InPlace, Spell, Fits;
    LocateAt(parent, node.name);
    var path := parent + [node.name];
    match node
    case File(_, _, chunks) =>
      if chunks != [] {
        assert ParentOf(path) == parent;
        MkdirExisting(fs, parent);
      }
      FileFits(fs, path, node);
    case Dir(_, _, children) =>
      assert path[..|path| - 1] == parent;
      MkdirBelow(fs, path);
      var made := MkdirAll(fs, path).value;
      DirFrame(fs, parent, node.name);
      assert children[..|children|] == children;
      NodesNeedRoom(made, root, path, node, |children|);
      InPlaceParts(root, path, node);
      DirFits(fs, made, path, node);
  }

  lemma {:induction false} NodesNeedRoom(fs: Fs, root: Path, path: Path, node: Node, i: nat)
    requires node.Dir? && InPlace(root, path, node) && AllDirectories(fs, path) && i <= |node.children|
    requires RebuildNodes(fs, root, path, node.children[..i]).written.Ok?
    ensures forall k :: 0 <= k < i ==> Fits(fs, path + [node.children[k].name], node.children[k])
    decreases node, 0, i
  {
    hide StoreView, RebuildNode, AllDirectories, InPlace, Fits, Elsewhere, Under, Names;
    if i > 0 {
      var before := RebuildNodes(fs, root, path, node.children[..i - 1]).fs;
      RebuildNext(fs, root, path, node.children, i - 1);
      NodesNeedRoom(fs, root, path, node, i - 1);
      InPlaceChild(root, path, node, i - 1);
      InPlaceParts(root, path, node);
      NodesFrame(fs, root, path, node, i - 1);
      NodeNeedsRoom(before, root, path, node.children[i - 1]);
      FitsEarlier(fs, before, path, node, i - 1);
    }
  }

  lemma FileFits(fs: Fs, path: Path, node: Node)
    requires node.File? && (node.chunks != [] ==> Look(fs, path) != Some(FsDir))
    ensures Fits(fs, path, node)
  {
    forall p: Path | At(Some(node), p).Some? ensures p == [] {
      if p != [] {
        AtNone(p[1..]);
      }
    }
    assert path + [] == path;
  }

  /** A directory fits where no file stands and its children fit. */
  lemma DirFits(fs: Fs, made: Fs, path: Path, node: Node)
    requires node.Dir? && path != [] && !IsFile(Look(fs, path)) && (made == fs || made == fs[path := FsDir])
    requires forall k :: 0 <= k < |node.children| ==> Fits(made, path + [node.children[k].name], node.children[k])
    ensures Fits(fs, path, node)
  {
    forall p: Path | At(Some(node), p).Some? && Look(fs, path + p).Some?
      ensures At(Some(node), p).value.Dir? ==> Look(fs, path + p).value.FsDir?
      ensures At(Some(node), p).value.File? && At(Some(node), p).value.chunks != [] ==>
                Look(fs, path + p).value.FsFile?
    {
      if p == [] {
        assert path + p == path;
      } else {
        var child := Child(Some(node), p[0]);
        if child.None? {
          AtNone(p[1..]);
        } else {
          var k :| 0 <= k < |node.children| && node.children[k] == child.value;
          assert path + p != path && path + p == path + [node.children[k].name] + p[1..];
          assert Look(made, path + [node.children[k].name] + p[1..]) == Look(fs, path + p);
        }
      }
    }
  }

  lemma FitsEarlier(fs: Fs, before: Fs, path: Path, node: Node, i: nat)
    requires node.Dir? && Distinct(node.children) && i < |node.children|
    requires Elsewhere(before, fs, path, Under(Names(node.children[..i])))
    requires Fits(before, path + [node.children[i].name], node.children[i])
    ensures Fits(fs, path + [node.children[i].name], node.children[i])
  {
    var child := node.children[i];
    NamesGrow(node.children, i);
    forall p: Path ensures Look(before, path + [child.name] + p) == Look(fs, path + [child.name] + p) {
      var q := path + [child.name] + p;
      assert q[|path|..] == [child.name] + p;
    }
  }

  // ------------------------------------------------------------------------------------------
  // How many files
  // ------------------------------------------------------------------------------------------

  ghost function Prefixed(name: Name, paths: set<Path>): set<Path> {
    set p | p in paths :: [name] + p
  }

  lemma {:induction false} PrefixedSize(name: Name, paths: set<Path>)
    ensures |Prefixed(name, paths)| == |paths|
  {
    if paths != {} {
      var p :| p in paths;
      PrefixedSize(name, paths - {p});
      assert forall q: Path, r: Path :: [name] + q == [name] + r ==> q == ([name] + q)[1..] && r == ([name] + r)[1..];
      assert [name] + p !in Prefixed(name, paths - {p});
      assert Prefixed(name, paths) == Prefixed(name, paths - {p}) + {[name] + p};
    }
  }

  /** The files of a tree that have chunks. */
  ghost predicate HasFile(node: Node, p: Path) {
    var n := At(Some(node), p);
    n.Some? && n.value.File? && n.value.chunks != []
  }

  /** The number of files written is the number of paths at which the tree has a file with chunks. */
  lemma {:induction false} FilesCounted(node: Node) returns (paths: set<Path>)
    requires Tidy(node)
    ensures |paths| == FileCount(node) && forall p :: p in paths <==> HasFile(node, p)
    decreases node, 1, 0
  {
    match node
    case File(_, _, chunks) =>
      paths := if chunks == [] then {} else {[]};
      forall p: Path ensures p in paths <==> HasFile(node, p) {
        if p != [] {
          AtNone(p[1..]);
        }
      }
    case Dir(_, _, children) =>
      paths := ChildFilesCounted(node, |children|);
      assert children[..|children|] == children;
      forall p: Path ensures p in paths <==> HasFile(node, p) {
        if p != [] && Child(Some(node), p[0]).None? {
          AtNone(p[1..]);
        }
      }
  }

  lemma {:induction false} ChildFilesCounted(node: Node, i: nat) returns (paths: set<Path>)
    requires node.Dir? && Tidy(node) && i <= |node.children|
    ensures |paths| == FileCounts(node.children[..i])
    ensures forall p :: p in paths <==> p != [] && p[0] in Names(node.children[..i]) && HasFile(node, p)
    decreases node, 0, i
  {
    if i == 0 {
      paths := {};
    } else {
      var child := node.children[i - 1];
      var before := ChildFilesCounted(node, i - 1);
      var own := FilesCounted(child);
      OwnFiles(node, i - 1, own);
      PrefixedSize(child.name, own);
      NamesGrow(node.children, i - 1);
      assert node.children[..i][..i - 1] == node.children[..i - 1];
      hide HasFile, Names, Prefixed;
      paths := before + Prefixed(child.name, own);
      assert before !! Prefixed(child.name, own);
    }
  }

  lemma OwnFiles(node: Node, i: nat, own: set<Path>)
    requires node.Dir? && Tidy(node) && i < |node.children|
    requires forall p :: p in own <==> HasFile(node.children[i], p)
    ensures forall p :: p in Prefixed(node.children[i].name, own)
                        <==> p != [] && p[0] == node.children[i].name && HasFile(node, p)
  {
    var child := node.children[i];
    OwnChild(node.children, i);
    forall p: Path ensures p in Prefixed(child.name, own) <==> p != [] && p[0] == child.name && HasFile(node, p) {
      if p != [] && p[0] == child.name {
        assert p == [child.name] + p[1..];
        assert HasFile(node, p) <==> HasFile(child, p[1..]);
      }
      if p in Prefixed(child.name, own) {
        var q :| q in own && p == [child.name] + q;
        assert p[1..] == q;
      }
    }
  }
}
