/** One sync run of the command line client: compare, fetch what is missing, rebuild, delete. */
module SyncRun {
  import opened Bytes
  import opened Cas
  import opened ChunkPaths
  import opened Fetching
  import opened Files
  import opened ManifestDiff
  import opened Merkle
  import opened PutSteps
  import opened Rebuild
  import opened RebuildFacts
  import opened Reports
  import opened StoreOverlap
  import opened TreeDiff

  // ------------------------------------------------------------------------------------------
  // The plan
  // ------------------------------------------------------------------------------------------

  /** What must hold for the two trees to be reconciled by this comparison. */
  ghost predicate Reconcilable(local: Node, manifest: Node) {
    && manifest.Dir? && Tidy(manifest)
    && Faithful(Some(local), Some(manifest)) && ClashFree(Some(local), Some(manifest))
  }

  /** The plan of a run: what to request and what to delete. */
  method Plan(store: BlobStore, local: Node, manifest: Node)
    returns (requested: seq<Digest>, deleted: seq<Path>, ghost log: seq<Item<Outcome>>)
    ensures Planned(log, local, manifest, View(store.disk), requested, deleted)
    ensures TopTruthful(local, manifest) ==> Lists(log, [], Tops(Some(local), Some(manifest)), EVERYWHERE)
  {
    hide View, AnyHasChunk, Lists, Tops, TopTruthful, Grounded;
    var result := DiffTrees(Some(local), Some(manifest));
    log, deleted := result.log, result.deleted;
    requested := CollectAllMissing(result.added + result.modified, store);
  }

  ghost predicate Planned(log: seq<Item<Outcome>>, local: Node, manifest: Node, view: Chunks,
                          requested: seq<Digest>, deleted: seq<Path>) {
    && Grounded(log, [], Some(local), Some(manifest))
    && (forall h :: h in requested <==> AnyHasChunk(Fetched(log) + Replaced(log), h) && h !in view)
    && deleted == Removed(log)
  }

  /** The plan names nothing foreign: only chunks of the manifest that are missing, only local paths that the
      manifest does not have. */
  ghost predicate Warranted(local: Node, manifest: Node, view: Chunks, requested: seq<Digest>, deleted: seq<Path>) {
    && (forall h :: h in requested ==> HasChunk(manifest, h) && h !in view)
    && (AllPresent(manifest, view) ==> requested == [])
    && (forall p :: p in deleted ==> At(Some(local), p).Some? && At(Some(manifest), p) == None)
  }

  lemma PlanSound(log: seq<Item<Outcome>>, local: Node, manifest: Node, view: Chunks,
                  requested: seq<Digest>, deleted: seq<Path>)
    requires Planned(log, local, manifest, view, requested, deleted)
    ensures Warranted(local, manifest, view, requested, deleted) && AllFrom(requested, manifest)
  {
    forall h | h in requested ensures HasChunk(manifest, h) && h !in view {
      OnlyFromManifest(log, local, manifest, h);
    }
    if requested != [] {
      assert requested[0] in requested;
    }
    forall p | p in deleted ensures At(Some(local), p).Some? && At(Some(manifest), p) == None {
      DeletesLocalOnly(log, local, manifest, p);
    }
  }

  lemma ReconcilableTruthful(local: Node, manifest: Node)
    requires Reconcilable(local, manifest)
    ensures TopTruthful(local, manifest) && manifest.Dir? && Tidy(manifest)
  {
    FaithfulTopTruthful(local, manifest);
  }

  /** The top of something that only the local tree has: its parent is in both trees. */
  ghost predicate OnlyLocal(local: Node, manifest: Node, p: Path) {
    && p != [] && At(Some(local), p).Some? && At(Some(manifest), p) == None
    && At(Some(local), p[..|p| - 1]).Some? && At(Some(manifest), p[..|p| - 1]).Some?
  }

  /** Exactly those are deleted, if the hashes are truthful. */
  lemma DeletesExactly(log: seq<Item<Outcome>>, local: Node, manifest: Node, deleted: seq<Path>)
    requires Lists(log, [], Tops(Some(local), Some(manifest)), EVERYWHERE) && deleted == Removed(log)
    ensures forall p :: p in deleted <==> OnlyLocal(local, manifest, p)
  {
    hide Lists, Tops;
    var l, r := Some(local), Some(manifest);
    forall p ensures p in deleted <==> OnlyLocal(local, manifest, p) {
      InRemoved(log, p);
      OutcomeAt(log, l, r, p);
      TopmostIsTopVerdict(l, r, p);
    }
  }

  /** Every chunk of the manifest that neither the local tree lists nor the store has is requested. */
  lemma RequestsAll(log: seq<Item<Outcome>>, local: Node, manifest: Node, view: Chunks,
                    requested: seq<Digest>, deleted: seq<Path>)
    requires Planned(log, local, manifest, view, requested, deleted) && Reconcilable(local, manifest)
    requires Lists(log, [], Tops(Some(local), Some(manifest)), EVERYWHERE)
    ensures forall h :: HasChunk(manifest, h) && !HasChunk(local, h) && h !in view ==> h in requested
  {
    hide Lists, Tops;
    forall h | HasChunk(manifest, h) && !HasChunk(local, h) && h !in view ensures h in requested {
      NothingForgotten(log, local, manifest, h);
    }
  }

  lemma PlanComplete(log: seq<Item<Outcome>>, local: Node, manifest: Node, view: Chunks, view': Chunks,
                     requested: seq<Digest>, deleted: seq<Path>)
    requires Reconcilable(local, manifest) && AllPresent(local, view) && Extends(view, view')
    requires Lists(log, [], Tops(Some(local), Some(manifest)), EVERYWHERE)
    requires Planned(log, local, manifest, view, requested, deleted) && AllIn(requested, view')
    ensures AllPresent(manifest, view')
  {
    forall h | HasChunk(manifest, h) ensures h in view' {
      if !HasChunk(local, h) {
        NothingForgotten(log, local, manifest, h);
        assert h in view || h in requested;
      }
    }
  }

  // ------------------------------------------------------------------------------------------
  // Deleting
  // ------------------------------------------------------------------------------------------

  /** A tree as the tree builder makes it: proper names, and none that starts with a dot. */
  ghost predicate Visible(node: Node) {
    node.Dir? ==>
      forall i :: 0 <= i < |node.children| ==> VisibleName(node.children[i].name) && Visible(node.children[i])
  }

  predicate VisibleName(name: Name) {
    ProperName(name) && name[0] != DOT
  }

  ghost predicate VisiblePath(p: Path) {
    forall i :: 0 <= i < |p| ==> VisibleName(p[i])
  }

  lemma {:induction false} PathsVisible(node: Node, p: Path)
    requires Visible(node) && At(Some(node), p).Some?
    ensures VisiblePath(p)
    decreases p
  {
    if p != [] {
      var child := Child(Some(node), p[0]);
      if child.None? {
        AtNone(p[1..]);
        assert false;
      }
      PathsVisible(child.value, p[1..]);
      assert forall i :: 1 <= i < |p| ==> p[i] == p[1..][i - 1];
    }
  }

  /** The paths of the file system that a list of relative paths leads to. */
  function Targets(base: Path, paths: seq<Path>): seq<Path> {
    seq(|paths|, i requires 0 <= i < |paths| => Resolve(base, paths[i]))
  }

  /** Files among the targets are gone, directories among them may be, everything else is as before. */
  ghost predicate Swept(before: Fs, after: Fs, targets: seq<Path>) {
    && (forall q: Path :: q !in targets ==> Look(after, q) == Look(before, q))
    && (forall q: Path :: q in targets && IsFile(Look(before, q)) ==> Look(after, q) == None)
    && (forall q: Path :: Look(after, q).Some? ==> Look(after, q) == Look(before, q))
  }

  /** No target lies below another. */
  ghost predicate Apart(targets: seq<Path>) {
    forall q, r :: q in targets && r in targets && q <= r ==> q == r
  }

  /** A directory among the targets is gone exactly if nothing was in it. */
  ghost predicate SweptDirectories(before: Fs, after: Fs, targets: seq<Path>) {
    forall q :: q in targets && q != [] && Look(before, q) == Some(FsDir) ==>
      (Look(after, q) == None <==> !Occupied(before, q))
  }

  /** Whether something stands below a path depends only on what stands below it. */
  lemma SameOccupants(a: Fs, b: Fs, p: Path)
    requires forall q: Path :: p < q ==> Look(a, q).Some? == Look(b, q).Some?
    ensures Occupied(a, p) <==> Occupied(b, p)
  {
    forall q: Path | |p| < |q| && q[..|p|] == p ensures q in a <==> q in b {
      assert p < q && q != [];
      assert Look(a, q).Some? == Look(b, q).Some?;
    }
  }

  lemma SweptDirectoriesNext(before: Fs, fs: Fs, targets: seq<Path>, i: nat)
    requires i < |targets| && Apart(targets) && Swept(before, fs, targets[..i])
    requires SweptDirectories(before, fs, targets[..i])
    ensures SweptDirectories(before, Files.Remove(fs, targets[i]), targets[..i + 1])
  {
    var target, after := targets[i], Files.Remove(fs, targets[i]);
    assert targets[..i + 1] == targets[..i] + [target];
    forall q: Path | target < q ensures Look(fs, q).Some? == Look(before, q).Some? {
      assert target in targets && (q in targets[..i] ==> q in targets);
    }
    SameOccupants(fs, before, target);
    hide Occupied;
  }

  lemma SweptNothing(fs: Fs, targets: seq<Path>)
    ensures Swept(fs, fs, targets[..0]) && SweptDirectories(fs, fs, targets[..0])
  {
  }

  lemma SweptNext(before: Fs, fs: Fs, targets: seq<Path>, i: nat)
    requires i < |targets| && Swept(before, fs, targets[..i])
    ensures Swept(before, Files.Remove(fs, targets[i]), targets[..i + 1])
  {
    assert targets[..i + 1] == targets[..i] + [targets[i]];
  }

  /** Tries to remove every path; what cannot be removed is logged and left. */
  method DeletePaths(replica: Replica, paths: seq<Path>)
    requires replica.store.disk == FilesBelow(replica.fs, replica.Root())
    modifies replica`fs, replica.store
    ensures replica.store.disk == FilesBelow(replica.fs, replica.Root())
    ensures Swept(old(replica.fs), replica.fs, Targets(replica.base, paths))
    ensures Apart(Targets(replica.base, paths)) ==>
              SweptDirectories(old(replica.fs), replica.fs, Targets(replica.base, paths))
  {
    hide FilesBelow, Swept, Files.Remove, SweptDirectories, Apart;
    ghost var targets := Targets(replica.base, paths);
    SweptNothing(replica.fs, targets);
    for i := 0 to |paths|
      invariant replica.store.disk == FilesBelow(replica.fs, replica.Root())
      invariant Swept(old(replica.fs), replica.fs, targets[..i])
      invariant Apart(targets) ==> SweptDirectories(old(replica.fs), replica.fs, targets[..i])
    {
      SweptNext(old(replica.fs), replica.fs, targets, i);
      if Apart(targets) {
        SweptDirectoriesNext(old(replica.fs), replica.fs, targets, i);
      }
      replica.Update(Files.Remove(replica.fs, Resolve(replica.base, paths[i])));
    }
    assert targets[..|paths|] == targets;
  }

  /** What a local tree names lies in the directory, and not in the store. */
  lemma TargetsVisible(base: Path, paths: seq<Path>, k: nat)
    requires k < |paths| && VisiblePath(paths[k]) && paths[k] != []
    ensures Targets(base, paths)[k] == base + paths[k]
    ensures !(base + [STORAGE[0]] <= base + paths[k]) && !(base + STORAGE <= base + paths[k])
  {
    ResolveProper(base, paths[k]);
    assert (base + paths[k])[|base|] == paths[k][0];
    assert (base + [STORAGE[0]])[|base|] == (base + STORAGE)[|base|] == STORAGE[0];
  }

  /** Sweeping visible paths leaves the store and the synchronised directory in place. */
  lemma SweepKeeps(before: Fs, after: Fs, base: Path, paths: seq<Path>)
    requires Swept(before, after, Targets(base, paths)) && AllDirectories(before, base)
    requires forall p :: p in paths ==> VisiblePath(p) && p != []
    ensures StoreView(after, base + STORAGE) == StoreView(before, base + STORAGE)
    ensures AllDirectories(after, base)
  {
    hide StoreView, Slot;
    var targets := Targets(base, paths);
    forall q: Path | base + [STORAGE[0]] <= q || |q| <= |base| ensures Look(after, q) == Look(before, q) {
      if k: nat :| k < |targets| && targets[k] == q {
        assert paths[k] in paths;
        TargetsVisible(base, paths, k);
      }
      assert q !in targets;
    }
    forall h: Digest ensures Look(after, base + STORAGE + Slot(h)) == Look(before, base + STORAGE + Slot(h)) {
      assert base + [STORAGE[0]] <= base + STORAGE + Slot(h);
    }
    SameStore(before, after, base + STORAGE);
    forall k | 0 <= k <= |base| ensures IsDirectory(after, base[..k]) {
      assert IsDirectory(before, base[..k]);
    }
  }

  // ------------------------------------------------------------------------------------------
  // The run
  // ------------------------------------------------------------------------------------------

  datatype Status = Synced(files: nat) | DownloadFailed | RebuildFailed

  /** A manifest that stays in its place: every name is proper and nothing is at `.storage/chunks`. */
  ghost predicate StaysPut(manifest: Node) {
    ProperTree(manifest) && KeepsOff(manifest)
  }

  /** The directory holds the manifest's tree: every directory, and every file that has chunks, restored from
      the store. */
  ghost predicate HoldsTree(fs: Fs, base: Path, view: Chunks, manifest: Node) {
    forall p: Path :: p != [] && Written(view, Some(manifest), p).Some? ==>
      Look(fs, base + p) == Written(view, Some(manifest), p)
  }

  /** A path that is not in the store, not deleted and not in the manifest's tree. */
  ghost predicate Untouched(base: Path, view: Chunks, manifest: Node, deleted: seq<Path>, q: Path) {
    && !(base + STORAGE <= q)
    && (base <= q && q != base ==>
          q[|base|..] !in deleted && Written(view, Some(manifest), q[|base|..]) == None)
  }

  /** What a successful run leaves behind: the manifest's tree, no deleted file, and everything else as it was. */
  ghost predicate Settled(before: Fs, after: Fs, base: Path, view: Chunks, manifest: Node, deleted: seq<Path>) {
    && HoldsTree(after, base, view, manifest)
    && (forall q: Path :: Untouched(base, view, manifest, deleted, q) ==> Look(after, q) == Look(before, q))
    && (forall p :: p in deleted && IsFile(Look(before, base + p)) ==> Look(after, base + p) == None)
  }

  /** Every file of the manifest that lies at the place of a chunk spells that very chunk. */
  ghost predicate HarmlessTree(view: Chunks, base: Path, manifest: Node) {
    manifest.Dir? ==> Harmless(view, base + STORAGE, base, manifest)
  }

  /** What rebuilding the whole manifest does. */
  ghost function RebuildTree(fs: Fs, base: Path, manifest: Node): Effect {
    RebuildNodes(fs, base + STORAGE, base, Kids(manifest))
  }

  /** The end of a run: the manifest is rebuilt, and if that succeeded the paths are swept. */
  ghost predicate Finished(before: Fs, after: Fs, base: Path, manifest: Node, deleted: seq<Path>, status: Status) {
    var o := RebuildTree(before, base, manifest);
    match o.written
    case Err => status == RebuildFailed && after == o.fs
    case Ok(n) =>
      && status == Synced(n) && Swept(o.fs, after, Targets(base, deleted))
      && (Apart(Targets(base, deleted)) ==> SweptDirectories(o.fs, after, Targets(base, deleted)))
  }

  method Finish(replica: Replica, manifest: Node, deleted: seq<Path>) returns (status: Status)
    requires replica.store.disk == FilesBelow(replica.fs, replica.Root())
    modifies replica`fs, replica.store
    ensures replica.store.disk == FilesBelow(replica.fs, replica.Root())
    ensures Finished(old(replica.fs), replica.fs, replica.base, manifest, deleted, status)
  {
    hide FilesBelow, Swept, RebuildNode, SweptDirectories, Apart;
    var written := Result<nat>.Ok(0);
    if manifest.Dir? {
      written := replica.ReconstructChildren(replica.base, manifest);
    }
    if written.Err? {
      return RebuildFailed;
    }
    DeletePaths(replica, deleted);
    return Synced(written.value);
  }

  // What the parts of a run do to the directory and to the store. In the following, `before` is the directory
  // before the run, `published` after the downloads and `after` at the end.

  /** The downloads change nothing outside the store. */
  ghost predicate Published(before: Fs, published: Fs, base: Path) {
    && AllDirectories(published, base)
    && forall q: Path :: !(base + STORAGE <= q) ==> Look(published, q) == Look(before, q)
  }

  lemma MountPublished(before: Fs, base: Path, disk: Disk)
    requires AllDirectories(before, base)
    ensures Published(before, Mount(before, base + STORAGE, disk), base)
    ensures AllDirectories(Mount(before, base + STORAGE, disk), base)
  {
    hide Mount;
    var root := base + STORAGE;
    var published := Mount(before, root, disk);
    forall q: Path | !(root <= q) ensures Look(published, q) == Look(before, q) {
      MountFrame(before, root, disk, q);
    }
    forall k | 0 <= k <= |base| ensures IsDirectory(published, base[..k]) {
      assert IsDirectory(before, base[..k]);
    }
  }

  ghost predicate AllVisible(paths: seq<Path>) {
    forall p :: p in paths ==> VisiblePath(p) && p != []
  }

  lemma DeletedVisible(local: Node, manifest: Node, view: Chunks, requested: seq<Digest>, deleted: seq<Path>)
    requires Visible(local) && Warranted(local, manifest, view, requested, deleted)
    ensures AllVisible(deleted)
  {
    assert At(Some(manifest), []) == Some(manifest);
    forall p | p in deleted ensures VisiblePath(p) {
      PathsVisible(local, p);
    }
  }

  /** A manifest that stays in its place keeps the store and the directory, whether or not the run succeeds. */
  lemma EndKeeps(published: Fs, after: Fs, base: Path, manifest: Node, deleted: seq<Path>, status: Status)
    requires Finished(published, after, base, manifest, deleted, status) && AllVisible(deleted)
    requires StaysPut(manifest) && AllDirectories(published, base)
    ensures StoreView(after, base + STORAGE) == StoreView(published, base + STORAGE) && AllDirectories(after, base)
  {
    hide StoreView, Swept, AllDirectories;
    var o := RebuildTree(published, base, manifest);
    assert StoreView(o.fs, base + STORAGE) == StoreView(published, base + STORAGE) && AllDirectories(o.fs, base) by {
      if manifest.Dir? {
        assert manifest.children[..|manifest.children|] == manifest.children;
        KeepsOffStore(base, manifest);
        NodesKeepStore(published, base + STORAGE, base, manifest, |manifest.children|);
        NodesFrame(published, base + STORAGE, base, manifest, |manifest.children|);
      }
    }
    if o.written.Ok? {
      SweepKeeps(o.fs, after, base, deleted);
    }
  }

  /** A run that succeeds has every chunk of the manifest and wrote every file that has chunks. */
  lemma EndCounts(published: Fs, after: Fs, base: Path, manifest: Node, deleted: seq<Path>, status: Status)
    requires Finished(published, after, base, manifest, deleted, status) && status.Synced?
    requires StaysPut(manifest) && manifest.Dir?
    ensures AllPresent(manifest, StoreView(published, base + STORAGE)) && status.files == FileCount(manifest)
  {
    hide StoreView, Swept, AllPresent;
    assert manifest.children[..|manifest.children|] == manifest.children;
    KeepsOffStore(base, manifest);
    NodesCount(published, base + STORAGE, base, manifest, |manifest.children|);
    ChildrenPresent(manifest, StoreView(published, base + STORAGE));
  }

  /** With all chunks there and nothing in the way, the end of a run succeeds. */
  lemma EndSucceeds(before: Fs, published: Fs, after: Fs, base: Path, manifest: Node, deleted: seq<Path>,
                    status: Status)
    requires Finished(published, after, base, manifest, deleted, status) && Published(before, published, base)
    requires StaysPut(manifest) && manifest.Dir? && Tidy(manifest) && Fits(before, base, manifest)
    requires AllPresent(manifest, StoreView(published, base + STORAGE))
    ensures status.Synced?
  {
    hide StoreView, Swept, AllPresent;
    assert manifest.children[..|manifest.children|] == manifest.children;
    KeepsOffStore(base, manifest);
    StillFits(before, published, base, manifest);
    NodesSucceed(published, base + STORAGE, base, manifest, |manifest.children|);
  }

  /** Nothing of a manifest that keeps off the store is in the storage directory. */
  lemma OffRoot(manifest: Node, base: Path, p: Path)
    requires KeepsOff(manifest) && At(Some(manifest), p).Some?
    ensures !(base + STORAGE <= base + p)
  {
    if base + STORAGE <= base + p {
      RootPrefix(base, p);
      AtStorage(manifest, p);
      AtNone(p[2..]);
      StorageListed(manifest);
    }
  }

  lemma RootPrefix(base: Path, p: Path)
    requires base + STORAGE <= base + p
    ensures STORAGE <= p
  {
    assert (base + p)[|base|..] == p && (base + STORAGE)[|base|..] == STORAGE;
  }

  lemma AtStorage(manifest: Node, p: Path)
    requires STORAGE <= p
    ensures At(Some(manifest), p) == At(Child(Child(Some(manifest), STORAGE[0]), STORAGE[1]), p[2..])
  {
    assert p[0] == STORAGE[0] && p[1..][0] == STORAGE[1] && p[1..][1..] == p[2..];
  }

  lemma StorageListed(manifest: Node)
    ensures Child(Child(Some(manifest), STORAGE[0]), STORAGE[1]).Some? ==> !KeepsOff(manifest)
  {
    var dir := Child(Some(manifest), STORAGE[0]);
    var store := Child(dir, STORAGE[1]);
    if store.Some? {
      var i :| 0 <= i < |Kids(manifest)| && Kids(manifest)[i] == dir.value;
      var j :| 0 <= j < |Kids(dir.value)| && Kids(dir.value)[j] == store.value;
      assert Kids(Kids(manifest)[i])[j].name == STORAGE[1];
    }
  }

  lemma StillFits(before: Fs, published: Fs, base: Path, manifest: Node)
    requires Published(before, published, base) && KeepsOff(manifest) && Fits(before, base, manifest)
    ensures Fits(published, base, manifest)
  {
    forall p: Path | At(Some(manifest), p).Some? ensures Look(published, base + p) == Look(before, base + p) {
      OffRoot(manifest, base, p);
    }
  }

  /** The rebuilt directory, path by path. */
  lemma Rebuilt(published: Fs, base: Path, manifest: Node, q: Path)
    requires StaysPut(manifest) && manifest.Dir? && Tidy(manifest) && AllDirectories(published, base)
    requires RebuildTree(published, base, manifest).written.Ok?
    ensures Look(RebuildTree(published, base, manifest).fs, q) ==
            var view := StoreView(published, base + STORAGE);
            if base <= q && q != base && Written(view, Some(manifest), q[|base|..]).Some?
            then Written(view, Some(manifest), q[|base|..]) else Look(published, q)
  {
    hide StoreView, RebuildNodes;
    var view := StoreView(published, base + STORAGE);
    var names, writes := Names(manifest.children), Writes(view, Some(manifest));
    assert manifest.children[..|manifest.children|] == manifest.children;
    KeepsOffStore(base, manifest);
    NodesLay(published, base + STORAGE, base, manifest, |manifest.children|);
    NoWritesBelow(view, manifest, names);
    assert Look(RebuildTree(published, base, manifest).fs, q) == Overlay(published, base, writes, Under(names), q);
    if base <= q {
      assert writes(q[|base|..]) == Written(view, Some(manifest), q[|base|..]);
      assert q[|base|..] == [] <==> q == base;
    }
  }

  /** A run that succeeds leaves the manifest's tree in place and touches nothing else. */
  lemma EndSettles(before: Fs, published: Fs, after: Fs, base: Path, manifest: Node, deleted: seq<Path>,
                   status: Status)
    requires Finished(published, after, base, manifest, deleted, status) && Published(before, published, base)
    requires status.Synced? && StaysPut(manifest) && manifest.Dir? && Tidy(manifest)
    requires AllVisible(deleted) && forall p :: p in deleted ==> At(Some(manifest), p) == None
    ensures Settled(before, after, base, StoreView(published, base + STORAGE), manifest, deleted)
  {
    hide StoreView, RebuildTree, StaysPut, Tidy, AllDirectories, Written;
    var view := StoreView(published, base + STORAGE);
    var rebuilt := RebuildTree(published, base, manifest).fs;
    forall p: Path | p != [] && Written(view, Some(manifest), p).Some?
      ensures Look(after, base + p) == Written(view, Some(manifest), p)
    {
      Rebuilt(published, base, manifest, base + p);
      assert (base + p)[|base|..] == p && base + p != base;
      if base + p in Targets(base, deleted) {
        SweptOutside(base, manifest, view, deleted, p);
      }
    }
    forall q: Path | Untouched(base, view, manifest, deleted, q) ensures Look(after, q) == Look(before, q) {
      Rebuilt(published, base, manifest, q);
      if q in Targets(base, deleted) {
        TargetDeleted(base, deleted, q);
      }
    }
    forall p | p in deleted && IsFile(Look(before, base + p)) ensures Look(after, base + p) == None {
      var k :| 0 <= k < |deleted| && deleted[k] == p;
      TargetsVisible(base, deleted, k);
      assert Targets(base, deleted)[k] in Targets(base, deleted);
      Rebuilt(published, base, manifest, base + p);
      assert (base + p)[|base|..] == p;
      NothingWrittenAt(view, manifest, p);
    }
  }

  lemma TargetDeleted(base: Path, deleted: seq<Path>, q: Path)
    requires AllVisible(deleted) && q in Targets(base, deleted)
    ensures base <= q && q != base && q[|base|..] in deleted
  {
    var k :| 0 <= k < |deleted| && Targets(base, deleted)[k] == q;
    assert deleted[k] in deleted;
    TargetsVisible(base, deleted, k);
    assert (base + deleted[k])[|base|..] == deleted[k];
  }

  lemma NothingWrittenAt(view: Chunks, manifest: Node, p: Path)
    requires At(Some(manifest), p) == None
    ensures Written(view, Some(manifest), p) == None
  {
  }

  /** What is swept is not written. */
  lemma SweptOutside(base: Path, manifest: Node, view: Chunks, deleted: seq<Path>, p: Path)
    requires AllVisible(deleted) && forall q :: q in deleted ==> At(Some(manifest), q) == None
    requires base + p in Targets(base, deleted)
    ensures Written(view, Some(manifest), p) == None
  {
    var k :| 0 <= k < |deleted| && Targets(base, deleted)[k] == base + p;
    assert deleted[k] in deleted;
    TargetsVisible(base, deleted, k);
    assert p == (base + p)[|base|..] && deleted[k] == (base + deleted[k])[|base|..];
    NothingWrittenAt(view, manifest, p);
  }

  /** A run that succeeds keeps the store exactly if every file at the place of a chunk spells that chunk. */
  lemma EndHarmless(published: Fs, after: Fs, base: Path, manifest: Node, deleted: seq<Path>, status: Status)
    requires Finished(published, after, base, manifest, deleted, status) && status.Synced?
    requires ProperTree(manifest) && Tidy(manifest) && AllDirectories(published, base) && AllVisible(deleted)
    ensures StoreView(after, base + STORAGE) == StoreView(published, base + STORAGE)
            <==> HarmlessTree(StoreView(published, base + STORAGE), base, manifest)
  {
    hide StoreView, Swept, AllDirectories;
    var o := RebuildTree(published, base, manifest);
    if manifest.Dir? {
      assert manifest.children[..|manifest.children|] == manifest.children;
      NodesHarmless(published, base + STORAGE, base, manifest, |manifest.children|);
      NodesFrame(published, base + STORAGE, base, manifest, |manifest.children|);
    }
    SweepKeeps(o.fs, after, base, deleted);
  }

  lemma EndStatus(published: Fs, after: Fs, base: Path, manifest: Node, deleted: seq<Path>, status: Status)
    requires Finished(published, after, base, manifest, deleted, status)
    ensures status != DownloadFailed
  {
  }

  /** Where nothing of the manifest is above or below, the run leaves what it found until it sweeps. */
  lemma RebuiltOutside(before: Fs, published: Fs, base: Path, manifest: Node, p: Path, q: Path)
    requires Published(before, published, base) && StaysPut(manifest) && manifest.Dir? && Tidy(manifest)
    requires RebuildTree(published, base, manifest).written.Ok?
    requires At(Some(manifest), p) == None && VisiblePath(p) && p != [] && base + p <= q
    ensures Look(RebuildTree(published, base, manifest).fs, q) == Look(before, q)
  {
    hide RebuildTree, StaysPut, Tidy, Written;
    var view := StoreView(published, base + STORAGE);
    Rebuilt(published, base, manifest, q);
    var rel := q[|base|..];
    assert base <= base + p && rel[..|p|] == p && p <= rel && q == base + rel;
    if At(Some(manifest), rel).Some? {
      AncestorsExist(Some(manifest), rel, |p|);
    }
    NothingWrittenAt(view, manifest, rel);
    OutsideStorage(base, p, q);
  }

  lemma OutsideStorage(base: Path, p: Path, q: Path)
    requires VisiblePath(p) && p != [] && base + p <= q
    ensures !(base + STORAGE <= q)
  {
    assert q[|base|] == (base + p)[|base|] == p[0];
    assert (base + STORAGE)[|base|] == STORAGE[0];
  }

  /** What a run that succeeds does to everything that only the local tree has: a file goes, and a directory goes
      exactly if nothing was in it. */
  ghost predicate OnlyLocalGone(before: Fs, after: Fs, base: Path, local: Node, manifest: Node) {
    forall p :: OnlyLocal(local, manifest, p) ==>
      && (IsFile(Look(before, base + p)) ==> Look(after, base + p) == None)
      && (Look(before, base + p) == Some(FsDir) ==> (Look(after, base + p) == None <==> !Occupied(before, base + p)))
  }

  lemma TargetsApart(local: Node, manifest: Node, base: Path, deleted: seq<Path>)
    requires AllVisible(deleted) && forall p :: p in deleted <==> OnlyLocal(local, manifest, p)
    ensures Apart(Targets(base, deleted))
  {
    var targets := Targets(base, deleted);
    forall q, r | q in targets && r in targets && q <= r ensures q == r {
      var i :| 0 <= i < |deleted| && targets[i] == q;
      var j :| 0 <= j < |deleted| && targets[j] == r;
      assert deleted[i] in deleted && deleted[j] in deleted;
      TargetsVisible(base, deleted, i);
      TargetsVisible(base, deleted, j);
      TopsApart(local, manifest, base, deleted[i], deleted[j]);
    }
  }

  lemma TopsApart(local: Node, manifest: Node, base: Path, p: Path, q: Path)
    requires OnlyLocal(local, manifest, p) && OnlyLocal(local, manifest, q) && base + p <= base + q
    ensures p == q
  {
    assert p == (base + p)[|base|..] && q == (base + q)[|base|..];
    assert p <= q;
    var parent := q[..|q| - 1];
    assert |p| < |q| ==> parent[..|p|] == p;
    if |p| < |q| {
      AncestorsExist(Some(manifest), parent, |p|);
    }
  }

  lemma EndDeletes(before: Fs, published: Fs, after: Fs, base: Path, local: Node, manifest: Node,
                   deleted: seq<Path>, status: Status)
    requires Finished(published, after, base, manifest, deleted, status) && Published(before, published, base)
    requires status.Synced? && StaysPut(manifest) && manifest.Dir? && Tidy(manifest) && AllVisible(deleted)
    requires forall p :: p in deleted <==> OnlyLocal(local, manifest, p)
    ensures OnlyLocalGone(before, after, base, local, manifest)
  {
    hide RebuildTree, StaysPut, Tidy, AllDirectories, Occupied;
    TargetsApart(local, manifest, base, deleted);
    var rebuilt := RebuildTree(published, base, manifest).fs;
    forall p | OnlyLocal(local, manifest, p)
      ensures IsFile(Look(before, base + p)) ==> Look(after, base + p) == None
      ensures Look(before, base + p) == Some(FsDir) ==> (Look(after, base + p) == None <==> !Occupied(before, base + p))
    {
      assert p in deleted;
      var k :| 0 <= k < |deleted| && deleted[k] == p;
      TargetsVisible(base, deleted, k);
      assert Targets(base, deleted)[k] in Targets(base, deleted) && base + p != [];
      forall q: Path | base + p <= q ensures Look(rebuilt, q) == Look(before, q) {
        RebuiltOutside(before, published, base, manifest, p, q);
      }
      SameOccupants(rebuilt, before, base + p);
    }
  }

  /** The end of a run succeeds exactly if every chunk is there and nothing is in the way. */
  lemma EndExact(before: Fs, published: Fs, after: Fs, base: Path, manifest: Node, deleted: seq<Path>,
                 status: Status)
    requires Finished(published, after, base, manifest, deleted, status) && Published(before, published, base)
    requires StaysPut(manifest) && manifest.Dir? && Tidy(manifest)
    ensures status.Synced? <==>
              AllPresent(manifest, StoreView(published, base + STORAGE)) && Fits(before, base, manifest)
  {
    hide StoreView, Swept, AllPresent, Fits, SweptDirectories, Apart;
    if AllPresent(manifest, StoreView(published, base + STORAGE)) && Fits(before, base, manifest) {
      EndSucceeds(before, published, after, base, manifest, deleted, status);
    }
    if status.Synced? {
      EndCounts(published, after, base, manifest, deleted, status);
      assert manifest.children[..|manifest.children|] == manifest.children;
      KeepsOffStore(base, manifest);
      NodesNeedRoom(published, base + STORAGE, base, manifest, |manifest.children|);
      RootFits(published, base, manifest);
      FittedBefore(before, published, base, manifest);
    }
  }

  lemma RootFits(fs: Fs, base: Path, manifest: Node)
    requires manifest.Dir? && AllDirectories(fs, base)
    requires forall k :: 0 <= k < |manifest.children| ==>
               Fits(fs, base + [manifest.children[k].name], manifest.children[k])
    ensures Fits(fs, base, manifest)
  {
    assert base[..|base|] == base && IsDirectory(fs, base[..|base|]);
    if base == [] {
      RootAlwaysFits(fs, manifest);
    } else {
      DirFits(fs, fs, base, manifest);
    }
  }

  lemma RootAlwaysFits(fs: Fs, manifest: Node)
    requires manifest.Dir?
    requires forall k :: 0 <= k < |manifest.children| ==>
               Fits(fs, [] + [manifest.children[k].name], manifest.children[k])
    ensures Fits(fs, [], manifest)
  {
    forall p: Path | At(Some(manifest), p).Some? && Look(fs, [] + p).Some? && p != []
      ensures At(Some(manifest), p).value.Dir? ==> Look(fs, [] + p).value.FsDir?
      ensures At(Some(manifest), p).value.File? && At(Some(manifest), p).value.chunks != [] ==>
                Look(fs, [] + p).value.FsFile?
    {
      var child := Child(Some(manifest), p[0]);
      if child.None? {
        AtNone(p[1..]);
      } else {
        var k :| 0 <= k < |manifest.children| && manifest.children[k] == child.value;
        assert [] + p == [] + [manifest.children[k].name] + p[1..];
      }
    }
  }

  lemma FittedBefore(before: Fs, published: Fs, base: Path, manifest: Node)
    requires Published(before, published, base) && KeepsOff(manifest) && Fits(published, base, manifest)
    ensures Fits(before, base, manifest)
  {
    forall p: Path | At(Some(manifest), p).Some? ensures Look(published, base + p) == Look(before, base + p) {
      OffRoot(manifest, base, p);
    }
  }

  /** A run, and the chunks that were in the store when its downloads were done.
      Whatever the peer sends, and whatever the disk does: downloading keeps the store sound, loses nothing and stores
      nothing but answers; it fails exactly if a batch is not answered; only missing chunks of the manifest are
      requested, and none when all are present; only local paths outside the manifest are deleted. With truthful hashes
      exactly the tops of what only the local tree has are deleted, and with honest ones every chunk that is needed is
      requested.
      If the manifest stays in its place, the store stays as it was after the downloads. With distinct names, the run
      then succeeds exactly if every chunk of the manifest is in the store and nothing is in the way, and leaves its
      tree in place, what only the local tree has gone, and everything else as it was.
      If it does not stay in its place, a run that succeeds keeps the store exactly if the files at the places of chunks
      spell those chunks. */
  method Sync(sha: Bytes -> Digest, replica: Replica, local: Node, manifest: Node, peer: Peer,
              faults: nat -> Disturbance)
    returns (status: Status, requested: seq<Digest>, deleted: seq<Path>, ghost downloaded: Chunks)
    requires replica.Valid() && Visible(local)
    modifies replica`fs, replica.store
    ensures Extends(old(View(replica.store.disk)), downloaded)
    ensures OnlyFrom(sha, old(View(replica.store.disk)), downloaded, AllAnswers(requested, peer, |requested|))
    ensures old(Sound(sha, View(replica.store.disk))) ==> Sound(sha, downloaded)
    ensures Warranted(local, manifest, old(View(replica.store.disk)), requested, deleted)
    ensures TopTruthful(local, manifest) ==> forall p :: p in deleted <==> OnlyLocal(local, manifest, p)
    ensures Reconcilable(local, manifest) ==>
              forall h :: HasChunk(manifest, h) && !HasChunk(local, h) && h !in old(View(replica.store.disk)) ==>
                h in requested
    ensures status == DownloadFailed <==> !Answered(requested, peer, |requested|)
    ensures requested == [] ==> status != DownloadFailed
    ensures StaysPut(manifest) ==> replica.Valid() && View(replica.store.disk) == downloaded
    ensures StaysPut(manifest) && manifest.Dir? && status.Synced? ==> AllPresent(manifest, downloaded)
    ensures StaysPut(manifest) && manifest.Dir? && Tidy(manifest) && status.Synced? ==>
              && Settled(old(replica.fs), replica.fs, replica.base, downloaded, manifest, deleted)
              && status.files == FileCount(manifest)
    ensures StaysPut(manifest) && manifest.Dir? && Tidy(manifest) && TopTruthful(local, manifest) && status.Synced? ==>
              OnlyLocalGone(old(replica.fs), replica.fs, replica.base, local, manifest)
    ensures StaysPut(manifest) && manifest.Dir? && Tidy(manifest) && status != DownloadFailed ==>
              (status.Synced? <==>
                 AllPresent(manifest, downloaded) && Fits(old(replica.fs), replica.base, manifest))
    ensures (&& StaysPut(manifest) && Reconcilable(local, manifest)
             && AllPresent(local, old(View(replica.store.disk))) && Delivers(sha, peer, manifest) && Healthy(faults)
             && Fits(old(replica.fs), replica.base, manifest))
            ==> status.Synced?
    ensures ProperTree(manifest) && Tidy(manifest) && status.Synced? ==>
              (View(replica.store.disk) == downloaded <==> HarmlessTree(downloaded, replica.base, manifest))
  {
    hide View, Extends, Sound, Reconcilable, AllPresent, AllIn, AllFrom, Fits, Planned, Healthy, Delivers, Warranted,
         Lists, Tops, FilesBelow, StaysPut, Settled, HarmlessTree, Finished, AllDirectories, Mount, Tidy, ProperTree,
         Published, TopTruthful, OnlyLocal, OnlyFrom, AllAnswers, Answered, OnlyLocalGone, HasChunk;
    ghost var view := View(replica.store.disk);
    ghost var log;
    requested, deleted, log := Plan(replica.store, local, manifest);
    PlanFacts(log, local, manifest, view, requested, deleted);
    var ok := Download(sha, replica.store, requested, peer, faults);
    replica.Publish();
    downloaded := View(replica.store.disk);
    MountPublished(old(replica.fs), replica.base, replica.store.disk);
    if !ok {
      return DownloadFailed, requested, deleted, downloaded;
    }
    if Reconcilable(local, manifest) && AllPresent(local, view) && Delivers(sha, peer, manifest) && Healthy(faults) {
      PlanComplete(log, local, manifest, view, downloaded, requested, deleted);
    }
    ghost var published := replica.fs;
    DeletedVisible(local, manifest, view, requested, deleted);
    status := Finish(replica, manifest, deleted);
    RunEffect(old(replica.fs), published, replica.fs, replica.base, local, manifest, view, requested, deleted, status);
  }

  /** All that the plan of a run promises. */
  lemma PlanFacts(log: seq<Item<Outcome>>, local: Node, manifest: Node, view: Chunks,
                  requested: seq<Digest>, deleted: seq<Path>)
    requires Planned(log, local, manifest, view, requested, deleted)
    requires TopTruthful(local, manifest) ==> Lists(log, [], Tops(Some(local), Some(manifest)), EVERYWHERE)
    ensures Warranted(local, manifest, view, requested, deleted) && AllFrom(requested, manifest)
    ensures TopTruthful(local, manifest) ==> forall p :: p in deleted <==> OnlyLocal(local, manifest, p)
    ensures Reconcilable(local, manifest) ==>
              && TopTruthful(local, manifest) && manifest.Dir? && Tidy(manifest)
              && forall h :: HasChunk(manifest, h) && !HasChunk(local, h) && h !in view ==> h in requested
    ensures requested == [] ==> forall peer :: Answered(requested, peer, |requested|)
  {
    hide Reconcilable, TopTruthful, Lists, Tops, OnlyLocal, HasChunk, Tidy;
    PlanSound(log, local, manifest, view, requested, deleted);
    if TopTruthful(local, manifest) {
      DeletesExactly(log, local, manifest, deleted);
    }
    if Reconcilable(local, manifest) {
      ReconcilableTruthful(local, manifest);
      RequestsAll(log, local, manifest, view, requested, deleted);
    }
  }

  /** The end of a run, all in all. */
  lemma RunEffect(before: Fs, published: Fs, after: Fs, base: Path, local: Node, manifest: Node, view: Chunks,
                  requested: seq<Digest>, deleted: seq<Path>, status: Status)
    requires Finished(published, after, base, manifest, deleted, status) && Published(before, published, base)
    requires AllVisible(deleted) && Warranted(local, manifest, view, requested, deleted)
    requires TopTruthful(local, manifest) ==> forall p :: p in deleted <==> OnlyLocal(local, manifest, p)
    ensures status != DownloadFailed
    ensures var downloaded, final := StoreView(published, base + STORAGE), StoreView(after, base + STORAGE);
            && (StaysPut(manifest) ==> AllDirectories(after, base) && final == downloaded)
            && (StaysPut(manifest) && manifest.Dir? && status.Synced? ==>
                  AllPresent(manifest, downloaded) && status.files == FileCount(manifest))
            && (StaysPut(manifest) && manifest.Dir? && Tidy(manifest) ==>
                  && (status.Synced? <==> AllPresent(manifest, downloaded) && Fits(before, base, manifest))
                  && (status.Synced? ==> Settled(before, after, base, downloaded, manifest, deleted))
                  && (status.Synced? && TopTruthful(local, manifest) ==>
                        OnlyLocalGone(before, after, base, local, manifest)))
            && (ProperTree(manifest) && Tidy(manifest) && status.Synced? ==>
                  (final == downloaded <==> HarmlessTree(downloaded, base, manifest)))
  {
    hide StoreView, Finished, StaysPut, AllDirectories, AllPresent, Settled, Tidy, Fits, ProperTree, HarmlessTree,
         TopTruthful, OnlyLocal, OnlyLocalGone;
    EndStatus(published, after, base, manifest, deleted, status);
    if StaysPut(manifest) {
      EndKeeps(published, after, base, manifest, deleted, status);
      if manifest.Dir? && status.Synced? {
        EndCounts(published, after, base, manifest, deleted, status);
      }
      if manifest.Dir? && Tidy(manifest) {
        EndExact(before, published, after, base, manifest, deleted, status);
        if status.Synced? {
          EndSettles(before, published, after, base, manifest, deleted, status);
          if TopTruthful(local, manifest) {
            EndDeletes(before, published, after, base, local, manifest, deleted, status);
          }
        }
      }
    }
    if ProperTree(manifest) && Tidy(manifest) && status.Synced? {
      EndHarmless(published, after, base, manifest, deleted, status);
    }
  }

  // ------------------------------------------------------------------------------------------
  // What a run achieves
  // ------------------------------------------------------------------------------------------

  /** The manifest lists, at `p`, the chunks of a file with these contents. */
  ghost predicate ListsFile(sha: Bytes -> Digest, manifest: Node, p: Path, file: Bytes) {
    var n := At(Some(manifest), p);
    p != [] && n.Some? && n.value.File? && n.value.chunks == HashesOf(sha, ChunksOf(file))
  }

  /** Convergence and integrity of one file. After a successful run over a store that is sound, a file of the manifest
      has its exact contents, whoever the peer was, unless a stored chunk collides with one of the file's: if and only
      if it is not empty or was there, empty, before. */
  lemma FileArrives(sha: Bytes -> Digest, before: Fs, after: Fs, base: Path, view: Chunks, manifest: Node,
                    deleted: seq<Path>, p: Path, file: Bytes)
    requires Settled(before, after, base, view, manifest, deleted) && AllPresent(manifest, view) && Sound(sha, view)
    requires KeepsOff(manifest) && forall q :: q in deleted ==> At(Some(manifest), q) == None
    requires ListsFile(sha, manifest, p, file) && Distinguished(sha, view, ChunksOf(file))
    ensures Look(after, base + p) == Some(FsFile(file))
            <==> file != [] || Look(before, base + p) == Some(FsFile([]))
  {
    var hashes := HashesOf(sha, ChunksOf(file));
    ChunkSizes(file);
    if file == [] {
      OffRoot(manifest, base, p);
      assert (base + p)[|base|..] == p && base + p != base;
      assert Untouched(base, view, manifest, deleted, base + p);
    } else {
      forall i | 0 <= i < |hashes| ensures hashes[i] in view {
        HasChunkBelow(Some(manifest), p, hashes[i]);
      }
      RestoreFile(sha, view, file);
    }
  }

  /** Two runs against the same manifest: the second requests nothing, whatever hashes the manifest carries and
      whatever happened to the local tree. */
  method SyncTwice(sha: Bytes -> Digest, replica: Replica, manifest: Node,
                   local1: Node, peer1: Peer, faults1: nat -> Disturbance,
                   local2: Node, peer2: Peer, faults2: nat -> Disturbance)
    returns (first: Status, second: Status, requested: seq<Digest>)
    requires replica.Valid() && Visible(local1) && Visible(local2)
    requires manifest.Dir? && StaysPut(manifest)
    modifies replica`fs, replica.store
    ensures replica.Valid()
    ensures first.Synced? ==> requested == [] && second != DownloadFailed
    ensures second.Synced? && Tidy(manifest) ==>
              HoldsTree(replica.fs, replica.base, View(replica.store.disk), manifest)
    ensures old(Sound(sha, View(replica.store.disk))) ==> Sound(sha, View(replica.store.disk))
    ensures Extends(old(View(replica.store.disk)), View(replica.store.disk))
  {
    hide View, Extends, Sound, HasChunk, AllPresent, Fits, HoldsTree, StaysPut, Tidy, Visible, Replica.Valid;
    ghost var start := View(replica.store.disk);
    var deleted;
    ghost var view1, view2;
    first, requested, deleted, view1 := Sync(sha, replica, local1, manifest, peer1, faults1);
    second, requested, deleted, view2 := Sync(sha, replica, local2, manifest, peer2, faults2);
    ExtendsThen(start, view1, view2);
  }
}
