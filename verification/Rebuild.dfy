/** Writing the files of a manifest from the chunks in the store. */
module Rebuild {
  import opened Bytes
  import opened Cas
  import opened ChunkPaths
  import opened Files
  import opened Merkle
  import opened PutSteps
  import opened Reports
  import opened TreeDiff

  type Chunks = imap<Digest, Bytes>

  /** What rebuilding writes at a path below a node: directories, and files that have chunks. An empty file is
      skipped. */
  ghost function Written(view: Chunks, node: Option<Node>, p: Path): Option<FsEntry> {
    match At(node, p)
    case None => None
    case Some(Dir(_, _, _)) => Some(FsDir)
    case Some(File(_, _, chunks)) =>
      if chunks == [] then None else
        match Restore(view, chunks)
        case None => None
        case Some(bytes) => Some(FsFile(bytes))
  }

  ghost function Writes(view: Chunks, node: Option<Node>): Path -> Option<FsEntry> {
    p => Written(view, node, p)
  }

  lemma ChildWrites(view: Chunks, node: Node, name: Name)
    ensures forall p :: Writes(view, Some(node))([name] + p) == Writes(view, Child(Some(node), name))(p)
  {
    forall p ensures Writes(view, Some(node))([name] + p) == Writes(view, Child(Some(node), name))(p) {
      assert ([name] + p)[1..] == p;
    }
  }

  lemma NoWritesBelow(view: Chunks, node: Node, names: set<Name>)
    requires forall name: Name :: name !in names ==> Child(Some(node), name) == None
    ensures forall p :: p !in HERE + Under(names) ==> Writes(view, Some(node))(p) == None
  {
    forall p | p !in HERE + Under(names) ensures Written(view, Some(node), p) == None {
      AtNone(p[1..]);
    }
  }

  /** Nothing in the directory is in the way: no file where a directory goes, no directory where a file goes. */
  ghost predicate Fits(fs: Fs, base: Path, node: Node) {
    forall p: Path :: At(Some(node), p).Some? && Look(fs, base + p).Some? ==>
      var n := At(Some(node), p).value;
      (n.Dir? ==> Look(fs, base + p).value.FsDir?) &&
      (n.File? && n.chunks != [] ==> Look(fs, base + p).value.FsFile?)
  }

  /** The chunk is listed by a file of the tree. */
  ghost predicate HasChunk(node: Node, h: Digest) {
    match node
    case File(_, _, chunks) => h in chunks
    case Dir(_, _, children) => exists i :: 0 <= i < |children| && HasChunk(children[i], h)
  }

  ghost predicate AllPresent(node: Node, view: Chunks) {
    forall h :: HasChunk(node, h) ==> h in view
  }

  lemma {:induction false} RestorePresent(view: Chunks, hashes: seq<Digest>)
    requires forall i :: 0 <= i < |hashes| ==> hashes[i] in view
    ensures Restore(view, hashes).Some?
  {
    if hashes != [] {
      RestorePresent(view, hashes[..|hashes| - 1]);
    }
  }

  lemma {:induction false} RestoreMissing(view: Chunks, hashes: seq<Digest>, i: nat)
    requires i < |hashes| && hashes[i] !in view
    ensures Restore(view, hashes) == None
  {
    if i < |hashes| - 1 {
      RestoreMissing(view, hashes[..|hashes| - 1], i);
    }
  }

  /** How many files rebuilding a tree writes. */
  function FileCount(node: Node): nat {
    match node
    case File(_, _, chunks) => if chunks == [] then 0 else 1
    case Dir(_, _, children) => FileCounts(children)
  }

  function FileCounts(nodes: seq<Node>): nat {
    if nodes == [] then 0 else FileCounts(nodes[..|nodes| - 1]) + FileCount(nodes[|nodes| - 1])
  }

  // ------------------------------------------------------------------------------------------
  // What rebuilding does, as a function of the file system
  // ------------------------------------------------------------------------------------------

  /** Where the store lies in the synchronised directory: `.storage/chunks`. */
  const STORAGE: Path := [[46, 115, 116, 111, 114, 97, 103, 101], [99, 104, 117, 110, 107, 115]]

  /** What a file holds after its chunks were appended one by one, up to the first that is missing. The chunk that
      lies at the file's own path reads as what has been written so far. */
  datatype Spelling = Spelling(data: Bytes, whole: bool)

  ghost function Spell(view: Chunks, root: Path, path: Path, chunks: seq<Digest>): Spelling {
    if chunks == [] then Spelling([], true) else
      var last := |chunks| - 1;
      var before := Spell(view, root, path, chunks[..last]);
      if !before.whole then before
      else if root + Slot(chunks[last]) == path then Spelling(before.data + before.data, true)
      else if chunks[last] in view then Spelling(before.data + view[chunks[last]], true)
      else Spelling(before.data, false)
  }

  /** Away from the places of chunks a file is spelled as it is restored. */
  lemma {:induction false} SpellRestores(view: Chunks, root: Path, path: Path, chunks: seq<Digest>)
    requires !IsSlot(root, path)
    ensures Spell(view, root, path, chunks).whole <==> Restore(view, chunks).Some?
    ensures Restore(view, chunks).Some? ==> Restore(view, chunks).value == Spell(view, root, path, chunks).data
  {
    if chunks != [] {
      SpellRestores(view, root, path, chunks[..|chunks| - 1]);
    }
  }

  /** The file system afterwards, and how many files were written or that the run failed. */
  datatype Effect = Effect(fs: Fs, written: Result<nat>)

  function ParentOf(path: Path): Path {
    if path == [] then [] else path[..|path| - 1]
  }

  ghost function RebuildFile(fs: Fs, root: Path, path: Path, chunks: seq<Digest>): Effect {
    match MkdirAll(fs, ParentOf(path))
    case Err => Effect(fs, Err)
    case Ok(made) =>
      match Create(made, path)
      case Err => Effect(made, Err)
      case Ok(created) =>
        var spelling := Spell(StoreView(fs, root), root, path, chunks);
        Effect(created[path := FsFile(spelling.data)], if spelling.whole then Ok(1) else Err)
  }

  ghost function RebuildNode(fs: Fs, root: Path, parent: Path, node: Node): Effect
    decreases node
  {
    var path := Locate(parent, node.name);
    match node
    case File(_, _, chunks) => if chunks == [] then Effect(fs, Ok(0)) else RebuildFile(fs, root, path, chunks)
    case Dir(_, _, children) =>
      match MkdirAll(fs, path)
      case Err => Effect(fs, Err)
      case Ok(made) => RebuildNodes(made, root, path, children)
  }

  /** One after the other, up to the first that fails. */
  ghost function RebuildNodes(fs: Fs, root: Path, path: Path, nodes: seq<Node>): Effect
    decreases nodes
  {
    if nodes == [] then Effect(fs, Ok(0)) else
      var last := |nodes| - 1;
      var before := RebuildNodes(fs, root, path, nodes[..last]);
      if before.written.Err? then before else
        var o := RebuildNode(before.fs, root, path, nodes[last]);
        Effect(o.fs, if o.written.Ok? then Ok(before.written.value + o.written.value) else Err)
  }

  lemma RebuildNext(fs: Fs, root: Path, path: Path, nodes: seq<Node>, i: nat)
    requires i < |nodes|
    ensures RebuildNodes(fs, root, path, nodes[..i + 1]) ==
            var before := RebuildNodes(fs, root, path, nodes[..i]);
            if before.written.Err? then before else
              var o := RebuildNode(before.fs, root, path, nodes[i]);
              Effect(o.fs, if o.written.Ok? then Ok(before.written.value + o.written.value) else Err)
  {
    assert nodes[..i + 1][..i] == nodes[..i];
  }

  lemma {:induction false} RebuildStops(fs: Fs, root: Path, path: Path, nodes: seq<Node>, i: nat)
    requires i <= |nodes| && RebuildNodes(fs, root, path, nodes[..i]).written.Err?
    ensures RebuildNodes(fs, root, path, nodes) == RebuildNodes(fs, root, path, nodes[..i])
    decreases |nodes| - i
  {
    if i < |nodes| {
      RebuildNext(fs, root, path, nodes, i);
      RebuildStops(fs, root, path, nodes, i + 1);
    } else {
      assert nodes[..i] == nodes;
    }
  }

  // ------------------------------------------------------------------------------------------
  // The program
  // ------------------------------------------------------------------------------------------

  /** The synchronised directory at `base` and the store in it. Both work on the same files. */
  class Replica {
    const base: Path
    const store: BlobStore
    var fs: Fs

    function Root(): Path {
      base + STORAGE
    }

    /** The store's files are the files of its directory, and the synchronised directory is there. */
    ghost predicate Valid()
      reads this, store
    {
      store.disk == FilesBelow(fs, Root()) && AllDirectories(fs, base)
    }

    constructor (base: Path, fs: Fs)
      requires AllDirectories(fs, base)
      ensures Valid() && this.base == base && this.fs == fs && fresh(store)
    {
      this.base, this.fs := base, fs;
      store := new BlobStore.Open(FilesBelow(fs, base + STORAGE));
    }

    /** The directory has changed: so has the store, as far as it was touched. */
    method Update(fs': Fs)
      modifies this`fs, store
      ensures fs == fs' && store.disk == FilesBelow(fs, Root())
    {
      fs := fs';
      store.disk := FilesBelow(fs, Root());
    }

    /** The store has changed its files: so has the directory. */
    method Publish()
      modifies this`fs
      ensures fs == Mount(old(fs), Root(), store.disk) && store.disk == FilesBelow(fs, Root())
    {
      fs := Mount(fs, Root(), store.disk);
      MountHolds(old(fs), Root(), store.disk);
    }

    /** Creates a file and writes it chunk by chunk. A missing chunk stops the run, with the file cut short. */
    method WriteFile(path: Path, chunks: seq<Digest>) returns (written: Result<nat>)
      requires store.disk == FilesBelow(fs, Root()) && chunks != []
      modifies this`fs, store
      ensures store.disk == FilesBelow(fs, Root())
      ensures Effect(fs, written) == RebuildFile(old(fs), Root(), path, chunks)
    {
      hide View, FilesBelow, Spell, MkdirAll;
      var parents := MkdirAll(fs, ParentOf(path));
      if parents.Err? {
        return Err;
      }
      Update(parents.value);
      var created := Create(fs, path);
      if created.Err? {
        return Err;
      }
      Update(created.value);
      var ok := AppendChunks(path, chunks, old(fs), parents.value);
      return if ok then Ok(1) else Err;
    }

    /** Appends the chunks to the new file, each read from the store when its turn comes. */
    method AppendChunks(path: Path, chunks: seq<Digest>, ghost before: Fs, ghost made: Fs) returns (ok: bool)
      requires store.disk == FilesBelow(fs, Root()) && path != [] && fs == made[path := FsFile([])]
      requires MkdirAll(before, ParentOf(path)) == Ok(made)
      modifies this`fs, store
      ensures store.disk == FilesBelow(fs, Root())
      ensures var spelling := Spell(StoreView(before, Root()), Root(), path, chunks);
              fs == made[path := FsFile(spelling.data)] && ok == spelling.whole
    {
      hide View, FilesBelow, Spell, Slot, MkdirAll;
      ghost var view, root := StoreView(before, Root()), Root();
      SpellNothing(view, root, path, chunks);
      for i := 0 to |chunks|
        invariant store.disk == FilesBelow(fs, root)
        invariant Spell(view, root, path, chunks[..i]).whole
        invariant fs == made[path := FsFile(Spell(view, root, path, chunks[..i]).data)]
      {
        SpellNext(view, root, path, chunks, i);
        ReadWhileWriting(before, made, fs, root, path, fs[path].data, chunks[i]);
        var chunk := store.Get(chunks[i]);
        if chunk.Err? {
          SpellStops(view, root, path, chunks, i + 1);
          return false;
        }
        Update(fs[path := FsFile(fs[path].data + chunk.value)]);
      }
      assert chunks[..|chunks|] == chunks;
      return true;
    }

    /** Rebuilds a subtree below `parent`; how many files were written, or an error. */
    method Reconstruct(parent: Path, node: Node) returns (written: Result<nat>)
      requires store.disk == FilesBelow(fs, Root())
      modifies this`fs, store
      ensures store.disk == FilesBelow(fs, Root())
      ensures Effect(fs, written) == RebuildNode(old(fs), Root(), parent, node)
      decreases node, 1
    {
      hide FilesBelow, RebuildFile, RebuildNodes;
      var path := Locate(parent, node.name);
      match node
      case File(_, _, chunks) =>
        if chunks == [] {
          return Ok(0);
        }
        written := WriteFile(path, chunks);
      case Dir(_, _, children) =>
        var made := MkdirAll(fs, path);
        if made.Err? {
          return Err;
        }
        Update(made.value);
        written := ReconstructChildren(path, node);
    }

    /** Rebuilds every child of a directory, in order, stopping at the first error. */
    method ReconstructChildren(path: Path, node: Node) returns (written: Result<nat>)
      requires store.disk == FilesBelow(fs, Root()) && node.Dir?
      modifies this`fs, store
      ensures store.disk == FilesBelow(fs, Root())
      ensures Effect(fs, written) == RebuildNodes(old(fs), Root(), path, node.children)
      decreases node, 0
    {
      hide FilesBelow, RebuildNode;
      var files := 0;
      for i := 0 to |node.children|
        invariant store.disk == FilesBelow(fs, Root())
        invariant Effect(fs, Ok(files)) == RebuildNodes(old(fs), Root(), path, node.children[..i])
      {
        RebuildNext(old(fs), Root(), path, node.children, i);
        var n := Reconstruct(path, node.children[i]);
        if n.Err? {
          RebuildStops(old(fs), Root(), path, node.children, i + 1);
          return Err;
        }
        files := files + n.value;
      }
      assert node.children[..|node.children|] == node.children;
      return Ok(files);
    }
  }

  /** What the store shows while a file is being written. */
  lemma ReadWhileWriting(before: Fs, made: Fs, fs: Fs, root: Path, path: Path, data: Bytes, h: Digest)
    requires MkdirAll(before, ParentOf(path)) == Ok(made) && path != [] && fs == made[path := FsFile(data)]
    ensures h in StoreView(fs, root) <==> root + Slot(h) == path || h in StoreView(before, root)
    ensures h in StoreView(fs, root) ==>
              StoreView(fs, root)[h] == if root + Slot(h) == path then data else StoreView(before, root)[h]
  {
    hide View, FilesBelow, Slot, StoreView;
    MkdirKeepsStore(before, ParentOf(path), root);
    StoreViewAt(fs, root, h);
    StoreViewAt(made, root, h);
  }

  lemma SpellNothing(view: Chunks, root: Path, path: Path, chunks: seq<Digest>)
    ensures Spell(view, root, path, chunks[..0]) == Spelling([], true)
  {
  }

  lemma SpellNext(view: Chunks, root: Path, path: Path, chunks: seq<Digest>, i: nat)
    requires i < |chunks| && Spell(view, root, path, chunks[..i]).whole
    ensures Spell(view, root, path, chunks[..i + 1]) ==
            var before := Spell(view, root, path, chunks[..i]).data;
            if root + Slot(chunks[i]) == path then Spelling(before + before, true)
            else if chunks[i] in view then Spelling(before + view[chunks[i]], true)
            else Spelling(before, false)
  {
    assert chunks[..i + 1][..i] == chunks[..i];
  }

  lemma {:induction false} SpellStops(view: Chunks, root: Path, path: Path, chunks: seq<Digest>, i: nat)
    requires i <= |chunks| && !Spell(view, root, path, chunks[..i]).whole
    ensures Spell(view, root, path, chunks) == Spell(view, root, path, chunks[..i])
    decreases |chunks| - i
  {
    if i < |chunks| {
      assert chunks[..i + 1][..i] == chunks[..i];
      SpellStops(view, root, path, chunks, i + 1);
    } else {
      assert chunks[..i] == chunks;
    }
  }
}
