/** The file system: a map from paths to files and directories, and the calls a run makes on it. */
module Files {
  import opened Bytes
  import opened ChunkPaths
  import opened PutSteps
  import opened Reports

  datatype FsEntry = FsFile(data: Bytes) | FsDir

  /** Paths start at the root of the file system, which is the empty path and always there. */
  type Fs = map<Path, FsEntry>

  function Look(fs: Fs, p: Path): Option<FsEntry> {
    if p == [] then Some(FsDir) else if p in fs then Some(fs[p]) else None
  }

  predicate IsDirectory(fs: Fs, p: Path) {
    Look(fs, p) == Some(FsDir)
  }

  predicate IsFile(e: Option<FsEntry>) {
    e.Some? && e.value.FsFile?
  }

  /** Creates a directory and its missing parents; fails where a file is in the way. */
  function MkdirAll(fs: Fs, p: Path): Result<Fs>
    decreases |p|
  {
    if p == [] then Ok(fs)
    else match MkdirAll(fs, p[..|p| - 1])
      case Err => Err
      case Ok(parents) =>
        match Look(parents, p)
        case Some(FsDir) => Ok(parents)
        case Some(FsFile(_)) => Err
        case None => Ok(parents[p := FsDir])
  }

  /** Where the parent exists, making a directory adds at most one entry. */
  lemma {:induction false} MkdirBelow(fs: Fs, p: Path)
    requires p != [] && AllDirectories(fs, p[..|p| - 1])
    ensures MkdirAll(fs, p) ==
            match Look(fs, p)
            case Some(FsDir) => Ok(fs)
            case Some(FsFile(_)) => Err
            case None => Ok(fs[p := FsDir])
  {
    MkdirExisting(fs, p[..|p| - 1]);
  }

  /** The path and everything above it are directories. */
  ghost predicate AllDirectories(fs: Fs, p: Path) {
    forall k :: 0 <= k <= |p| ==> IsDirectory(fs, p[..k])
  }

  lemma {:induction false} MkdirExisting(fs: Fs, p: Path)
    requires AllDirectories(fs, p)
    ensures MkdirAll(fs, p) == Ok(fs)
    decreases |p|
  {
    assert p[..|p|] == p;
    if p != [] {
      var q := p[..|p| - 1];
      forall k | 0 <= k <= |q| ensures IsDirectory(fs, q[..k]) {
        assert q[..k] == p[..k] && IsDirectory(fs, p[..k]);
      }
      MkdirExisting(fs, q);
      assert IsDirectory(fs, p[..|p|]);
    }
  }

  /** Creates or truncates a file; fails on a directory. */
  function Create(fs: Fs, p: Path): Result<Fs> {
    if IsDirectory(fs, p) then Err else Ok(fs[p := FsFile([])])
  }

  /** Whether something stands below `p`. */
  predicate Occupied(fs: Fs, p: Path) {
    exists q :: q in fs && |p| < |q| && q[..|p|] == p
  }

  /** Removes a file or an empty directory; anything else is left alone. */
  function Remove(fs: Fs, p: Path): (r: Fs)
    ensures forall q :: q != p ==> Look(r, q) == Look(fs, q)
    ensures Look(r, p).Some? ==> Look(r, p) == Look(fs, p)
    ensures Look(fs, p).Some? ==> (Look(r, p) == None <==> p != [] && (Look(fs, p) == Some(FsDir) ==> !Occupied(fs, p)))
  {
    if p != [] && p in fs && (fs[p].FsFile? || !Occupied(fs, p)) then fs - {p} else fs
  }

  // ------------------------------------------------------------------------------------------
  // From names to paths
  // ------------------------------------------------------------------------------------------

  /** The parts of a name between slashes. */
  function Components(name: Name): (parts: Path)
    ensures parts != []
    ensures forall i :: 0 <= i < |parts| ==> SLASH !in parts[i]
  {
    if name == [] then [[]]
    else
      var rest := Components(name[1..]);
      if name[0] == SLASH then [[]] + rest else [[name[0]] + rest[0]] + rest[1..]
  }

  /** One part of a path: nothing and a dot stay, two dots go up, anything else goes down. */
  function Enter(path: Path, part: Name): Path {
    if part == [] || part == [DOT] then path
    else if part == [DOT, DOT] then if path == [] then [] else path[..|path| - 1]
    else path + [part]
  }

  function EnterAll(path: Path, parts: Path): Path
    decreases |parts|
  {
    if parts == [] then path else EnterAll(Enter(path, parts[0]), parts[1..])
  }

  /** Where a name leads from a directory: the two are joined and the result is cleaned. */
  function Locate(path: Path, name: Name): Path {
    EnterAll(path, Components(name))
  }

  function Resolve(base: Path, p: Path): Path {
    if p == [] then base else Locate(Resolve(base, p[..|p| - 1]), p[|p| - 1])
  }

  /** A name that names an entry of the directory it stands in. */
  predicate ProperName(name: Name) {
    name != [] && name != [DOT] && name != [DOT, DOT] && SLASH !in name
  }

  /** Joining a name to a path adds it as the last name, whatever the path, if and only if it is proper. */
  lemma LocateProper(name: Name)
    ensures (forall path :: Locate(path, name) == path + [name]) <==> ProperName(name)
  {
    if SLASH !in name {
      forall path ensures Locate(path, name) == Enter(path, name) {
        OneComponent(name);
        assert EnterAll(path, [name]) == EnterAll(Enter(path, name), [name][1..]);
      }
      assert Locate([], name) == Enter([], name);
    } else {
      EnteredParts([], Components(name));
      assert ([] + [name])[0] == name;
      assert Locate([], name) != [] + [name];
    }
  }

  /** What other names do: nothing and a dot stay, two dots go up, and a slash takes one part after the other. */
  lemma LocateOther(path: Path, above: Name, a: Name, b: Name)
    ensures Locate(path, []) == path && Locate(path, [46]) == path
    ensures Locate(path + [above], [46, 46]) == path && Locate([], [46, 46]) == []
    ensures Locate(path, a + [47] + b) == Locate(Locate(path, a), b)
  {
    OneComponent([]);
    OneComponent([46]);
    OneComponent([46, 46]);
    EnterOne(path, []);
    EnterOne(path, [46]);
    EnterOne(path + [above], [46, 46]);
    EnterOne([], [46, 46]);
    assert (path + [above])[..|path|] == path;
    ComponentsJoin(a, b);
    EnterTwo(path, Components(a), Components(b));
  }

  lemma EnterOne(path: Path, part: Name)
    ensures EnterAll(path, [part]) == Enter(path, part)
  {
    assert EnterAll(path, [part]) == EnterAll(Enter(path, part), [part][1..]);
  }

  lemma ComponentsCons(name: Name)
    requires name != []
    ensures var rest := Components(name[1..]);
            Components(name) == if name[0] == SLASH then [[]] + rest else [[name[0]] + rest[0]] + rest[1..]
  {
  }

  /** Lengthening the first of some parts, or putting an empty one before them, leaves what follows them alone. */
  lemma PartsBefore(x: byte, parts: Path, more: Path)
    requires parts != []
    ensures [[]] + (parts + more) == [[]] + parts + more
    ensures [[x] + (parts + more)[0]] + (parts + more)[1..] == [[x] + parts[0]] + parts[1..] + more
  {
    assert (parts + more)[1..] == parts[1..] + more;
  }

  lemma {:induction false} ComponentsJoin(a: Name, b: Name)
    ensures Components(a + [SLASH] + b) == Components(a) + Components(b)
  {
    hide Components;
    var whole := a + [SLASH] + b;
    ComponentsCons(whole);
    if a == [] {
      OneComponent([]);
      assert whole[1..] == b;
    } else {
      assert whole[1..] == a[1..] + [SLASH] + b && whole[0] == a[0];
      ComponentsJoin(a[1..], b);
      PartsBefore(a[0], Components(a[1..]), Components(b));
      ComponentsCons(a);
    }
  }

  lemma {:induction false} EnterTwo(path: Path, parts: Path, more: Path)
    ensures EnterAll(path, parts + more) == EnterAll(EnterAll(path, parts), more)
    decreases |parts|
  {
    if parts == [] {
      assert parts + more == more;
    } else {
      assert (parts + more)[1..] == parts[1..] + more;
      EnterTwo(Enter(path, parts[0]), parts[1..], more);
    }
  }

  lemma LocateAt(path: Path, name: Name)
    requires ProperName(name)
    ensures Locate(path, name) == path + [name]
  {
    LocateProper(name);
  }

  lemma {:induction false} OneComponent(name: Name)
    requires SLASH !in name
    ensures Components(name) == [name]
  {
    if name != [] {
      OneComponent(name[1..]);
      assert [name[0]] + name[1..] == name;
    }
  }

  lemma {:induction false} EnteredParts(path: Path, parts: Path)
    requires forall i :: 0 <= i < |path| ==> SLASH !in path[i]
    requires forall i :: 0 <= i < |parts| ==> SLASH !in parts[i]
    ensures forall i :: 0 <= i < |EnterAll(path, parts)| ==> SLASH !in EnterAll(path, parts)[i]
    decreases |parts|
  {
    if parts != [] {
      EnteredParts(Enter(path, parts[0]), parts[1..]);
    }
  }

  lemma {:induction false} ResolveProper(base: Path, p: Path)
    requires forall i :: 0 <= i < |p| ==> ProperName(p[i])
    ensures Resolve(base, p) == base + p
  {
    if p == [] {
      assert base + p == base;
    } else {
      ResolveProper(base, p[..|p| - 1]);
      LocateAt(base + p[..|p| - 1], p[|p| - 1]);
      assert base + p[..|p| - 1] + [p[|p| - 1]] == base + p;
    }
  }

  // ------------------------------------------------------------------------------------------
  // The store in the file system
  // ------------------------------------------------------------------------------------------

  /** The files below a directory, by their paths in it: what a store kept there works on. */
  function FilesBelow(fs: Fs, root: Path): Disk {
    var paths := set p | p in fs && root <= p && fs[p].FsFile? :: p[|root|..];
    map q | q in paths && root + q in fs && fs[root + q].FsFile? :: fs[root + q].data
  }

  /** The file system after the store below `root` has changed its files; their directories exist. */
  function Mount(fs: Fs, root: Path, disk: Disk): Fs {
    Cleared(fs, root) + Directories(root, disk) + Mounted(root, disk)
  }

  function Cleared(fs: Fs, root: Path): Fs {
    map p | p in fs && !(root <= p && fs[p].FsFile?) :: fs[p]
  }

  function Directories(root: Path, disk: Disk): Fs {
    var parents := set q, k | q in disk && 0 <= k < |q| :: root + q[..k];
    map p | p in parents :: FsDir
  }

  function Mounted(root: Path, disk: Disk): Fs {
    var files := set q | q in disk :: root + q;
    map p | p in files && root <= p && p[|root|..] in disk :: FsFile(disk[p[|root|..]])
  }

  lemma FilesBelowAt(fs: Fs, root: Path, q: Path)
    requires root + q != []
    ensures q in FilesBelow(fs, root) <==> IsFile(Look(fs, root + q))
    ensures q in FilesBelow(fs, root) ==> Look(fs, root + q) == Some(FsFile(FilesBelow(fs, root)[q]))
  {
    assert (root + q)[|root|..] == q;
  }

  /** Mounting shows the store exactly its own files... */
  lemma MountHolds(fs: Fs, root: Path, disk: Disk)
    requires root != []
    ensures FilesBelow(Mount(fs, root, disk), root) == disk
  {
    hide FilesBelow, Mount;
    var found := FilesBelow(Mount(fs, root, disk), root);
    forall q: Path ensures q in found <==> q in disk ensures q in disk ==> found[q] == disk[q] {
      FilesBelowAt(Mount(fs, root, disk), root, q);
      MountAt(fs, root, disk, q);
    }
    assert found == disk;
  }

  lemma MountAt(fs: Fs, root: Path, disk: Disk, q: Path)
    requires root != []
    ensures var e := Look(Mount(fs, root, disk), root + q);
            if q in disk then e == Some(FsFile(disk[q])) else e.Some? ==> e.value.FsDir?
  {
    MountedAt(root, disk, q);
    ClearedAt(fs, root, q);
    assert root + q in Directories(root, disk) ==> Directories(root, disk)[root + q] == FsDir;
    hide Cleared, Directories, Mounted;
  }

  lemma MountedAt(root: Path, disk: Disk, q: Path)
    ensures root + q in Mounted(root, disk) <==> q in disk
    ensures q in disk ==> Mounted(root, disk)[root + q] == FsFile(disk[q])
  {
    assert (root + q)[|root|..] == q && root <= root + q;
    forall r: Path | r in disk && root + r == root + q ensures r == q {
      assert (root + r)[|root|..] == r;
    }
  }

  lemma ClearedAt(fs: Fs, root: Path, q: Path)
    ensures root + q in Cleared(fs, root) ==> Cleared(fs, root)[root + q] == FsDir
  {
    assert root <= root + q;
  }

  /** ... and leaves everything outside its directory alone. */
  lemma MountFrame(fs: Fs, root: Path, disk: Disk, p: Path)
    requires !(root <= p)
    ensures Look(Mount(fs, root, disk), p) == Look(fs, p)
  {
  }

  /** The chunks of the store below `root`. */
  ghost function StoreView(fs: Fs, root: Path): imap<Digest, Bytes> {
    View(FilesBelow(fs, root))
  }

  lemma StoreViewAt(fs: Fs, root: Path, h: Digest)
    ensures h in StoreView(fs, root) <==> IsFile(Look(fs, root + Slot(h)))
    ensures h in StoreView(fs, root) ==> Look(fs, root + Slot(h)) == Some(FsFile(StoreView(fs, root)[h]))
  {
    FilesBelowAt(fs, root, Slot(h));
  }

  /** Where a chunk of the store may stand. */
  ghost predicate IsSlot(root: Path, p: Path) {
    exists h: Digest :: p == root + Slot(h)
  }

  /** The store only depends on the files at the places of chunks. */
  lemma SameStore(fs: Fs, fs': Fs, root: Path)
    requires forall h: Digest :: Look(fs', root + Slot(h)) == Look(fs, root + Slot(h))
                                 || !(IsFile(Look(fs', root + Slot(h))) || IsFile(Look(fs, root + Slot(h))))
    ensures StoreView(fs', root) == StoreView(fs, root)
  {
    hide View, FilesBelow, Slot;
    var a, b := StoreView(fs, root), StoreView(fs', root);
    forall h: Digest ensures h in a <==> h in b ensures h in a ==> a[h] == b[h] {
      StoreViewAt(fs, root, h);
      StoreViewAt(fs', root, h);
    }
    assert a == b;
  }

  /** Making directories adds directories and changes nothing else. */
  lemma {:induction false} MkdirAdds(fs: Fs, p: Path)
    requires MkdirAll(fs, p).Ok?
    ensures forall q: Path :: Look(MkdirAll(fs, p).value, q) == Look(fs, q)
                              || (Look(fs, q) == None && Look(MkdirAll(fs, p).value, q) == Some(FsDir))
    decreases |p|
  {
    if p != [] {
      MkdirAdds(fs, p[..|p| - 1]);
    }
  }

  lemma MkdirKeepsStore(fs: Fs, p: Path, root: Path)
    requires MkdirAll(fs, p).Ok?
    ensures StoreView(MkdirAll(fs, p).value, root) == StoreView(fs, root)
  {
    MkdirAdds(fs, p);
    SameStore(fs, MkdirAll(fs, p).value, root);
  }

  // ------------------------------------------------------------------------------------------
  // Laying a tree over a directory
  // ------------------------------------------------------------------------------------------

  /** `after` is `before` with the entries of `f`, for relative paths in `scope`, laid over it at `base`. */
  ghost predicate Overlaid(after: Fs, before: Fs, base: Path, f: Path -> Option<FsEntry>, scope: iset<Path>) {
    forall p: Path :: Look(after, p) == Overlay(before, base, f, scope, p)
  }

  ghost function Overlay(before: Fs, base: Path, f: Path -> Option<FsEntry>, scope: iset<Path>, p: Path)
    : Option<FsEntry>
  {
    if base <= p && p[|base|..] in scope && f(p[|base|..]).Some? then f(p[|base|..]) else Look(before, p)
  }

  /** `after` and `before` agree but for the relative paths in `scope` below `base`. */
  ghost predicate Elsewhere(after: Fs, before: Fs, base: Path, scope: iset<Path>) {
    forall p: Path :: !(base <= p && p[|base|..] in scope) ==> Look(after, p) == Look(before, p)
  }

  /** What happens strictly below `base` leaves `base` and everything above it alone. */
  lemma ElsewhereAbove(after: Fs, before: Fs, base: Path, scope: iset<Path>)
    requires Elsewhere(after, before, base, scope) && [] !in scope && AllDirectories(before, base)
    ensures AllDirectories(after, base)
  {
    forall k | 0 <= k <= |base| ensures IsDirectory(after, base[..k]) {
      var p := base[..k];
      assert IsDirectory(before, p);
      if base <= p {
        assert p[|base|..] == [];
      }
      assert Look(after, p) == Look(before, p);
    }
  }

  lemma ElsewhereFromChild(after: Fs, before: Fs, base: Path, name: Name)
    requires Elsewhere(after, before, base + [name], EVERYWHERE)
    ensures Elsewhere(after, before, base, Under({name}))
  {
    forall p: Path | !(base <= p && p[|base|..] in Under({name})) ensures Look(after, p) == Look(before, p) {
      if base + [name] <= p {
        assert p[|base|] == (base + [name])[|base|] == name && base <= base + [name];
      }
    }
  }

  lemma ElsewhereThen(fs2: Fs, fs1: Fs, fs0: Fs, base: Path, s: iset<Path>, t: iset<Path>)
    requires Elsewhere(fs1, fs0, base, s) && Elsewhere(fs2, fs1, base, t)
    ensures Elsewhere(fs2, fs0, base, s + t)
  {
  }

  lemma OverlaidNothing(fs: Fs, base: Path, f: Path -> Option<FsEntry>, scope: iset<Path>)
    requires forall p :: p in scope ==> f(p) == None
    ensures Overlaid(fs, fs, base, f, scope)
  {
  }

  lemma OverlaidOne(after: Fs, before: Fs, base: Path, f: Path -> Option<FsEntry>, e: FsEntry)
    requires f([]) == Some(e) && base != []
    requires Look(after, base) == Some(e)
    requires forall p :: p != base ==> Look(after, p) == Look(before, p)
    ensures Overlaid(after, before, base, f, HERE)
  {
    assert base[|base|..] == [];
    forall p: Path ensures Look(after, p) == Overlay(before, base, f, HERE, p) {
      if base <= p && p[|base|..] in HERE {
        assert p == base + p[|base|..] == base;
      }
    }
  }

  lemma OverlaidThen(fs2: Fs, fs1: Fs, fs0: Fs, base: Path, f: Path -> Option<FsEntry>, s: iset<Path>, t: iset<Path>)
    requires Overlaid(fs1, fs0, base, f, s) && Overlaid(fs2, fs1, base, f, t) && s !! t
    ensures Overlaid(fs2, fs0, base, f, s + t)
  {
    forall p: Path ensures Look(fs2, p) == Overlay(fs0, base, f, s + t, p) {
      assert Look(fs2, p) == Overlay(fs1, base, f, t, p);
      assert Look(fs1, p) == Overlay(fs0, base, f, s, p);
    }
  }

  lemma OverlaidWiden(after: Fs, before: Fs, base: Path, f: Path -> Option<FsEntry>, s: iset<Path>, t: iset<Path>)
    requires Overlaid(after, before, base, f, s) && s <= t
    requires forall p :: p in t && p !in s ==> f(p) == None
    ensures Overlaid(after, before, base, f, t)
  {
    forall p: Path ensures Look(after, p) == Overlay(before, base, f, t, p) {
      assert Look(after, p) == Overlay(before, base, f, s, p);
    }
  }

  lemma OverlaidFromChild(after: Fs, before: Fs, base: Path, f: Path -> Option<FsEntry>,
                          g: Path -> Option<FsEntry>, name: Name)
    requires Overlaid(after, before, base + [name], g, EVERYWHERE)
    requires forall p :: f([name] + p) == g(p)
    ensures Overlaid(after, before, base, f, Under({name}))
  {
    forall p: Path ensures Look(after, p) == Overlay(before, base, f, Under({name}), p) {
      assert Look(after, p) == Overlay(before, base + [name], g, EVERYWHERE, p);
      if base + [name] <= p {
        assert p[|base|] == (base + [name])[|base|] == name && base <= base + [name];
      }
      if base <= p && p[|base|..] in Under({name}) {
        var rel := p[|base|..];
        assert rel == [name] + rel[1..];
        assert p == base + rel == base + [name] + rel[1..];
        assert base + [name] <= p && p[|base + [name]|..] == rel[1..];
        assert f([name] + rel[1..]) == g(rel[1..]);
        assert rel[1..] in EVERYWHERE;
      }
    }
  }
}
