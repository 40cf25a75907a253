/** Manifests with files in the storage directory: when the store survives them. */
module StoreOverlap {
  import opened Bytes
  import opened Cas
  import opened ChunkPaths
  import opened Files
  import opened Merkle
  import opened PutSteps
  import opened Rebuild
  import opened RebuildFacts
  import opened Reports
  import opened TreeDiff

  /** Every file of the tree at `path` that is written to the place of a chunk spells that very chunk. */
  ghost predicate Harmless(view: Chunks, root: Path, path: Path, node: Node)
    decreases node
  {
    match node
    case File(_, _, chunks) =>
      chunks == [] || forall h: Digest :: path == root + Slot(h) ==>
        h in view && Spell(view, root, path, chunks).data == view[h]
    case Dir(_, _, children) =>
      forall i :: 0 <= i < |children| ==> Harmless(view, root, path + [children[i].name], children[i])
  }

  lemma FileHarmless(fs: Fs, root: Path, parent: Path, node: Node)
    requires node.File? && node.chunks != [] && RebuildFile(fs, root, parent + [node.name], node.chunks).written.Ok?
    ensures StoreView(RebuildFile(fs, root, parent + [node.name], node.chunks).fs, root) == StoreView(fs, root)
            <==> Harmless(StoreView(fs, root), root, parent + [node.name], node)
  {
    hide StoreView, Slot, Spell;
    var path := parent + [node.name];
    if h: Digest :| path == root + Slot(h) {
      var made := MkdirAll(fs, ParentOf(path)).value;
      var data := Spell(StoreView(fs, root), root, path, node.chunks).data;
      var after := RebuildFile(fs, root, path, node.chunks).fs;
      assert after == made[path := FsFile(data)];
      forall g: Digest
        ensures g in StoreView(after, root) <==> g == h || g in StoreView(fs, root)
        ensures g in StoreView(after, root) ==>
                  StoreView(after, root)[g] == if g == h then data else StoreView(fs, root)[g]
      {
        ReadWhileWriting(fs, made, after, root, path, data, g);
        if root + Slot(g) == path {
          assert Slot(g) == (root + Slot(g))[|root|..] == (root + Slot(h))[|root|..] == Slot(h);
          SlotsApart(g, h);
        }
      }
      if Harmless(StoreView(fs, root), root, path, node) {
        assert StoreView(after, root) == StoreView(fs, root);
      }
      if StoreView(after, root) == StoreView(fs, root) {
        forall g: Digest | path == root + Slot(g) ensures g == h {
          assert Slot(g) == (root + Slot(g))[|root|..] == (root + Slot(h))[|root|..] == Slot(h);
          SlotsApart(g, h);
        }
      }
    } else {
      FileKeepsStore(fs, root, path, node.chunks);
    }
  }

  /** A successful rebuild leaves the store as it was if and only if every file of the tree that lies at the place
      of a chunk spells that very chunk. */
  lemma {:induction false} NodeHarmless(fs: Fs, root: Path, parent: Path, node: Node)
    requires ProperName(node.name) && ProperTree(node) && Tidy(node) && AllDirectories(fs, parent)
    requires RebuildNode(fs, root, parent, node).written.Ok?
    ensures StoreView(RebuildNode(fs, root, parent, node).fs, root) == StoreView(fs, root)
            <==> Harmless(StoreView(fs, root), root, parent + [node.name], node)
    decreases node, 1, 0
  {
    hide StoreView, RebuildFile, RebuildNodes, AllDirectories;
    LocateAt(parent, node.name);
    var path := parent + [node.name];
    match node
    case File(_, _, chunks) =>
      if chunks != [] {
        FileHarmless(fs, root, parent, node);
      }
    case Dir(_, _, children) =>
      MkdirKeepsStore(fs, path, root);
      DirFrame(fs, parent, node.name);
      assert children[..|children|] == children;
      NodesHarmless(MkdirAll(fs, path).value, root, path, node, |children|);
  }

  ghost predicate HarmlessUpTo(view: Chunks, root: Path, path: Path, node: Node, i: nat)
    requires node.Dir? && i <= |node.children|
  {
    forall k :: 0 <= k < i ==> Harmless(view, root, path + [node.children[k].name], node.children[k])
  }

  lemma {:induction false} NodesHarmless(fs: Fs, root: Path, path: Path, node: Node, i: nat)
    requires node.Dir? && ProperTree(node) && Tidy(node) && AllDirectories(fs, path) && i <= |node.children|
    requires RebuildNodes(fs, root, path, node.children[..i]).written.Ok?
    ensures StoreView(RebuildNodes(fs, root, path, node.children[..i]).fs, root) == StoreView(fs, root)
            <==> HarmlessUpTo(StoreView(fs, root), root, path, node, i)
    decreases node, 0, i
  {
    hide StoreView, RebuildNode, AllDirectories, Harmless, Elsewhere, Under, Names;
    if i > 0 {
      var before := RebuildNodes(fs, root, path, node.children[..i - 1]).fs;
      var after := RebuildNodes(fs, root, path, node.children[..i]).fs;
      var child := node.children[i - 1];
      RebuildNext(fs, root, path, node.children, i - 1);
      NodesHarmless(fs, root, path, node, i - 1);
      NodesFrame(fs, root, path, node, i - 1);
      NodeHarmless(before, root, path, child);
      NodeFrame(before, root, path, child);
      if StoreView(after, root) == StoreView(fs, root) {
        EarlierKept(fs, before, after, root, path, node, i - 1);
      }
    }
  }

  /** What later siblings leave alone was right before them. */
  lemma EarlierKept(fs: Fs, before: Fs, after: Fs, root: Path, path: Path, node: Node, i: nat)
    requires node.Dir? && Distinct(node.children) && i < |node.children|
    requires Elsewhere(before, fs, path, Under(Names(node.children[..i])))
    requires Elsewhere(after, before, path + [node.children[i].name], EVERYWHERE)
    requires StoreView(after, root) == StoreView(fs, root)
    ensures StoreView(before, root) == StoreView(fs, root)
  {
    hide StoreView, Slot;
    var name := node.children[i].name;
    NamesGrow(node.children, i);
    forall h: Digest
      ensures Look(before, root + Slot(h)) == Look(fs, root + Slot(h))
              || !(IsFile(Look(before, root + Slot(h))) || IsFile(Look(fs, root + Slot(h))))
    {
      var p := root + Slot(h);
      StoreViewAt(after, root, h);
      StoreViewAt(fs, root, h);
      if path + [name] <= p {
        assert p[|path|] == (path + [name])[|path|] == name && p[|path|..][0] == p[|path|];
        assert p[|path|..] !in Under(Names(node.children[..i]));
        assert Look(before, p) == Look(fs, p);
      } else {
        assert Look(after, p) == Look(before, p);
      }
    }
    SameStore(fs, before, root);
  }

  /** A manifest whose one file lies at the place of chunk `h` and lists chunk `g`. */
  function Overlapping(h: Digest, g: Digest): Node {
    var file := File(Slot(h)[1], [], [g]);
    Dir([], [], [Dir(STORAGE[0], [], [Dir(STORAGE[1], [], [Dir(Slot(h)[0], [], [file])])])])
  }

  lemma StepInto(fs: Fs, root: Path, parent: Path, name: Name, hash: Bytes, child: Node)
    requires ProperName(name) && AllDirectories(fs, parent + [name])
    ensures RebuildNodes(fs, root, parent, [Dir(name, hash, [child])])
            == RebuildNodes(fs, root, parent + [name], [child])
  {
    var dir := Dir(name, hash, [child]);
    LocateAt(parent, name);
    MkdirExisting(fs, parent + [name]);
    assert [dir][..0] == [] && [dir][0] == dir;
    assert RebuildNodes(fs, root, parent, [dir][..0]) == Effect(fs, Ok(0));
    assert RebuildNode(fs, root, parent, dir) == RebuildNodes(fs, root, parent + [name], [child]);
  }

  lemma DirectoriesAbove(fs: Fs, p: Path, q: Path)
    requires AllDirectories(fs, p) && q <= p
    ensures AllDirectories(fs, q)
  {
    forall k | 0 <= k <= |q| ensures IsDirectory(fs, q[..k]) {
      assert q[..k] == p[..k];
    }
  }

  lemma HexName(h: Digest)
    ensures ProperName(Slot(h)[0]) && ProperName(Slot(h)[1])
  {
    HexPlain(h);
  }

  /** Such a manifest has distinct and proper names, and it makes a sound store unsound: the rebuild succeeds and the
      chunk is lost. */
  lemma OverlapBreaksStore(sha: Bytes -> Digest, fs: Fs, base: Path, h: Digest, g: Digest)
    requires var view := StoreView(fs, base + STORAGE); Sound(sha, view) && h in view && g in view && g != h
    requires AllDirectories(fs, base + STORAGE + [Slot(h)[0]])
    ensures Tidy(Overlapping(h, g)) && ProperTree(Overlapping(h, g)) && !KeepsOff(Overlapping(h, g))
    ensures var o := RebuildNodes(fs, base + STORAGE, base, Overlapping(h, g).children);
            && o.written == Ok(1)
            && !Sound(sha, StoreView(o.fs, base + STORAGE))
            && !Extends(StoreView(fs, base + STORAGE), StoreView(o.fs, base + STORAGE))
  {
    hide StoreView, Slot, AllDirectories, RebuildFile, RebuildNodes, RebuildNode;
    var root := base + STORAGE;
    var hex, file := Slot(h)[0], File(Slot(h)[1], [], [g]);
    HexName(h);
    assert Kids(Kids(Overlapping(h, g))[0])[0].name == STORAGE[1];
    OnlyChild(hex, file);
    OnlyChild(STORAGE[1], Dir(hex, [], [file]));
    OnlyChild(STORAGE[0], Dir(STORAGE[1], [], [Dir(hex, [], [file])]));
    OnlyChild([], Dir(STORAGE[0], [], [Dir(STORAGE[1], [], [Dir(hex, [], [file])])]));
    var top := base + [STORAGE[0]];
    assert root == top + [STORAGE[1]];
    DirectoriesAbove(fs, root + [hex], root);
    DirectoriesAbove(fs, root + [hex], top);
    StepInto(fs, root, base, STORAGE[0], [], Dir(STORAGE[1], [], [Dir(hex, [], [file])]));
    StepInto(fs, root, top, STORAGE[1], [], Dir(hex, [], [file]));
    StepInto(fs, root, root, hex, [], file);
    OneFile(fs, root, root + [hex], file);
    assert root + [hex] + [Slot(h)[1]] == root + Slot(h);
    ChunkReplaced(fs, root, h, g);
  }

  lemma OnlyChild(name: Name, child: Node)
    requires ProperName(child.name) && ProperTree(child) && Tidy(child)
    ensures ProperTree(Dir(name, [], [child])) && Tidy(Dir(name, [], [child]))
  {
  }

  lemma OneFile(fs: Fs, root: Path, parent: Path, file: Node)
    requires file.File? && file.chunks != [] && ProperName(file.name)
    ensures RebuildNodes(fs, root, parent, [file]) == RebuildFile(fs, root, parent + [file.name], file.chunks)
  {
    hide RebuildFile;
    LocateAt(parent, file.name);
    assert [file][..0] == [] && [file][0] == file;
    assert RebuildNodes(fs, root, parent, [file][..0]) == Effect(fs, Ok(0));
  }

  lemma ChunkReplaced(fs: Fs, root: Path, h: Digest, g: Digest)
    requires h in StoreView(fs, root) && g in StoreView(fs, root) && g != h
    requires AllDirectories(fs, ParentOf(root + Slot(h)))
    ensures var o := RebuildFile(fs, root, root + Slot(h), [g]);
            o.written == Ok(1) && h in StoreView(o.fs, root) && StoreView(o.fs, root)[h] == StoreView(fs, root)[g]
  {
    hide StoreView, Slot;
    var path, view := root + Slot(h), StoreView(fs, root);
    MkdirExisting(fs, ParentOf(path));
    StoreViewAt(fs, root, h);
    assert path != root + Slot(g) by {
      if path == root + Slot(g) {
        assert Slot(g) == (root + Slot(g))[|root|..] == path[|root|..] == Slot(h);
        SlotsApart(g, h);
      }
    }
    assert Spell(view, root, path, [g][..0]) == Spelling([], true);
    assert Spell(view, root, path, [g]) == Spelling([] + view[g], true);
    var after := RebuildFile(fs, root, path, [g]).fs;
    assert after == fs[path := FsFile([] + view[g])];
    ReadWhileWriting(fs, fs, after, root, path, [] + view[g], h);
    assert [] + view[g] == view[g];
  }
}
