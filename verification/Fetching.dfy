/** What a sync run asks its peer for, how it stores what comes, and why that is enough. */
module Fetching {
  import opened Bytes
  import opened Cas
  import opened ChunkPaths
  import opened Files
  import opened ManifestDiff
  import opened Merkle
  import opened PutSteps
  import opened Rebuild
  import opened Reports
  import opened TreeDiff

  // ------------------------------------------------------------------------------------------
  // The peer
  // ------------------------------------------------------------------------------------------

  /** The peer answers the request of a run that starts at position `i` of the list of needed chunks with any data
      at all, or not. Two requests for the same chunks may be answered differently. */
  type Peer = (nat, seq<Digest>) -> Result<seq<Bytes>>

  /** Data with that hash is among the answers. */
  ghost predicate Delivered(sha: Bytes -> Digest, answers: seq<Bytes>, h: Digest) {
    exists i :: 0 <= i < |answers| && sha(answers[i]) == h
  }

  /** The peer answers every request and leaves out no chunk of the manifest. */
  ghost predicate Delivers(sha: Bytes -> Digest, peer: Peer, manifest: Node) {
    forall i: nat, batch: seq<Digest>, h :: h in batch && HasChunk(manifest, h) ==>
      peer(i, batch).Ok? && Delivered(sha, peer(i, batch).value, h)
  }

  /** The stored data of the requested chunks, leaving out those not stored. */
  ghost function Answers(view: Chunks, hashes: seq<Digest>): seq<Bytes> {
    if hashes == [] then [] else
      var last := |hashes| - 1;
      Answers(view, hashes[..last]) + if hashes[last] in view then [view[hashes[last]]] else []
  }

  /** The serving side of a chunk request. */
  method HandleChunkRequest(store: BlobStore, hashes: seq<Digest>)
    returns (answers: seq<Bytes>, notFound: seq<Digest>)
    ensures answers == Answers(View(store.disk), hashes)
    ensures exists found ::
              Lacking(found, hashes, Unstored(View(store.disk))) && Contents(answers, found, View(store.disk))
    ensures Lacking(notFound, hashes, Stored(View(store.disk)))
    ensures forall h :: h in notFound <==> h in hashes && h !in View(store.disk)
  {
    hide View, Lacking;
    answers, notFound := [], [];
    for i := 0 to |hashes|
      invariant answers == Answers(View(store.disk), hashes[..i])
      invariant notFound == Filtered(hashes[..i], Stored(View(store.disk)))
    {
      assert hashes[..i + 1] == hashes[..i] + [hashes[i]];
      FilteredNext(hashes[..i], Stored(View(store.disk)), hashes[i]);
      var chunk := store.Get(hashes[i]);
      if chunk.Err? {
        notFound := notFound + [hashes[i]];
      } else {
        answers := answers + [chunk.value];
      }
    }
    assert hashes[..|hashes|] == hashes;
    ghost var found := AnswersInOrder(View(store.disk), hashes);
    FilteredLacks(hashes, Stored(View(store.disk)));
    forall h ensures h in notFound <==> h in hashes && h !in View(store.disk) {
      LackingMembers(notFound, hashes, Stored(View(store.disk)), h);
    }
  }

  ghost function Stored(view: Chunks): iset<Digest> {
    iset h: Digest | h in view
  }

  ghost function Unstored(view: Chunks): iset<Digest> {
    iset h: Digest | h !in view
  }

  /** Answer by answer the stored data of these chunks. */
  ghost predicate Contents(answers: seq<Bytes>, found: seq<Digest>, view: Chunks) {
    |answers| == |found| && forall k :: 0 <= k < |found| ==> found[k] in view && answers[k] == view[found[k]]
  }

  /** The answers are the data of exactly the requested chunks that are stored, in the order of the request. */
  lemma {:induction false} AnswersInOrder(view: Chunks, hashes: seq<Digest>) returns (found: seq<Digest>)
    ensures Lacking(found, hashes, Unstored(view)) && Contents(Answers(view, hashes), found, view)
  {
    if hashes == [] {
      found := [];
      LackingNothing(Unstored(view));
    } else {
      var last := |hashes| - 1;
      var before := AnswersInOrder(view, hashes[..last]);
      found := before + if hashes[last] in view then [hashes[last]] else [];
      LackingNext(before, hashes[..last], Unstored(view), hashes[last]);
      assert hashes[..last] + [hashes[last]] == hashes;
    }
  }

  lemma {:induction false} AnswersDeliver(sha: Bytes -> Digest, view: Chunks, hashes: seq<Digest>, h: Digest)
    requires Sound(sha, view) && h in hashes && h in view
    ensures Delivered(sha, Answers(view, hashes), h)
  {
    var last := |hashes| - 1;
    var before := Answers(view, hashes[..last]);
    if hashes[last] == h {
      assert sha(Answers(view, hashes)[|before|]) == h;
    } else {
      assert h in hashes[..last];
      AnswersDeliver(sha, view, hashes[..last], h);
      var i :| 0 <= i < |before| && sha(before[i]) == h;
      assert Answers(view, hashes)[i] == before[i];
    }
  }

  /** A peer that answers from a sound store holding the manifest's chunks delivers. */
  lemma HonestPeerDelivers(sha: Bytes -> Digest, peer: Peer, view: Chunks, manifest: Node)
    requires forall i: nat, batch :: peer(i, batch) == Ok(Answers(view, batch))
    requires Sound(sha, view) && AllPresent(manifest, view)
    ensures Delivers(sha, peer, manifest)
  {
    forall i: nat, batch: seq<Digest>, h | h in batch && HasChunk(manifest, h)
      ensures peer(i, batch).Ok? && Delivered(sha, peer(i, batch).value, h)
    {
      AnswersDeliver(sha, view, batch, h);
    }
  }

  // ------------------------------------------------------------------------------------------
  // What to fetch
  // ------------------------------------------------------------------------------------------

  /** All chunks that a tree lists, file by file. */
  function ChunkList(node: Node): seq<Digest> {
    match node
    case File(_, _, chunks) => chunks
    case Dir(_, _, children) => ChunkLists(children)
  }

  function ChunkLists(nodes: seq<Node>): seq<Digest> {
    if nodes == [] then [] else ChunkLists(nodes[..|nodes| - 1]) + ChunkList(nodes[|nodes| - 1])
  }

  lemma ChunkListsNext(nodes: seq<Node>, i: nat)
    requires i < |nodes|
    ensures ChunkLists(nodes[..i + 1]) == ChunkLists(nodes[..i]) + ChunkList(nodes[i])
  {
    assert nodes[..i + 1][..i] == nodes[..i];
  }

  lemma {:induction false} InChunkList(node: Node, h: Digest)
    ensures h in ChunkList(node) <==> HasChunk(node, h)
    decreases node, 1
  {
    if node.Dir? {
      InChunkLists(node.children, h);
    }
  }

  lemma {:induction false} InChunkLists(nodes: seq<Node>, h: Digest)
    ensures h in ChunkLists(nodes) <==> AnyHasChunk(nodes, h)
    decreases nodes, 0
  {
    if nodes != [] {
      var last := |nodes| - 1;
      InChunkLists(nodes[..last], h);
      InChunkList(nodes[last], h);
      AnyHasChunkNext(nodes, last);
      assert nodes[..last + 1] == nodes;
    }
  }

  ghost predicate AnyHasChunk(nodes: seq<Node>, h: Digest) {
    exists i :: 0 <= i < |nodes| && HasChunk(nodes[i], h)
  }

  lemma AnyHasChunkNext(nodes: seq<Node>, i: nat)
    requires i < |nodes|
    ensures forall h :: AnyHasChunk(nodes[..i + 1], h) <==> AnyHasChunk(nodes[..i], h) || HasChunk(nodes[i], h)
  {
    forall h ensures AnyHasChunk(nodes[..i + 1], h) <==> AnyHasChunk(nodes[..i], h) || HasChunk(nodes[i], h) {
      if AnyHasChunk(nodes[..i], h) {
        var k :| 0 <= k < |nodes[..i]| && HasChunk(nodes[..i][k], h);
        assert HasChunk(nodes[..i + 1][k], h);
      }
      if HasChunk(nodes[i], h) {
        assert HasChunk(nodes[..i + 1][i], h);
      }
      if AnyHasChunk(nodes[..i + 1], h) {
        var k :| 0 <= k < |nodes[..i + 1]| && HasChunk(nodes[..i + 1][k], h);
        if k < i {
          assert HasChunk(nodes[..i][k], h);
        }
      }
    }
  }

  /** The chunks of a subtree that the store lacks, in the order in which its files list them. */
  method CollectMissing(node: Node, store: BlobStore) returns (missing: seq<Digest>)
    ensures missing == Filtered(ChunkList(node), Stored(View(store.disk)))
    ensures Lacking(missing, ChunkList(node), Stored(View(store.disk)))
    ensures forall h :: h in missing <==> HasChunk(node, h) && h !in View(store.disk)
    decreases node, 1
  {
    hide View, Lacking;
    match node {
    case File(_, _, chunks) =>
      missing := [];
      for i := 0 to |chunks|
        invariant missing == Filtered(chunks[..i], Stored(View(store.disk)))
      {
        assert chunks[..i + 1] == chunks[..i] + [chunks[i]];
        FilteredNext(chunks[..i], Stored(View(store.disk)), chunks[i]);
        if !store.Has(chunks[i]) {
          missing := missing + [chunks[i]];
        }
      }
      assert chunks[..|chunks|] == chunks;
    case Dir(_, _, children) =>
      missing := CollectAllMissing(children, store);
    }
    FilteredLacks(ChunkList(node), Stored(View(store.disk)));
    forall h ensures h in missing <==> HasChunk(node, h) && h !in View(store.disk) {
      LackingMembers(missing, ChunkList(node), Stored(View(store.disk)), h);
      InChunkList(node, h);
    }
  }

  /** The missing chunks of several subtrees. */
  method CollectAllMissing(nodes: seq<Node>, store: BlobStore) returns (missing: seq<Digest>)
    ensures missing == Filtered(ChunkLists(nodes), Stored(View(store.disk)))
    ensures Lacking(missing, ChunkLists(nodes), Stored(View(store.disk)))
    ensures forall h :: h in missing <==> AnyHasChunk(nodes, h) && h !in View(store.disk)
    decreases nodes, 0
  {
    hide View, AnyHasChunk, HasChunk, Lacking, ChunkList;
    missing := [];
    for i := 0 to |nodes|
      invariant missing == Filtered(ChunkLists(nodes[..i]), Stored(View(store.disk)))
    {
      var more := CollectMissing(nodes[i], store);
      ChunkListsNext(nodes, i);
      FilteredConcat(ChunkLists(nodes[..i]), ChunkList(nodes[i]), Stored(View(store.disk)));
      missing := missing + more;
    }
    assert nodes[..|nodes|] == nodes;
    FilteredLacks(ChunkLists(nodes), Stored(View(store.disk)));
    forall h ensures h in missing <==> AnyHasChunk(nodes, h) && h !in View(store.disk) {
      LackingMembers(missing, ChunkLists(nodes), Stored(View(store.disk)), h);
      InChunkLists(nodes, h);
    }
  }

  // ------------------------------------------------------------------------------------------
  // Fetching
  // ------------------------------------------------------------------------------------------

  /** What the disk does, answer by answer, while the answers to one request are stored. */
  type Disturbance = nat -> Faults

  /** The disk takes every chunk. */
  ghost predicate Healthy(faults: nat -> Disturbance) {
    forall i: nat, k: nat :: faults(i)(k) == NO_FAULTS
  }

  ghost predicate Undisturbed(faults: Disturbance) {
    forall k: nat :: faults(k) == NO_FAULTS
  }

  const BATCH_SIZE: nat := 10

  ghost predicate AllStored(sha: Bytes -> Digest, answers: seq<Bytes>, view: Chunks) {
    forall i :: 0 <= i < |answers| ==> sha(answers[i]) in view
  }

  /** What is stored now and was not before came with these answers. */
  ghost predicate OnlyFrom(sha: Bytes -> Digest, before: Chunks, after: Chunks, answers: seq<Bytes>) {
    forall h :: h in after && h !in before ==>
      exists i :: 0 <= i < |answers| && sha(answers[i]) == h && answers[i] == after[h]
  }

  lemma OnlyFromNext(sha: Bytes -> Digest, start: Chunks, before: Chunks, after: Chunks, answers: seq<Bytes>, i: nat)
    requires i < |answers| && OnlyFrom(sha, start, before, answers) && Extends(start, before)
    requires after == before || after == before[sha(answers[i]) := answers[i]]
    ensures OnlyFrom(sha, start, after, answers)
  {
    forall h | h in after && h !in start
      ensures exists k :: 0 <= k < |answers| && sha(answers[k]) == h && answers[k] == after[h]
    {
      if h == sha(answers[i]) && after[h] == answers[i] {
      } else {
        assert h in before && after[h] == before[h];
      }
    }
  }

  /** Stores whatever came, each under the hash of its data. A failing disk only loses chunks. */
  method StoreAnswers(sha: Bytes -> Digest, store: BlobStore, answers: seq<Bytes>, faults: Disturbance)
    modifies store
    ensures Extends(old(View(store.disk)), View(store.disk))
    ensures OnlyFrom(sha, old(View(store.disk)), View(store.disk), answers)
    ensures old(Sound(sha, View(store.disk))) ==> Sound(sha, View(store.disk))
    ensures Undisturbed(faults) ==> AllStored(sha, answers, View(store.disk))
  {
    hide View, Extends, Sound, AllIn, OnlyFrom;
    ExtendsSelf(View(store.disk));
    OnlyFromSelf(sha, View(store.disk), answers);
    ghost var stored: seq<Digest> := [];
    AllInNothing(View(store.disk));
    for i := 0 to |answers|
      invariant Extends(old(View(store.disk)), View(store.disk))
      invariant OnlyFrom(sha, old(View(store.disk)), View(store.disk), answers)
      invariant old(Sound(sha, View(store.disk))) ==> Sound(sha, View(store.disk))
      invariant Undisturbed(faults) ==> |stored| == i && AllIn(stored, View(store.disk))
      invariant Undisturbed(faults) ==> forall k :: 0 <= k < i ==> stored[k] == sha(answers[k])
    {
      ghost var before := View(store.disk);
      var put, _ := store.Put(sha(answers[i]), answers[i], faults(i));
      OnlyFromNext(sha, old(View(store.disk)), before, View(store.disk), answers, i);
      if put.Ok? {
        PutKeeps(sha, old(View(store.disk)), before, View(store.disk), answers[i],
                 if Undisturbed(faults) then stored else []) by { AllInNothing(before); }
      }
      stored := stored + [sha(answers[i])];
    }
    if Undisturbed(faults) {
      AllInAt(stored, View(store.disk));
    }
  }

  lemma OnlyFromSelf(sha: Bytes -> Digest, view: Chunks, answers: seq<Bytes>)
    ensures OnlyFrom(sha, view, view, answers)
  {
  }

  lemma AllInNothing(view: Chunks)
    ensures AllIn([], view)
  {
  }

  lemma AllInAt(hashes: seq<Digest>, view: Chunks)
    requires AllIn(hashes, view)
    ensures forall i :: 0 <= i < |hashes| ==> hashes[i] in view
  {
  }

  /** Batch `k`: ten of the needed chunks, or as many as are left. */
  function Batch(needed: seq<Digest>, k: nat): seq<Digest>
    requires 10 * k < |needed|
  {
    needed[10 * k..Min(10 * k + 10, |needed|)]
  }

  /** Every batch before batch `n` is answered. */
  ghost predicate Answered(needed: seq<Digest>, peer: Peer, n: nat) {
    forall k: nat :: k < n && 10 * k < |needed| ==> peer(10 * k, Batch(needed, k)).Ok?
  }

  /** All answers to the batches before batch `n` that were answered, one after the other. */
  ghost function AllAnswers(needed: seq<Digest>, peer: Peer, n: nat): seq<Bytes> {
    if n == 0 then [] else
      AllAnswers(needed, peer, n - 1) +
      if 10 * (n - 1) < |needed| && peer(10 * (n - 1), Batch(needed, n - 1)).Ok?
      then peer(10 * (n - 1), Batch(needed, n - 1)).value else []
  }

  lemma OnlyFromThen(sha: Bytes -> Digest, a: Chunks, b: Chunks, c: Chunks, first: seq<Bytes>, second: seq<Bytes>)
    requires Extends(b, c) && OnlyFrom(sha, a, b, first) && OnlyFrom(sha, b, c, second)
    ensures OnlyFrom(sha, a, c, first + second)
  {
    forall h | h in c && h !in a
      ensures exists i :: 0 <= i < |first + second| && sha((first + second)[i]) == h && (first + second)[i] == c[h]
    {
      if h in b {
        var i :| 0 <= i < |first| && sha(first[i]) == h && first[i] == b[h];
        assert (first + second)[i] == c[h];
      } else {
        var i :| 0 <= i < |second| && sha(second[i]) == h && second[i] == c[h];
        assert (first + second)[|first| + i] == c[h];
      }
    }
  }

  lemma OnlyFromMore(sha: Bytes -> Digest, a: Chunks, b: Chunks, first: seq<Bytes>, more: seq<Bytes>)
    requires OnlyFrom(sha, a, b, first)
    ensures OnlyFrom(sha, a, b, first + more)
  {
    OnlyFromSelf(sha, b, more);
    OnlyFromThen(sha, a, b, b, first, more);
  }

  lemma AllStoredThen(sha: Bytes -> Digest, first: seq<Bytes>, second: seq<Bytes>, before: Chunks, after: Chunks)
    requires AllStored(sha, first, before) && Extends(before, after) && AllStored(sha, second, after)
    ensures AllStored(sha, first + second, after)
  {
  }

  /** Requests the chunks in batches of ten, up to the first that is not answered. */
  method Download(sha: Bytes -> Digest, store: BlobStore, needed: seq<Digest>, peer: Peer,
                  faults: nat -> Disturbance)
    returns (ok: bool)
    modifies store
    ensures Extends(old(View(store.disk)), View(store.disk))
    ensures old(Sound(sha, View(store.disk))) ==> Sound(sha, View(store.disk))
    ensures ok <==> Answered(needed, peer, |needed|)
    ensures OnlyFrom(sha, old(View(store.disk)), View(store.disk), AllAnswers(needed, peer, |needed|))
    ensures ok && Healthy(faults) ==> AllStored(sha, AllAnswers(needed, peer, |needed|), View(store.disk))
    ensures forall manifest :: Delivers(sha, peer, manifest) && AllFrom(needed, manifest) ==>
              ok && (Healthy(faults) ==> AllIn(needed, View(store.disk)))
  {
    ok := RequestAll(sha, store, needed, peer, faults);
    hide View, Extends, Sound, OnlyFrom, AllAnswers, AllStored, Answered, Delivers, AllFrom, AllIn;
    forall manifest | Delivers(sha, peer, manifest) && AllFrom(needed, manifest)
      ensures ok && (Healthy(faults) ==> AllIn(needed, View(store.disk)))
    {
      DeliveredAll(sha, peer, manifest, needed, View(store.disk));
    }
  }

  method RequestAll(sha: Bytes -> Digest, store: BlobStore, needed: seq<Digest>, peer: Peer,
                    faults: nat -> Disturbance)
    returns (ok: bool)
    modifies store
    ensures Extends(old(View(store.disk)), View(store.disk))
    ensures old(Sound(sha, View(store.disk))) ==> Sound(sha, View(store.disk))
    ensures ok <==> Answered(needed, peer, |needed|)
    ensures OnlyFrom(sha, old(View(store.disk)), View(store.disk), AllAnswers(needed, peer, |needed|))
    ensures ok && Healthy(faults) ==> AllStored(sha, AllAnswers(needed, peer, |needed|), View(store.disk))
  {
    hide View, Extends, Sound, OnlyFrom, AllAnswers, AllStored, Answered, Batch;
    ExtendsSelf(View(store.disk));
    OnlyFromSelf(sha, View(store.disk), AllAnswers(needed, peer, 0));
    NothingAsked(sha, needed, peer, View(store.disk));
    var i := 0;
    ghost var n := 0;
    while i < |needed|
      invariant 0 <= i <= |needed| && i == Min(10 * n, |needed|) && n <= |needed|
      invariant Answered(needed, peer, n)
      invariant Extends(old(View(store.disk)), View(store.disk))
      invariant OnlyFrom(sha, old(View(store.disk)), View(store.disk), AllAnswers(needed, peer, n))
      invariant old(Sound(sha, View(store.disk))) ==> Sound(sha, View(store.disk))
      invariant Healthy(faults) ==> AllStored(sha, AllAnswers(needed, peer, n), View(store.disk))
      decreases |needed| - i
    {
      var end := if i + BATCH_SIZE > |needed| then |needed| else i + BATCH_SIZE;
      var batch := needed[i..end];
      BatchAt(needed, n);
      var answers := peer(i, batch);
      if answers.Err? {
        Unanswered(needed, peer, n);
        AnswersGrow(sha, needed, peer, n, |needed|, old(View(store.disk)), View(store.disk));
        return false;
      }
      ghost var before := View(store.disk);
      StoreAnswers(sha, store, answers.value, faults(i));
      ExtendsThen(old(View(store.disk)), before, View(store.disk));
      NextAnswers(needed, peer, n);
      OnlyFromThen(sha, old(View(store.disk)), before, View(store.disk), AllAnswers(needed, peer, n), answers.value);
      if Healthy(faults) {
        AllStoredThen(sha, AllAnswers(needed, peer, n), answers.value, before, View(store.disk));
      }
      i, n := end, n + 1;
    }
    NoMoreAnswers(needed, peer, n, |needed|);
    return true;
  }

  lemma NothingAsked(sha: Bytes -> Digest, needed: seq<Digest>, peer: Peer, view: Chunks)
    ensures Answered(needed, peer, 0) && AllStored(sha, AllAnswers(needed, peer, 0), view)
  {
  }

  lemma BatchAt(needed: seq<Digest>, n: nat)
    requires 10 * n < |needed|
    ensures Batch(needed, n) == needed[10 * n..if 10 * n + 10 > |needed| then |needed| else 10 * n + 10]
  {
  }

  lemma Unanswered(needed: seq<Digest>, peer: Peer, n: nat)
    requires 10 * n < |needed| && peer(10 * n, Batch(needed, n)).Err?
    ensures !Answered(needed, peer, |needed|)
  {
  }

  /** Past the last batch nothing more is asked. */
  lemma {:induction false} NoMoreAnswers(needed: seq<Digest>, peer: Peer, n: nat, m: nat)
    requires |needed| <= 10 * n && n <= m && Answered(needed, peer, n)
    ensures AllAnswers(needed, peer, m) == AllAnswers(needed, peer, n) && Answered(needed, peer, m)
    decreases m - n
  {
    if n < m {
      NoMoreAnswers(needed, peer, n, m - 1);
    }
  }

  lemma {:induction false} InAllAnswers(needed: seq<Digest>, peer: Peer, k: nat, n: nat, a: Bytes)
    requires k < n && 10 * k < |needed|
    requires peer(10 * k, Batch(needed, k)).Ok? && a in peer(10 * k, Batch(needed, k)).value
    ensures a in AllAnswers(needed, peer, n)
    decreases n
  {
    if k < n - 1 {
      InAllAnswers(needed, peer, k, n - 1, a);
    }
  }

  /** A peer that delivers answers every batch, and with all its answers stored every needed chunk is there. */
  lemma DeliveredAll(sha: Bytes -> Digest, peer: Peer, manifest: Node, needed: seq<Digest>, view: Chunks)
    requires Delivers(sha, peer, manifest) && AllFrom(needed, manifest)
    ensures Answered(needed, peer, |needed|)
    ensures AllStored(sha, AllAnswers(needed, peer, |needed|), view) ==> AllIn(needed, view)
  {
    hide AllAnswers, HasChunk, Delivers, AllStored;
    forall k: nat | 10 * k < |needed| ensures peer(10 * k, Batch(needed, k)).Ok? {
      var a := DeliveredOne(sha, peer, manifest, needed, 10 * k, k);
    }
    if AllStored(sha, AllAnswers(needed, peer, |needed|), view) {
      forall i | 0 <= i < |needed| ensures needed[i] in view {
        var a := DeliveredOne(sha, peer, manifest, needed, i, i / 10);
        InAllAnswers(needed, peer, i / 10, |needed|, a);
        StoredAnswer(sha, AllAnswers(needed, peer, |needed|), view, a);
      }
    }
  }

  lemma StoredAnswer(sha: Bytes -> Digest, answers: seq<Bytes>, view: Chunks, a: Bytes)
    requires AllStored(sha, answers, view) && a in answers
    ensures sha(a) in view
  {
  }

  lemma DeliveredOne(sha: Bytes -> Digest, peer: Peer, manifest: Node, needed: seq<Digest>, i: nat, k: nat)
    returns (a: Bytes)
    requires Delivers(sha, peer, manifest) && AllFrom(needed, manifest) && 10 * k <= i < 10 * k + 10 && i < |needed|
    ensures peer(10 * k, Batch(needed, k)).Ok? && a in peer(10 * k, Batch(needed, k)).value && sha(a) == needed[i]
  {
    hide HasChunk;
    var batch := Batch(needed, k);
    assert batch[i - 10 * k] == needed[i] && needed[i] in batch;
    var answers := peer(10 * k, batch).value;
    assert Delivered(sha, answers, needed[i]);
    var j :| 0 <= j < |answers| && sha(answers[j]) == needed[i];
    a := answers[j];
  }

  lemma NextAnswers(needed: seq<Digest>, peer: Peer, n: nat)
    requires 10 * n < |needed| && peer(10 * n, Batch(needed, n)).Ok?
    ensures AllAnswers(needed, peer, n + 1) == AllAnswers(needed, peer, n) + peer(10 * n, Batch(needed, n)).value
    ensures Answered(needed, peer, n) ==> Answered(needed, peer, n + 1)
  {
  }

  lemma {:induction false} AnswersGrow(sha: Bytes -> Digest, needed: seq<Digest>, peer: Peer, n: nat, m: nat,
                                       before: Chunks, after: Chunks)
    requires n <= m && OnlyFrom(sha, before, after, AllAnswers(needed, peer, n))
    ensures OnlyFrom(sha, before, after, AllAnswers(needed, peer, m))
    decreases m - n
  {
    hide OnlyFrom;
    if n < m {
      var more := if 10 * n < |needed| && peer(10 * n, Batch(needed, n)).Ok?
                  then peer(10 * n, Batch(needed, n)).value else [];
      assert AllAnswers(needed, peer, n + 1) == AllAnswers(needed, peer, n) + more;
      OnlyFromMore(sha, before, after, AllAnswers(needed, peer, n), more);
      AnswersGrow(sha, needed, peer, n + 1, m, before, after);
    }
  }

  ghost predicate AllFrom(hashes: seq<Digest>, manifest: Node) {
    forall i :: 0 <= i < |hashes| ==> HasChunk(manifest, hashes[i])
  }

  lemma ExtendsSelf(view: Chunks)
    ensures Extends(view, view)
  {
  }

  lemma ExtendsThen(a: Chunks, b: Chunks, c: Chunks)
    requires Extends(a, b) && Extends(b, c)
    ensures Extends(a, c)
  {
  }

  // ------------------------------------------------------------------------------------------
  // Why that is enough
  // ------------------------------------------------------------------------------------------

  ghost predicate HasOutcome(log: seq<Item<Outcome>>, o: Outcome) {
    exists i :: 0 <= i < |log| && log[i].what == o
  }

  lemma HasOutcomeNext(log: seq<Item<Outcome>>, o: Outcome)
    requires log != []
    ensures HasOutcome(log, o) <==> HasOutcome(log[..|log| - 1], o) || log[|log| - 1].what == o
  {
    var init := log[..|log| - 1];
    if HasOutcome(init, o) {
      var i :| 0 <= i < |init| && init[i].what == o;
      assert log[i].what == o;
    }
    if HasOutcome(log, o) {
      var i :| 0 <= i < |log| && log[i].what == o;
      assert i < |init| ==> init[i].what == o;
    }
  }

  lemma {:induction false} InFetched(log: seq<Item<Outcome>>, y: Node)
    ensures y in Fetched(log) <==> HasOutcome(log, Fetch(y))
  {
    if log != [] {
      InFetched(log[..|log| - 1], y);
      HasOutcomeNext(log, Fetch(y));
      hide HasOutcome;
    }
  }

  lemma {:induction false} InReplaced(log: seq<Item<Outcome>>, y: Node)
    ensures y in Replaced(log) <==> HasOutcome(log, Replace(y))
  {
    if log != [] {
      InReplaced(log[..|log| - 1], y);
      HasOutcomeNext(log, Replace(y));
      hide HasOutcome;
    }
  }

  lemma {:induction false} InRemoved(log: seq<Item<Outcome>>, p: Path)
    ensures p in Removed(log) <==> Item(p, Outcome.Remove) in log
  {
    if log != [] {
      var last := |log| - 1;
      InRemoved(log[..last], p);
      assert log == log[..last] + [log[last]];
    }
  }

  lemma {:induction false} HasChunkBelow(node: Option<Node>, p: Path, h: Digest)
    requires At(node, p).Some? && HasChunk(At(node, p).value, h)
    ensures node.Some? && HasChunk(node.value, h)
    decreases p
  {
    if p != [] {
      HasChunkBelow(Child(node, p[0]), p[1..], h);
      var kids := Kids(node.value);
      var i :| 0 <= i < |kids| && kids[i] == Child(node, p[0]).value;
      assert HasChunk(node.value.children[i], h);
    }
  }

  /** Where a chunk is listed. */
  lemma {:induction false} ChunkPlace(node: Node, h: Digest) returns (p: Path)
    requires Tidy(node) && HasChunk(node, h)
    ensures At(Some(node), p).Some? && At(Some(node), p).value.File? && h in At(Some(node), p).value.chunks
    decreases node
  {
    match node
    case File(_, _, _) => p := [];
    case Dir(_, _, children) =>
      var i :| 0 <= i < |children| && HasChunk(children[i], h);
      var q := ChunkPlace(children[i], h);
      OwnChild(children, i);
      p := [children[i].name] + q;
      assert p[1..] == q;
  }

  lemma {:induction false} AtSplit(node: Option<Node>, p: Path, k: nat)
    requires k <= |p|
    ensures At(At(node, p[..k]), p[k..]) == At(node, p)
    decreases p
  {
    if k == 0 {
      assert p[..0] == [] && p[0..] == p;
    } else {
      AtSplit(Child(node, p[0]), p[1..], k - 1);
      assert p[..k][1..] == p[1..][..k - 1] && p[1..][k - 1..] == p[k..];
    }
  }

  /** The fetched and replaced nodes are subtrees of the manifest, whatever its hashes. */
  lemma OnlyFromManifest(log: seq<Item<Outcome>>, local: Node, manifest: Node, h: Digest)
    requires Grounded(log, [], Some(local), Some(manifest))
    requires AnyHasChunk(Fetched(log) + Replaced(log), h)
    ensures HasChunk(manifest, h)
  {
    var nodes := Fetched(log) + Replaced(log);
    var i :| 0 <= i < |nodes| && HasChunk(nodes[i], h);
    InFetched(log, nodes[i]);
    InReplaced(log, nodes[i]);
    assert nodes[i] in Fetched(log) || nodes[i] in Replaced(log);
    var k :| 0 <= k < |log| && (log[k].what == Fetch(nodes[i]) || log[k].what == Replace(nodes[i]));
    assert log[k].path[0..] == log[k].path;
    HasChunkBelow(Some(manifest), log[k].path, h);
  }

  /** Every chunk of the manifest that the local tree does not already list is in a fetched or replaced node. */
  lemma NothingForgotten(log: seq<Item<Outcome>>, local: Node, manifest: Node, h: Digest)
    requires Lists(log, [], Tops(Some(local), Some(manifest)), EVERYWHERE)
    requires ClashFree(Some(local), Some(manifest)) && Tidy(manifest)
    requires HasChunk(manifest, h) && !HasChunk(local, h)
    ensures AnyHasChunk(Fetched(log) + Replaced(log), h)
  {
    hide Lists, Tops;
    var l, r := Some(local), Some(manifest);
    var p := ChunkPlace(manifest, h);
    var file := At(r, p).value;
    if At(l, p).None? {
      var k := FirstMissing(l, r, p);
      TopmostIsTopVerdict(l, r, p[..k]);
      var top := At(r, p[..k]).value;
      AtSplit(r, p, k);
      HasChunkBelow(Some(top), p[k..], h);
      FetchListed(log, l, r, p[..k], top, h);
    } else {
      assert !Clash(At(l, p), At(r, p));
      if At(l, p).value.chunks == file.chunks {
        HasChunkBelow(l, p, h);
      } else {
        ReplaceListed(log, l, r, p, file, h);
      }
    }
  }

  lemma FetchListed(log: seq<Item<Outcome>>, l: Option<Node>, r: Option<Node>, p: Path, top: Node, h: Digest)
    requires Lists(log, [], Tops(l, r), EVERYWHERE) && Topmost(l, r, p) == Some(Fetch(top)) && HasChunk(top, h)
    ensures AnyHasChunk(Fetched(log) + Replaced(log), h)
  {
    hide Lists, Tops;
    OutcomeAt(log, l, r, p);
    assert Item(p, Fetch(top)) in log;
    InFetched(log, top);
    var i :| 0 <= i < |Fetched(log)| && Fetched(log)[i] == top;
    assert HasChunk((Fetched(log) + Replaced(log))[i], h);
  }

  lemma ReplaceListed(log: seq<Item<Outcome>>, l: Option<Node>, r: Option<Node>, p: Path, file: Node, h: Digest)
    requires Lists(log, [], Tops(l, r), EVERYWHERE)
    requires At(l, p).Some? && At(l, p).value.File? && At(r, p) == Some(file) && file.File?
    requires At(l, p).value.chunks != file.chunks && h in file.chunks
    ensures AnyHasChunk(Fetched(log) + Replaced(log), h)
  {
    hide Lists, Tops;
    TopmostIsTopVerdict(l, r, p);
    if p != [] {
      AncestorsExist(l, p, |p| - 1);
      AncestorsExist(r, p, |p| - 1);
    }
    OutcomeAt(log, l, r, p);
    assert Item(p, Replace(file)) in log;
    InReplaced(log, file);
    var i :| 0 <= i < |Replaced(log)| && Replaced(log)[i] == file;
    assert HasChunk((Fetched(log) + Replaced(log))[|Fetched(log)| + i], h);
  }

  /** A path to delete exists locally and not in the manifest, whatever the hashes. */
  lemma DeletesLocalOnly(log: seq<Item<Outcome>>, local: Node, manifest: Node, p: Path)
    requires Grounded(log, [], Some(local), Some(manifest)) && p in Removed(log)
    ensures At(Some(local), p).Some? && At(Some(manifest), p) == None
  {
    InRemoved(log, p);
    assert p[0..] == p;
  }
}
