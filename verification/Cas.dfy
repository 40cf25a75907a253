/** The content-addressed store: cutting files into chunks, storing them, reading them back. */
module Cas {
  import opened Bytes
  import opened ChunkPaths
  import opened PutSteps
  import opened Readers
  import opened Splitting

  const CHUNK_SIZE: nat := 4096

  // ------------------------------------------------------------------------------------------
  // Chunks
  // ------------------------------------------------------------------------------------------

  datatype Chunk = Chunk(hash: Digest, size: nat, data: array<byte>)

  datatype ChunkRead = Next(chunk: Chunk) | NoMore | Broken

  ghost function ChunksOf(file: Bytes): seq<Bytes> {
    Split(file, CHUNK_SIZE)
  }

  /** The chunk hashes of a file, in order: what a tree node or a manifest lists for it. */
  ghost function HashesOf(sha: Bytes -> Digest, chunks: seq<Bytes>): (r: seq<Digest>)
    ensures |r| == |chunks|
  {
    seq(|chunks|, i requires 0 <= i < |chunks| => sha(chunks[i]))
  }

  lemma HashesAppend(sha: Bytes -> Digest, chunks: seq<Bytes>, chunk: Bytes)
    ensures HashesOf(sha, chunks + [chunk]) == HashesOf(sha, chunks) + [sha(chunk)]
  {
  }

  /** All chunks are full but the last, which is not empty, and together they are the file. */
  lemma ChunkSizes(file: Bytes)
    ensures Join(ChunksOf(file)) == file
    ensures |ChunksOf(file)| == (|file| + 4095) / 4096
    ensures forall i :: 0 <= i < |ChunksOf(file)| ==>
              && 1 <= |ChunksOf(file)[i]| <= 4096
              && (i < |ChunksOf(file)| - 1 ==> |ChunksOf(file)[i]| == 4096)
  {
    JoinSplit(file, CHUNK_SIZE);
    SplitAt(file, CHUNK_SIZE);
    forall i | 0 <= i < |ChunksOf(file)| - 1 ensures |ChunksOf(file)[i]| == CHUNK_SIZE {
      assert (i + 1) * CHUNK_SIZE < |file|;
    }
  }

  /** Reads the next chunk through a pooled buffer. The chunk gets storage of its own: only the buffer and
      the reader change. */
  method NextChunk(sha: Bytes -> Digest, r: Reader, pooled: array<byte>) returns (result: ChunkRead)
    requires r.Valid() && pooled.Length == CHUNK_SIZE
    modifies r, pooled
    ensures r.Valid()
    ensures result.Next? ==>
              && old(r.pos) < r.pos == Min(|r.data|, old(r.pos) + CHUNK_SIZE)
              && fresh(result.chunk.data) && result.chunk.data[..] == r.data[old(r.pos)..r.pos]
              && result.chunk.hash == sha(result.chunk.data[..])
              && result.chunk.size == result.chunk.data.Length
    ensures result.NoMore? <==> old(r.pos) == |r.data| && !r.fails
    ensures result.Broken? <==> r.fails && old(r.pos) + CHUNK_SIZE > |r.data|
  {
    var n, status := r.ReadFull(pooled);
    if status == NothingLeft {
      return NoMore;
    }
    if status == ReadError {
      return Broken;
    }
    var data := new byte[n](i requires 0 <= i < n <= pooled.Length reads pooled => pooled[i]);
    assert data[..] == pooled[..n];
    return Next(Chunk(sha(pooled[..n]), n, data));
  }

  /** `blocks` are the chunks of the file up to `pos`. */
  ghost predicate ReadSoFar(blocks: seq<Bytes>, file: Bytes, pos: nat) {
    pos <= |file| && blocks + ChunksOf(file[pos..]) == ChunksOf(file)
  }

  lemma ReadMore(blocks: seq<Bytes>, file: Bytes, pos: nat)
    requires ReadSoFar(blocks, file, pos)
    ensures pos < |file| ==>
              var next := Min(|file|, pos + CHUNK_SIZE);
              ReadSoFar(blocks + [file[pos..next]], file, next)
    ensures pos == |file| ==> blocks == ChunksOf(file)
  {
    if pos < |file| {
      SplitNext(file, pos, CHUNK_SIZE);
    } else {
      assert file[pos..] == [];
    }
  }

  lemma ReadNothing(file: Bytes)
    ensures ReadSoFar([], file, 0)
  {
    assert file[0..] == file;
  }

  /** Chunk `k` of the list is block `k` of the file, in storage apart from the buffer. */
  ghost predicate Holds(sha: Bytes -> Digest, chunks: seq<Chunk>, blocks: seq<Bytes>, pooled: array<byte>)
    reads set c | c in chunks :: c.data
  {
    && |chunks| == |blocks|
    && forall k :: 0 <= k < |chunks| ==>
         && chunks[k].data != pooled && chunks[k].data[..] == blocks[k] && chunks[k].hash == sha(blocks[k])
  }

  /** Reads all chunks of a file. Later reads through the pooled buffer leave earlier chunks as they were. */
  method ChunkAll(sha: Bytes -> Digest, r: Reader, pooled: array<byte>) returns (result: Result<seq<Chunk>>)
    requires r.Valid() && r.pos == 0 && pooled.Length == CHUNK_SIZE
    modifies r, pooled
    ensures result.Ok? <==> !r.fails
    ensures result.Ok? ==> Holds(sha, result.value, ChunksOf(r.data), pooled)
  {
    var chunks: seq<Chunk> := [];
    ghost var blocks: seq<Bytes> := [];
    ReadNothing(r.data);
    hide ReadSoFar, ChunksOf;
    while true
      invariant r.Valid()
      invariant forall k :: 0 <= k < |chunks| ==> fresh(chunks[k].data)
      invariant Holds(sha, chunks, blocks, pooled)
      invariant ReadSoFar(blocks, r.data, r.pos)
      decreases |r.data| - r.pos
    {
      ReadMore(blocks, r.data, r.pos);
      var next := NextChunk(sha, r, pooled);
      match next
      case NoMore =>
        return Ok(chunks);
      case Broken =>
        return Err;
      case Next(chunk) =>
        chunks := chunks + [chunk];
        blocks := blocks + [chunk.data[..]];
    }
  }

  // ------------------------------------------------------------------------------------------
  // The store
  // ------------------------------------------------------------------------------------------

  /** What goes wrong on the disk during one Put, and how much had been written by then. After an error the
      temporary file is removed, which may fail too. */
  datatype Faults = Faults(mkdir: bool, open: bool, write: bool, written: nat, rename: bool, remove: bool)

  const NO_FAULTS := Faults(false, false, false, 0, false, false)

  class BlobStore {
    var disk: Disk

    constructor ()
      ensures disk == map[]
    {
      disk := map[];
    }

    /** A store over the files that are in its directory. */
    constructor Open(disk: Disk)
      ensures this.disk == disk
    {
      this.disk := disk;
    }

    /** Stores a chunk under `h`; true if it was written, false if it was there. Readers see either nothing
        of it or all of it, and what happens on the disk is a run of the step machine, so that a crash
        between any two steps is covered by its theorems. */
    method Put(h: Digest, data: Bytes, faults: Faults) returns (r: Result<bool>, ghost steps: seq<Step>)
      modifies this
      ensures r.Ok? && !r.value <==> h in old(View(disk))
      ensures View(disk) == if r.Ok? && r.value then old(View(disk))[h := data] else old(View(disk))
      ensures faults == NO_FAULTS ==> r.Ok?
      ensures Run(Machine(old(disk), Idle), steps) == Some(Machine(disk, Idle))
      ensures forall s :: s in steps ==> s.OpenTemp? ==> s == OpenTemp(h, data)
    {
      hide View, Slot, Temp;
      var path := Slot(h);
      ViewHas(disk, h);
      if path in disk {
        steps := [FindExisting(h)];
        RunOne(Machine(disk, Idle), FindExisting(h));
        return Ok(false), steps;
      }
      if faults.mkdir || faults.open {
        return Err, [];
      }
      r, steps := WriteTemp(h, data, faults);
    }

    /** The chunk is not there yet: write the temporary file, then rename it. */
    method WriteTemp(h: Digest, data: Bytes, faults: Faults) returns (r: Result<bool>, ghost steps: seq<Step>)
      requires Slot(h) !in disk
      modifies this
      ensures r == if faults.write || faults.rename then Err else Ok(true)
      ensures View(disk) == if r.Ok? then old(View(disk))[h := data] else old(View(disk))
      ensures Temp(h) in disk ==> r.Err? && faults.remove
      ensures Run(Machine(old(disk), Idle), steps) == Some(Machine(disk, Idle))
      ensures forall s :: s in steps ==> s.OpenTemp? ==> s == OpenTemp(h, data)
    {
      hide View, Slot, Temp;
      ghost var start := Machine(disk, Idle);
      var tmpPath := Temp(h);
      disk := disk[tmpPath := []];
      TempInvisible(start.disk, h, []);
      var n := if faults.write then Min(faults.written, |data|) else |data|;
      ghost var emptied := disk;
      disk := disk[tmpPath := data[..n]];
      TempInvisible(emptied, h, data[..n]);
      steps := [OpenTemp(h, data), Write(n)];
      RunTwo(start, steps[0], steps[1]);
      ghost var written := disk;
      if faults.write {
        steps := CleanUp(start, steps, h, faults);
        return Err, steps;
      }
      assert data[..n] == data;
      RunAppend(start, steps, Close);
      steps := steps + [Close];
      if faults.rename {
        steps := CleanUp(start, steps, h, faults);
        return Err, steps;
      }
      SlotsApart(h, h);
      disk := disk[Slot(h) := disk[tmpPath]] - {tmpPath};
      SlotVisible(written, h, data);
      TempInvisible(written[Slot(h) := data], h, []);
      RunAppend(start, steps, Rename);
      return Ok(true), steps + [Rename];
    }

    /** After an error: the temporary file goes, unless removing it fails as well. */
    method CleanUp(ghost start: Machine, ghost steps: seq<Step>, h: Digest, faults: Faults)
      returns (ghost steps': seq<Step>)
      requires exists phase :: Run(start, steps) == Some(Machine(disk, phase)) && !phase.Idle? && phase.hash == h
      modifies this
      ensures View(disk) == old(View(disk))
      ensures Temp(h) in disk ==> faults.remove
      ensures Run(start, steps') == Some(Machine(disk, Idle))
      ensures forall s :: s in steps' ==> s in steps || !s.OpenTemp?
    {
      hide View, Slot, Temp;
      TempInvisible(disk, h, []);
      if faults.remove {
        steps' := steps + [AbortUnclean];
        RunAppend(start, steps, AbortUnclean);
      } else {
        disk := disk - {Temp(h)};
        steps' := steps + [Abort];
        RunAppend(start, steps, Abort);
      }
    }

    method Get(h: Digest) returns (r: Result<Bytes>)
      ensures r.Ok? <==> h in View(disk)
      ensures r.Ok? ==> r.value == View(disk)[h]
    {
      r := if Slot(h) in disk then Ok(disk[Slot(h)]) else Err;
    }

    predicate Has(h: Digest)
      reads this
      ensures Has(h) <==> h in View(disk)
    {
      Slot(h) in disk
    }

    /** Whether the stored chunk is there and has its hash. */
    predicate Verify(sha: Bytes -> Digest, h: Digest)
      reads this
      ensures Verify(sha, h) <==> h in View(disk) && sha(View(disk)[h]) == h
    {
      Slot(h) in disk && sha(disk[Slot(h)]) == h
    }

    method Delete(h: Digest)
      modifies this
      ensures View(disk) == old(View(disk)) - {h}
    {
      SlotRemoved(disk, h);
      disk := disk - {Slot(h)};
    }

    /** Walks the storage directory and reports, by hex name, the chunks that fail verification. Files that
        are temporary or whose path does not spell a hash are skipped. */
    method VerifyAll(sha: Bytes -> Digest) returns (corrupted: set<Name>)
      ensures forall h: Digest :: h in View(disk) && sha(View(disk)[h]) != h ==> Hex(h) in corrupted
      ensures forall name :: name in corrupted ==>
                exists path :: path in disk && !IsTemp(path) && name == SpelledHash(path)
                            && Unhex(name).Some? && !VerifyBytes(sha, Unhex(name).value)
    {
      corrupted := {};
      var todo := disk.Keys;
      while todo != {}
        invariant todo <= disk.Keys
        invariant forall path :: path in disk.Keys - todo && Suspicious(sha, path) ==>
                    SpelledHash(path) in corrupted
        invariant forall name :: name in corrupted ==>
                    exists path :: path in disk && Suspicious(sha, path) && name == SpelledHash(path)
        decreases todo
      {
        var path :| path in todo;
        if Suspicious(sha, path) {
          corrupted := corrupted + {SpelledHash(path)};
        }
        todo := todo - {path};
      }
      forall h: Digest | h in View(disk) && sha(View(disk)[h]) != h
        ensures Hex(h) in corrupted
      {
        SlotReads(h);
        HexRoundTrip(h);
        assert Suspicious(sha, Slot(h));
      }
    }

    /** Verification by a decoded hash, which may have any length; only 32-byte ones can match. */
    predicate VerifyBytes(sha: Bytes -> Digest, hash: Bytes)
      reads this
    {
      var path := ChunkPath(Hex(hash));
      path in disk && sha(disk[path]) == hash
    }

    predicate Suspicious(sha: Bytes -> Digest, path: Path)
      reads this
    {
      !IsTemp(path) &&
      var hash := Unhex(SpelledHash(path));
      hash.Some? && !VerifyBytes(sha, hash.value)
    }
  }

  lemma RunOne(m: Machine, s: Step)
    ensures Run(m, [s]) == Do(m, s)
  {
    RunAppend(m, [], s);
    assert [] + [s] == [s];
  }

  lemma RunTwo(m: Machine, s: Step, t: Step)
    ensures Run(m, [s, t]) == match Do(m, s) case None => None case Some(m') => Do(m', t)
  {
    RunOne(m, s);
    RunAppend(m, [s], t);
    assert [s] + [t] == [s, t];
  }

  // ------------------------------------------------------------------------------------------
  // Storing and restoring a file
  // ------------------------------------------------------------------------------------------

  /** What one can read back: nothing lost, nothing changed, and the listed chunks present. */
  ghost predicate Extends(before: imap<Digest, Bytes>, after: imap<Digest, Bytes>) {
    forall h :: h in before ==> h in after && after[h] == before[h]
  }

  ghost predicate AllIn(hashes: seq<Digest>, view: imap<Digest, Bytes>) {
    forall i :: 0 <= i < |hashes| ==> hashes[i] in view
  }

  /** Storing one more correctly hashed chunk. */
  lemma PutKeeps(sha: Bytes -> Digest, start: imap<Digest, Bytes>, before: imap<Digest, Bytes>,
                 after: imap<Digest, Bytes>, data: Bytes, stored: seq<Digest>)
    requires after == if sha(data) in before then before else before[sha(data) := data]
    requires Extends(start, before) && AllIn(stored, before)
    ensures Extends(start, after) && AllIn(stored + [sha(data)], after)
    ensures Sound(sha, before) ==> Sound(sha, after)
  {
  }

  /** Cuts a stream into chunks and stores them all; `faults` are the disk's, chunk by chunk. */
  method StoreReader(sha: Bytes -> Digest, store: BlobStore, r: Reader, pooled: array<byte>, faults: nat -> Faults)
    returns (result: Result<seq<Digest>>)
    requires r.Valid() && r.pos == 0 && pooled.Length == CHUNK_SIZE
    modifies store, r, pooled
    ensures Extends(old(View(store.disk)), View(store.disk))
    ensures old(Sound(sha, View(store.disk))) ==> Sound(sha, View(store.disk))
    ensures result.Ok? ==> result.value == HashesOf(sha, ChunksOf(r.data)) && AllIn(result.value, View(store.disk))
    ensures !r.fails && (forall i :: faults(i) == NO_FAULTS) ==> result.Ok?
  {
    hide View;
    var stored: seq<Digest> := [];
    assert Extends(View(store.disk), View(store.disk)) && AllIn(stored, View(store.disk));
    hide Extends, AllIn, Sound;
    ghost var blocks: seq<Bytes> := [];
    ReadNothing(r.data);
    hide ReadSoFar, ChunksOf;
    while true
      invariant r.Valid()
      invariant Extends(old(View(store.disk)), View(store.disk))
      invariant old(Sound(sha, View(store.disk))) ==> Sound(sha, View(store.disk))
      invariant stored == HashesOf(sha, blocks) && AllIn(stored, View(store.disk))
      invariant ReadSoFar(blocks, r.data, r.pos)
      decreases |r.data| - r.pos
    {
      ReadMore(blocks, r.data, r.pos);
      var next := NextChunk(sha, r, pooled);
      match next
      case NoMore =>
        return Ok(stored);
      case Broken =>
        return Err;
      case Next(chunk) =>
        var data := chunk.data[..];
        ghost var before := View(store.disk);
        var put, _ := store.Put(chunk.hash, data, faults(|stored|));
        if put.Err? {
          return Err;
        }
        PutKeeps(sha, old(View(store.disk)), before, View(store.disk), data, stored);
        HashesAppend(sha, blocks, data);
        stored := stored + [chunk.hash];
        blocks := blocks + [data];
    }
  }

  /** The stored data of a list of chunks, in order. */
  ghost function Restore(view: imap<Digest, Bytes>, hashes: seq<Digest>): Option<Bytes> {
    if hashes == [] then Some([]) else
      var last := |hashes| - 1;
      if hashes[last] !in view then None else
        match Restore(view, hashes[..last])
        case None => None
        case Some(before) => Some(before + view[hashes[last]])
  }

  /** No stored chunk and no chunk of the file have the same hash but different data. */
  ghost predicate Distinguished(sha: Bytes -> Digest, view: imap<Digest, Bytes>, chunks: seq<Bytes>) {
    forall h, i :: h in view && 0 <= i < |chunks| && sha(view[h]) == sha(chunks[i]) ==> view[h] == chunks[i]
  }

  lemma {:induction false} RestoreChunks(sha: Bytes -> Digest, view: imap<Digest, Bytes>, chunks: seq<Bytes>)
    requires Sound(sha, view) && Distinguished(sha, view, chunks)
    requires AllIn(HashesOf(sha, chunks), view)
    ensures Restore(view, HashesOf(sha, chunks)) == Some(Join(chunks))
  {
    if chunks != [] {
      var last := |chunks| - 1;
      var hashes := HashesOf(sha, chunks);
      assert hashes[..last] == HashesOf(sha, chunks[..last]);
      forall i | 0 <= i < last ensures HashesOf(sha, chunks[..last])[i] in view {
        assert hashes[i] in view;
      }
      RestoreChunks(sha, view, chunks[..last]);
      assert chunks == chunks[..last] + [chunks[last]];
      JoinAppend(chunks[..last], chunks[last]);
      assert hashes[last] in view && sha(view[hashes[last]]) == sha(chunks[last]);
    }
  }

  /** The store round trip: the hashes a file was stored under read back as the file, in every later store
      that still holds them soundly. */
  lemma RestoreFile(sha: Bytes -> Digest, view: imap<Digest, Bytes>, file: Bytes)
    requires Sound(sha, view) && Distinguished(sha, view, ChunksOf(file))
    requires AllIn(HashesOf(sha, ChunksOf(file)), view)
    ensures Restore(view, HashesOf(sha, ChunksOf(file))) == Some(file)
  {
    RestoreChunks(sha, view, ChunksOf(file));
    ChunkSizes(file);
  }
}
