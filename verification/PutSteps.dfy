/** Storing a chunk, step by step: every step can be the last before a crash. */
module PutSteps {
  import opened Bytes
  import opened ChunkPaths

  /** The files below the storage directory, by their paths in it. */
  type Disk = map<Path, Bytes>

  /** The chunks a reader of the store can see. */
  ghost function View(disk: Disk): imap<Digest, Bytes> {
    imap h: Digest | Slot(h) in disk :: disk[Slot(h)]
  }

  /** Every visible chunk is complete: its data has the hash it is filed under. */
  ghost predicate Sound(sha: Bytes -> Digest, view: imap<Digest, Bytes>) {
    forall h :: h in view ==> sha(view[h]) == h
  }

  /** Where the one running Put stands; the store lock admits one at a time. */
  datatype Phase =
    | Idle
    | Open(hash: Digest, data: Bytes, written: nat)
    | Closed(hash: Digest, data: Bytes)

  datatype Machine = Machine(disk: Disk, phase: Phase)

  datatype Step =
    | FindExisting(hash: Digest)             // the chunk is there: nothing to do
    | OpenTemp(hash: Digest, data: Bytes)    // create or truncate the temporary file
    | Write(upTo: nat)                       // some more bytes reach it
    | Close                                  // all written, flushed and closed
    | Abort                                  // an error: remove the temporary file
    | AbortUnclean                           // an error, and removing it fails too
    | Rename                                 // the temporary file becomes the chunk
    | Crash                                  // the process dies
    | Remove(hash: Digest)                   // Delete of a chunk

  /** One step, where it is possible. */
  function Do(m: Machine, s: Step): Option<Machine> {
    match s
    case FindExisting(h) => if m.phase.Idle? && Slot(h) in m.disk then Some(m) else None
    case OpenTemp(h, data) =>
      if m.phase.Idle? && Slot(h) !in m.disk
      then Some(Machine(m.disk[Temp(h) := []], Open(h, data, 0))) else None
    case Write(k) =>
      if m.phase.Open? && m.phase.written <= k <= |m.phase.data|
      then Some(Machine(m.disk[Temp(m.phase.hash) := m.phase.data[..k]], m.phase.(written := k))) else None
    case Close =>
      if m.phase.Open? && m.phase.written == |m.phase.data|
      then Some(m.(phase := Closed(m.phase.hash, m.phase.data))) else None
    case Abort => if m.phase.Idle? then None else Some(Machine(m.disk - {Temp(m.phase.hash)}, Idle))
    case AbortUnclean => if m.phase.Idle? then None else Some(m.(phase := Idle))
    case Rename =>
      if m.phase.Closed? && Temp(m.phase.hash) in m.disk
      then Some(Machine(m.disk[Slot(m.phase.hash) := m.disk[Temp(m.phase.hash)]] - {Temp(m.phase.hash)}, Idle))
      else None
    case Crash => Some(m.(phase := Idle))
    case Remove(h) => if m.phase.Idle? then Some(m.(disk := m.disk - {Slot(h)})) else None
  }

  function Run(m: Machine, steps: seq<Step>): Option<Machine> {
    if steps == [] then Some(m) else
      var last := |steps| - 1;
      match Run(m, steps[..last])
      case None => None
      case Some(m') => Do(m', steps[last])
  }

  lemma RunAppend(m: Machine, steps: seq<Step>, s: Step)
    ensures Run(m, steps + [s]) ==
            match Run(m, steps) case None => None case Some(m') => Do(m', s)
  {
    assert (steps + [s])[..|steps|] == steps;
  }

  /** Callers file chunks under their hashes. */
  ghost predicate Honest(sha: Bytes -> Digest, s: Step) {
    s.OpenTemp? ==> sha(s.data) == s.hash
  }

  ghost predicate Inv(sha: Bytes -> Digest, m: Machine) {
    && Sound(sha, View(m.disk))
    && (!m.phase.Idle? ==> Slot(m.phase.hash) !in m.disk)
    && (m.phase.Open? ==>
          && sha(m.phase.data) == m.phase.hash && m.phase.written <= |m.phase.data|
          && Temp(m.phase.hash) in m.disk && m.disk[Temp(m.phase.hash)] == m.phase.data[..m.phase.written])
    && (m.phase.Closed? ==>
          && sha(m.phase.data) == m.phase.hash
          && Temp(m.phase.hash) in m.disk && m.disk[Temp(m.phase.hash)] == m.phase.data)
  }

  // ------------------------------------------------------------------------------------------
  // What changes of the disk mean for readers
  // ------------------------------------------------------------------------------------------

  lemma ViewHas(disk: Disk, h: Digest)
    ensures h in View(disk) <==> Slot(h) in disk
  {
  }

  lemma TempInvisible(disk: Disk, h: Digest, bytes: Bytes)
    ensures View(disk[Temp(h) := bytes]) == View(disk)
    ensures View(disk - {Temp(h)}) == View(disk)
  {
    forall g: Digest ensures Temp(h) != Slot(g) { SlotsApart(h, g); }
  }

  lemma SlotVisible(disk: Disk, h: Digest, bytes: Bytes)
    ensures View(disk[Slot(h) := bytes]) == View(disk)[h := bytes]
  {
    hide Slot;
    var before, after := View(disk), View(disk[Slot(h) := bytes]);
    forall g: Digest
      ensures g in after <==> g in before || g == h
      ensures g in after ==> after[g] == if g == h then bytes else before[g]
    {
      SlotsApart(g, h);
    }
  }

  lemma SlotRemoved(disk: Disk, h: Digest)
    ensures View(disk - {Slot(h)}) == View(disk) - {h}
  {
    hide Slot;
    var before, after := View(disk), View(disk - {Slot(h)});
    forall g: Digest ensures g in after <==> g in before && g != h {
      SlotsApart(g, h);
    }
  }

  /** Every step is invisible to readers, except the rename, which makes one whole chunk appear that was not
      there before, and a removal. */
  lemma StepVisible(sha: Bytes -> Digest, m: Machine, s: Step)
    requires Inv(sha, m) && Do(m, s).Some?
    ensures var after := View(Do(m, s).value.disk);
            match s
            case Rename => m.phase.hash !in View(m.disk) && after == View(m.disk)[m.phase.hash := m.phase.data]
            case Remove(h) => after == View(m.disk) - {h}
            case _ => after == View(m.disk)
  {
    hide View;
    match s
    case OpenTemp(h, _) => TempInvisible(m.disk, h, []);
    case Write(k) => TempInvisible(m.disk, m.phase.hash, m.phase.data[..k]);
    case Abort => TempInvisible(m.disk, m.phase.hash, []);
    case Rename =>
      var h := m.phase.hash;
      ViewHas(m.disk, h);
      SlotVisible(m.disk, h, m.disk[Temp(h)]);
      TempInvisible(m.disk[Slot(h) := m.disk[Temp(h)]], h, []);
    case Remove(h) => SlotRemoved(m.disk, h);
    case _ =>
  }

  lemma StepKeepsInv(sha: Bytes -> Digest, m: Machine, s: Step)
    requires Inv(sha, m) && Do(m, s).Some? && Honest(sha, s)
    ensures Inv(sha, Do(m, s).value)
  {
    StepVisible(sha, m, s);
    hide View;
  }

  /** The crash theorem: after every run of honest Puts and removals, with errors and crashes anywhere, every
      chunk path is absent or holds complete data whose hash is its name. */
  lemma {:induction false} RunKeepsInv(sha: Bytes -> Digest, m: Machine, steps: seq<Step>)
    requires Inv(sha, m) && Run(m, steps).Some?
    requires forall i :: 0 <= i < |steps| ==> Honest(sha, steps[i])
    ensures Inv(sha, Run(m, steps).value)
  {
    if steps != [] {
      var last := |steps| - 1;
      RunKeepsInv(sha, m, steps[..last]);
      StepKeepsInv(sha, Run(m, steps[..last]).value, steps[last]);
    }
  }

  /** Chunks are immutable: over a run that does not remove it, a visible chunk stays, with the same data. */
  lemma {:induction false} RunKeepsChunk(sha: Bytes -> Digest, m: Machine, steps: seq<Step>, h: Digest)
    requires Inv(sha, m) && Run(m, steps).Some? && h in View(m.disk)
    requires m.phase.Idle?
    requires forall i :: 0 <= i < |steps| ==> Honest(sha, steps[i]) && steps[i] != Remove(h)
    ensures var m' := Run(m, steps).value;
            && h in View(m'.disk) && View(m'.disk)[h] == View(m.disk)[h]
            && (!m'.phase.Idle? ==> m'.phase.hash != h)
  {
    if steps != [] {
      var last := |steps| - 1;
      RunKeepsChunk(sha, m, steps[..last], h);
      RunKeepsInv(sha, m, steps[..last]);
      StepVisible(sha, Run(m, steps[..last]).value, steps[last]);
    }
  }

  /** A crash after any number of the steps leaves a sound store. */
  lemma CrashAnywhere(sha: Bytes -> Digest, m: Machine, steps: seq<Step>, k: nat)
    requires Inv(sha, m) && Run(m, steps).Some? && k <= |steps|
    requires forall i :: 0 <= i < |steps| ==> Honest(sha, steps[i])
    ensures var crashed := Run(m, steps[..k] + [Crash]);
            crashed.Some? && crashed.value.phase == Idle && Sound(sha, View(crashed.value.disk))
  {
    RunPrefix(m, steps, k);
    RunAppend(m, steps[..k], Crash);
    RunKeepsInv(sha, m, steps[..k]);
  }

  lemma {:induction false} RunPrefix(m: Machine, steps: seq<Step>, k: nat)
    requires Run(m, steps).Some? && k <= |steps|
    ensures Run(m, steps[..k]).Some?
    decreases |steps|
  {
    if k == |steps| {
      assert steps[..k] == steps;
    } else {
      RunPrefix(m, steps[..|steps| - 1], k);
      assert steps[..|steps| - 1][..k] == steps[..k];
    }
  }
}
