/** The logger: appending, repairing, rotating and recovering, with every system
    call free to fail and the process free to stop at each of them. */
module AuditLogger {
  import opened Basics
  import opened AuditDirectory
  import opened AuditLines
  import opened AuditReplay
  import opened AuditGaps
  import opened AuditRotation
  import opened AuditLog

  /** `Stopped` is the end of the process: callers do nothing further. */
  datatype Outcome = Done | Failed | Stopped

  const SCAN_BYTES: nat := 4096

  /** The last position of `b` in `s`, or -1. */
  function LastIndexByte(s: Bytes, b: Byte): (i: int)
    ensures -1 <= i < |s|
    ensures i >= 0 ==> s[i] == b
    ensures forall j :: i < j < |s| ==> s[j] != b
  {
    if s == [] then -1
    else if s[|s| - 1] == b then |s| - 1
    else LastIndexByte(s[..|s| - 1], b)
  }

  /** Only backups beyond the count may be gone, and files keep their names. */
  ghost predicate Spares(before: Directory, after: Directory, backups: nat) {
    && (forall n :: n in after.names ==> n in before.names && after.names[n] == before.names[n])
    && (forall n :: n in before.names && !(n.Canonical? && n.index > backups) ==> n in after.names)
  }

  lemma SparesMore(before: Directory, after: Directory, backups: nat, index: nat)
    requires Spares(before, after, backups) && index > backups
    ensures Spares(before, after.Removed(Canonical(index)), backups)
  {
  }

  /** The last newline of a chunk, as a place in the file. */
  lemma LastOfChunk(content: Bytes, start: nat, end: nat, index: int)
    requires start <= end <= |content| && index == LastIndexByte(content[start..end], NEWLINE)
    ensures index >= 0 ==> content[start + index] == NEWLINE
    ensures forall j :: start + index < j < end ==> content[j] != NEWLINE
  {
    var chunk := content[start..end];
    forall j | start + index < j < end ensures content[j] != NEWLINE {
      assert content[j] == chunk[j - start];
    }
  }

  /** The entry was added at most once, and surely if `surely`. */
  ghost predicate AtMostOnce(before: seq<Entry>, after: seq<Entry>, e: Entry, surely: bool) {
    after == before + [e] || (after == before && !surely)
  }

  class Logger {
    /** The audit directory, which outlives the process. */
    var dir: Directory
    var dirSyncPending: bool
    const maxBytes: nat
    const backups: nat

    /** The calls that failed so far, and the stops. */
    ghost var faults: nat
    /** The rotation in flight, or the idle plan, and whether it was published. */
    ghost var plan: Plan
    ghost var published: bool
    /** The history of the plan's starting directory, and the history by now. */
    ghost var base: seq<Entry>
    ghost var history: seq<Entry>

    ghost predicate Flying()
      reads `dir, `plan, `published
    {
      InFlight(plan, published, dir)
    }

    ghost function View(): View
      reads `history
    {
      Replay(history)
    }

    ghost predicate Valid()
      reads `dir, `plan, `published, `base, `history
    {
      backups <= MAX_BACKUPS && Keeping(plan, published, dir, base, history)
    }

    /** The log takes no more files than this logger keeps. */
    ghost predicate Fits()
      reads `history
    {
      |Replay(history)| <= backups + 1
    }

    /** A settled directory: nothing is in flight and the current file is whole. */
    ghost predicate Holding()
      reads `dir, `history
    {
      dir.Quiet() && Whole(dir) && Represents(dir, Replay(history)) && AreLines(Records(history))
    }

    constructor (maxBytes: nat, backups: nat, disk: Directory)
      requires backups <= MAX_BACKUPS
      requires disk.names == map[] && disk.WellFormed()
      ensures Valid() && Fits() && history == [] && faults == 0
      ensures this.maxBytes == maxBytes && this.backups == backups && dir == disk
    {
      this.maxBytes := maxBytes;
      this.backups := backups;
      this.dir := disk;
      this.dirSyncPending := false;
      this.faults := 0;
      this.plan := Idle(disk);
      this.published := false;
      this.base := [];
      this.history := [];
      new;
      IdleInFlight(disk);
    }

    /** Another process, which finds the directory as the last one left it. */
    constructor Next(maxBytes: nat, backups: nat, last: Logger)
      requires backups <= MAX_BACKUPS && last.Valid()
      ensures Valid() && history == last.history && faults == last.faults && dir == last.dir
      ensures this.maxBytes == maxBytes && this.backups == backups
    {
      this.maxBytes := maxBytes;
      this.backups := backups;
      this.dir := last.dir;
      this.dirSyncPending := false;
      this.faults := last.faults;
      this.plan := last.plan;
      this.published := last.published;
      this.base := last.base;
      this.history := last.history;
    }

    // ---------- System calls ----------

    /** What the environment answers to one call: whether it succeeds, fails or
        never returns, and if it does not succeed, whether it took effect. */
    method Environment() returns (o: Outcome, took: bool)
      modifies `faults
      ensures o.Done? ==> took && faults == old(faults)
      ensures !o.Done? ==> faults == old(faults) + 1
    {
      o := *;
      took := *;
      if o.Done? {
        took := true;
      } else {
        faults := faults + 1;
      }
    }

    method SyncMetadata() returns (o: Outcome)
      modifies `faults, `dirSyncPending
      ensures o.Done? && dirSyncPending ==> old(dirSyncPending)
      ensures faults >= old(faults)
      ensures !o.Done? <==> faults > old(faults)
      ensures o.Done? ==> !dirSyncPending
      ensures o.Failed? ==> dirSyncPending
    {
      var took;
      o, took := Environment();
      if !o.Stopped? {
        dirSyncPending := o.Failed?;
      }
    }

    method Inspect(n: Name) returns (o: Outcome, exists_: bool)
      modifies `faults
      ensures faults >= old(faults)
      ensures !o.Done? <==> faults > old(faults)
      ensures o.Done? ==> (exists_ <==> n in dir.names)
    {
      var took;
      o, took := Environment();
      exists_ := n in dir.names;
    }

    method LinkMetadata(from: Name, to: Name) returns (o: Outcome)
      modifies `dir, `faults, `dirSyncPending
      ensures o.Done? && dirSyncPending ==> old(dirSyncPending)
      ensures dir == old(dir) || (old(dir).CanLink(from, to) && dir == old(dir).Linked(from, to))
      ensures o.Done? ==> old(dir).CanLink(from, to) && dir == old(dir).Linked(from, to)
      ensures faults >= old(faults) && (o.Done? ==> faults == old(faults))
      ensures faults == old(faults) && old(dir).CanLink(from, to) ==> o.Done?
    {
      if !dir.CanLink(from, to) {
        return Failed;
      }
      var took;
      o, took := Environment();
      if took {
        dir := dir.Linked(from, to);
      }
      if o.Done? {
        o := SyncMetadata();
      }
    }

    method RenameMetadata(from: Name, to: Name) returns (o: Outcome)
      modifies `dir, `faults, `dirSyncPending
      ensures o.Done? && dirSyncPending ==> old(dirSyncPending)
      ensures dir == old(dir) || (from in old(dir).names && dir == old(dir).Renamed(from, to))
      ensures o.Done? ==> from in old(dir).names && dir == old(dir).Renamed(from, to)
      ensures faults >= old(faults) && (o.Done? ==> faults == old(faults))
      ensures faults == old(faults) && from in old(dir).names ==> o.Done?
    {
      if from !in dir.names {
        return Failed;
      }
      var took;
      o, took := Environment();
      if took {
        dir := dir.Renamed(from, to);
      }
      if o.Done? {
        o := SyncMetadata();
      }
    }

    /** The publishing rename: unlike the others, one that reports failure had
        no effect. */
    method RenamePublish(from: Name, to: Name) returns (o: Outcome, took: bool)
      modifies `dir, `faults
      ensures took ==> from in old(dir).names && dir == old(dir).Renamed(from, to)
      ensures !took ==> dir == old(dir)
      ensures o.Done? ==> took
      ensures o.Failed? ==> !took
      ensures faults >= old(faults) && (o.Done? ==> faults == old(faults))
      ensures faults == old(faults) && from in old(dir).names ==> o.Done?
    {
      if from !in dir.names {
        return Failed, false;
      }
      o, took := Environment();
      took := took && !o.Failed?;
      if took {
        dir := dir.Renamed(from, to);
      }
    }

    method RemoveMetadataIfExists(n: Name) returns (o: Outcome)
      modifies `dir, `faults, `dirSyncPending
      ensures o.Done? && dirSyncPending ==> old(dirSyncPending)
      ensures dir == old(dir) || (n in old(dir).names && dir == old(dir).Removed(n))
      ensures o.Done? ==> n !in dir.names
      ensures faults >= old(faults) && (o.Done? ==> faults == old(faults))
      ensures faults == old(faults) ==> o.Done?
    {
      var present, took;
      o, present := Inspect(n);
      if !o.Done? || !present {
        return;
      }
      o, took := Environment();
      if took {
        dir := dir.Removed(n);
      }
      if o.Done? {
        o := SyncMetadata();
      }
    }

    method CreateEmptyMetadataFile(n: Name) returns (o: Outcome)
      modifies `dir, `faults, `dirSyncPending
      ensures o.Done? && dirSyncPending ==> old(dirSyncPending)
      ensures dir == old(dir) || (n !in old(dir).names && dir == old(dir).Created(n))
      ensures o.Done? ==> n !in old(dir).names && dir == old(dir).Created(n)
      ensures faults >= old(faults) && (o.Done? ==> faults == old(faults))
      ensures faults == old(faults) && n !in old(dir).names ==> o.Done?
    {
      if n in dir.names {
        return Failed;
      }
      var took;
      o, took := Environment();
      if took {
        dir := dir.Created(n);
      }
      if o.Done? {
        o := Touch();  // set the mode and close
      }
      if o.Done? {
        o := SyncMetadata();
      }
    }

    /** Each write appends some of what it was given, and may report an error
        although it did; the loop goes on until all is written. */
    method WriteAll(i: Inode, data: Bytes) returns (o: Outcome, ghost k: nat)
      requires i in dir.files
      modifies `dir, `faults
      ensures k <= |data|
      ensures dir == old(dir).Stored(i, old(dir).files[i] + data[..k])
      ensures o.Done? ==> k == |data|
      ensures faults >= old(faults) && (o.Done? ==> faults == old(faults))
      ensures faults == old(faults) ==> o.Done?
    {
      o, k := Done, 0;
      var rest := data;
      assert dir == old(dir).Stored(i, old(dir).files[i] + data[..0]) by {
        assert old(dir).files[i] + data[..0] == old(dir).files[i];
        assert dir.files[i := dir.files[i]] == dir.files;
      }
      while |rest| > 0
        invariant k <= |data| && rest == data[k..]
        invariant dir == old(dir).Stored(i, old(dir).files[i] + data[..k])
        invariant faults == old(faults) && o.Done?
        decreases |rest|
      {
        var took;
        o, took := Environment();
        var written :| 0 <= written <= |rest|;
        assert data[..k] + rest[..written] == data[..k + written];
        assert old(dir).files[i] + data[..k + written] == dir.files[i] + rest[..written];
        dir := dir.Stored(i, dir.files[i] + rest[..written]);
        k := k + written;
        if o.Done? && written == 0 {
          o, faults := Failed, faults + 1;  // a short write without an error
        }
        if !o.Done? {
          return;
        }
        rest := rest[written..];
      }
    }

    method Truncate(i: Inode, size: nat) returns (o: Outcome)
      requires i in dir.files && size <= |dir.files[i]|
      modifies `dir, `faults
      ensures dir == old(dir) || dir == old(dir).Stored(i, old(dir).files[i][..size])
      ensures o.Done? ==> dir == old(dir).Stored(i, old(dir).files[i][..size])
      ensures faults >= old(faults) && (o.Done? ==> faults == old(faults))
      ensures faults == old(faults) ==> o.Done?
    {
      var took;
      o, took := Environment();
      if took {
        dir := dir.Stored(i, dir.files[i][..size]);
      }
    }

    /** A read, a sync, a stat or a close: it changes no name and no byte. */
    method Touch() returns (o: Outcome)
      modifies `faults
      ensures faults >= old(faults)
      ensures !o.Done? <==> faults > old(faults)
    {
      var took;
      o, took := Environment();
    }

    // ---------- Rotation ----------

    method CreateRotationNewFile(line: Bytes, durable: bool) returns (o: Outcome, ghost content: Bytes)
      modifies `dir, `faults, `dirSyncPending
      ensures o.Done? && dirSyncPending ==> old(dirSyncPending)
      ensures dir == old(dir)
              || (New !in old(dir).names && dir == old(dir).Created(New).Stored(old(dir).next, content))
      ensures o.Done? ==> New !in old(dir).names
                          && dir == old(dir).Created(New).Stored(old(dir).next, content) && content == line
      ensures faults >= old(faults) && (o.Done? ==> faults == old(faults))
      ensures faults == old(faults) && New !in old(dir).names ==> o.Done?
    {
      content := [];
      if New in dir.names {
        return Failed, [];
      }
      var took;
      o, took := Environment();
      if took {
        dir := dir.Created(New);
        assert dir.files[old(dir).next := []] == dir.files;
      }
      if !o.Done? {
        return;
      }
      o := Touch();
      if !o.Done? {
        return;
      }
      ghost var k;
      o, k := WriteAll(dir.names[New], line);
      content := line[..k];
      assert [] + line[..k] == line[..k];
      if !o.Done? {
        return;
      }
      if durable {
        o := Touch();
        if !o.Done? {
          return;
        }
      }
      o := Touch();
      if o.Done? {
        o := SyncMetadata();
      }
    }

    method StageSources(present: seq<bool>) returns (o: Outcome)
      requires Flying() && !published && StagedBelow(plan, dir, 0) && |present| == plan.limit + 1
      requires forall i :: 0 <= i < |present| ==> (present[i] <==> plan.before.Slot(i).Some?)
      modifies `dir, `faults, `dirSyncPending
      ensures o.Done? && dirSyncPending ==> old(dirSyncPending)
      ensures Flying() && Restored(plan, dir)
      ensures o.Done? ==> StagedBelow(plan, dir, plan.limit + 1)
      ensures faults >= old(faults) && (o.Done? ==> faults == old(faults))
      ensures faults == old(faults) ==> o.Done?
    {
      o := Done;
      var index := 0;
      while index < |present|
        invariant index <= |present| && o.Done?
        invariant StagedBelow(plan, dir, index)
        invariant faults == old(faults)
        invariant dirSyncPending ==> old(dirSyncPending)
      {
        if present[index] {
          SourceStaged(plan, dir, index);
          o := LinkMetadata(Canonical(index), Source(index));
        } else {
          MissingStaged(plan, dir, index);
          o := CreateEmptyMetadataFile(Missing(index));
        }
        if !o.Done? {
          return;
        }
        index := index + 1;
      }
    }

    method PrepareRotation(present: seq<bool>, line: Bytes, durable: bool) returns (o: Outcome)
      requires Flying() && !published && dir.Quiet() && Restored(plan, dir)
      requires |present| == plan.limit + 1 && line == plan.line
      requires forall i :: 0 <= i < |present| ==> (present[i] <==> plan.before.Slot(i).Some?)
      modifies `dir, `faults, `dirSyncPending
      ensures o.Done? && dirSyncPending ==> old(dirSyncPending)
      ensures Flying() && Restored(plan, dir)
      ensures o.Done? ==> ShiftedAbove(plan, dir, plan.limit)
      ensures faults >= old(faults) && (o.Done? ==> faults == old(faults))
      ensures faults == old(faults) ==> o.Done?
    {
      MarkerCreated(plan, dir);
      o := CreateEmptyMetadataFile(Marker);
      if !o.Done? {
        return;
      }
      o := StageSources(present);
      if !o.Done? {
        return;
      }
      ghost var content;
      ghost var staged := dir;
      o, content := CreateRotationNewFile(line, durable);
      NewStaged(plan, staged, content);
      if !o.Done? {
        return;
      }
      ProofLinked(plan, dir);
      o := LinkMetadata(New, Proof);
    }

    method ShiftSlot(target: nat) returns (o: Outcome)
      requires Flying() && !published && 0 < target <= plan.limit && ShiftedAbove(plan, dir, target)
      modifies `dir, `faults, `dirSyncPending
      ensures o.Done? && dirSyncPending ==> old(dirSyncPending)
      ensures FullyStaged(plan, dir)
      ensures o.Done? ==> ShiftedAbove(plan, dir, target - 1)
      ensures faults >= old(faults) && (o.Done? ==> faults == old(faults))
      ensures faults == old(faults) ==> o.Done?
    {
      var exists_;
      o, exists_ := Inspect(Source(target - 1));
      if !o.Done? {
        return;
      }
      if exists_ {
        ShiftLinked(plan, dir, target);
        o := LinkMetadata(Source(target - 1), Work(target));
        if !o.Done? {
          return;
        }
        ShiftRenamed(plan, dir, target);
        o := RenameMetadata(Work(target), Canonical(target));
      } else {
        GapShifted(plan, dir, target);
        o := RemoveMetadataIfExists(Canonical(target));
      }
    }

    /** Publishes the staged rotation.  `took` tells whether the commit rename
        happened, which is what decides between the two outcomes. */
    method ApplyRotation(limit: nat) returns (o: Outcome, took: bool)
      requires Flying() && !published && limit == plan.limit && ShiftedAbove(plan, dir, limit)
      modifies `dir, `faults, `dirSyncPending
      ensures o.Done? && dirSyncPending ==> old(dirSyncPending)
      ensures InFlight(plan, took, dir)
      ensures !took ==> FullyStaged(plan, dir)
      ensures o.Done? ==> took
      ensures faults >= old(faults) && (o.Done? ==> faults == old(faults))
      ensures faults == old(faults) ==> o.Done?
    {
      took := false;
      var target: nat := limit;
      while target >= 1
        invariant target <= limit
        invariant ShiftedAbove(plan, dir, target)
        invariant faults == old(faults)
        invariant dirSyncPending ==> old(dirSyncPending)
      {
        o := ShiftSlot(target);
        if !o.Done? {
          return;
        }
        target := target - 1;
      }
      CommitPublishes(plan, dir);
      o, took := RenamePublish(New, Canonical(0));
      if o.Done? {
        o := SyncMetadata();
      }
    }

    /** Puts every staged slot back, then removes the staging names. */
    method RollbackRotation(limit: nat) returns (o: Outcome)
      requires Flying() && !published && RestoredBelow(plan, dir, 0, limit)
      modifies `dir, `faults, `dirSyncPending
      ensures o.Done? && dirSyncPending ==> old(dirSyncPending)
      ensures Flying()
      ensures o.Done? ==> dir.Quiet()
      ensures faults >= old(faults) && (o.Done? ==> faults == old(faults))
      ensures faults == old(faults) ==> o.Done?
    {
      var index := 0;
      while index <= limit
        invariant index <= limit + 1
        invariant RestoredBelow(plan, dir, index, limit)
        invariant faults == old(faults)
        invariant dirSyncPending ==> old(dirSyncPending)
      {
        o := RestoreSlot(index, limit);
        if !o.Done? {
          return;
        }
        index := index + 1;
      }
      forall i: nat ensures dir.Slot(i) == plan.before.Slot(i) {
        if limit < i { assert !Guarded(dir, i); }
      }
      o := CleanupRotationStaging();
    }

    method RestoreSlot(index: nat, ghost limit: nat) returns (o: Outcome)
      requires Flying() && !published && index <= limit && RestoredBelow(plan, dir, index, limit)
      modifies `dir, `faults, `dirSyncPending
      ensures o.Done? && dirSyncPending ==> old(dirSyncPending)
      ensures RestoredBelow(plan, dir, index, limit)
      ensures o.Done? ==> RestoredBelow(plan, dir, index + 1, limit)
      ensures faults >= old(faults) && (o.Done? ==> faults == old(faults))
      ensures faults == old(faults) ==> o.Done?
    {
      var exists_;
      o, exists_ := Inspect(Source(index));
      if !o.Done? {
        return;
      }
      if exists_ {
        o := RestoreFromSource(index, limit);
        return;
      }
      o, exists_ := Inspect(Missing(index));
      if !o.Done? || !exists_ {
        assert exists_ || !o.Done? || !Guarded(dir, index);
        return;
      }
      SlotRemoved(plan, dir, index);
      assert plan.before.Slot(index) == None;
      o := RemoveMetadataIfExists(Canonical(index));
      assert o.Done? ==> dir.Slot(index) == None;
    }

    method RestoreFromSource(index: nat, ghost limit: nat) returns (o: Outcome)
      requires Flying() && !published && index <= limit && RestoredBelow(plan, dir, index, limit)
      requires Source(index) in dir.names
      modifies `dir, `faults, `dirSyncPending
      ensures o.Done? && dirSyncPending ==> old(dirSyncPending)
      ensures RestoredBelow(plan, dir, index, limit)
      ensures o.Done? ==> RestoredBelow(plan, dir, index + 1, limit)
      ensures faults >= old(faults) && (o.Done? ==> faults == old(faults))
      ensures faults == old(faults) ==> o.Done?
    {
      if Work(index) in dir.names { WorkCleared(plan, dir, index); }
      o := RemoveMetadataIfExists(Work(index));
      if !o.Done? {
        return;
      }
      SlotRestored(plan, dir, index);
      o := LinkMetadata(Source(index), Work(index));
      if !o.Done? {
        return;
      }
      o := RenameMetadata(Work(index), Canonical(index));
    }

    /** Removes one staging name; the slots do not depend on it any more. */
    method RemoveStaging(n: Name) returns (o: Outcome)
      requires Flying() && (!published ==> Restored(plan, dir))
      requires IsStaging(n) && n != Marker && (n == New ==> Proof !in dir.names)
      modifies `dir, `faults, `dirSyncPending
      ensures o.Done? && dirSyncPending ==> old(dirSyncPending)
      ensures Flying() && (!published ==> Restored(plan, dir))
      ensures forall m :: m in dir.names ==> m in old(dir).names
      ensures o.Done? ==> n !in dir.names
      ensures faults >= old(faults) && (o.Done? ==> faults == old(faults))
      ensures faults == old(faults) ==> o.Done?
    {
      if n in dir.names { StagingRemoved(plan, published, dir, n); }
      o := RemoveMetadataIfExists(n);
    }

    method SweepSlot(index: nat) returns (o: Outcome)
      requires Flying() && (!published ==> Restored(plan, dir)) && SweptBelow(dir, index)
      modifies `dir, `faults, `dirSyncPending
      ensures o.Done? && dirSyncPending ==> old(dirSyncPending)
      ensures Flying() && (!published ==> Restored(plan, dir))
      ensures o.Done? ==> SweptBelow(dir, index + 1)
      ensures faults >= old(faults) && (o.Done? ==> faults == old(faults))
      ensures faults == old(faults) ==> o.Done?
    {
      ghost var before := dir;
      o := RemoveStaging(Work(index));
      if !o.Done? {
        return;
      }
      o := RemoveStaging(Source(index));
      if !o.Done? {
        return;
      }
      o := RemoveStaging(Missing(index));
      SweptStays(before, dir, index);
    }

    method SweepSlots() returns (o: Outcome)
      requires Flying() && (!published ==> Restored(plan, dir))
      modifies `dir, `faults, `dirSyncPending
      ensures o.Done? && dirSyncPending ==> old(dirSyncPending)
      ensures Flying() && (!published ==> Restored(plan, dir))
      ensures o.Done? ==> forall n :: n in dir.names && IsStaging(n) ==> n in {New, Proof, Marker}
      ensures faults >= old(faults) && (o.Done? ==> faults == old(faults))
      ensures faults == old(faults) ==> o.Done?
    {
      o := Done;
      var index := 0;
      while index <= MAX_BACKUPS
        invariant index <= MAX_BACKUPS + 1 && o.Done?
        invariant Flying() && (!published ==> Restored(plan, dir))
        invariant SweptBelow(dir, index)
        invariant faults == old(faults)
        invariant dirSyncPending ==> old(dirSyncPending)
      {
        o := SweepSlot(index);
        if !o.Done? {
          return;
        }
        index := index + 1;
      }
      SweptAll(plan, published, dir);
    }

    method CleanupRotationStaging() returns (o: Outcome)
      requires Flying() && (!published ==> Restored(plan, dir))
      modifies `dir, `faults, `dirSyncPending
      ensures o.Done? && dirSyncPending ==> old(dirSyncPending)
      ensures Flying() && (!published ==> Restored(plan, dir))
      ensures o.Done? ==> dir.Quiet()
      ensures faults >= old(faults) && (o.Done? ==> faults == old(faults))
      ensures faults == old(faults) ==> o.Done?
    {
      o := SweepSlots();
      if !o.Done? {
        return;
      }
      o := RemoveStaging(Proof);
      if !o.Done? {
        return;
      }
      o := RemoveStaging(New);
      if !o.Done? {
        return;
      }
      MarkerRemoved(plan, published, dir);
      o := RemoveMetadataIfExists(Marker);
    }

    /** The highest staged slot, and whether anything is staged at all. */
    method RotationLimit() returns (o: Outcome, limit: nat, staged: bool)
      requires Flying()
      modifies `faults
      ensures o.Done? ==> forall i: nat :: limit < i ==> !Guarded(dir, i)
      ensures o.Done? ==> (staged <==> exists n :: n in dir.names && IsStaging(n) && n != Marker)
      ensures faults >= old(faults) && (o.Done? ==> faults == old(faults))
      ensures faults == old(faults) ==> o.Done?
    {
      limit, staged := 0, false;
      var index := 0;
      while index <= MAX_BACKUPS
        invariant index <= MAX_BACKUPS + 1
        invariant forall i: nat :: limit < i < index ==> !Guarded(dir, i)
        invariant !staged ==> SweptBelow(dir, index)
        invariant staged ==> exists n :: n in dir.names && IsStaging(n) && n != Marker
        invariant faults == old(faults)
      {
        var exists_;
        o, exists_ := Inspect(Source(index));
        if !o.Done? {
          return;
        }
        if exists_ {
          staged, limit := true, if index > limit then index else limit;
        }
        o, exists_ := Inspect(Missing(index));
        if !o.Done? {
          return;
        }
        if exists_ {
          staged, limit := true, if index > limit then index else limit;
        }
        o, exists_ := Inspect(Work(index));
        if !o.Done? {
          return;
        }
        staged := staged || exists_;
        index := index + 1;
      }
      var present;
      o, present := Inspect(New);
      if !o.Done? {
        return;
      }
      staged := staged || present;
      o, present := Inspect(Proof);
      staged := staged || present;
      StagingWithinReach(plan, published, dir);
      if o.Done? && !staged {
        SweptAll(plan, published, dir);
      }
    }

    /** Finishes a published rotation or undoes an unpublished one; it may itself
        fail or stop anywhere and be run again. */
    method RecoverRotation() returns (o: Outcome)
      requires Flying()
      modifies `dir, `faults, `dirSyncPending
      ensures o.Done? && dirSyncPending ==> old(dirSyncPending)
      ensures Flying()
      ensures o.Done? ==> dir.Quiet()
      ensures old(dir).Quiet() ==> dir == old(dir)
      ensures faults >= old(faults) && (o.Done? ==> faults == old(faults))
      ensures faults == old(faults) ==> o.Done?
    {
      var markerExists, limit, staged, newExists, proofExists;
      o, markerExists := Inspect(Marker);
      if !o.Done? || !markerExists {
        return;
      }
      o, limit, staged := RotationLimit();
      if !o.Done? {
        return;
      }
      if !staged {
        forall i: nat ensures !published ==> dir.Slot(i) == plan.before.Slot(i) { assert New !in dir.names; }
        o := CleanupRotationStaging();
        return;
      }
      o, newExists := Inspect(New);
      if !o.Done? {
        return;
      }
      o, proofExists := Inspect(Proof);
      if !o.Done? {
        return;
      }
      if newExists {
        o := RollbackRotation(limit);
        return;
      }
      if proofExists {
        o := Touch();  // lstat of the current file and of the proof
        if !o.Done? {
          return;
        }
        if Canonical(0) !in dir.names || dir.names[Canonical(0)] != dir.names[Proof] {
          return Failed;
        }
      }
      forall i: nat ensures !published ==> dir.Slot(i) == plan.before.Slot(i) { }
      o := CleanupRotationStaging();
    }

    /** Which slots hold a file, and the highest that does. */
    method Preflight() returns (o: Outcome, present: seq<bool>, highestPresent: nat)
      modifies `faults
      ensures o.Done? ==>
                && |present| == backups + 1 && highestPresent <= backups
                && (forall i :: 0 <= i <= backups ==> (present[i] <==> dir.Slot(i).Some?))
                && (forall i: nat :: highestPresent < i <= backups ==> dir.Slot(i) == None)
                && present[0]
      ensures faults >= old(faults) && (o.Done? ==> faults == old(faults))
      ensures faults == old(faults) && Canonical(0) in dir.names ==> o.Done?
    {
      o, present, highestPresent := Done, [], 0;
      var index := 0;
      while index <= backups
        invariant index <= backups + 1 && |present| == index && o.Done?
        invariant forall i :: 0 <= i < index ==> (present[i] <==> dir.Slot(i).Some?)
        invariant highestPresent <= backups
        invariant forall i: nat :: highestPresent < i < index ==> dir.Slot(i) == None
        invariant index > 0 ==> present[0]
        invariant faults == old(faults)
      {
        var exists_;
        o, exists_ := Inspect(Canonical(index));
        if !o.Done? {
          return;
        }
        if index == 0 && !exists_ {
          return Failed, present, highestPresent;
        }
        present := present + [exists_];
        if exists_ {
          highestPresent := index;
        }
        index := index + 1;
      }
    }

    /** Replaces the current log by one that holds `line`.  However it ends, the
        directory stays recoverable: to what it was before, or, from the moment
        of the publishing rename on, to the rotated log. */
    method Rotate(line: Bytes, durable: bool) returns (o: Outcome)
      requires Flying() && backups <= MAX_BACKUPS
      modifies `dir, `faults, `dirSyncPending, `plan, `published
      ensures o.Done? && dirSyncPending ==> old(dirSyncPending)
      ensures Flying()
      ensures || (plan == old(plan) && published == old(published) && !o.Done?)
              || (&& plan.line == line && plan.backups == backups
                  && InFlight(old(plan), old(published), plan.before)
                  && plan.before.Quiet() && Canonical(0) in plan.before.names
                  && (old(dir).Quiet() ==> plan.before == old(dir))
                  && (o.Done? ==> published))
      ensures o.Done? ==> dir.Quiet()
      ensures faults >= old(faults) && (o.Done? ==> faults == old(faults))
      ensures faults == old(faults) && old(dir).Quiet() && Canonical(0) in old(dir).names ==> o.Done?
    {
      o := RecoverRotation();
      if o.Done? {
        o := RotateRecovered(line, durable);
      }
    }

    /** Plans a rotation of a directory in which nothing is staged, and carries it out. */
    method RotateRecovered(line: Bytes, durable: bool) returns (o: Outcome)
      requires Flying() && backups <= MAX_BACKUPS && dir.Quiet()
      modifies `dir, `faults, `dirSyncPending, `plan, `published
      ensures o.Done? && dirSyncPending ==> old(dirSyncPending)
      ensures Flying()
      ensures || (plan == old(plan) && published == old(published) && !o.Done?)
              || (&& plan.line == line && plan.backups == backups && plan.before == old(dir)
                  && Canonical(0) in plan.before.names && (o.Done? ==> published))
      ensures o.Done? ==> dir.Quiet()
      ensures faults >= old(faults) && (o.Done? ==> faults == old(faults))
      ensures faults == old(faults) && Canonical(0) in old(dir).names ==> o.Done?
    {
      var present, highestPresent;
      o, present, highestPresent := Preflight();
      if !o.Done? {
        return;
      }
      var limit := if backups < highestPresent + 1 then backups else highestPresent + 1;
      plan := Plan(dir, backups, limit, line);
      published := false;
      QuietStarts(plan);
      o := Transact(limit, present[..limit + 1], line, durable);
    }

    /** The rotation proper, once its plan is fixed: stage, publish, clean up, and
        undo whatever a failure before the commit point leaves behind. */
    method Transact(limit: nat, present: seq<bool>, line: Bytes, durable: bool) returns (o: Outcome)
      requires Flying() && !published && dir.Quiet() && Restored(plan, dir)
      requires limit == plan.limit && |present| == limit + 1 && line == plan.line
      requires forall i :: 0 <= i < |present| ==> (present[i] <==> plan.before.Slot(i).Some?)
      modifies `dir, `faults, `dirSyncPending, `published
      ensures o.Done? && dirSyncPending ==> old(dirSyncPending)
      ensures Flying()
      ensures o.Done? ==> published && dir.Quiet()
      ensures faults >= old(faults) && (o.Done? ==> faults == old(faults))
      ensures faults == old(faults) ==> o.Done?
    {
      o := PrepareRotation(present, line, durable);
      if !o.Done? {
        if o.Failed? {
          var r := RecoverRotation();
          o := if r.Stopped? then Stopped else Failed;
        }
        return;
      }
      var took;
      o, took := ApplyRotation(limit);
      published := took;
      if o.Failed? && !took {
        NothingStagedAbove(plan, dir);
        var r := RollbackRotation(limit);
        o := if r.Stopped? then Stopped else Failed;
        return;
      }
      if !o.Done? {
        return;
      }
      o := CleanupRotationStaging();
    }

    // ---------- Files ----------

    /** Scans back from the end in chunks for the last newline and cuts the file
        just after it. */
    method RepairTrailingPartialLine(i: Inode) returns (o: Outcome)
      requires i in dir.files
      modifies `dir, `faults
      ensures dir == old(dir) || dir == old(dir).Stored(i, Repaired(old(dir).files[i]))
      ensures o.Done? ==> dir == old(dir).Stored(i, Repaired(old(dir).files[i]))
      ensures faults >= old(faults) && (o.Done? ==> faults == old(faults))
      ensures faults == old(faults) ==> o.Done?
    {
      ghost var content := dir.files[i];
      o := Touch();
      if !o.Done? {
        return;
      }
      if |dir.files[i]| == 0 {
        assert Repaired(content) == content && dir.files[i := content] == dir.files;
        return;
      }
      o := Touch();
      if !o.Done? {
        return;
      }
      if dir.files[i][|dir.files[i]| - 1] == NEWLINE {
        assert Repaired(content) == content && dir.files[i := content] == dir.files;
        return;
      }
      var truncateTo: nat := 0;
      var end: nat := |dir.files[i]|;
      while end > 0
        invariant end <= |content| && dir == old(dir) && faults == old(faults)
        invariant forall j :: end <= j < |content| ==> content[j] != NEWLINE
        invariant truncateTo == 0
        decreases end
      {
        var start := if end < SCAN_BYTES then 0 else end - SCAN_BYTES;
        var chunk := dir.files[i][start..end];
        o := Touch();
        if !o.Done? {
          return;
        }
        var index := LastIndexByte(chunk, NEWLINE);
        LastOfChunk(content, start, end, index);
        if index >= 0 {
          truncateTo := start + index + 1;
          break;
        }
        end := start;
      }
      KeptLengthUnique(content, truncateTo);
      o := Truncate(i, truncateTo);
      if !o.Done? {
        return;
      }
      o := Touch();
    }

    method OpenAuditFile() returns (o: Outcome, created: bool)
      modifies `dir, `faults
      ensures dir == old(dir) || (Canonical(0) !in old(dir).names && dir == old(dir).Created(Canonical(0)))
      ensures o.Done? ==> Canonical(0) in dir.names
      ensures faults >= old(faults) && (o.Done? ==> faults == old(faults))
      ensures faults == old(faults) ==> o.Done?
    {
      var took;
      created := false;
      o, took := Environment();
      if !o.Done? {
        return;
      }
      if Canonical(0) !in dir.names {
        o, took := Environment();
        if took {
          created := true;
          dir := dir.Created(Canonical(0));
        }
        if !o.Done? {
          return;
        }
      }
      o := Touch();
    }

    // ---------- Writing ----------

    /** A valid logger over a quiet directory: the directory is the log. */
    lemma QuietRepresents()
      requires Valid() && dir.Quiet()
      ensures Represents(dir, View())
      ensures published ==> Whole(dir)
    {
      KeepingQuiet(plan, published, dir, base, history);
    }

    /** Starts over from a quiet directory that holds the log of `h`. */
    ghost method Settle(h: seq<Entry>)
      requires backups <= MAX_BACKUPS && AreLines(Records(h))
      requires dir.Quiet() && Represents(dir, Replay(h))
      modifies `plan, `published, `base, `history
      ensures Valid() && history == h && plan == Idle(dir) && !published
    {
      plan, published, base, history := Idle(dir), false, h, h;
      IdleInFlight(dir);
    }

    /** Opening the current file, creating it when it is not there. */
    method Open() returns (o: Outcome, created: bool)
      requires Valid() && dir.Quiet()
      modifies `dir, `faults, `plan, `published, `base, `history
      ensures Valid() && history == old(history) && dir.Quiet()
      ensures o.Done? ==> Canonical(0) in dir.names
      ensures faults >= old(faults) && (o.Done? ==> faults == old(faults))
      ensures faults == old(faults) ==> o.Done?
    {
      QuietRepresents();
      ghost var v, before := View(), dir;
      o, created := OpenAuditFile();
      if dir != before { CreatedRepresents(before, v); }
      Settle(history);
    }

    /** Cutting a torn line off the current file. */
    method Repair() returns (o: Outcome)
      requires Valid() && dir.Quiet() && Canonical(0) in dir.names
      modifies `dir, `faults, `plan, `published, `base, `history
      ensures Valid() && history == old(history) && dir.Quiet()
      ensures o.Done? ==> Holding() && plan == Idle(dir) && !published
      ensures faults >= old(faults) && (o.Done? ==> faults == old(faults))
      ensures faults == old(faults) ==> o.Done?
    {
      QuietRepresents();
      ghost var v, before := View(), dir;
      var current := dir.names[Canonical(0)];
      o := RepairTrailingPartialLine(current);
      RepairRepresents(before, v, dir);
      Settle(history);
    }

    /** Recovery, opening and repair, which both writing and starting begin with. */
    method Ready() returns (o: Outcome, created: bool)
      requires Valid()
      modifies `dir, `faults, `dirSyncPending, `plan, `published, `base, `history
      ensures o.Done? && dirSyncPending ==> old(dirSyncPending)
      ensures Valid() && history == old(history)
      ensures o.Done? ==> Holding() && plan == Idle(dir) && !published
      ensures faults >= old(faults) && (o.Done? ==> faults == old(faults))
      ensures faults == old(faults) ==> o.Done?
    {
      created := false;
      o := RecoverRotation();
      if !o.Done? {
        return;
      }
      o, created := OpenWhole();
    }

    method OpenWhole() returns (o: Outcome, created: bool)
      requires Valid() && dir.Quiet()
      modifies `dir, `faults, `plan, `published, `base, `history
      ensures Valid() && history == old(history)
      ensures o.Done? ==> Holding() && plan == Idle(dir) && !published
      ensures faults >= old(faults) && (o.Done? ==> faults == old(faults))
      ensures faults == old(faults) ==> o.Done?
    {
      o, created := Open();
      if o.Done? {
        o := Repair();
      }
    }

    /** Writes the line at the end of the current file; a failed write is undone
        by truncating, which may itself fail and leave a torn line behind. */
    method Append(line: Bytes, durable: bool) returns (o: Outcome)
      requires Valid() && Fits() && dir.Quiet() && Whole(dir) && IsLine(line)
      requires !RotationNeeded(|dir.files[dir.names[Canonical(0)]]|, |line|, maxBytes)
      modifies `dir, `faults, `plan, `published, `base, `history
      ensures Valid() && dir.Quiet()
      ensures Fits() && (history == old(history) || history == old(history) + [Logged(line, maxBytes, backups)])
      ensures o.Done? ==> history == old(history) + [Logged(line, maxBytes, backups)] && Whole(dir)
      ensures faults >= old(faults) && (o.Done? ==> faults == old(faults))
      ensures faults == old(faults) ==> o.Done?
    {
      QuietRepresents();
      ghost var before, h := dir, history;
      var current := dir.names[Canonical(0)];
      var size := |dir.files[current]|;
      o := Touch();
      if !o.Done? {
        return;
      }
      ghost var k;
      o, k := WriteAll(current, line);
      AppendRepresents(before, h, maxBytes, backups, line, k);
      if o.Failed? {
        TruncateUndoes(before, line[..k]);
        var r := Truncate(current, size);
        if r.Done? {
          r := Touch();
        }
        Settle(if dir == before then h else HistoryAfter(h, line, maxBytes, backups, k));
        o := if r.Stopped? then Stopped else Failed;
        return;
      }
      Settle(HistoryAfter(h, line, maxBytes, backups, k));
      if o.Done? && durable {
        o := Touch();
      }
      if o.Done? {
        o := Touch();  // close
      }
    }

    method WriteLocked(line: Bytes, durable: bool) returns (o: Outcome)
      requires Valid() && Fits() && IsLine(line)
      modifies this
      ensures o.Done? && dirSyncPending ==> old(dirSyncPending)
      ensures Valid()
      ensures Fits() && AtMostOnce(old(history), history, Logged(line, maxBytes, backups), o.Done?)
      ensures o.Done? ==> dir.Quiet() && Whole(dir)
      ensures faults >= old(faults) && (o.Done? ==> faults == old(faults))
      ensures faults == old(faults) ==> o.Done?
    {
      o := Touch();  // inspect the directory
      if !o.Done? {
        return;
      }
      var created;
      o, created := Ready();
      if !o.Done? {
        return;
      }
      o := Touch();  // stat
      if !o.Done? {
        return;
      }
      if RotationNeeded(|dir.files[dir.names[Canonical(0)]]|, |line|, maxBytes) {
        o := Touch();  // close
        if o.Done? {
          o := RotateAndRecord(line, durable);
        }
        return;
      }
      if created {
        o := SyncMetadata();
        if !o.Done? {
          return;
        }
      }
      o := Append(line, durable);
    }

    /** Rotation as a write: the line is on record from the publishing rename on. */
    method RotateAndRecord(line: Bytes, durable: bool) returns (o: Outcome)
      requires Valid() && Fits() && plan == Idle(dir) && !published && Whole(dir) && IsLine(line)
      requires RotationNeeded(|dir.files[dir.names[Canonical(0)]]|, |line|, maxBytes)
      modifies this
      ensures o.Done? && dirSyncPending ==> old(dirSyncPending)
      ensures Valid()
      ensures Fits() && AtMostOnce(old(history), history, Logged(line, maxBytes, backups), o.Done?)
      ensures o.Done? ==> dir.Quiet() && Whole(dir)
      ensures faults >= old(faults) && (o.Done? ==> faults == old(faults))
      ensures faults == old(faults) ==> o.Done?
    {
      o := RotateIdle(line, durable);
      if o.Done? {
        QuietRepresents();
      }
    }

    method RotateIdle(line: Bytes, durable: bool) returns (o: Outcome)
      requires Valid() && Fits() && plan == Idle(dir) && !published && Whole(dir) && IsLine(line)
      requires RotationNeeded(|dir.files[dir.names[Canonical(0)]]|, |line|, maxBytes)
      modifies this
      ensures o.Done? && dirSyncPending ==> old(dirSyncPending)
      ensures Valid()
      ensures Fits() && history == if published then old(history) + [Logged(line, maxBytes, backups)] else old(history)
      ensures o.Done? ==> published && dir.Quiet()
      ensures faults >= old(faults) && (o.Done? ==> faults == old(faults))
      ensures faults == old(faults) ==> o.Done?
    {
      ghost var idle, h := plan, history;
      o := Rotate(line, durable);
      if plan != idle || published {
        RotationKeeps(plan, published, dir, h, maxBytes);
        history := if published then h + [Logged(line, maxBytes, backups)] else h;
      }
    }

    // ---------- The lock ----------

    /** Opens the lock file, creating it if need be, and waits for the lock. */
    method AcquireLock() returns (o: Outcome)
      modifies `faults, `dirSyncPending
      ensures o.Done? && dirSyncPending ==> old(dirSyncPending)
      ensures faults >= old(faults) && (o.Done? ==> faults == old(faults))
      ensures faults == old(faults) ==> o.Done?
    {
      o := Touch();  // open
      if !o.Done? {
        return;
      }
      var created: bool := *;
      o := Touch();  // lock
      if !o.Done? || !created {
        return;
      }
      o := SyncMetadata();
      if o.Failed? {
        var r := ReleaseLock(o);
        o := r;
      }
    }

    /** Unlocks and closes the lock file; a failure of either is reported however the
        operation under the lock ended. */
    method ReleaseLock(operation: Outcome) returns (o: Outcome)
      requires !operation.Stopped?
      modifies `faults
      ensures faults >= old(faults) && (o.Done? <==> operation.Done? && faults == old(faults))
    {
      var unlocked := Touch();
      if unlocked.Stopped? {
        return Stopped;
      }
      var closed := Touch();
      if closed.Stopped? {
        return Stopped;
      }
      o := if operation.Done? && unlocked.Done? && closed.Done? then Done else Failed;
    }

    /** One audit record.  A directory sync that failed earlier is retried first. */
    method Write(line: Bytes, durable: bool) returns (o: Outcome)
      requires Valid() && Fits() && IsLine(line)
      modifies this
      ensures o.Done? ==> !dirSyncPending
      ensures Valid()
      ensures Fits() && AtMostOnce(old(history), history, Logged(line, maxBytes, backups), o.Done?)
      ensures o.Done? ==> dir.Quiet() && Whole(dir)
      ensures faults >= old(faults) && (o.Done? ==> faults == old(faults))
      ensures faults == old(faults) ==> o.Done?
    {
      o := AcquireLock();
      if o.Done? {
        o := WriteAndRelease(line, durable);
      }
    }

    method WriteAndRelease(line: Bytes, durable: bool) returns (o: Outcome)
      requires Valid() && Fits() && IsLine(line)
      modifies this
      ensures o.Done? ==> !dirSyncPending
      ensures Valid()
      ensures Fits() && AtMostOnce(old(history), history, Logged(line, maxBytes, backups), o.Done?)
      ensures o.Done? ==> dir.Quiet() && Whole(dir)
      ensures faults >= old(faults) && (o.Done? ==> faults == old(faults))
      ensures faults == old(faults) ==> o.Done?
    {
      o := WriteUnderLock(line, durable);
      if o.Stopped? {
        return;
      }
      o := ReleaseLock(o);
    }

    method WriteUnderLock(line: Bytes, durable: bool) returns (o: Outcome)
      requires Valid() && Fits() && IsLine(line)
      modifies this
      ensures o.Done? ==> !dirSyncPending
      ensures Valid()
      ensures Fits() && AtMostOnce(old(history), history, Logged(line, maxBytes, backups), o.Done?)
      ensures o.Done? ==> dir.Quiet() && Whole(dir)
      ensures faults >= old(faults) && (o.Done? ==> faults == old(faults))
      ensures faults == old(faults) ==> o.Done?
    {
      if dirSyncPending {
        o := SyncMetadata();
        if !o.Done? {
          return;
        }
      }
      o := WriteLocked(line, durable);
    }

    // ---------- Starting ----------

    /** Removes backups beyond the configured count, in whatever order the directory
        lists them.  Interrupted, it leaves some of them, and a gap where others
        were. */
    method CleanupExcessBackups() returns (o: Outcome)
      requires Holding()
      modifies `dir, `faults, `dirSyncPending, `history
      ensures Holding() && Trims(old(history), history, backups) && Spares(old(dir), dir, backups)
      ensures o.Done? ==> Fits() && |history| > |old(history)| && history[|history| - 1] == Cleaned(backups)
      ensures o.Done? ==> forall i: nat :: i > backups ==> Canonical(i) !in dir.names
      ensures faults >= old(faults) && (o.Done? ==> faults == old(faults))
      ensures faults == old(faults) ==> o.Done?
    {
      o := Touch();  // open the directory
      if !o.Done? {
        return;
      }
      var listed := set n | n in dir.names && n.Canonical? && n.index > backups;
      while listed != {}
        invariant Holding() && Trims(old(history), history, backups) && Spares(old(dir), dir, backups)
        invariant forall n :: n in dir.names && n.Canonical? && n.index > backups ==> n in listed
        invariant forall n :: n in listed ==> n.Canonical? && n.index > backups
        invariant faults == old(faults) && o.Done?
        decreases |listed|
      {
        var n :| n in listed;
        TrimsMore(old(history), history, backups, Dropped(n.index));
        SparesMore(old(dir), dir, backups, n.index);
        o := RemoveExcess(n.index);
        if !o.Done? {
          return;
        }
        listed := listed - {n};
      }
      TrimsMore(old(history), history, backups, Cleaned(backups));
      EndCleanup();
    }

    /** Removing one excess backup. */
    method RemoveExcess(index: nat) returns (o: Outcome)
      requires Holding() && index > backups
      modifies `dir, `faults, `dirSyncPending, `history
      ensures Holding()
      ensures history == old(history) || history == old(history) + [Dropped(index)]
      ensures dir == old(dir) || (Canonical(index) in old(dir).names && dir == old(dir).Removed(Canonical(index)))
      ensures o.Done? ==> Canonical(index) !in dir.names
      ensures faults >= old(faults) && (o.Done? ==> faults == old(faults))
      ensures faults == old(faults) ==> o.Done?
    {
      RemovedRepresents(dir, Replay(history), index);
      ReplayStep(history, Dropped(index));
      RecordsStep(history, Dropped(index));
      ghost var before := dir;
      o := RemoveMetadataIfExists(Canonical(index));
      if dir != before {
        history := history + [Dropped(index)];
      }
    }

    /** Nothing stands beyond the configured count any more. */
    ghost method EndCleanup()
      requires Holding() && forall i: nat :: i > backups ==> Canonical(i) !in dir.names
      modifies `history
      ensures Holding() && Fits() && history == old(history) + [Cleaned(backups)]
    {
      CutRepresents(dir, Replay(history), backups);
      ReplayStep(history, Cleaned(backups));
      RecordsStep(history, Cleaned(backups));
      history := history + [Cleaned(backups)];
    }

    /** What opening a logger does to a directory some earlier process left, under
        whatever configuration that process had. */
    method Initialize() returns (o: Outcome)
      requires Valid()
      modifies this
      ensures Valid() && Trims(old(history), history, backups)
      ensures o.Done? ==> dir.Quiet() && Whole(dir) && Fits()
      ensures o.Done? ==> |history| > |old(history)| && history[|history| - 1] == Cleaned(backups)
      ensures faults >= old(faults) && (o.Done? ==> faults == old(faults))
      ensures faults == old(faults) ==> o.Done?
    {
      dirSyncPending := false;
      o := AcquireLock();
      if o.Done? {
        o := InitializeAndRelease();
      }
    }

    method InitializeAndRelease() returns (o: Outcome)
      requires Valid()
      modifies this
      ensures Valid() && Trims(old(history), history, backups)
      ensures o.Done? ==> dir.Quiet() && Whole(dir) && Fits()
      ensures o.Done? ==> |history| > |old(history)| && history[|history| - 1] == Cleaned(backups)
      ensures faults >= old(faults) && (o.Done? ==> faults == old(faults))
      ensures faults == old(faults) ==> o.Done?
    {
      o := InitializeLocked();
      if !o.Stopped? {
        o := ReleaseLock(o);
      }
    }

    method InitializeLocked() returns (o: Outcome)
      requires Valid()
      modifies this
      ensures Valid() && Trims(old(history), history, backups)
      ensures o.Done? ==> dir.Quiet() && Whole(dir) && Fits()
      ensures o.Done? ==> |history| > |old(history)| && history[|history| - 1] == Cleaned(backups)
      ensures faults >= old(faults) && (o.Done? ==> faults == old(faults))
      ensures faults == old(faults) ==> o.Done?
    {
      o := Prepare();
      if o.Done? {
        o := CleanupAndSettle();
      }
    }

    method CleanupAndSettle() returns (o: Outcome)
      requires Holding() && backups <= MAX_BACKUPS
      modifies `dir, `faults, `dirSyncPending, `plan, `published, `base, `history
      ensures Valid() && Trims(old(history), history, backups)
      ensures o.Done? ==> dir.Quiet() && Whole(dir) && Fits()
      ensures o.Done? ==> |history| > |old(history)| && history[|history| - 1] == Cleaned(backups)
      ensures faults >= old(faults) && (o.Done? ==> faults == old(faults))
      ensures faults == old(faults) ==> o.Done?
    {
      o := CleanupExcessBackups();
      if o.Done? {
        o := SyncMetadata();
      }
      Settle(history);
    }

    /** Opening up to the removal of excess backups. */
    method Prepare() returns (o: Outcome)
      requires Valid()
      modifies this
      ensures history == old(history) && if o.Done? then Holding() else Valid()
      ensures faults >= old(faults) && (o.Done? ==> faults == old(faults))
      ensures faults == old(faults) ==> o.Done?
    {
      o := SyncMetadata();
      if !o.Done? {
        return;
      }
      var created;
      o, created := Ready();
      if !o.Done? {
        return;
      }
      o := Touch();  // close
      if o.Done? && created {
        o := SyncMetadata();
      }
    }
  }
}
