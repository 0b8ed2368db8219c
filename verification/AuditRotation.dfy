/** What a directory may look like while the log rotates, and why every step
    of the protocol, of its rollback and of its cleanup keeps it that way. */
module AuditRotation {
  import opened Basics
  import opened AuditDirectory

  const MAX_BACKUPS: nat := 100

  /** One rotation: the directory it started from, how many slots it stages and
      the line it publishes as the new current log. */
  datatype Plan = Plan(before: Directory, backups: nat, limit: nat, line: Bytes) {

    ghost predicate Valid() {
      && before.WellFormed()
      && before.Quiet()
      && limit <= backups <= MAX_BACKUPS
      && (forall i: nat :: limit < i <= backups ==> before.Slot(i) == None)
      && (limit < backups ==> before.Slot(limit) == None)
    }

    /** Slot i once the rotation has been published. */
    function Shifted(i: nat): Option<Inode>
      requires 0 < i
    {
      if i <= backups then before.Slot(i - 1) else before.Slot(i)
    }
  }

  /** Files of the starting directory keep their bytes, and names that are
      neither log slots nor staging names keep their files. */
  ghost predicate Extends(p: Plan, d: Directory) {
    && d.WellFormed()
    && p.before.next <= d.next
    && (forall i :: i in p.before.files ==> i in d.files && d.files[i] == p.before.files[i])
    && (forall l :: Other(l) in p.before.names <==> Other(l) in d.names)
    && (forall l :: Other(l) in d.names ==> d.names[Other(l)] == p.before.names[Other(l)])
  }

  ghost predicate Guarded(d: Directory, i: nat) {
    Source(i) in d.names || Missing(i) in d.names
  }

  /** Staging names stay within what cleanup visits, and a staged source or
      missing marker tells the truth about the slot it stands for. */
  ghost predicate StagedTruly(p: Plan, d: Directory) {
    && (forall i: nat :: Source(i) in d.names ==> i <= p.limit && p.before.Slot(i) == Some(d.names[Source(i)]))
    && (forall i: nat :: Missing(i) in d.names ==> i <= p.limit && p.before.Slot(i) == None)
    && (forall i: nat :: Work(i) in d.names ==> i <= p.limit)
  }

  /** The invariant of every directory before the commit point, and of every
      directory of a rollback. */
  ghost predicate Uncommitted(p: Plan, d: Directory) {
    && Extends(p, d)
    && StagedTruly(p, d)
    && (Marker !in d.names ==> d.names == p.before.names)
    && (New in d.names ==> p.before.next <= d.names[New])
    && (Proof in d.names ==> New in d.names)
    && (forall i: nat :: d.Slot(i) == p.before.Slot(i) || (New in d.names && Guarded(d, i)))
  }

  /** All slots are back at their original files. */
  ghost predicate Restored(p: Plan, d: Directory) {
    forall i: nat :: d.Slot(i) == p.before.Slot(i)
  }

  /** The invariant of every directory after the commit point. */
  ghost predicate Committed(p: Plan, d: Directory) {
    && Extends(p, d)
    && StagedTruly(p, d)
    && (Marker !in d.names ==> d.Quiet())
    && New !in d.names
    && Published(p, d)
    && (Proof in d.names ==> d.Slot(0) == Some(d.names[Proof]))
  }

  /** Slots hold exactly the rotated log: the new line, then the old slots. */
  ghost predicate Published(p: Plan, d: Directory) {
    && d.Slot(0).Some?
    && p.before.next <= d.Slot(0).value
    && d.Slot(0).value in d.files
    && d.files[d.Slot(0).value] == p.line
    && (forall i: nat :: 0 < i ==> d.Slot(i) == p.Shifted(i))
  }

  /** Which invariant holds is fixed by whether the publishing rename happened. */
  ghost predicate InFlight(p: Plan, published: bool, d: Directory) {
    p.Valid() && if published then Committed(p, d) else Uncommitted(p, d)
  }

  /** Everything is staged: each slot up to the limit can be restored and the
      new file is complete. */
  ghost predicate FullyStaged(p: Plan, d: Directory) {
    && Uncommitted(p, d)
    && Marker in d.names
    && (forall i: nat :: i <= p.limit ==> Guarded(d, i))
    && New in d.names && Proof in d.names
    && d.names[Proof] == d.names[New]
    && d.files[d.names[New]] == p.line
  }

  /** Of the slots below k, all are back; above `limit` none is staged. */
  ghost predicate RestoredBelow(p: Plan, d: Directory, k: nat, limit: nat) {
    && Uncommitted(p, d) && Marker in d.names && New in d.names
    && (forall i: nat :: i < k ==> d.Slot(i) == p.before.Slot(i))
    && (forall i: nat :: limit < i ==> !Guarded(d, i))
  }

  /** The slots above `done` were already moved up by one. */
  ghost predicate ShiftedAbove(p: Plan, d: Directory, done: nat) {
    && FullyStaged(p, d)
    && (forall i: nat :: i <= done || p.limit < i ==> d.Slot(i) == p.before.Slot(i))
    && (forall i: nat :: done < i <= p.limit ==> d.Slot(i) == p.before.Slot(i - 1))
    && (forall i: nat :: i <= done ==> Work(i) !in d.names)
  }

  // ---------- Starting a rotation ----------

  /** A quiet directory is the start of any rotation over it. */
  lemma QuietStarts(p: Plan)
    requires p.Valid()
    ensures Uncommitted(p, p.before) && Restored(p, p.before)
  {
  }

  // ---------- Staging ----------

  /** Slots below k are staged, nothing else is, and no slot has changed. */
  ghost predicate StagedBelow(p: Plan, d: Directory, k: nat) {
    && Uncommitted(p, d) && Restored(p, d)
    && Marker in d.names && New !in d.names && Proof !in d.names
    && (forall i: nat :: Guarded(d, i) <==> i < k)
    && (forall i: nat :: Work(i) !in d.names)
  }

  lemma MarkerCreated(p: Plan, d: Directory)
    requires p.Valid() && Uncommitted(p, d) && Restored(p, d) && d.Quiet()
    ensures StagedBelow(p, d.Created(Marker), 0)
  {
    var e := d.Created(Marker);
    forall i: nat ensures e.Slot(i) == p.before.Slot(i) { assert d.Slot(i) == p.before.Slot(i); }
    forall i: nat ensures !Guarded(e, i) && Work(i) !in e.names { }
  }

  lemma SourceStaged(p: Plan, d: Directory, i: nat)
    requires p.Valid() && StagedBelow(p, d, i) && i <= p.limit && p.before.Slot(i).Some?
    ensures d.CanLink(Canonical(i), Source(i))
    ensures StagedBelow(p, d.Linked(Canonical(i), Source(i)), i + 1)
  {
    assert d.Slot(i) == p.before.Slot(i);
    assert !Guarded(d, i);
    var e := d.Linked(Canonical(i), Source(i));
    forall j: nat ensures e.Slot(j) == p.before.Slot(j) && (Guarded(e, j) <==> j < i + 1) {
      assert d.Slot(j) == p.before.Slot(j);
      assert Guarded(d, j) <==> j < i;
    }
  }

  lemma MissingStaged(p: Plan, d: Directory, i: nat)
    requires p.Valid() && StagedBelow(p, d, i) && i <= p.limit && p.before.Slot(i) == None
    ensures Missing(i) !in d.names
    ensures StagedBelow(p, d.Created(Missing(i)), i + 1)
  {
    assert !Guarded(d, i);
    var e := d.Created(Missing(i));
    forall j: nat ensures e.Slot(j) == p.before.Slot(j) && (Guarded(e, j) <==> j < i + 1) {
      assert d.Slot(j) == p.before.Slot(j);
      assert Guarded(d, j) <==> j < i;
    }
  }

  /** The new file, however much of it was written, is nobody else's file. */
  lemma NewStaged(p: Plan, d: Directory, content: Bytes)
    requires p.Valid() && StagedBelow(p, d, p.limit + 1)
    ensures var e := d.Created(New).Stored(d.next, content);
            && Uncommitted(p, e) && Restored(p, e) && Marker in e.names && Proof !in e.names
            && (forall j: nat :: Guarded(e, j) <==> j <= p.limit)
            && (forall j: nat :: Work(j) !in e.names)
  {
    var e := d.Created(New).Stored(d.next, content);
    forall j: nat ensures e.Slot(j) == p.before.Slot(j) && (Guarded(e, j) <==> j <= p.limit) {
      assert d.Slot(j) == p.before.Slot(j);
      assert Guarded(d, j) <==> j < p.limit + 1;
    }
  }

  lemma ProofLinked(p: Plan, d: Directory)
    requires p.Valid() && Uncommitted(p, d) && Restored(p, d) && Marker in d.names
    requires New in d.names && Proof !in d.names && d.files[d.names[New]] == p.line
    requires forall j: nat :: Guarded(d, j) <==> j <= p.limit
    requires forall j: nat :: Work(j) !in d.names
    ensures ShiftedAbove(p, d.Linked(New, Proof), p.limit) && Restored(p, d.Linked(New, Proof))
  {
    var e := d.Linked(New, Proof);
    forall j: nat ensures e.Slot(j) == p.before.Slot(j) && (Guarded(e, j) <==> Guarded(d, j)) {
      assert d.Slot(j) == p.before.Slot(j);
    }
  }

  // ---------- Publishing, and putting back ----------

  lemma WorkLinked(p: Plan, d: Directory, from: nat, to: nat)
    requires p.Valid() && Uncommitted(p, d) && Marker in d.names
    requires to <= p.limit && d.CanLink(Source(from), Work(to))
    ensures var e := d.Linked(Source(from), Work(to));
            && Uncommitted(p, e)
            && (forall j: nat :: e.Slot(j) == d.Slot(j) && (Guarded(e, j) <==> Guarded(d, j)))
  {
    var e := d.Linked(Source(from), Work(to));
    forall j: nat ensures e.Slot(j) == d.Slot(j) && (Guarded(e, j) <==> Guarded(d, j)) { }
  }

  /** Renaming the work link onto a guarded slot changes that slot and no other;
      when both already name one file, POSIX leaves both links. */
  lemma WorkRenamed(p: Plan, d: Directory, i: nat)
    requires p.Valid() && Uncommitted(p, d) && Marker in d.names && New in d.names
    requires Work(i) in d.names && Guarded(d, i)
    ensures var e := d.Renamed(Work(i), Canonical(i));
            && Uncommitted(p, e)
            && e.Slot(i) == Some(d.names[Work(i)])
            && (forall j: nat :: (j != i ==> e.Slot(j) == d.Slot(j)) && (Guarded(e, j) <==> Guarded(d, j)))
  {
    var e := d.Renamed(Work(i), Canonical(i));
    forall j: nat ensures (j != i ==> e.Slot(j) == d.Slot(j)) && (Guarded(e, j) <==> Guarded(d, j)) { }
    forall j: nat ensures e.Slot(j) == p.before.Slot(j) || (New in e.names && Guarded(e, j)) {
      assert d.Slot(j) == p.before.Slot(j) || (New in d.names && Guarded(d, j));
    }
  }

  lemma SlotRemoved(p: Plan, d: Directory, i: nat)
    requires p.Valid() && Uncommitted(p, d) && Marker in d.names && New in d.names && Guarded(d, i)
    ensures var e := d.Removed(Canonical(i));
            && Uncommitted(p, e)
            && e.Slot(i) == None
            && (forall j: nat :: (j != i ==> e.Slot(j) == d.Slot(j)) && (Guarded(e, j) <==> Guarded(d, j)))
  {
    var e := d.Removed(Canonical(i));
    forall j: nat ensures (j != i ==> e.Slot(j) == d.Slot(j)) && (Guarded(e, j) <==> Guarded(d, j)) { }
    forall j: nat ensures e.Slot(j) == p.before.Slot(j) || (New in e.names && Guarded(e, j)) {
      assert d.Slot(j) == p.before.Slot(j) || (New in d.names && Guarded(d, j));
    }
  }

  /** A shift in progress: the work link for slot t stands, slot t is still old. */
  ghost predicate ShiftReady(p: Plan, d: Directory, t: nat) {
    && 0 < t <= p.limit
    && FullyStaged(p, d)
    && Work(t) in d.names && p.before.Slot(t - 1) == Some(d.names[Work(t)])
    && (forall i: nat :: i <= t || p.limit < i ==> d.Slot(i) == p.before.Slot(i))
    && (forall i: nat :: t < i <= p.limit ==> d.Slot(i) == p.before.Slot(i - 1))
    && (forall i: nat :: i < t ==> Work(i) !in d.names)
  }

  lemma ShiftLinked(p: Plan, d: Directory, t: nat)
    requires p.Valid() && 0 < t <= p.limit && ShiftedAbove(p, d, t) && Source(t - 1) in d.names
    ensures d.CanLink(Source(t - 1), Work(t))
    ensures ShiftReady(p, d.Linked(Source(t - 1), Work(t)), t)
  {
    WorkLinked(p, d, t - 1, t);
    var e := d.Linked(Source(t - 1), Work(t));
    forall i: nat ensures e.Slot(i) == d.Slot(i) && (Guarded(e, i) <==> Guarded(d, i)) { }
  }

  lemma ShiftRenamed(p: Plan, d: Directory, t: nat)
    requires p.Valid() && ShiftReady(p, d, t)
    ensures ShiftedAbove(p, d.Renamed(Work(t), Canonical(t)), t - 1)
  {
    assert Guarded(d, t);
    WorkRenamed(p, d, t);
    var f := d.Renamed(Work(t), Canonical(t));
    forall i: nat ensures Guarded(f, i) <==> Guarded(d, i) { }
    assert FullyStaged(p, f);
    assert f.Slot(t) == p.before.Slot(t - 1);
  }

  /** Moving one slot up by removing it, when the slot below was missing. */
  lemma GapShifted(p: Plan, d: Directory, t: nat)
    requires p.Valid() && 0 < t <= p.limit && ShiftedAbove(p, d, t) && Source(t - 1) !in d.names
    ensures Canonical(t) in d.names ==> ShiftedAbove(p, d.Removed(Canonical(t)), t - 1)
    ensures Canonical(t) !in d.names ==> ShiftedAbove(p, d, t - 1)
  {
    assert Guarded(d, t - 1) && Guarded(d, t);
    if Canonical(t) in d.names {
      SlotRemoved(p, d, t);
      var f := d.Removed(Canonical(t));
      assert f.Slot(t) == p.before.Slot(t - 1);
    } else {
      assert d.Slot(t) == None;
    }
  }

  /** Putting slot i back from its staged source. */
  lemma SlotRestored(p: Plan, d: Directory, i: nat)
    requires p.Valid() && Uncommitted(p, d) && Marker in d.names && New in d.names
    requires d.CanLink(Source(i), Work(i))
    ensures var e := d.Linked(Source(i), Work(i));
            var f := e.Renamed(Work(i), Canonical(i));
            && Uncommitted(p, e) && Uncommitted(p, f)
            && f.Slot(i) == p.before.Slot(i)
            && (forall j: nat :: (Guarded(e, j) <==> Guarded(d, j)) && e.Slot(j) == d.Slot(j))
            && (forall j: nat :: (Guarded(f, j) <==> Guarded(d, j)) && (j != i ==> f.Slot(j) == d.Slot(j)))
  {
    WorkLinked(p, d, i, i);
    var e := d.Linked(Source(i), Work(i));
    WorkRenamed(p, e, i);
    var f := e.Renamed(Work(i), Canonical(i));
    forall j: nat ensures (Guarded(f, j) <==> Guarded(d, j)) && (j != i ==> f.Slot(j) == d.Slot(j)) {
      assert (Guarded(e, j) <==> Guarded(d, j)) && e.Slot(j) == d.Slot(j);
    }
  }

  lemma WorkCleared(p: Plan, d: Directory, i: nat)
    requires p.Valid() && Uncommitted(p, d) && Work(i) in d.names
    ensures var e := d.Removed(Work(i));
            && Uncommitted(p, e)
            && (forall j: nat :: (Guarded(e, j) <==> Guarded(d, j)) && e.Slot(j) == d.Slot(j))
  {
    var e := d.Removed(Work(i));
    forall j: nat ensures (Guarded(e, j) <==> Guarded(d, j)) && e.Slot(j) == d.Slot(j) { }
  }

  /** The commit point: one rename turns the fully shifted slots into the
      rotated log.  The new file is a file of its own, so this rename is never
      the one that does nothing. */
  lemma CommitPublishes(p: Plan, d: Directory)
    requires p.Valid() && ShiftedAbove(p, d, 0)
    ensures Committed(p, d.Renamed(New, Canonical(0)))
  {
    var e := d.Renamed(New, Canonical(0));
    assert d.Slot(0) == p.before.Slot(0);
    forall i: nat | 0 < i ensures e.Slot(i) == p.Shifted(i) {
      assert e.Slot(i) == d.Slot(i);
      if p.limit < i <= p.backups { assert p.before.Slot(i - 1) == None; }
    }
    assert e.Slot(0) == Some(d.names[New]);
  }

  lemma NothingStagedAbove(p: Plan, d: Directory)
    requires FullyStaged(p, d)
    ensures RestoredBelow(p, d, 0, p.limit)
  {
  }

  // ---------- Cleaning up ----------

  /** Cleanup and recovery look at every index a staging name can have. */
  lemma StagingWithinReach(p: Plan, published: bool, d: Directory)
    requires InFlight(p, published, d)
    ensures forall i: nat :: MAX_BACKUPS < i ==> !Guarded(d, i)
    ensures forall i: nat :: MAX_BACKUPS < i ==> Work(i) !in d.names
  {
  }

  /** No staging name but the last three is left, said index by index. */
  ghost predicate SweptBelow(d: Directory, k: nat) {
    && (forall i: nat :: i < k ==> !Guarded(d, i))
    && (forall i: nat :: i < k ==> Work(i) !in d.names)
  }

  lemma SweptAll(p: Plan, published: bool, d: Directory)
    requires InFlight(p, published, d) && SweptBelow(d, MAX_BACKUPS + 1)
    ensures forall n :: n in d.names && IsStaging(n) ==> n in {New, Proof, Marker}
  {
    StagingWithinReach(p, published, d);
    forall i: nat ensures Source(i) !in d.names && Missing(i) !in d.names && Work(i) !in d.names {
      assert !Guarded(d, i);
    }
  }

  lemma SweptStays(d: Directory, e: Directory, k: nat)
    requires SweptBelow(d, k) && forall n :: n in e.names ==> n in d.names
    ensures SweptBelow(e, k)
  {
    forall i: nat | i < k ensures !Guarded(e, i) { assert !Guarded(d, i); }
  }

  lemma StagingRemoved(p: Plan, published: bool, d: Directory, n: Name)
    requires InFlight(p, published, d) && (!published ==> Restored(p, d))
    requires n in d.names && IsStaging(n) && n != Marker
    requires n == New ==> Proof !in d.names
    ensures InFlight(p, published, d.Removed(n)) && (!published ==> Restored(p, d.Removed(n)))
  {
    var e := d.Removed(n);
    forall j: nat ensures e.Slot(j) == d.Slot(j) { }
  }

  lemma MarkerRemoved(p: Plan, published: bool, d: Directory)
    requires InFlight(p, published, d) && (!published ==> Restored(p, d))
    requires forall n :: n in d.names && IsStaging(n) ==> n == Marker
    ensures InFlight(p, published, d.Removed(Marker)) && d.Removed(Marker).Quiet()
    ensures !published ==> d.Removed(Marker).names == p.before.names
  {
    var e := d.Removed(Marker);
    forall j: nat ensures e.Slot(j) == d.Slot(j) { }
    if !published {
      forall n ensures n in e.names <==> n in p.before.names {
        if n.Canonical? { assert d.Slot(n.index) == p.before.Slot(n.index); }
      }
      forall n | n in e.names ensures e.names[n] == p.before.names[n] {
        if n.Canonical? { assert d.Slot(n.index) == p.before.Slot(n.index); }
      }
      assert e.names == p.before.names;
    }
  }

  // ---------- What a completed recovery means ----------

  /** Atomicity: a directory with no rotation left over holds, in every slot up
      to the backup count, either exactly the files it held before or exactly
      the rotated ones; the second if and only if the commit rename happened. */
  lemma {:induction false} QuietMeansAtomic(p: Plan, published: bool, d: Directory)
    requires InFlight(p, published, d) && d.Quiet()
    ensures !published <==> Restored(p, d)
    ensures published <==> Published(p, d)
    ensures forall i :: i in p.before.files ==> i in d.files && d.files[i] == p.before.files[i]
  {
    if published {
      assert d.Slot(0) != p.before.Slot(0);
    } else {
      assert forall i: nat :: d.Slot(i) == p.before.Slot(i);
      assert d.Slot(0) == p.before.Slot(0);
    }
  }

  /** No directory satisfies both invariants, so recovery can tell them apart
      by the names alone. */
  lemma {:induction false} OutcomesExclude(p: Plan, d: Directory)
    requires p.Valid() && Uncommitted(p, d)
    ensures !Committed(p, d)
  {
    assert d.Slot(0) == p.before.Slot(0) || New in d.names;
  }
}
