/** When a directory holds a log, and what opening, repairing, appending and
    rotating do to the log it holds. */
module AuditLog {
  import opened Basics
  import opened AuditDirectory
  import opened AuditLines
  import opened AuditReplay
  import opened AuditGaps
  import opened AuditRotation

  /** A backup slot holds the lines of its file, and no file when there are none. */
  ghost predicate SlotHolds(d: Directory, i: nat, file: seq<Bytes>) {
    if file == [] then d.Slot(i) == None
    else d.Slot(i).Some? && d.Slot(i).value in d.files && d.files[d.Slot(i).value] == Flatten(file)
  }

  /** The slots are the files of the view, current first; only the current file
      may end in a torn line, and no backup is a second link to it. */
  ghost predicate Represents(d: Directory, v: View) {
    && d.WellFormed()
    && v != []
    && (d.Slot(0) == None ==> v[0] == [])
    && (d.Slot(0).Some? ==> Repaired(d.files[d.Slot(0).value]) == Flatten(v[0]))
    && (forall i: nat :: 0 < i < |v| ==> SlotHolds(d, i, v[i]))
    && (forall i: nat :: |v| <= i ==> d.Slot(i) == None)
    && (forall i: nat :: 0 < i && d.Slot(i).Some? ==> d.Slot(i) != d.Slot(0))
  }

  /** The current file exists and ends with a whole line. */
  ghost predicate Whole(d: Directory) {
    && d.Slot(0).Some?
    && d.Slot(0).value in d.files
    && Repaired(d.files[d.Slot(0).value]) == d.files[d.Slot(0).value]
  }

  ghost function Idle(d: Directory): Plan {
    Plan(d, 0, 0, [])
  }

  lemma IdleInFlight(d: Directory)
    requires d.WellFormed() && d.Quiet()
    ensures InFlight(Idle(d), false, d)
  {
    QuietStarts(Idle(d));
  }

  lemma RestoredRepresents(p: Plan, d: Directory, v: View)
    requires p.Valid() && Uncommitted(p, d) && Restored(p, d) && Represents(p.before, v)
    ensures Represents(d, v)
    ensures Whole(p.before) ==> Whole(d)
  {
    assert d.Slot(0) == p.before.Slot(0);
    forall i: nat | 0 < i
      ensures d.Slot(i).Some? ==> d.Slot(i) != d.Slot(0)
      ensures i < |v| ==> SlotHolds(d, i, v[i])
      ensures |v| <= i ==> d.Slot(i) == None
    {
      assert d.Slot(i) == p.before.Slot(i);
      assert i < |v| ==> SlotHolds(p.before, i, v[i]);
    }
  }

  /** The backups of a published rotation are the files of the old view. */
  lemma PublishedBackup(p: Plan, d: Directory, v: View, i: nat)
    requires p.Valid() && Committed(p, d) && Represents(p.before, v) && Whole(p.before)
    requires |v| <= p.backups + 1 && 0 < i && v[0] != []
    ensures d.Slot(i).Some? ==> d.Slot(i) != d.Slot(0)
    ensures i <= |v| && i <= p.backups ==> SlotHolds(d, i, v[i - 1])
    ensures i > |v| || i > p.backups ==> d.Slot(i) == None
  {
    assert d.Slot(i) == p.Shifted(i);
    if i <= p.backups {
      assert p.before.Slot(i - 1).Some? ==> p.before.Slot(i - 1).value < p.before.next;
      assert 1 < i <= |v| ==> SlotHolds(p.before, i - 1, v[i - 1]);
    }
  }

  lemma RotatedView(v: View, line: Bytes, backups: nat)
    requires v != [] && |v| <= backups + 1 && IsLine(line)
    ensures var w := Rotated(v, line, backups);
            && |w| == (if |v| <= backups then |v| + 1 else |v|)
            && Flatten(w[0]) == line
            && (forall i :: 0 < i < |w| ==> w[i] == v[i - 1])
    ensures Repaired(line) == line
  {
    FlattenAppend([], line);
    assert [] + [line] == [line];
  }

  /** A published rotation holds the rotated view. */
  lemma PublishedRepresents(p: Plan, d: Directory, v: View)
    requires p.Valid() && Committed(p, d) && Represents(p.before, v) && Whole(p.before)
    requires |v| <= p.backups + 1 && v[0] != [] && IsLine(p.line)
    ensures Represents(d, Rotated(v, p.line, p.backups)) && Whole(d)
  {
    var w := Rotated(v, p.line, p.backups);
    RotatedView(v, p.line, p.backups);
    forall i: nat | 0 < i
      ensures d.Slot(i).Some? ==> d.Slot(i) != d.Slot(0)
      ensures i < |w| ==> SlotHolds(d, i, w[i])
      ensures |w| <= i ==> d.Slot(i) == None
    {
      PublishedBackup(p, d, v, i);
    }
  }

  lemma CreatedRepresents(d: Directory, v: View)
    requires Represents(d, v) && Canonical(0) !in d.names
    ensures Represents(d.Created(Canonical(0)), v)
    ensures Whole(d.Created(Canonical(0)))
  {
    var e := d.Created(Canonical(0));
    forall i: nat | 0 < i
      ensures e.Slot(i) == d.Slot(i)
      ensures i < |v| ==> SlotHolds(e, i, v[i])
    {
      assert i < |v| ==> SlotHolds(d, i, v[i]);
    }
  }

  /** Only the current file's bytes change. */
  lemma StoredRepresents(d: Directory, v: View, content: Bytes, w: View)
    requires Represents(d, v) && Canonical(0) in d.names
    requires w != [] && w[1..] == v[1..] && Repaired(content) == Flatten(w[0])
    ensures Represents(d.Stored(d.names[Canonical(0)], content), w)
  {
    var e := d.Stored(d.names[Canonical(0)], content);
    assert d.Slot(0) == e.Slot(0) == Some(d.names[Canonical(0)]);
    assert |w| == |v|;
    forall i: nat | 0 < i
      ensures e.Slot(i) == d.Slot(i)
      ensures i < |w| ==> SlotHolds(e, i, w[i])
    {
      if i < |w| {
        assert w[1..][i - 1] == v[1..][i - 1];
        assert SlotHolds(d, i, v[i]);
      }
    }
  }

  /** Removing one backup. */
  lemma RemovedRepresents(d: Directory, v: View, slot: nat)
    requires Represents(d, v) && 0 < slot
    ensures Represents(d.Removed(Canonical(slot)), Without(v, slot))
    ensures Whole(d) ==> Whole(d.Removed(Canonical(slot)))
  {
    var (e, w) := (d.Removed(Canonical(slot)), Without(v, slot));
    assert e.Slot(0) == d.Slot(0);
    forall i: nat | 0 < i
      ensures e.Slot(i) == if i == slot then None else d.Slot(i)
      ensures i < |w| ==> SlotHolds(e, i, w[i])
    {
      assert i < |v| ==> SlotHolds(d, i, v[i]);
    }
  }

  /** Once nothing stands beyond the backups the view ends there. */
  lemma CutRepresents(d: Directory, v: View, backups: nat)
    requires Represents(d, v) && forall i: nat :: i > backups ==> d.Slot(i) == None
    ensures Represents(d, Cut(v, backups + 1))
  {
    var w := Cut(v, backups + 1);
    forall i: nat | 0 < i < |w| ensures SlotHolds(d, i, w[i]) {
      assert SlotHolds(d, i, v[i]);
    }
  }

  function CurrentRepaired(d: Directory): Directory
    requires Canonical(0) in d.names && d.names[Canonical(0)] in d.files
  {
    d.Stored(d.names[Canonical(0)], Repaired(d.files[d.names[Canonical(0)]]))
  }

  lemma RepairRepresents(d: Directory, v: View, e: Directory)
    requires Represents(d, v) && Canonical(0) in d.names && d.Quiet()
    requires e == d || e == CurrentRepaired(d)
    ensures Represents(e, v) && e.Quiet()
    ensures e == CurrentRepaired(d) ==> Whole(e)
  {
    var c := d.names[Canonical(0)];
    assert d.Slot(0) == Some(c);
    RepairedTwice(d.files[c]);
    StoredRepresents(d, v, Repaired(d.files[c]), v);
    assert CurrentRepaired(d).Slot(0) == Some(c);
  }

  lemma {:induction false} ReplayLines(history: seq<Entry>)
    requires AreLines(Records(history))
    ensures forall f :: f in Replay(history) ==> AreLines(f)
  {
    if history != [] {
      var (older, e) := (history[..|history| - 1], history[|history| - 1]);
      assert forall l :: l in Records(older) ==> l in Records(history);
      ReplayLines(older);
      ChangedLines(Replay(older), e);
    }
  }

  lemma ChangedLines(v: View, e: Entry)
    requires v != [] && (forall f :: f in v ==> AreLines(f)) && (e.Logged? ==> IsLine(e.line))
    ensures forall f :: f in Changed(v, e) ==> AreLines(f)
  {
    assert v[0] in v;
    forall f | f in Changed(v, e) ensures AreLines(f) {
      assert f in v || f == [] || (e.Logged? && (f == [e.line] || f == v[0] + [e.line]));
    }
  }

  /** The current file with more bytes at its end. */
  function CurrentExtended(d: Directory, tail: Bytes): Directory
    requires Canonical(0) in d.names && d.names[Canonical(0)] in d.files
  {
    d.Stored(d.names[Canonical(0)], d.files[d.names[Canonical(0)]] + tail)
  }

  /** The history once `k` bytes of `line` are in the file. */
  function HistoryAfter(history: seq<Entry>, line: Bytes, maxBytes: nat, backups: nat, k: nat): seq<Entry> {
    if k == |line| then history + [Logged(line, maxBytes, backups)] else history
  }

  lemma MoreLines(history: seq<Entry>, line: Bytes, maxBytes: nat, backups: nat)
    requires AreLines(Records(history)) && IsLine(line)
    ensures AreLines(Records(history + [Logged(line, maxBytes, backups)]))
  {
    RecordsStep(history, Logged(line, maxBytes, backups));
    assert forall l :: l in Records(history) + [line] ==> l in Records(history) || l == line;
  }

  /** However much of a line was appended, the directory holds the old log or
      the log with the whole new line. */
  lemma AppendRepresents(d: Directory, history: seq<Entry>, maxBytes: nat, backups: nat, line: Bytes, k: nat)
    requires Whole(d) && d.Quiet() && AreLines(Records(history)) && IsLine(line) && k <= |line|
    requires Represents(d, Replay(history))
    requires !RotationNeeded(|d.files[d.names[Canonical(0)]]|, |line|, maxBytes)
    ensures var e := CurrentExtended(d, line[..k]);
            var after := HistoryAfter(history, line, maxBytes, backups, k);
            && Represents(e, Replay(after)) && e.Quiet() && AreLines(Records(after))
            && |Replay(after)| == |Replay(history)|
            && (k == |line| ==> Whole(e))
  {
    var c := d.names[Canonical(0)];
    assert d.Slot(0) == Some(c);
    var v := Replay(history);
    ReplayLines(history);
    assert v[0] in v;
    TornLineDropped(v[0], line, k);
    var content := d.files[c] + line[..k];
    if k == |line| {
      ReplayStep(history, Logged(line, maxBytes, backups));
      MoreLines(history, line, maxBytes, backups);
      StoredRepresents(d, v, content, Appended(v, line));
      assert line[..k] == line;
      FlattenAppend(v[0], line);
      assert CurrentExtended(d, line[..k]).Slot(0) == Some(c);
    } else {
      StoredRepresents(d, v, content, v);
    }
  }

  /** Truncating to the old size undoes a partial append. */
  lemma TruncateUndoes(d: Directory, tail: Bytes)
    requires Canonical(0) in d.names && d.names[Canonical(0)] in d.files
    ensures var c := d.names[Canonical(0)];
            CurrentExtended(d, tail).Stored(c, CurrentExtended(d, tail).files[c][..|d.files[c]|]) == d
  {
    var c := d.names[Canonical(0)];
    assert (d.files[c] + tail)[..|d.files[c]|] == d.files[c];
    assert d.files[c := d.files[c] + tail][c := d.files[c]] == d.files;
  }

  /** The directory is the log's, whatever a rotation was doing to it: `base` is
      what the rotation started from, `history` what happened by now. */
  ghost predicate Keeping(p: Plan, published: bool, d: Directory, base: seq<Entry>, history: seq<Entry>) {
    && InFlight(p, published, d)
    && AreLines(Records(history))
    && Represents(p.before, Replay(base))
    && (!published ==> history == base)
    && (published ==>
          && IsLine(p.line)
          && Whole(p.before)
          && Replay(base)[0] != [] && |Replay(base)| <= p.backups + 1
          && Replay(history) == Rotated(Replay(base), p.line, p.backups))
  }

  lemma RotationKeeps(p: Plan, published: bool, d: Directory, base: seq<Entry>, maxBytes: nat)
    requires InFlight(p, published, d) && AreLines(Records(base)) && IsLine(p.line) && Whole(p.before)
    requires Represents(p.before, Replay(base)) && |Replay(base)| <= p.backups + 1
    requires RotationNeeded(|p.before.files[p.before.names[Canonical(0)]]|, |p.line|, maxBytes)
    ensures var history := if published then base + [Logged(p.line, maxBytes, p.backups)] else base;
            Keeping(p, published, d, base, history) && |Replay(history)| <= p.backups + 1
  {
    ReplayStep(base, Logged(p.line, maxBytes, p.backups));
    MoreLines(base, p.line, maxBytes, p.backups);
    assert p.before.Slot(0) == Some(p.before.names[Canonical(0)]);
    assert Flatten([]) == [];
  }

  lemma KeepingQuiet(p: Plan, published: bool, d: Directory, base: seq<Entry>, history: seq<Entry>)
    requires Keeping(p, published, d, base, history) && d.Quiet()
    ensures Represents(d, Replay(history))
    ensures published ==> Whole(d)
  {
    if published {
      PublishedRepresents(p, d, Replay(base));
    } else {
      QuietMeansAtomic(p, published, d);
      RestoredRepresents(p, d, Replay(base));
    }
  }

  /** The bytes of slot i, none when there is no such file. */
  function SlotBytes(d: Directory, i: nat): Bytes {
    if Canonical(i) in d.names && d.names[Canonical(i)] in d.files then d.files[d.names[Canonical(i)]] else []
  }

  /** All the log's bytes from slot `oldest` down to the current file. */
  function ReadBack(d: Directory, oldest: nat): Bytes {
    SlotBytes(d, oldest) + if oldest == 0 then [] else ReadBack(d, oldest - 1)
  }

  lemma FlattenConcat(a: seq<Bytes>, b: seq<Bytes>)
    ensures Flatten(a + b) == Flatten(a) + Flatten(b)
  {
    if b == [] {
      assert a + b == a;
    } else {
      assert (a + b)[..|a + b| - 1] == a + b[..|b| - 1];
      FlattenConcat(a, b[..|b| - 1]);
    }
  }

  lemma SlotReads(d: Directory, v: View, i: nat)
    requires Represents(d, v) && Whole(d)
    ensures SlotBytes(d, i) == if i < |v| then Flatten(v[i]) else []
  {
    assert Flatten([]) == [];
    assert 0 < i < |v| ==> SlotHolds(d, i, v[i]);
    assert |v| <= i ==> d.Slot(i) == None;
  }

  lemma ReadingUpTo(d: Directory, v: View, i: nat)
    requires Represents(d, v) && Whole(d) && i < |v|
    ensures ReadBack(d, i) == Flatten(Reading(v[..i + 1]))
  {
    SlotReads(d, v, i);
    ReadingTakeNext(v, i);
    FlattenConcat(v[i], Reading(v[..i]));
    if i > 0 {
      ReadingUpTo(d, v, i - 1);
    }
  }

  lemma ReadingTakeNext(v: View, i: nat)
    requires i < |v|
    ensures Reading(v[..i + 1]) == v[i] + Reading(v[..i])
  {
    ReadingSplit(v[..i + 1]);
    assert v[..i + 1][..i] == v[..i];
  }

  lemma ReadingSplit(v: View)
    requires v != []
    ensures Reading(v) == v[|v| - 1] + Reading(v[..|v| - 1])
  {
    if |v| > 1 {
      ReadingSplit(v[1..]);
      assert v[1..][..|v| - 2] == v[..|v| - 1][1..];
    }
  }

  lemma NothingBeyond(d: Directory, v: View, oldest: nat)
    requires Represents(d, v) && Whole(d) && |v| <= oldest
    ensures ReadBack(d, oldest) == ReadBack(d, oldest - 1)
  {
    SlotReads(d, v, oldest);
    assert [] + ReadBack(d, oldest - 1) == ReadBack(d, oldest - 1);
  }

  /** The bytes of the files, oldest first, are the lines of the view. */
  lemma {:induction false} ReadBackReads(d: Directory, v: View, oldest: nat)
    requires Represents(d, v) && Whole(d) && |v| <= oldest + 1
    ensures ReadBack(d, oldest) == Flatten(Reading(v))
  {
    if |v| == oldest + 1 {
      ReadingUpTo(d, v, oldest);
      assert v[..oldest + 1] == v;
    } else {
      NothingBeyond(d, v, oldest);
      ReadBackReads(d, v, oldest - 1);
    }
  }

  /** No backup stands behind a missing one. */
  ghost predicate Contiguous(d: Directory) {
    forall i: nat, j: nat :: 0 < i < j && d.Slot(j).Some? ==> d.Slot(i).Some?
  }

  lemma SolidIsContiguous(d: Directory, v: View)
    requires Represents(d, v)
    ensures Solid(v) <==> Contiguous(d)
  {
    forall i: nat | 0 < i ensures d.Slot(i) == None <==> i >= |v| || v[i] == [] {
      assert i < |v| ==> SlotHolds(d, i, v[i]);
    }
    if !Solid(v) {
      var i, j :| 0 < i < j < |v| && v[i] == [] && v[j] != [];
      assert d.Slot(j).Some? && !d.Slot(i).Some?;
    }
  }

  /** A settled directory, read from the oldest backup on, is some of the records in
      order; the newest part of them if no backup stands behind a missing one, and
      only then if the records can be told apart. */
  lemma LogReadsBack(d: Directory, history: seq<Entry>, backups: nat)
    requires Represents(d, Replay(history)) && Whole(d) && |Replay(history)| <= backups + 1
    ensures ReadBack(d, backups) == Flatten(Reading(Replay(history)))
    ensures Subsequence(Reading(Replay(history)), Records(history))
    ensures Contiguous(d) ==> IsSuffix(Reading(Replay(history)), Records(history))
    ensures Distinct(Records(history)) && IsSuffix(Reading(Replay(history)), Records(history)) ==> Contiguous(d)
  {
    var v := Replay(history);
    ReadBackReads(d, v, backups);
    HistoryHolds(history);
    HeldIsSubsequence(v, Records(history));
    SolidIsContiguous(d, v);
    if Solid(v) {
      HeldSolid(v, Records(history));
    } else if Distinct(Records(history)) {
      HeldGapped(v, Records(history));
    }
  }
  /** What one configuration leaves on disk: the newest records, at least as many as
      there are files, no gap, nothing beyond the backups, and no file that is larger
      than the limit unless it holds a single record, or was left while the next record
      still had room in it. */
  ghost predicate NewestOnDisk(d: Directory, records: seq<Bytes>, maxBytes: int, backups: int) {
    && (exists kept :: IsSuffix(kept, records) && ReadBack(d, MAX_BACKUPS) == Flatten(kept)
                       && |kept| >= (if |records| <= backups + 1 then |records| else backups + 1))
    && Contiguous(d)
    && (forall i: nat :: i > backups ==> d.Slot(i) == None)
    && (forall i: nat :: |SlotBytes(d, i)| <= maxBytes || IsLine(SlotBytes(d, i)))
    && (forall i: nat :: i > 0 && d.Slot(i).Some? ==> NoRoom(SlotBytes(d, i), SlotBytes(d, i - 1), maxBytes))
  }

  /** The first line of the next file would not have fit. */
  ghost predicate NoRoom(file: Bytes, next: Bytes, maxBytes: int) {
    exists line :: IsLine(line) && line <= next && |file| + |line| > maxBytes
  }

  lemma FlattenStarts(ls: seq<Bytes>)
    requires ls != []
    ensures ls[0] <= Flatten(ls)
  {
    assert ls == [ls[0]] + ls[1..];
    FlattenConcat([ls[0]], ls[1..]);
    FlattenOne(ls[0]);
  }

  lemma FilesFull(d: Directory, v: View, maxBytes: nat, i: nat)
    requires Represents(d, v) && Whole(d) && Full(v, maxBytes) && Bounded(v, maxBytes) && i > 0 && d.Slot(i).Some?
    ensures NoRoom(SlotBytes(d, i), SlotBytes(d, i - 1), maxBytes)
  {
    assert i < |v| && FullAt(v, maxBytes, i - 1);
    SlotReads(d, v, i);
    SlotReads(d, v, i - 1);
    FlattenStarts(v[i - 1]);
    assert v[i - 1] in v && v[i - 1][0] in v[i - 1];
  }

  lemma FilesBounded(d: Directory, v: View, maxBytes: nat)
    requires Represents(d, v) && Whole(d) && Bounded(v, maxBytes)
    ensures forall i: nat :: |SlotBytes(d, i)| <= maxBytes || IsLine(SlotBytes(d, i))
  {
    forall i: nat ensures |SlotBytes(d, i)| <= maxBytes || IsLine(SlotBytes(d, i)) {
      SlotReads(d, v, i);
      if i < |v| { BoundedFile(v, maxBytes, i); }
    }
  }

  lemma NoGap(d: Directory, history: seq<Entry>)
    requires Represents(d, Replay(history)) && (Records(history) != [] ==> NoneEmpty(Replay(history)))
    ensures Contiguous(d)
  {
    if Records(history) == [] { EmptyLog(history); }
    SolidIsContiguous(d, Replay(history));
  }

  lemma KeptOnDisk(d: Directory, history: seq<Entry>, maxBytes: nat, backups: nat)
    requires Represents(d, Replay(history)) && Whole(d) && AreLines(Records(history))
    requires KeptWith(history, maxBytes, backups) && backups <= MAX_BACKUPS
    ensures NewestOnDisk(d, Records(history), maxBytes, backups)
    ensures IsSuffix(Reading(Replay(history)), Records(history))
  {
    KeptIsNewest(history, maxBytes, backups);
    ReadBackReads(d, Replay(history), MAX_BACKUPS);
    FilesBounded(d, Replay(history), maxBytes);
    NoGap(d, history);
    forall i: nat | i > 0 && d.Slot(i).Some? ensures NoRoom(SlotBytes(d, i), SlotBytes(d, i - 1), maxBytes) {
      FilesFull(d, Replay(history), maxBytes, i);
    }
  }

  lemma EmptyLog(history: seq<Entry>)
    requires Records(history) == []
    ensures Solid(Replay(history))
  {
    HistoryHolds(history);
    SolidMeans(Replay(history));
  }

  lemma BoundedFile(v: View, maxBytes: nat, i: nat)
    requires Bounded(v, maxBytes) && i < |v|
    ensures |Flatten(v[i])| <= maxBytes || IsLine(Flatten(v[i]))
  {
    assert v[i] in v;
    assert Flatten([]) == [];
    if |v[i]| == 1 {
      FlattenOne(v[i][0]);
      assert v[i] == [v[i][0]];
    }
  }

  /** Three records on disk, each in a file of its own. */
  function ThreeOnDisk(a: Bytes, b: Bytes, c: Bytes): Directory {
    Directory(map[Canonical(0) := 2, Canonical(1) := 1, Canonical(2) := 0], map[0 := a, 1 := b, 2 := c], 3)
  }

  lemma ThreeRepresented(a: Bytes, b: Bytes, c: Bytes)
    requires IsLine(a) && IsLine(b) && IsLine(c)
    ensures var d := ThreeOnDisk(a, b, c);
            Represents(d, [[c], [b], [a]]) && d.Quiet() && Whole(d)
  {
    var (d, v) := (ThreeOnDisk(a, b, c), [[c], [b], [a]]);
    FlattenOne(a);
    FlattenOne(b);
    FlattenOne(c);
    WholeLinesKept([c]);
    assert SlotHolds(d, 1, v[1]) && SlotHolds(d, 2, v[2]);
  }

  /** The directory that the interrupted removal leaves: the second of three files is
      gone, and the log reads as the first and the third record. */
  lemma DirectoryWithAGap(a: Bytes, b: Bytes, c: Bytes)
    requires IsLine(a) && IsLine(b) && IsLine(c) && a != b
    ensures var d := ThreeOnDisk(a, b, c).Removed(Canonical(1));
            var history := ThreeFiles(a, b, c) + [Dropped(1)] + [Cleaned(2)];
            && Represents(ThreeOnDisk(a, b, c), Replay(ThreeFiles(a, b, c)))
            && Represents(d, Replay(history)) && d.Quiet() && Whole(d)
            && !Contiguous(d) && ReadBack(d, 2) == a + c
            && !IsSuffix(Reading(Replay(history)), Records(history))
  {
    ThreeFilesRead(a, b, c);
    ThreeRepresented(a, b, c);
    InterruptedRemovalLeavesAGap(a, b, c);
    TwoRepresented(a, b, c);
  }

  lemma TwoRepresented(a: Bytes, b: Bytes, c: Bytes)
    requires IsLine(a) && IsLine(b) && IsLine(c)
    ensures var d := ThreeOnDisk(a, b, c).Removed(Canonical(1));
            Represents(d, [[c], [], [a]]) && d.Quiet() && Whole(d) && !Contiguous(d) && ReadBack(d, 2) == a + c
  {
    var d := ThreeOnDisk(a, b, c).Removed(Canonical(1));
    ThreeRepresented(a, b, c);
    RemovedRepresents(ThreeOnDisk(a, b, c), [[c], [b], [a]], 1);
    assert Without([[c], [b], [a]], 1) == [[c], [], [a]];
    assert d.Slot(2).Some? && d.Slot(1) == None;
    ReadThreeBack(d, a, c);
  }

  lemma ReadThreeBack(d: Directory, a: Bytes, c: Bytes)
    requires SlotBytes(d, 0) == c && SlotBytes(d, 1) == [] && SlotBytes(d, 2) == a
    ensures ReadBack(d, 2) == a + c
  {
    assert ReadBack(d, 0) == c;
    assert ReadBack(d, 1) == c;
  }
}
