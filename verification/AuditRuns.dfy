/** Whole runs of the audit log: processes that open it one after the other, with
    whatever configurations, and write to it. */
module AuditRuns {
  import opened Basics
  import opened AuditDirectory
  import opened AuditLines
  import opened AuditReplay
  import opened AuditGaps
  import opened AuditRotation
  import opened AuditLog
  import opened AuditLogger

  const DEFAULT_MAX_BYTES: nat := 10485760
  const MAX_MAX_BYTES: nat := 67108864

  /** A process is started with options, or a logger that was opened writes. */
  datatype Operation = Open(maxBytes: int, backups: int) | WriteRecord(line: Bytes, durable: bool)

  predicate ValidOptions(maxBytes: int, backups: int) {
    0 <= maxBytes <= MAX_MAX_BYTES && 0 <= backups <= MAX_BACKUPS
  }

  function Attempted(ops: seq<Operation>): seq<Bytes> {
    if ops == [] then []
    else
      var rest := Attempted(ops[..|ops| - 1]);
      var last := ops[|ops| - 1];
      if last.WriteRecord? then rest + [last.line] else rest
  }

  ghost predicate AllLines(ops: seq<Operation>) {
    forall i :: 0 <= i < |ops| && ops[i].WriteRecord? ==> IsLine(ops[i].line)
  }

  /** A run that opens a logger before it writes, with options in range. */
  ghost predicate Proper(ops: seq<Operation>) {
    && (ops != [] ==> ops[0].Open?)
    && forall i :: 0 <= i < |ops| && ops[i].Open? ==> ValidOptions(ops[i].maxBytes, ops[i].backups)
  }

  /** The fewest backups asked for by an opening that did not finish, forgotten once
      one with as few or fewer did.  Below it the log has no gap. */
  function Narrowest(low: Option<nat>, backups: nat, finished: bool): Option<nat> {
    if finished then (if low.Some? && backups > low.value then low else None)
    else Some(if low.Some? && low.value < backups then low.value else backups)
  }

  ghost predicate GapsAbove(v: View, low: Option<nat>) {
    if low == None then Solid(v) else Packed(v, low.value)
  }

  /** A settled directory reads, byte for byte, as some of the records in order; as the
      newest of them if no backup stands behind a missing one, and only then if the
      records can be told apart. */
  ghost predicate Settled(history: seq<Entry>, d: Directory) {
    && d.Quiet()
    && Represents(d, Replay(history))
    && ReadBack(d, MAX_BACKUPS) == Flatten(Reading(Replay(history)))
    && Subsequence(Reading(Replay(history)), Records(history))
    && (Contiguous(d) ==> IsSuffix(Reading(Replay(history)), Records(history)))
    && (Distinct(Records(history)) && IsSuffix(Reading(Replay(history)), Records(history)) ==> Contiguous(d))
  }

  /** The files hold some of a sequence of records that contains the acknowledged ones
      and only attempted ones, in order, and nothing else; the newest of them if
      `newest`. */
  ghost predicate Conserved(acknowledged: seq<Bytes>, attempted: seq<Bytes>, d: Directory, newest: bool) {
    exists history :: Accounted(acknowledged, Records(history), attempted) && Settled(history, d)
                      && (newest ==> Contiguous(d))
  }

  // ---------- What the operations alone say ----------

  /** The records of the writes that succeeded. */
  function Succeeded(ops: seq<Operation>, done: seq<bool>): seq<Bytes>
    requires |done| == |ops|
  {
    if ops == [] then []
    else
      var rest := Succeeded(ops[..|ops| - 1], done[..|ops| - 1]);
      var last := ops[|ops| - 1];
      if last.WriteRecord? && done[|ops| - 1] then rest + [last.line] else rest
  }

  predicate IsOpening(op: Operation) {
    op.Open? && ValidOptions(op.maxBytes, op.backups)
  }

  function Lower(low: Option<nat>, op: Operation, finished: bool): Option<nat> {
    if IsOpening(op) then Narrowest(low, op.backups, finished) else low
  }

  function Lowest(ops: seq<Operation>, done: seq<bool>): Option<nat>
    requires |done| == |ops|
  {
    if ops == [] then None
    else Lower(Lowest(ops[..|ops| - 1], done[..|ops| - 1]), ops[|ops| - 1], done[|ops| - 1])
  }

  /** An opening that did not finish, and no later one did with as few backups. */
  ghost predicate Pending(ops: seq<Operation>, done: seq<bool>, i: nat)
    requires |done| == |ops|
  {
    && i < |ops| && IsOpening(ops[i]) && !done[i]
    && forall j :: i < j < |ops| && IsOpening(ops[j]) && done[j] ==> ops[j].backups > ops[i].backups
  }

  lemma PendingBefore(ops: seq<Operation>, done: seq<bool>, i: nat)
    requires |done| == |ops| && i < |ops| - 1
    ensures var (n, op) := (|ops| - 1, ops[|ops| - 1]);
            Pending(ops, done, i) <==>
              Pending(ops[..n], done[..n], i) && !(IsOpening(op) && done[n] && op.backups <= ops[i].backups)
  {
    var n := |ops| - 1;
    if Pending(ops[..n], done[..n], i) && !(IsOpening(ops[n]) && done[n] && ops[n].backups <= ops[i].backups) {
      forall j | i < j < |ops| && IsOpening(ops[j]) && done[j] ensures ops[j].backups > ops[i].backups {
        if j < n { assert ops[..n][j] == ops[j] && done[..n][j] == done[j]; }
      }
    }
    if Pending(ops, done, i) {
      forall j | i < j < n && IsOpening(ops[..n][j]) && done[..n][j] ensures ops[..n][j].backups > ops[i].backups {
        assert ops[j] == ops[..n][j];
      }
    }
  }

  ghost predicate IsLowest(ops: seq<Operation>, done: seq<bool>, low: Option<nat>)
    requires |done| == |ops|
  {
    && (forall i: nat :: Pending(ops, done, i) ==> low.Some? && low.value <= ops[i].backups)
    && (low.Some? ==> exists i: nat :: Pending(ops, done, i) && ops[i].backups == low.value)
  }

  /** The log can have a gap only while such an opening is pending, and only beyond the
      fewest backups of those. */
  lemma {:induction false} LowestMeans(ops: seq<Operation>, done: seq<bool>)
    requires |done| == |ops|
    ensures IsLowest(ops, done, Lowest(ops, done))
    ensures Lowest(ops, done) == None <==> forall i: nat :: !Pending(ops, done, i)
  {
    if ops != [] {
      var n := |ops| - 1;
      LowestMeans(ops[..n], done[..n]);
      LowerIsLowest(ops, done, Lowest(ops[..n], done[..n]));
    }
  }

  lemma LowerIsLowest(ops: seq<Operation>, done: seq<bool>, low: Option<nat>)
    requires |done| == |ops| && ops != []
    requires IsLowest(ops[..|ops| - 1], done[..|ops| - 1], low)
    ensures IsLowest(ops, done, Lower(low, ops[|ops| - 1], done[|ops| - 1]))
  {
    var n := |ops| - 1;
    var (op, next) := (ops[n], Lower(low, ops[n], done[n]));
    forall i: nat | Pending(ops, done, i) ensures next.Some? && next.value <= ops[i].backups {
      if i < n {
        PendingBefore(ops, done, i);
        assert ops[..n][i] == ops[i];
      }
    }
    if next.Some? {
      if IsOpening(op) && !done[n] && next.value == op.backups {
        assert Pending(ops, done, n);
      } else {
        var i: nat :| Pending(ops[..n], done[..n], i) && ops[..n][i].backups == low.value;
        PendingBefore(ops, done, i);
        assert Pending(ops, done, i) && ops[i].backups == next.value;
      }
    }
  }

  datatype Options = Options(maxBytes: int, backups: int)

  /** What the first opening of a run asks for. */
  function FirstOptions(ops: seq<Operation>): Options {
    if ops == [] then Options(0, 0)
    else if ops[0].Open? then Options(ops[0].maxBytes, ops[0].backups)
    else FirstOptions(ops[1..])
  }

  predicate Asks(op: Operation, o: Options) {
    op.Open? ==> op.maxBytes == o.maxBytes && op.backups == o.backups
  }

  ghost predicate AllAsk(ops: seq<Operation>, o: Options) {
    forall i :: 0 <= i < |ops| ==> Asks(ops[i], o)
  }

  /** All openings of a run ask for the same. */
  ghost predicate Alike(ops: seq<Operation>) {
    AllAsk(ops, FirstOptions(ops))
  }

  lemma {:induction false} FirstIsAsked(ops: seq<Operation>)
    requires exists i :: 0 <= i < |ops| && ops[i].Open?
    ensures exists i :: 0 <= i < |ops| && ops[i].Open? && Asks(ops[i], FirstOptions(ops))
  {
    if !ops[0].Open? {
      var i :| 0 <= i < |ops| && ops[i].Open?;
      assert ops[1..][i - 1] == ops[i];
      FirstIsAsked(ops[1..]);
      var k :| 0 <= k < |ops[1..]| && ops[1..][k].Open? && Asks(ops[1..][k], FirstOptions(ops[1..]));
      assert ops[k + 1] == ops[1..][k];
    }
  }

  /** No two openings ask for different options, and those of any opening are the first. */
  lemma {:induction false} AlikeMeans(ops: seq<Operation>)
    ensures Alike(ops) <==>
              forall i, j :: 0 <= i < j < |ops| && ops[i].Open? && ops[j].Open? ==>
                ops[i].maxBytes == ops[j].maxBytes && ops[i].backups == ops[j].backups
    ensures Alike(ops) ==>
              forall i :: 0 <= i < |ops| && ops[i].Open? ==>
                FirstOptions(ops) == Options(ops[i].maxBytes, ops[i].backups)
  {
    if exists i :: 0 <= i < |ops| && ops[i].Open? {
      FirstIsAsked(ops);
      var k :| 0 <= k < |ops| && ops[k].Open? && Asks(ops[k], FirstOptions(ops));
      assert Alike(ops) ==> forall i :: 0 <= i < |ops| ==> Asks(ops[i], FirstOptions(ops));
    }
  }

  function Limit(maxBytes: int): int {
    if maxBytes == 0 then DEFAULT_MAX_BYTES else maxBytes
  }

  // ---------- Where each entry comes from ----------

  /** The j-th operation is the last opening before the n-th. */
  ghost predicate OpenedLast(ops: seq<Operation>, n: nat, j: nat) {
    j < n <= |ops| && ops[j].Open? && forall k :: j < k < n ==> ops[k].WriteRecord?
  }

  /** What an opening asks for; no size means ten megabytes. */
  ghost predicate AskedFor(op: Operation, maxBytes: nat, backups: nat) {
    op.Open? && backups == op.backups && maxBytes == if op.maxBytes == 0 then 10485760 else op.maxBytes
  }

  /** Only options in range can be opened with. */
  ghost predicate InRange(op: Operation) {
    op.Open? ==> 0 <= op.maxBytes <= 67108864 && 0 <= op.backups <= 100
  }

  ghost predicate OpenedWith(ops: seq<Operation>, done: seq<bool>, n: nat, maxBytes: nat, backups: nat) {
    exists j: nat :: OpenedLast(ops, n, j) && j < |done| && done[j] && AskedFor(ops[j], maxBytes, backups)
  }

  /** The entry was made by the n-th operation: a record by its write, under the
      configuration of the last opening before it, which succeeded, and a removal by an
      opening that wants no more backups. */
  ghost predicate MadeBy(ops: seq<Operation>, done: seq<bool>, e: Entry, n: nat) {
    n < |ops|
    && match e
       case Logged(line, maxBytes, backups) =>
         ops[n].WriteRecord? && ops[n].line == line && OpenedWith(ops, done, n, maxBytes, backups)
       case Dropped(slot) => ops[n].Open? && slot > ops[n].backups
       case Cleaned(backups) => ops[n].Open? && backups == ops[n].backups
  }

  /** Two entries, the second of them later; no write makes more than one. */
  ghost predicate After(history: seq<Entry>, at: seq<nat>, i: nat, j: nat)
    requires i < j < |history| == |at|
  {
    at[i] <= at[j] && (history[i].Logged? || history[j].Logged? ==> at[i] < at[j])
  }

  /** `at` says which operation made each entry. */
  ghost predicate Traced(ops: seq<Operation>, done: seq<bool>, history: seq<Entry>, at: seq<nat>) {
    && |at| == |history|
    && (forall k :: 0 <= k < |history| ==> MadeBy(ops, done, history[k], at[k]))
    && forall i, j :: 0 <= i < j < |history| ==> After(history, at, i, j)
  }

  lemma MadeByMore(ops: seq<Operation>, done: seq<bool>, op: Operation, d: bool, e: Entry, n: nat)
    requires MadeBy(ops, done, e, n)
    ensures MadeBy(ops + [op], done + [d], e, n)
  {
    if e.Logged? {
      var j: nat :| OpenedLast(ops, n, j) && j < |done| && done[j] && AskedFor(ops[j], e.maxBytes, e.backups);
      assert OpenedLast(ops + [op], n, j) && (done + [d])[j];
    }
  }

  /** What one operation adds to a history. */
  ghost predicate Adds(op: Operation, before: seq<Entry>, after: seq<Entry>, live: bool, maxBytes: nat, backups: nat) {
    match op
    case Open(_, b) => if b < 0 then after == before else Trims(before, after, b)
    case WriteRecord(line, _) => after == before || (live && after == before + [Logged(line, maxBytes, backups)])
  }

  /** The operations that made the entries, after one more. */
  function Extended(at: seq<nat>, size: nat, n: nat): (r: seq<nat>)
    ensures |at| <= size ==> |r| == size
  {
    if |at| < size then at + seq(size - |at|, _ => n) else at
  }

  lemma AddedEntry(ops: seq<Operation>, done: seq<bool>, op: Operation, d: bool, before: seq<Entry>, after: seq<Entry>,
                   live: bool, maxBytes: nat, backups: nat, k: nat)
    requires Adds(op, before, after, live, maxBytes, backups) && |before| <= k < |after|
    requires live ==> OpenedWith(ops, done, |ops|, maxBytes, backups)
    ensures before <= after && (after[k].Logged? <==> op.WriteRecord?)
    ensures MadeBy(ops + [op], done + [d], after[k], |ops|) && (op.WriteRecord? ==> |after| == |before| + 1)
  {
    if op.WriteRecord? {
      var j: nat :| OpenedLast(ops, |ops|, j) && j < |done| && done[j] && AskedFor(ops[j], maxBytes, backups);
      assert OpenedLast(ops + [op], |ops|, j) && (done + [d])[j];
    }
  }

  lemma TracedMore(ops: seq<Operation>, done: seq<bool>, op: Operation, d: bool, before: seq<Entry>, after: seq<Entry>,
                   at: seq<nat>, live: bool, maxBytes: nat, backups: nat)
    requires Traced(ops, done, before, at) && Adds(op, before, after, live, maxBytes, backups)
    requires live ==> OpenedWith(ops, done, |ops|, maxBytes, backups)
    ensures Traced(ops + [op], done + [d], after, Extended(at, |after|, |ops|))
  {
    var more := Extended(at, |after|, |ops|);
    forall k | 0 <= k < |after| ensures MadeBy(ops + [op], done + [d], after[k], more[k]) {
      if k < |before| {
        MadeByMore(ops, done, op, d, before[k], at[k]);
      } else {
        AddedEntry(ops, done, op, d, before, after, live, maxBytes, backups, k);
      }
    }
    forall i, j | 0 <= i < j < |after| ensures After(after, more, i, j) {
      if j < |before| {
        assert After(before, at, i, j);
      } else {
        AddedEntry(ops, done, op, d, before, after, live, maxBytes, backups, j);
        if i < |before| { assert MadeBy(ops, done, before[i], at[i]); }
      }
    }
  }

  lemma StillOpened(ops: seq<Operation>, done: seq<bool>, op: Operation, d: bool, maxBytes: nat, backups: nat)
    requires op.WriteRecord? && OpenedWith(ops, done, |ops|, maxBytes, backups)
    ensures OpenedWith(ops + [op], done + [d], |ops| + 1, maxBytes, backups)
  {
    var j: nat :| OpenedLast(ops, |ops|, j) && j < |done| && done[j] && AskedFor(ops[j], maxBytes, backups);
    assert OpenedLast(ops + [op], |ops| + 1, j) && (done + [d])[j];
  }

  lemma NowOpened(ops: seq<Operation>, done: seq<bool>, op: Operation, maxBytes: nat, backups: nat)
    requires |done| == |ops| && AskedFor(op, maxBytes, backups)
    ensures OpenedWith(ops + [op], done + [true], |ops| + 1, maxBytes, backups)
  {
    assert OpenedLast(ops + [op], |ops| + 1, |ops|) && (done + [true])[|ops|];
  }

  lemma TraceNext(ops: seq<Operation>, done: seq<bool>, op: Operation, d: bool, before: seq<Entry>, after: seq<Entry>,
                  at: seq<nat>, live: bool, maxBytes: nat, backups: nat, still: bool, nextMax: nat, nextBackups: nat)
    requires |done| == |ops| && Traced(ops, done, before, at) && Adds(op, before, after, live, maxBytes, backups)
    requires live ==> OpenedWith(ops, done, |ops|, maxBytes, backups)
    requires still ==> if op.Open? then d && AskedFor(op, nextMax, nextBackups)
                       else live && nextMax == maxBytes && nextBackups == backups
    ensures Traced(ops + [op], done + [d], after, Extended(at, |after|, |ops|))
    ensures still ==> OpenedWith(ops + [op], done + [d], |ops| + 1, nextMax, nextBackups)
  {
    TracedMore(ops, done, op, d, before, after, at, live, maxBytes, backups);
    if still {
      if op.WriteRecord? {
        StillOpened(ops, done, op, d, maxBytes, backups);
      } else {
        NowOpened(ops, done, op, nextMax, nextBackups);
      }
    }
  }

  // ---------- Runs ----------

  /** Record conservation over whole runs from an empty directory, opened with any
      configurations in turn, with any calls failing and the process stopping anywhere.
      `done` says which operations succeeded, and `at` which of them made each entry of
      the history, under the configuration it had asked for.  The records on record are the
      acknowledged ones and perhaps some of the others, once each and in order (all of
      them when no call fails), and after an operation that succeeds the files hold
      some of them in order.  They are the newest ones if no opening with fewer backups
      is pending, and in particular if all openings ask for the same. */
  method Run(ops: seq<Operation>)
      returns (done: seq<bool>, acknowledged: seq<Bytes>, d: Directory, ghost history: seq<Entry>, ghost at: seq<nat>,
               ghost faults: nat)
    requires AllLines(ops)
    ensures |done| == |ops| && acknowledged == Succeeded(ops, done)
    ensures Traced(ops, done, history, at) && forall i :: 0 <= i < |ops| && done[i] ==> InRange(ops[i])
    ensures Accounted(acknowledged, Records(history), Attempted(ops))
    ensures faults == 0 && Proper(ops) ==> acknowledged == Records(history) == Attempted(ops)
    ensures done != [] && done[|done| - 1] ==>
              && Settled(history, d)
              && Conserved(acknowledged, Attempted(ops), d, Lowest(ops, done) == None)
              && (Lowest(ops, done) == None ==> Contiguous(d))
    ensures done != [] && done[|done| - 1] && Alike(ops) ==>
              var o := FirstOptions(ops);
              && IsSuffix(Reading(Replay(history)), Records(history))
              && NewestOnDisk(d, Records(history), Limit(o.maxBytes), o.backups)
              && forall i: nat :: |SlotBytes(d, i)| <= (if o.maxBytes == 0 then 10485760 else o.maxBytes)
                                  || IsLine(SlotBytes(d, i))
  {
    ghost var o := FirstOptions(ops);
    var logger, status;
    logger, status, done, at := RunAll(ops, o);
    acknowledged, d := status.acknowledged, logger.dir;
    history, faults := logger.history, logger.faults;
    if status.settled {
      SettledNow(logger, status.low);
      if Alike(ops) { SettledAlike(logger, status, o); }
    }
  }

  /** What a run knows between operations: whether there is a process with a logger
      that it may write with, whether the last operation succeeded, and which records
      were acknowledged. */
  datatype Status = Status(live: bool, settled: bool, low: Option<nat>, acknowledged: seq<Bytes>)

  /** Nothing was lost so far. */
  ghost predicate Flawless(s: Status, history: seq<Entry>, attempted: seq<Bytes>, opening: bool) {
    s.acknowledged == Records(history) == attempted && s.low == None && (s.live || opening)
  }

  ghost predicate Usable(logger: Logger, s: Status)
    reads logger
  {
    && (s.live ==> logger.Fits())
    && (s.settled ==> s.live && logger.dir.Quiet() && Whole(logger.dir))
    && GapsAbove(Replay(logger.history), s.low)
  }

  /** Whoever wrote so far had these options, and so has the logger that is open. */
  ghost predicate Same(logger: Logger, s: Status, o: Options)
    reads logger
  {
    && KeptWith(logger.history, Limit(o.maxBytes), o.backups)
    && (s.live ==> ValidOptions(o.maxBytes, o.backups)
                   && logger.maxBytes == Limit(o.maxBytes) && logger.backups == o.backups)
  }

  lemma SettledNow(logger: Logger, low: Option<nat>)
    requires logger.Valid() && logger.Fits() && logger.dir.Quiet() && Whole(logger.dir)
    requires GapsAbove(Replay(logger.history), low)
    ensures Settled(logger.history, logger.dir) && (low == None ==> Contiguous(logger.dir))
  {
    logger.QuietRepresents();
    LogReadsBack(logger.dir, logger.history, MAX_BACKUPS);
    SolidIsContiguous(logger.dir, Replay(logger.history));
  }

  lemma SettledAlike(logger: Logger, s: Status, o: Options)
    requires logger.Valid() && logger.dir.Quiet() && Whole(logger.dir) && s.live && Same(logger, s, o)
    ensures IsSuffix(Reading(Replay(logger.history)), Records(logger.history))
    ensures NewestOnDisk(logger.dir, Records(logger.history), Limit(o.maxBytes), o.backups)
  {
    logger.QuietRepresents();
    KeptOnDisk(logger.dir, logger.history, Limit(o.maxBytes), o.backups);
  }

  /** The accounts are right, and perfect if nothing went wrong. */
  ghost predicate Sound(s: Status, history: seq<Entry>, attempted: seq<Bytes>, perfect: bool, opening: bool) {
    && Accounted(s.acknowledged, Records(history), attempted)
    && (perfect ==> Flawless(s, history, attempted, opening))
  }

  /** Where a run stands: what is known of its logger. */
  ghost predicate Stands(logger: Logger, s: Status, ops: seq<Operation>, o: Options)
    reads logger
  {
    && logger.Valid() && Usable(logger, s) && (AllAsk(ops, o) ==> Same(logger, s, o))
    && Sound(s, logger.history, Attempted(ops), logger.faults == 0 && Proper(ops), ops == [])
  }

  /** What the operations say about it. */
  ghost predicate Said(history: seq<Entry>, maxBytes: nat, backups: nat, s: Status, ops: seq<Operation>,
                       done: seq<bool>, at: seq<nat>)
  {
    && |done| == |ops| && s.settled == (done != [] && done[|done| - 1])
    && s.acknowledged == Succeeded(ops, done) && s.low == Lowest(ops, done)
    && Traced(ops, done, history, at) && (forall i :: 0 <= i < |ops| && done[i] ==> InRange(ops[i]))
    && (s.live ==> OpenedWith(ops, done, |ops|, maxBytes, backups))
  }

  /** What one operation does to that. */
  ghost predicate Moves(op: Operation, before: seq<Entry>, after: seq<Entry>, s: Status, t: Status,
                        maxBytes: nat, backups: nat, nextMax: nat, nextBackups: nat)
  {
    && Adds(op, before, after, s.live, maxBytes, backups)
    && (t.settled ==> InRange(op))
    && t.low == Lower(s.low, op, t.settled)
    && t.acknowledged == (if op.WriteRecord? && t.settled then s.acknowledged + [op.line] else s.acknowledged)
    && (t.live ==> if op.Open? then t.settled && AskedFor(op, nextMax, nextBackups)
                   else s.live && nextMax == maxBytes && nextBackups == backups)
  }

  lemma SaidNext(ops: seq<Operation>, done: seq<bool>, at: seq<nat>, op: Operation, before: seq<Entry>,
                 after: seq<Entry>, s: Status, t: Status, maxBytes: nat, backups: nat, nextMax: nat, nextBackups: nat)
    requires Said(before, maxBytes, backups, s, ops, done, at)
    requires Moves(op, before, after, s, t, maxBytes, backups, nextMax, nextBackups)
    ensures Said(after, nextMax, nextBackups, t, ops + [op], done + [t.settled], Extended(at, |after|, |ops|))
  {
    assert (ops + [op])[..|ops|] == ops && (done + [t.settled])[..|done|] == done;
    TraceNext(ops, done, op, t.settled, before, after, at, s.live, maxBytes, backups, t.live, nextMax, nextBackups);
  }

  method RunAll(ops: seq<Operation>, ghost o: Options)
      returns (logger: Logger, s: Status, done: seq<bool>, ghost at: seq<nat>)
    requires AllLines(ops)
    ensures fresh(logger) && Stands(logger, s, ops, o)
    ensures Said(logger.history, logger.maxBytes, logger.backups, s, ops, done, at)
  {
    if ops == [] {
      logger, s, done, at := RunNothing(o);
    } else {
      var front := ops[..|ops| - 1];
      logger, s, done, at := RunAll(front, o);
      logger, s, done, at := RunOne(logger, s, ops, front, done, at, ops[|ops| - 1], o);
    }
  }

  method RunNothing(ghost o: Options) returns (logger: Logger, s: Status, done: seq<bool>, ghost at: seq<nat>)
    ensures fresh(logger) && Stands(logger, s, [], o)
    ensures Said(logger.history, logger.maxBytes, logger.backups, s, [], done, at)
  {
    logger := new Logger(0, 0, Directory(map[], map[], 0));
    s := Status(false, false, None, []);
    done, at := [], [];
  }

  lemma NextFine(ops: seq<Operation>, front: seq<Operation>, op: Operation, o: Options)
    requires ops == front + [op] && AllLines(ops)
    ensures op.WriteRecord? ==> IsLine(op.line)
    ensures Proper(ops) ==> Proper(front) && Fine(op, front == [])
    ensures AllAsk(ops, o) ==> AllAsk(front, o) && Asks(op, o)
    ensures Attempted(ops) == if op.WriteRecord? then Attempted(front) + [op.line] else Attempted(front)
  {
    assert ops[..|ops| - 1] == front && ops[|front|] == op;
    ProperFront(ops);
    AskFront(ops, o);
  }

  /** One operation more. */
  method RunOne(logger: Logger, s: Status, ghost ops: seq<Operation>, ghost front: seq<Operation>, before: seq<bool>,
                ghost was: seq<nat>, op: Operation, ghost o: Options)
      returns (next: Logger, t: Status, done: seq<bool>, ghost at: seq<nat>)
    requires ops == front + [op] && AllLines(ops) && Stands(logger, s, front, o)
    requires Said(logger.history, logger.maxBytes, logger.backups, s, front, before, was)
    modifies logger
    ensures (next == logger || fresh(next)) && Stands(next, t, ops, o)
    ensures Said(next.history, next.maxBytes, next.backups, t, ops, done, at)
  {
    ghost var h := logger.history;
    next, t := RunStep(logger, s, ops, front, op, o);
    done := before + [t.settled];
    at := Extended(was, |next.history|, |front|);
    SaidNext(front, before, was, op, h, next.history, s, t, logger.maxBytes, logger.backups,
             next.maxBytes, next.backups);
  }

  method RunStep(logger: Logger, s: Status, ghost ops: seq<Operation>, ghost front: seq<Operation>, op: Operation,
                 ghost o: Options)
      returns (next: Logger, t: Status)
    requires ops == front + [op] && AllLines(ops) && Stands(logger, s, front, o)
    modifies logger
    ensures (next == logger || fresh(next)) && Stands(next, t, ops, o)
    ensures Moves(op, old(logger.history), next.history, s, t, logger.maxBytes, logger.backups,
                  next.maxBytes, next.backups)
  {
    NextFine(ops, front, op, o);
    next, t := Operate(logger, s, op, Attempted(front), Proper(ops), front == [], AllAsk(ops, o), o);
  }

  lemma ProperFront(ops: seq<Operation>)
    requires ops != []
    ensures Proper(ops) ==> Proper(ops[..|ops| - 1]) && Fine(ops[|ops| - 1], |ops| == 1)
  {
  }

  lemma AskFront(ops: seq<Operation>, o: Options)
    requires ops != []
    ensures AllAsk(ops, o) ==> AllAsk(ops[..|ops| - 1], o) && Asks(ops[|ops| - 1], o)
  {
  }

  /** What a proper run may do next. */
  ghost predicate Fine(op: Operation, opening: bool) {
    if op.Open? then ValidOptions(op.maxBytes, op.backups) else !opening
  }

  /** One operation of a run, what it adds to the acknowledged records, and what it says
      about gaps. */
  method Operate(logger: Logger, s: Status, op: Operation, ghost attempted: seq<Bytes>, ghost proper: bool,
                 ghost opening: bool, ghost alike: bool, ghost o: Options)
      returns (next: Logger, t: Status)
    requires logger.Valid() && Usable(logger, s) && (op.WriteRecord? ==> IsLine(op.line))
    requires Sound(s, logger.history, attempted, logger.faults == 0 && proper, opening)
    requires proper ==> Fine(op, opening)
    requires alike ==> Same(logger, s, o) && Asks(op, o)
    modifies logger
    ensures (next == logger || fresh(next)) && next.Valid() && Usable(next, t)
    ensures Sound(t, next.history, if op.WriteRecord? then attempted + [op.line] else attempted,
                  next.faults == 0 && proper, false)
    ensures Moves(op, old(logger.history), next.history, s, t, logger.maxBytes, logger.backups,
                  next.maxBytes, next.backups)
    ensures alike ==> Same(next, t, o)
  {
    if op.WriteRecord? {
      next, t := logger, s.(live := false, settled := false);
      if s.live {
        t := OperateWrite(logger, s, op, attempted, proper, opening, alike, o);
      } else {
        AccountedStep(s.acknowledged, Records(logger.history), attempted, op.line);
      }
    } else {
      next, t := OperateOpen(logger, s, op, attempted, proper, opening, alike, o);
    }
  }

  /** How a write changed the records and the acknowledged ones. */
  ghost predicate Written(s: Status, t: Status, before: seq<Bytes>, after: seq<Bytes>, line: Bytes) {
    && t.low == s.low && (t.settled ==> t.live)
    && if t.settled then after == before + [line] && t.acknowledged == s.acknowledged + [line]
       else (after == before || after == before + [line]) && t.acknowledged == s.acknowledged
  }

  lemma WriteIsSound(s: Status, t: Status, before: seq<Entry>, after: seq<Entry>, attempted: seq<Bytes>, line: Bytes,
                     perfect: bool, still: bool, opening: bool)
    requires Sound(s, before, attempted, perfect, opening) && Written(s, t, Records(before), Records(after), line)
    requires still ==> perfect && t.settled
    ensures Sound(t, after, attempted + [line], still, false)
  {
    AccountedStep(s.acknowledged, Records(before), attempted, line);
  }

  method OperateWrite(logger: Logger, s: Status, op: Operation, ghost attempted: seq<Bytes>, ghost proper: bool,
                      ghost opening: bool, ghost alike: bool, ghost o: Options)
      returns (t: Status)
    requires logger.Valid() && Usable(logger, s) && s.live && op.WriteRecord? && IsLine(op.line)
    requires Sound(s, logger.history, attempted, logger.faults == 0 && proper, opening)
    requires alike ==> Same(logger, s, o)
    modifies logger
    ensures logger.Valid() && Usable(logger, t) && t.low == s.low
    ensures Sound(t, logger.history, attempted + [op.line], logger.faults == 0 && proper, false)
    ensures t.acknowledged == if t.settled then s.acknowledged + [op.line] else s.acknowledged
    ensures alike ==> Same(logger, t, o)
    ensures Adds(op, old(logger.history), logger.history, true, logger.maxBytes, logger.backups)
  {
    ghost var (h, faults) := (logger.history, logger.faults);
    t := WriteOne(logger, s, op.line, op.durable);
    WriteIsSound(s, t, h, logger.history, attempted, op.line,
                 faults == 0 && proper, logger.faults == 0 && proper, opening);
    if alike { LoggedKeptWith(h, Logged(op.line, logger.maxBytes, logger.backups), Limit(o.maxBytes), o.backups); }
  }

  lemma LoggedKeptWith(history: seq<Entry>, e: Entry, maxBytes: int, backups: int)
    requires KeptWith(history, maxBytes, backups) && EntryOf(e, maxBytes, backups)
    ensures KeptWith(history + [e], maxBytes, backups)
  {
  }

  method OperateOpen(logger: Logger, s: Status, op: Operation, ghost attempted: seq<Bytes>, ghost proper: bool,
                     ghost opening: bool, ghost alike: bool, ghost o: Options)
      returns (next: Logger, t: Status)
    requires logger.Valid() && Usable(logger, s) && op.Open?
    requires Sound(s, logger.history, attempted, logger.faults == 0 && proper, opening)
    requires proper ==> Fine(op, opening)
    requires alike ==> Same(logger, s, o) && Asks(op, o)
    ensures (next == logger || fresh(next)) && next.Valid() && Usable(next, t)
    ensures Sound(t, next.history, attempted, next.faults == 0 && proper, false)
    ensures t.low == Lower(s.low, op, t.settled) && t.acknowledged == s.acknowledged
    ensures alike ==> Same(next, t, o)
    ensures Adds(op, logger.history, next.history, s.live, logger.maxBytes, logger.backups)
    ensures (t.settled ==> InRange(op)) && (t.live ==> t.settled && AskedFor(op, next.maxBytes, next.backups))
  {
    if ValidOptions(op.maxBytes, op.backups) {
      next, t := OpenOne(logger, s, Limit(op.maxBytes), op.backups);
      if alike { TrimsKeptWith(logger.history, next.history, Limit(o.maxBytes), o.backups); }
    } else {
      next, t := logger, s.(live := false, settled := false);
    }
  }

  /** A record is written with the logger that is open. */
  method WriteOne(logger: Logger, s: Status, line: Bytes, durable: bool) returns (t: Status)
    requires logger.Valid() && Usable(logger, s) && s.live && IsLine(line)
    modifies logger
    ensures logger.Valid() && Usable(logger, t)
    ensures Written(s, t, Records(old(logger.history)), Records(logger.history), line)
    ensures old(logger.faults) <= logger.faults && (logger.faults == old(logger.faults) ==> t.settled)
    ensures logger.history == old(logger.history)
            || logger.history == old(logger.history) + [Logged(line, logger.maxBytes, logger.backups)]
  {
    RecordsStep(logger.history, Logged(line, logger.maxBytes, logger.backups));
    LoggedKeepsGaps(logger.history, Logged(line, logger.maxBytes, logger.backups), s.low);
    var done := logger.Write(line, durable);
    t := Status(!done.Stopped?, done.Done?, s.low,
                if done.Done? then s.acknowledged + [line] else s.acknowledged);
  }

  /** A new process opens the directory. */
  method OpenOne(logger: Logger, s: Status, maxBytes: nat, backups: nat) returns (next: Logger, t: Status)
    requires logger.Valid() && Usable(logger, s) && backups <= MAX_BACKUPS
    ensures fresh(next) && next.Valid() && Usable(next, t) && next.maxBytes == maxBytes && next.backups == backups
    ensures Records(next.history) == Records(logger.history) && t.acknowledged == s.acknowledged
    ensures t.low == Narrowest(s.low, backups, t.settled) && t.live == t.settled
    ensures logger.faults <= next.faults && (next.faults == logger.faults ==> t.live)
    ensures Trims(logger.history, next.history, backups)
  {
    var done;
    next, done := Start(logger, maxBytes, backups);
    t := Status(done, done, Narrowest(s.low, backups, done), s.acknowledged);
    OpeningIsUsable(logger, s, next, t);
  }

  lemma OpeningIsUsable(last: Logger, s: Status, next: Logger, t: Status)
    requires GapsAbove(Replay(last.history), s.low) && Trims(last.history, next.history, next.backups)
    requires t.live == t.settled && t.low == Narrowest(s.low, next.backups, t.settled)
    requires t.settled ==> next.dir.Quiet() && Whole(next.dir) && next.Fits()
    requires t.settled ==> |next.history| > |last.history| && next.history[|next.history| - 1] == Cleaned(next.backups)
    ensures Usable(next, t) && Records(next.history) == Records(last.history)
  {
    OpeningKeepsGaps(last.history, next.history, next.backups, s.low, t.settled);
  }

  method Start(last: Logger, maxBytes: nat, backups: nat) returns (next: Logger, done: bool)
    requires last.Valid() && backups <= MAX_BACKUPS
    ensures fresh(next) && next.Valid() && next.maxBytes == maxBytes && next.backups == backups
    ensures done ==> next.dir.Quiet() && Whole(next.dir) && next.Fits()
    ensures done ==> |next.history| > |last.history| && next.history[|next.history| - 1] == Cleaned(backups)
    ensures last.faults <= next.faults && (next.faults == last.faults ==> done)
    ensures Trims(last.history, next.history, backups)
  {
    next := new Logger.Next(maxBytes, backups, last);
    var o := next.Initialize();
    done := o.Done?;
  }

  lemma TrimsKeptWith(before: seq<Entry>, after: seq<Entry>, maxBytes: int, backups: nat)
    requires Trims(before, after, backups) && KeptWith(before, maxBytes, backups)
    ensures KeptWith(after, maxBytes, backups)
  {
  }

  lemma LoggedKeepsGaps(history: seq<Entry>, e: Entry, low: Option<nat>)
    requires e.Logged? && GapsAbove(Replay(history), low)
    ensures GapsAbove(Replay(history + [e]), low)
  {
    ReplayStep(history, e);
    ChangedPacked(Replay(history), e, if low.Some? then low.value else 0);
  }

  lemma OpeningKeepsGaps(before: seq<Entry>, after: seq<Entry>, backups: nat, low: Option<nat>, finished: bool)
    requires Trims(before, after, backups) && GapsAbove(Replay(before), low)
    requires finished ==> |after| > |before| && after[|after| - 1] == Cleaned(backups)
    ensures Records(after) == Records(before)
    ensures GapsAbove(Replay(after), Narrowest(low, backups, finished))
  {
    var l := if low.Some? && low.value < backups then low.value else backups;
    TrimsKeep(before, after, backups, l);
    if finished && (low == None || backups <= low.value) {
      TrimsToTheEnd(before, after, backups);
    }
  }
}
