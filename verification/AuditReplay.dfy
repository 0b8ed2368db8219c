/** The reference log: what the files hold after a sequence of records, said
    without directories, staging or failures. */
module AuditReplay {
  import opened Basics
  import opened AuditLines

  /** Whether a line must start a new file. */
  function RotationNeeded(currentSize: nat, lineLength: nat, maxBytes: nat): (needed: bool)
    ensures needed <==> currentSize > 0 && currentSize + lineLength > maxBytes
  {
    if currentSize <= 0 then false
    else if currentSize > maxBytes then true
    else lineLength > maxBytes - currentSize
  }

  /** The lines of each file, the current file first.  A later file without lines
      stands for a slot that holds no file. */
  type View = seq<seq<Bytes>>

  /** What changes a log: a record under the configuration of its writer, the
      removal of one backup, and the end of a removal of all but some backups. */
  datatype Entry =
    | Logged(line: Bytes, maxBytes: nat, backups: nat)
    | Dropped(slot: nat)
    | Cleaned(backups: nat)

  function Cut(v: View, n: nat): View {
    if |v| <= n then v else v[..n]
  }

  function Rotated(v: View, line: Bytes, backups: nat): View {
    Cut([[line]] + v, backups + 1)
  }

  function Appended(v: View, line: Bytes): View
    requires v != []
  {
    [v[0] + [line]] + v[1..]
  }

  function Recorded(v: View, line: Bytes, maxBytes: nat, backups: nat): View
    requires v != []
  {
    if RotationNeeded(|Flatten(v[0])|, |line|, maxBytes) then Rotated(v, line, backups) else Appended(v, line)
  }

  /** Only backups are removed. */
  function Without(v: View, slot: nat): View {
    if 0 < slot < |v| then v[slot := []] else v
  }

  function Changed(v: View, e: Entry): (w: View)
    requires v != []
    ensures w != []
  {
    match e
    case Logged(line, maxBytes, backups) => Recorded(v, line, maxBytes, backups)
    case Dropped(slot) => Without(v, slot)
    case Cleaned(backups) => Cut(v, backups + 1)
  }

  function Replay(history: seq<Entry>): (v: View)
    ensures v != []
  {
    if history == [] then [[]]
    else Changed(Replay(history[..|history| - 1]), history[|history| - 1])
  }

  lemma ReplayStep(history: seq<Entry>, e: Entry)
    ensures Replay(history + [e]) == Changed(Replay(history), e)
  {
    assert (history + [e])[..|history|] == history;
  }

  /** The records of a history, in the order in which they were recorded. */
  function Records(history: seq<Entry>): seq<Bytes> {
    if history == [] then []
    else
      var (rest, last) := (Records(history[..|history| - 1]), history[|history| - 1]);
      if last.Logged? then rest + [last.line] else rest
  }

  lemma RecordsStep(history: seq<Entry>, e: Entry)
    ensures Records(history + [e]) == if e.Logged? then Records(history) + [e.line] else Records(history)
  {
    assert (history + [e])[..|history|] == history;
  }

  /** The history of a log that is kept with one configuration. */
  function Uniform(log: seq<Bytes>, maxBytes: nat, backups: nat): seq<Entry> {
    seq(|log|, i requires 0 <= i < |log| => Logged(log[i], maxBytes, backups))
  }

  lemma UniformStep(log: seq<Bytes>, line: Bytes, maxBytes: nat, backups: nat)
    ensures Replay(Uniform(log + [line], maxBytes, backups))
            == Recorded(Replay(Uniform(log, maxBytes, backups)), line, maxBytes, backups)
  {
    var e := Logged(line, maxBytes, backups);
    assert Uniform(log + [line], maxBytes, backups) == Uniform(log, maxBytes, backups) + [e];
    ReplayStep(Uniform(log, maxBytes, backups), Logged(line, maxBytes, backups));
  }

  /** Reading the files from the oldest to the current one. */
  function Reading(v: View): seq<Bytes> {
    if v == [] then [] else Reading(v[1..]) + v[0]
  }

  ghost predicate IsSuffix(s: seq<Bytes>, log: seq<Bytes>) {
    |s| <= |log| && s == log[|log| - |s|..]
  }

  lemma SuffixExtends(s: seq<Bytes>, log: seq<Bytes>, line: Bytes)
    requires IsSuffix(s, log)
    ensures IsSuffix(s + [line], log + [line])
  {
    assert (log + [line])[|log| - |s|..] == log[|log| - |s|..] + [line];
  }

  /** Dropping the oldest files drops the oldest lines. */
  lemma {:induction false} ReadingTake(v: View, n: nat)
    requires n <= |v|
    ensures IsSuffix(Reading(v[..n]), Reading(v))
  {
    if n > 0 {
      ReadingTake(v[1..], n - 1);
      assert v[..n][1..] == v[1..][..n - 1];
      var s, r := Reading(v[1..][..n - 1]), Reading(v[1..]);
      assert (r + v[0])[|r| - |s|..] == r[|r| - |s|..] + v[0];
    } else {
      assert Reading(v)[|Reading(v)|..] == [];
    }
  }

  lemma SuffixTrans(a: seq<Bytes>, b: seq<Bytes>, c: seq<Bytes>)
    requires IsSuffix(a, b) && IsSuffix(b, c)
    ensures IsSuffix(a, c)
  {
  }

  lemma ReadingLines(v: View)
    ensures (forall f :: f in v ==> AreLines(f)) <==> AreLines(Reading(v))
  {
    if v != [] {
      ReadingLines(v[1..]);
      assert v == [v[0]] + v[1..];
      assert AreLines(Reading(v)) <==> AreLines(Reading(v[1..])) && AreLines(v[0]) by {
        assert forall l :: l in Reading(v) <==> l in Reading(v[1..]) || l in v[0];
      }
    }
  }

  /** Every file but an empty first one holds a line. */
  ghost predicate NoneEmpty(v: View) {
    forall i :: 0 <= i < |v| ==> v[i] != []
  }

  lemma {:induction false} ReadingLength(v: View)
    requires NoneEmpty(v)
    ensures |Reading(v)| >= |v|
  {
    if v != [] {
      forall i | 0 <= i < |v[1..]| ensures v[1..][i] != [] { assert v[i + 1] != []; }
      ReadingLength(v[1..]);
    }
  }

  /** The files hold a suffix of the log; nothing is missing before the backups
      are full, and one record a file stays at least. */
  ghost predicate Keeps(v: View, log: seq<Bytes>, backups: nat) {
    && 0 < |v| <= backups + 1
    && IsSuffix(Reading(v), log)
    && (log != [] ==> NoneEmpty(v))
    && (|v| < backups + 1 ==> Reading(v) == log)
  }

  lemma ReadingPrepended(v: View, line: Bytes)
    ensures Reading([[line]] + v) == Reading(v) + [line]
  {
    assert ([[line]] + v)[1..] == v;
  }

  lemma ReadingAppended(v: View, line: Bytes)
    requires v != []
    ensures Reading(Appended(v, line)) == Reading(v) + [line]
  {
    assert Appended(v, line)[1..] == v[1..];
    assert Reading(v[1..]) + (v[0] + [line]) == Reading(v[1..]) + v[0] + [line];
  }

  lemma RotatedReads(v: View, line: Bytes, backups: nat)
    ensures IsSuffix(Reading(Rotated(v, line, backups)), Reading(v) + [line])
    ensures |v| <= backups ==> Reading(Rotated(v, line, backups)) == Reading(v) + [line]
  {
    ReadingPrepended(v, line);
    var all := [[line]] + v;
    if |all| > backups + 1 {
      ReadingTake(all, backups + 1);
    }
  }

  lemma RotatedKeeps(v: View, log: seq<Bytes>, line: Bytes, backups: nat)
    requires Keeps(v, log, backups) && log != []
    ensures Keeps(Rotated(v, line, backups), log + [line], backups)
  {
    RotatedReads(v, line, backups);
    SuffixExtends(Reading(v), log, line);
    SuffixTrans(Reading(Rotated(v, line, backups)), Reading(v) + [line], log + [line]);
    forall i | 0 <= i < |Rotated(v, line, backups)| ensures Rotated(v, line, backups)[i] != [] {
      if i > 0 { assert Rotated(v, line, backups)[i] == v[i - 1]; }
    }
  }

  lemma AppendedKeeps(v: View, log: seq<Bytes>, line: Bytes, backups: nat)
    requires Keeps(v, log, backups) && (log == [] ==> |v| == 1)
    ensures Keeps(Appended(v, line), log + [line], backups)
  {
    ReadingAppended(v, line);
    SuffixExtends(Reading(v), log, line);
    forall i | 0 <= i < |Appended(v, line)| ensures Appended(v, line)[i] != [] {
      if i > 0 { assert Appended(v, line)[i] == v[i]; }
    }
  }

  lemma RecordedKeeps(v: View, log: seq<Bytes>, line: Bytes, maxBytes: nat, backups: nat)
    requires Keeps(v, log, backups) && (log == [] ==> v == [[]])
    ensures Keeps(Recorded(v, line, maxBytes, backups), log + [line], backups)
  {
    if RotationNeeded(|Flatten(v[0])|, |line|, maxBytes) {
      assert Flatten([]) == [];
      RotatedKeeps(v, log, line, backups);
    } else {
      AppendedKeeps(v, log, line, backups);
    }
  }

  lemma NothingLogged(maxBytes: nat, backups: nat)
    ensures Replay(Uniform([], maxBytes, backups)) == [[]] && Keeps([[]], [], backups)
  {
    assert Reading([[]]) == [];
  }

  lemma FrontAndLast(log: seq<Bytes>)
    requires log != []
    ensures log[..|log| - 1] + [log[|log| - 1]] == log
  {
  }

  lemma OneMoreKeeps(older: seq<Bytes>, line: Bytes, maxBytes: nat, backups: nat)
    requires Keeps(Replay(Uniform(older, maxBytes, backups)), older, backups)
    ensures Keeps(Replay(Uniform(older + [line], maxBytes, backups)), older + [line], backups)
  {
    NothingLogged(maxBytes, backups);
    UniformStep(older, line, maxBytes, backups);
    RecordedKeeps(Replay(Uniform(older, maxBytes, backups)), older, line, maxBytes, backups);
  }

  /** With one configuration the files, read from oldest to current, hold the newest
      records of the log, whole, once each and in order. */
  lemma {:induction false} ReplayKeepsSuffix(log: seq<Bytes>, maxBytes: nat, backups: nat)
    ensures Keeps(Replay(Uniform(log, maxBytes, backups)), log, backups)
  {
    if log == [] {
      NothingLogged(maxBytes, backups);
    } else {
      FrontAndLast(log);
      ReplayKeepsSuffix(log[..|log| - 1], maxBytes, backups);
      OneMoreKeeps(log[..|log| - 1], log[|log| - 1], maxBytes, backups);
    }
  }

  /** The newest records survive: as many as there are files, at least. */
  lemma {:induction false} NewestRecordsSurvive(log: seq<Bytes>, maxBytes: nat, backups: nat)
    ensures |Reading(Replay(Uniform(log, maxBytes, backups)))| >= (if |log| <= backups + 1 then |log| else backups + 1)
  {
    ReplayKeepsSuffix(log, maxBytes, backups);
    if log != [] { ReadingLength(Replay(Uniform(log, maxBytes, backups))); }
  }

  /** No file outgrows the limit unless it is a single record. */
  ghost predicate Bounded(v: View, maxBytes: nat) {
    forall f :: f in v ==> AreLines(f) && (|Flatten(f)| <= maxBytes || |f| <= 1)
  }

  lemma AppendedBounds(v: View, line: Bytes, maxBytes: nat)
    requires v != [] && Bounded(v, maxBytes) && IsLine(line) && !RotationNeeded(|Flatten(v[0])|, |line|, maxBytes)
    ensures Bounded(Appended(v, line), maxBytes)
  {
    assert v[0] in v;
    FlattenAppend(v[0], line);
    FlattenEndsLine(v[0]);
    forall f | f in Appended(v, line) ensures AreLines(f) && (|Flatten(f)| <= maxBytes || |f| <= 1) {
      assert f == v[0] + [line] || f in v;
    }
  }

  lemma RecordedBounds(v: View, line: Bytes, maxBytes: nat, backups: nat)
    requires v != [] && Bounded(v, maxBytes) && IsLine(line)
    ensures Bounded(Recorded(v, line, maxBytes, backups), maxBytes)
  {
    if RotationNeeded(|Flatten(v[0])|, |line|, maxBytes) {
      forall f | f in Rotated(v, line, backups) ensures AreLines(f) && (|Flatten(f)| <= maxBytes || |f| <= 1) {
        assert f == [line] || f in v;
      }
    } else {
      AppendedBounds(v, line, maxBytes);
    }
  }

  lemma {:induction false} ReplayBoundsFiles(log: seq<Bytes>, maxBytes: nat, backups: nat)
    requires AreLines(log)
    ensures Bounded(Replay(Uniform(log, maxBytes, backups)), maxBytes)
  {
    if log == [] {
      NothingLogged(maxBytes, backups);
    } else {
      var older, line := log[..|log| - 1], log[|log| - 1];
      FrontAndLast(log);
      ReplayBoundsFiles(older, maxBytes, backups);
      UniformStep(older, line, maxBytes, backups);
      RecordedBounds(Replay(Uniform(older, maxBytes, backups)), line, maxBytes, backups);
    }
  }

  /** A file was left for a new one only when its first line had no room in it. */
  ghost predicate Full(v: View, maxBytes: nat) {
    forall i :: 0 <= i < |v| - 1 ==> FullAt(v, maxBytes, i)
  }

  ghost predicate FullAt(v: View, maxBytes: nat, i: nat)
    requires i + 1 < |v|
  {
    v[i] != [] && |Flatten(v[i + 1])| > 0 && |Flatten(v[i + 1])| + |v[i][0]| > maxBytes
  }

  lemma RecordedFull(v: View, line: Bytes, maxBytes: nat, backups: nat)
    requires v != [] && Full(v, maxBytes)
    ensures Full(Recorded(v, line, maxBytes, backups), maxBytes)
  {
    var w := Recorded(v, line, maxBytes, backups);
    forall i | 0 <= i < |w| - 1 ensures FullAt(w, maxBytes, i) {
      if RotationNeeded(|Flatten(v[0])|, |line|, maxBytes) {
        if i > 0 { assert FullAt(v, maxBytes, i - 1); }
      } else {
        assert FullAt(v, maxBytes, i);
      }
    }
  }

  /** No file is given up early. */
  lemma {:induction false} ReplayFillsFiles(log: seq<Bytes>, maxBytes: nat, backups: nat)
    ensures Full(Replay(Uniform(log, maxBytes, backups)), maxBytes)
  {
    if log == [] {
      NothingLogged(maxBytes, backups);
    } else {
      var older, line := log[..|log| - 1], log[|log| - 1];
      FrontAndLast(log);
      ReplayFillsFiles(older, maxBytes, backups);
      UniformStep(older, line, maxBytes, backups);
      RecordedFull(Replay(Uniform(older, maxBytes, backups)), line, maxBytes, backups);
    }
  }

  /** Nothing but records and removals under one configuration. */
  ghost predicate KeptWith(history: seq<Entry>, maxBytes: int, backups: int) {
    forall k :: 0 <= k < |history| ==> EntryOf(history[k], maxBytes, backups)
  }

  ghost predicate EntryOf(e: Entry, maxBytes: int, backups: int) {
    match e
    case Logged(_, m, b) => m == maxBytes && b == backups
    case Dropped(slot) => slot > backups
    case Cleaned(b) => b == backups
  }

  /** With one configuration there is never anything to remove, and the log is that of
      its records alone. */
  lemma {:induction false} KeptIsUniform(history: seq<Entry>, maxBytes: nat, backups: nat)
    requires KeptWith(history, maxBytes, backups)
    ensures Replay(history) == Replay(Uniform(Records(history), maxBytes, backups))
  {
    if history == [] {
      NothingLogged(maxBytes, backups);
    } else {
      var (front, e) := (history[..|history| - 1], history[|history| - 1]);
      assert EntryOf(e, maxBytes, backups);
      KeptIsUniform(front, maxBytes, backups);
      ReplayKeepsSuffix(Records(front), maxBytes, backups);
      if e.Logged? { UniformStep(Records(front), e.line, maxBytes, backups); }
    }
  }

  /** The newest records, at least as many as there are files, in files that are small
      or hold a single record, none of them given up early. */
  ghost predicate IsNewest(v: View, records: seq<Bytes>, maxBytes: nat, backups: nat) {
    && |v| <= backups + 1 && IsSuffix(Reading(v), records)
    && |Reading(v)| >= (if |records| <= backups + 1 then |records| else backups + 1)
    && (records != [] ==> NoneEmpty(v)) && Bounded(v, maxBytes) && Full(v, maxBytes)
  }

  lemma UniformIsNewest(records: seq<Bytes>, maxBytes: nat, backups: nat)
    requires AreLines(records)
    ensures IsNewest(Replay(Uniform(records, maxBytes, backups)), records, maxBytes, backups)
  {
    ReplayKeepsSuffix(records, maxBytes, backups);
    NewestRecordsSurvive(records, maxBytes, backups);
    ReplayBoundsFiles(records, maxBytes, backups);
    ReplayFillsFiles(records, maxBytes, backups);
  }

  /** What one configuration keeps. */
  lemma KeptIsNewest(history: seq<Entry>, maxBytes: nat, backups: nat)
    requires KeptWith(history, maxBytes, backups) && AreLines(Records(history))
    ensures IsNewest(Replay(history), Records(history), maxBytes, backups)
  {
    KeptIsUniform(history, maxBytes, backups);
    UniformIsNewest(Records(history), maxBytes, backups);
  }

  /** `a` is `b` with some records left out, the rest in order. */
  ghost predicate Subsequence(a: seq<Bytes>, b: seq<Bytes>) {
    if a == [] then true
    else if b == [] then false
    else
      || (a[|a| - 1] == b[|b| - 1] && Subsequence(a[..|a| - 1], b[..|b| - 1]))
      || Subsequence(a, b[..|b| - 1])
  }

  lemma SubsequenceBoth(a: seq<Bytes>, b: seq<Bytes>, x: Bytes)
    requires Subsequence(a, b)
    ensures Subsequence(a + [x], b + [x])
  {
    assert (a + [x])[..|a|] == a && (b + [x])[..|b|] == b;
  }

  lemma SubsequenceSkip(a: seq<Bytes>, b: seq<Bytes>, x: Bytes)
    requires Subsequence(a, b)
    ensures Subsequence(a, b + [x])
  {
    assert (b + [x])[..|b|] == b;
  }

  /** `at` says where in `b` the elements of `a` stand. */
  ghost predicate Picks(a: seq<Bytes>, b: seq<Bytes>, at: seq<nat>) {
    && |at| == |a| && (forall i :: 0 <= i < |a| ==> at[i] < |b| && b[at[i]] == a[i])
    && forall i, j :: 0 <= i < j < |a| ==> at[i] < at[j]
  }

  lemma {:induction false} SubsequencePicks(a: seq<Bytes>, b: seq<Bytes>)
    requires Subsequence(a, b)
    ensures exists at: seq<nat> :: Picks(a, b, at)
    decreases |b|
  {
    if a == [] {
      assert Picks(a, b, []);
    } else {
      var (a', b') := (a[..|a| - 1], b[..|b| - 1]);
      if a[|a| - 1] == b[|b| - 1] && Subsequence(a', b') {
        SubsequencePicks(a', b');
        var at: seq<nat> :| Picks(a', b', at);
        var more: seq<nat> := at + [|b| - 1];
        forall i | 0 <= i < |a| ensures more[i] < |b| && b[more[i]] == a[i] { if i < |a'| { assert at[i] < |b'|; } }
        assert Picks(a, b, more);
      } else {
        SubsequencePicks(a, b');
        var at: seq<nat> :| Picks(a, b', at);
        assert Picks(a, b, at);
      }
    }
  }

  lemma {:induction false} PicksSubsequence(a: seq<Bytes>, b: seq<Bytes>, at: seq<nat>)
    requires Picks(a, b, at)
    ensures Subsequence(a, b)
    decreases |b|
  {
    if a != [] {
      var (n, m) := (|a| - 1, |b| - 1);
      assert at[n] < |b|;
      if at[n] == m {
        PicksSubsequence(a[..n], b[..m], at[..n]);
      } else {
        forall i | 0 <= i < |a| ensures at[i] < m && b[..m][at[i]] == a[i] { if i < n { assert at[i] < at[n]; } }
        PicksSubsequence(a, b[..m], at);
      }
    }
  }

  /** Some of the elements, each once and in their order. */
  lemma {:induction false} SubsequenceMeans(a: seq<Bytes>, b: seq<Bytes>)
    ensures Subsequence(a, b) <==> exists at: seq<nat> :: Picks(a, b, at)
  {
    if Subsequence(a, b) { SubsequencePicks(a, b); }
    if at: seq<nat> :| Picks(a, b, at) { PicksSubsequence(a, b, at); }
  }

  ghost predicate Distinct(s: seq<Bytes>) {
    forall i, j :: 0 <= i < j < |s| ==> s[i] != s[j]
  }

  /** A subsequence of records that were all different has no duplicates. */
  lemma {:induction false} SubsequenceDistinct(a: seq<Bytes>, b: seq<Bytes>)
    requires Subsequence(a, b) && Distinct(b)
    ensures forall x :: x in a ==> x in b
    ensures Distinct(a)
  {
    if a != [] {
      var c := b[..|b| - 1];
      if Subsequence(a, c) {
        SubsequenceDistinct(a, c);
      } else {
        SubsequenceDistinct(a[..|a| - 1], c);
        assert a == a[..|a| - 1] + [a[|a| - 1]];
        assert a[|a| - 1] == b[|b| - 1];
        forall i | 0 <= i < |a| - 1 ensures a[i] != a[|a| - 1] {
          assert a[i] == a[..|a| - 1][i];
          assert a[i] in c;
        }
      }
    }
  }

  /** The acknowledged records are on record, and those were attempted. */
  ghost predicate Accounted(acknowledged: seq<Bytes>, records: seq<Bytes>, attempted: seq<Bytes>) {
    Subsequence(acknowledged, records) && Subsequence(records, attempted)
  }

  lemma AccountedStep(a: seq<Bytes>, r: seq<Bytes>, t: seq<Bytes>, line: Bytes)
    requires Accounted(a, r, t)
    ensures Accounted(a + [line], r + [line], t + [line])
    ensures Accounted(a, r + [line], t + [line])
    ensures Accounted(a, r, t + [line])
  {
    SubsequenceBoth(r, t, line);
    SubsequenceSkip(r, t, line);
    SubsequenceBoth(a, r, line);
    SubsequenceSkip(a, r, line);
  }
}
