/** What a log reads as when it is opened with changing configurations: a removal of
    excess backups that is interrupted can leave a gap between files. */
module AuditGaps {
  import opened Basics
  import opened AuditLines
  import opened AuditReplay

  // ---------- Subsequences ----------

  lemma {:induction false} SubsequenceSelf(a: seq<Bytes>)
    ensures Subsequence(a, a)
  {
    if a != [] { SubsequenceSelf(a[..|a| - 1]); }
  }

  lemma {:induction false} SubsequenceMore(a: seq<Bytes>, b: seq<Bytes>, c: seq<Bytes>)
    requires Subsequence(a, b)
    ensures Subsequence(a, b + c)
  {
    if c == [] {
      assert b + c == b;
    } else {
      SubsequenceMore(a, b, c[..|c| - 1]);
      assert b + c == (b + c[..|c| - 1]) + [c[|c| - 1]];
      SubsequenceSkip(a, b + c[..|c| - 1], c[|c| - 1]);
    }
  }

  lemma {:induction false} SubsequenceBeside(a: seq<Bytes>, b: seq<Bytes>, c: seq<Bytes>)
    requires Subsequence(a, b)
    ensures Subsequence(a + c, b + c)
  {
    if c == [] {
      assert a + c == a && b + c == b;
    } else {
      SubsequenceBeside(a, b, c[..|c| - 1]);
      assert a + c == (a + c[..|c| - 1]) + [c[|c| - 1]] && b + c == (b + c[..|c| - 1]) + [c[|c| - 1]];
      SubsequenceBoth(a + c[..|c| - 1], b + c[..|c| - 1], c[|c| - 1]);
    }
  }

  lemma {:induction false} SubsequenceTrans(a: seq<Bytes>, b: seq<Bytes>, c: seq<Bytes>)
    requires Subsequence(a, b) && Subsequence(b, c)
    ensures Subsequence(a, c)
    decreases |c|, |b|
  {
    if a != [] {
      var d := c[..|c| - 1];
      if Subsequence(b, d) {
        SubsequenceTrans(a, b, d);
      } else {
        assert b[|b| - 1] == c[|c| - 1] && Subsequence(b[..|b| - 1], d);
        if Subsequence(a, b[..|b| - 1]) {
          SubsequenceTrans(a, b[..|b| - 1], d);
        } else {
          SubsequenceTrans(a[..|a| - 1], b[..|b| - 1], d);
        }
      }
    }
  }

  /** The end of a sequence, and a sequence with its middle taken out. */
  lemma SubsequenceParts(a: seq<Bytes>, b: seq<Bytes>, c: seq<Bytes>)
    ensures Subsequence(b, a + b)
    ensures Subsequence(a + c, a + b + c)
  {
    assert Subsequence([], a);
    SubsequenceBeside([], a, b);
    assert [] + b == b;
    SubsequenceSelf(a);
    SubsequenceMore(a, a, b);
    SubsequenceBeside(a, a + b, c);
  }

  lemma {:induction false} SubsequenceWithin(a: seq<Bytes>, b: seq<Bytes>, x: Bytes)
    requires Subsequence(a, b) && x in a
    ensures x in b
    decreases |b|
  {
    var c := b[..|b| - 1];
    if Subsequence(a, c) {
      SubsequenceWithin(a, c, x);
    } else if x != a[|a| - 1] {
      assert a == a[..|a| - 1] + [a[|a| - 1]];
      SubsequenceWithin(a[..|a| - 1], c, x);
    }
  }

  // ---------- Gaps ----------

  /** The first slot behind the current file that holds nothing. */
  function FirstGap(v: View, i: nat): (h: nat)
    requires 0 < i <= |v|
    ensures i <= h <= |v| && (h < |v| ==> v[h] == [])
    ensures forall j :: i <= j < h ==> v[j] != []
    decreases |v| - i
  {
    if i < |v| && v[i] != [] then FirstGap(v, i + 1) else i
  }

  lemma FirstGapIs(v: View, h: nat)
    requires 0 < h <= |v| && (h < |v| ==> v[h] == []) && forall j :: 0 < j < h ==> v[j] != []
    ensures FirstGap(v, 1) == h
  {
  }

  function Front(v: View): View
    requires v != []
  {
    v[..FirstGap(v, 1)]
  }

  function Behind(v: View): View
    requires v != []
  {
    v[FirstGap(v, 1)..]
  }

  /** No file stands behind a gap. */
  ghost predicate Solid(v: View) {
    forall i :: 0 < i < |v| && v[i] == [] ==> EmptyFrom(v, i)
  }

  ghost predicate EmptyFrom(v: View, i: nat) {
    forall j :: i < j < |v| ==> v[j] == []
  }

  lemma {:induction false} ReadingConcat(a: View, b: View)
    ensures Reading(a + b) == Reading(b) + Reading(a)
  {
    if a == [] {
      assert a + b == b;
    } else {
      assert (a + b)[1..] == a[1..] + b;
      ReadingConcat(a[1..], b);
    }
  }

  lemma {:induction false} ReadingNothing(v: View)
    requires forall i :: 0 <= i < |v| ==> v[i] == []
    ensures Reading(v) == []
  {
    if v != [] { ReadingNothing(v[1..]); }
  }

  lemma {:induction false} ReadingSomething(v: View, i: nat)
    requires i < |v| && v[i] != []
    ensures Reading(v) != []
  {
    if i > 0 { ReadingSomething(v[1..], i - 1); }
  }

  lemma ReadingHalves(v: View)
    requires v != []
    ensures Reading(v) == Reading(Behind(v)) + Reading(Front(v))
  {
    ReadingConcat(Front(v), Behind(v));
    assert Front(v) + Behind(v) == v;
  }

  /** A view is solid exactly if nothing is read from behind its first gap. */
  lemma SolidMeans(v: View)
    requires v != []
    ensures Solid(v) <==> Reading(Behind(v)) == []
  {
    var h := FirstGap(v, 1);
    if Solid(v) {
      ReadingNothing(Behind(v));
    } else {
      var i, j :| 0 < i < j < |v| && v[i] == [] && v[j] != [];
      assert h <= i;
      ReadingSomething(Behind(v), j - h);
    }
  }

  // ---------- What is kept ----------

  /** The files before the first gap hold the newest records; the record just
      before those is gone if anything is left behind the gap. */
  ghost predicate Holds(v: View, records: seq<Bytes>) {
    && v != []
    && (records == [] ==> v[0] == []) && (v[0] == [] ==> records == [] && Reading(v) == [])
    && IsSuffix(Reading(Front(v)), records)
    && (Reading(Behind(v)) != [] ==> Lost(Reading(Behind(v)), records, |Reading(Front(v))|))
  }

  /** `older` comes from before the newest `n` records and at least one more. */
  ghost predicate Lost(older: seq<Bytes>, records: seq<Bytes>, n: nat) {
    n < |records| && Subsequence(older, records[..|records| - n - 1])
  }

  /** Any view of a log reads as some of its records in order. */
  lemma HeldIsSubsequence(v: View, records: seq<Bytes>)
    requires Holds(v, records)
    ensures Subsequence(Reading(v), records)
  {
    ReadingHalves(v);
    var (older, newer) := (Reading(Behind(v)), Reading(Front(v)));
    var k := |records| - |newer|;
    assert records == records[..k] + newer;
    if older != [] {
      SubsequenceMore(older, records[..k - 1], records[k - 1..k]);
      assert records[..k - 1] + records[k - 1..k] == records[..k];
    }
    SubsequenceBeside(older, records[..k], newer);
  }

  /** Without a gap it reads as the newest of them. */
  lemma HeldSolid(v: View, records: seq<Bytes>)
    requires Holds(v, records) && Solid(v)
    ensures IsSuffix(Reading(v), records)
  {
    ReadingHalves(v);
    SolidMeans(v);
    assert [] + Reading(Front(v)) == Reading(Front(v));
  }

  /** With one, and records that can be told apart, it does not. */
  lemma HeldGapped(v: View, records: seq<Bytes>)
    requires Holds(v, records) && !Solid(v) && Distinct(records)
    ensures !IsSuffix(Reading(v), records)
  {
    ReadingHalves(v);
    SolidMeans(v);
    var (older, newer) := (Reading(Behind(v)), Reading(Front(v)));
    var k := |records| - |newer|;
    var last := older[|older| - 1];
    SubsequenceWithin(older, records[..k - 1], last);
    var i :| 0 <= i < k - 1 && records[i] == last;
    assert Reading(v)[|older| - 1] == last;
    assert records[k - 1] != last;
  }

  // ---------- Every change keeps it ----------

  lemma HoldsCutFront(v: View, records: seq<Bytes>, n: nat)
    requires Holds(v, records) && 0 < n <= FirstGap(v, 1)
    ensures Holds(v[..n], records)
  {
    var w := v[..n];
    FirstGapIs(w, n);
    assert Front(w) == w && Behind(w) == [];
    assert w == Front(v)[..n];
    ReadingTake(Front(v), n);
    SuffixTrans(Reading(w), Reading(Front(v)), records);
    if v[0] == [] { ReadingTake(v, n); }
  }

  /** What is read behind the first gap, once the oldest files are dropped. */
  lemma BehindCut(v: View, n: nat)
    requires v != [] && FirstGap(v, 1) < n <= |v|
    ensures Front(v[..n]) == Front(v) && IsSuffix(Reading(Behind(v[..n])), Reading(Behind(v)))
  {
    var h := FirstGap(v, 1);
    FirstGapIs(v[..n], h);
    TakeThenSlice(v, h, n);
    ReadingTake(Behind(v), n - h);
  }

  lemma HoldsCutBehind(v: View, records: seq<Bytes>, n: nat)
    requires Holds(v, records) && FirstGap(v, 1) < n <= |v|
    ensures Holds(v[..n], records)
  {
    BehindCut(v, n);
    LostLess(Reading(Behind(v[..n])), Reading(Behind(v)), records, |Reading(Front(v))|);
    ReadingTake(v, n);
  }

  /** Dropping the oldest files. */
  lemma HoldsCut(v: View, records: seq<Bytes>, n: nat)
    requires Holds(v, records) && n > 0
    ensures Holds(Cut(v, n), records)
  {
    if n < |v| {
      if n <= FirstGap(v, 1) {
        HoldsCutFront(v, records, n);
      } else {
        HoldsCutBehind(v, records, n);
      }
    }
  }

  lemma LostLess(less: seq<Bytes>, older: seq<Bytes>, records: seq<Bytes>, n: nat)
    requires IsSuffix(less, older) && (older != [] ==> Lost(older, records, n))
    ensures less != [] ==> Lost(less, records, n)
  {
    if less != [] {
      var k := |older| - |less|;
      SubsequenceParts(older[..k], less, []);
      assert older[..k] + less == older;
      SubsequenceTrans(less, older, records[..|records| - n - 1]);
    }
  }

  lemma HoldsAppended(v: View, records: seq<Bytes>, line: Bytes)
    requires Holds(v, records)
    ensures Holds(Appended(v, line), records + [line])
  {
    var w := Appended(v, line);
    var h := FirstGap(v, 1);
    FirstGapIs(w, h);
    assert Front(w) == Appended(Front(v), line);
    assert Behind(w) == Behind(v);
    ReadingAppended(Front(v), line);
    SuffixExtends(Reading(Front(v)), records, line);
    var n := |Reading(Front(v))|;
    assert n < |records| ==> (records + [line])[..|records| - n - 1] == records[..|records| - n - 1];
  }

  lemma HoldsPrepended(v: View, records: seq<Bytes>, line: Bytes)
    requires Holds(v, records) && v[0] != []
    ensures Holds([[line]] + v, records + [line])
  {
    var w := [[line]] + v;
    var h := FirstGap(v, 1);
    FirstGapIs(w, h + 1);
    assert Front(w) == [[line]] + Front(v);
    assert Behind(w) == Behind(v);
    ReadingPrepended(Front(v), line);
    SuffixExtends(Reading(Front(v)), records, line);
    var n := |Reading(Front(v))|;
    assert n < |records| ==> (records + [line])[..|records| - n - 1] == records[..|records| - n - 1];
  }

  /** What is read behind the first gap, once one file there is taken out. */
  lemma BehindWithout(v: View, slot: nat)
    requires v != [] && FirstGap(v, 1) <= slot < |v|
    ensures var w := v[slot := []];
            && Front(w) == Front(v)
            && Subsequence(Reading(Behind(w)), Reading(Behind(v)))
  {
    var (w, h) := (v[slot := []], FirstGap(v, 1));
    FirstGapIs(w, h);
    var (a, c) := (v[h..slot], v[slot + 1..]);
    assert Front(w) == Front(v);
    assert Behind(v) == a + [v[slot]] + c;
    assert Behind(w) == a + [[]] + c;
    ReadingMiddle(a, v[slot], c);
    ReadingMiddle(a, [], c);
    SubsequenceParts(Reading(c), v[slot], Reading(a));
    assert Reading(c) + [] + Reading(a) == Reading(c) + Reading(a);
  }

  lemma NothingBeneath(a: seq<Bytes>)
    requires Subsequence(a, [])
    ensures a == []
  {
  }

  /** Removing a backup that stands behind the first gap, or is the gap. */
  lemma HoldsWithoutLater(v: View, records: seq<Bytes>, slot: nat)
    requires Holds(v, records) && FirstGap(v, 1) <= slot < |v|
    ensures Holds(v[slot := []], records)
  {
    var w := v[slot := []];
    BehindWithout(v, slot);
    var n := |Reading(Front(v))|;
    if Reading(Behind(v)) == [] {
      NothingBeneath(Reading(Behind(w)));
    } else {
      SubsequenceTrans(Reading(Behind(w)), Reading(Behind(v)), records[..|records| - n - 1]);
    }
    ReadingHalves(w);
    ReadingHalves(v);
  }

  lemma ReadingMiddle(a: View, file: seq<Bytes>, b: View)
    ensures Reading(a + [file] + b) == Reading(b) + file + Reading(a)
  {
    ReadingConcat(a + [file], b);
    ReadingConcat(a, [file]);
    assert [file][1..] == [];
    assert Reading([file]) == file;
  }

  /** Removing a backup before the first gap makes a new first gap, and its own
      records are the ones just before those that are still in front. */
  lemma HoldsWithoutEarlier(v: View, records: seq<Bytes>, slot: nat)
    requires Holds(v, records) && 0 < slot < FirstGap(v, 1)
    ensures Holds(v[slot := []], records)
  {
    EarlierReads(v, slot);
    var (w, h) := (v[slot := []], FirstGap(v, 1));
    LostMore(Reading(Behind(v)), Reading(v[slot + 1..h]), v[slot], Reading(v[..slot]), records);
    if v[0] == [] { ReadingSomething(v, slot); }
  }

  /** How the halves of a view read before and after a backup in front is removed. */
  lemma EarlierReads(v: View, slot: nat)
    requires v != [] && 0 < slot < FirstGap(v, 1)
    ensures var (w, h) := (v[slot := []], FirstGap(v, 1));
            && Reading(Front(v)) == Reading(v[slot + 1..h]) + v[slot] + Reading(v[..slot])
            && Front(w) == v[..slot]
            && Reading(Behind(w)) == Reading(Behind(v)) + Reading(v[slot + 1..h])
  {
    var h := FirstGap(v, 1);
    FirstGapIs(v[slot := []], slot);
    SplitInThree(v, slot, []);
    SplitAround(v, slot, h);
    ReadingMiddle(v[..slot], v[slot], v[slot + 1..h]);
    ReadingGap(v[slot + 1..]);
    ReadingConcat(v[slot + 1..h], v[h..]);
  }

  lemma ReadingGap(v: View)
    ensures Reading([[]] + v) == Reading(v)
  {
    assert ([[]] + v)[1..] == v;
  }

  lemma LostMore(older: seq<Bytes>, between: seq<Bytes>, gone: seq<Bytes>, newer: seq<Bytes>, records: seq<Bytes>)
    requires gone != [] && IsSuffix(between + gone + newer, records)
    requires older != [] ==> Lost(older, records, |between + gone + newer|)
    ensures IsSuffix(newer, records) && Lost(older + between, records, |newer|)
  {
    var k := |records| - |between + gone + newer|;
    var first := records[..k];
    assert records == first + (between + gone + newer);
    CutInMiddle(first, between, gone, newer);
    if older != [] {
      SubsequenceMore(older, records[..k - 1], records[k - 1..k]);
      assert records[..k - 1] + records[k - 1..k] == first;
    }
    SubsequenceBeside(older, first, between);
    SubsequenceMore(older + between, first + between, gone[..|gone| - 1]);
  }

  lemma HoldsWithout(v: View, records: seq<Bytes>, slot: nat)
    requires Holds(v, records)
    ensures Holds(Without(v, slot), records)
  {
    if 0 < slot < |v| {
      if slot < FirstGap(v, 1) {
        HoldsWithoutEarlier(v, records, slot);
      } else {
        HoldsWithoutLater(v, records, slot);
      }
    }
  }

  lemma ChangedHolds(v: View, records: seq<Bytes>, e: Entry)
    requires Holds(v, records)
    ensures Holds(Changed(v, e), if e.Logged? then records + [e.line] else records)
  {
    match e
    case Logged(line, maxBytes, backups) =>
      if RotationNeeded(|Flatten(v[0])|, |line|, maxBytes) {
        assert Flatten([]) == [];
        HoldsPrepended(v, records, line);
        HoldsCut([[line]] + v, records + [line], backups + 1);
      } else {
        HoldsAppended(v, records, line);
      }
    case Dropped(slot) => HoldsWithout(v, records, slot);
    case Cleaned(backups) => HoldsCut(v, records, backups + 1);
  }

  /** Every log, whatever configurations it was opened with and wherever removing
      excess backups was interrupted, holds some of its records in order: the newest
      ones before the first gap, and behind it only what is older than a lost one. */
  lemma {:induction false} HistoryHolds(history: seq<Entry>)
    ensures Holds(Replay(history), Records(history))
  {
    if history == [] {
      assert Reading([[]]) == [] && Front([[]]) == [[]] && Behind([[]]) == [];
    } else {
      HistoryHolds(history[..|history| - 1]);
      ChangedHolds(Replay(history[..|history| - 1]), Records(history[..|history| - 1]), history[|history| - 1]);
    }
  }

  /** Exactly when a log reads as the newest of its records. */
  lemma {:induction false} SuffixIffSolid(history: seq<Entry>)
    requires Distinct(Records(history))
    ensures IsSuffix(Reading(Replay(history)), Records(history)) <==> Solid(Replay(history))
  {
    HistoryHolds(history);
    if Solid(Replay(history)) {
      HeldSolid(Replay(history), Records(history));
    } else {
      HeldGapped(Replay(history), Records(history));
    }
  }

  // ---------- Where gaps can be ----------

  /** There is no gap among the slots up to `l`. */
  ghost predicate Packed(v: View, l: nat) {
    forall i :: 0 < i < |v| && i <= l && v[i] == [] ==> EmptyFrom(v, i)
  }

  /** Gaps come only from removals beyond `l`, and finishing a removal of all but at
      most `l` backups closes them. */
  lemma ChangedPacked(v: View, e: Entry, l: nat)
    requires v != [] && Packed(v, l) && (e.Dropped? ==> e.slot > l)
    ensures Packed(Changed(v, e), l)
    ensures e.Cleaned? && e.backups <= l ==> Solid(Changed(v, e))
    ensures e.Logged? && Solid(v) ==> Solid(Changed(v, e))
  {
    assert Flatten([]) == [];
    var w := Changed(v, e);
    if e.Logged? && RotationNeeded(|Flatten(v[0])|, |e.line|, e.maxBytes) {
      assert forall i :: 0 < i < |w| ==> w[i] == v[i - 1];
    } else if e.Logged? {
      assert forall i :: 0 < i < |w| ==> w[i] == v[i];
    }
  }

  /** A history that goes on with removals beyond `backups` only. */
  ghost predicate Trims(before: seq<Entry>, after: seq<Entry>, backups: nat) {
    && before <= after
    && forall k :: |before| <= k < |after| ==>
         (after[k].Dropped? && after[k].slot > backups) || after[k] == Cleaned(backups)
  }

  lemma TrimsMore(before: seq<Entry>, after: seq<Entry>, backups: nat, e: Entry)
    requires Trims(before, after, backups) && ((e.Dropped? && e.slot > backups) || e == Cleaned(backups))
    ensures Trims(before, after + [e], backups)
  {
  }

  /** Removals touch no record in the history, and leave gaps only beyond `backups`;
      the last of them closes all gaps that are not among the slots it spares. */
  lemma {:induction false} TrimsKeep(before: seq<Entry>, after: seq<Entry>, backups: nat, l: nat)
    requires Trims(before, after, backups) && Packed(Replay(before), l) && l <= backups
    ensures Records(after) == Records(before) && Packed(Replay(after), l)
    decreases |after|
  {
    if |after| > |before| {
      var (front, e) := (after[..|after| - 1], after[|after| - 1]);
      assert Trims(before, front, backups);
      assert after == front + [e];
      TrimsKeep(before, front, backups, l);
      RecordsStep(front, e);
      ReplayStep(front, e);
      ChangedPacked(Replay(front), e, l);
    } else {
      assert after == before;
    }
  }

  lemma TrimsToTheEnd(before: seq<Entry>, after: seq<Entry>, backups: nat)
    requires Trims(before, after, backups) && Packed(Replay(before), backups)
    requires |after| > |before| && after[|after| - 1] == Cleaned(backups)
    ensures Solid(Replay(after))
  {
    var front := after[..|after| - 1];
    assert Trims(before, front, backups);
    assert after == front + [Cleaned(backups)];
    TrimsKeep(before, front, backups, backups);
    ReplayStep(front, Cleaned(backups));
    ChangedPacked(Replay(front), Cleaned(backups), backups);
  }

  /** Three records, each in a file of its own. */
  function ThreeFiles(a: Bytes, b: Bytes, c: Bytes): seq<Entry> {
    [Logged(a, 1, 2), Logged(b, 1, 2), Logged(c, 1, 2)]
  }

  lemma ThreeFilesRead(a: Bytes, b: Bytes, c: Bytes)
    requires IsLine(a) && IsLine(b) && IsLine(c)
    ensures Replay(ThreeFiles(a, b, c)) == [[c], [b], [a]] && Records(ThreeFiles(a, b, c)) == [a, b, c]
  {
    var h0: seq<Entry> := [];
    var h1 := h0 + [Logged(a, 1, 2)];
    var h2 := h1 + [Logged(b, 1, 2)];
    assert h2 + [Logged(c, 1, 2)] == ThreeFiles(a, b, c);
    ReplayStep(h0, Logged(a, 1, 2));
    ReplayStep(h1, Logged(b, 1, 2));
    ReplayStep(h2, Logged(c, 1, 2));
    RecordsStep(h0, Logged(a, 1, 2));
    RecordsStep(h1, Logged(b, 1, 2));
    RecordsStep(h2, Logged(c, 1, 2));
    assert Replay(h0) == [[]];
    FlattenOne(a);
    FlattenOne(b);
    assert Flatten([]) == [];
    assert Replay(h1) == [[a]];
    assert Replay(h2) == [[b], [a]];
  }

  /** A removal that is interrupted, and then more backups than it had wanted: an
      opening without backups removes the first backup and stops, and one with two
      backups finishes.  The record in the removed file is missing between two that
      are still there. */
  lemma InterruptedRemovalLeavesAGap(a: Bytes, b: Bytes, c: Bytes)
    requires IsLine(a) && IsLine(b) && IsLine(c) && a != b
    ensures var written := ThreeFiles(a, b, c);
            var interrupted := written + [Dropped(1)];
            var history := interrupted + [Cleaned(2)];
            && Trims(written, interrupted, 0) && Trims(interrupted, history, 2)
            && Records(history) == [a, b, c]
            && Replay(history) == [[c], [], [a]] && Reading(Replay(history)) == [a, c]
            && !IsSuffix([a, c], [a, b, c])
  {
    var written := ThreeFiles(a, b, c);
    var interrupted := written + [Dropped(1)];
    ThreeFilesRead(a, b, c);
    ReplayStep(written, Dropped(1));
    ReplayStep(interrupted, Cleaned(2));
    RecordsStep(written, Dropped(1));
    RecordsStep(interrupted, Cleaned(2));
    assert Replay(interrupted) == [[c], [], [a]];
    ReadThree(c, a);
  }

  lemma FlattenOne(a: Bytes)
    ensures Flatten([a]) == a
  {
    FlattenAppend([], a);
    assert [] + [a] == [a];
    assert Flatten([]) == [];
  }

  lemma ReadThree(c: Bytes, a: Bytes)
    ensures Reading([[c], [], [a]]) == [a, c]
  {
    assert [[c], [], [a]] == [] + [[c]] + [[], [a]];
    ReadingMiddle([], [c], [[], [a]]);
    assert [[], [a]] == [] + [[]] + [[a]];
    ReadingMiddle([], [], [[a]]);
    assert [[a]] == [] + [[a]] + [];
    ReadingMiddle([], [a], []);
  }
}
