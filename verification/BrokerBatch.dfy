/** Fitting the outputs of a batch into one response frame. */
module BrokerBatch {
  import opened Basics
  import opened BrokerFrame
  import opened BrokerJson
  import opened BrokerResponse

  const RESULTS_FIELD: Bytes := [44, 34, 114, 101, 115, 117, 108, 116, 115, 34, 58, 91]

  /** A list with commas between its elements. */
  function Joined(parts: seq<Bytes>): Bytes {
    if parts == [] then []
    else
      var front := parts[..|parts| - 1];
      Joined(front) + (if front == [] then [] else [44]) + parts[|parts| - 1]
  }

  lemma JoinedLast(parts: seq<Bytes>, last: Bytes)
    ensures Joined(parts + [last]) == Joined(parts) + (if parts == [] then [] else [44]) + last
  {
    assert (parts + [last])[..|parts|] == parts;
  }

  lemma JoinedOne(part: Bytes)
    ensures Joined([part]) == part
  {
    JoinedLast([], part);
    assert [] + [part] == [part] && [] + [] + part == part;
  }

  lemma Rejoined(x: Bytes, y: Bytes, comma: Bytes, last: Bytes)
    ensures x + comma + y + comma + last == x + comma + (y + comma + last)
  {
    Associates(x + comma, y, comma);
    Associates(x + comma, y + comma, last);
  }

  /** Two lists are joined with a comma between them. */
  lemma {:induction false} JoinedWithComma(a: seq<Bytes>, b: seq<Bytes>)
    requires a != [] && b != []
    ensures Joined(a + b) == Joined(a) + [44] + Joined(b)
    decreases |b|
  {
    var (front, last) := (b[..|b| - 1], b[|b| - 1]);
    assert b == front + [last];
    Associates(a, front, [last]);
    JoinedLast(front, last);
    JoinedLast(a + front, last);
    if front == [] {
      assert a + front == a;
      JoinedOne(last);
    } else {
      JoinedWithComma(a, front);
      Rejoined(Joined(a), Joined(front), [44], last);
    }
  }

  function EncodedResults(rs: seq<TextResult>): seq<Bytes> {
    seq(|rs|, i requires 0 <= i < |rs| => EncodedResult(rs[i]))
  }

  /** An empty list is left out. */
  function EncodedBatch(e: Envelope, rs: seq<TextResult>): Bytes {
    e.before + (if rs == [] then [] else RESULTS_FIELD + Joined(EncodedResults(rs)) + [93]) + e.after
  }

  function AllNormalized(raws: seq<RawResult>): seq<TextResult> {
    seq(|raws|, i requires 0 <= i < |raws| => Normalized(raws[i]))
  }

  /** Without its output, and marked truncated if it had any. */
  function Emptied(n: TextResult): TextResult {
    n.(stdout := [], stderr := [], truncated := n.truncated || n.stdout != [] || n.stderr != [])
  }

  function AllEmptied(ns: seq<TextResult>): seq<TextResult> {
    seq(|ns|, i requires 0 <= i < |ns| => Emptied(ns[i]))
  }

  /** The output of `n` cut to fit `available` bytes, everything else as in `Emptied`. */
  ghost predicate CutTo(n: TextResult, m: TextResult, available: int) {
    && m == Emptied(n).(stdout := m.stdout, stderr := m.stderr)
    && m.stdout <= n.stdout && m.stderr <= n.stderr
    && Fits(n.stdout, n.stderr, available, |m.stdout|, |m.stderr|)
  }

  ghost predicate AllCutTo(ns: seq<TextResult>, ms: seq<TextResult>, available: int) {
    |ms| == |ns| && forall i :: 0 <= i < |ns| ==> CutTo(ns[i], ms[i], available)
  }

  lemma CutSize(n: TextResult, m: TextResult, available: nat)
    requires CutTo(n, m, available)
    ensures |EncodedResult(m)| <= |EncodedResult(Emptied(n))| + available
  {
    assert m.stdout == n.stdout[..|m.stdout|] && m.stderr == n.stderr[..|m.stderr|];
    FitsWithin(n.stdout, n.stderr, available, |m.stdout|, |m.stderr|);
    FieldSizeIsExact(STDOUT_FIELD, m.stdout);
    FieldSizeIsExact(STDERR_FIELD, m.stderr);
  }

  function Times(n: nat, k: nat): nat {
    if n == 0 then 0 else Times(n - 1, k) + k
  }

  lemma {:induction false} TimesIsProduct(n: nat, k: nat)
    ensures Times(n, k) == n * k
  {
    if n > 0 { TimesIsProduct(n - 1, k); }
  }

  /** In a batch that is cut, every result that had output is marked.  Its output is
      nevertheless whole exactly if it needed no more than its part of the room. */
  lemma CutButWhole(n: TextResult, m: TextResult, available: nat)
    requires CutTo(n, m, available)
    ensures m.truncated <==> n.truncated || n.stdout != [] || n.stderr != []
    ensures m.stdout == n.stdout && m.stderr == n.stderr <==> FieldSize(n.stdout) + FieldSize(n.stderr) <= available
  {
    FitsAll(n.stdout, n.stderr, available, |m.stdout|, |m.stderr|);
    assert m.stdout == n.stdout[..|m.stdout|] && m.stderr == n.stderr[..|m.stderr|];
  }

  /** Each element may grow by `more`. */
  lemma {:induction false} JoinedSize(ns: seq<Bytes>, ms: seq<Bytes>, more: nat)
    requires |ms| == |ns| && forall i :: 0 <= i < |ns| ==> |ms[i]| <= |ns[i]| + more
    ensures |Joined(ms)| <= |Joined(ns)| + Times(|ns|, more)
  {
    if ns != [] {
      var last := |ns| - 1;
      JoinedSize(ns[..last], ms[..last], more);
    }
  }

  lemma ResultsSize(ns: seq<TextResult>, ms: seq<TextResult>, available: nat)
    requires AllCutTo(ns, ms, available)
    ensures |Joined(EncodedResults(ms))| <= |Joined(EncodedResults(AllEmptied(ns)))| + Times(|ns|, available)
  {
    var (before, after) := (EncodedResults(AllEmptied(ns)), EncodedResults(ms));
    forall i | 0 <= i < |ns| ensures |after[i]| <= |before[i]| + available {
      assert CutTo(ns[i], ms[i], available);
      CutSize(ns[i], ms[i], available);
    }
    JoinedSize(before, after, available);
  }

  lemma BatchSize(e: Envelope, rs: seq<TextResult>)
    requires rs != []
    ensures |EncodedBatch(e, rs)| == |e.before| + |RESULTS_FIELD| + |Joined(EncodedResults(rs))| + 1 + |e.after|
  {
  }

  lemma PartsOf(room: nat, n: nat)
    requires n > 0
    ensures Times(n, room / n) <= room
  {
    TimesIsProduct(n, room / n);
  }

  /** Parts that add up to no more than the room give a response that fits. */
  lemma PartsFit(e: Envelope, ns: seq<TextResult>, ms: seq<TextResult>, perResult: nat)
    requires AllCutTo(ns, ms, perResult) && ns != []
    requires |EncodedBatch(e, AllEmptied(ns))| + Times(|ns|, perResult) <= MAX_FRAME_BYTES
    ensures |EncodedBatch(e, ms)| <= MAX_FRAME_BYTES
  {
    ResultsSize(ns, ms, perResult);
    BatchSize(e, ms);
    BatchSize(e, AllEmptied(ns));
  }

  // ---------- The code ----------

  method NormalizeAll(raws: seq<RawResult>) returns (results: seq<TextResult>)
    ensures results == AllNormalized(raws)
  {
    results := [];
    for i := 0 to |raws|
      invariant results == AllNormalized(raws)[..i]
    {
      var one := Normalize(raws[i]);
      results := results + [one];
    }
  }

  method EmptyAll(original: seq<TextResult>) returns (results: seq<TextResult>)
    ensures results == AllEmptied(original)
  {
    results := original;
    for i := 0 to |results|
      invariant |results| == |original|
      invariant forall k :: 0 <= k < |results| ==> results[k] == if k < i then Emptied(original[k]) else original[k]
    {
      results := results[i := results[i].(stdout := [], stderr := [])];
      if original[i].stdout != [] || original[i].stderr != [] {
        results := results[i := results[i].(truncated := true)];
      }
    }
  }

  method FitAll(original: seq<TextResult>, emptied: seq<TextResult>, perResult: nat) returns (results: seq<TextResult>)
    requires emptied == AllEmptied(original)
    ensures AllCutTo(original, results, perResult)
  {
    results := emptied;
    for i := 0 to |results|
      invariant |results| == |original|
      invariant forall k :: i <= k < |results| ==> results[k] == Emptied(original[k])
      invariant forall k :: 0 <= k < i ==> CutTo(original[k], results[k], perResult)
    {
      var out, err := FitExecuteOutput(original[i].stdout, original[i].stderr, perResult);
      results := results[i := results[i].(stdout := out, stderr := err)];
    }
  }

  /** Measures, and takes a quarter of the room away as long as the response is too
      big.  `rounds` counts how often it had to. */
  method Shrink(e: Envelope, original: seq<TextResult>, base: seq<TextResult>, first: seq<TextResult>, initially: nat)
      returns (sent: seq<TextResult>, ghost rounds: nat)
    requires base == AllEmptied(original)
    ensures |EncodedBatch(e, first)| <= MAX_FRAME_BYTES ==> sent == first && rounds == 0
    ensures sent == base || |EncodedBatch(e, sent)| <= MAX_FRAME_BYTES
  {
    var results, perResult := first, initially;
    rounds := 0;
    for attempts := 0 to 8
      invariant rounds == attempts
      invariant |EncodedBatch(e, first)| <= MAX_FRAME_BYTES ==> attempts == 0
      invariant attempts == 0 ==> results == first
    {
      if |EncodedBatch(e, results)| <= MAX_FRAME_BYTES {
        return results, rounds;
      }
      perResult := perResult * 3 / 4;
      results := FitAll(original, base, perResult);
      rounds := rounds + 1;
    }
    return base, rounds;
  }

  /** The whole response as it is, or every output cut to an equal part of the room. */
  method MarshalBatchExecuteResult(e: Envelope, raws: seq<RawResult>)
      returns (r: Response<seq<TextResult>>, ghost rounds: nat)
    ensures r.Sent? ==> |EncodedBatch(e, r.result)| <= 1048576
    ensures rounds == 0
    ensures var ns := AllNormalized(raws);
            |ns| == |raws| && forall i :: 0 <= i < |raws| ==> IsNormalized(raws[i], ns[i])
    ensures var ns := AllNormalized(raws);
            var baseSize := |EncodedBatch(e, AllEmptied(ns))|;
            if |EncodedBatch(e, ns)| <= MAX_FRAME_BYTES then r == Sent(ns)
            else if baseSize > MAX_FRAME_BYTES || ns == [] then r == Unavailable
            else r.Sent? && AllCutTo(ns, r.result, (MAX_FRAME_BYTES - baseSize) / |ns|)
  {
    rounds := 0;
    forall i | 0 <= i < |raws| ensures IsNormalized(raws[i], AllNormalized(raws)[i]) { NormalizedAs(raws[i]); }
    var original := NormalizeAll(raws);
    if |EncodedBatch(e, original)| <= MAX_FRAME_BYTES {
      return Sent(original), 0;
    }
    var base := EmptyAll(original);
    if |EncodedBatch(e, base)| > MAX_FRAME_BYTES {
      return Unavailable, 0;
    }
    // an empty list has no smaller encoding, and is refused above
    assert original != [];
    var sent: seq<TextResult>;
    sent, rounds := Apportion(e, original, base);
    r := Sent(sent);
  }

  method Apportion(e: Envelope, original: seq<TextResult>, base: seq<TextResult>)
      returns (sent: seq<TextResult>, ghost rounds: nat)
    requires original != [] && base == AllEmptied(original) && |EncodedBatch(e, base)| <= MAX_FRAME_BYTES
    ensures |EncodedBatch(e, sent)| <= MAX_FRAME_BYTES && rounds == 0
    ensures AllCutTo(original, sent, (MAX_FRAME_BYTES - |EncodedBatch(e, base)|) / |original|)
  {
    var room := MAX_FRAME_BYTES - |EncodedBatch(e, base)|;
    var perResult := room / |original|;
    if perResult <= 0 {
      return base, 0;
    }
    var results := FitAll(original, base, perResult);
    PartsOf(room, |original|);
    PartsFit(e, original, results, perResult);
    sent, rounds := Shrink(e, original, base, results, perResult);
  }
}
