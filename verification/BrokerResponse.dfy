/** Fitting the output of a command into one response frame. */
module BrokerResponse {
  import opened Basics
  import opened BrokerFrame
  import opened BrokerJson

  /** A result as it is encoded.  `status`, `middle` and `rest` are the encodings of
      the fields around those that fitting changes: everything up to the status, the
      exit code and duration, and everything from the error on. */
  datatype Result<T> = Result(status: Bytes, stdout: T, stderr: T, middle: Bytes, truncated: bool, rest: Bytes)

  type RawResult = Result<seq<Unit>>
  type TextResult = Result<Text>

  /** The bytes around the result in a response; the request identifier is among them. */
  datatype Envelope = Envelope(before: Bytes, after: Bytes)

  datatype Response<T> = Sent(result: T) | Unavailable

  const STDOUT_FIELD: Bytes := [44, 34, 115, 116, 100, 111, 117, 116, 34, 58]
  const STDERR_FIELD: Bytes := [44, 34, 115, 116, 100, 101, 114, 114, 34, 58]
  const TRUNCATED_FIELD: Bytes := [44, 34, 116, 114, 117, 110, 99, 97, 116, 101, 100, 34, 58]
  const TRUE: Bytes := [116, 114, 117, 101]
  const FALSE: Bytes := [102, 97, 108, 115, 101]
  const FIELD_BYTES: nat := 10
  const QUOTES: nat := 2

  /** An empty string is left out. */
  function StringField(name: Bytes, text: Text): Bytes {
    if text == [] then [] else name + [34] + EscapedText(text) + [34]
  }

  function EncodedResult(r: TextResult): Bytes {
    r.status + StringField(STDOUT_FIELD, r.stdout) + StringField(STDERR_FIELD, r.stderr) + r.middle
    + TRUNCATED_FIELD + (if r.truncated then TRUE else FALSE) + r.rest
  }

  function EncodedResponse(e: Envelope, r: TextResult): Bytes {
    e.before + EncodedResult(r) + e.after
  }

  function Normalized(r: RawResult): TextResult {
    Result(r.status, ToValid(r.stdout), ToValid(r.stderr), r.middle,
           r.truncated || !IsValid(r.stdout) || !IsValid(r.stderr), r.rest)
  }

  /** The outputs repaired, a mark if that was needed, and nothing else changed. */
  ghost predicate IsNormalized(raw: RawResult, n: TextResult) {
    && IsRepaired(raw.stdout, n.stdout) && IsRepaired(raw.stderr, n.stderr)
    && n.status == raw.status && n.middle == raw.middle && n.rest == raw.rest
    && (n.truncated <==> raw.truncated || !IsValid(raw.stdout) || !IsValid(raw.stderr))
  }

  lemma NormalizedAs(raw: RawResult)
    ensures IsNormalized(raw, Normalized(raw))
  {
    RepairedAs(raw.stdout);
    RepairedAs(raw.stderr);
  }

  function Bare(r: TextResult): TextResult {
    r.(stdout := [], stderr := [], truncated := true)
  }

  // ---------- Sizes ----------

  function Min(a: int, b: int): int {
    if a < b then a else b
  }

  function FieldSize(text: Text): nat {
    if text == [] then 0 else FIELD_BYTES + QUOTES + ContentSize(text)
  }

  lemma FieldSizeIsExact(name: Bytes, text: Text)
    requires |name| == FIELD_BYTES
    ensures |StringField(name, text)| == FieldSize(text)
  {
    SizesAreExact(text);
  }

  /** The size of a response, split into what is fixed and what the output adds. */
  lemma ResponseSize(e: Envelope, r: TextResult)
    ensures |EncodedResponse(e, r)| == |EncodedResponse(e, Bare(r))| + FieldSize(r.stdout) + FieldSize(r.stderr)
                                        + (if r.truncated then 0 else 1)
  {
    FieldSizeIsExact(STDOUT_FIELD, r.stdout);
    FieldSizeIsExact(STDERR_FIELD, r.stderr);
  }

  // ---------- Budgets ----------

  /** Each stream has half of the budget at its disposal and what the other leaves;
      an odd byte and the choice go to the first. */
  function Share(full0: nat, full1: nat, budget: nat): (nat, nat) {
    var b0 := Min(full0, budget - Min(full1, budget / 2));
    (b0, Min(full1, budget - b0))
  }

  /** Nothing is wasted, nobody gets less than half or more than it can use, and when
      both could use more the first gets the odd byte. */
  lemma ShareIsFair(full0: nat, full1: nat, budget: nat)
    ensures var (b0, b1) := Share(full0, full1, budget);
            && b0 + b1 == Min(full0 + full1, budget)
            && Min(full0, budget / 2) <= b0 <= full0
            && Min(full1, budget / 2) <= b1 <= full1
            && (full0 > budget / 2 && full1 > budget / 2 ==> b1 == budget / 2)
  {
  }

  /** Measuring no further than one past the budget makes no difference. */
  lemma CappedShare(full0: nat, full1: nat, budget: nat)
    ensures Share(Min(full0, budget + 1), Min(full1, budget + 1), budget) == Share(full0, full1, budget)
  {
  }

  function Fixed(stdout: Text, stderr: Text): nat {
    (if stdout == [] then 0 else FIELD_BYTES + QUOTES) + (if stderr == [] then 0 else FIELD_BYTES + QUOTES)
  }

  /** `k0` and `k1` characters are kept of the two streams. */
  ghost predicate Fits(stdout: Text, stderr: Text, available: int, k0: nat, k1: nat) {
    var content := available - Fixed(stdout, stderr);
    if content <= 0 then k0 == 0 && k1 == 0
    else
      var (b0, b1) := Share(ContentSize(stdout), ContentSize(stderr), content);
      LongestWithin(stdout, b0, k0) && LongestWithin(stderr, b1, k1)
  }

  /** The kept output takes no more room than there is. */
  lemma FitsWithin(stdout: Text, stderr: Text, available: int, k0: nat, k1: nat)
    requires Fits(stdout, stderr, available, k0, k1)
    ensures k0 <= |stdout| && k1 <= |stderr|
    ensures FieldSize(stdout[..k0]) + FieldSize(stderr[..k1]) <= if available > 0 then available else 0
  {
    var content := available - Fixed(stdout, stderr);
    if content > 0 {
      ShareIsFair(ContentSize(stdout), ContentSize(stderr), content);
    }
  }

  /** All of it is kept exactly when all of it has room. */
  lemma FitsAll(stdout: Text, stderr: Text, available: int, k0: nat, k1: nat)
    requires Fits(stdout, stderr, available, k0, k1) && available >= 0
    ensures k0 <= |stdout| && k1 <= |stderr|
    ensures (k0 == |stdout| && k1 == |stderr|) <==> FieldSize(stdout) + FieldSize(stderr) <= available
  {
    var content := available - Fixed(stdout, stderr);
    assert stdout[..|stdout|] == stdout && stderr[..|stderr|] == stderr;
    PositiveSize(stdout);
    PositiveSize(stderr);
    if content > 0 {
      ShareIsFair(ContentSize(stdout), ContentSize(stderr), content);
    }
  }

  lemma PositiveSize(text: Text)
    ensures ContentSize(text) > 0 <==> text != []
  {
    assert text[..|text|] == text;
    SizeGrows(text, 0, |text|);
  }

  /** Where a cut has to be. */
  lemma LongestUnique(text: Text, budget: nat, k: nat, k': nat)
    requires LongestWithin(text, budget, k) && LongestWithin(text, budget, k')
    ensures k == k'
  {
  }

  lemma FitsNothing(stdout: Text, stderr: Text, available: int)
    requires (stdout == [] && stderr == []) || available - Fixed(stdout, stderr) <= 0
    ensures Fits(stdout, stderr, available, 0, 0)
  {
  }

  lemma FitsFirst(stdout: Text, available: int, k: nat)
    requires var content := available - Fixed(stdout, []);
             content > 0 && LongestWithin(stdout, Min(ContentSize(stdout), content), k)
    ensures Fits(stdout, [], available, k, 0)
  {
  }

  lemma FitsSecond(stderr: Text, available: int, k: nat)
    requires var content := available - Fixed([], stderr);
             content > 0 && LongestWithin(stderr, Min(ContentSize(stderr), content), k)
    ensures Fits([], stderr, available, 0, k)
  {
  }

  /** Divides the room fairly among the streams that have output. */
  method FitExecuteOutput(stdout: Text, stderr: Text, available: int) returns (out: Text, err: Text)
    ensures out <= stdout && err <= stderr && Fits(stdout, stderr, available, |out|, |err|)
  {
    out, err := [], [];
    var contentBudget := available - Fixed(stdout, stderr);
    if (stdout == [] && stderr == []) || contentBudget <= 0 {
      FitsNothing(stdout, stderr, available);
      return;
    }
    if stderr == [] {
      out := FitOne(stdout, contentBudget);
      FitsFirst(stdout, available, |out|);
    } else if stdout == [] {
      err := FitOne(stderr, contentBudget);
      FitsSecond(stderr, available, |err|);
    } else {
      out, err := FitBoth(stdout, stderr, contentBudget);
    }
  }

  method FitOne(text: Text, contentBudget: nat) returns (prefix: Text)
    ensures prefix <= text && LongestWithin(text, Min(ContentSize(text), contentBudget), |prefix|)
  {
    var fullSize := JsonEscapedContentSize(text, contentBudget);
    var used, end: nat;
    prefix, used, end := JsonPrefix(text, Min(fullSize, contentBudget));
  }

  method FitBoth(stdout: Text, stderr: Text, contentBudget: nat) returns (out: Text, err: Text)
    ensures out <= stdout && err <= stderr
    ensures var (b0, b1) := Share(ContentSize(stdout), ContentSize(stderr), contentBudget);
            LongestWithin(stdout, b0, |out|) && LongestWithin(stderr, b1, |err|)
  {
    CappedShare(ContentSize(stdout), ContentSize(stderr), contentBudget);
    var full0 := JsonEscapedContentSize(stdout, contentBudget);
    var full1 := JsonEscapedContentSize(stderr, contentBudget);
    var b0, b1 := Divide(full0, full1, contentBudget);
    var used, end: nat;
    out, used, end := JsonPrefix(stdout, b0);
    err, used, end := JsonPrefix(stderr, b1);
  }

  /** Half for each, and then what is left to whoever wants more, in order. */
  method Divide(full0: nat, full1: nat, contentBudget: nat) returns (b0: nat, b1: nat)
    ensures (b0, b1) == Share(full0, full1, contentBudget)
  {
    var half := contentBudget / 2;
    b0 := Min(full0, half);
    b1 := Min(full1, half);
    var remaining := contentBudget - b0 - b1;
    if b0 < full0 {
      var added := Min(full0 - b0, remaining);
      b0 := b0 + added;
      remaining := remaining - added;
    }
    if b1 < full1 {
      b1 := b1 + Min(full1 - b1, remaining);
    }
  }

  // ---------- One result ----------

  function NormalizeUtf8(raw: seq<Unit>): (t: Text)
    ensures IsRepaired(raw, t) && (AllScalars(t) == raw <==> IsValid(raw))
  {
    ValidStays(raw);
    RepairedAs(raw);
    ToValid(raw)
  }

  /** What fitting may do: cut the two outputs and say so. */
  ghost predicate Shortened(n: TextResult, m: TextResult) {
    m == n.(stdout := m.stdout, stderr := m.stderr, truncated := true) && m.stdout <= n.stdout && m.stderr <= n.stderr
  }

  /** What is sent of a normalized result. */
  ghost predicate Answers(e: Envelope, n: TextResult, r: Response<TextResult>) {
    if |EncodedResponse(e, n)| <= MAX_FRAME_BYTES then r == Sent(n) else Cut(e, n, r)
  }

  ghost predicate Cut(e: Envelope, n: TextResult, r: Response<TextResult>) {
    var baseSize := |EncodedResponse(e, Bare(n))|;
    if baseSize > MAX_FRAME_BYTES then r == Unavailable
    else r.Sent? && Shortened(n, r.result)
         && Fits(n.stdout, n.stderr, MAX_FRAME_BYTES - baseSize, |r.result.stdout|, |r.result.stderr|)
  }

  method MarshalExecuteResult(e: Envelope, raw: RawResult) returns (r: Response<TextResult>)
    ensures IsNormalized(raw, Normalized(raw)) && Answers(e, Normalized(raw), r)
  {
    NormalizedAs(raw);
    var result := Normalize(raw);
    RawTooLong(e, result);
    if |Encoded(result.stdout)| + |Encoded(result.stderr)| <= MAX_FRAME_BYTES {
      if |EncodedResponse(e, result)| <= MAX_FRAME_BYTES {
        return Sent(result);
      }
    }
    r := Shorten(e, result);
  }

  method Normalize(raw: RawResult) returns (result: TextResult)
    ensures result == Normalized(raw)
  {
    var stdout, stderr := NormalizeUtf8(raw.stdout), NormalizeUtf8(raw.stderr);
    var truncated := raw.truncated;
    if AllScalars(stdout) != raw.stdout || AllScalars(stderr) != raw.stderr {
      truncated := true;
    }
    result := Result(raw.status, stdout, stderr, raw.middle, truncated, raw.rest);
  }

  lemma CutAs(e: Envelope, n: TextResult, out: Text, err: Text)
    requires out <= n.stdout && err <= n.stderr && |EncodedResponse(e, Bare(n))| <= MAX_FRAME_BYTES
    requires Fits(n.stdout, n.stderr, MAX_FRAME_BYTES - |EncodedResponse(e, Bare(n))|, |out|, |err|)
    ensures Cut(e, n, Sent(Bare(n).(stdout := out, stderr := err)))
  {
  }

  method Shorten(e: Envelope, result: TextResult) returns (r: Response<TextResult>)
    ensures Cut(e, result, r)
  {
    var base := result.(truncated := true, stdout := [], stderr := []);
    assert base == Bare(result);
    var baseSize := |EncodedResponse(e, base)|;
    if baseSize > MAX_FRAME_BYTES {
      return Unavailable;
    }
    var out, err := FitExecuteOutput(result.stdout, result.stderr, MAX_FRAME_BYTES - baseSize);
    CutAs(e, result, out, err);
    if out == [] && err == [] {
      return Sent(base);
    }
    return Sent(base.(stdout := out, stderr := err));
  }

  /** Output too long as it is does not fit when encoded either. */
  lemma RawTooLong(e: Envelope, r: TextResult)
    ensures |EncodedResponse(e, r)| >= |Encoded(r.stdout)| + |Encoded(r.stderr)|
  {
    SizesAreExact(r.stdout);
    SizesAreExact(r.stderr);
    FieldSizeIsExact(STDOUT_FIELD, r.stdout);
    FieldSizeIsExact(STDERR_FIELD, r.stderr);
  }

  /** The bytes of the response, which are never measured again once the output has
      been cut, always fit a frame. */
  lemma ShortenedFits(e: Envelope, n: TextResult, m: TextResult)
    requires Shortened(n, m) && |EncodedResponse(e, Bare(n))| <= MAX_FRAME_BYTES
    requires Fits(n.stdout, n.stderr, MAX_FRAME_BYTES - |EncodedResponse(e, Bare(n))|, |m.stdout|, |m.stderr|)
    ensures |EncodedResponse(e, m)| <= MAX_FRAME_BYTES
  {
    assert m.stdout == n.stdout[..|m.stdout|] && m.stderr == n.stderr[..|m.stderr|];
    FitsWithin(n.stdout, n.stderr, MAX_FRAME_BYTES - |EncodedResponse(e, Bare(n))|, |m.stdout|, |m.stderr|);
    ResponseSize(e, m);
    assert Bare(m) == Bare(n);
  }

  /** A result can be marked truncated without having lost anything: exactly when it
      was one byte too long and became shorter by the word that marks it. */
  lemma MarkedButWhole(e: Envelope, n: TextResult, m: TextResult, available: nat)
    requires |EncodedResponse(e, n)| > MAX_FRAME_BYTES
    requires available == MAX_FRAME_BYTES - |EncodedResponse(e, Bare(n))|
    requires Shortened(n, m) && Fits(n.stdout, n.stderr, available, |m.stdout|, |m.stderr|)
    ensures m.stdout == n.stdout && m.stderr == n.stderr
            <==> !n.truncated && |EncodedResponse(e, n)| == MAX_FRAME_BYTES + 1
  {
    WholeWhenRoom(n, m, available);
    ResponseSize(e, n);
  }

  lemma WholeWhenRoom(n: TextResult, m: TextResult, available: nat)
    requires Shortened(n, m) && Fits(n.stdout, n.stderr, available, |m.stdout|, |m.stderr|)
    ensures m.stdout == n.stdout && m.stderr == n.stderr <==> FieldSize(n.stdout) + FieldSize(n.stderr) <= available
  {
    FitsAll(n.stdout, n.stderr, available, |m.stdout|, |m.stderr|);
    assert m.stdout == n.stdout[..|m.stdout|] && m.stderr == n.stderr[..|m.stderr|];
  }

  method MarshalWithinFrame(e: Envelope, raw: RawResult) returns (r: Response<TextResult>)
    ensures r.Sent? ==> |EncodedResponse(e, r.result)| <= 1048576
    ensures r == Unavailable <==> |EncodedResponse(e, Normalized(raw))| > 1048576
                                  && |EncodedResponse(e, Bare(Normalized(raw)))| > 1048576
    ensures r.Sent? && !r.result.truncated ==> r.result == Normalized(raw) && IsValid(raw.stdout) && IsValid(raw.stderr)
  {
    r := MarshalExecuteResult(e, raw);
    var n := Normalized(raw);
    if r.Sent? && |EncodedResponse(e, n)| > MAX_FRAME_BYTES {
      ShortenedFits(e, n, r.result);
    }
  }

  lemma FieldIsOneLine(name: Bytes, text: Text)
    requires NEWLINE !in name
    ensures NEWLINE !in StringField(name, text)
  {
    SizesAreExact(text);
  }

  lemma ResultIsOneLine(r: TextResult)
    requires NEWLINE !in r.status && NEWLINE !in r.middle && NEWLINE !in r.rest
    ensures NEWLINE !in EncodedResult(r)
  {
    FieldIsOneLine(STDOUT_FIELD, r.stdout);
    FieldIsOneLine(STDERR_FIELD, r.stderr);
  }

  /** Nothing between the first and the last byte of a response ends its line. */
  lemma ResponseIsOneLine(e: Envelope, r: TextResult)
    requires NEWLINE !in e.before && NEWLINE !in e.after
    requires NEWLINE !in r.status && NEWLINE !in r.middle && NEWLINE !in r.rest
    ensures NEWLINE !in EncodedResponse(e, r)
  {
    ResultIsOneLine(r);
  }

  /** From the result to the other end of the socket. */
  method Deliver(e: Envelope, raw: RawResult) returns (r: Response<TextResult>, sent: bool, received: FrameResult)
    requires NEWLINE !in e.before && NEWLINE !in e.after
    requires NEWLINE !in raw.status && NEWLINE !in raw.middle && NEWLINE !in raw.rest
    ensures IsNormalized(raw, Normalized(raw)) && Answers(e, Normalized(raw), r)
    ensures r.Sent? && sent ==> received == Frame(EncodedResponse(e, r.result))
  {
    r := MarshalExecuteResult(e, raw);
    sent, received := false, Invalid;
    if r.Sent? {
      var n := Normalized(raw);
      if |EncodedResponse(e, n)| > MAX_FRAME_BYTES {
        ShortenedFits(e, n, r.result);
      }
      ResponseIsOneLine(e, r.result);
      sent, received := Transfer(EncodedResponse(e, r.result));
    }
  }
}
