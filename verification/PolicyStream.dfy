/** Redacting a stream that arrives in pieces, against redacting the whole text
    at once.  The pattern engine is a parameter: it sees the limit, the prefix,
    whether more followed, and whether a URL credential lies across the limit. */
module PolicyStream {
  import opened Basics
  import opened PolicyUrl

  const DEFAULT_MAX_BYTES: nat := 4194304
  const LOOKAHEAD_BYTES: nat := 256
  const MAX_INT: nat := 0x7fff_ffff_ffff_ffff

  datatype RedactionResult = RedactionResult(text: Bytes, counts: map<string, nat>, truncated: bool)

  type Engine = (nat, Bytes, bool, bool) -> RedactionResult

  function InspectionLimit(maxBytes: nat): (limit: nat)
    ensures maxBytes <= limit && (maxBytes <= MAX_INT ==> limit <= MAX_INT)
    ensures maxBytes + 256 <= 0x7fff_ffff_ffff_ffff ==> limit == maxBytes + 256
    ensures maxBytes + 256 > 0x7fff_ffff_ffff_ffff ==> limit == maxBytes
  {
    if maxBytes > MAX_INT - LOOKAHEAD_BYTES then maxBytes else maxBytes + LOOKAHEAD_BYTES
  }

  function Prefix(s: Bytes, n: nat): Bytes {
    if |s| <= n then s else s[..n]
  }

  /** What redacting the whole text gives. */
  ghost function OneShot(engine: Engine, input: Bytes, maxBytes: nat): RedactionResult {
    engine(maxBytes, Prefix(input, InspectionLimit(maxBytes)), |input| > maxBytes, CredentialAcross(input, maxBytes))
  }

  /** Some URL begins before the limit and has its credential across it. */
  ghost predicate Crosses(input: Bytes, limit: nat) {
    exists a: nat, i: nat :: OpenAuthority(input, limit, a) && CrossesAt(input, limit, a, i)
  }

  function Beginning(input: Bytes, n: nat): (b: Bytes)
    ensures b <= input && |b| == if |input| < n then |input| else n
  {
    if |input| < n then input else input[..n]
  }

  /** The engine is given the text up to 256 bytes behind the limit, if an integer can
      count them; it is told whether the text is longer than the limit, and whether a
      credential in some URL crosses it. */
  lemma OneShotMeans(engine: Engine, input: Bytes, maxBytes: nat)
    ensures OneShot(engine, input, maxBytes)
            == engine(maxBytes,
                      Beginning(input, if maxBytes + 256 < 0x8000_0000_0000_0000 then maxBytes + 256 else maxBytes),
                      |input| > maxBytes, Crosses(input, maxBytes))
  {
    CredentialMeans(input, maxBytes);
    var n := InspectionLimit(maxBytes);
    assert Prefix(input, n) == Beginning(input, n);
  }

  lemma CredentialMeans(input: Bytes, maxBytes: nat)
    ensures CredentialAcross(input, maxBytes) <==> Crosses(input, maxBytes)
  {
    if a: nat, i: nat :| OpenAuthority(input, maxBytes, a) && CrossesAt(input, maxBytes, a, i) {
      AuthorityIs(input, maxBytes, a);
    }
  }

  method RedactString(engine: Engine, input: Bytes, maxBytes: nat) returns (result: RedactionResult)
    ensures result == OneShot(engine, input, maxBytes)
  {
    var truncated := |input| > maxBytes;
    var across := UrlCredentialAfterBoundary(input, maxBytes);
    var inspectionLimit := InspectionLimit(maxBytes);
    var inspected := input;
    if |inspected| > inspectionLimit {
      inspected := inspected[..inspectionLimit];
    }
    return engine(maxBytes, inspected, truncated, across);
  }

  // ---------- Watching dropped bytes ----------

  datatype UrlTail = UrlTail(initialized: bool, active: bool, colonSeen: bool, credentials: bool, resolved: bool)

  const UNWATCHED := UrlTail(false, false, false, false, false)

  /** The step of the byte automaton. */
  function Observed(tail: UrlTail, c: Byte, position: nat, maxBytes: nat): UrlTail {
    if IsTerminator(c) then tail.(resolved := true, active := false)
    else if c == ':' as int then tail.(colonSeen := true)
    else if c == '@' as int then
      tail.(credentials := tail.credentials || (tail.colonSeen && position >= maxBytes),
            resolved := true, active := false)
    else tail
  }

  /** The automaton over the stream from the authority start up to n bytes; once
      resolved it looks no further. */
  function Watched(s: Bytes, maxBytes: nat, a: nat, n: nat): UrlTail
    requires a <= n <= |s|
    decreases n
  {
    if n == a then UrlTail(true, true, false, false, false)
    else
      var tail := Watched(s, maxBytes, a, n - 1);
      if tail.resolved then tail else Observed(tail, s[n - 1], n - 1, maxBytes)
  }

  predicate Decides(b: Byte) {
    IsTerminator(b) || b == '@' as int
  }

  /** What the automaton knows: it is resolved once it met a terminator or an
      '@', and it reports credentials exactly when such an '@' crosses. */
  lemma {:induction false} WatchedMeans(s: Bytes, maxBytes: nat, a: nat, n: nat)
    requires a <= n <= |s|
    ensures var tail := Watched(s, maxBytes, a, n);
            && tail.initialized && (tail.active <==> !tail.resolved)
            && (tail.resolved <==> exists j :: a <= j < n && Decides(s[j]))
            && (!tail.resolved ==> (tail.colonSeen <==> exists j :: a <= j < n && s[j] == ':' as int))
            && (tail.credentials <==> exists i: nat :: i < n && CrossesAt(s, maxBytes, a, i))
    decreases n
  {
    if n > a {
      WatchedMeans(s, maxBytes, a, n - 1);
      var tail := Watched(s, maxBytes, a, n - 1);
      var last := s[n - 1];
      if tail.resolved {
        var j :| a <= j < n - 1 && Decides(s[j]);
        assert !CrossesAt(s, maxBytes, a, n - 1);
      } else {
        assert forall j :: a <= j < n - 1 ==> !Decides(s[j]);
        assert !tail.credentials by {
          forall i: nat | i < n - 1 ensures !CrossesAt(s, maxBytes, a, i) {
            if a <= i { assert !Decides(s[i]); }
          }
        }
        assert CrossesAt(s, maxBytes, a, n - 1) <==> (last == '@' as int && tail.colonSeen && n - 1 >= maxBytes) by {
          assert forall j :: a <= j < n - 1 ==> !IsTerminator(s[j]) && s[j] != '@' as int;
        }
      }
    }
  }

  /** The automaton never looks past what it was given. */
  lemma WatchedPrefix(s: Bytes, t: Bytes, maxBytes: nat, a: nat, n: nat)
    requires a <= n <= |s| && n <= |t| && s[..n] == t[..n]
    ensures Watched(s, maxBytes, a, n) == Watched(t, maxBytes, a, n)
    decreases n
  {
    if n > a {
      assert s[n - 1] == s[..n][n - 1] == t[..n][n - 1] == t[n - 1];
      assert s[..n - 1] == s[..n][..n - 1] && t[..n - 1] == t[..n][..n - 1];
      WatchedPrefix(s, t, maxBytes, a, n - 1);
    }
  }

  lemma WatchedResolved(s: Bytes, maxBytes: nat, a: nat, n: nat, m: nat)
    requires a <= n <= m <= |s| && Watched(s, maxBytes, a, n).resolved
    ensures Watched(s, maxBytes, a, m) == Watched(s, maxBytes, a, n)
    decreases m
  {
    if n < m { WatchedResolved(s, maxBytes, a, n, m - 1); }
  }

  /** The automaton over all of a stream, from the authority the limit cuts. */
  ghost function WatchOf(s: Bytes, maxBytes: nat): UrlTail {
    match Authority(s, maxBytes)
    case None => UNWATCHED.(initialized := true)
    case Some(a) => Watched(s, maxBytes, a, |s|)
  }

  lemma WatchOfStarted(s: Bytes, maxBytes: nat)
    ensures WatchOf(s, maxBytes).initialized
    ensures Authority(s, maxBytes).Some? ==> (WatchOf(s, maxBytes).active <==> !WatchOf(s, maxBytes).resolved)
  {
    if Authority(s, maxBytes).Some? {
      WatchedMeans(s, maxBytes, Authority(s, maxBytes).value, |s|);
    }
  }

  /** More bytes: the same authority, and the automaton goes on from where it was. */
  lemma WatchOfMore(s: Bytes, more: Bytes, maxBytes: nat)
    requires maxBytes <= |s|
    ensures Authority(s + more, maxBytes) == Authority(s, maxBytes)
    ensures Authority(s, maxBytes).Some? ==>
              Watched(s + more, maxBytes, Authority(s, maxBytes).value, |s|) == WatchOf(s, maxBytes)
    ensures Authority(s, maxBytes).None? || WatchOf(s, maxBytes).resolved ==>
              WatchOf(s + more, maxBytes) == WatchOf(s, maxBytes)
  {
    assert (s + more)[..maxBytes] == s[..maxBytes];
    AuthorityOfPrefix(s + more, s, maxBytes);
    if Authority(s, maxBytes).Some? {
      var a := Authority(s, maxBytes).value;
      assert (s + more)[..|s|] == s[..|s|];
      WatchedPrefix(s + more, s, maxBytes, a, |s|);
      if WatchOf(s, maxBytes).resolved {
        WatchedResolved(s + more, maxBytes, a, |s|, |s + more|);
      }
    }
  }

  /** The tail state that matches all of `written`. */
  ghost function TailOf(written: Bytes, maxBytes: nat): UrlTail {
    if |written| <= InspectionLimit(maxBytes) then UNWATCHED else WatchOf(written, maxBytes)
  }

  /** Splitting a write where a buffer of size n is full. */
  lemma PrefixSplits(s: Bytes, kept: Bytes, dropped: Bytes, n: nat)
    requires |Prefix(s, n)| + |kept| <= n
    requires dropped != [] ==> |Prefix(s, n)| + |kept| == n
    ensures |s| > n ==> kept == []
    ensures Prefix(s + kept, n) == Prefix(s, n) + kept
    ensures Prefix(s + kept + dropped, n) == Prefix(s, n) + kept
    ensures dropped != [] ==> n <= |s + kept| && Prefix(s, n) + kept == (s + kept)[..n]
  {
    if |s| > n {
      assert s + kept == s && Prefix(s, n) + kept == Prefix(s, n);
      assert (s + dropped)[..n] == s[..n];
    }
  }

  lemma WriteSplits(s: Bytes, kept: Bytes, dropped: Bytes, maxBytes: nat)
    requires |Prefix(s, InspectionLimit(maxBytes))| + |kept| <= InspectionLimit(maxBytes)
    ensures TailOf(s + kept, maxBytes) == TailOf(s, maxBytes)
    ensures s + kept + dropped == s + (kept + dropped)
    ensures dropped == [] ==> s + kept + dropped == s + kept
  {
    if kept == [] { assert s + kept == s; }
  }

  /** Scanning what is still buffered and watching what was dropped together see
      exactly what scanning the whole text sees. */
  lemma {:induction false} TailCompletes(written: Bytes, maxBytes: nat)
    ensures CredentialAcross(written, maxBytes) <==>
            CredentialAcross(Prefix(written, InspectionLimit(maxBytes)), maxBytes)
            || TailOf(written, maxBytes).credentials
  {
    var kept := Prefix(written, InspectionLimit(maxBytes));
    if |written| > InspectionLimit(maxBytes) {
      assert written[..maxBytes] == kept[..maxBytes];
      AuthorityOfPrefix(written, kept, maxBytes);
      if Authority(written, maxBytes).Some? {
        var a := Authority(written, maxBytes).value;
        WatchedMeans(written, maxBytes, a, |written|);
        forall i: nat | CrossesAt(kept, maxBytes, a, i) ensures CrossesAt(written, maxBytes, a, i) {
          assert forall j :: 0 <= j < |kept| ==> kept[j] == written[j];
        }
      }
    }
  }

  // ---------- The stream ----------

  datatype StreamError = NoError | Closed | WriterFailed

  class StreamRedactor {
    const engine: Engine
    var maxBytes: nat
    var buffer: Bytes
    var capacity: nat
    var truncated: bool
    var closed: bool
    var closeErr: StreamError
    var result: RedactionResult
    var urlTail: UrlTail
    var maxFrozen: bool
    /** All that was written so far. */
    ghost var written: Bytes

    ghost predicate Valid()
      reads this
    {
      && (!maxFrozen ==> written == [])
      && (!closed ==>
            && buffer == Prefix(written, InspectionLimit(maxBytes))
            && (truncated <==> |written| > maxBytes)
            && urlTail == TailOf(written, maxBytes))
      && (closed ==> buffer == [] && maxFrozen && result == OneShot(engine, written, maxBytes))
      && |buffer| <= InspectionLimit(maxBytes)
      && |buffer| <= capacity <= InspectionLimit(maxBytes)
    }

    constructor (engine: Engine)
      ensures Valid() && !closed && !maxFrozen && written == [] && maxBytes == 4194304
      ensures this.engine == engine
    {
      this.engine := engine;
      maxBytes := DEFAULT_MAX_BYTES;
      buffer, capacity := [], 0;
      truncated, closed, maxFrozen := false, false, false;
      closeErr := NoError;
      result := RedactionResult([], map[], false);
      urlTail := UNWATCHED;
      written := [];
    }

    /** Takes effect only before the first write and before closing. */
    method WithMaxBytes(limit: int)
      requires Valid()
      modifies `maxBytes, `capacity
      ensures Valid()
      ensures maxFrozen || closed ==> maxBytes == old(maxBytes)
      ensures !maxFrozen && !closed ==> maxBytes == if limit < 0 then 0 else limit
    {
      if maxFrozen || closed {
        return;
      }
      maxBytes := if limit < 0 then 0 else limit;
      if capacity > InspectionLimit(maxBytes) {
        capacity := InspectionLimit(maxBytes);
      }
    }

    method Write(p: Bytes) returns (n: nat, err: StreamError)
      requires Valid()
      modifies this
      ensures Valid() && maxBytes == old(maxBytes) && closed == old(closed)
      ensures old(closed) ==> n == 0 && err == Closed && written == old(written)
      ensures !old(closed) ==> n == |p| && err == NoError && written == old(written) + p && maxFrozen
    {
      if closed {
        return 0, Closed;
      }
      maxFrozen := true;
      n, err := |p|, NoError;
      if |buffer| + |p| > maxBytes {
        truncated := true;
      }
      var remaining := InspectionLimit(maxBytes) - |buffer|;
      var kept, dropped := p, [];
      if |kept| > remaining {
        kept, dropped := kept[..remaining], kept[remaining..];
        truncated := true;
      }
      assert kept + dropped == p;
      Take(kept, dropped);
      written := written + p;
    }

    /** Buffers what fits and watches the rest. */
    method Take(kept: Bytes, dropped: Bytes)
      requires buffer == Prefix(written, InspectionLimit(maxBytes)) && urlTail == TailOf(written, maxBytes)
      requires |buffer| + |kept| <= InspectionLimit(maxBytes) && |buffer| <= capacity <= InspectionLimit(maxBytes)
      requires dropped != [] ==> |buffer| + |kept| == InspectionLimit(maxBytes)
      modifies `buffer, `capacity, `urlTail
      ensures buffer == Prefix(written + (kept + dropped), InspectionLimit(maxBytes))
      ensures urlTail == TailOf(written + (kept + dropped), maxBytes)
      ensures |buffer| <= capacity <= InspectionLimit(maxBytes)
    {
      var bufferedBefore := |buffer|;
      GrowBuffer(|kept|);
      PrefixSplits(written, kept, dropped, InspectionLimit(maxBytes));
      WriteSplits(written, kept, dropped, maxBytes);
      buffer := buffer + kept;
      if |dropped| > 0 {
        ObserveDroppedUrlBytes(dropped, bufferedBefore + |kept|, written + kept);
      }
    }

    /** The first dropped bytes start the watch at the authority the limit cuts,
        if there is one; later ones continue it. */
    method ObserveDroppedUrlBytes(dropped: Bytes, absoluteStart: nat, ghost before: Bytes)
      requires dropped != [] && InspectionLimit(maxBytes) <= |before|
      requires buffer == before[..InspectionLimit(maxBytes)] && absoluteStart == |buffer|
      requires urlTail == TailOf(before, maxBytes)
      modifies `urlTail
      ensures urlTail == TailOf(before + dropped, maxBytes)
    {
      WatchOfStarted(before, maxBytes);
      WatchOfMore(before, dropped, maxBytes);
      if !urlTail.initialized {
        assert before == buffer;
        WatchBuffer();
      }
      if !urlTail.active || urlTail.resolved {
        return;
      }
      WatchDropped(dropped, absoluteStart, before);
    }

    method WatchBuffer()
      requires urlTail == UNWATCHED
      modifies `urlTail
      ensures urlTail == WatchOf(buffer, maxBytes)
    {
      urlTail := urlTail.(initialized := true);
      var start, ok := UrlAuthorityAtBoundaryBytes(buffer, maxBytes);
      if !ok {
        return;
      }
      urlTail := urlTail.(active := true);
      var i := start;
      while i < |buffer|
        invariant start <= i <= |buffer|
        invariant urlTail == Watched(buffer, maxBytes, start, i) && !urlTail.resolved
      {
        ObserveUrlAuthorityByte(buffer[i], i);
        i := i + 1;
        if urlTail.resolved {
          WatchedResolved(buffer, maxBytes, start, i, |buffer|);
          return;
        }
      }
    }

    /** Positions are counted from the end of the buffer at every call, not from
        the start of the stream; past the limit that makes no difference. */
    method WatchDropped(dropped: Bytes, absoluteStart: nat, ghost before: Bytes)
      requires maxBytes <= |before| && maxBytes <= absoluteStart
      requires urlTail == WatchOf(before, maxBytes) && Authority(before, maxBytes).Some? && !urlTail.resolved
      modifies `urlTail
      ensures urlTail == WatchOf(before + dropped, maxBytes)
    {
      WatchOfMore(before, dropped, maxBytes);
      ghost var all, a := before + dropped, Authority(before, maxBytes).value;
      var i := 0;
      while i < |dropped|
        invariant i <= |dropped|
        invariant urlTail == Watched(all, maxBytes, a, |before| + i) && !urlTail.resolved
      {
        ObserveUrlAuthorityByte(dropped[i], absoluteStart + i);
        assert dropped[i] == all[|before| + i];
        i := i + 1;
        if urlTail.resolved {
          WatchedResolved(all, maxBytes, a, |before| + i, |all|);
          return;
        }
      }
    }

    method ObserveUrlAuthorityByte(c: Byte, absolutePosition: nat)
      modifies `urlTail
      ensures urlTail == Observed(old(urlTail), c, absolutePosition, maxBytes)
    {
      if IsTerminator(c) {
        urlTail := urlTail.(resolved := true, active := false);
        return;
      }
      if c == ':' as int {
        urlTail := urlTail.(colonSeen := true);
      } else if c == '@' as int {
        if urlTail.colonSeen && absolutePosition >= maxBytes {
          urlTail := urlTail.(credentials := true);
        }
        urlTail := urlTail.(resolved := true, active := false);
      }
    }

    /** Doubling while that fits, and never beyond the inspection limit. */
    method GrowBuffer(additional: nat)
      requires |buffer| + additional <= InspectionLimit(maxBytes)
      requires |buffer| <= capacity <= InspectionLimit(maxBytes)
      modifies `capacity
      ensures |buffer| + additional <= capacity <= InspectionLimit(maxBytes)
      ensures capacity >= old(capacity)
    {
      var required := |buffer| + additional;
      if required <= capacity {
        return;
      }
      var limit := InspectionLimit(maxBytes);
      var wanted := required;
      if capacity > 0 && capacity <= limit / 2 && capacity * 2 > wanted {
        wanted := capacity * 2;
      }
      if wanted > limit {
        wanted := limit;
      }
      capacity := wanted;
    }

    /** Closing redacts what was kept; the answer is that of the whole stream. */
    method Close() returns (err: StreamError)
      requires Valid()
      modifies this
      ensures Valid() && closed && written == old(written) && maxBytes == old(maxBytes)
      ensures result == OneShot(engine, written, maxBytes)
      ensures err == closeErr && (old(closed) ==> closeErr == old(closeErr))
    {
      if closed {
        return closeErr;
      }
      var across := UrlCredentialAfterBoundary(buffer, maxBytes);
      if urlTail.credentials {
        across := true;
      }
      assert across <==> CredentialAcross(written, maxBytes) by { TailCompletes(written, maxBytes); }
      result := engine(maxBytes, buffer, truncated, across);
      assert result == OneShot(engine, written, maxBytes);
      closed, maxFrozen := true, true;
      buffer, capacity := [], 0;
      if * {
        closeErr := WriterFailed;
      }
      return closeErr;
    }
  }

  // ---------- Streaming refines one-shot ----------

  function Concat(chunks: seq<Bytes>): Bytes {
    if chunks == [] then [] else Concat(chunks[..|chunks| - 1]) + chunks[|chunks| - 1]
  }

  /** For every way of cutting a text into writes, empty ones included, closing
      the stream gives what redacting the text at once gives, and the buffer
      never holds more than the inspection limit. */
  method StreamedAndOneShot(engine: Engine, chunks: seq<Bytes>, limit: int)
      returns (streamed: RedactionResult, oneShot: RedactionResult, peak: nat)
    ensures streamed == oneShot
    ensures oneShot == OneShot(engine, Concat(chunks), if limit < 0 then 0 else limit)
    ensures peak <= InspectionLimit(if limit < 0 then 0 else limit)
  {
    var stream := new StreamRedactor(engine);
    stream.WithMaxBytes(limit);
    peak := 0;
    var i := 0;
    while i < |chunks|
      invariant i <= |chunks|
      invariant fresh(stream) && stream.Valid() && !stream.closed && stream.engine == engine
      invariant stream.maxBytes == if limit < 0 then 0 else limit
      invariant stream.written == Concat(chunks[..i])
      invariant peak <= InspectionLimit(stream.maxBytes)
    {
      assert chunks[..i + 1][..i] == chunks[..i];
      var n, err := stream.Write(chunks[i]);
      peak := if stream.capacity > peak then stream.capacity else peak;
      i := i + 1;
    }
    assert chunks[..i] == chunks;
    var err := stream.Close();
    streamed := stream.result;
    oneShot := RedactString(engine, Concat(chunks), if limit < 0 then 0 else limit);
  }
}
