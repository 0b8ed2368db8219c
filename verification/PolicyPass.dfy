/** One pattern applied to a text, from beginning to end: what a caller sees. */
module PolicyPass {
  import opened Basics
  import opened PolicyTokens
  import opened PolicyPlaceholder

  /** Where the text behind the i-th match begins. */
  function Behind(matches: seq<Match>, i: nat): nat
    requires i <= |matches|
  {
    if i == 0 then 0 else matches[i - 1].end
  }

  /** The matches of one pattern, in order. */
  ghost predicate Disjoint(text: Bytes, matches: seq<Match>) {
    forall i :: 0 <= i < |matches| ==> Fits(text, matches, i)
  }

  ghost predicate Fits(text: Bytes, matches: seq<Match>, i: nat)
    requires i < |matches|
  {
    var m := matches[i];
    && m.start + m.keep <= m.end <= |text| && 0 !in m.post
    && Behind(matches, i) <= m.start
  }

  /** The text up to behind the i-th match, with `shown` in the place of each. */
  ghost function Spliced(text: Bytes, matches: seq<Match>, shown: Bytes, i: nat): Bytes
    requires i <= |matches| && Disjoint(text, matches)
  {
    if i == 0 then []
    else
      assert Fits(text, matches, i - 1);
      var m := matches[i - 1];
      Spliced(text, matches, shown, i - 1)
      + text[Behind(matches, i - 1)..m.start + m.keep] + shown + m.post
  }

  function CutOf(m: Match): Cut {
    Cut(m.start, m.end)
  }

  function CutsOf(matches: seq<Match>): seq<Cut> {
    seq(|matches|, i requires 0 <= i < |matches| => CutOf(matches[i]))
  }

  lemma EncodeTaken(p: Bytes, text: Bytes, n: nat)
    requires n <= |text|
    ensures Encode(p, Chars(text)[..n]) == text[..n] && |Encode(p, Chars(text)[..n])| == n
  {
    assert Chars(text)[..n] == Chars(text[..n]);
    EncodeChars(p, text[..n]);
  }

  lemma AlignedInText(p: Bytes, text: Bytes, m: Match)
    requires m.start + m.keep <= m.end <= |text| && 0 !in m.post
    ensures Aligned(p, Chars(text), m, CutOf(m))
  {
    EncodeTaken(p, text, m.start);
    EncodeTaken(p, text, m.end);
  }

  lemma AllAlignedInText(p: Bytes, text: Bytes, matches: seq<Match>)
    requires Disjoint(text, matches)
    ensures AllAligned(p, Chars(text), matches, CutsOf(matches))
  {
    forall i | 0 <= i < |matches| ensures InOrder(p, Chars(text), matches, CutsOf(matches), i) {
      assert Fits(text, matches, i);
      AlignedInText(p, text, matches[i]);
    }
  }

  /** All placeholders of one pass stand in the text. */
  ghost predicate OneCategory(rs: seq<Replacement>, n: nat, category: string) {
    |rs| == n && forall j :: 0 <= j < n ==> rs[j] == Replacement(category, true)
  }

  lemma RenderedPart(text: Bytes, a: nat, b: nat, rs: seq<Replacement>, marker: string -> Bytes)
    requires a <= b <= |text|
    ensures RenderedTokens(Chars(text)[a..b], rs, marker) == text[a..b]
  {
    assert Chars(text)[a..b] == Chars(text[a..b]);
    RenderedChars(text[a..b], rs, marker);
  }

  lemma RenderedMore(text: Bytes, before: seq<Token>, a: nat, b: nat, rs: seq<Replacement>, marker: string -> Bytes)
    requires a <= b <= |text|
    ensures RenderedTokens(before + Chars(text)[a..b], rs, marker) == RenderedTokens(before, rs, marker) + text[a..b]
  {
    RenderedPart(text, a, b, rs, marker);
    RenderedAppend(before, Chars(text)[a..b], rs, marker);
  }

  lemma Glued(shown: Bytes, text: Bytes, a: nat, b: nat, c: nat)
    requires a <= b <= c <= |text|
    ensures shown + text[a..b] + text[b..c] == shown + text[a..c]
  {
    assert text[a..c] == text[a..b] + text[b..c];
  }

  lemma RenderedTwoParts(text: Bytes, before: seq<Token>, a: nat, b: nat, c: nat, rs: seq<Replacement>,
                         marker: string -> Bytes)
    requires a <= b <= c <= |text|
    ensures RenderedTokens(before + Chars(text)[a..b] + Chars(text)[b..c], rs, marker)
            == RenderedTokens(before, rs, marker) + text[a..c]
  {
    RenderedMore(text, before, a, b, rs, marker);
    RenderedMore(text, before + Chars(text)[a..b], b, c, rs, marker);
    Glued(RenderedTokens(before, rs, marker), text, a, b, c);
  }

  lemma RenderedStep(text: Bytes, before: seq<Token>, a: nat, b: nat, c: nat, k: nat, post: Bytes,
                     rs: seq<Replacement>, marker: string -> Bytes)
    requires a <= b <= c <= |text| && k < |rs| && rs[k].active
    ensures RenderedTokens(before + Chars(text)[a..b] + Chars(text)[b..c] + [Ph(k)] + Chars(post), rs, marker)
            == RenderedTokens(before, rs, marker) + text[a..c] + marker(rs[k].category) + post
  {
    RenderedTwoParts(text, before, a, b, c, rs, marker);
    RenderedChars(post, rs, marker);
    PlaceholderShown(before + Chars(text)[a..b] + Chars(text)[b..c], k, Chars(post), rs, marker);
  }

  lemma RenderedTail(text: Bytes, before: seq<Token>, end: nat, rs: seq<Replacement>, marker: string -> Bytes)
    requires end <= |text|
    ensures RenderedTokens(before + Chars(text)[end..], rs, marker) == RenderedTokens(before, rs, marker) + text[end..]
  {
    RenderedPart(text, end, |text|, rs, marker);
    assert Chars(text)[end..] == Chars(text)[end..|text|];
    RenderedAppend(before, Chars(text)[end..], rs, marker);
  }

  lemma EndsAtLast(matches: seq<Match>, i: nat)
    requires i <= |matches|
    ensures From(CutsOf(matches), i) == Behind(matches, i)
  {
  }

  lemma DoneInText(p: Bytes, text: Bytes, matches: seq<Match>, i: nat)
    requires Disjoint(text, matches) && i < |matches| && AllAligned(p, Chars(text), matches, CutsOf(matches))
    ensures Behind(matches, i) <= matches[i].start && matches[i].start + matches[i].keep <= |text|
    ensures Done(p, Chars(text), matches, CutsOf(matches), 0, i + 1)
            == Done(p, Chars(text), matches, CutsOf(matches), 0, i) + Chars(text)[Behind(matches, i)..matches[i].start]
               + Chars(text)[matches[i].start..matches[i].start + matches[i].keep] + [Ph(i)] + Chars(matches[i].post)
  {
    assert Fits(text, matches, i);
    DoneNext(p, Chars(text), matches, CutsOf(matches), 0, i, i);
    EndsAtLast(matches, i);
  }

  lemma SplicedNext(text: Bytes, matches: seq<Match>, shown: Bytes, i: nat)
    requires Disjoint(text, matches) && i < |matches|
    ensures Behind(matches, i) <= matches[i].start && matches[i].start + matches[i].keep <= |text|
    ensures Spliced(text, matches, shown, i + 1)
            == Spliced(text, matches, shown, i) + text[Behind(matches, i)..matches[i].start + matches[i].keep] + shown
               + matches[i].post
  {
    assert Fits(text, matches, i);
  }

  lemma OneMoreRenders(p: Bytes, text: Bytes, matches: seq<Match>, rs: seq<Replacement>, category: string,
                       marker: string -> Bytes, i: nat, before: seq<Token>, shown: Bytes)
    requires Disjoint(text, matches) && i < |matches| && OneCategory(rs, |matches|, category)
    requires AllAligned(p, Chars(text), matches, CutsOf(matches))
    requires before == Done(p, Chars(text), matches, CutsOf(matches), 0, i)
    requires shown == Spliced(text, matches, marker(category), i) && RenderedTokens(before, rs, marker) == shown
    ensures RenderedTokens(Done(p, Chars(text), matches, CutsOf(matches), 0, i + 1), rs, marker)
            == Spliced(text, matches, marker(category), i + 1)
  {
    DoneInText(p, text, matches, i);
    SplicedNext(text, matches, marker(category), i);
    var m := matches[i];
    RenderedStep(text, before, Behind(matches, i), m.start, m.start + m.keep, i, m.post, rs, marker);
  }

  lemma {:induction false} DoneRenders(p: Bytes, text: Bytes, matches: seq<Match>, rs: seq<Replacement>,
                                       category: string, marker: string -> Bytes, i: nat)
    requires Disjoint(text, matches) && i <= |matches| && OneCategory(rs, |matches|, category)
    requires AllAligned(p, Chars(text), matches, CutsOf(matches))
    ensures RenderedTokens(Done(p, Chars(text), matches, CutsOf(matches), 0, i), rs, marker)
            == Spliced(text, matches, marker(category), i)
  {
    if i > 0 {
      DoneRenders(p, text, matches, rs, category, marker, i - 1);
      OneMoreRenders(p, text, matches, rs, category, marker, i - 1,
                     Done(p, Chars(text), matches, CutsOf(matches), 0, i - 1),
                     Spliced(text, matches, marker(category), i - 1));
    }
  }

  lemma LastEnd(text: Bytes, matches: seq<Match>)
    requires Disjoint(text, matches)
    ensures Behind(matches, |matches|) <= |text|
  {
    assert matches != [] ==> Fits(text, matches, |matches| - 1);
  }

  lemma ReplacedRenders(p: Bytes, text: Bytes, matches: seq<Match>, rs: seq<Replacement>, category: string,
                        marker: string -> Bytes)
    requires Disjoint(text, matches) && OneCategory(rs, |matches|, category)
    requires AllAligned(p, Chars(text), matches, CutsOf(matches))
    ensures var end := Behind(matches, |matches|);
            && end <= |text|
            && RenderedTokens(Replaced(p, Chars(text), matches, CutsOf(matches), 0), rs, marker)
               == Spliced(text, matches, marker(category), |matches|) + text[end..]
  {
    var end := Behind(matches, |matches|);
    LastEnd(text, matches);
    EndsAtLast(matches, |matches|);
    DoneRenders(p, text, matches, rs, category, marker, |matches|);
    RenderedTail(text, Done(p, Chars(text), matches, CutsOf(matches), 0, |matches|), end, rs, marker);
  }

  lemma {:induction false} DoneHas(p: Bytes, ts: seq<Token>, matches: seq<Match>, cuts: seq<Cut>, n: nat, i: nat,
                                   k: nat)
    requires AllAligned(p, ts, matches, cuts) && k < i <= |cuts|
    ensures Ph(n + k) in Done(p, ts, matches, cuts, n, i)
  {
    assert InOrder(p, ts, matches, cuts, i - 1);
    if k < i - 1 { DoneHas(p, ts, matches, cuts, n, i - 1, k); }
  }

  lemma StandingIsActive(t: seq<Token>, rs: seq<Replacement>, j: nat)
    requires Placed(t, rs) && j < |rs| && Ph(j) in t
    ensures rs[j].active
  {
    assert PlacedAt(t, rs, j);
  }

  lemma StandsInReplaced(p: Bytes, ts: seq<Token>, matches: seq<Match>, cuts: seq<Cut>, j: nat)
    requires AllAligned(p, ts, matches, cuts) && j < |matches|
    ensures Ph(j) in Replaced(p, ts, matches, cuts, 0)
  {
    DoneHas(p, ts, matches, cuts, 0, |cuts|, j);
  }

  lemma AllOpen(p: Bytes, ts: seq<Token>, matches: seq<Match>, cuts: seq<Cut>, rs: seq<Replacement>, category: string)
    requires AllAligned(p, ts, matches, cuts) && |rs| == |matches| && Filed(rs, 0, category)
    requires Placed(Replaced(p, ts, matches, cuts, 0), rs)
    ensures OneCategory(rs, |matches|, category)
  {
    forall j | 0 <= j < |rs| ensures rs[j].active {
      StandsInReplaced(p, ts, matches, cuts, j);
      StandingIsActive(Replaced(p, ts, matches, cuts, 0), rs, j);
    }
  }

  lemma {:induction false} CountOfCategory(rs: seq<Replacement>, n: nat, category: string, c: string)
    requires OneCategory(rs, n, category)
    ensures CountActive(rs, c) == if c == category then n else 0
  {
    if n > 0 { CountOfCategory(rs[..n - 1], n - 1, category, c); }
  }

  lemma CountsOfOne(rs: seq<Replacement>, counts: map<string, nat>, category: string)
    requires OneCategory(rs, |rs|, category) && Counted(rs, counts)
    ensures counts == if rs == [] then map[] else map[category := |rs|]
  {
    forall c ensures c in counts <==> c == category && rs != [] {
      CountOfCategory(rs, |rs|, category, c);
      assert CountedFor(rs, counts, c);
    }
    CountOfCategory(rs, |rs|, category, category);
    assert CountedFor(rs, counts, category);
  }

  /** One pattern on a fresh text: every match shows what is kept of its front, the
      marker and what follows it, everything else is as it was, and the one count is
      that of the matches. */
  method RedactPass(text: Bytes, digest: Digest, category: string, matches: seq<Match>, marker: string -> Bytes)
      returns (rendered: Bytes, found: map<string, nat>)
    requires Find(text, Stem(Prefix(digest))) == None && Disjoint(text, matches)
    ensures var end := Behind(matches, |matches|);
            && end <= |text| && rendered == Spliced(text, matches, marker(category), |matches|) + text[end..]
    ensures found == if matches == [] then map[] else map[category := |matches|]
  {
    var state := new RedactionState(text, digest);
    ghost var cuts := CutsOf(matches);
    AllAlignedInText(state.prefix, text, matches);
    state.Protect(category, matches, cuts);
    AllOpen(state.prefix, Chars(text), matches, cuts, state.replacements, category);
    ReplacedRenders(state.prefix, text, matches, state.replacements, category, marker);
    CountsOfOne(state.replacements, state.counts, category);
    rendered, found := state.Result(marker);
  }
}
