/** The redaction state: what matches is replaced by placeholders, which later
    matches may swallow, and which become markers at the end. */
module PolicyPlaceholder {
  import opened Basics
  import opened PolicyTokens

  datatype Replacement = Replacement(category: string, active: bool)

  // ---------- Counting ----------

  function CountActive(rs: seq<Replacement>, category: string): nat {
    if rs == [] then 0
    else
      var last := rs[|rs| - 1];
      CountActive(rs[..|rs| - 1], category) + if last.active && last.category == category then 1 else 0
  }

  /** The counts are those of the active replacements, and none is zero. */
  ghost predicate Counted(rs: seq<Replacement>, counts: map<string, nat>) {
    forall c: string :: CountedFor(rs, counts, c)
  }

  ghost predicate CountedFor(rs: seq<Replacement>, counts: map<string, nat>, c: string) {
    if c in counts then counts[c] == CountActive(rs, c) > 0 else CountActive(rs, c) == 0
  }

  lemma {:induction false} CountCleared(rs: seq<Replacement>, i: nat, c: string)
    requires i < |rs| && rs[i].active
    ensures CountActive(rs[i := rs[i].(active := false)], c)
            == CountActive(rs, c) - if rs[i].category == c then 1 else 0
  {
    var t := rs[i := rs[i].(active := false)];
    if i < |rs| - 1 {
      assert t[..|t| - 1] == rs[..|rs| - 1][i := rs[i].(active := false)];
      CountCleared(rs[..|rs| - 1], i, c);
    } else {
      assert t[..|t| - 1] == rs[..|rs| - 1];
    }
  }

  lemma OpenedCounted(rs: seq<Replacement>, counts: map<string, nat>, category: string)
    requires Counted(rs, counts)
    ensures Counted(rs + [Replacement(category, true)],
                    counts[category := (if category in counts then counts[category] else 0) + 1])
  {
    var t := rs + [Replacement(category, true)];
    var more := counts[category := (if category in counts then counts[category] else 0) + 1];
    assert t[..|t| - 1] == rs;
    forall c: string ensures CountedFor(t, more, c) {
      assert CountedFor(rs, counts, c) && CountedFor(rs, counts, category);
    }
  }

  // ---------- Swallowing placeholders ----------

  datatype Book = Book(replacements: seq<Replacement>, counts: map<string, nat>)

  function Less(counts: map<string, nat>, c: string): map<string, nat> {
    if c !in counts || counts[c] <= 1 then counts - {c} else counts[c := counts[c] - 1]
  }

  function Cleared(b: Book, i: nat): Book
    requires i < |b.replacements|
  {
    if !b.replacements[i].active then b
    else Book(b.replacements[i := b.replacements[i].(active := false)], Less(b.counts, b.replacements[i].category))
  }

  function SwallowedPiece(b: Book, p: Piece): Book {
    match p
    case Literal(_) => b
    case Mark(i) => if i < |b.replacements| then Cleared(b, i) else b
  }

  function Swallowed(b: Book, pieces: seq<Piece>): Book
    decreases |pieces|
  {
    if pieces == [] then b else Swallowed(SwallowedPiece(b, pieces[0]), pieces[1..])
  }

  lemma ClearedCounted(b: Book, i: nat)
    requires Counted(b.replacements, b.counts) && i < |b.replacements|
    ensures var t := Cleared(b, i); Counted(t.replacements, t.counts)
  {
    if b.replacements[i].active {
      var t := Cleared(b, i);
      forall c: string ensures CountedFor(t.replacements, t.counts, c) {
        assert CountedFor(b.replacements, b.counts, c);
        CountCleared(b.replacements, i, c);
      }
    }
  }

  /** What is swallowed is inactive afterwards, and the counts follow. */
  lemma {:induction false} SwallowedMeans(b: Book, pieces: seq<Piece>)
    requires Counted(b.replacements, b.counts)
    ensures var t := Swallowed(b, pieces);
            && Counted(t.replacements, t.counts)
            && |t.replacements| == |b.replacements|
            && forall i :: 0 <= i < |t.replacements| ==>
                 t.replacements[i] == b.replacements[i].(active := b.replacements[i].active && Ph(i) !in Tokens(pieces))
    decreases |pieces|
  {
    if pieces != [] {
      match pieces[0]
      case Literal(text) =>
        assert forall i: nat :: Ph(i) !in Chars(text);
        SwallowedMeans(b, pieces[1..]);
      case Mark(k) =>
        if k < |b.replacements| { ClearedCounted(b, k); }
        SwallowedMeans(if k < |b.replacements| then Cleared(b, k) else b, pieces[1..]);
    }
  }

  // ---------- Rendering ----------

  function Shown(r: Replacement, marker: string -> Bytes): Bytes {
    if r.active then marker(r.category) else []
  }

  function RenderedPiece(p: Piece, rs: seq<Replacement>, marker: string -> Bytes): Bytes {
    match p
    case Literal(b) => b
    case Mark(i) => if i < |rs| then Shown(rs[i], marker) else []
  }

  function RenderedPieces(pieces: seq<Piece>, rs: seq<Replacement>, marker: string -> Bytes): Bytes {
    if pieces == [] then []
    else RenderedPiece(pieces[0], rs, marker) + RenderedPieces(pieces[1..], rs, marker)
  }

  /** Each character itself, each placeholder its marker. */
  function RenderedTokens(ts: seq<Token>, rs: seq<Replacement>, marker: string -> Bytes): Bytes {
    if ts == [] then []
    else (match ts[0]
          case Ch(b) => [b]
          case Ph(i) => if i < |rs| then Shown(rs[i], marker) else [])
         + RenderedTokens(ts[1..], rs, marker)
  }

  lemma {:induction false} RenderedAppend(a: seq<Token>, b: seq<Token>, rs: seq<Replacement>, marker: string -> Bytes)
    ensures RenderedTokens(a + b, rs, marker) == RenderedTokens(a, rs, marker) + RenderedTokens(b, rs, marker)
  {
    if a == [] {
      assert a + b == b;
    } else {
      assert (a + b)[1..] == a[1..] + b;
      RenderedAppend(a[1..], b, rs, marker);
    }
  }

  lemma {:induction false} RenderedChars(b: Bytes, rs: seq<Replacement>, marker: string -> Bytes)
    ensures RenderedTokens(Chars(b), rs, marker) == b
  {
    if b != [] {
      assert Chars(b)[1..] == Chars(b[1..]);
      RenderedChars(b[1..], rs, marker);
    }
  }

  /** An active placeholder shows its marker, an inactive one nothing, wherever it stands. */
  lemma PlaceholderShown(x: seq<Token>, i: nat, y: seq<Token>, rs: seq<Replacement>, marker: string -> Bytes)
    requires i < |rs|
    ensures RenderedTokens(x + [Ph(i)] + y, rs, marker)
            == RenderedTokens(x, rs, marker) + (if rs[i].active then marker(rs[i].category) else [])
               + RenderedTokens(y, rs, marker)
  {
    RenderedAppend(x + [Ph(i)], y, rs, marker);
    RenderedAppend(x, [Ph(i)], rs, marker);
    assert [Ph(i)][1..] == [];
  }

  lemma CharacterShown(x: seq<Token>, b: Byte, y: seq<Token>, rs: seq<Replacement>, marker: string -> Bytes)
    ensures RenderedTokens(x + [Ch(b)] + y, rs, marker)
            == RenderedTokens(x, rs, marker) + [b] + RenderedTokens(y, rs, marker)
  {
    RenderedAppend(x + [Ch(b)], y, rs, marker);
    RenderedAppend(x, [Ch(b)], rs, marker);
    assert [Ch(b)][1..] == [];
  }

  /** `part` is what one token shows. */
  ghost predicate IsShown(part: Bytes, t: Token, rs: seq<Replacement>, marker: string -> Bytes) {
    match t
    case Ch(b) => part == [b]
    case Ph(i) => i < |rs| && part == if rs[i].active then marker(rs[i].category) else []
  }

  /** The part of the rendered text that the k-th token shows. */
  ghost predicate PartShown(rendered: Bytes, t: Token, rs: seq<Replacement>, marker: string -> Bytes, at: seq<nat>,
                            k: nat)
  {
    k + 1 < |at| && at[k] <= at[k + 1] <= |rendered| && IsShown(rendered[at[k]..at[k + 1]], t, rs, marker)
  }

  /** `at` says where in the rendered text what each token shows begins, and where the
      last one ends. */
  ghost predicate ShownAt(rendered: Bytes, ts: seq<Token>, rs: seq<Replacement>, marker: string -> Bytes,
                          at: seq<nat>)
  {
    && |at| == |ts| + 1 && at[0] == 0 && at[|ts|] == |rendered|
    && forall k :: 0 <= k < |ts| ==> PartShown(rendered, ts[k], rs, marker, at, k)
  }

  /** A rendering shows the tokens one after the other, and nothing else. */
  ghost predicate IsRendering(rendered: Bytes, ts: seq<Token>, rs: seq<Replacement>, marker: string -> Bytes) {
    exists at :: ShownAt(rendered, ts, rs, marker, at)
  }

  lemma ShownMore(rendered: Bytes, ts: seq<Token>, t: Token, part: Bytes, rs: seq<Replacement>,
                  marker: string -> Bytes, at: seq<nat>)
    requires ShownAt(rendered, ts, rs, marker, at) && IsShown(part, t, rs, marker)
    ensures ShownAt(rendered + part, ts + [t], rs, marker, at + [|rendered| + |part|])
  {
    var (more, all, ends) := (rendered + part, ts + [t], at + [|rendered| + |part|]);
    forall k | 0 <= k < |all| ensures PartShown(more, all[k], rs, marker, ends, k) {
      if k < |ts| {
        assert PartShown(rendered, ts[k], rs, marker, at, k);
        assert more[ends[k]..ends[k + 1]] == rendered[at[k]..at[k + 1]];
      } else {
        assert more[ends[k]..ends[k + 1]] == part;
      }
    }
  }

  lemma OneShows(t: Token, rs: seq<Replacement>, marker: string -> Bytes)
    requires t.Ph? ==> t.index < |rs|
    ensures IsShown(RenderedTokens([t], rs, marker), t, rs, marker)
  {
    assert [t][1..] == [];
  }

  lemma RenderingMore(front: seq<Token>, t: Token, rs: seq<Replacement>, marker: string -> Bytes)
    requires IsRendering(RenderedTokens(front, rs, marker), front, rs, marker) && (t.Ph? ==> t.index < |rs|)
    ensures IsRendering(RenderedTokens(front + [t], rs, marker), front + [t], rs, marker)
  {
    var (rendered, part) := (RenderedTokens(front, rs, marker), RenderedTokens([t], rs, marker));
    var at :| ShownAt(rendered, front, rs, marker, at);
    OneShows(t, rs, marker);
    RenderedAppend(front, [t], rs, marker);
    ShownMore(rendered, front, t, part, rs, marker, at);
  }

  lemma {:induction false} RenderingShows(ts: seq<Token>, rs: seq<Replacement>, marker: string -> Bytes)
    requires Below(ts, |rs|)
    ensures IsRendering(RenderedTokens(ts, rs, marker), ts, rs, marker)
  {
    if ts == [] {
      assert ShownAt([], ts, rs, marker, [0]);
    } else {
      RenderingShows(ts[..|ts| - 1], rs, marker);
      RenderingMore(ts[..|ts| - 1], ts[|ts| - 1], rs, marker);
      assert ts == ts[..|ts| - 1] + [ts[|ts| - 1]];
    }
  }

  lemma {:induction false} RenderingAgrees(pieces: seq<Piece>, rs: seq<Replacement>, marker: string -> Bytes)
    ensures RenderedPieces(pieces, rs, marker) == RenderedTokens(Tokens(pieces), rs, marker)
  {
    if pieces != [] {
      RenderingAgrees(pieces[1..], rs, marker);
      match pieces[0]
      case Literal(b) =>
        RenderedChars(b, rs, marker);
        RenderedAppend(Chars(b), Tokens(pieces[1..]), rs, marker);
      case Mark(i) =>
        assert [Ph(i)][1..] == [];
        RenderedAppend([Ph(i)], Tokens(pieces[1..]), rs, marker);
    }
  }

  // ---------- Where the placeholders are ----------

  /** Each active placeholder stands in the text once, the others nowhere. */
  ghost predicate Placed(ts: seq<Token>, rs: seq<Replacement>) {
    && Below(ts, |rs|)
    && forall i: nat :: i < |rs| ==> PlacedAt(ts, rs, i)
  }

  ghost predicate PlacedAt(ts: seq<Token>, rs: seq<Replacement>, i: nat)
    requires i < |rs|
  {
    multiset(ts)[Ph(i)] == if rs[i].active then 1 else 0
  }

  ghost predicate OnlyChars(ts: seq<Token>) {
    forall j :: 0 <= j < |ts| ==> ts[j].Ch?
  }

  ghost predicate NoZero(ts: seq<Token>) {
    forall j :: 0 <= j < |ts| ==> ts[j].Ch? && ts[j].byte != 0
  }

  lemma CharsHaveNoPlaceholder(ts: seq<Token>)
    requires OnlyChars(ts)
    ensures forall i: nat :: multiset(ts)[Ph(i)] == 0
  {
    forall i: nat ensures Ph(i) !in ts {}
  }

  /** A match gives way to what is kept of it, a new placeholder and what follows it. */
  lemma ReplacedPlaced(x: seq<Token>, m: seq<Token>, y: seq<Token>, kept: seq<Token>, post: seq<Token>,
                       rs: seq<Replacement>, after: seq<Replacement>)
    requires Placed(x + m + y, rs) && OnlyChars(kept) && OnlyChars(post)
    requires |after| == |rs| + 1 && after[|rs|].active
    requires forall i :: 0 <= i < |rs| ==> after[i].active == (rs[i].active && Ph(i) !in m)
    ensures Placed(x + kept + [Ph(|rs|)] + post + y, after)
  {
    var t := x + kept + [Ph(|rs|)] + post + y;
    CharsHaveNoPlaceholder(kept);
    CharsHaveNoPlaceholder(post);
    assert multiset(x + m + y) == multiset(x) + multiset(m) + multiset(y);
    assert multiset(t) == multiset(x) + multiset(kept) + multiset{Ph(|rs|)} + multiset(post) + multiset(y);
    forall p | p in x || p in m || p in y ensures p.Ph? ==> p.index < |rs| {
      assert p in x + m + y;
    }
    forall i: nat | i < |after| ensures PlacedAt(t, after, i) {
      if i < |rs| {
        assert PlacedAt(x + m + y, rs, i);
      } else {
        assert Ph(i) !in x && Ph(i) !in y;
      }
    }
    forall k | 0 <= k < |t| && t[k].Ph? ensures t[k].index < |after| {
      assert t[k] in x || t[k] in kept || t[k] == Ph(|rs|) || t[k] in post || t[k] in y;
    }
  }

  lemma SpelledChar(w: Bytes, ts: seq<Token>, q: nat, i: nat)
    requires SpelledAt(w, ts, q) && q <= i < q + |w|
    ensures ts[i] == Ch(w[i - q])
  {
    var j := i - q;
    assert ts[q + j] == Ch(w[j]);
  }

  lemma ReplacedSpelled(w: Bytes, x: seq<Token>, m: seq<Token>, y: seq<Token>, k: nat, n: nat, post: seq<Token>, q: nat)
    requires w != [] && w[0] == 0
    requires k <= |m| && NoZero(post) && SpelledAt(w, x + m[..k] + [Ph(n)] + post + y, q)
    ensures exists q': nat :: SpelledAt(w, x + m + y, q')
  {
    var t := x + m[..k] + [Ph(n)] + post + y;
    var head := |x| + k;
    var tail := head + 1 + |post|;
    assert t[head] == Ph(n);
    if q <= head < q + |w| { SpelledChar(w, t, q, head); }
    if q + |w| <= head {
      forall j | 0 <= j < |w| ensures (x + m + y)[q + j] == Ch(w[j]) {
        assert t[q + j] == Ch(w[j]);
      }
      assert SpelledAt(w, x + m + y, q);
    } else {
      SpelledChar(w, t, q, q);
      assert forall j :: head < j < tail ==> t[j] == post[j - head - 1];
      assert q >= tail;
      var q' := q - tail + |x| + |m|;
      forall j | 0 <= j < |w| ensures (x + m + y)[q' + j] == Ch(w[j]) {
        assert t[q + j] == Ch(w[j]) && t[q + j] == y[q + j - tail];
      }
      assert SpelledAt(w, x + m + y, q');
    }
  }

  /** No stem of the prefix comes into being at the seams. */
  lemma ReplacedPlain(p: Bytes, x: seq<Token>, m: seq<Token>, y: seq<Token>, k: nat, n: nat, post: seq<Token>)
    requires IsPrefix(p) && Plain(p, x + m + y) && k <= |m| && NoZero(post)
    ensures Plain(p, x + m[..k] + [Ph(n)] + post + y)
  {
    forall q: nat ensures !SpelledAt(Stem(p), x + m[..k] + [Ph(n)] + post + y, q) {
      if SpelledAt(Stem(p), x + m[..k] + [Ph(n)] + post + y, q) {
        ReplacedSpelled(Stem(p), x, m, y, k, n, post, q);
      }
    }
  }

  // ---------- Counts and markers ----------

  /** How many of the first `n` placeholders that stand in the text have the category. */
  function MarksBelow(ts: seq<Token>, rs: seq<Replacement>, c: string, n: nat): nat
    requires n <= |rs|
  {
    if ts == [] then 0
    else
      var last := ts[|ts| - 1];
      MarksBelow(ts[..|ts| - 1], rs, c, n) + if last.Ph? && last.index < n && rs[last.index].category == c then 1 else 0
  }

  lemma {:induction false} MarksStep(ts: seq<Token>, rs: seq<Replacement>, c: string, n: nat)
    requires n < |rs|
    ensures MarksBelow(ts, rs, c, n + 1)
            == MarksBelow(ts, rs, c, n) + if rs[n].category == c then multiset(ts)[Ph(n)] else 0
  {
    if ts != [] {
      var (front, last) := (ts[..|ts| - 1], ts[|ts| - 1]);
      MarksStep(front, rs, c, n);
      assert ts == front + [last];
      assert multiset(ts) == multiset(front) + multiset{last};
    }
  }

  lemma {:induction false} NoMarksBelowZero(ts: seq<Token>, rs: seq<Replacement>, c: string)
    ensures MarksBelow(ts, rs, c, 0) == 0
  {
    if ts != [] { NoMarksBelowZero(ts[..|ts| - 1], rs, c); }
  }

  lemma {:induction false} MarksAreActive(ts: seq<Token>, rs: seq<Replacement>, c: string, n: nat)
    requires Placed(ts, rs) && n <= |rs|
    ensures MarksBelow(ts, rs, c, n) == CountActive(rs[..n], c)
  {
    if n == 0 {
      NoMarksBelowZero(ts, rs, c);
    } else {
      MarksAreActive(ts, rs, c, n - 1);
      MarksStep(ts, rs, c, n - 1);
      assert PlacedAt(ts, rs, n - 1);
      assert rs[..n][..n - 1] == rs[..n - 1];
    }
  }

  /** Where the text shows a marker of the category. */
  ghost function Markers(ts: seq<Token>, rs: seq<Replacement>, c: string): set<nat> {
    set q: nat | q < |ts| && ts[q].Ph? && ts[q].index < |rs| && rs[ts[q].index].active && rs[ts[q].index].category == c
  }

  ghost predicate AllActive(ts: seq<Token>, rs: seq<Replacement>) {
    forall q :: 0 <= q < |ts| && ts[q].Ph? && ts[q].index < |rs| ==> rs[ts[q].index].active
  }

  lemma PlacedActive(ts: seq<Token>, rs: seq<Replacement>)
    requires Placed(ts, rs)
    ensures AllActive(ts, rs)
  {
    forall q | 0 <= q < |ts| && ts[q].Ph? && ts[q].index < |rs| ensures rs[ts[q].index].active {
      assert ts[q] in multiset(ts);
      assert PlacedAt(ts, rs, ts[q].index);
    }
  }

  lemma {:induction false} MarkersCounted(ts: seq<Token>, rs: seq<Replacement>, c: string)
    requires AllActive(ts, rs)
    ensures MarksBelow(ts, rs, c, |rs|) == |Markers(ts, rs, c)|
  {
    if ts == [] {
      assert Markers(ts, rs, c) == {};
    } else {
      var (n, front) := (|ts| - 1, ts[..|ts| - 1]);
      MarkersCounted(front, rs, c);
      var more := if n in Markers(ts, rs, c) then {n} else {};
      assert Markers(ts, rs, c) == Markers(front, rs, c) + more;
    }
  }

  /** The counts reported are the numbers of markers that the rendered text shows. */
  lemma CountsAreMarkers(ts: seq<Token>, rs: seq<Replacement>, counts: map<string, nat>, c: string)
    requires Placed(ts, rs) && Counted(rs, counts)
    ensures |Markers(ts, rs, c)| == if c in counts then counts[c] else 0
    ensures c in counts ==> counts[c] > 0
  {
    PlacedActive(ts, rs);
    MarkersCounted(ts, rs, c);
    MarksAreActive(ts, rs, c, |rs|);
    assert rs[..|rs|] == rs;
    assert CountedFor(rs, counts, c);
  }

  // ---------- The state ----------

  /** A match of a pattern: where it is, how much of its front the formatter keeps,
      and what it puts after the placeholder. */
  datatype Match = Match(start: nat, end: nat, keep: nat, post: Bytes)

  /** The same match among the tokens: it splits no placeholder. */
  datatype Cut = Cut(a: nat, b: nat)

  ghost predicate Aligned(p: Bytes, ts: seq<Token>, m: Match, c: Cut) {
    && c.a <= c.b <= |ts| && m.keep <= c.b - c.a
    && m.start == |Encode(p, ts[..c.a])| && m.end == |Encode(p, ts[..c.b])|
    && OnlyChars(ts[c.a..c.a + m.keep]) && NoZero(Chars(m.post))
  }

  /** Where the text behind the i-th match begins. */
  function From(cuts: seq<Cut>, i: nat): nat
    requires i <= |cuts|
  {
    if i == 0 then 0 else cuts[i - 1].b
  }

  ghost predicate InOrder(p: Bytes, ts: seq<Token>, matches: seq<Match>, cuts: seq<Cut>, i: nat)
    requires i < |matches| == |cuts|
  {
    Aligned(p, ts, matches[i], cuts[i]) && From(cuts, i) <= cuts[i].a
  }

  /** The matches come in order and do not overlap. */
  ghost predicate AllAligned(p: Bytes, ts: seq<Token>, matches: seq<Match>, cuts: seq<Cut>) {
    |matches| == |cuts| && forall i :: 0 <= i < |cuts| ==> InOrder(p, ts, matches, cuts, i)
  }

  /** The tokens up to the i-th match, with the matches before it replaced. */
  ghost function Done(p: Bytes, ts: seq<Token>, matches: seq<Match>, cuts: seq<Cut>, n: nat, i: nat): seq<Token>
    requires AllAligned(p, ts, matches, cuts) && i <= |cuts|
  {
    if i == 0 then []
    else
      assert InOrder(p, ts, matches, cuts, i - 1);
      var (m, c) := (matches[i - 1], cuts[i - 1]);
      Done(p, ts, matches, cuts, n, i - 1)
      + ts[From(cuts, i - 1)..c.a] + ts[c.a..c.a + m.keep] + [Ph(n + i - 1)] + Chars(m.post)
  }

  /** Each match replaced by its kept front, a placeholder of its own and what follows. */
  ghost function Replaced(p: Bytes, ts: seq<Token>, matches: seq<Match>, cuts: seq<Cut>, n: nat): seq<Token>
    requires AllAligned(p, ts, matches, cuts)
  {
    assert cuts == [] || InOrder(p, ts, matches, cuts, |cuts| - 1);
    Done(p, ts, matches, cuts, n, |cuts|) + ts[From(cuts, |cuts|)..]
  }

  ghost predicate Opened(rs: seq<Replacement>, after: seq<Replacement>, category: string, m: seq<Token>) {
    && |after| == |rs| + 1 && after[|rs|] == Replacement(category, true)
    && forall i :: 0 <= i < |rs| ==> after[i] == rs[i].(active := rs[i].active && Ph(i) !in m)
  }

  /** All replacements from the n-th on are of the category. */
  ghost predicate Filed(rs: seq<Replacement>, n: nat, category: string) {
    forall j :: n <= j < |rs| ==> rs[j].category == category
  }

  lemma OpenedFiled(rs: seq<Replacement>, after: seq<Replacement>, category: string, m: seq<Token>, n: nat)
    requires Opened(rs, after, category, m) && Filed(rs, n, category)
    ensures Filed(after, n, category)
  {
  }

  /** What is written comes from `front`, what is left is the text from `last` on, and
      the two together agree with the books. */
  ghost predicate InProgress(p: Bytes, ts: seq<Token>, front: seq<Token>, from: nat, output: Bytes, last: int,
                             rs: seq<Replacement>) {
    && from <= |ts| && output == Encode(p, front) && last == |Encode(p, ts[..from])|
    && Plain(p, front + ts[from..]) && Placed(front + ts[from..], rs)
  }

  lemma Middle(a: Bytes, b: Bytes, c: Bytes)
    ensures (a + b + c)[|a|..|a| + |b|] == b
  {
  }

  lemma EncodeSlice(p: Bytes, ts: seq<Token>, a: nat, b: nat)
    requires a <= b <= |ts|
    ensures |Encode(p, ts[..a])| <= |Encode(p, ts[..b])| <= |Encode(p, ts)|
    ensures Encode(p, ts)[|Encode(p, ts[..a])|..|Encode(p, ts[..b])|] == Encode(p, ts[a..b])
  {
    var (x, y, z) := (ts[..a], ts[a..b], ts[b..]);
    assert x + y == ts[..b] && ts[..b] + z == ts;
    EncodeAppend(p, x, y);
    EncodeAppend(p, ts[..b], z);
    Middle(Encode(p, x), Encode(p, y), Encode(p, z));
  }

  lemma KeptBytes(p: Bytes, ts: seq<Token>, a: nat, keep: nat)
    requires a + keep <= |ts| && OnlyChars(ts[a..a + keep])
    ensures |Encode(p, ts[..a + keep])| == |Encode(p, ts[..a])| + keep
  {
    assert ts[..a + keep] == ts[..a] + ts[a..a + keep];
    EncodeAppend(p, ts[..a], ts[a..a + keep]);
    EncodeCharacters(p, ts[a..a + keep]);
  }

  lemma BytesBetween(p: Bytes, ts: seq<Token>, from: nat, a: nat, start: nat)
    requires from <= a <= |ts| && start == |Encode(p, ts[..a])|
    ensures |Encode(p, ts[..from])| <= start <= |Encode(p, ts)|
    ensures Encode(p, ts)[|Encode(p, ts[..from])|..start] == Encode(p, ts[from..a])
  {
    EncodeSlice(p, ts, from, a);
  }

  lemma PartOfRest(p: Bytes, front: seq<Token>, ts: seq<Token>, from: nat, c: Cut, n: nat)
    requires from <= c.a <= c.b <= |ts| && Plain(p, front + ts[from..]) && Below(front + ts[from..], n)
    ensures Plain(p, ts[c.a..c.b]) && Below(ts[c.a..c.b], n)
  {
    var all := front + ts[from..];
    var k := |front|;
    PlainPart(p, all, k + c.a - from, k + c.b - from);
    assert all[k + c.a - from..k + c.b - from] == ts[c.a..c.b];
  }

  lemma EncodeAll(p: Bytes, a: seq<Token>, b: seq<Token>, c: seq<Token>, e: seq<Token>, f: seq<Token>)
    ensures Encode(p, a + b + c + e + f) == Encode(p, a) + Encode(p, b) + Encode(p, c) + Encode(p, e) + Encode(p, f)
  {
    EncodeAppend(p, a + b + c + e, f);
    EncodeAppend(p, a + b + c, e);
    EncodeAppend(p, a + b, c);
    EncodeAppend(p, a, b);
  }

  lemma EncodeFive(p: Bytes, a: seq<Token>, b: seq<Token>, c: seq<Token>, i: nat, post: Bytes)
    ensures Encode(p, a + b + c + [Ph(i)] + Chars(post))
            == Encode(p, a) + Encode(p, b) + Encode(p, c) + Placeholder(p, i) + post
  {
    EncodeAll(p, a, b, c, [Ph(i)], Chars(post));
    EncodeOne(p, i);
    EncodeChars(p, post);
  }

  /** The books and the text after one more match. */
  lemma SeamsHold(p: Bytes, ts: seq<Token>, front: seq<Token>, from: nat, m: Match, c: Cut,
                  rs: seq<Replacement>, after: seq<Replacement>, category: string)
    requires IsPrefix(p) && from <= c.a <= c.b <= |ts| && c.a + m.keep <= c.b
    requires OnlyChars(ts[c.a..c.a + m.keep]) && NoZero(Chars(m.post))
    requires Plain(p, front + ts[from..]) && Placed(front + ts[from..], rs) && Opened(rs, after, category, ts[c.a..c.b])
    ensures var t := front + ts[from..c.a] + ts[c.a..c.a + m.keep] + [Ph(|rs|)] + Chars(m.post) + ts[c.b..];
            Plain(p, t) && Placed(t, after)
  {
    var (x, mid, y) := (front + ts[from..c.a], ts[c.a..c.b], ts[c.b..]);
    assert x + mid + y == front + ts[from..];
    assert mid[..m.keep] == ts[c.a..c.a + m.keep];
    ReplacedPlain(p, x, mid, y, m.keep, |rs|, Chars(m.post));
    ReplacedPlaced(x, mid, y, mid[..m.keep], Chars(m.post), rs, after);
  }

  lemma InProgressAtFirst(p: Bytes, ts: seq<Token>, rs: seq<Replacement>)
    requires Plain(p, ts) && Placed(ts, rs)
    ensures InProgress(p, ts, [], 0, [], 0, rs)
  {
    assert [] + ts[0..] == ts;
  }

  lemma DoneNext(p: Bytes, ts: seq<Token>, matches: seq<Match>, cuts: seq<Cut>, n: nat, i: nat, index: nat)
    requires AllAligned(p, ts, matches, cuts) && i < |cuts| && index == n + i
    ensures Aligned(p, ts, matches[i], cuts[i]) && From(cuts, i) <= cuts[i].a && From(cuts, i + 1) == cuts[i].b
    ensures Done(p, ts, matches, cuts, n, i + 1)
            == Done(p, ts, matches, cuts, n, i)
               + ts[From(cuts, i)..cuts[i].a] + ts[cuts[i].a..cuts[i].a + matches[i].keep]
               + [Ph(index)] + Chars(matches[i].post)
  {
    assert InOrder(p, ts, matches, cuts, i);
  }

  lemma InProgressNext(p: Bytes, ts: seq<Token>, front: seq<Token>, from: nat, output: Bytes, last: nat,
                       rs: seq<Replacement>, after: seq<Replacement>, m: Match, c: Cut, category: string,
                       longer: seq<Token>, more: Bytes)
    requires IsPrefix(p) && InProgress(p, ts, front, from, output, last, rs) && Aligned(p, ts, m, c) && from <= c.a
    requires Opened(rs, after, category, ts[c.a..c.b])
    requires longer == front + ts[from..c.a] + ts[c.a..c.a + m.keep] + [Ph(|rs|)] + Chars(m.post)
    requires more == output + Encode(p, ts[from..c.a]) + Encode(p, ts[c.a..c.a + m.keep]) + Placeholder(p, |rs|)
                     + m.post
    ensures InProgress(p, ts, longer, c.b, more, m.end, after)
  {
    SeamsHold(p, ts, front, from, m, c, rs, after, category);
    EncodeFive(p, front, ts[from..c.a], ts[c.a..c.a + m.keep], |rs|, m.post);
  }

  /** The rest of the text follows the last match. */
  lemma AllDone(p: Bytes, ts: seq<Token>, front: seq<Token>, from: nat, output: Bytes, last: nat, rs: seq<Replacement>)
    requires InProgress(p, ts, front, from, output, last, rs)
    ensures last <= |Encode(p, ts)|
    ensures output + Encode(p, ts)[last..] == Encode(p, front + ts[from..])
  {
    EncodeAppend(p, ts[..from], ts[from..]);
    assert ts[..from] + ts[from..] == ts;
    Behind(Encode(p, ts[..from]), Encode(p, ts[from..]));
    EncodeAppend(p, front, ts[from..]);
  }

  // ---------- One round of the scanning loops ----------

  lemma SwallowNothing(b: Book, p: Bytes, n: nat, rest: Bytes)
    requires p != []
    requires Find(rest, p) == None
    ensures Swallowed(b, Scan(p, n, rest)) == b
  {
    assert Swallowed(b, [Literal(rest)]) == Swallowed(b, []);
  }

  lemma NothingInNothing(p: Bytes)
    requires p != []
    ensures Find([], p) == None
  {
  }

  lemma SwallowTwo(b: Book, p: Piece, q: Piece, tail: seq<Piece>)
    ensures Swallowed(b, [p, q] + tail) == Swallowed(SwallowedPiece(SwallowedPiece(b, p), q), tail)
  {
    var pieces := [p, q] + tail;
    assert pieces[1..] == [q] + tail && pieces[1..][1..] == tail;
  }

  lemma SwallowMark(b: Book, p: Bytes, n: nat, rest: Bytes, start: nat, parsed: (nat, nat), c: Book, next: Bytes)
    requires p != []
    requires n == |b.replacements| && Find(rest, p) == Some(start) && Parsed(p, n, rest, start) == Some(parsed)
    requires c == Cleared(b, parsed.0) && next == rest[parsed.1..]
    ensures Swallowed(c, Scan(p, n, next)) == Swallowed(b, Scan(p, n, rest))
  {
    SwallowTwo(b, Literal(rest[..start]), Mark(parsed.0), Scan(p, n, next));
  }

  lemma SwallowText(b: Book, p: Bytes, n: nat, rest: Bytes, start: nat, next: Bytes)
    requires p != []
    requires Find(rest, p) == Some(start) && Parsed(p, n, rest, start) == None && next == rest[start + |p|..]
    ensures Swallowed(b, Scan(p, n, next)) == Swallowed(b, Scan(p, n, rest))
  {
    ScanText(p, n, rest, start);
    SwallowTwo(b, Literal(rest[..start]), Literal(p), Scan(p, n, next));
  }

  lemma RenderNothing(rs: seq<Replacement>, p: Bytes, rest: Bytes, marker: string -> Bytes)
    requires p != []
    requires Find(rest, p) == None
    ensures RenderedPieces(Scan(p, |rs|, rest), rs, marker) == rest
  {
    RenderLiteral(rest, rs, marker);
  }

  lemma RenderLiteral(rest: Bytes, rs: seq<Replacement>, marker: string -> Bytes)
    ensures RenderedPieces([Literal(rest)], rs, marker) == rest
  {
    assert [Literal(rest)][1..] == [];
  }

  lemma RenderTwo(sofar: Bytes, a: Piece, b: Piece, tail: seq<Piece>, rs: seq<Replacement>, marker: string -> Bytes)
    ensures sofar + RenderedPieces([a, b] + tail, rs, marker)
            == (sofar + RenderedPiece(a, rs, marker) + RenderedPiece(b, rs, marker)) + RenderedPieces(tail, rs, marker)
  {
    var pieces := [a, b] + tail;
    assert pieces[1..] == [b] + tail && pieces[1..][1..] == tail;
  }

  lemma RenderMark(sofar: Bytes, rs: seq<Replacement>, p: Bytes, rest: Bytes, start: nat, parsed: (nat, nat),
                   marker: string -> Bytes)
    requires p != []
    requires Find(rest, p) == Some(start) && Parsed(p, |rs|, rest, start) == Some(parsed)
    ensures sofar + RenderedPieces(Scan(p, |rs|, rest), rs, marker)
            == (sofar + rest[..start] + Shown(rs[parsed.0], marker))
               + RenderedPieces(Scan(p, |rs|, rest[parsed.1..]), rs, marker)
  {
    RenderTwo(sofar, Literal(rest[..start]), Mark(parsed.0), Scan(p, |rs|, rest[parsed.1..]), rs, marker);
  }

  lemma ScanText(p: Bytes, n: nat, rest: Bytes, start: nat)
    requires p != []
    requires Find(rest, p) == Some(start) && Parsed(p, n, rest, start) == None
    ensures Scan(p, n, rest) == [Literal(rest[..start]), Literal(p)] + Scan(p, n, rest[start + |p|..])
  {
  }

  lemma RenderText(sofar: Bytes, rs: seq<Replacement>, p: Bytes, rest: Bytes, start: nat, marker: string -> Bytes)
    requires p != []
    requires start + |p| <= |rest|
    requires Scan(p, |rs|, rest) == [Literal(rest[..start]), Literal(p)] + Scan(p, |rs|, rest[start + |p|..])
    ensures sofar + RenderedPieces(Scan(p, |rs|, rest), rs, marker)
            == (sofar + rest[..start] + p) + RenderedPieces(Scan(p, |rs|, rest[start + |p|..]), rs, marker)
  {
    RenderTwo(sofar, Literal(rest[..start]), Literal(p), Scan(p, |rs|, rest[start + |p|..]), rs, marker);
  }

  /** Scanning and rendering shows what the text is made of. */
  lemma RenderIsExact(p: Bytes, ts: seq<Token>, rs: seq<Replacement>, marker: string -> Bytes)
    requires IsPrefix(p) && Plain(p, ts) && Below(ts, |rs|)
    ensures RenderedPieces(Scan(p, |rs|, Encode(p, ts)), rs, marker) == RenderedTokens(ts, rs, marker)
  {
    ScanInvertsEncode(p, |rs|, ts);
    RenderingAgrees(Scan(p, |rs|, Encode(p, ts)), rs, marker);
  }

  class RedactionState {
    var text: Bytes
    const prefix: Bytes
    var replacements: seq<Replacement>
    var counts: map<string, nat>
    /** What the text is made of. */
    ghost var tokens: seq<Token>

    ghost predicate Valid()
      reads this
    {
      && IsPrefix(prefix) && text == Encode(prefix, tokens) && Plain(prefix, tokens)
      && Placed(tokens, replacements) && Counted(replacements, counts)
    }

    /** The prefix is one whose stem the text does not contain. */
    constructor (text: Bytes, digest: Digest)
      requires Find(text, Stem(Prefix(digest))) == None
      ensures Valid() && prefix == Prefix(digest) && tokens == Chars(text) && replacements == [] && counts == map[]
    {
      this.text := text;
      prefix := Prefix(digest);
      replacements := [];
      counts := map[];
      tokens := Chars(text);
      new;
      PrefixParts(digest);
      EncodeChars(prefix, text);
      CharactersOf(text);
      CharactersArePlain(prefix, Chars(text));
    }

    method NewPlaceholder(category: string) returns (placeholder: Bytes)
      requires Counted(replacements, counts)
      modifies `replacements, `counts
      ensures placeholder == Placeholder(prefix, |old(replacements)|)
      ensures replacements == old(replacements) + [Replacement(category, true)] && Counted(replacements, counts)
    {
      placeholder := Placeholder(prefix, |replacements|);
      OpenedCounted(replacements, counts, category);
      replacements := replacements + [Replacement(category, true)];
      counts := counts[category := (if category in counts then counts[category] else 0) + 1];
    }

    method Clear(index: nat)
      requires index < |replacements|
      modifies `replacements, `counts
      ensures Book(replacements, counts) == Cleared(old(Book(replacements, counts)), index)
      ensures |replacements| == |old(replacements)|
    {
      if replacements[index].active {
        counts := Less(counts, replacements[index].category);
        replacements := replacements[index := replacements[index].(active := false)];
      }
    }

    /** Makes the placeholders in a match inactive, whatever else is in it. */
    method ConsumePlaceholders(found: Bytes)
      requires prefix != []
      modifies `replacements, `counts
      ensures Book(replacements, counts)
              == Swallowed(old(Book(replacements, counts)), Scan(prefix, |replacements|, found))
      ensures |replacements| == |old(replacements)|
    {
      ghost var whole := Swallowed(Book(replacements, counts), Scan(prefix, |replacements|, found));
      var rest := found;
      while rest != []
        invariant |replacements| == |old(replacements)|
        invariant Swallowed(Book(replacements, counts), Scan(prefix, |replacements|, rest)) == whole
        decreases |rest|
      {
        var relative := Find(rest, prefix);
        if relative == None {
          break;
        }
        rest := ConsumeOne(rest, relative.value);
      }
      NothingInNothing(prefix);
      SwallowNothing(Book(replacements, counts), prefix, |replacements|, rest);
    }

    /** Past one prefix, and past its placeholder if it begins one. */
    method ConsumeOne(rest: Bytes, start: nat) returns (next: Bytes)
      requires prefix != [] && Find(rest, prefix) == Some(start)
      modifies `replacements, `counts
      ensures |next| < |rest| && |replacements| == |old(replacements)|
      ensures Swallowed(Book(replacements, counts), Scan(prefix, |replacements|, next))
              == Swallowed(old(Book(replacements, counts)), Scan(prefix, |replacements|, rest))
    {
      ghost var (b, n) := (Book(replacements, counts), |replacements|);
      var parsed := Parsed(prefix, |replacements|, rest, start);
      if parsed.Some? {
        next := rest[parsed.value.1..];
        Clear(parsed.value.0);
        SwallowMark(b, prefix, n, rest, start, parsed.value, Book(replacements, counts), next);
      } else {
        next := rest[start + |prefix|..];
        SwallowText(b, prefix, n, rest, start, next);
      }
    }

    /** Copies the text with the markers of the active placeholders in their places. */
    method Render(marker: string -> Bytes) returns (rendered: Bytes)
      requires Valid()
      ensures rendered == RenderedTokens(tokens, replacements, marker)
    {
      rendered := [];
      var rest := text;
      ghost var whole := RenderedPieces(Scan(prefix, |replacements|, text), replacements, marker);
      while rest != []
        invariant rendered + RenderedPieces(Scan(prefix, |replacements|, rest), replacements, marker) == whole
        decreases |rest|
      {
        var relative := Find(rest, prefix);
        if relative == None {
          break;
        }
        rendered, rest := RenderOne(marker, rendered, rest, relative.value);
      }
      NothingInNothing(prefix);
      RenderNothing(replacements, prefix, rest, marker);
      rendered := rendered + rest;
      RenderIsExact(prefix, tokens, replacements, marker);
    }

    /** Past one prefix, showing its placeholder if it begins one. */
    method RenderOne(marker: string -> Bytes, rendered: Bytes, rest: Bytes, start: nat)
      returns (more: Bytes, next: Bytes)
      requires prefix != [] && Find(rest, prefix) == Some(start)
      ensures |next| < |rest|
      ensures more + RenderedPieces(Scan(prefix, |replacements|, next), replacements, marker)
              == rendered + RenderedPieces(Scan(prefix, |replacements|, rest), replacements, marker)
    {
      var parsed := Parsed(prefix, |replacements|, rest, start);
      if parsed.Some? {
        RenderMark(rendered, replacements, prefix, rest, start, parsed.value, marker);
        more := rendered + rest[..start] + Shown(replacements[parsed.value.0], marker);
        next := rest[parsed.value.1..];
      } else {
        ScanText(prefix, |replacements|, rest, start);
        RenderText(rendered, replacements, prefix, rest, start, marker);
        more := rendered + rest[..start] + prefix;
        next := rest[start + |prefix|..];
      }
    }

    /** Takes a match out of the books and opens a placeholder for it. */
    method Open(found: Bytes, category: string, ghost m: seq<Token>) returns (placeholder: Bytes)
      requires IsPrefix(prefix) && found == Encode(prefix, m) && Plain(prefix, m) && Below(m, |replacements|)
      requires Counted(replacements, counts)
      modifies `replacements, `counts
      ensures placeholder == Placeholder(prefix, |old(replacements)|)
      ensures Opened(old(replacements), replacements, category, m) && Counted(replacements, counts)
    {
      ghost var b := Book(replacements, counts);
      ScanInvertsEncode(prefix, |replacements|, m);
      SwallowedMeans(b, Scan(prefix, |replacements|, found));
      if Find(found, prefix) != None {
        ConsumePlaceholders(found);
      } else {
        SwallowNothing(b, prefix, |replacements|, found);
      }
      placeholder := NewPlaceholder(category);
    }

    /** A part of the text that splits no token. */
    method Slice(start: nat, end: nat, ghost ts: seq<Token>, ghost a: nat, ghost b: nat) returns (s: Bytes)
      requires text == Encode(prefix, ts) && a <= b <= |ts|
      requires start == |Encode(prefix, ts[..a])| && end == |Encode(prefix, ts[..b])|
      ensures s == Encode(prefix, ts[a..b])
    {
      BytesBetween(prefix, ts, a, b, end);
      s := text[start..end];
    }

    /** Writes out the text up to a match, and the match as its replacement. */
    method ProtectOne(category: string, m: Match, output: Bytes, last: nat, ghost ts: seq<Token>, ghost c: Cut,
                      ghost front: seq<Token>, ghost from: nat, ghost longer: seq<Token>)
      returns (more: Bytes)
      requires IsPrefix(prefix) && text == Encode(prefix, ts) && Counted(replacements, counts)
      requires InProgress(prefix, ts, front, from, output, last, replacements)
      requires Aligned(prefix, ts, m, c) && from <= c.a
      requires longer == front + ts[from..c.a] + ts[c.a..c.a + m.keep] + [Ph(|replacements|)] + Chars(m.post)
      modifies `replacements, `counts
      ensures Opened(old(replacements), replacements, category, ts[c.a..c.b]) && Counted(replacements, counts)
      ensures InProgress(prefix, ts, longer, c.b, more, m.end, replacements)
    {
      ghost var before := replacements;
      var between, kept, placeholder := CutOut(category, m, last, ts, c, front, from);
      more := output + between + kept + placeholder + m.post;
      InProgressNext(prefix, ts, front, from, output, last, before, replacements, m, c, category, longer, more);
    }

    /** The text before a match, what is kept of the match, and a placeholder for it. */
    method CutOut(category: string, m: Match, last: nat, ghost ts: seq<Token>, ghost c: Cut, ghost front: seq<Token>,
                  ghost from: nat)
      returns (between: Bytes, kept: Bytes, placeholder: Bytes)
      requires IsPrefix(prefix) && text == Encode(prefix, ts) && Counted(replacements, counts)
      requires Aligned(prefix, ts, m, c) && from <= c.a && last == |Encode(prefix, ts[..from])|
      requires Plain(prefix, front + ts[from..]) && Below(front + ts[from..], |replacements|)
      modifies `replacements, `counts
      ensures Opened(old(replacements), replacements, category, ts[c.a..c.b]) && Counted(replacements, counts)
      ensures between == Encode(prefix, ts[from..c.a]) && kept == Encode(prefix, ts[c.a..c.a + m.keep])
      ensures placeholder == Placeholder(prefix, |old(replacements)|)
    {
      PartOfRest(prefix, front, ts, from, c, |replacements|);
      KeptBytes(prefix, ts, c.a, m.keep);
      between := Slice(last, m.start, ts, from, c.a);
      kept := Slice(m.start, m.start + m.keep, ts, c.a, c.a + m.keep);
      var found := Slice(m.start, m.end, ts, c.a, c.b);
      placeholder := Open(found, category, ts[c.a..c.b]);
    }

    method ProtectEach(category: string, matches: seq<Match>, ghost ts: seq<Token>, ghost cuts: seq<Cut>)
      returns (output: Bytes, last: nat)
      requires IsPrefix(prefix) && text == Encode(prefix, ts) && Counted(replacements, counts)
      requires Plain(prefix, ts) && Placed(ts, replacements) && AllAligned(prefix, ts, matches, cuts)
      modifies `replacements, `counts
      ensures Counted(replacements, counts) && |replacements| == |old(replacements)| + |matches|
      ensures Filed(replacements, |old(replacements)|, category)
      ensures InProgress(prefix, ts, Done(prefix, ts, matches, cuts, |old(replacements)|, |cuts|), From(cuts, |cuts|),
                         output, last, replacements)
    {
      output, last := [], 0;
      ghost var n := |replacements|;
      InProgressAtFirst(prefix, ts, replacements);
      for i := 0 to |matches|
        invariant |replacements| == n + i && Filed(replacements, n, category)
        invariant InProgress(prefix, ts, Done(prefix, ts, matches, cuts, n, i), From(cuts, i), output, last,
                             replacements)
        invariant Counted(replacements, counts)
      {
        output, last := ProtectNext(category, matches, i, output, last, ts, cuts, n);
      }
    }

    method ProtectNext(category: string, matches: seq<Match>, i: nat, output: Bytes, last: nat,
                       ghost ts: seq<Token>, ghost cuts: seq<Cut>, ghost n: nat)
      returns (more: Bytes, next: nat)
      requires IsPrefix(prefix) && text == Encode(prefix, ts) && Counted(replacements, counts)
      requires AllAligned(prefix, ts, matches, cuts) && i < |cuts|
      requires |replacements| == n + i && Filed(replacements, n, category)
      requires InProgress(prefix, ts, Done(prefix, ts, matches, cuts, n, i), From(cuts, i), output, last, replacements)
      modifies `replacements, `counts
      ensures |replacements| == n + i + 1 && Filed(replacements, n, category) && Counted(replacements, counts)
      ensures InProgress(prefix, ts, Done(prefix, ts, matches, cuts, n, i + 1), From(cuts, i + 1), more, next,
                         replacements)
    {
      DoneNext(prefix, ts, matches, cuts, n, i, |replacements|);
      ghost var before := replacements;
      ghost var front := Done(prefix, ts, matches, cuts, n, i + 1);
      more := ProtectOne(category, matches[i], output, last, ts, cuts[i], Done(prefix, ts, matches, cuts, n, i),
                         From(cuts, i), front);
      next := matches[i].end;
      OpenedFiled(before, replacements, category, ts[cuts[i].a..cuts[i].b], n);
      assert InProgress(prefix, ts, front, From(cuts, i + 1), more, next, replacements);
    }

    /** Replaces every match, in order, by a placeholder of the category.  Placeholders
        inside a match go with it. */
    method Protect(category: string, matches: seq<Match>, ghost cuts: seq<Cut>)
      requires Valid() && AllAligned(prefix, tokens, matches, cuts)
      modifies this
      ensures Valid()
      ensures tokens == Replaced(prefix, old(tokens), matches, cuts, |old(replacements)|)
      ensures |replacements| == |old(replacements)| + |matches|
      ensures Filed(replacements, |old(replacements)|, category)
    {
      ghost var n := |replacements|;
      var output, last := ProtectEach(category, matches, tokens, cuts);
      AllDone(prefix, tokens, Done(prefix, tokens, matches, cuts, n, |cuts|), From(cuts, |cuts|), output, last,
              replacements);
      text := output + text[last..];
      tokens := Replaced(prefix, tokens, matches, cuts, n);
    }

    /** The redacted text with its counts: the characters and the markers of the active
        placeholders in their places, and how many markers of each category these are. */
    method Result(marker: string -> Bytes) returns (rendered: Bytes, found: map<string, nat>)
      requires Valid()
      ensures rendered == RenderedTokens(tokens, replacements, marker)
      ensures IsRendering(rendered, tokens, replacements, marker)
      ensures forall c :: |Markers(tokens, replacements, c)| == if c in found then found[c] else 0
      ensures found == counts && forall c :: c in found ==> found[c] > 0
    {
      rendered := Render(marker);
      RenderingShows(tokens, replacements, marker);
      found := counts;
      forall c ensures |Markers(tokens, replacements, c)| == if c in found then found[c] else 0 {
        CountsAreMarkers(tokens, replacements, found, c);
      }
      forall c | c in found ensures found[c] > 0 { CountsAreMarkers(tokens, replacements, found, c); }
    }
  }
}
