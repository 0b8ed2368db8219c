/** Text with placeholders in it: printing, and scanning it back. */
module PolicyTokens {
  import opened Basics

  const NAME: Bytes := [65, 69, 71, 73, 83, 95, 82, 69, 68, 65, 67, 84, 73, 79, 78]
  const DIGEST_SIZE: nat := 32
  const PREFIX_SIZE: nat := 50

  predicate IsHex(b: Byte) {
    48 <= b <= 57 || 97 <= b <= 102
  }

  /** The 32 lower-case hexadecimal digits that make a prefix unlike the text. */
  type Digest = d: Bytes | |d| == DIGEST_SIZE && forall i :: 0 <= i < |d| ==> IsHex(d[i])
    witness seq(DIGEST_SIZE, _ => 48)

  function Prefix(d: Digest): (p: Bytes)
    ensures |p| == 50
  {
    [0] + NAME + [0] + d + [0]
  }

  /** The shape of a prefix. */
  ghost predicate IsPrefix(p: Bytes) {
    && |p| == PREFIX_SIZE
    && p[0] == 0 && p[1..16] == NAME && p[16] == 0 && (forall i :: 17 <= i < 49 ==> IsHex(p[i])) && p[49] == 0
  }

  lemma PrefixParts(d: Digest)
    ensures IsPrefix(Prefix(d))
  {
    assert forall i :: 17 <= i < 49 ==> Prefix(d)[i] == d[i - 17];
  }

  /** A prefix without its last zero. */
  function Stem(p: Bytes): Bytes {
    if p == [] then [] else p[..|p| - 1]
  }

  // ---------- Numbers ----------

  function Itoa(n: nat): (s: Bytes)
    ensures s != [] && forall i :: 0 <= i < |s| ==> IsDigit(s[i])
  {
    if n < 10 then [48 + n] else Itoa(n / 10) + [48 + n % 10]
  }

  function Value(s: Bytes): int {
    if s == [] then 0 else Value(s[..|s| - 1]) * 10 + s[|s| - 1] - 48
  }

  lemma {:induction false} ValueOfItoa(n: nat)
    ensures Value(Itoa(n)) == n
  {
    if n >= 10 { ValueOfItoa(n / 10); }
  }

  /** Where the digits from `i` on end. */
  function DigitsEnd(text: Bytes, i: nat): (e: nat)
    requires i <= |text|
    ensures i <= e <= |text|
    decreases |text| - i
  {
    if i < |text| && IsDigit(text[i]) then DigitsEnd(text, i + 1) else i
  }

  lemma {:induction false} DigitsEndAt(text: Bytes, i: nat, e: nat)
    requires i <= e < |text| && !IsDigit(text[e]) && forall k :: i <= k < e ==> IsDigit(text[k])
    ensures DigitsEnd(text, i) == e
    decreases e - i
  {
    if i < e { DigitsEndAt(text, i + 1, e); }
  }

  // ---------- Printing ----------

  datatype Token = Ch(byte: Byte) | Ph(index: nat)

  function Placeholder(p: Bytes, i: nat): Bytes {
    p + Itoa(i) + [0]
  }

  function TokenBytes(p: Bytes, t: Token): Bytes {
    match t
    case Ch(b) => [b]
    case Ph(i) => Placeholder(p, i)
  }

  function Encode(p: Bytes, ts: seq<Token>): Bytes {
    if ts == [] then [] else TokenBytes(p, ts[0]) + Encode(p, ts[1..])
  }

  function Chars(b: Bytes): seq<Token> {
    seq(|b|, i requires 0 <= i < |b| => Ch(b[i]))
  }

  lemma {:induction false} EncodeChars(p: Bytes, b: Bytes)
    ensures Encode(p, Chars(b)) == b
  {
    if b != [] {
      assert Chars(b)[1..] == Chars(b[1..]);
      EncodeChars(p, b[1..]);
    }
  }

  lemma {:induction false} EncodeAppend(p: Bytes, a: seq<Token>, b: seq<Token>)
    ensures Encode(p, a + b) == Encode(p, a) + Encode(p, b)
  {
    if a == [] {
      assert a + b == b;
    } else {
      assert (a + b)[1..] == a[1..] + b;
      EncodeAppend(p, a[1..], b);
    }
  }

  lemma Regroup(a: Bytes, b: Bytes, c: Bytes)
    ensures a + (b + c) == (a + b) + c
  {
  }

  lemma Behind(a: Bytes, b: Bytes)
    ensures (a + b)[|a|..] == b
  {
  }

  ghost predicate SpelledAt(w: Bytes, ts: seq<Token>, k: nat) {
    k + |w| <= |ts| && forall j :: 0 <= j < |w| ==> ts[k + j] == Ch(w[j])
  }

  /** The characters between placeholders do not spell the stem of the prefix. */
  ghost predicate Plain(p: Bytes, ts: seq<Token>) {
    forall k: nat :: !SpelledAt(Stem(p), ts, k)
  }

  lemma PlainPart(p: Bytes, ts: seq<Token>, a: nat, b: nat)
    requires Plain(p, ts) && a <= b <= |ts|
    ensures Plain(p, ts[a..b])
  {
    forall k: nat ensures !SpelledAt(Stem(p), ts[a..b], k) {
      assert !SpelledAt(Stem(p), ts, a + k);
    }
  }

  lemma PlainRest(p: Bytes, ts: seq<Token>, a: nat)
    requires Plain(p, ts) && a <= |ts|
    ensures Plain(p, ts[a..])
  {
    PlainPart(p, ts, a, |ts|);
    assert ts[a..|ts|] == ts[a..];
  }

  // ---------- Scanning ----------

  predicate OccursAt(text: Bytes, pattern: Bytes, p: nat) {
    p + |pattern| <= |text| && text[p..p + |pattern|] == pattern
  }

  /** The first occurrence. */
  function Find(text: Bytes, pattern: Bytes): (r: Option<nat>)
    ensures r == None ==> forall p: nat :: !OccursAt(text, pattern, p)
    ensures r.Some? ==> OccursAt(text, pattern, r.value) && forall p: nat :: p < r.value ==> !OccursAt(text, pattern, p)
  {
    FindFrom(text, pattern, 0)
  }

  function FindFrom(text: Bytes, pattern: Bytes, i: nat): (r: Option<nat>)
    requires i <= |text|
    ensures r == None ==> forall p: nat :: i <= p ==> !OccursAt(text, pattern, p)
    ensures r.Some? ==> i <= r.value && OccursAt(text, pattern, r.value)
                        && forall p: nat :: i <= p < r.value ==> !OccursAt(text, pattern, p)
    decreases |text| - i
  {
    if OccursAt(text, pattern, i) then Some(i)
    else if i < |text| then FindFrom(text, pattern, i + 1)
    else None
  }

  /** What scanning finds: text to be copied, or one of the `n` placeholders. */
  datatype Piece = Literal(text: Bytes) | Mark(index: nat)

  /** The placeholder that starts at `start`, where the prefix stands. */
  function Parsed(p: Bytes, n: nat, text: Bytes, start: nat): (r: Option<(nat, nat)>)
    requires p != [] && OccursAt(text, p, start)
    ensures r.Some? ==> r.value.0 < n && start < r.value.1 <= |text|
  {
    var digits := start + |p|;
    var end := DigitsEnd(text, digits);
    if end < |text| && text[end] == 0 && digits < end then
      var index := Value(text[digits..end]);
      if 0 <= index < n && Placeholder(p, index) == text[start..end + 1] then Some((index, end + 1)) else None
    else None
  }

  /** A prefix that begins no placeholder is copied like any other text. */
  function Scan(p: Bytes, n: nat, text: Bytes): seq<Piece>
    requires p != []
    decreases |text|
  {
    match Find(text, p)
    case None => [Literal(text)]
    case Some(start) =>
      match Parsed(p, n, text, start)
      case Some((index, end)) => [Literal(text[..start]), Mark(index)] + Scan(p, n, text[end..])
      case None =>
        var after := start + |p|;
        [Literal(text[..start]), Literal(p)] + Scan(p, n, text[after..])
  }

  function Tokens(pieces: seq<Piece>): seq<Token> {
    if pieces == [] then []
    else (match pieces[0] case Literal(b) => Chars(b) case Mark(i) => [Ph(i)]) + Tokens(pieces[1..])
  }

  // ---------- The prefix stands only where a placeholder begins ----------

  lemma StartsWithZero(p: Bytes, i: nat)
    requires IsPrefix(p)
    ensures |Placeholder(p, i)| > 2 && Placeholder(p, i)[0] == 0 && Placeholder(p, i)[1] == NAME[0]
  {
    assert p[1] == p[1..16][0];
  }

  lemma CharacterAhead(p: Bytes, ts: seq<Token>)
    requires IsPrefix(p)
    requires Encode(p, ts) != [] && Encode(p, ts)[0] != 0
    ensures ts != [] && ts[0] == Ch(Encode(p, ts)[0]) && Encode(p, ts[1..]) == Encode(p, ts)[1..]
  {
    if ts[0].Ph? { StartsWithZero(p, ts[0].index); }
  }

  /** Bytes other than zero ahead are characters. */
  lemma {:induction false} CharsAhead(p: Bytes, ts: seq<Token>, e: Bytes, n: nat)
    requires IsPrefix(p)
    requires e == Encode(p, ts) && n <= |e| && forall j :: 0 <= j < n ==> e[j] != 0
    ensures n <= |ts| && (forall j :: 0 <= j < n ==> ts[j] == Ch(e[j])) && e[n..] == Encode(p, ts[n..])
  {
    if n > 0 {
      CharacterAhead(p, ts);
      CharsAhead(p, ts[1..], e[1..], n - 1);
      assert ts[n..] == ts[1..][n - 1..] && e[n..] == e[1..][n - 1..];
      assert forall j :: 0 < j < n ==> ts[j] == ts[1..][j - 1];
    }
  }

  lemma PlaceholderAhead(p: Bytes, ts: seq<Token>)
    requires IsPrefix(p)
    requires ts != [] && ts[0].Ph?
    ensures |Encode(p, ts)| >= 2 && Encode(p, ts)[1] == NAME[0]
  {
    StartsWithZero(p, ts[0].index);
  }

  /** A zero that is followed by a hexadecimal digit is a character too. */
  lemma ZeroAhead(p: Bytes, ts: seq<Token>)
    requires IsPrefix(p)
    requires |Encode(p, ts)| >= 2 && Encode(p, ts)[0] == 0 && IsHex(Encode(p, ts)[1])
    ensures ts != [] && ts[0] == Ch(0) && Encode(p, ts)[1..] == Encode(p, ts[1..])
  {
    if ts[0].Ph? { PlaceholderAhead(p, ts); }
  }

  /** The name in a prefix and the zero behind it can only be spelled by characters. */
  lemma NameAhead(p: Bytes, ts: seq<Token>, e: Bytes)
    requires IsPrefix(p) && e == Encode(p, ts) && |e| >= 17
    requires (forall j :: 0 <= j < 15 ==> e[j] != 0) && e[15] == 0 && IsHex(e[16])
    ensures 16 <= |ts| && (forall j :: 0 <= j < 16 ==> ts[j] == Ch(e[j])) && e[16..] == Encode(p, ts[16..])
  {
    CharsAhead(p, ts, e, 15);
    var ahead := ts[15..];
    ZeroAhead(p, ahead);
    assert e[15..][1..] == e[16..] && ahead[1..] == ts[16..] && ahead[0] == ts[15];
  }

  /** The inside of a prefix can only be spelled by characters. */
  lemma DigestAhead(p: Bytes, ts: seq<Token>, e: Bytes)
    requires IsPrefix(p) && e == Encode(p, ts) && |e| >= 48
    requires (forall j :: 0 <= j < 15 ==> e[j] != 0) && e[15] == 0 && forall j :: 16 <= j < 48 ==> IsHex(e[j])
    ensures 48 <= |ts| && forall j :: 0 <= j < 48 ==> ts[j] == Ch(e[j])
  {
    NameAhead(p, ts, e);
    var f := e[16..];
    CharsAhead(p, ts[16..], f, 32);
    forall j | 16 <= j < 48 ensures ts[j] == Ch(e[j]) {
      assert ts[16..][j - 16] == Ch(f[j - 16]);
    }
  }

  lemma PrefixBytes(p: Bytes)
    requires IsPrefix(p)
    ensures forall j :: 1 <= j < 16 ==> p[j] != 0
    ensures p[1] == NAME[0]
  {
    assert forall j :: 1 <= j < 16 ==> p[j] == p[1..16][j - 1];
  }

  /** A prefix that begins at a character is spelled by characters but for its last
      zero. */
  lemma PrefixAtCharacter(p: Bytes, ts: seq<Token>)
    requires IsPrefix(p) && ts != [] && ts[0].Ch? && p <= Encode(p, ts)
    ensures SpelledAt(Stem(p), ts, 0)
  {
    PrefixBytes(p);
    var e := Encode(p, ts)[1..];
    assert e == Encode(p, ts[1..]);
    assert forall j :: 0 <= j < 48 ==> e[j] == p[j + 1];
    DigestAhead(p, ts[1..], e);
    forall j | 0 <= j < 49 ensures ts[0 + j] == Ch(Stem(p)[j]) {
      if j > 0 { assert ts[1..][j - 1] == Ch(e[j - 1]); }
    }
  }

  lemma NoPrefixAmongCharacters(p: Bytes, ts: seq<Token>, k: nat, i: nat)
    requires IsPrefix(p) && Plain(p, ts) && i < k <= |ts| && forall j :: 0 <= j < k ==> ts[j].Ch?
    ensures !OccursAt(Encode(p, ts), p, i)
  {
    EncodeFrom(p, ts, i);
    if OccursAt(Encode(p, ts), p, i) {
      OccursAhead(Encode(p, ts), p, i);
      PrefixAtCharacter(p, ts[i..]);
      SpelledLater(Stem(p), ts, i);
    }
  }

  lemma {:induction false} EncodeFrom(p: Bytes, ts: seq<Token>, i: nat)
    requires i <= |ts| && forall j :: 0 <= j < i ==> ts[j].Ch?
    ensures i <= |Encode(p, ts)| && Encode(p, ts)[i..] == Encode(p, ts[i..])
  {
    if i == 0 {
      assert ts[0..] == ts;
    } else {
      EncodeFrom(p, ts[1..], i - 1);
      assert ts[1..][i - 1..] == ts[i..];
      assert Encode(p, ts)[1..] == Encode(p, ts[1..]);
      assert Encode(p, ts)[i..] == Encode(p, ts)[1..][i - 1..];
    }
  }

  lemma OccursAhead(text: Bytes, p: Bytes, i: nat)
    requires OccursAt(text, p, i)
    ensures p <= text[i..]
  {
    assert text[i..][..|p|] == text[i..i + |p|];
  }

  lemma SpelledLater(w: Bytes, ts: seq<Token>, i: nat)
    requires i <= |ts| && SpelledAt(w, ts[i..], 0)
    ensures SpelledAt(w, ts, i)
  {
    forall j | 0 <= j < |w| ensures ts[i + j] == Ch(w[j]) {
      assert ts[i..][0 + j] == Ch(w[j]);
    }
  }

  lemma {:induction false} EncodeCharacters(p: Bytes, ts: seq<Token>)
    requires forall j :: 0 <= j < |ts| ==> ts[j].Ch?
    ensures |Encode(p, ts)| == |ts| && Chars(Encode(p, ts)) == ts
  {
    if ts != [] {
      EncodeCharacters(p, ts[1..]);
      assert ts == [ts[0]] + ts[1..];
    }
  }

  // ---------- Scanning inverts printing ----------

  ghost predicate Below(ts: seq<Token>, n: nat) {
    forall k :: 0 <= k < |ts| && ts[k].Ph? ==> ts[k].index < n
  }

  lemma ParsedPlaceholder(p: Bytes, n: nat, before: Bytes, i: nat, after: Bytes)
    requires i < n && p != []
    ensures var text := before + Placeholder(p, i) + after;
            && OccursAt(text, p, |before|)
            && Parsed(p, n, text, |before|) == Some((i, |before| + |Placeholder(p, i)|))
  {
    var text := before + Placeholder(p, i) + after;
    var start := |before|;
    var digits := start + |p|;
    assert text[start..digits] == p;
    var end := digits + |Itoa(i)|;
    assert text[digits..end] == Itoa(i);
    forall k | digits <= k < end ensures IsDigit(text[k]) { assert text[k] == Itoa(i)[k - digits]; }
    assert text[end] == 0;
    DigitsEndAt(text, digits, end);
    ValueOfItoa(i);
    assert text[start..end + 1] == Placeholder(p, i);
  }

  /** The number of characters before the first placeholder. */
  function Leading(ts: seq<Token>): (k: nat)
    ensures k <= |ts| && (forall j :: 0 <= j < k ==> ts[j].Ch?) && (k < |ts| ==> ts[k].Ph?)
  {
    if ts == [] || ts[0].Ph? then 0 else 1 + Leading(ts[1..])
  }

  /** Scanning past the first placeholder. */
  lemma ScanStep(p: Bytes, n: nat, before: Bytes, i: nat, after: Bytes)
    requires i < n && p != []
    requires forall q: nat :: q < |before| ==> !OccursAt(before + Placeholder(p, i) + after, p, q)
    ensures Scan(p, n, before + Placeholder(p, i) + after) == [Literal(before), Mark(i)] + Scan(p, n, after)
  {
    var text := before + Placeholder(p, i) + after;
    ParsedPlaceholder(p, n, before, i, after);
    assert Find(text, p) == Some(|before|);
    assert text[..|before|] == before;
    assert text[|before| + |Placeholder(p, i)|..] == after;
  }

  lemma NoPrefixBefore(p: Bytes, ts: seq<Token>, k: nat)
    requires IsPrefix(p)
    requires Plain(p, ts) && k <= |ts| && forall j :: 0 <= j < k ==> ts[j].Ch?
    ensures forall q: nat :: q < k ==> !OccursAt(Encode(p, ts), p, q)
  {
    forall q: nat | q < k ensures !OccursAt(Encode(p, ts), p, q) {
      NoPrefixAmongCharacters(p, ts, k, q);
    }
  }

  lemma ScanCharacters(p: Bytes, n: nat, ts: seq<Token>)
    requires IsPrefix(p)
    requires Plain(p, ts) && forall j :: 0 <= j < |ts| ==> ts[j].Ch?
    ensures Scan(p, n, Encode(p, ts)) == [Literal(Encode(p, ts))]
    ensures Tokens([Literal(Encode(p, ts))]) == ts
  {
    EncodeCharacters(p, ts);
    NoPrefixBefore(p, ts, |ts|);
    assert Find(Encode(p, ts), p) == None;
    assert Tokens([Literal(Encode(p, ts))][1..]) == [];
  }

  lemma EncodeSplit(p: Bytes, ts: seq<Token>, k: nat)
    requires k < |ts| && ts[k].Ph?
    ensures Encode(p, ts) == Encode(p, ts[..k]) + Placeholder(p, ts[k].index) + Encode(p, ts[k + 1..])
  {
    EncodeAppend(p, ts[..k], ts[k..]);
    assert ts == ts[..k] + ts[k..];
    assert ts[k..][1..] == ts[k + 1..];
    Regroup(Encode(p, ts[..k]), Placeholder(p, ts[k].index), Encode(p, ts[k + 1..]));
  }

  /** Scanning printed text up to its first placeholder. */
  lemma ScanFirst(p: Bytes, n: nat, ts: seq<Token>, k: nat)
    requires IsPrefix(p)
    requires Plain(p, ts) && Below(ts, n) && k == Leading(ts) < |ts|
    ensures Scan(p, n, Encode(p, ts))
            == [Literal(Encode(p, ts[..k])), Mark(ts[k].index)] + Scan(p, n, Encode(p, ts[k + 1..]))
    ensures Chars(Encode(p, ts[..k])) == ts[..k]
  {
    EncodeSplit(p, ts, k);
    EncodeCharacters(p, ts[..k]);
    NoPrefixBefore(p, ts, k);
    ScanStep(p, n, Encode(p, ts[..k]), ts[k].index, Encode(p, ts[k + 1..]));
  }

  /** Whatever plain text surrounds the placeholders, scanning finds exactly them. */
  lemma {:induction false} ScanInvertsEncode(p: Bytes, n: nat, ts: seq<Token>)
    requires IsPrefix(p)
    requires Plain(p, ts) && Below(ts, n)
    ensures Tokens(Scan(p, n, Encode(p, ts))) == ts
    decreases |ts|
  {
    var k := Leading(ts);
    if k == |ts| {
      ScanCharacters(p, n, ts);
    } else {
      ScanFirst(p, n, ts, k);
      PlainRest(p, ts, k + 1);
      ScanInvertsEncode(p, n, ts[k + 1..]);
      TokensOfTwo(ts, k, Encode(p, ts[..k]), Scan(p, n, Encode(p, ts[k + 1..])));
    }
  }

  lemma TokensOfTwo(ts: seq<Token>, k: nat, b: Bytes, rest: seq<Piece>)
    requires k < |ts| && ts[k].Ph? && Chars(b) == ts[..k] && Tokens(rest) == ts[k + 1..]
    ensures Tokens([Literal(b), Mark(ts[k].index)] + rest) == ts
  {
    var all := [Literal(b), Mark(ts[k].index)] + rest;
    assert all[1..] == [Mark(ts[k].index)] + rest && all[1..][1..] == rest;
    assert ts == ts[..k] + [ts[k]] + ts[k + 1..];
  }

  function CharacterOf(t: Token): Bytes {
    match t
    case Ch(b) => [b]
    case Ph(_) => []
  }

  /** Only the characters of a text. */
  function Characters(ts: seq<Token>): Bytes {
    if ts == [] then [] else CharacterOf(ts[0]) + Characters(ts[1..])
  }

  lemma {:induction false} CharactersAppend(a: seq<Token>, b: seq<Token>)
    ensures Characters(a + b) == Characters(a) + Characters(b)
  {
    if a == [] {
      assert a + b == b;
    } else {
      assert (a + b)[1..] == a[1..] + b;
      CharactersAppend(a[1..], b);
      Regroup(CharacterOf(a[0]), Characters(a[1..]), Characters(b));
    }
  }

  lemma {:induction false} CharactersOf(b: Bytes)
    ensures Characters(Chars(b)) == b
  {
    if b != [] {
      assert Chars(b)[1..] == Chars(b[1..]);
      CharactersOf(b[1..]);
    }
  }

  /** What a run of characters spells occurs in the characters. */
  lemma SpelledOccurs(w: Bytes, ts: seq<Token>, k: nat)
    requires SpelledAt(w, ts, k)
    ensures OccursAt(Characters(ts), w, |Characters(ts[..k])|)
  {
    var n := k + |w|;
    assert ts[k..n] == Chars(w);
    assert ts == ts[..k] + (ts[k..n] + ts[n..]);
    CharactersAppend(ts[..k], ts[k..n] + ts[n..]);
    CharactersAppend(ts[k..n], ts[n..]);
    CharactersOf(w);
  }

  /** Wherever placeholders are put into a text without the stem, it stays plain. */
  lemma CharactersArePlain(p: Bytes, ts: seq<Token>)
    requires Find(Characters(ts), Stem(p)) == None
    ensures Plain(p, ts)
  {
    forall k: nat ensures !SpelledAt(Stem(p), ts, k) {
      if SpelledAt(Stem(p), ts, k) { SpelledOccurs(Stem(p), ts, k); }
    }
  }

  // ---------- Exactly which texts can be scanned back ----------

  ghost predicate ScansBack(p: Bytes, n: nat, ts: seq<Token>)
    requires p != []
  {
    Tokens(Scan(p, n, Encode(p, ts))) == ts
  }

  /** One placeholder, put at the k-th place of a text. */
  function With(b: Bytes, k: nat): seq<Token>
    requires k <= |b|
  {
    Chars(b[..k]) + [Ph(0)] + Chars(b[k..])
  }

  lemma EncodeOne(p: Bytes, i: nat)
    ensures Encode(p, [Ph(i)]) == Placeholder(p, i)
  {
    assert [Ph(i)][1..] == [];
  }

  lemma EncodeWith(p: Bytes, b: Bytes, k: nat)
    requires k <= |b|
    ensures Encode(p, With(b, k)) == b[..k] + Placeholder(p, 0) + b[k..]
  {
    var (x, y) := (Chars(b[..k]), Chars(b[k..]));
    EncodeAppend(p, x + [Ph(0)], y);
    EncodeAppend(p, x, [Ph(0)]);
    EncodeOne(p, 0);
    EncodeChars(p, b[..k]);
    EncodeChars(p, b[k..]);
  }

  lemma NoCharacter(i: nat)
    ensures Characters([Ph(i)]) == []
  {
    assert [Ph(i)][1..] == [];
  }

  lemma CharactersWith(b: Bytes, k: nat)
    requires k <= |b|
    ensures Characters(With(b, k)) == b
  {
    var (x, y) := (Chars(b[..k]), Chars(b[k..]));
    CharactersAppend(x + [Ph(0)], y);
    CharactersAppend(x, [Ph(0)]);
    NoCharacter(0);
    CharactersOf(b[..k]);
    CharactersOf(b[k..]);
    Rejoin(b, k);
  }

  lemma Rejoin(b: Bytes, k: nat)
    requires k <= |b|
    ensures b[..k] + [] + b[k..] == b
  {
  }

  lemma OccursBefore(b: Bytes, text: Bytes, p: Bytes, i: nat, q: nat)
    requires IsPrefix(p) && i + 49 <= |b| && i + 49 <= |text| && text[..i + 49] == b[..i + 49]
    requires q < i && OccursAt(text, p, q)
    ensures OccursAt(b, Stem(p), q)
  {
    assert text[q..q + 49] == text[..i + 49][q..q + 49];
    assert b[q..q + 49] == b[..i + 49][q..q + 49];
    assert text[q..q + 50][..49] == text[q..q + 49];
  }

  /** A placeholder put behind the first stem completes it to a prefix. */
  lemma StemSwallows(p: Bytes, b: Bytes, i: nat, text: Bytes)
    requires IsPrefix(p) && Find(b, Stem(p)) == Some(i) && |text| >= i + 51
    requires text[..i + 49] == b[..i + 49] && text[i + 49] == 0 && text[i + 50] == NAME[0]
    ensures Find(text, p) == Some(i) && Parsed(p, 1, text, i) == None
  {
    assert text[i..i + 50] == p by {
      assert text[i..i + 49] == text[..i + 49][i..];
      assert b[i..i + 49] == b[..i + 49][i..];
      assert text[i..i + 50] == text[i..i + 49] + [text[i + 49]];
      assert p == Stem(p) + [p[49]];
    }
    assert OccursAt(text, p, i);
    forall q: nat | q < i ensures !OccursAt(text, p, q) {
      if OccursAt(text, p, q) { OccursBefore(b, text, p, i, q); }
    }
  }

  lemma TokensOfText(a: Bytes, b: Bytes, rest: seq<Piece>)
    ensures Tokens([Literal(a), Literal(b)] + rest) == Chars(a) + Chars(b) + Tokens(rest)
  {
    var all := [Literal(a), Literal(b)] + rest;
    assert all[1..] == [Literal(b)] + rest && all[1..][1..] == rest;
  }

  /** A prefix that is no placeholder is scanned as its fifty characters. */
  lemma ScannedAsText(p: Bytes, text: Bytes, i: nat, ts: seq<Token>)
    requires IsPrefix(p) && Find(text, p) == Some(i) && Parsed(p, 1, text, i) == None
    requires i + 49 < |ts| && ts[i + 49].Ph?
    ensures Tokens(Scan(p, 1, text)) != ts
  {
    TokensOfText(text[..i], p, Scan(p, 1, text[i + 50..]));
    assert Tokens(Scan(p, 1, text))[i + 49] == Chars(p)[49];
  }

  lemma StemBreaks(p: Bytes, b: Bytes, i: nat)
    requires IsPrefix(p) && Find(b, Stem(p)) == Some(i)
    ensures !ScansBack(p, 1, With(b, i + 49))
  {
    EncodeWith(p, b, i + 49);
    StartsWithZero(p, 0);
    var (text, h) := (Encode(p, With(b, i + 49)), Placeholder(p, 0));
    assert text[..i + 49] == b[..i + 49];
    assert text[i + 49] == h[0] && text[i + 50] == h[1];
    StemSwallows(p, b, i, text);
    ScannedAsText(p, text, i, With(b, i + 49));
  }

  lemma WithoutStem(p: Bytes, n: nat, ts: seq<Token>)
    requires IsPrefix(p) && Below(ts, n) && Find(Characters(ts), Stem(p)) == None
    ensures ScansBack(p, n, ts)
  {
    CharactersArePlain(p, ts);
    ScanInvertsEncode(p, n, ts);
  }

  lemma WithStem(p: Bytes, b: Bytes) returns (k: nat)
    requires IsPrefix(p) && Find(b, Stem(p)) != None
    ensures k <= |b| && Characters(With(b, k)) == b && Below(With(b, k), 1) && !ScansBack(p, 1, With(b, k))
  {
    k := Find(b, Stem(p)).value + 49;
    CharactersWith(b, k);
    StemBreaks(p, b, k - 49);
  }

  /** A text can be scanned back wherever placeholders are put into it if and only if it
      does not contain the stem: the prefix without its last zero. */
  lemma ScansBackIff(p: Bytes, b: Bytes)
    requires IsPrefix(p)
    ensures (forall ts, n: nat :: Characters(ts) == b && Below(ts, n) ==> ScansBack(p, n, ts))
            <==> Find(b, Stem(p)) == None
  {
    if Find(b, Stem(p)) == None {
      forall ts, n: nat | Characters(ts) == b && Below(ts, n) ensures ScansBack(p, n, ts) {
        WithoutStem(p, n, ts);
      }
    } else {
      var k := WithStem(p, b);
    }
  }

  /** One placeholder is enough to tell. */
  lemma OnePlaceholderIff(p: Bytes, b: Bytes)
    requires IsPrefix(p)
    ensures (forall k: nat :: k <= |b| ==> ScansBack(p, 1, With(b, k))) <==> Find(b, Stem(p)) == None
  {
    if Find(b, Stem(p)) == None {
      forall k: nat | k <= |b| ensures ScansBack(p, 1, With(b, k)) {
        CharactersWith(b, k);
        WithoutStem(p, 1, With(b, k));
      }
    } else {
      var k := WithStem(p, b);
    }
  }

  /** That the whole prefix does not occur is not that condition: the stem itself passes
      this test, and swallows a placeholder behind it. */
  lemma PrefixAbsenceIsNotEnough(p: Bytes)
    requires IsPrefix(p)
    ensures Find(Stem(p), p) == None && !ScansBack(p, 1, With(Stem(p), |Stem(p)|))
  {
    assert OccursAt(Stem(p), Stem(p), 0);
    assert Find(Stem(p), Stem(p)) == Some(0);
    StemBreaks(p, Stem(p), 0);
  }
}
