/** Text as Go sees it, and its size inside a JSON string (section 7 of RFC 8259,
    with the extra escapes of Go's encoder for HTML). */
module BrokerJson {
  import opened Basics

  /** A Unicode scalar value. */
  type Rune = r: nat | r < 0xD800 || 0xE000 <= r < 0x110000

  type Text = seq<Rune>

  /** What decoding finds in a string: scalar values and bytes that are not part of any. */
  datatype Unit = Scalar(rune: Rune) | Stray(byte: Byte)

  const REPLACEMENT: Rune := 0xFFFD

  // ---------- UTF-8 ----------

  function RuneLen(r: Rune): nat {
    if r < 0x80 then 1 else if r < 0x800 then 2 else if r < 0x10000 then 3 else 4
  }

  function Utf8(r: Rune): (b: Bytes)
    ensures |b| == RuneLen(r)
  {
    if r < 0x80 then [r]
    else if r < 0x800 then [0xC0 + r / 0x40, 0x80 + r % 0x40]
    else if r < 0x10000 then [0xE0 + r / 0x1000, 0x80 + r / 0x40 % 0x40, 0x80 + r % 0x40]
    else [0xF0 + r / 0x40000, 0x80 + r / 0x1000 % 0x40, 0x80 + r / 0x40 % 0x40, 0x80 + r % 0x40]
  }

  function Encoded(text: Text): Bytes {
    if text == [] then [] else Encoded(text[..|text| - 1]) + Utf8(text[|text| - 1])
  }

  function AllScalars(text: Text): seq<Unit> {
    seq(|text|, i requires 0 <= i < |text| => Scalar(text[i]))
  }

  /** Each run of stray bytes becomes one replacement character. */
  function ToValid(raw: seq<Unit>): Text {
    if raw == [] then []
    else
      var (front, last) := (raw[..|raw| - 1], raw[|raw| - 1]);
      match last
      case Scalar(r) => ToValid(front) + [r]
      case Stray(_) =>
        if front != [] && front[|front| - 1].Stray? then ToValid(front) else ToValid(front) + [REPLACEMENT]
  }

  /** `at` says where in `t` the i-th unit went: each scalar value to itself, and a stray
      byte to a replacement character that it shares with the one before it. */
  ghost predicate Goes(raw: seq<Unit>, t: Text, at: seq<nat>, i: nat)
    requires i < |raw| == |at|
  {
    && at[i] < |t| && t[at[i]] == (match raw[i] case Scalar(r) => r case Stray(_) => 0xFFFD)
    && at[i] == (if i == 0 then 0
                 else if raw[i - 1].Stray? && raw[i].Stray? then at[i - 1] else at[i - 1] + 1)
  }

  ghost predicate GoesTo(raw: seq<Unit>, t: Text, at: seq<nat>) {
    && |at| == |raw| && (forall i :: 0 <= i < |raw| ==> Goes(raw, t, at, i))
    && |t| == if raw == [] then 0 else at[|raw| - 1] + 1
  }

  /** What repairing means: nothing but that is in the text. */
  ghost predicate IsRepaired(raw: seq<Unit>, t: Text) {
    exists at :: GoesTo(raw, t, at)
  }

  lemma {:induction false} RepairedAs(raw: seq<Unit>)
    ensures IsRepaired(raw, ToValid(raw))
  {
    if raw == [] {
      assert GoesTo(raw, ToValid(raw), []);
    } else {
      var (n, front) := (|raw| - 1, raw[..|raw| - 1]);
      RepairedAs(front);
      var at :| GoesTo(front, ToValid(front), at);
      var joins := front != [] && front[n - 1].Stray? && raw[n].Stray?;
      var more := at + [if front == [] then 0 else if joins then at[n - 1] else at[n - 1] + 1];
      forall i | 0 <= i < |raw| ensures Goes(raw, ToValid(raw), more, i) {
        if i < n { assert Goes(front, ToValid(front), at, i); }
        if joins { assert Goes(front, ToValid(front), at, n - 1); }
      }
      assert GoesTo(raw, ToValid(raw), more);
    }
  }

  /** There is one way to do it. */
  lemma RepairedUnique(raw: seq<Unit>, t: Text, u: Text)
    requires IsRepaired(raw, t) && IsRepaired(raw, u)
    ensures t == u
  {
    var at :| GoesTo(raw, t, at);
    var to :| GoesTo(raw, u, to);
    forall i | 0 <= i < |raw| ensures at[i] == to[i] { SamePlace(raw, t, u, at, to, i); }
    forall k | 0 <= k < |t| ensures t[k] == u[k] {
      Reached(raw, t, at, k);
      var i :| 0 <= i < |raw| && at[i] == k;
      assert Goes(raw, t, at, i) && Goes(raw, u, to, i);
    }
  }

  lemma {:induction false} SamePlace(raw: seq<Unit>, t: Text, u: Text, at: seq<nat>, to: seq<nat>, i: nat)
    requires GoesTo(raw, t, at) && GoesTo(raw, u, to) && i < |raw|
    ensures at[i] == to[i]
  {
    if i > 0 { SamePlace(raw, t, u, at, to, i - 1); }
    assert Goes(raw, t, at, i) && Goes(raw, u, to, i);
  }

  lemma {:induction false} ReachedUpTo(raw: seq<Unit>, t: Text, at: seq<nat>, n: nat, k: nat)
    requires GoesTo(raw, t, at) && n < |raw| && k <= at[n]
    ensures exists i :: 0 <= i <= n && at[i] == k
  {
    assert Goes(raw, t, at, n);
    if k < at[n] { ReachedUpTo(raw, t, at, n - 1, k); }
  }

  lemma Reached(raw: seq<Unit>, t: Text, at: seq<nat>, k: nat)
    requires GoesTo(raw, t, at) && k < |t|
    ensures exists i :: 0 <= i < |raw| && at[i] == k
  {
    ReachedUpTo(raw, t, at, |raw| - 1, k);
  }

  /** Around a scalar value the parts are repaired by themselves. */
  lemma {:induction false} RepairedAround(a: seq<Unit>, r: Rune, b: seq<Unit>)
    ensures ToValid(a + [Scalar(r)] + b) == ToValid(a) + [r] + ToValid(b)
    decreases |b|
  {
    var all := a + [Scalar(r)] + b;
    if b == [] {
      assert all == a + [Scalar(r)] && all[..|all| - 1] == a;
    } else {
      RepairedAround(a, r, b[..|b| - 1]);
      assert all[..|all| - 1] == a + [Scalar(r)] + b[..|b| - 1];
    }
  }

  ghost predicate AllStray(s: seq<Unit>) {
    forall i :: 0 <= i < |s| ==> s[i].Stray?
  }

  lemma {:induction false} StraysBehind(a: seq<Unit>, s: seq<Unit>)
    requires s != [] && AllStray(s) && (a != [] ==> a[|a| - 1].Scalar?)
    ensures ToValid(a + s) == ToValid(a) + [0xFFFD]
  {
    var all := a + s;
    assert all[..|all| - 1] == a + s[..|s| - 1];
    if |s| > 1 {
      StraysBehind(a, s[..|s| - 1]);
      assert all[|all| - 2] == s[|s| - 2];
    } else {
      assert a + s[..0] == a;
    }
  }

  /** A run of stray bytes between scalar values becomes one replacement character. */
  lemma {:induction false} StrayRunIsOne(a: seq<Unit>, s: seq<Unit>, b: seq<Unit>)
    requires s != [] && AllStray(s) && (a != [] ==> a[|a| - 1].Scalar?) && (b != [] ==> b[0].Scalar?)
    ensures ToValid(a + s + b) == ToValid(a) + [0xFFFD] + ToValid(b)
  {
    StraysBehind(a, s);
    if b == [] {
      assert a + s + b == a + s;
    } else {
      assert a + s + b == (a + s) + [b[0]] + b[1..] && [] + [b[0]] + b[1..] == b;
      RepairedAround(a + s, b[0].rune, b[1..]);
      RepairedAround([], b[0].rune, b[1..]);
    }
  }

  predicate IsValid(raw: seq<Unit>) {
    forall i :: 0 <= i < |raw| ==> raw[i].Scalar?
  }

  /** Normalizing changes nothing exactly when the string was valid. */
  lemma {:induction false} ValidStays(raw: seq<Unit>)
    ensures AllScalars(ToValid(raw)) == raw <==> IsValid(raw)
  {
    if IsValid(raw) {
      ValidUnchanged(raw);
    } else {
      assert forall i :: 0 <= i < |AllScalars(ToValid(raw))| ==> AllScalars(ToValid(raw))[i].Scalar?;
    }
  }

  lemma {:induction false} ValidUnchanged(raw: seq<Unit>)
    requires IsValid(raw)
    ensures AllScalars(ToValid(raw)) == raw
  {
    if raw != [] {
      ValidUnchanged(raw[..|raw| - 1]);
      assert raw == raw[..|raw| - 1] + [raw[|raw| - 1]];
    }
  }

  // ---------- Escapes ----------

  function Hex(d: nat): Byte
    requires d < 16
  {
    if d < 10 then 48 + d else 87 + d
  }

  function UnicodeEscape(r: Rune): (b: Bytes)
    requires r < 0x10000
    ensures |b| == 6
  {
    [92, 117, Hex(r / 0x1000), Hex(r / 0x100 % 0x10), Hex(r / 0x10 % 0x10), Hex(r % 0x10)]
  }

  /** The bytes the encoder writes for a character of a string. */
  function Escaped(r: Rune): Bytes {
    if r == 8 then [92, 98]
    else if r == 9 then [92, 116]
    else if r == 10 then [92, 110]
    else if r == 12 then [92, 102]
    else if r == 13 then [92, 114]
    else if r == 34 || r == 92 then [92, r]
    else if r < 0x20 || r == 38 || r == 60 || r == 62 || r == 0x2028 || r == 0x2029 then UnicodeEscape(r)
    else Utf8(r)
  }

  function EscapedText(text: Text): Bytes {
    if text == [] then [] else EscapedText(text[..|text| - 1]) + Escaped(text[|text| - 1])
  }

  function JsonRuneSize(r: Rune): nat {
    match r
    case 8 => 2
    case 12 => 2
    case 10 => 2
    case 13 => 2
    case 9 => 2
    case 34 => 2
    case 92 => 2
    case 60 => 6
    case 62 => 6
    case 38 => 6
    case 0x2028 => 6
    case 0x2029 => 6
    case _ => if r < 0x20 then 6 else RuneLen(r)
  }

  function ContentSize(text: Text): nat {
    if text == [] then 0 else ContentSize(text[..|text| - 1]) + JsonRuneSize(text[|text| - 1])
  }

  lemma RuneSizeIsExact(r: Rune)
    ensures |Escaped(r)| == JsonRuneSize(r) >= |Utf8(r)| > 0
    ensures forall i :: 0 <= i < |Escaped(r)| ==> Escaped(r)[i] >= 0x20
  {
  }

  /** The size arithmetic is that of the bytes written, of which there are at least
      as many as in the text itself, and none of which is a raw control character. */
  lemma {:induction false} SizesAreExact(text: Text)
    ensures |EscapedText(text)| == ContentSize(text) >= |Encoded(text)|
    ensures forall b :: b in EscapedText(text) ==> b >= 0x20
  {
    if text != [] {
      SizesAreExact(text[..|text| - 1]);
      RuneSizeIsExact(text[|text| - 1]);
    }
  }

  lemma {:induction false} SizeGrows(text: Text, i: nat, j: nat)
    requires i <= j <= |text|
    ensures ContentSize(text[..i]) <= ContentSize(text[..j])
    ensures i < j ==> ContentSize(text[..i]) < ContentSize(text[..j])
  {
    if i < j {
      assert text[..j][..j - 1] == text[..j - 1];
      SizeGrows(text, i, j - 1);
    }
  }

  lemma SizeNext(text: Text, i: nat)
    requires i < |text|
    ensures ContentSize(text[..i + 1]) == ContentSize(text[..i]) + JsonRuneSize(text[i])
    ensures Encoded(text[..i + 1]) == Encoded(text[..i]) + Utf8(text[i])
  {
    assert text[..i + 1][..i] == text[..i];
  }

  /** Stops as soon as the limit is passed. */
  method JsonEscapedContentSize(text: Text, limit: nat) returns (size: nat)
    ensures size == if ContentSize(text) > limit then limit + 1 else ContentSize(text)
  {
    size := 0;
    var i := 0;
    while i < |text|
      invariant i <= |text| && size == ContentSize(text[..i]) <= limit
    {
      SizeNext(text, i);
      size := size + JsonRuneSize(text[i]);
      i := i + 1;
      if size > limit {
        SizeGrows(text, i, |text|);
        assert text[..|text|] == text;
        return limit + 1;
      }
    }
    assert text[..i] == text;
  }

  /** `k` characters are the most that fit the budget. */
  ghost predicate LongestWithin(text: Text, budget: int, k: nat) {
    && k <= |text|
    && (k > 0 ==> ContentSize(text[..k]) <= budget)
    && forall j :: k < j <= |text| ==> ContentSize(text[..j]) > budget
  }

  /** The longest prefix within the budget.  `end` is where it is cut in the bytes of
      the text, always after a whole character. */
  method JsonPrefix(text: Text, budget: nat) returns (prefix: Text, used: nat, end: nat)
    ensures prefix <= text && LongestWithin(text, budget, |prefix|) && used == ContentSize(prefix) <= budget
    ensures end <= |Encoded(text)| && Encoded(text)[..end] == Encoded(prefix)
  {
    var i := 0;
    var offset := 0;
    used, end := 0, 0;
    assert text[..|text|] == text;
    while i < |text|
      invariant i <= |text| && offset == end == |Encoded(text[..i])|
      invariant used == ContentSize(text[..i]) <= budget
    {
      SizeNext(text, i);
      var cost := JsonRuneSize(text[i]);
      if used + cost > budget {
        forall j | i < j <= |text| ensures ContentSize(text[..j]) > budget { SizeGrows(text, i + 1, j); }
        break;
      }
      used := used + cost;
      end := offset + RuneLen(text[i]);
      offset := end;
      i := i + 1;
    }
    prefix := text[..i];
    EncodedPrefix(text, i);
  }

  lemma {:induction false} EncodedPrefix(text: Text, i: nat)
    requires i <= |text|
    ensures Encoded(text[..i]) <= Encoded(text)
    decreases |text|
  {
    if i < |text| {
      var front := text[..|text| - 1];
      EncodedPrefix(front, i);
      assert front[..i] == text[..i];
    } else {
      assert text[..i] == text;
    }
  }
}
