/** Reading a response back: what a JSON decoder finds in the bytes that were sent
    (sections 7 and 8 of RFC 8259, and RFC 3629 for the characters). */
module BrokerDecode {
  import opened Basics
  import opened BrokerJson
  import opened BrokerResponse
  import opened BrokerBatch

  // ---------- Characters ----------

  function HexValue(b: Byte): (v: Option<nat>)
    ensures v.Some? ==> v.value < 16
  {
    if 48 <= b <= 57 then Some(b - 48)
    else if 97 <= b <= 102 then Some(b - 87)
    else if 65 <= b <= 70 then Some(b - 55)
    else None
  }

  lemma HexReadsBack(d: nat)
    requires d < 16
    ensures HexValue(Hex(d)) == Some(d)
  {
  }

  predicate IsRune(r: nat) {
    r < 0xD800 || 0xE000 <= r < 0x110000
  }

  predicate Continues(b: Byte) {
    0x80 <= b < 0xC0
  }

  function Above(b: Byte, base: Byte): nat
    requires base <= b
  {
    b - base
  }

  /** A character written as its UTF-8 bytes, and how many these are. */
  function ReadUtf8(b: Bytes): (r: Option<(Rune, nat)>)
    ensures r.Some? ==> 0 < r.value.1 <= |b|
  {
    if |b| >= 1 && b[0] < 0x80 then Some((b[0], 1))
    else if |b| >= 2 && 0xC0 <= b[0] < 0xE0 && Continues(b[1]) then
      var v: nat := Above(b[0], 0xC0) * 0x40 + Above(b[1], 0x80);
      if v >= 0x80 && IsRune(v) then Some((v, 2)) else None
    else if |b| >= 3 && 0xE0 <= b[0] < 0xF0 && Continues(b[1]) && Continues(b[2]) then
      var v: nat := Above(b[0], 0xE0) * 0x1000 + Above(b[1], 0x80) * 0x40 + Above(b[2], 0x80);
      if v >= 0x800 && IsRune(v) then Some((v, 3)) else None
    else if |b| >= 4 && 0xF0 <= b[0] < 0xF8 && Continues(b[1]) && Continues(b[2]) && Continues(b[3]) then
      var v: nat := Above(b[0], 0xF0) * 0x40000 + Above(b[1], 0x80) * 0x1000 + Above(b[2], 0x80) * 0x40
                    + Above(b[3], 0x80);
      if v >= 0x10000 && IsRune(v) then Some((v, 4)) else None
    else None
  }

  lemma Utf8ReadsBack(r: Rune, rest: Bytes)
    ensures ReadUtf8(Utf8(r) + rest) == Some((r, RuneLen(r)))
  {
    var (u, b) := (Utf8(r), Utf8(r) + rest);
    assert forall i :: 0 <= i < |u| ==> b[i] == u[i];
    if r >= 0x10000 {
      FourDigits(r);
    } else if r >= 0x800 {
      ThreeDigits(r);
    }
  }

  lemma ThreeDigits(r: nat)
    ensures r / 0x1000 * 0x1000 + r / 0x40 % 0x40 * 0x40 + r % 0x40 == r
  {
    assert r / 0x1000 == r / 0x40 / 0x40;
  }

  lemma FourDigits(r: nat)
    ensures r / 0x40000 * 0x40000 + r / 0x1000 % 0x40 * 0x1000 + r / 0x40 % 0x40 * 0x40 + r % 0x40 == r
  {
    ThreeDigits(r);
    assert r / 0x40000 == r / 0x1000 / 0x40;
  }

  /** A character of a JSON string, as it stands or escaped. */
  function ReadCharacter(b: Bytes): (r: Option<(Rune, nat)>)
    ensures r.Some? ==> 0 < r.value.1 <= |b|
  {
    if |b| >= 2 && b[0] == 92 then ReadEscape(b)
    else if |b| == 0 || b[0] < 0x20 || b[0] == 34 || b[0] == 92 then None
    else ReadUtf8(b)
  }

  function ReadEscape(b: Bytes): (r: Option<(Rune, nat)>)
    requires |b| >= 2
    ensures r.Some? ==> 0 < r.value.1 <= |b|
  {
    var c := b[1];
    if c == 34 || c == 92 || c == 47 then Some((c, 2))
    else if c == 98 then Some((8, 2))
    else if c == 102 then Some((12, 2))
    else if c == 110 then Some((10, 2))
    else if c == 114 then Some((13, 2))
    else if c == 116 then Some((9, 2))
    else if c == 117 && |b| >= 6 then
      match (HexValue(b[2]), HexValue(b[3]), HexValue(b[4]), HexValue(b[5]))
      case (Some(k), Some(l), Some(m), Some(n)) =>
        var v := k * 0x1000 + l * 0x100 + m * 0x10 + n;
        if IsRune(v) then Some((v, 6)) else None
      case _ => None
    else None
  }

  lemma HexDigits(r: nat)
    ensures r / 0x1000 * 0x1000 + r / 0x100 % 0x10 * 0x100 + r / 0x10 % 0x10 * 0x10 + r % 0x10 == r
  {
    assert r / 0x100 == r / 0x10 / 0x10 && r / 0x1000 == r / 0x100 / 0x10;
  }

  lemma UnicodeReadsBack(r: Rune, rest: Bytes)
    requires r < 0x10000
    ensures ReadCharacter(UnicodeEscape(r) + rest) == Some((r, 6))
  {
    var (u, b) := (UnicodeEscape(r), UnicodeEscape(r) + rest);
    assert forall i :: 0 <= i < 6 ==> b[i] == u[i];
    HexDigits(r);
    HexReadsBack(r / 0x1000);
    HexReadsBack(r / 0x100 % 0x10);
    HexReadsBack(r / 0x10 % 0x10);
    HexReadsBack(r % 0x10);
  }

  predicate IsUnicodeEscaped(r: Rune) {
    && r != 8 && r != 9 && r != 10 && r != 12 && r != 13
    && (r < 0x20 || r == 38 || r == 60 || r == 62 || r == 0x2028 || r == 0x2029)
  }

  /** Every character is read back as itself, whatever follows it. */
  lemma CharacterReadsBack(r: Rune, rest: Bytes)
    ensures ReadCharacter(Escaped(r) + rest) == Some((r, |Escaped(r)|)) && Escaped(r)[0] != 34
  {
    var (u, b) := (Escaped(r), Escaped(r) + rest);
    RuneSizeIsExact(r);
    assert forall i :: 0 <= i < |u| ==> b[i] == u[i];
    if IsUnicodeEscaped(r) {
      UnicodeReadsBack(r, rest);
    } else if |u| != 2 || u[0] != 92 {
      Utf8ReadsBack(r, rest);
    }
  }

  // ---------- Strings and fields ----------

  /** How a reader takes one character. */
  type CharacterReader = Bytes -> Option<(Rune, nat)>

  ghost predicate Advances(read: CharacterReader) {
    forall b :: read(b).Some? ==> 0 < read(b).value.1 <= |b|
  }

  /** What stands before the closing quote, and how many bytes that is with it. */
  ghost function ReadContent(read: CharacterReader, b: Bytes): (r: Option<(Text, nat)>)
    requires Advances(read)
    ensures r.Some? ==> r.value.1 <= |b|
    decreases |b|
  {
    if b == [] then None
    else if b[0] == 34 then Some(([], 1))
    else
      match read(b)
      case None => None
      case Some((c, n)) =>
        match ReadContent(read, b[n..])
        case None => None
        case Some((t, m)) => Some(([c] + t, n + m))
  }

  /** How a writer puts one character. */
  type CharacterWriter = Rune -> Bytes

  function Spelled(write: CharacterWriter, text: Text): Bytes {
    if text == [] then [] else Spelled(write, text[..|text| - 1]) + write(text[|text| - 1])
  }

  lemma {:induction false} SpelledEscaped(text: Text)
    ensures Spelled(Escaped, text) == EscapedText(text)
  {
    if text != [] { SpelledEscaped(text[..|text| - 1]); }
  }

  /** The reader takes each character as the writer puts it. */
  ghost predicate Agree(read: CharacterReader, write: CharacterWriter) {
    Advances(read) && forall c: Rune, more: Bytes :: Takes(read, c, write(c), write(c) + more, more)
  }

  ghost predicate Takes(read: CharacterReader, c: Rune, put: Bytes, b: Bytes, more: Bytes) {
    b != [] && b[0] != 34 && |put| <= |b| && b[|put|..] == more && read(b) == Some((c, |put|))
  }

  lemma CharacterTaken(c: Rune, more: Bytes)
    ensures Takes(ReadCharacter, c, Escaped(c), Escaped(c) + more, more)
  {
    CharacterReadsBack(c, more);
    RuneSizeIsExact(c);
    assert (Escaped(c) + more)[0] == Escaped(c)[0];
  }

  lemma EscapesAgree()
    ensures Agree(ReadCharacter, Escaped)
  {
    forall c: Rune, more: Bytes ensures Takes(ReadCharacter, c, Escaped(c), Escaped(c) + more, more) {
      CharacterTaken(c, more);
    }
  }

  /** What is read with a text in front of it that takes `n` bytes. */
  function Prepended(text: Text, n: nat, r: Option<(Text, nat)>): Option<(Text, nat)> {
    match r
    case None => None
    case Some((t, m)) => Some((text + t, n + m))
  }

  lemma PrependedTwice(a: Text, n: nat, b: Text, m: nat, r: Option<(Text, nat)>)
    ensures Prepended(a, n, Prepended(b, m, r)) == Prepended(a + b, n + m, r)
  {
    if r.Some? { Associates(a, b, r.value.0); }
  }

  lemma OneThrough(read: CharacterReader, write: CharacterWriter, c: Rune, more: Bytes)
    requires Agree(read, write)
    ensures ReadContent(read, write(c) + more) == Prepended([c], |write(c)|, ReadContent(read, more))
  {
    assert Takes(read, c, write(c), write(c) + more, more);
  }

  lemma NoneThrough(read: CharacterReader, more: Bytes)
    requires Advances(read)
    ensures ReadContent(read, [] + more) == Prepended([], 0, ReadContent(read, more))
  {
    assert [] + more == more;
    if ReadContent(read, more).Some? { assert [] + ReadContent(read, more).value.0 == ReadContent(read, more).value.0; }
  }

  /** Reading goes through a text to what follows it. */
  lemma {:induction false} ReadsThrough(read: CharacterReader, write: CharacterWriter, text: Text, more: Bytes)
    requires Agree(read, write)
    ensures ReadContent(read, Spelled(write, text) + more)
            == Prepended(text, |Spelled(write, text)|, ReadContent(read, more))
    decreases |text|
  {
    if text == [] {
      NoneThrough(read, more);
    } else {
      var (front, c) := (text[..|text| - 1], text[|text| - 1]);
      OneThrough(read, write, c, more);
      ReadsThrough(read, write, front, write(c) + more);
      Associates(Spelled(write, front), write(c), more);
      PrependedTwice(front, |Spelled(write, front)|, [c], |write(c)|, ReadContent(read, more));
      assert front + [c] == text;
    }
  }

  /** Any text is read back as it was, whatever follows its closing quote. */
  lemma {:induction false} ContentReadsBack(text: Text, rest: Bytes)
    ensures Advances(ReadCharacter)
    ensures ReadContent(ReadCharacter, EscapedText(text) + [34] + rest) == Some((text, |EscapedText(text)| + 1))
  {
    EscapesAgree();
    SpelledEscaped(text);
    assert ReadContent(ReadCharacter, [34] + rest) == Some(([], 1));
    ReadsThrough(ReadCharacter, Escaped, text, [34] + rest);
    Associates(EscapedText(text), [34], rest);
    assert text + [] == text;
  }

  /** A string field with that name, if it comes next, and what follows it. */
  ghost function ReadField(name: Bytes, b: Bytes): Option<(Text, Bytes)> {
    if !(name <= b) then Some(([], b))
    else if |b| == |name| || b[|name|] != 34 then None
    else
      assert Advances(ReadCharacter);
      match ReadContent(ReadCharacter, b[|name| + 1..])
      case None => None
      case Some((t, n)) => Some((t, b[|name| + 1 + n..]))
  }

  lemma FieldReadsBack(name: Bytes, text: Text, rest: Bytes)
    requires text == [] ==> !(name <= rest)
    ensures ReadField(name, StringField(name, text) + rest) == Some((text, rest))
  {
    if text == [] {
      assert StringField(name, text) + rest == rest;
    } else {
      ContentReadsBack(text, rest);
      QuotedParts(name, EscapedText(text), rest);
    }
  }

  lemma QuotedParts(name: Bytes, content: Bytes, rest: Bytes)
    ensures var b := name + [34] + content + [34] + rest;
            && name <= b && b[|name|] == 34 && b[|name| + 1..] == content + [34] + rest
            && b[|name| + 1 + (|content| + 1)..] == rest
  {
    var inner := content + [34] + rest;
    assert name + [34] + content + [34] + rest == name + ([34] + inner);
    assert inner == (content + [34]) + rest;
  }

  function Ascii(s: string): Bytes
    requires forall i :: 0 <= i < |s| ==> s[i] as int < 128
  {
    seq(|s|, i requires 0 <= i < |s| => s[i] as int)
  }

  lemma FieldNames()
    ensures STDOUT_FIELD == Ascii(",\"stdout\":") && STDERR_FIELD == Ascii(",\"stderr\":")
    ensures TRUNCATED_FIELD == Ascii(",\"truncated\":") && TRUE == Ascii("true") && FALSE == Ascii("false")
  {
  }

  /** A batch response lists its results under their name, each as in a response of its
      own, with commas between them. */
  lemma BatchLayout(e: Envelope, rs: seq<TextResult>, r: TextResult)
    ensures EncodedBatch(e, [r]) == e.before + Ascii(",\"results\":[") + EncodedResult(r) + Ascii("]") + e.after
    ensures rs != [] ==>
              Joined(EncodedResults(rs + [r])) == Joined(EncodedResults(rs)) + Ascii(",") + EncodedResult(r)
  {
    assert RESULTS_FIELD == Ascii(",\"results\":[") && [93] == Ascii("]") && [44] == Ascii(",");
    assert EncodedResults([r]) == [EncodedResult(r)];
    JoinedOne(EncodedResult(r));
    Associates(e.before, RESULTS_FIELD, EncodedResult(r));
    Associates(e.before, RESULTS_FIELD + EncodedResult(r), [93]);
    assert EncodedResults(rs + [r]) == EncodedResults(rs) + [EncodedResult(r)];
    JoinedLast(EncodedResults(rs), EncodedResult(r));
  }

  /** What follows the output in a response. */
  function Remainder(e: Envelope, r: TextResult): Bytes {
    r.middle + Ascii(",\"truncated\":") + (if r.truncated then Ascii("true") else Ascii("false")) + r.rest + e.after
  }

  lemma StderrIsNoStdout(text: Text, rest: Bytes)
    requires !(STDOUT_FIELD <= rest)
    ensures !(STDOUT_FIELD <= StringField(STDERR_FIELD, text) + rest)
  {
    var b := StringField(STDERR_FIELD, text) + rest;
    if text == [] {
      assert b == rest;
    } else {
      assert b[6] == STDERR_FIELD[6] != STDOUT_FIELD[6];
    }
  }

  lemma FourBehind(u: Bytes, m: Bytes, t: Bytes, f: Bytes, r: Bytes)
    ensures u + m + t + f + r == u + (m + t + f + r)
  {
    Associates(u, m, t);
    Associates(u, m + t, f);
    Associates(u, m + t + f, r);
  }

  lemma ResponseParts(e: Envelope, r: TextResult)
    ensures EncodedResponse(e, r)
            == (e.before + r.status)
               + (StringField(STDOUT_FIELD, r.stdout) + (StringField(STDERR_FIELD, r.stderr) + Remainder(e, r)))
  {
    FieldNames();
    var (x, y) := (StringField(STDOUT_FIELD, r.stdout), StringField(STDERR_FIELD, r.stderr));
    var mark := if r.truncated then TRUE else FALSE;
    var tail := r.middle + TRUNCATED_FIELD + mark + r.rest;
    FourBehind(r.status + x + y, r.middle, TRUNCATED_FIELD, mark, r.rest);
    Associates(e.before, r.status + x + y + tail, e.after);
    Associates(r.status + x + y, tail, e.after);
    Associates(r.status + x, y, tail + e.after);
    Associates(r.status, x, y + (tail + e.after));
    Associates(e.before, r.status, x + (y + (tail + e.after)));
    Associates(e.before, r.status + x + y + tail, e.after);
  }

  lemma BehindFront(front: Bytes, more: Bytes)
    ensures front <= front + more && (front + more)[|front|..] == more
  {
  }

  /** A response read back, from behind its status on: the outputs are those of the
      result, and the mark says whether it was truncated.  The fields that follow the
      outputs have other names. */
  lemma ResponseReadsBack(e: Envelope, r: TextResult)
    requires !(Ascii(",\"stdout\":") <= Remainder(e, r)) && !(Ascii(",\"stderr\":") <= Remainder(e, r))
    ensures var b := EncodedResponse(e, r);
            && e.before + r.status <= b
            && exists rest ::
                 && ReadField(Ascii(",\"stdout\":"), b[|e.before| + |r.status|..]) == Some((r.stdout, rest))
                 && ReadField(Ascii(",\"stderr\":"), rest) == Some((r.stderr, Remainder(e, r)))
  {
    FieldNames();
    var rest := StringField(STDERR_FIELD, r.stderr) + Remainder(e, r);
    ResponseParts(e, r);
    BehindFront(e.before + r.status, StringField(STDOUT_FIELD, r.stdout) + rest);
    StderrIsNoStdout(r.stderr, Remainder(e, r));
    FieldReadsBack(STDOUT_FIELD, r.stdout, rest);
    FieldReadsBack(STDERR_FIELD, r.stderr, Remainder(e, r));
  }
}
