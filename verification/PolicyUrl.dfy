/** Finding a URL authority that a size limit cuts through, by regular
    expression and by hand, and the credentials that may lie across the limit. */
module PolicyUrl {
  import opened Basics

  predicate IsAlpha(b: Byte) {
    'a' as int <= b <= 'z' as int || 'A' as int <= b <= 'Z' as int
  }

  predicate IsWord(b: Byte) {
    IsAlpha(b) || IsDigit(b) || b == '_' as int
  }

  predicate IsSchemeChar(b: Byte) {
    IsAlpha(b) || IsDigit(b) || b == '+' as int || b == '.' as int || b == '-' as int
  }

  predicate IsTerminator(b: Byte) {
    b == '/' as int || b == '?' as int || b == '#' as int || b == ' ' as int || b == 9 || b == 13 || b == 10
  }

  /** The characters that end an authority: slash, question mark, hash, space, tab,
      carriage return and line feed. */
  lemma TerminatorsAre(b: Byte)
    ensures IsTerminator(b) <==> b in [47, 63, 35, 32, 9, 13, 10]
  {
  }

  /** One match of the scheme expression: a word boundary, a letter, 1 to 31 more
      scheme characters, and "://" from `end` on. */
  predicate SchemeAt(s: Bytes, start: nat, end: nat) {
    && 2 <= end - start <= 32
    && end + 3 <= |s|
    && IsAlpha(s[start])
    && (start == 0 || !IsWord(s[start - 1]))
    && (forall i :: start < i < end ==> IsSchemeChar(s[i]))
    && s[end] == ':' as int && s[end + 1] == '/' as int && s[end + 2] == '/' as int
  }

  /** The match whose authority starts at `a`. */
  predicate SchemeBefore(s: Bytes, start: nat, a: nat) {
    3 <= a && SchemeAt(s, start, a - 3)
  }

  predicate Unterminated(s: Bytes, from: nat, to: nat)
    requires to <= |s|
  {
    forall i :: from <= i < to ==> !IsTerminator(s[i])
  }

  /** An authority starts at `a` and reaches the limit without ending. */
  ghost predicate OpenAuthority(s: Bytes, limit: int, a: nat) {
    && 0 < limit <= |s|
    && a < limit
    && (exists start: nat :: SchemeBefore(s, start, a))
    && Unterminated(s, a, limit)
  }

  /** Two matches that overlap are one URL: they end at the same place. */
  lemma SameEnd(s: Bytes, start: nat, end: nat, start': nat, end': nat)
    requires SchemeAt(s, start, end) && SchemeAt(s, start', end') && start <= start' < end + 3
    ensures end == end'
  {
  }

  /** At most one authority reaches the limit: a later one begins with slashes,
      and those would have ended the earlier. */
  lemma {:induction false} OpenAuthorityUnique(s: Bytes, limit: int, a: nat, b: nat)
    requires OpenAuthority(s, limit, a) && OpenAuthority(s, limit, b)
    ensures a == b
  {
    if a < b {
      assert IsTerminator(s[b - 1]);
    } else if b < a {
      assert IsTerminator(s[a - 1]);
    }
  }

  ghost function Authority(s: Bytes, limit: int): (r: Option<nat>)
    ensures r.Some? ==> OpenAuthority(s, limit, r.value)
    ensures r.None? ==> forall a :: !OpenAuthority(s, limit, a)
  {
    if a: nat :| OpenAuthority(s, limit, a) then Some(a) else None
  }

  lemma AuthorityIs(s: Bytes, limit: int, a: nat)
    requires OpenAuthority(s, limit, a)
    ensures Authority(s, limit) == Some(a)
  {
    OpenAuthorityUnique(s, limit, a, Authority(s, limit).value);
  }

  /** Bytes from the limit on do not matter. */
  lemma AuthorityOfPrefix(s: Bytes, t: Bytes, limit: int)
    requires limit <= |s| && limit <= |t| && (0 < limit ==> s[..limit] == t[..limit])
    ensures Authority(s, limit) == Authority(t, limit)
  {
    forall a: nat ensures OpenAuthority(s, limit, a) <==> OpenAuthority(t, limit, a) {
      if 0 < limit && a < limit {
        assert forall i :: 0 <= i < limit ==> s[i] == s[..limit][i] == t[..limit][i] == t[i];
        forall start: nat ensures SchemeBefore(s, start, a) <==> SchemeBefore(t, start, a) { }
      }
    }
    if Authority(s, limit).Some? {
      AuthorityIs(t, limit, Authority(s, limit).value);
    }
  }

  // ---------- The regular expression ----------

  /** The expression engine: the leftmost match in a text.  A text has a word
      boundary at its start whatever it was cut from. */
  method FindScheme(text: Bytes) returns (found: bool, start: nat, after: nat)
    ensures found ==> 3 <= after && SchemeAt(text, start, after - 3)
    ensures found ==> forall x: nat, y: nat :: x < start ==> !SchemeAt(text, x, y)
    ensures !found ==> forall x: nat, y: nat :: !SchemeAt(text, x, y)
  {
    found, start, after := false, 0, 0;
    while start < |text|
      invariant start <= |text|
      invariant forall x: nat, y: nat :: x < start ==> !SchemeAt(text, x, y)
    {
      var end := start + 2;
      while end <= start + 32
        invariant start + 2 <= end <= start + 33
        invariant forall y: nat :: y < end ==> !SchemeAt(text, start, y)
      {
        if SchemeAt(text, start, end) {
          return true, start, end + 3;
        }
        end := end + 1;
      }
      start := start + 1;
    }
  }

  lemma SchemeInSlice(s: Bytes, from: nat, to: nat, x: nat, y: nat)
    requires from <= to <= |s| && (from == 0 || !IsWord(s[from - 1]))
    ensures SchemeAt(s[from..to], x, y) <==> from + y + 3 <= to && SchemeAt(s, from + x, from + y)
  {
    var t := s[from..to];
    assert forall i :: 0 <= i < |t| ==> t[i] == s[from + i];
    if from + y + 3 <= to && x < y {
      assert (forall i :: x < i < y ==> IsSchemeChar(t[i])) <==>
             (forall i :: from + x < i < from + y ==> IsSchemeChar(s[i])) by {
        assert forall i :: x < i < y ==> t[i] == s[from + i];
        assert forall i :: from + x < i < from + y ==> s[i] == t[i - from];
      }
    }
  }

  method UrlAuthorityAtBoundary(input: Bytes, publicBytes: int) returns (start: nat, ok: bool)
    ensures Authority(input, publicBytes) == if ok then Some(start) else None
  {
    start, ok := 0, false;
    if publicBytes <= 0 || publicBytes > |input| {
      return;
    }
    var searchFrom: nat := 0;
    while searchFrom < publicBytes
      invariant searchFrom <= publicBytes
      invariant searchFrom == 0 || input[searchFrom - 1] == '/' as int
      invariant forall x: nat, a: nat :: a < publicBytes && SchemeBefore(input, x, a) && x < searchFrom
                  ==> !Unterminated(input, a, publicBytes)
    {
      var found, at, after := FindScheme(input[searchFrom..publicBytes]);
      forall x: nat, y: nat
        ensures SchemeAt(input[searchFrom..publicBytes], x, y) <==>
                searchFrom + y + 3 <= publicBytes && SchemeAt(input, searchFrom + x, searchFrom + y)
      {
        SchemeInSlice(input, searchFrom, publicBytes, x, y);
      }
      if !found {
        forall x: nat, a: nat | searchFrom <= x && a < publicBytes ensures !SchemeBefore(input, x, a) {
          if 3 <= a && x <= a - 3 {
            assert !SchemeAt(input[searchFrom..publicBytes], x - searchFrom, a - 3 - searchFrom);
          }
        }
        return;
      }
      var authorityStart := searchFrom + after;
      assert SchemeBefore(input, searchFrom + at, authorityStart);
      if authorityStart < publicBytes {
        var terminated := false;
        var i := authorityStart;
        while i < publicBytes
          invariant authorityStart <= i <= publicBytes
          invariant Unterminated(input, authorityStart, i)
        {
          if IsTerminator(input[i]) {
            terminated := true;
            break;
          }
          i := i + 1;
        }
        if !terminated {
          AuthorityIs(input, publicBytes, authorityStart);
          return authorityStart, true;
        }
      }
      forall x: nat, a: nat | a < publicBytes && SchemeBefore(input, x, a) && x < authorityStart
        ensures !Unterminated(input, a, publicBytes)
      {
        if searchFrom <= x {
          assert SchemeAt(input[searchFrom..publicBytes], x - searchFrom, a - 3 - searchFrom);
          SameEnd(input, searchFrom + at, authorityStart - 3, x, a - 3);
        }
      }
      searchFrom := authorityStart;
    }
  }

  // ---------- The hand-written scan ----------

  method UrlAuthorityAtBoundaryBytes(input: Bytes, publicBytes: int) returns (start: nat, ok: bool)
    ensures Authority(input, publicBytes) == if ok then Some(start) else None
  {
    start, ok := 0, false;
    if publicBytes <= 0 || publicBytes > |input| {
      return;
    }
    var from := 0;
    while from < publicBytes
      invariant 0 <= from <= publicBytes
      invariant forall x: nat, a: nat :: x < from && a < publicBytes && SchemeBefore(input, x, a)
                  ==> !Unterminated(input, a, publicBytes)
    {
      var authority, found := AuthorityFrom(input, publicBytes, from);
      if found {
        AuthorityIs(input, publicBytes, authority);
        return authority, true;
      }
      from := from + 1;
    }
  }

  /** One turn of the scan: the authority of a scheme that begins at `from`. */
  method AuthorityFrom(input: Bytes, publicBytes: nat, from: nat) returns (authority: nat, found: bool)
    requires from < publicBytes <= |input|
    ensures found ==> SchemeBefore(input, from, authority) && OpenAuthority(input, publicBytes, authority)
    ensures !found ==> forall a: nat :: a < publicBytes && SchemeBefore(input, from, a)
                         ==> !Unterminated(input, a, publicBytes)
  {
    authority, found := 0, false;
    if !IsAlpha(input[from]) || (from > 0 && IsWord(input[from - 1])) {
      return;
    }
    var end := from + 1;
    while end < publicBytes && end - from < 32 && IsSchemeChar(input[end])
      invariant from < end <= publicBytes && end - from <= 32
      invariant forall i :: from < i < end ==> IsSchemeChar(input[i])
    {
      end := end + 1;
    }
    forall a: nat | a < publicBytes && SchemeBefore(input, from, a) ensures a - 3 == end { }
    if end - from < 2 || end + 2 >= |input|
       || input[end] != ':' as int || input[end + 1] != '/' as int || input[end + 2] != '/' as int {
      return;
    }
    assert SchemeBefore(input, from, end + 3);
    if end + 3 >= publicBytes {
      return;
    }
    var i := end + 3;
    while i < publicBytes
      invariant end + 3 <= i <= publicBytes
      invariant Unterminated(input, end + 3, i)
    {
      if IsTerminator(input[i]) {
        return;
      }
      i := i + 1;
    }
    return end + 3, true;
  }

  // ---------- Credentials across the limit ----------

  /** The first '@' of the authority lies at `i`, not before the limit, and a
      colon lies before it. */
  ghost predicate CrossesAt(s: Bytes, limit: int, a: nat, i: nat) {
    && limit <= i < |s| && a <= i
    && s[i] == '@' as int
    && (forall j :: a <= j < i ==> !IsTerminator(s[j]) && s[j] != '@' as int)
    && (exists j :: a <= j < i && s[j] == ':' as int)
  }

  ghost predicate CredentialAcross(s: Bytes, limit: int) {
    && Authority(s, limit).Some?
    && exists i: nat :: CrossesAt(s, limit, Authority(s, limit).value, i)
  }

  method UrlCredentialAfterBoundary(input: Bytes, publicBytes: int) returns (across: bool)
    ensures across <==> CredentialAcross(input, publicBytes)
  {
    var start, ok := UrlAuthorityAtBoundary(input, publicBytes);
    if !ok || publicBytes >= |input| {
      return false;
    }
    var colonSeen := false;
    var i := start;
    while i < |input|
      invariant start <= i <= |input|
      invariant forall j :: start <= j < i ==> !IsTerminator(input[j]) && input[j] != '@' as int
      invariant colonSeen <==> exists j :: start <= j < i && input[j] == ':' as int
    {
      if IsTerminator(input[i]) {
        return false;
      }
      if input[i] == ':' as int {
        colonSeen := true;
      } else if input[i] == '@' as int {
        assert colonSeen && publicBytes <= i ==> CrossesAt(input, publicBytes, start, i);
        return colonSeen && i >= publicBytes;
      }
      i := i + 1;
    }
    return false;
  }
}
