/** Keeping the smallest redaction counters of an event, whatever the order in
    which the map yields them. */
module AuditSelection {
  import opened Basics

  const MAX_REDACTION_COUNTS: nat := 32

  /** The byte-wise order of strings. */
  predicate Less(a: Bytes, b: Bytes) {
    if b == [] then false
    else if a == [] then true
    else if a[0] != b[0] then a[0] < b[0]
    else Less(a[1..], b[1..])
  }

  lemma LessTransitive(a: Bytes, b: Bytes, c: Bytes)
    requires Less(a, b) && Less(b, c)
    ensures Less(a, c)
  {
    if a != [] && a[0] == b[0] && b[0] == c[0] {
      LessTransitive(a[1..], b[1..], c[1..]);
    }
  }

  lemma LessIrreflexive(a: Bytes)
    ensures !Less(a, a)
  {
    if a != [] { LessIrreflexive(a[1..]); }
  }

  lemma LessTotal(a: Bytes, b: Bytes)
    ensures Less(a, b) || a == b || Less(b, a)
  {
    if a != [] && b != [] && a[0] == b[0] {
      LessTotal(a[1..], b[1..]);
      assert a == [a[0]] + a[1..] && b == [b[0]] + b[1..];
    }
  }

  /** The first byte that differs decides, and otherwise the length. */
  ghost predicate Precedes(a: Bytes, b: Bytes) {
    || (a < b)
    || exists i :: 0 <= i < |a| && i < |b| && a[..i] == b[..i] && a[i] < b[i]
  }

  lemma {:induction false} PrecedesBehind(x: Byte, a: Bytes, b: Bytes)
    ensures Precedes([x] + a, [x] + b) <==> Precedes(a, b)
  {
    var (c, d) := ([x] + a, [x] + b);
    if i :| 0 <= i < |a| && i < |b| && a[..i] == b[..i] && a[i] < b[i] {
      assert c[..i + 1] == [x] + a[..i] && d[..i + 1] == [x] + b[..i] && c[i + 1] < d[i + 1];
    }
    if i :| 0 <= i < |c| && i < |d| && c[..i] == d[..i] && c[i] < d[i] {
      assert a[..i - 1] == c[..i][1..] && b[..i - 1] == d[..i][1..] && a[i - 1] < b[i - 1];
    }
    if a < b {
      assert c == d[..|c|];
    }
    if c < d {
      assert a == c[1..] && c == d[..|c|];
      assert a == b[..|a|];
    }
  }

  /** The order is that of bytes. */
  lemma {:induction false} LessIsByteOrder(a: Bytes, b: Bytes)
    ensures Less(a, b) <==> Precedes(a, b)
  {
    if a != [] && b != [] {
      if a[0] == b[0] {
        LessIsByteOrder(a[1..], b[1..]);
        PrecedesBehind(a[0], a[1..], b[1..]);
        assert a == [a[0]] + a[1..] && b == [b[0]] + b[1..];
      } else {
        assert a[..0] == b[..0];
        forall i | 0 < i < |a| && i < |b| ensures a[..i] != b[..i] { assert a[..i][0] != b[..i][0]; }
      }
    }
  }

  ghost predicate Increasing(s: seq<Bytes>) {
    forall i, j :: 0 <= i < j < |s| ==> Less(s[i], s[j])
  }

  /** The smallest keys, at most 32 of them, in order. */
  ghost predicate IsSelection(s: seq<Bytes>, keys: set<Bytes>) {
    && Increasing(s)
    && |s| == (if |keys| < MAX_REDACTION_COUNTS then |keys| else MAX_REDACTION_COUNTS)
    && (forall k :: k in s ==> k in keys)
    && (forall x, y :: x in keys && x !in s && y in s ==> Less(y, x))
  }

  lemma IncreasingSize(s: seq<Bytes>)
    requires Increasing(s)
    ensures |set x | x in s| == |s|
  {
    if s != [] {
      var front, last := s[..|s| - 1], s[|s| - 1];
      IncreasingSize(front);
      LessIrreflexive(last);
      assert last !in front;
      assert (set x | x in s) == (set x | x in front) + {last} by {
        assert s == front + [last];
      }
    }
  }

  lemma SameLast(a: seq<Bytes>, b: seq<Bytes>)
    requires a != [] && b != [] && Increasing(a) && Increasing(b) && forall x :: x in a <==> x in b
    ensures a[|a| - 1] == b[|b| - 1]
  {
    var x, y := a[|a| - 1], b[|b| - 1];
    assert x in b && y in a;
    LessIrreflexive(x);
    if x != y {
      var i :| 0 <= i < |b| && b[i] == x;
      var j :| 0 <= j < |a| && a[j] == y;
      assert Less(x, y) && Less(y, x);
      LessTransitive(x, y, x);
      assert false;
    }
  }

  lemma IncreasingUnique(a: seq<Bytes>, b: seq<Bytes>)
    requires |a| == |b| && Increasing(a) && Increasing(b) && forall x :: x in a <==> x in b
    ensures a == b
  {
    if a != [] {
      var x, y := a[|a| - 1], b[|b| - 1];
      SameLast(a, b);
      var c, d := a[..|a| - 1], b[..|b| - 1];
      LastIsOut(a);
      LastIsOut(b);
      forall z ensures z in c <==> z in d {
        assert a == c + [x] && b == d + [x];
        assert z in c ==> z in a;
        assert z in d ==> z in b;
      }
      IncreasingUnique(c, d);
    }
  }

  lemma LastIsOut(a: seq<Bytes>)
    requires Increasing(a) && a != []
    ensures a[|a| - 1] !in a[..|a| - 1]
  {
    LessIrreflexive(a[|a| - 1]);
  }

  /** The selection does not depend on the order the keys came in. */
  lemma {:induction false} SelectionUnique(a: seq<Bytes>, b: seq<Bytes>, keys: set<Bytes>)
    requires IsSelection(a, keys) && IsSelection(b, keys)
    ensures a == b
  {
    SelectionWithin(a, b, keys);
    SelectionWithin(b, a, keys);
    IncreasingUnique(a, b);
  }

  lemma SelectionWithin(a: seq<Bytes>, b: seq<Bytes>, keys: set<Bytes>)
    requires IsSelection(a, keys) && IsSelection(b, keys)
    ensures forall x :: x in a ==> x in b
  {
    var sa, sb := set x | x in a, set x | x in b;
    IncreasingSize(a);
    IncreasingSize(b);
    if x :| x in a && x !in b {
      if sb <= sa {
        SubsetSize(sb, sa - {x});
        assert false;
      }
      var y :| y in sb && y !in sa;
      assert Less(y, x) && Less(x, y);
      LessTransitive(x, y, x);
      LessIrreflexive(x);
      assert false;
    }
  }

  /** The final map: shortened keys, the later of two equal ones winning. */
  function Shortened(selected: seq<Bytes>, counts: map<Bytes, int>, shorten: Bytes -> Bytes): map<Bytes, int>
    requires forall k :: k in selected ==> k in counts
  {
    if selected == [] then map[]
    else
      var k := selected[|selected| - 1];
      var rest := Shortened(selected[..|selected| - 1], counts, shorten);
      if shorten(k) != [] then rest[shorten(k) := counts[k]] else rest
  }

  /** Each shortened key has the count of the last key that is shortened to it. */
  ghost predicate IsShortened(m: map<Bytes, int>, selected: seq<Bytes>, counts: map<Bytes, int>,
                              shorten: Bytes -> Bytes)
  {
    && (forall x :: x in m <==> x != [] && Reached(selected, shorten, x))
    && forall i :: 0 <= i < |selected| && LastOf(selected, shorten, i) ==> Counts(m, selected[i], counts, shorten)
  }

  ghost predicate Reached(selected: seq<Bytes>, shorten: Bytes -> Bytes, x: Bytes) {
    exists i :: 0 <= i < |selected| && shorten(selected[i]) == x
  }

  ghost predicate Counts(m: map<Bytes, int>, key: Bytes, counts: map<Bytes, int>, shorten: Bytes -> Bytes) {
    key in counts && shorten(key) in m && m[shorten(key)] == counts[key]
  }

  ghost predicate LastOf(selected: seq<Bytes>, shorten: Bytes -> Bytes, i: nat)
    requires i < |selected|
  {
    shorten(selected[i]) != [] && forall j :: i < j < |selected| ==> shorten(selected[j]) != shorten(selected[i])
  }

  lemma ReachedMore(selected: seq<Bytes>, key: Bytes, shorten: Bytes -> Bytes, x: Bytes)
    ensures Reached(selected + [key], shorten, x) <==> Reached(selected, shorten, x) || shorten(key) == x
  {
    var more := selected + [key];
    if i :| 0 <= i < |selected| && shorten(selected[i]) == x { assert more[i] == selected[i]; }
    if shorten(key) == x { assert more[|selected|] == key; }
  }

  lemma CountsMore(m: map<Bytes, int>, selected: seq<Bytes>, key: Bytes, counts: map<Bytes, int>,
                   shorten: Bytes -> Bytes, i: nat)
    requires IsShortened(m, selected, counts, shorten) && key in counts && i <= |selected|
    requires LastOf(selected + [key], shorten, i)
    ensures Counts(if shorten(key) != [] then m[shorten(key) := counts[key]] else m, (selected + [key])[i], counts,
                   shorten)
  {
    var more := selected + [key];
    if i < |selected| {
      assert forall j :: 0 <= j < |selected| ==> more[j] == selected[j];
      assert more[|selected|] == key && LastOf(selected, shorten, i);
      assert Counts(m, selected[i], counts, shorten);
    }
  }

  lemma ShortenedNext(m: map<Bytes, int>, selected: seq<Bytes>, key: Bytes, counts: map<Bytes, int>,
                      shorten: Bytes -> Bytes, next: map<Bytes, int>)
    requires IsShortened(m, selected, counts, shorten) && key in counts
    requires next == if shorten(key) != [] then m[shorten(key) := counts[key]] else m
    ensures IsShortened(next, selected + [key], counts, shorten)
  {
    forall x ensures Reached(selected + [key], shorten, x) <==> Reached(selected, shorten, x) || shorten(key) == x {
      ReachedMore(selected, key, shorten, x);
    }
    forall i | 0 <= i < |selected + [key]| && LastOf(selected + [key], shorten, i)
      ensures Counts(next, (selected + [key])[i], counts, shorten)
    {
      CountsMore(m, selected, key, counts, shorten, i);
    }
  }

  lemma {:induction false} ShortenedMeans(selected: seq<Bytes>, counts: map<Bytes, int>, shorten: Bytes -> Bytes)
    requires forall k :: k in selected ==> k in counts
    ensures IsShortened(Shortened(selected, counts, shorten), selected, counts, shorten)
  {
    if selected != [] {
      var (front, key) := (selected[..|selected| - 1], selected[|selected| - 1]);
      ShortenedMeans(front, counts, shorten);
      assert selected == front + [key] && key in counts;
      ShortenedNext(Shortened(front, counts, shorten), front, key, counts, shorten,
                    Shortened(selected, counts, shorten));
    }
  }

  /** Binary search for the first key that is not below `key`. */
  method Search(selected: seq<Bytes>, key: Bytes) returns (position: nat)
    requires Increasing(selected)
    ensures position <= |selected|
    ensures forall i :: 0 <= i < position ==> Less(selected[i], key)
    ensures forall i :: position <= i < |selected| ==> !Less(selected[i], key)
  {
    var low, high := 0, |selected|;
    while low < high
      invariant 0 <= low <= high <= |selected|
      invariant forall i :: 0 <= i < low ==> Less(selected[i], key)
      invariant forall i :: high <= i < |selected| ==> !Less(selected[i], key)
    {
      var middle := (low + high) / 2;
      if !Less(selected[middle], key) {
        forall i | middle < i < |selected| ensures !Less(selected[i], key) {
          if Less(selected[i], key) { LessTransitive(selected[middle], selected[i], key); }
        }
        high := middle;
      } else {
        forall i | 0 <= i < middle ensures Less(selected[i], key) {
          LessTransitive(selected[i], selected[middle], key);
        }
        low := middle + 1;
      }
    }
    position := low;
  }

  /** The keys below `key` come first, those above it after. */
  ghost predicate Placed(s: seq<Bytes>, key: Bytes, p: nat) {
    && p <= |s|
    && (forall i :: 0 <= i < p ==> Less(s[i], key))
    && (forall i :: p <= i < |s| ==> Less(key, s[i]))
  }

  /** The selection after a key went in before the last one, which falls out. */
  function Replacing(s: seq<Bytes>, key: Bytes, p: nat): seq<Bytes>
    requires p < |s|
  {
    s[..p] + [key] + s[p..|s| - 1]
  }

  lemma ReplacingHas(s: seq<Bytes>, key: Bytes, p: nat)
    requires p < |s|
    ensures forall k :: k in Replacing(s, key, p) ==> k == key || k in s
    ensures forall k :: k in s ==> k == s[|s| - 1] || k in Replacing(s, key, p)
  {
    var (t, last) := (Replacing(s, key, p), s[|s| - 1]);
    forall k | k in s ensures k == last || k in t {
      var i :| 0 <= i < |s| && s[i] == k;
      if i < |s| - 1 { assert t[if i < p then i else i + 1] == k; }
    }
  }

  lemma ReplacingIncreasing(s: seq<Bytes>, key: Bytes, p: nat)
    requires Increasing(s) && Placed(s, key, p) && p < |s|
    ensures Increasing(Replacing(s, key, p))
  {
  }

  /** Whatever is left out is above everything that is kept. */
  lemma ReplacingSmallest(s: seq<Bytes>, key: Bytes, p: nat, x: Bytes, j: nat)
    requires Increasing(s) && Placed(s, key, p) && p < |s|
    requires (x != s[|s| - 1] ==> forall i :: 0 <= i < |s| ==> Less(s[i], x)) && j < |s|
    ensures Less(Replacing(s, key, p)[j], x)
  {
    var last := |s| - 1;
    if j == p && x != s[last] {
      LessTransitive(key, s[last], x);
    }
  }

  lemma InsertedBefore(s: seq<Bytes>, key: Bytes, p: nat, keys: set<Bytes>)
    requires IsSelection(s, keys) && key !in keys && Placed(s, key, p)
    requires |s| == MAX_REDACTION_COUNTS && p < |s|
    ensures IsSelection(s[..p] + [key] + s[p..|s| - 1], keys + {key})
  {
    var t := Replacing(s, key, p);
    ReplacingHas(s, key, p);
    ReplacingIncreasing(s, key, p);
    forall x, j | x in keys + {key} && x !in t && 0 <= j < |t| ensures Less(t[j], x) {
      assert t[p] == key;
      ReplacingSmallest(s, key, p, x, j);
    }
    assert |keys + {key}| == |keys| + 1;
  }

  lemma InsertedIncreasing(s: seq<Bytes>, key: Bytes, p: nat)
    requires Increasing(s) && Placed(s, key, p)
    ensures Increasing(s[..p] + [key] + s[p..])
    ensures forall k :: k in s[..p] + [key] + s[p..] <==> k == key || k in s
  {
    assert s == s[..p] + s[p..];
  }

  lemma InsertedMore(s: seq<Bytes>, key: Bytes, p: nat, keys: set<Bytes>)
    requires IsSelection(s, keys) && key !in keys && Placed(s, key, p)
    requires |s| < MAX_REDACTION_COUNTS
    ensures IsSelection(s[..p] + [key] + s[p..], keys + {key})
  {
    InsertedIncreasing(s, key, p);
    forall x | x in keys ensures x in s { SelectsAll(s, keys, x); }
    assert |keys + {key}| == |keys| + 1;
  }

  lemma Skipped(s: seq<Bytes>, key: Bytes, keys: set<Bytes>)
    requires IsSelection(s, keys) && key !in keys && Placed(s, key, |s|)
    requires |s| == MAX_REDACTION_COUNTS
    ensures IsSelection(s, keys + {key})
  {
    assert |keys + {key}| == |keys| + 1;
  }

  lemma PlacedStrictly(s: seq<Bytes>, key: Bytes, p: nat)
    requires p <= |s| && key !in s
    requires forall i :: 0 <= i < p ==> Less(s[i], key)
    requires forall i :: p <= i < |s| ==> !Less(s[i], key)
    ensures Placed(s, key, p)
  {
    forall i | p <= i < |s| ensures Less(key, s[i]) {
      LessTotal(key, s[i]);
    }
  }

  lemma SelectsAll(s: seq<Bytes>, keys: set<Bytes>, x: Bytes)
    requires IsSelection(s, keys) && |s| < MAX_REDACTION_COUNTS && x in keys
    ensures x in s
  {
    IncreasingSize(s);
    var selected := set k | k in s;
    if x !in s {
      assert selected <= keys - {x};
      SubsetSize(selected, keys - {x});
    }
  }

  lemma SubsetSize(a: set<Bytes>, b: set<Bytes>)
    requires a <= b
    ensures |a| <= |b|
  {
    assert |b| == |a| + |b - a| by { assert b == a + (b - a); }
  }

  /** One turn of the insertion loop. */
  method Insert(selected: seq<Bytes>, key: Bytes, ghost seen: set<Bytes>) returns (next: seq<Bytes>)
    requires IsSelection(selected, seen) && key !in seen
    ensures IsSelection(next, seen + {key})
  {
    var position := Search(selected, key);
    PlacedStrictly(selected, key, position);
    if |selected| == MAX_REDACTION_COUNTS && position == |selected| {
      Skipped(selected, key, seen);
      return selected;
    }
    next := selected;
    if |selected| < MAX_REDACTION_COUNTS {
      InsertedMore(selected, key, position, seen);
      next := next + [[]];
      assert next[position..|next| - 1] == selected[position..] && next[..position] == selected[..position];
    } else {
      InsertedBefore(selected, key, position, seen);
    }
    if position < |next| {
      next := next[..position] + [key] + next[position..|next| - 1];
    }
  }

  method Shorten(selected: seq<Bytes>, counts: map<Bytes, int>, shorten: Bytes -> Bytes)
      returns (result: map<Bytes, int>)
    requires forall k :: k in selected ==> k in counts
    ensures result == Shortened(selected, counts, shorten)
  {
    result := map[];
    var index := 0;
    while index < |selected|
      invariant index <= |selected|
      invariant result == Shortened(selected[..index], counts, shorten)
    {
      assert selected[..index + 1][..index] == selected[..index];
      var bounded := shorten(selected[index]);
      if bounded != [] {
        result := result[bounded := counts[selected[index]]];
      }
      index := index + 1;
    }
    assert selected[..index] == selected;
  }

  ghost predicate Covers(seen: set<Bytes>, s: seq<Bytes>) {
    forall k :: k in seen <==> k in s
  }

  lemma CoversStep(seen: set<Bytes>, order: seq<Bytes>, index: nat)
    requires index < |order| && Covers(seen, order[..index])
    requires forall i, j :: 0 <= i < j < |order| ==> order[i] != order[j]
    ensures order[index] !in seen && Covers(seen + {order[index]}, order[..index + 1])
  {
    assert order[..index + 1] == order[..index] + [order[index]];
  }

  /** `order` is the order in which the map happens to yield its keys; the result
      is that of the 32 smallest keys in any case. */
  method BoundedRedactions(counts: map<Bytes, int>, order: seq<Bytes>, shorten: Bytes -> Bytes)
      returns (result: map<Bytes, int>, selected: seq<Bytes>)
    requires forall i, j :: 0 <= i < j < |order| ==> order[i] != order[j]
    requires forall k :: k in order <==> k in counts
    ensures IsSelection(selected, counts.Keys) && |selected| <= 32
    ensures forall k :: k in selected ==> k in counts
    ensures result == Shortened(selected, counts, shorten) && IsShortened(result, selected, counts, shorten)
  {
    selected := [];
    var index := 0;
    ghost var seen: set<Bytes> := {};
    while index < |order|
      invariant index <= |order|
      invariant Covers(seen, order[..index])
      invariant IsSelection(selected, seen)
    {
      CoversStep(seen, order, index);
      selected := Insert(selected, order[index], seen);
      seen := seen + {order[index]};
      index := index + 1;
    }
    assert order[..index] == order;
    assert seen == counts.Keys;
    result := Shorten(selected, counts, shorten);
    ShortenedMeans(selected, counts, shorten);
  }
}
