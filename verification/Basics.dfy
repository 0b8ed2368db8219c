/** Bytes, and values that may be missing. */
module Basics {

  datatype Option<+T> = None | Some(value: T)

  type Byte = b: int | 0 <= b < 256

  type Bytes = seq<Byte>

  const NEWLINE: Byte := 10

  predicate IsDigit(b: Byte) {
    '0' as int <= b <= '9' as int
  }

  // ---------- Sequences ----------

  lemma Associates<T>(a: seq<T>, b: seq<T>, c: seq<T>)
    ensures a + b + c == a + (b + c)
  {
  }

  lemma TakeThenSlice<T>(s: seq<T>, i: nat, n: nat)
    requires i <= n <= |s|
    ensures s[..n][..i] == s[..i]
    ensures s[..n][i..] == s[i..][..n - i] == s[i..n]
  {
  }

  lemma SplitInThree<T>(s: seq<T>, i: nat, x: T)
    requires i < |s|
    ensures s == s[..i] + [s[i]] + s[i + 1..]
    ensures s[i := x] == s[..i] + [x] + s[i + 1..]
    ensures s[i := x][..i] == s[..i] && s[i := x][i..] == [x] + s[i + 1..]
  {
  }

  lemma SplitAround<T>(s: seq<T>, i: nat, h: nat)
    requires i < h <= |s|
    ensures s[..h] == s[..i] + [s[i]] + s[i + 1..h]
    ensures s[i + 1..] == s[i + 1..h] + s[h..]
  {
  }

  lemma CutInMiddle<T>(a: seq<T>, b: seq<T>, c: seq<T>, d: seq<T>)
    requires c != []
    ensures a + (b + c + d) == (a + b) + c + d
    ensures (a + (b + c + d))[..|a| + |b| + |c| - 1] == (a + b) + c[..|c| - 1]
  {
  }
}
