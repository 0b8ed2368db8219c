/** Log lines, the bytes of a log file, and what is left of a file once a torn
    last line is dropped. */
module AuditLines {
  import opened Basics

  /** What the encoder produces: one newline, at the end. */
  predicate IsLine(l: Bytes) {
    && |l| > 0
    && l[|l| - 1] == NEWLINE
    && NEWLINE !in l[..|l| - 1]
  }

  predicate AreLines(ls: seq<Bytes>) {
    forall l :: l in ls ==> IsLine(l)
  }

  function Flatten(ls: seq<Bytes>): Bytes {
    if ls == [] then [] else Flatten(ls[..|ls| - 1]) + ls[|ls| - 1]
  }

  /** The length of a file without its torn last line: just after the last
      newline, or zero when there is none. */
  function KeptLength(c: Bytes): (n: nat)
    ensures n <= |c|
    ensures n > 0 ==> c[n - 1] == NEWLINE
    ensures forall i :: n <= i < |c| ==> c[i] != NEWLINE
  {
    if c == [] then 0
    else if c[|c| - 1] == NEWLINE then |c|
    else KeptLength(c[..|c| - 1])
  }

  function Repaired(c: Bytes): Bytes {
    c[..KeptLength(c)]
  }

  /** The two facts above determine the length. */
  lemma KeptLengthUnique(c: Bytes, n: nat)
    requires n <= |c| && (n > 0 ==> c[n - 1] == NEWLINE)
    requires forall i :: n <= i < |c| ==> c[i] != NEWLINE
    ensures n == KeptLength(c)
  {
  }

  lemma FlattenEndsLine(ls: seq<Bytes>)
    requires AreLines(ls)
    ensures Flatten(ls) == [] <==> ls == []
    ensures ls != [] ==> Flatten(ls)[|Flatten(ls)| - 1] == NEWLINE
  {
    if ls != [] {
      assert ls[|ls| - 1] in ls;
    }
  }

  lemma FlattenAppend(ls: seq<Bytes>, l: Bytes)
    ensures Flatten(ls + [l]) == Flatten(ls) + l
  {
    assert (ls + [l])[..|ls|] == ls;
  }

  /** A tail without a newline is what gets dropped. */
  lemma TailDropped(whole: Bytes, tail: Bytes)
    requires whole == [] || whole[|whole| - 1] == NEWLINE
    requires forall i :: 0 <= i < |tail| ==> tail[i] != NEWLINE
    ensures Repaired(whole + tail) == whole
  {
    KeptLengthUnique(whole + tail, |whole|);
  }

  /** Dropping a torn tail recovers exactly the whole lines: a line that was cut
      short leaves no trace, a whole one is kept. */
  lemma {:induction false} TornLineDropped(ls: seq<Bytes>, l: Bytes, k: nat)
    requires AreLines(ls) && IsLine(l) && k <= |l|
    ensures Repaired(Flatten(ls) + l[..k]) == Flatten(if k == |l| then ls + [l] else ls)
  {
    if k == |l| {
      FlattenAppend(ls, l);
      assert l[..k] == l;
      assert forall m :: m in ls + [l] ==> m in ls || m == l;
      WholeLinesKept(ls + [l]);
    } else {
      FlattenEndsLine(ls);
      forall i | 0 <= i < k ensures l[..k][i] != NEWLINE {
        assert l[..|l| - 1][i] == l[i];
      }
      TailDropped(Flatten(ls), l[..k]);
    }
  }

  lemma WholeLinesKept(ls: seq<Bytes>)
    requires AreLines(ls)
    ensures Repaired(Flatten(ls)) == Flatten(ls)
  {
    FlattenEndsLine(ls);
  }

  lemma RepairedTwice(c: Bytes)
    ensures Repaired(Repaired(c)) == Repaired(c)
  {
    var r := Repaired(c);
    KeptLengthUnique(r, |r|);
  }
}
