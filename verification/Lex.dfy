/** The order in which strings are sorted and digests are compared. */
module Lex {
  /** `a` comes strictly before `b` in lexicographic order. */
  predicate Less(a: string, b: string) {
    b != "" && (a == "" || a[0] < b[0] || (a[0] == b[0] && Less(a[1..], b[1..])))
  }

  /** At position `k` the two first differ, and there `a` ends or has the smaller character. */
  ghost predicate DifferAt(a: string, b: string, k: nat) {
    && k <= |a| && k < |b| && a[..k] == b[..k]
    && (k == |a| || a[k] < b[k])
  }

  lemma DifferLater(a: string, b: string, k: nat)
    requires a != "" && b != "" && a[0] == b[0]
    ensures DifferAt(a[1..], b[1..], k) <==> DifferAt(a, b, k + 1)
    ensures !DifferAt(a, b, 0)
  {
    if k <= |a| - 1 && k < |b| - 1 {
      assert a[..k + 1] == [a[0]] + a[1..][..k] && b[..k + 1] == [b[0]] + b[1..][..k];
    }
  }

  /** It is decided where the two first differ. */
  lemma {:induction false} LessExactly(a: string, b: string)
    ensures Less(a, b) <==> exists k: nat :: DifferAt(a, b, k)
  {
    if a != "" && b != "" && a[0] == b[0] {
      LessExactly(a[1..], b[1..]);
      if k: nat :| DifferAt(a[1..], b[1..], k) { DifferLater(a, b, k); }
      if k: nat :| DifferAt(a, b, k) { DifferLater(a, b, if k > 0 then k - 1 else 0); }
    } else {
      forall k: nat
        ensures DifferAt(a, b, k) ==> k == 0
      { if DifferAt(a, b, k) { SameStart(a, b, k); } }
      assert DifferAt(a, b, 0) <==> Less(a, b);
    }
  }

  lemma SameStart(a: string, b: string, k: nat)
    requires DifferAt(a, b, k)
    ensures k == 0 || (a != "" && b != "" && a[0] == b[0])
  {
    if k > 0 { assert a[..k][0] == a[0] && b[..k][0] == b[0]; }
  }

  lemma {:induction false} LessIrreflexive(a: string)
    ensures !Less(a, a)
  {
    if a != "" { LessIrreflexive(a[1..]); }
  }

  lemma {:induction false} LessTransitive(a: string, b: string, c: string)
    requires Less(a, b) && Less(b, c)
    ensures Less(a, c)
  {
    if a != "" && a[0] == b[0] && b[0] == c[0] { LessTransitive(a[1..], b[1..], c[1..]); }
  }

  lemma {:induction false} LessTotal(a: string, b: string)
    ensures a == b || Less(a, b) || Less(b, a)
  {
    if a != "" && b != "" && a[0] == b[0] {
      LessTotal(a[1..], b[1..]);
      assert a == [a[0]] + a[1..] && b == [b[0]] + b[1..];
    }
  }

  /** Pairs of strings, first component first. */
  predicate PairLess(a: (string, string), b: (string, string)) {
    Less(a.0, b.0) || (a.0 == b.0 && Less(a.1, b.1))
  }

  lemma PairLessOrder(a: (string, string), b: (string, string), c: (string, string))
    ensures !PairLess(a, a)
    ensures PairLess(a, b) && PairLess(b, c) ==> PairLess(a, c)
    ensures a == b || PairLess(a, b) || PairLess(b, a)
  {
    LessIrreflexive(a.0);
    LessIrreflexive(a.1);
    LessTotal(a.0, b.0);
    LessTotal(a.1, b.1);
    if Less(a.0, b.0) && Less(b.0, c.0) { LessTransitive(a.0, b.0, c.0); }
    if Less(a.1, b.1) && Less(b.1, c.1) { LessTransitive(a.1, b.1, c.1); }
  }

  // ---------------------------------------------------------------- sorting names

  predicate Ascending(xs: seq<string>) {
    forall i, j :: 0 <= i < j < |xs| ==> Less(xs[i], xs[j])
  }

  function Insert(x: string, xs: seq<string>): seq<string> {
    if xs == [] || !Less(xs[0], x) then [x] + xs else [xs[0]] + Insert(x, xs[1..])
  }

  function Sort(xs: seq<string>): seq<string> {
    if xs == [] then [] else Insert(xs[|xs| - 1], Sort(xs[..|xs| - 1]))
  }

  lemma {:induction false} InsertAscends(x: string, xs: seq<string>)
    requires Ascending(xs) && x !in xs
    ensures Ascending(Insert(x, xs))
    ensures forall y :: y in Insert(x, xs) <==> y == x || y in xs
  {
    if xs != [] && Less(xs[0], x) {
      assert xs == [xs[0]] + xs[1..];
      InsertAscends(x, xs[1..]);
      var rest := Insert(x, xs[1..]);
      forall j | 0 <= j < |rest|
        ensures Less(xs[0], rest[j])
      { assert rest[j] in rest; if rest[j] != x { var k :| 0 <= k < |xs[1..]| && xs[1..][k] == rest[j]; } }
    } else if xs != [] {
      LessTotal(x, xs[0]);
      forall j | 0 <= j < |xs|
        ensures Less(x, xs[j])
      { if j > 0 { LessTransitive(x, xs[0], xs[j]); } }
    }
  }

  /** Sorting distinct names gives the same names in ascending order. */
  lemma {:induction false} SortAscends(xs: seq<string>)
    requires forall i, j :: 0 <= i < j < |xs| ==> xs[i] != xs[j]
    ensures Ascending(Sort(xs))
    ensures forall y :: y in Sort(xs) <==> y in xs
  {
    if xs != [] {
      var n := |xs| - 1;
      SortAscends(xs[..n]);
      assert xs == xs[..n] + [xs[n]];
      InsertAscends(xs[n], Sort(xs[..n]));
    }
  }
}
