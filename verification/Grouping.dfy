/** Cutting a long text into chunks, and packing results into groups that fit a budget. */
module Grouping {
  import opened Basics

  function Concat<T>(groups: seq<seq<T>>): seq<T> {
    if groups == [] then [] else Concat(groups[..|groups| - 1]) + groups[|groups| - 1]
  }

  lemma ConcatSnoc<T>(groups: seq<seq<T>>, g: seq<T>)
    ensures Concat(groups + [g]) == Concat(groups) + g
  {
    assert (groups + [g])[..|groups|] == groups;
  }

  lemma {:induction false} ConcatAppend<T>(a: seq<seq<T>>, b: seq<seq<T>>)
    ensures Concat(a + b) == Concat(a) + Concat(b)
  {
    if b == [] {
      assert a + b == a && Concat(a) + [] == Concat(a);
    } else {
      var k := |b| - 1;
      assert (a + b)[..|a + b| - 1] == a + b[..k];
      ConcatAppend(a, b[..k]);
      assert (Concat(a) + Concat(b[..k])) + b[k] == Concat(a) + (Concat(b[..k]) + b[k]);
    }
  }

  // ---------------------------------------------------------------- rounding up

  function CeilDiv(n: nat, k: nat): nat
    requires k >= 1
  {
    (n + k - 1) / k
  }

  lemma ProductOrder(m: int, n: int, k: nat)
    requires m <= n
    ensures m * k <= n * k
  {}

  /** The quotient, rounded up, is the least number of groups of `k` that hold `n`. */
  lemma CeilMeaning(n: nat, k: nat, q: nat)
    requires k >= 1
    ensures CeilDiv(n, k) <= q <==> n <= q * k
  {
    var d := CeilDiv(n, k);
    assert n + k - 1 == d * k + (n + k - 1) % k;
    if d <= q { ProductOrder(d, q, k); } else { ProductOrder(q + 1, d, k); }
  }

  lemma CeilOfMore(n: nat, k: nat)
    requires k >= 1
    ensures CeilDiv(n + k, k) == CeilDiv(n, k) + 1
  {
    var d := CeilDiv(n, k);
    CeilMeaning(n, k, d);
    CeilMeaning(n + k, k, d + 1);
    if d > 0 { CeilMeaning(n, k, d - 1); }
    CeilMeaning(n + k, k, d);
  }

  // ---------------------------------------------------------------- chunks

  /** Pieces of `size` elements, the last one possibly shorter. */
  function Chunks<T>(s: seq<T>, size: nat): seq<seq<T>> {
    if s == [] || size == 0 then [] else
      if |s| <= size then [s] else [s[..size]] + Chunks(s[size..], size)
  }

  lemma ConcatOne<T>(x: seq<T>)
    ensures Concat([x]) == x
  {
    ConcatSnoc([], x);
    assert [] + [x] == [x] && Concat<T>([]) + x == x;
  }

  lemma ConcatFront<T>(x: seq<T>, rest: seq<seq<T>>)
    ensures Concat([x] + rest) == x + Concat(rest)
  {
    ConcatAppend([x], rest);
    ConcatOne(x);
  }

  /** No piece is empty or longer than `size`, and all but the last are full. */
  predicate FullButLast<T>(chunks: seq<seq<T>>, size: nat) {
    && (forall i :: 0 <= i < |chunks| ==> 1 <= |chunks[i]| <= size)
    && (forall i :: 0 <= i < |chunks| - 1 ==> |chunks[i]| == size)
  }

  lemma FullInFront<T>(x: seq<T>, rest: seq<seq<T>>, size: nat)
    requires FullButLast(rest, size) && |x| == size > 0
    ensures FullButLast([x] + rest, size)
  {}

  /** Chunking loses nothing and fills every chunk but the last. */
  lemma {:induction false} ChunksPartition<T>(s: seq<T>, size: nat)
    requires size > 0
    ensures Concat(Chunks(s, size)) == s && FullButLast(Chunks(s, size), size)
    decreases |s|
  {
    if s == [] {
    } else if |s| <= size {
      ConcatOne(s);
    } else {
      var rest := Chunks(s[size..], size);
      ChunksPartition(s[size..], size);
      ConcatFront(s[..size], rest);
      FullInFront(s[..size], rest, size);
      TakeAndDrop(s, size);
    }
  }

  /** It makes no more chunks than the length calls for. */
  lemma {:induction false} ChunksCount<T>(s: seq<T>, size: nat)
    requires size > 0
    ensures |Chunks(s, size)| == CeilDiv(|s|, size)
    decreases |s|
  {
    if s == [] {
      CeilMeaning(0, size, 0);
    } else if |s| <= size {
      CeilMeaning(|s|, size, 1);
      CeilMeaning(|s|, size, 0);
    } else {
      ChunksCount(s[size..], size);
      CeilOfMore(|s| - size, size);
    }
  }

  // ---------------------------------------------------------------- greedy packing

  function Sum<T>(w: T -> nat, xs: seq<T>): nat {
    if xs == [] then 0 else Sum(w, xs[..|xs| - 1]) + w(xs[|xs| - 1])
  }

  lemma SumSnoc<T>(w: T -> nat, xs: seq<T>, x: T)
    ensures Sum(w, xs + [x]) == Sum(w, xs) + w(x)
  {
    assert (xs + [x])[..|xs|] == xs;
  }

  /** A group is non-empty and fits the budget, unless it is one element that alone does not. */
  predicate Admissible<T>(w: T -> nat, budget: nat, g: seq<T>) {
    |g| == 1 || (|g| > 1 && Sum(w, g) <= budget)
  }

  predicate AllAdmissible<T>(w: T -> nat, budget: nat, groups: seq<seq<T>>) {
    forall i :: 0 <= i < |groups| ==> Admissible(w, budget, groups[i])
  }

  /** A contiguous admissible grouping of `xs`. */
  ghost predicate IsGrouping<T>(w: T -> nat, budget: nat, xs: seq<T>, groups: seq<seq<T>>) {
    Concat(groups) == xs && AllAdmissible(w, budget, groups)
  }

  /** The state of the packing loop: finished groups and the one being filled. */
  datatype Packing<T> = Packing(closed: seq<seq<T>>, open: seq<T>)

  function Step<T>(w: T -> nat, budget: nat, p: Packing<T>, x: T): Packing<T> {
    if p.open != [] && Sum(w, p.open) + w(x) > budget then Packing(p.closed + [p.open], [x])
    else Packing(p.closed, p.open + [x])
  }

  function Pack<T>(w: T -> nat, budget: nat, xs: seq<T>): Packing<T> {
    if xs == [] then Packing([], []) else Step(w, budget, Pack(w, budget, xs[..|xs| - 1]), xs[|xs| - 1])
  }

  function Greedy<T>(w: T -> nat, budget: nat, xs: seq<T>): seq<seq<T>> {
    var p := Pack(w, budget, xs);
    if p.open == [] then p.closed else p.closed + [p.open]
  }

  lemma PackNext<T>(w: T -> nat, budget: nat, xs: seq<T>, i: nat)
    requires i < |xs|
    ensures Pack(w, budget, xs[..i + 1]) == Step(w, budget, Pack(w, budget, xs[..i]), xs[i])
  {
    assert xs[..i + 1][..i] == xs[..i];
  }

  /** The packing loop. */
  method GroupBy<T>(w: T -> nat, budget: nat, xs: seq<T>) returns (groups: seq<seq<T>>)
    ensures groups == Greedy(w, budget, xs)
    ensures IsGrouping(w, budget, xs, groups)
  {
    groups := [];
    var current, size := [], 0;
    for i := 0 to |xs|
      invariant Pack(w, budget, xs[..i]) == Packing(groups, current)
      invariant size == Sum(w, current)
    {
      PackNext(w, budget, xs, i);
      var l := w(xs[i]);
      if current != [] && size + l > budget {
        groups := groups + [current];
        current, size := [], 0;
      }
      SumSnoc(w, current, xs[i]);
      size := size + l;
      current := current + [xs[i]];
    }
    assert xs[..|xs|] == xs;
    if current != [] {
      groups := groups + [current];
    }
    GreedyPartitions(w, budget, xs);
  }

  ghost predicate Packs<T>(w: T -> nat, budget: nat, xs: seq<T>, p: Packing<T>) {
    && Concat(p.closed) + p.open == xs
    && AllAdmissible(w, budget, p.closed)
    && (xs == [] <==> p.open == [])
    && (xs != [] ==> Admissible(w, budget, p.open))
  }

  lemma StepPacks<T>(w: T -> nat, budget: nat, xs: seq<T>, p: Packing<T>, x: T)
    requires Packs(w, budget, xs, p)
    ensures Packs(w, budget, xs + [x], Step(w, budget, p, x))
  {
    SumSnoc(w, p.open, x);
    if p.open != [] && Sum(w, p.open) + w(x) > budget {
      ConcatSnoc(p.closed, p.open);
    } else {
      Associative(Concat(p.closed), p.open, [x]);
    }
  }

  lemma {:induction false} PackPartitions<T>(w: T -> nat, budget: nat, xs: seq<T>)
    ensures Packs(w, budget, xs, Pack(w, budget, xs))
  {
    if xs == [] {
      assert Concat<T>([]) + [] == [];
    } else {
      var n := |xs| - 1;
      PackPartitions(w, budget, xs[..n]);
      StepPacks(w, budget, xs[..n], Pack(w, budget, xs[..n]), xs[n]);
      assert xs == xs[..n] + [xs[n]];
    }
  }

  /** The groups, read in order, are the elements, and every group is admissible. */
  lemma GreedyPartitions<T>(w: T -> nat, budget: nat, xs: seq<T>)
    ensures IsGrouping(w, budget, xs, Greedy(w, budget, xs))
  {
    PackPartitions(w, budget, xs);
    var p := Pack(w, budget, xs);
    ConcatSnoc(p.closed, p.open);
    assert p.open == [] ==> Concat(p.closed) + p.open == Concat(p.closed);
  }

  /** Of two endings of the same sequence, the longer one weighs at least as much. */
  lemma {:induction false} LongerEndingIsHeavier<T>(w: T -> nat, a: seq<T>, g: seq<T>, b: seq<T>, o: seq<T>)
    requires a + g == b + o && |g| >= |o|
    ensures Sum(w, g) >= Sum(w, o)
    decreases |o|
  {
    if o != [] {
      var i, j := |g| - 1, |o| - 1;
      assert g[i] == (a + g)[|a| + i] == (b + o)[|b| + j] == o[j];
      assert a + g[..i] == (a + g)[..|a| + i] == (b + o)[..|b| + j] == b + o[..j];
      LongerEndingIsHeavier(w, a, g[..i], b, o[..j]);
    }
  }

  /** No better than `p`: `other` has at least as many groups, and if it has equally many its last
      group is at least as long as the one `p` is still filling. */
  ghost predicate NoBetter<T>(p: Packing<T>, other: seq<seq<T>>) {
    && other != []
    && |other| >= |p.closed| + 1
    && (|other| == |p.closed| + 1 ==> |other[|other| - 1]| >= |p.open|)
  }

  /** Adding an element as a group of its own. */
  lemma StepOptimalAlone<T>(w: T -> nat, budget: nat, p: Packing<T>, x: T, other: seq<seq<T>>)
    requires (p.open == [] && p.closed == []) || NoBetter(p, other)
    ensures NoBetter(Step(w, budget, p, x), other + [[x]])
  {}

  /** Adding an element to the last group of an admissible grouping. */
  lemma StepOptimalJoined<T>(w: T -> nat, budget: nat, p: Packing<T>, x: T, other: seq<seq<T>>, g: seq<T>)
    requires NoBetter(p, other + [g]) && Concat(other) + g == Concat(p.closed) + p.open
    requires g != [] && Admissible(w, budget, g + [x])
    ensures NoBetter(Step(w, budget, p, x), other + [g + [x]])
  {
    SumSnoc(w, g, x);
    if |g| >= |p.open| { LongerEndingIsHeavier(w, Concat(other), g, Concat(p.closed), p.open); }
  }

  lemma ShorterIsAdmissible<T>(w: T -> nat, budget: nat, g: seq<T>, x: T)
    requires g != [] && Admissible(w, budget, g + [x])
    ensures Admissible(w, budget, g)
  {
    SumSnoc(w, g, x);
  }

  /** A grouping, taken apart at its last element. */
  lemma SplitLast<T>(w: T -> nat, budget: nat, xs: seq<T>, front: seq<seq<T>>, g: seq<T>, x: T)
    requires IsGrouping(w, budget, xs, front + [g + [x]])
    ensures xs == (Concat(front) + g) + [x]
    ensures Admissible(w, budget, g + [x])
    ensures g == [] ==> IsGrouping(w, budget, Concat(front) + g, front)
    ensures g != [] ==> IsGrouping(w, budget, Concat(front) + g, front + [g])
  {
    var all := front + [g + [x]];
    assert all[|front|] == g + [x];
    ConcatSnoc(front, g + [x]);
    Associative(Concat(front), g, [x]);
    assert AllAdmissible(w, budget, front) by {
      forall i | 0 <= i < |front|
        ensures Admissible(w, budget, front[i])
      { assert all[i] == front[i]; }
    }
    if g == [] {
      assert Concat(front) + g == Concat(front);
    } else {
      ShorterIsAdmissible(w, budget, g, x);
      ConcatSnoc(front, g);
    }
  }

  lemma LastOfLast<T>(groups: seq<seq<T>>) returns (front: seq<seq<T>>, g: seq<T>, x: T)
    requires groups != [] && groups[|groups| - 1] != []
    ensures groups == front + [g + [x]]
  {
    var last := groups[|groups| - 1];
    front, g, x := groups[..|groups| - 1], last[..|last| - 1], last[|last| - 1];
    assert last == g + [x];
  }

  /** Greedy packing stays ahead of every admissible grouping. */
  lemma {:induction false} PackIsOptimal<T>(w: T -> nat, budget: nat, xs: seq<T>, other: seq<seq<T>>)
    requires IsGrouping(w, budget, xs, other) && xs != []
    ensures NoBetter(Pack(w, budget, xs), other)
    decreases |xs|
  {
    var front, g, x := LastOfLast(other);
    SplitLast(w, budget, xs, front, g, x);
    var ys := Concat(front) + g;
    assert xs[..|xs| - 1] == ys && xs[|xs| - 1] == x;
    var p := Pack(w, budget, ys);
    PackPartitions(w, budget, ys);
    if g == [] {
      if ys != [] { PackIsOptimal(w, budget, ys, front); }
      assert g + [x] == [x];
      StepOptimalAlone(w, budget, p, x, front);
    } else {
      PackIsOptimal(w, budget, ys, front + [g]);
      StepOptimalJoined(w, budget, p, x, front, g);
    }
  }

  /** Greedy packing is optimal among all contiguous admissible groupings. */
  lemma GreedyIsOptimal<T>(w: T -> nat, budget: nat, xs: seq<T>, other: seq<seq<T>>)
    requires IsGrouping(w, budget, xs, other)
    ensures |Greedy(w, budget, xs)| <= |other|
  {
    if xs != [] {
      PackIsOptimal(w, budget, xs, other);
    }
  }

  // ---------------------------------------------------------------- the one grouping it makes

  /** The first element of each group would not have fitted the group before it. */
  ghost predicate LeavesNoRoom<T>(w: T -> nat, budget: nat, groups: seq<seq<T>>) {
    forall i: nat :: i < |groups| - 1 ==> NextDoesNotFit(w, budget, groups, i)
  }

  ghost predicate NextDoesNotFit<T>(w: T -> nat, budget: nat, groups: seq<seq<T>>, i: nat)
    requires i < |groups| - 1
  {
    groups[i + 1] != [] && IsFull(w, budget, groups[i], groups[i + 1][0])
  }

  ghost predicate IsFull<T>(w: T -> nat, budget: nat, g: seq<T>, next: T) {
    Sum(w, g) + w(next) > budget
  }

  lemma OneMoreGroup<T>(w: T -> nat, budget: nat, groups: seq<seq<T>>, g: seq<T>)
    requires g != []
    ensures LeavesNoRoom(w, budget, groups + [g]) <==>
            LeavesNoRoom(w, budget, groups) && (groups != [] ==> IsFull(w, budget, groups[|groups| - 1], g[0]))
  {
    var all := groups + [g];
    forall i: nat | i < |groups| - 1
      ensures NextDoesNotFit(w, budget, groups, i) <==> NextDoesNotFit(w, budget, all, i)
    {}
    if groups != [] {
      assert NextDoesNotFit(w, budget, all, |groups| - 1) <==> IsFull(w, budget, groups[|groups| - 1], g[0]);
    }
  }

  /** The packing of a sequence that holds these groups. */
  lemma PackOfGreedy<T>(w: T -> nat, budget: nat, xs: seq<T>, front: seq<seq<T>>, g: seq<T>)
    requires xs != [] && Greedy(w, budget, xs) == front + [g]
    ensures Pack(w, budget, xs) == Packing(front, g)
  {
    PackPartitions(w, budget, xs);
    var p := Pack(w, budget, xs);
    assert (p.closed + [p.open])[..|p.closed|] == p.closed && (front + [g])[..|front|] == front;
  }

  lemma StepLeavesNoRoom<T>(w: T -> nat, budget: nat, p: Packing<T>, x: T)
    requires p.open != [] && LeavesNoRoom(w, budget, p.closed + [p.open])
    ensures var q := Step(w, budget, p, x); q.open != [] && LeavesNoRoom(w, budget, q.closed + [q.open])
  {
    OneMoreGroup(w, budget, p.closed, p.open);
    OneMoreGroup(w, budget, p.closed, p.open + [x]);
    OneMoreGroup(w, budget, p.closed + [p.open], [x]);
  }

  lemma {:induction false} PackLeavesNoRoom<T>(w: T -> nat, budget: nat, xs: seq<T>)
    requires xs != []
    ensures var p := Pack(w, budget, xs); p.open != [] && LeavesNoRoom(w, budget, p.closed + [p.open])
  {
    var n := |xs| - 1;
    if n > 0 {
      PackLeavesNoRoom(w, budget, xs[..n]);
      StepLeavesNoRoom(w, budget, Pack(w, budget, xs[..n]), xs[n]);
    } else {
      assert xs[..0] == [];
    }
  }

  /** A grouping that leaves no room is the greedy one. */
  lemma {:induction false} NoRoomIsGreedy<T>(w: T -> nat, budget: nat, xs: seq<T>, groups: seq<seq<T>>)
    requires IsGrouping(w, budget, xs, groups) && LeavesNoRoom(w, budget, groups) && xs != []
    ensures groups == Greedy(w, budget, xs)
    decreases |xs|
  {
    var front, g, x := LastOfLast(groups);
    SplitLast(w, budget, xs, front, g, x);
    var ys := Concat(front) + g;
    assert xs[..|xs| - 1] == ys && xs[|xs| - 1] == x;
    OneMoreGroup(w, budget, front, g + [x]);
    SumSnoc(w, g, x);
    if g != [] {
      OneMoreGroup(w, budget, front, g);
      assert (g + [x])[0] == g[0];
      NoRoomIsGreedy(w, budget, ys, front + [g]);
      PackOfGreedy(w, budget, ys, front, g);
    } else if front != [] {
      var k := |front| - 1;
      assert front == front[..k] + [front[k]];
      ConcatSnoc(front[..k], front[k]);
      NoRoomIsGreedy(w, budget, ys, front);
      PackOfGreedy(w, budget, ys, front[..k], front[k]);
      assert g + [x] == [x];
    } else {
      assert ys == [] && g + [x] == [x];
    }
  }

  /** Greedy packing is the one admissible grouping in which every group is followed by an element it had no
      room for. */
  lemma GreedyExactly<T>(w: T -> nat, budget: nat, xs: seq<T>, groups: seq<seq<T>>)
    ensures groups == Greedy(w, budget, xs) <==> IsGrouping(w, budget, xs, groups) && LeavesNoRoom(w, budget, groups)
  {
    GreedyPartitions(w, budget, xs);
    if xs != [] {
      PackLeavesNoRoom(w, budget, xs);
      if IsGrouping(w, budget, xs, groups) && LeavesNoRoom(w, budget, groups) { NoRoomIsGreedy(w, budget, xs, groups); }
    } else {
      NothingNeedsNoGroups(w, budget, groups);
    }
  }

  lemma NothingNeedsNoGroups<T>(w: T -> nat, budget: nat, groups: seq<seq<T>>)
    ensures IsGrouping(w, budget, [], groups) <==> groups == []
  {
    if groups != [] { assert |Concat(groups)| >= |groups[|groups| - 1]|; }
  }

  // ---------------------------------------------------------------- when packing shrinks a level

  predicate PairFits<T>(w: T -> nat, budget: nat, xs: seq<T>, i: nat)
    requires i + 1 < |xs|
  {
    w(xs[i]) + w(xs[i + 1]) <= budget
  }

  ghost predicate SomePairFits<T>(w: T -> nat, budget: nat, xs: seq<T>) {
    exists i :: 0 <= i < |xs| - 1 && PairFits(w, budget, xs, i)
  }

  /** How many groups a packing has, against the number of elements. */
  ghost predicate Counted<T>(w: T -> nat, budget: nat, xs: seq<T>, p: Packing<T>) {
    && |p.closed| + |p.open| <= |xs|
    && (xs != [] ==> p.open != [] && p.open[|p.open| - 1] == xs[|xs| - 1])
    && if SomePairFits(w, budget, xs) then |p.closed| + 1 < |xs| else |p.closed| + |p.open| == |xs| && |p.open| <= 1
  }

  lemma SomePairFitsSnoc<T>(w: T -> nat, budget: nat, xs: seq<T>, x: T)
    ensures SomePairFits(w, budget, xs + [x]) <==>
            SomePairFits(w, budget, xs) || (xs != [] && w(xs[|xs| - 1]) + w(x) <= budget)
  {
    var all := xs + [x];
    if SomePairFits(w, budget, xs) {
      var i :| 0 <= i < |xs| - 1 && PairFits(w, budget, xs, i);
      assert PairFits(w, budget, all, i);
    }
    if xs != [] && w(xs[|xs| - 1]) + w(x) <= budget {
      assert PairFits(w, budget, all, |xs| - 1);
    }
    if SomePairFits(w, budget, all) {
      var i :| 0 <= i < |all| - 1 && PairFits(w, budget, all, i);
      assert i < |xs| - 1 ==> PairFits(w, budget, xs, i);
    }
  }

  lemma StepCounts<T>(w: T -> nat, budget: nat, xs: seq<T>, p: Packing<T>, x: T)
    requires Counted(w, budget, xs, p) && (xs == [] ==> p.open == [])
    ensures Counted(w, budget, xs + [x], Step(w, budget, p, x))
  {
    SomePairFitsSnoc(w, budget, xs, x);
    if |p.open| == 1 {
      assert p.open == [xs[|xs| - 1]];
      SumOfOne(w, xs[|xs| - 1]);
    }
  }

  lemma {:induction false} PackCounts<T>(w: T -> nat, budget: nat, xs: seq<T>)
    ensures Counted(w, budget, xs, Pack(w, budget, xs))
  {
    if xs != [] {
      var n := |xs| - 1;
      PackCounts(w, budget, xs[..n]);
      StepCounts(w, budget, xs[..n], Pack(w, budget, xs[..n]), xs[n]);
      assert xs == xs[..n] + [xs[n]];
    }
  }

  lemma SumOfOne<T>(w: T -> nat, x: T)
    ensures Sum(w, [x]) == w(x)
  {
    assert [x][..0] == [];
  }

  /** Packing fails to shrink a level exactly when no two neighbours fit the budget together. */
  lemma NoShrinkExactly<T>(w: T -> nat, budget: nat, xs: seq<T>)
    ensures |Greedy(w, budget, xs)| >= |xs| <==>
            forall i :: 0 <= i < |xs| - 1 ==> w(xs[i]) + w(xs[i + 1]) > budget
    ensures |Greedy(w, budget, xs)| <= |xs|
  {
    PackCounts(w, budget, xs);
    if SomePairFits(w, budget, xs) {
      var i :| 0 <= i < |xs| - 1 && PairFits(w, budget, xs, i);
      assert w(xs[i]) + w(xs[i + 1]) <= budget;
    } else {
      forall i | 0 <= i < |xs| - 1
        ensures w(xs[i]) + w(xs[i + 1]) > budget
      { assert !PairFits(w, budget, xs, i); }
    }
  }

  lemma SumBound<T>(w: T -> nat, xs: seq<T>, limit: nat)
    requires forall i :: 0 <= i < |xs| ==> w(xs[i]) <= limit
    ensures Sum(w, xs) <= |xs| * limit
  {
    if xs != [] {
      SumBound(w, xs[..|xs| - 1], limit);
      assert |xs| * limit == (|xs| - 1) * limit + limit;
    }
  }

  lemma MoreThan(k: nat, n: nat, limit: nat)
    requires k * limit < (n + 1) * limit
    ensures k <= n
  {
    assert (k - (n + 1)) * limit == k * limit - (n + 1) * limit;
  }

  /** If the budget holds `k` of the largest elements, every finished group holds at least `k`. */
  lemma {:induction false} PackFills<T>(w: T -> nat, budget: nat, xs: seq<T>, limit: nat, k: nat)
    requires k >= 1 && k * limit <= budget
    requires forall i :: 0 <= i < |xs| ==> w(xs[i]) <= limit
    ensures var p := Pack(w, budget, xs);
            && |p.closed| * k + |p.open| <= |xs|
            && forall i :: 0 <= i < |p.open| ==> w(p.open[i]) <= limit
  {
    if xs != [] {
      var n := |xs| - 1;
      var p := Pack(w, budget, xs[..n]);
      PackFills(w, budget, xs[..n], limit, k);
      if p.open != [] && Sum(w, p.open) + w(xs[n]) > budget {
        SumBound(w, p.open, limit);
        assert (|p.open| + 1) * limit == |p.open| * limit + limit;
        MoreThan(k, |p.open|, limit);
        assert (|p.closed| + 1) * k == |p.closed| * k + k;
      }
    }
  }

  /** A budget of `k` times the largest element leaves at most one group per `k` elements. */
  lemma GreedyShrinks<T>(w: T -> nat, budget: nat, xs: seq<T>, limit: nat, k: nat)
    requires k >= 1 && k * limit <= budget
    requires forall i :: 0 <= i < |xs| ==> w(xs[i]) <= limit
    ensures |Greedy(w, budget, xs)| <= CeilDiv(|xs|, k)
  {
    PackFills(w, budget, xs, limit, k);
    PackPartitions(w, budget, xs);
    var p := Pack(w, budget, xs);
    if xs != [] { AtMostCeil(|p.closed|, |xs|, k); }
  }

  lemma AtMostCeil(c: nat, n: nat, k: nat)
    requires k >= 1 && c * k + 1 <= n
    ensures c + 1 <= CeilDiv(n, k)
  {
    CeilMeaning(n, k, c);
  }

  // ---------------------------------------------------------------- the two weights in use

  /** Length in characters. */
  function Characters(s: string): nat {
    |s|
  }

  /** What a group weighs is its length in all. */
  lemma {:induction false} CharactersAddUp(group: seq<string>)
    ensures Sum(Characters, group) == |Concat(group)|
  {
    if group != [] { CharactersAddUp(group[..|group| - 1]); }
  }

  /** Words: places where a non-space follows a space or the start. */
  function Words(space: char -> bool, s: string): nat {
    if s == "" then 0 else
      Words(space, s[..|s| - 1]) + if !space(s[|s| - 1]) && (|s| == 1 || space(s[|s| - 2])) then 1 else 0
  }

  /** The token estimate: a quarter of the characters, rounded up, but no fewer than the words. */
  function EstimateTokens(space: char -> bool, s: string): nat {
    if CeilDiv(|s|, 4) >= Words(space, s) then CeilDiv(|s|, 4) else Words(space, s)
  }

  /** The estimate is the least number that covers both: four characters each, and one for each word. */
  lemma EstimateExactly(space: char -> bool, s: string, n: nat)
    ensures EstimateTokens(space, s) <= n <==> |s| <= 4 * n && Words(space, s) <= n
  {
    CeilMeaning(|s|, 4, n);
  }

  /** A word starts here. */
  predicate StartsWord(space: char -> bool, s: string, i: nat)
    requires i < |s|
  {
    !space(s[i]) && (i == 0 || space(s[i - 1]))
  }

  lemma StartsOfPrefix(space: char -> bool, s: string)
    requires s != ""
    ensures var n := |s| - 1;
            (set i: nat | i < |s| && StartsWord(space, s, i)) ==
            (set i: nat | i < n && StartsWord(space, s[..n], i)) + if StartsWord(space, s, n) then {n} else {}
  {
    var n := |s| - 1;
    assert forall i: nat :: i < n ==> (StartsWord(space, s[..n], i) <==> StartsWord(space, s, i));
  }

  /** The words are counted by their first characters. */
  lemma {:induction false} WordsExactly(space: char -> bool, s: string)
    ensures Words(space, s) == |set i: nat | i < |s| && StartsWord(space, s, i)|
  {
    if s != "" {
      WordsExactly(space, s[..|s| - 1]);
      StartsOfPrefix(space, s);
    }
  }

  /** Words are what white space separates: none at all has none, and a stretch without any is one word, ... */
  lemma {:induction false} SolidIsOneWord(space: char -> bool, s: string)
    requires forall i :: 0 <= i < |s| ==> !space(s[i])
    ensures Words(space, s) == if s == "" then 0 else 1
  {
    if |s| > 1 { SolidIsOneWord(space, s[..|s| - 1]); }
  }

  /** ... and a space between two texts separates their words. */
  lemma {:induction false} SpaceSeparatesWords(space: char -> bool, a: string, c: char, b: string)
    requires space(c)
    ensures Words(space, a + [c] + b) == Words(space, a) + Words(space, b)
  {
    var s := a + [c] + b;
    if b == "" {
      assert s[..|s| - 1] == a;
    } else {
      var n := |b| - 1;
      assert s[..|s| - 1] == a + [c] + b[..n];
      SpaceSeparatesWords(space, a, c, b[..n]);
    }
  }

  /** Grouping by characters. */
  method GroupByCharacters(elements: seq<string>, budget: nat) returns (groups: seq<seq<string>>)
    ensures groups == Greedy(Characters, budget, elements)
    ensures IsGrouping(Characters, budget, elements, groups)
    ensures forall other :: IsGrouping(Characters, budget, elements, other) ==> |groups| <= |other|
  {
    groups := GroupBy(Characters, budget, elements);
    forall other | IsGrouping(Characters, budget, elements, other)
      ensures |groups| <= |other|
    { GreedyIsOptimal(Characters, budget, elements, other); }
  }

  /** Grouping by estimated tokens. */
  method GroupByTokens(space: char -> bool, elements: seq<string>, budget: nat) returns (groups: seq<seq<string>>)
    ensures var w := s => EstimateTokens(space, s);
            && groups == Greedy(w, budget, elements)
            && IsGrouping(w, budget, elements, groups)
  {
    groups := GroupBy(s => EstimateTokens(space, s), budget, elements);
  }
}
