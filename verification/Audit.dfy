/** Scoring an audit: for each step, where the node's token stands in the verifier's top-k list. */
module Audit {
  import opened Basics

  datatype LogProb = Finite(value: real) | NonFinite

  datatype Step = Step(index: nat, token: nat, topk: seq<(nat, LogProb)>)

  datatype Policy = Policy(k: nat, maxMargin: real, maxOutside: real)

  // ---------------------------------------------------------------- one list

  type Entry = (nat, real)

  /** `x` goes before the first entry that is not larger. */
  function Insert(x: Entry, ys: seq<Entry>): seq<Entry> {
    if ys == [] || ys[0].1 <= x.1 then [x] + ys else [ys[0]] + Insert(x, ys[1..])
  }

  /** The stable sort by falling log probability. */
  function Sort(xs: seq<Entry>): seq<Entry> {
    if xs == [] then [] else Insert(xs[0], Sort(xs[1..]))
  }

  /** Where a token stands in a list: the entries before its first one, and its log probability. */
  datatype Place = Place(before: nat, logprob: real)

  function Find(ys: seq<Entry>, token: nat): Option<Place> {
    if ys == [] then None
    else if ys[0].0 == token then Some(Place(0, ys[0].1))
    else match Find(ys[1..], token)
      case None => None
      case Some(p) => Some(Place(p.before + 1, p.logprob))
  }

  predicate Descending(ys: seq<Entry>) {
    ys == [] || ys[1..] == [] || (ys[0].1 >= ys[1].1 && Descending(ys[1..]))
  }

  /** The token's place in the sorted list. */
  function PlaceOf(xs: seq<Entry>, token: nat): Option<Place> {
    Find(Sort(xs), token)
  }

  // ---------------------------------------------------------------- what the place means

  function CountAbove(xs: seq<Entry>, l: real): nat {
    if xs == [] then 0 else (if xs[0].1 > l then 1 else 0) + CountAbove(xs[1..], l)
  }

  function CountEqual(xs: seq<Entry>, l: real): nat {
    if xs == [] then 0 else (if xs[0].1 == l then 1 else 0) + CountEqual(xs[1..], l)
  }

  /** `h` is the token's first entry among those with its largest log probability. */
  ghost predicate IsBestEntry(xs: seq<Entry>, token: nat, h: nat) {
    && h < |xs| && xs[h].0 == token
    && (forall j :: 0 <= j < |xs| && xs[j].0 == token ==> xs[j].1 <= xs[h].1)
    && (forall j :: 0 <= j < h && xs[j].0 == token ==> xs[j].1 < xs[h].1)
  }

  ghost predicate IsPlace(xs: seq<Entry>, token: nat, p: Option<Place>) {
    match p
    case None => forall j :: 0 <= j < |xs| ==> xs[j].0 != token
    case Some(place) => exists h: nat :: IsBestEntry(xs, token, h) && place.logprob == xs[h].1 &&
                                    place.before == CountAbove(xs, xs[h].1) + CountEqual(xs[..h], xs[h].1)
  }

  /** Inserting shifts what stands at or behind the new entry. */
  lemma {:induction false} FindAfterInsert(x: Entry, ys: seq<Entry>, token: nat)
    requires Descending(ys)
    ensures Descending(Insert(x, ys))
    ensures Find(Insert(x, ys), token) ==
            (match Find(ys, token)
             case None => if x.0 == token then Some(Place(CountAbove(ys, x.1), x.1)) else None
             case Some(p) =>
               if p.logprob > x.1 then Some(p)
               else if x.0 == token then Some(Place(CountAbove(ys, x.1), x.1))
               else Some(Place(p.before + 1, p.logprob)))
  {
    if ys == [] {
    } else if ys[0].1 <= x.1 {
      NothingAbove(ys, x.1, token);
      assert ([x] + ys)[1..] == ys;
    } else {
      FindAfterInsert(x, ys[1..], token);
      assert ([ys[0]] + Insert(x, ys[1..]))[1..] == Insert(x, ys[1..]);
    }
  }

  lemma {:induction false} NothingAbove(ys: seq<Entry>, l: real, token: nat)
    requires Descending(ys) && (ys == [] || ys[0].1 <= l)
    ensures CountAbove(ys, l) == 0
    ensures Find(ys, token).Some? ==> Find(ys, token).value.logprob <= l
  {
    if ys != [] { NothingAbove(ys[1..], l, token); }
  }

  lemma {:induction false} InsertCounts(x: Entry, ys: seq<Entry>, l: real)
    ensures CountAbove(Insert(x, ys), l) == CountAbove(ys, l) + if x.1 > l then 1 else 0
  {
    if ys == [] || ys[0].1 <= x.1 {
      assert ([x] + ys)[1..] == ys;
    } else {
      InsertCounts(x, ys[1..], l);
      assert ([ys[0]] + Insert(x, ys[1..]))[1..] == Insert(x, ys[1..]);
    }
  }

  lemma {:induction false} SortCounts(xs: seq<Entry>, l: real)
    ensures CountAbove(Sort(xs), l) == CountAbove(xs, l)
  {
    if xs != [] {
      SortCounts(xs[1..], l);
      InsertCounts(xs[0], Sort(xs[1..]), l);
    }
  }

  lemma PlaceInFront(x: Entry, rest: seq<Entry>, token: nat, before: nat)
    requires x.0 == token && before == CountAbove(rest, x.1)
    requires forall j :: 0 <= j < |rest| && rest[j].0 == token ==> rest[j].1 <= x.1
    ensures IsPlace([x] + rest, token, Some(Place(before, x.1)))
  {
    var xs := [x] + rest;
    assert xs[1..] == rest && xs[..0] == [];
    assert IsBestEntry(xs, token, 0);
  }

  lemma PlaceBehind(x: Entry, rest: seq<Entry>, token: nat, p: Place)
    requires IsPlace(rest, token, Some(p)) && (x.0 == token ==> x.1 < p.logprob)
    ensures IsPlace([x] + rest, token, Some(if x.1 >= p.logprob then p.(before := p.before + 1) else p))
  {
    var xs := [x] + rest;
    var h: nat :| IsBestEntry(rest, token, h) && p.logprob == rest[h].1 &&
                  p.before == CountAbove(rest, rest[h].1) + CountEqual(rest[..h], rest[h].1);
    assert xs[1..] == rest && xs[h + 1] == rest[h];
    assert xs[..h + 1] == [x] + rest[..h] && xs[..h + 1][1..] == rest[..h];
    forall j | 0 <= j < |xs| && xs[j].0 == token
      ensures xs[j].1 <= xs[h + 1].1 && (j < h + 1 ==> xs[j].1 < xs[h + 1].1)
    { if j > 0 { assert xs[j] == rest[j - 1]; } }
    assert IsBestEntry(xs, token, h + 1);
  }

  /** The rank of a token, for every list: one more than the entries strictly above its best one
      plus the equal ones listed before that one. */
  lemma {:induction false} RankFormula(xs: seq<Entry>, token: nat)
    ensures Descending(Sort(xs)) && IsPlace(xs, token, PlaceOf(xs, token))
  {
    if xs != [] {
      var x, rest := xs[0], xs[1..];
      assert xs == [x] + rest;
      RankFormula(rest, token);
      FindAfterInsert(x, Sort(rest), token);
      SortCounts(rest, x.1);
      match PlaceOf(rest, token)
      case None =>
        if x.0 == token {
          PlaceInFront(x, rest, token, CountAbove(rest, x.1));
        } else {
          assert forall j :: 0 <= j < |xs| ==> j == 0 || xs[j] == rest[j - 1];
        }
      case Some(p) =>
        if x.0 == token && p.logprob <= x.1 {
          PlaceInFront(x, rest, token, CountAbove(rest, x.1));
        } else {
          PlaceBehind(x, rest, token, p);
        }
    }
  }

  // ---------------------------------------------------------------- the order of the list

  ghost predicate DistinctValues(xs: seq<Entry>) {
    forall i, j :: 0 <= i < j < |xs| ==> xs[i].1 != xs[j].1
  }

  /** The largest log probability the token is listed with. */
  ghost predicate IsBestValue(xs: seq<Entry>, token: nat, l: real) {
    (token, l) in xs && forall e :: e in xs && e.0 == token ==> e.1 <= l
  }

  /** Another token is listed with the same value. */
  ghost predicate Tied(xs: seq<Entry>, token: nat) {
    exists l, other :: IsBestValue(xs, token, l) && (other, l) in xs && other != token
  }

  lemma BestEntryHasBestValue(xs: seq<Entry>, token: nat, h: nat)
    requires IsBestEntry(xs, token, h)
    ensures xs[h] == (token, xs[h].1) && IsBestValue(xs, token, xs[h].1)
  {}

  lemma DistinctIsUntied(xs: seq<Entry>, token: nat)
    requires DistinctValues(xs)
    ensures !Tied(xs, token)
  {}

  /** The entry a listed token is found at. */
  lemma FoundAt(xs: seq<Entry>, token: nat) returns (h: nat)
    requires PlaceOf(xs, token).Some?
    ensures IsBestEntry(xs, token, h)
    ensures PlaceOf(xs, token) == Some(Place(CountAbove(xs, xs[h].1) + CountEqual(xs[..h], xs[h].1), xs[h].1))
  {
    RankFormula(xs, token);
    h :| IsBestEntry(xs, token, h) && PlaceOf(xs, token).value.logprob == xs[h].1 &&
         PlaceOf(xs, token).value.before == CountAbove(xs, xs[h].1) + CountEqual(xs[..h], xs[h].1);
  }

  /** Without a tie the rank is one more than the entries strictly above. */
  lemma RankOfUntied(xs: seq<Entry>, token: nat)
    requires !Tied(xs, token) && PlaceOf(xs, token).Some?
    ensures IsBestValue(xs, token, PlaceOf(xs, token).value.logprob)
    ensures PlaceOf(xs, token).value.before == CountAbove(xs, PlaceOf(xs, token).value.logprob)
  {
    var h := FoundAt(xs, token);
    BestEntryHasBestValue(xs, token, h);
    forall j | 0 <= j < h
      ensures xs[..h][j].1 != xs[h].1
    {
      assert xs[j] in xs && xs[j] == (xs[j].0, xs[j].1);
    }
    NoneEqual(xs[..h], xs[h].1);
  }

  /** With distinct log probabilities the rank is one more than the entries strictly above. */
  lemma RankOfDistinct(xs: seq<Entry>, token: nat)
    requires DistinctValues(xs) && PlaceOf(xs, token).Some?
    ensures PlaceOf(xs, token).value.before == CountAbove(xs, PlaceOf(xs, token).value.logprob)
  {
    DistinctIsUntied(xs, token);
    RankOfUntied(xs, token);
  }

  lemma {:induction false} NoneEqual(xs: seq<Entry>, l: real)
    requires forall j :: 0 <= j < |xs| ==> xs[j].1 != l
    ensures CountEqual(xs, l) == 0
  {
    if xs != [] { NoneEqual(xs[1..], l); }
  }

  lemma {:induction false} CountAboveAppend(xs: seq<Entry>, ys: seq<Entry>, l: real)
    ensures CountAbove(xs + ys, l) == CountAbove(xs, l) + CountAbove(ys, l)
  {
    if xs == [] {
      assert xs + ys == ys;
    } else {
      assert (xs + ys)[1..] == xs[1..] + ys;
      CountAboveAppend(xs[1..], ys, l);
    }
  }

  lemma RemoveOne(ys: seq<Entry>, j: nat, l: real)
    requires j < |ys|
    ensures CountAbove(ys, l) == CountAbove(ys[..j] + ys[j + 1..], l) + if ys[j].1 > l then 1 else 0
    ensures multiset(ys[..j] + ys[j + 1..]) == multiset(ys) - multiset{ys[j]}
  {
    var front, back := ys[..j], ys[j + 1..];
    assert ys == front + ([ys[j]] + back);
    CountAboveAppend(front, [ys[j]] + back, l);
    assert ([ys[j]] + back)[1..] == back;
    CountAboveAppend(front, back, l);
  }

  lemma RestOf(xs: seq<Entry>)
    requires xs != []
    ensures multiset(xs[1..]) == multiset(xs) - multiset{xs[0]}
  {
    assert xs == [xs[0]] + xs[1..];
  }

  /** Counting does not depend on the order. */
  lemma {:induction false} CountAbovePermuted(xs: seq<Entry>, ys: seq<Entry>, l: real)
    requires multiset(xs) == multiset(ys)
    ensures CountAbove(xs, l) == CountAbove(ys, l)
  {
    if xs == [] {
      assert |multiset(ys)| == 0;
    } else {
      assert xs[0] in multiset(xs);
      var j :| 0 <= j < |ys| && ys[j] == xs[0];
      RemoveOne(ys, j, l);
      RestOf(xs);
      CountAbovePermuted(xs[1..], ys[..j] + ys[j + 1..], l);
    }
  }

  lemma SameMembers(xs: seq<Entry>, ys: seq<Entry>)
    requires multiset(xs) == multiset(ys)
    ensures forall e :: e in xs <==> e in ys
  {
    forall e
      ensures e in xs <==> e in ys
    { assert e in multiset(xs) <==> e in multiset(ys); }
  }

  lemma NotListedMeans(xs: seq<Entry>, token: nat)
    ensures PlaceOf(xs, token).None? <==> forall e :: e in xs ==> e.0 != token
  {
    RankFormula(xs, token);
    if PlaceOf(xs, token).Some? {
      var h: nat :| IsBestEntry(xs, token, h);
      assert xs[h] in xs;
    }
  }

  /** Unless it is tied, the place does not depend on the order of the list. */
  lemma PlaceIgnoresOrder(xs: seq<Entry>, ys: seq<Entry>, token: nat)
    requires multiset(xs) == multiset(ys) && !Tied(xs, token)
    ensures PlaceOf(xs, token) == PlaceOf(ys, token)
  {
    SameMembers(xs, ys);
    NotListedMeans(xs, token);
    NotListedMeans(ys, token);
    if PlaceOf(xs, token).Some? {
      assert forall l :: IsBestValue(ys, token, l) ==> IsBestValue(xs, token, l);
      RankOfUntied(xs, token);
      RankOfUntied(ys, token);
      CountAbovePermuted(xs, ys, PlaceOf(xs, token).value.logprob);
    }
  }

  lemma NotBetter(ys: seq<Entry>, token: nat, l: real, h: nat)
    requires IsBestValue(ys, token, l) && IsBestEntry(ys, token, h)
    ensures ys[h].1 == l
  {
    assert ys[h] in ys;
    var j :| 0 <= j < |ys| && ys[j] == (token, l);
  }

  lemma ListedIsFound(ys: seq<Entry>, token: nat, l: real)
    requires IsBestValue(ys, token, l)
    ensures PlaceOf(ys, token).Some?
  {
    NotListedMeans(ys, token);
  }

  /** Listed first with its best value, a token has nothing equal before it. */
  lemma FirstHasRankOfAbove(ys: seq<Entry>, token: nat, l: real)
    requires ys != [] && ys[0] == (token, l) && IsBestValue(ys, token, l)
    ensures PlaceOf(ys, token) == Some(Place(CountAbove(ys, l), l))
  {
    ListedIsFound(ys, token, l);
    var h := FoundAt(ys, token);
    NotBetter(ys, token, l, h);
    assert h == 0;
    assert ys[..0] == [];
  }

  /** Listed behind an equal one it has. */
  lemma BehindAnEqual(ys: seq<Entry>, token: nat, other: nat, l: real)
    requires ys != [] && ys[0] == (other, l) && other != token && IsBestValue(ys, token, l)
    ensures PlaceOf(ys, token).Some? && PlaceOf(ys, token).value.before > CountAbove(ys, l)
  {
    ListedIsFound(ys, token, l);
    var h := FoundAt(ys, token);
    NotBetter(ys, token, l, h);
    assert h > 0;
    assert ys[..h][0] == ys[0];
  }

  /** An entry moved to the front. */
  function ToFront(xs: seq<Entry>, j: nat): seq<Entry>
    requires j < |xs|
  {
    [xs[j]] + (xs[..j] + xs[j + 1..])
  }

  lemma ToFrontPermutes(xs: seq<Entry>, j: nat)
    requires j < |xs|
    ensures multiset(ToFront(xs, j)) == multiset(xs)
  {
    RemoveOne(xs, j, 0.0);
    assert xs[j] in multiset(xs);
  }

  /** The order of the list matters exactly for a tied token. */
  lemma OrderMattersExactly(xs: seq<Entry>, token: nat)
    ensures (forall ys :: multiset(ys) == multiset(xs) ==> PlaceOf(ys, token) == PlaceOf(xs, token)) <==> !Tied(xs, token)
  {
    if Tied(xs, token) {
      var l, other :| IsBestValue(xs, token, l) && (other, l) in xs && other != token;
      var i :| 0 <= i < |xs| && xs[i] == (token, l);
      var j :| 0 <= j < |xs| && xs[j] == (other, l);
      TieIsOrdered(xs, token, other, l, i, j);
    } else {
      forall ys | multiset(ys) == multiset(xs)
        ensures PlaceOf(ys, token) == PlaceOf(xs, token)
      { PlaceIgnoresOrder(xs, ys, token); }
    }
  }

  lemma TieIsOrdered(xs: seq<Entry>, token: nat, other: nat, l: real, i: nat, j: nat)
    requires IsBestValue(xs, token, l) && other != token
    requires i < |xs| && j < |xs| && xs[i] == (token, l) && xs[j] == (other, l)
    ensures multiset(ToFront(xs, i)) == multiset(xs) && multiset(ToFront(xs, j)) == multiset(xs)
    ensures PlaceOf(ToFront(xs, i), token) != PlaceOf(ToFront(xs, j), token)
  {
    var ys, zs := ToFront(xs, i), ToFront(xs, j);
    ToFrontPermutes(xs, i);
    ToFrontPermutes(xs, j);
    SameMembers(xs, ys);
    SameMembers(xs, zs);
    FirstHasRankOfAbove(ys, token, l);
    BehindAnEqual(zs, token, other, l);
    CountAbovePermuted(ys, zs, l);
  }

  // ---------------------------------------------------------------- one step

  /** What a step shows, before any policy: its list is unusable, the token is not listed, or it is
      listed with this rank, margin to the best, and log probability. */
  datatype Finding = Unusable | NotListed | Listed(rank: nat, margin: real, logprob: real)

  predicate AllFinite(topk: seq<(nat, LogProb)>) {
    forall i :: 0 <= i < |topk| ==> topk[i].1.Finite?
  }

  function Entries(topk: seq<(nat, LogProb)>): seq<Entry>
    requires AllFinite(topk)
  {
    seq(|topk|, i requires 0 <= i < |topk| => (topk[i].0, topk[i].1.value))
  }

  function Margin(ys: seq<Entry>, logprob: real): real {
    if ys != [] && ys[0].1 - logprob > 0.0 then ys[0].1 - logprob else 0.0
  }

  function Examine(step: Step): Finding {
    if !AllFinite(step.topk) then Unusable else
      var ys := Sort(Entries(step.topk));
      match Find(ys, step.token)
      case None => NotListed
      case Some(p) => Listed(p.before + 1, Margin(ys, p.logprob), p.logprob)
  }

  lemma {:induction false} SortedHead(xs: seq<Entry>, y: Entry)
    requires y in xs
    ensures Sort(xs) != [] && Sort(xs)[0].1 >= y.1 && Sort(xs)[0] in xs
  {
    var x, rest := xs[0], xs[1..];
    if rest != [] {
      SortedHead(rest, if y in rest then y else rest[0]);
    }
  }

  /** `margin` is the distance of `logprob` to the largest value of the list. */
  ghost predicate IsDistanceToBest(xs: seq<Entry>, logprob: real, margin: real) {
    && (forall i :: 0 <= i < |xs| ==> xs[i].1 - logprob <= margin)
    && (exists i :: 0 <= i < |xs| && xs[i].1 - logprob == margin)
  }

  lemma MarginIsDistance(xs: seq<Entry>, h: nat)
    requires h < |xs|
    ensures IsDistanceToBest(xs, xs[h].1, Margin(Sort(xs), xs[h].1))
  {
    SortedHead(xs, xs[h]);
    forall i | 0 <= i < |xs|
      ensures xs[i].1 <= Sort(xs)[0].1
    { SortedHead(xs, xs[i]); }
    var b :| 0 <= b < |xs| && xs[b] == Sort(xs)[0];
  }

  /** What examining a step finds: nothing usable exactly if some value is not finite, not listed
      exactly if the token is absent, and otherwise its place in the list and the distance to the best. */
  lemma ExamineMeaning(step: Step)
    ensures Examine(step).Unusable? <==> !AllFinite(step.topk)
    ensures AllFinite(step.topk) ==>
              var xs := Entries(step.topk);
              match Examine(step)
              case Unusable => false
              case NotListed => IsPlace(xs, step.token, None)
              case Listed(rank, margin, logprob) =>
                rank >= 1 && IsPlace(xs, step.token, Some(Place(rank - 1, logprob))) && IsDistanceToBest(xs, logprob, margin)
  {
    if AllFinite(step.topk) {
      var xs := Entries(step.topk);
      RankFormula(xs, step.token);
      var p := PlaceOf(xs, step.token);
      if p.Some? {
        var h: nat :| IsBestEntry(xs, step.token, h) && p.value.logprob == xs[h].1;
        MarginIsDistance(xs, h);
      }
    }
  }

  /** Within the policy. */
  predicate Good(f: Finding, p: Policy) {
    f.Listed? && f.rank <= p.k && f.margin <= p.maxMargin
  }

  /** A step is within the policy exactly if all its values are finite, the token is listed, fewer than `k`
      entries stand before its best one, and none is better by more than the margin. */
  lemma GoodExactly(step: Step, p: Policy)
    ensures Good(Examine(step), p) <==> AllFinite(step.topk) && exists h: nat :: IsGoodEntry(Entries(step.topk), step.token, h, p)
  {
    ExamineMeaning(step);
    if AllFinite(step.topk) {
      var xs, f := Entries(step.topk), Examine(step);
      if f.Listed? {
        var h: nat :| IsBestEntry(xs, step.token, h) && f.logprob == xs[h].1 &&
                      f.rank - 1 == CountAbove(xs, xs[h].1) + CountEqual(xs[..h], xs[h].1);
        assert IsDistanceToBest(xs, xs[h].1, f.margin);
        assert Good(f, p) <==> IsGoodEntry(xs, step.token, h, p);
      }
    }
  }

  ghost predicate IsGoodEntry(xs: seq<Entry>, token: nat, h: nat, p: Policy) {
    && IsBestEntry(xs, token, h)
    && CountAbove(xs, xs[h].1) + CountEqual(xs[..h], xs[h].1) < p.k
    && forall i :: 0 <= i < |xs| ==> xs[i].1 - xs[h].1 <= p.maxMargin
  }

  // ---------------------------------------------------------------- the verdict

  /** Why an audit failed: the first step outside the policy. */
  datatype Reason = Reason(step: nat, finding: Finding)

  datatype Verdict = Verdict(steps: nat, inTopK: nat, outside: nat, worstRank: nat, worstMargin: real,
                             meanNll: real, notListed: nat, ok: bool, reason: Option<Reason>)

  /** The running totals over the findings so far. */
  datatype Totals = Totals(inTopK: nat, outside: nat, worstRank: nat, worstMargin: real,
                           sumNll: real, countNll: nat, notListed: nat, reason: Option<Reason>)

  function Add(t: Totals, i: nat, f: Finding, p: Policy): Totals {
    var t1 := if f.Listed? then
                t.(sumNll := t.sumNll - f.logprob, countNll := t.countNll + 1,
                   worstRank := if f.rank > t.worstRank then f.rank else t.worstRank,
                   worstMargin := if f.margin > t.worstMargin then f.margin else t.worstMargin)
              else t.(notListed := t.notListed + 1);
    if Good(f, p) then t1.(inTopK := t1.inTopK + 1)
    else t1.(outside := t1.outside + 1, reason := if t1.reason.None? then Some(Reason(i, f)) else t1.reason)
  }

  function Total(steps: seq<Step>, p: Policy): Totals {
    if steps == [] then Totals(0, 0, 0, 0.0, 0.0, 0, 0, None) else
      var n := |steps| - 1;
      Add(Total(steps[..n], p), n, Examine(steps[n]), p)
  }

  function Mean(sum: real, n: nat): real {
    if n > 0 then sum / n as real else 0.0
  }

  function Conclude(t: Totals, n: nat, p: Policy): Verdict {
    var share := if n == 0 then 1.0 else t.outside as real / n as real;
    var ok := n != 0 && share <= p.maxOutside;
    Verdict(n, t.inTopK, t.outside, t.worstRank, t.worstMargin,
            Mean(t.sumNll, t.countNll),
            t.notListed, ok, if ok then None else t.reason)
  }

  function Judge(steps: seq<Step>, p: Policy): Verdict {
    Conclude(Total(steps, p), |steps|, p)
  }

  /** The scoring loop. */
  method Assess(steps: seq<Step>, p: Policy) returns (v: Verdict)
    ensures v == Judge(steps, p)
  {
    var inTopK, outside, notListed := 0, 0, 0;
    var worstRank, worstMargin := 0, 0.0;
    var sumNll, countNll := 0.0, 0;
    var reason: Option<Reason> := None;
    for i := 0 to |steps|
      invariant Totals(inTopK, outside, worstRank, worstMargin, sumNll, countNll, notListed, reason) == Total(steps[..i], p)
    {
      assert steps[..i + 1][..i] == steps[..i];
      var f := Examine(steps[i]);
      match f {
        case Listed(rank, margin, logprob) =>
          sumNll, countNll := sumNll - logprob, countNll + 1;
          if rank > worstRank { worstRank := rank; }
          if margin > worstMargin { worstMargin := margin; }
          if rank <= p.k && margin <= p.maxMargin {
            inTopK := inTopK + 1;
          } else {
            outside := outside + 1;
            if reason.None? { reason := Some(Reason(i, f)); }
          }
        case _ =>
          outside, notListed := outside + 1, notListed + 1;
          if reason.None? { reason := Some(Reason(i, f)); }
      }
    }
    assert steps[..|steps|] == steps;
    v := Conclude(Totals(inTopK, outside, worstRank, worstMargin, sumNll, countNll, notListed, reason), |steps|, p);
  }

  ghost predicate IsFirstOutside(steps: seq<Step>, p: Policy, i: nat) {
    i < |steps| && !Good(Examine(steps[i]), p) && forall j :: 0 <= j < i ==> Good(Examine(steps[j]), p)
  }

  lemma {:induction false} TotalsAddUp(steps: seq<Step>, p: Policy)
    ensures var t := Total(steps, p);
            && t.inTopK + t.outside == |steps| && t.notListed <= t.outside
            && (t.outside == 0 <==> t.reason.None?)
  {
    if steps != [] { TotalsAddUp(steps[..|steps| - 1], p); }
  }

  /** The steps within the policy, those outside it, and those whose token was not found. */
  ghost function Inside(steps: seq<Step>, p: Policy): set<nat> {
    set i: nat | i < |steps| && Good(Examine(steps[i]), p)
  }

  ghost function Outside(steps: seq<Step>, p: Policy): set<nat> {
    set i: nat | i < |steps| && !Good(Examine(steps[i]), p)
  }

  ghost function Absent(steps: seq<Step>): set<nat> {
    set i: nat | i < |steps| && !Examine(steps[i]).Listed?
  }

  lemma OneMoreStep(steps: seq<Step>, p: Policy)
    requires steps != []
    ensures var n := |steps| - 1;
            && Inside(steps, p) == Inside(steps[..n], p) + (if Good(Examine(steps[n]), p) then {n} else {})
            && Outside(steps, p) == Outside(steps[..n], p) + (if Good(Examine(steps[n]), p) then {} else {n})
            && Absent(steps) == Absent(steps[..n]) + (if Examine(steps[n]).Listed? then {} else {n})
  {
    var n := |steps| - 1;
    assert forall i: nat :: i < n ==> steps[..n][i] == steps[i];
  }

  lemma {:induction false} TotalsCount(steps: seq<Step>, p: Policy)
    ensures var t := Total(steps, p);
            t.inTopK == |Inside(steps, p)| && t.outside == |Outside(steps, p)| && t.notListed == |Absent(steps)|
  {
    if steps != [] {
      TotalsCount(steps[..|steps| - 1], p);
      OneMoreStep(steps, p);
    }
  }

  /** What the counters count: the steps within the policy, those outside it, and those not found. */
  lemma CountsExactly(steps: seq<Step>, p: Policy)
    ensures var v := Judge(steps, p);
            && v.steps == |steps|
            && v.inTopK == |set i: nat | i < |steps| && Good(Examine(steps[i]), p)|
            && v.outside == |set i: nat | i < |steps| && !Good(Examine(steps[i]), p)|
            && v.notListed == |set i: nat | i < |steps| && !Examine(steps[i]).Listed?|
  {
    TotalsCount(steps, p);
  }

  ghost predicate AllGood(steps: seq<Step>, p: Policy) {
    forall i :: 0 <= i < |steps| ==> Good(Examine(steps[i]), p)
  }

  lemma GoodSnoc(steps: seq<Step>, p: Policy)
    requires steps != []
    ensures var n := |steps| - 1;
            && (AllGood(steps, p) <==> AllGood(steps[..n], p) && Good(Examine(steps[n]), p))
            && (AllGood(steps[..n], p) && !Good(Examine(steps[n]), p) ==> IsFirstOutside(steps, p, n))
            && forall i: nat :: IsFirstOutside(steps[..n], p, i) ==> IsFirstOutside(steps, p, i)
  {
    var n := |steps| - 1;
    assert forall i :: 0 <= i < n ==> steps[..n][i] == steps[i];
  }

  /** The reason noted is the first step outside the policy. */
  lemma {:induction false} ReasonIsFirstOutside(steps: seq<Step>, p: Policy)
    ensures var reason := Total(steps, p).reason;
            match reason
            case None => AllGood(steps, p)
            case Some(r) => IsFirstOutside(steps, p, r.step) && r.finding == Examine(steps[r.step])
  {
    if steps != [] {
      ReasonIsFirstOutside(steps[..|steps| - 1], p);
      GoodSnoc(steps, p);
    }
  }

  /** The worst rank is the largest among the listed steps, and zero if there is none. */
  lemma {:induction false} WorstRankIsLargest(steps: seq<Step>, p: Policy)
    ensures var w := Total(steps, p).worstRank;
            && (forall i :: 0 <= i < |steps| && Examine(steps[i]).Listed? ==> Examine(steps[i]).rank <= w)
            && (w == 0 || exists i :: 0 <= i < |steps| && Examine(steps[i]).Listed? && Examine(steps[i]).rank == w)
  {
    if steps != [] {
      var n := |steps| - 1;
      WorstRankIsLargest(steps[..n], p);
      var w := Total(steps[..n], p).worstRank;
      if w != 0 {
        var i :| 0 <= i < n && Examine(steps[..n][i]).Listed? && Examine(steps[..n][i]).rank == w;
        assert steps[i] == steps[..n][i];
      }
    }
  }

  /** The worst margin likewise. */
  lemma {:induction false} WorstMarginIsLargest(steps: seq<Step>, p: Policy)
    ensures var w := Total(steps, p).worstMargin;
            && (forall i :: 0 <= i < |steps| && Examine(steps[i]).Listed? ==> Examine(steps[i]).margin <= w)
            && (w == 0.0 || exists i :: 0 <= i < |steps| && Examine(steps[i]).Listed? && Examine(steps[i]).margin == w)
  {
    if steps != [] {
      var n := |steps| - 1;
      WorstMarginIsLargest(steps[..n], p);
      var w := Total(steps[..n], p).worstMargin;
      if w != 0.0 {
        var i :| 0 <= i < n && Examine(steps[..n][i]).Listed? && Examine(steps[..n][i]).margin == w;
        assert steps[i] == steps[..n][i];
      }
    }
  }

  /** `x` taken `n` times. */
  function Multiple(x: real, n: nat): real {
    if n == 0 then 0.0 else Multiple(x, n - 1) + x
  }

  lemma {:induction false} MultipleIsProduct(x: real, n: nat)
    ensures Multiple(x, n) == x * n as real
  {
    if n > 0 {
      MultipleIsProduct(x, n - 1);
      Distribute(x, (n - 1) as real, 1.0);
    }
  }

  lemma Distribute(x: real, a: real, b: real)
    ensures x * (a + b) == x * a + x * b
  {}

  /** Every listed step's surprise lies between `lo` and `hi`. */
  ghost predicate NllWithin(steps: seq<Step>, lo: real, hi: real) {
    forall i :: 0 <= i < |steps| && Examine(steps[i]).Listed? ==> lo <= -Examine(steps[i]).logprob <= hi
  }

  ghost predicate SomeListed(steps: seq<Step>) {
    exists i :: 0 <= i < |steps| && Examine(steps[i]).Listed?
  }

  lemma SomeListedSnoc(steps: seq<Step>)
    requires steps != []
    ensures SomeListed(steps) <==> SomeListed(steps[..|steps| - 1]) || Examine(steps[|steps| - 1]).Listed?
  {
    var n := |steps| - 1;
    if SomeListed(steps[..n]) {
      var i :| 0 <= i < n && Examine(steps[..n][i]).Listed?;
      assert steps[i] == steps[..n][i];
    }
    if SomeListed(steps) {
      var i :| 0 <= i < |steps| && Examine(steps[i]).Listed?;
      assert i < n ==> steps[..n][i] == steps[i];
    }
  }

  lemma {:induction false} SumOfNlls(steps: seq<Step>, p: Policy, lo: real, hi: real)
    requires NllWithin(steps, lo, hi)
    ensures var t := Total(steps, p);
            && Multiple(lo, t.countNll) <= t.sumNll <= Multiple(hi, t.countNll)
            && (t.countNll > 0 <==> SomeListed(steps))
  {
    if steps != [] {
      var n := |steps| - 1;
      assert NllWithin(steps[..n], lo, hi);
      SumOfNlls(steps[..n], p, lo, hi);
      SomeListedSnoc(steps);
    }
  }

  /** The mean surprise is a mean: it lies between the least and the greatest surprise of a listed
      step, and is zero if no step is listed. */
  lemma MeanNllIsBetween(steps: seq<Step>, p: Policy, lo: real, hi: real)
    requires NllWithin(steps, lo, hi)
    ensures if SomeListed(steps) then lo <= Judge(steps, p).meanNll <= hi else Judge(steps, p).meanNll == 0.0
  {
    SumOfNlls(steps, p, lo, hi);
    var t := Total(steps, p);
    if t.countNll > 0 { MeanOfMultiples(t.sumNll, t.countNll, lo, hi); }
  }

  lemma MeanOfMultiples(sum: real, n: nat, lo: real, hi: real)
    requires n > 0 && Multiple(lo, n) <= sum <= Multiple(hi, n)
    ensures lo <= Mean(sum, n) <= hi
  {
    MultipleIsProduct(lo, n);
    MultipleIsProduct(hi, n);
    MeanBetween(sum, n as real, lo, hi, sum / n as real);
  }

  lemma MeanBetween(sum: real, n: real, lo: real, hi: real, mean: real)
    requires n > 0.0 && lo * n <= sum <= hi * n && mean == sum / n
    ensures lo <= mean <= hi
  {
    assert mean * n == sum;
    if mean < lo { ScaleUpStrictly(mean, lo, n); }
    if mean > hi { ScaleUpStrictly(hi, mean, n); }
  }

  /** The counters add up, and the reason of a failed audit is its first step outside the policy. */
  lemma VerdictCounts(steps: seq<Step>, p: Policy)
    ensures var v := Judge(steps, p);
            && v.steps == |steps| && v.inTopK + v.outside == v.steps && v.notListed <= v.outside
            && (v.ok ==> v.reason.None?)
            && (!v.ok && v.outside > 0 ==>
                  && v.reason.Some? && IsFirstOutside(steps, p, v.reason.value.step)
                  && v.reason.value.finding == Examine(steps[v.reason.value.step]))
  {
    TotalsAddUp(steps, p);
    ReasonIsFirstOutside(steps, p);
  }

  /** The sum of the surprises of the listed steps. */
  function NllSum(steps: seq<Step>): real {
    if steps == [] then 0.0 else
      var f := Examine(steps[|steps| - 1]);
      NllSum(steps[..|steps| - 1]) - if f.Listed? then f.logprob else 0.0
  }

  lemma {:induction false} TotalsSum(steps: seq<Step>, p: Policy)
    ensures var t := Total(steps, p); t.sumNll == NllSum(steps) && t.countNll + t.notListed == |steps|
  {
    if steps != [] { TotalsSum(steps[..|steps| - 1], p); }
  }

  /** The mean is that sum over the number of steps that are listed. */
  lemma MeanNllExactly(steps: seq<Step>, p: Policy)
    ensures IsMean(Judge(steps, p).meanNll, NllSum(steps), ListedCount(steps))
  {
    ListedTotals(steps, p);
    ConcludeMean(Total(steps, p), |steps|, p, NllSum(steps), ListedCount(steps));
  }

  /** The mean of `n` numbers with this sum, and zero if there are none. */
  ghost predicate IsMean(mean: real, sum: real, n: int) {
    if n == 0 then mean == 0.0 else mean * n as real == sum
  }

  ghost function ListedCount(steps: seq<Step>): int {
    |steps| - |Absent(steps)|
  }

  lemma ListedTotals(steps: seq<Step>, p: Policy)
    ensures Total(steps, p).sumNll == NllSum(steps) && Total(steps, p).countNll == ListedCount(steps)
  {
    TotalsCount(steps, p);
    TotalsSum(steps, p);
  }

  lemma ConcludeMean(t: Totals, n: nat, p: Policy, sum: real, count: int)
    requires t.sumNll == sum && t.countNll == count
    ensures IsMean(Conclude(t, n, p).meanNll, sum, count)
  {
    MeanTimes(sum, count);
  }

  lemma MeanTimes(sum: real, n: nat)
    ensures IsMean(Mean(sum, n), sum, n)
  {}

  /** An audit passes exactly when it has steps and no more of them than tolerated are outside. */
  lemma OkExactly(steps: seq<Step>, p: Policy)
    ensures Judge(steps, p).ok <==> steps != [] && WithinShare(|Outside(steps, p)|, |steps|, p.maxOutside)
  {
    TotalsCount(steps, p);
    ConcludeOk(Total(steps, p), |steps|, p);
  }

  /** `k` of `n` are no more than this share. */
  ghost predicate WithinShare(k: nat, n: nat, share: real) {
    k as real <= share * n as real
  }

  lemma ConcludeOk(t: Totals, n: nat, p: Policy)
    ensures Conclude(t, n, p).ok <==> n != 0 && WithinShare(t.outside, n, p.maxOutside)
  {
    if n != 0 { QuotientAtMost(t.outside as real, n as real, t.outside as real / n as real, p.maxOutside); }
  }

  lemma QuotientAtMost(a: real, n: real, q: real, limit: real)
    requires n > 0.0 && q == a / n
    ensures q <= limit <==> a <= limit * n
  {
    assert q * n == a;
    if q < limit { ScaleUpStrictly(q, limit, n); }
    if q > limit { ScaleUpStrictly(limit, q, n); }
  }

  lemma ScaleUpStrictly(a: real, b: real, n: real)
    requires a < b && n > 0.0
    ensures a * n < b * n
  {}

  /** A policy that asks for no more. */
  predicate AtLeastAsLenient(p: Policy, q: Policy) {
    p.k <= q.k && p.maxMargin <= q.maxMargin && p.maxOutside <= q.maxOutside
  }

  lemma {:induction false} FewerOutside(steps: seq<Step>, p: Policy, q: Policy)
    requires AtLeastAsLenient(p, q)
    ensures Total(steps, q).outside <= Total(steps, p).outside
  {
    if steps != [] { FewerOutside(steps[..|steps| - 1], p, q); }
  }

  /** Raising `k`, the margin or the tolerated share never turns a passed audit into a failed one. */
  lemma LenientKeepsOk(steps: seq<Step>, p: Policy, q: Policy)
    requires AtLeastAsLenient(p, q) && Judge(steps, p).ok
    ensures Judge(steps, q).ok
  {
    FewerOutside(steps, p, q);
    SmallerShare(Total(steps, q).outside as real, Total(steps, p).outside as real, |steps| as real);
  }

  lemma SmallerShare(a: real, b: real, n: real)
    requires a <= b && n > 0.0
    ensures a / n <= b / n
  {}

  // ---------------------------------------------------------------- the order of the lists, again

  /** The same step with its list in another order: either list has a non-finite value, or both are
      finite, hold the same entries, and the token is not tied. */
  ghost predicate Reordered(a: Step, b: Step) {
    && a.token == b.token && AllFinite(a.topk) == AllFinite(b.topk)
    && (AllFinite(a.topk) ==>
          && multiset(Entries(a.topk)) == multiset(Entries(b.topk))
          && !Tied(Entries(a.topk), a.token))
  }

  lemma SameHead(xs: seq<Entry>, ys: seq<Entry>)
    requires multiset(xs) == multiset(ys) && xs != []
    ensures Sort(xs) != [] && Sort(ys) != [] && Sort(xs)[0].1 == Sort(ys)[0].1
  {
    assert xs[0] in multiset(xs);
    SortedHead(xs, xs[0]);
    SortedHead(ys, xs[0]);
    var a, b := Sort(xs)[0], Sort(ys)[0];
    assert a in multiset(xs) && b in multiset(ys);
    SortedHead(xs, b);
    SortedHead(ys, a);
  }

  lemma ExamineIgnoresOrder(a: Step, b: Step)
    requires Reordered(a, b)
    ensures Examine(a) == Examine(b)
  {
    if AllFinite(a.topk) {
      var xs, ys := Entries(a.topk), Entries(b.topk);
      PlaceIgnoresOrder(xs, ys, a.token);
      assert |multiset(xs)| == |xs| && |multiset(ys)| == |ys|;
      if xs != [] { SameHead(xs, ys); }
    }
  }

  lemma {:induction false} TotalIgnoresOrder(a: seq<Step>, b: seq<Step>, p: Policy)
    requires |a| == |b| && forall i :: 0 <= i < |a| ==> Reordered(a[i], b[i])
    ensures Total(a, p) == Total(b, p)
  {
    if a != [] {
      var n := |a| - 1;
      TotalIgnoresOrder(a[..n], b[..n], p);
      ExamineIgnoresOrder(a[n], b[n]);
    }
  }

  /** No number of the verdict depends on the order in which the lists give their entries. */
  lemma VerdictIgnoresOrder(a: seq<Step>, b: seq<Step>, p: Policy)
    requires |a| == |b| && forall i :: 0 <= i < |a| ==> Reordered(a[i], b[i])
    ensures Judge(a, p) == Judge(b, p)
  {
    TotalIgnoresOrder(a, b, p);
  }

  /** For instance of two tokens tied for the best, the one listed first has rank one. */
  lemma TiesKeepTheListOrder(l: real)
    ensures PlaceOf([(1, l), (2, l)], 2) == Some(Place(1, l))
    ensures PlaceOf([(2, l), (1, l)], 2) == Some(Place(0, l))
  {
    TwoTied((1, l), (2, l));
    TwoTied((2, l), (1, l));
    FindInTwo((1, l), (2, l));
    FindInTwo((2, l), (1, l));
  }

  lemma TwoTied(x: Entry, y: Entry)
    requires x.1 == y.1
    ensures Sort([x, y]) == [x, y]
  {
    assert [x, y][1..] == [y] && [y][1..] == [];
    assert Sort([y]) == [y];
  }

  lemma FindInTwo(x: Entry, y: Entry)
    requires x.0 != y.0
    ensures Find([x, y], x.0) == Some(Place(0, x.1)) && Find([x, y], y.0) == Some(Place(1, y.1))
  {
    assert [x, y][1..] == [y];
    assert Find([y], y.0) == Some(Place(0, y.1));
  }

  // ---------------------------------------------------------------- the decision

  datatype Decision = Pass | SoftFail | HardFail | InsufficientEvidence | NoBasis

  function Decide(v: Verdict, receiptLevel: nat, minSteps: nat): Decision {
    if receiptLevel < 1 || v.steps == 0 then NoBasis
    else if v.steps < minSteps then InsufficientEvidence
    else if v.ok then Pass
    else SoftFail
  }

  /** An audit by distance alone never calls for the hard consequence. There is no basis without a receipt
      or steps, and too little evidence below the least number of steps; otherwise it passes exactly when
      no more steps than tolerated are outside the policy. A more lenient policy never takes a pass back. */
  lemma DecisionIsFair(steps: seq<Step>, p: Policy, q: Policy, level: nat, minSteps: nat)
    ensures Decide(Judge(steps, p), level, minSteps) != HardFail
    ensures Decide(Judge(steps, p), level, minSteps) == Pass <==>
            level >= 1 && |steps| >= minSteps && steps != [] &&
            WithinShare(|Outside(steps, p)|, |steps|, p.maxOutside)
    ensures Decide(Judge(steps, p), level, minSteps) == NoBasis <==> level == 0 || steps == []
    ensures Decide(Judge(steps, p), level, minSteps) == InsufficientEvidence <==> level >= 1 && 0 < |steps| < minSteps
    ensures AtLeastAsLenient(p, q) && Decide(Judge(steps, p), level, minSteps) == Pass ==>
            Decide(Judge(steps, q), level, minSteps) == Pass
  {
    OkExactly(steps, p);
    if AtLeastAsLenient(p, q) && Judge(steps, p).ok { LenientKeepsOk(steps, p, q); }
  }
}
