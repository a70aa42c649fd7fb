/** The anti-replay window: a bounded memory that answers exactly as if it remembered everything. */
module NonceWindow {
  import opened Basics

  datatype Answer = Accepted | Repeated | TooOld

  function SubOrZero(a: nat, b: nat): nat {
    if a >= b then a - b else 0
  }

  /** The full history: every nonce accepted so far, and the largest of them. */
  datatype History = History(accepted: set<nat>, max: Option<nat>)

  const NOTHING := History({}, None)

  /** Everything up to here is too old. Before the first nonce nothing is. */
  function IsTooOld(h: History, window: nat, nonce: nat): bool {
    h.max.Some? && nonce <= SubOrZero(h.max.value, window)
  }

  /** The reference: answer from the full history. */
  function Judge(h: History, window: nat, nonce: nat): Answer {
    if IsTooOld(h, window, nonce) then TooOld
    else if nonce in h.accepted then Repeated
    else Accepted
  }

  function Record(h: History, window: nat, nonce: nat): History {
    if Judge(h, window, nonce) != Accepted then h else
      History(h.accepted + {nonce}, if h.max.None? || nonce > h.max.value then Some(nonce) else h.max)
  }

  /** What the window still has to keep. */
  ghost function Recent(h: History, window: nat): set<nat> {
    set n | n in h.accepted && !IsTooOld(h, window, n)
  }

  ghost predicate Coherent(h: History) {
    && (h.max.None? <==> h.accepted == {})
    && (h.max.Some? ==> h.max.value in h.accepted && forall n :: n in h.accepted ==> n <= h.max.value)
  }

  /** What accepting a nonce does to the part that has to be kept. */
  lemma RecentAfterAccepting(h: History, window: nat, nonce: nat)
    requires Coherent(h) && Judge(h, window, nonce) == Accepted
    ensures var h' := Record(h, window, nonce);
            && Coherent(h') && h'.max.Some?
            && Recent(h', window) == set n | n in Recent(h, window) + {nonce} && n > SubOrZero(h'.max.value, window)
  {
    var h' := Record(h, window, nonce);
    assert nonce in h'.accepted;
    assert h.max.Some? ==> SubOrZero(h.max.value, window) <= SubOrZero(h'.max.value, window);
  }

  class OknoNonce {
    const window: nat
    var max: Option<nat>
    var seen: set<nat>
    ghost var history: History

    /** The kept set is the recent part of the history. */
    ghost predicate Valid()
      reads this
    {
      Coherent(history) && max == history.max && seen == Recent(history, window)
    }

    constructor (window: nat)
      ensures Valid() && history == NOTHING && this.window == window
    {
      this.window := window;
      max, seen, history := None, {}, NOTHING;
    }

    /** Accepts a nonce or says why not, as the full history would. */
    method Accept(nonce: nat) returns (answer: Answer)
      requires Valid()
      modifies this
      ensures Valid()
      ensures answer == Judge(old(history), window, nonce)
      ensures history == Record(old(history), window, nonce)
      ensures |seen| <= window
    {
      SizeBound(history, window);
      if max.Some? && nonce <= SubOrZero(max.value, window) {
        return TooOld;
      }
      if nonce in seen {
        return Repeated;
      }
      RecentAfterAccepting(history, window, nonce);
      history := Record(history, window, nonce);
      SizeBound(history, window);
      seen := seen + {nonce};
      if max.None? || nonce > max.value {
        max := Some(nonce);
      }
      var bound := SubOrZero(max.value, window);
      seen := set n | n in seen && n > bound;
      return Accepted;
    }
  }

  /** A set of numbers in `(lo, hi]` has at most `hi - lo` members. */
  lemma {:induction false} IntervalSize(s: set<nat>, lo: nat, hi: nat)
    requires lo <= hi && forall n :: n in s ==> lo < n <= hi
    ensures |s| <= hi - lo
    decreases hi - lo
  {
    if lo == hi {
      assert s == {};
    } else {
      IntervalSize(s - {hi}, lo, hi - 1);
      if hi in s { assert |s| == |s - {hi}| + 1; } else { assert s - {hi} == s; }
    }
  }

  /** The memory never exceeds the window. */
  lemma SizeBound(h: History, window: nat)
    requires Coherent(h)
    ensures |Recent(h, window)| <= window
  {
    if h.max.Some? {
      IntervalSize(Recent(h, window), SubOrZero(h.max.value, window), h.max.value);
    } else {
      assert Recent(h, window) == {};
    }
  }

  // ---------------------------------------------------------------- whole runs

  /** The history after a run of calls. */
  function After(window: nat, calls: seq<nat>): History {
    if calls == [] then NOTHING else Record(After(window, calls[..|calls| - 1]), window, calls[|calls| - 1])
  }

  /** The answer to the i-th call of a run. */
  function AnswerTo(window: nat, calls: seq<nat>, i: nat): Answer
    requires i < |calls|
  {
    Judge(After(window, calls[..i]), window, calls[i])
  }

  lemma {:induction false} AcceptedInRun(window: nat, calls: seq<nat>, n: nat)
    ensures Coherent(After(window, calls))
    ensures n in After(window, calls).accepted <==>
            exists i :: 0 <= i < |calls| && calls[i] == n && AnswerTo(window, calls, i) == Accepted
  {
    if calls != [] {
      var k := |calls| - 1;
      var before := calls[..k];
      AcceptedInRun(window, before, n);
      forall i | 0 <= i < k
        ensures AnswerTo(window, before, i) == AnswerTo(window, calls, i)
      { assert before[..i] == calls[..i]; }
      if n in After(window, before).accepted {
        var i :| 0 <= i < k && before[i] == n && AnswerTo(window, before, i) == Accepted;
        assert calls[i] == n && AnswerTo(window, calls, i) == Accepted;
      }
      assert AnswerTo(window, calls, k) == Judge(After(window, before), window, calls[k]);
    }
  }

  /** Over any run, a call is accepted exactly when its nonce was not accepted before and lies above
      every earlier accepted nonce less the window (cut off at zero). In particular no nonce is
      accepted twice. */
  lemma AcceptedExactly(window: nat, calls: seq<nat>, i: nat)
    requires i < |calls|
    ensures AnswerTo(window, calls, i) == Accepted <==>
            forall j :: 0 <= j < i && AnswerTo(window, calls, j) == Accepted ==>
              calls[j] != calls[i] && calls[i] > SubOrZero(calls[j], window)
  {
    var before := calls[..i];
    var h := After(window, before);
    forall j | 0 <= j < i
      ensures AnswerTo(window, before, j) == AnswerTo(window, calls, j)
    { assert before[..j] == calls[..j]; }
    forall j | 0 <= j < i && AnswerTo(window, calls, j) == Accepted
      ensures calls[j] in h.accepted
    {
      AcceptedInRun(window, before, calls[j]);
      assert before[j] == calls[j];
    }
    AcceptedInRun(window, before, calls[i]);
    if calls[i] in h.accepted {
      var j :| 0 <= j < i && before[j] == calls[i] && AnswerTo(window, before, j) == Accepted;
      assert calls[j] == calls[i];
    }
    if h.max.Some? {
      AcceptedInRun(window, before, h.max.value);
      var j :| 0 <= j < i && before[j] == h.max.value && AnswerTo(window, before, j) == Accepted;
      assert calls[j] == h.max.value;
    }
  }

  /** An earlier accepted call that makes the nonce too old: it lies the window or more above it; a zero
      is too old behind anything. */
  ghost predicate Outdates(window: nat, calls: seq<nat>, j: nat, nonce: nat)
    requires j < |calls|
  {
    AnswerTo(window, calls, j) == Accepted && (nonce == 0 || nonce + window <= calls[j])
  }

  /** Which of the two refusals: too old behind such a call, and repeated if not, and an earlier call with
      this nonce was accepted. */
  lemma RefusedExactly(window: nat, calls: seq<nat>, i: nat)
    requires i < |calls|
    ensures AnswerTo(window, calls, i) == TooOld <==> exists j: nat :: j < i && Outdates(window, calls, j, calls[i])
    ensures AnswerTo(window, calls, i) == Repeated <==>
            && !(exists j: nat :: j < i && Outdates(window, calls, j, calls[i]))
            && (exists j: nat :: j < i && calls[j] == calls[i] && AnswerTo(window, calls, j) == Accepted)
  {
    var before := calls[..i];
    var h := After(window, before);
    forall j: nat | j < i
      ensures AnswerTo(window, before, j) == AnswerTo(window, calls, j) && before[j] == calls[j]
    { assert before[..j] == calls[..j]; }
    AcceptedInRun(window, before, calls[i]);
    forall j: nat | j < i && Outdates(window, calls, j, calls[i])
      ensures IsTooOld(h, window, calls[i])
    { AcceptedInRun(window, before, calls[j]); }
    if h.max.Some? {
      AcceptedInRun(window, before, h.max.value);
      var j: nat :| j < i && before[j] == h.max.value && AnswerTo(window, before, j) == Accepted;
      assert IsTooOld(h, window, calls[i]) ==> Outdates(window, calls, j, calls[i]);
    }
  }
}
