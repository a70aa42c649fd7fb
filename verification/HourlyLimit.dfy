/** The demo's limit of jobs per hour, kept as a list of time stamps in a file. */
module HourlyLimit {
  import opened Basics

  /** `Crashed` is the uncaught error of taking the minimum of no time stamps. */
  datatype Verdict = Accepted | Refused(minutes: int) | Crashed

  const HOUR := 3600.0

  /** The stamps younger than an hour. */
  function Young(stamps: seq<real>, now: real): seq<real> {
    if stamps == [] then [] else
      var n := |stamps| - 1;
      if now - stamps[n] < HOUR then Young(stamps[..n], now) + [stamps[n]] else Young(stamps[..n], now)
  }

  /** `idx` holds, ascending, exactly the positions of the stamps of the last 3600 seconds, and `out` these
      stamps. */
  ghost predicate AreYoung(stamps: seq<real>, now: real, out: seq<real>, idx: seq<nat>) {
    && |idx| == |out|
    && (forall k, l :: 0 <= k < l < |idx| ==> idx[k] < idx[l])
    && (forall k :: 0 <= k < |idx| ==> idx[k] < |stamps| && out[k] == stamps[idx[k]] && now - out[k] < 3600.0)
    && (forall i :: 0 <= i < |stamps| && now - stamps[i] < 3600.0 ==> i in idx)
  }

  lemma OneMoreStamp(stamps: seq<real>, now: real, out: seq<real>, idx: seq<nat>, x: real)
    requires AreYoung(stamps, now, out, idx)
    ensures if now - x < 3600.0 then AreYoung(stamps + [x], now, out + [x], idx + [|stamps|]) else AreYoung(stamps + [x], now, out, idx)
  {
    var all := stamps + [x];
    assert forall i :: 0 <= i < |stamps| ==> all[i] == stamps[i];
    if now - x < 3600.0 {
      var idx', out' := idx + [|stamps|], out + [x];
      forall k | 0 <= k < |idx'|
        ensures idx'[k] < |all| && out'[k] == all[idx'[k]] && now - out'[k] < 3600.0
      { if k < |idx| { assert idx'[k] == idx[k] && out'[k] == out[k]; } }
    }
  }

  /** What is kept are the stamps of the last hour, each once and in order, and no others. */
  lemma {:induction false} YoungExactly(stamps: seq<real>, now: real) returns (idx: seq<nat>)
    ensures AreYoung(stamps, now, Young(stamps, now), idx)
  {
    if stamps == [] {
      idx := [];
    } else {
      var n := |stamps| - 1;
      idx := YoungExactly(stamps[..n], now);
      OneMoreStamp(stamps[..n], now, Young(stamps[..n], now), idx, stamps[n]);
      assert stamps[..n] + [stamps[n]] == stamps;
      if now - stamps[n] < HOUR { idx := idx + [n]; }
    }
  }

  /** A missing or damaged file counts as empty. */
  function Kept(file: Option<seq<real>>, now: real): seq<real> {
    match file
    case None => []
    case Some(stamps) => Young(stamps, now)
  }

  function Oldest(stamps: seq<real>): real
    requires stamps != []
  {
    var n := |stamps| - 1;
    if n == 0 then stamps[0] else
      var o := Oldest(stamps[..n]);
      if stamps[n] < o then stamps[n] else o
  }

  lemma {:induction false} OldestIsLeast(stamps: seq<real>)
    requires stamps != []
    ensures Oldest(stamps) in stamps && forall i :: 0 <= i < |stamps| ==> Oldest(stamps) <= stamps[i]
  {
    var n := |stamps| - 1;
    if n > 0 {
      OldestIsLeast(stamps[..n]);
      assert stamps == stamps[..n] + [stamps[n]];
    }
  }

  function Advice(kept: seq<real>, now: real): int
    requires kept != []
  {
    ((HOUR - (now - Oldest(kept))) / 60.0).Floor + 1
  }

  function Decide(file: Option<seq<real>>, limit: int, now: real): Verdict {
    var kept := Kept(file, now);
    if |kept| < limit then Accepted else if kept == [] then Crashed else Refused(Advice(kept, now))
  }

  /** The file after a call; `writable` says whether writing it succeeds. */
  function FileAfter(file: Option<seq<real>>, limit: int, now: real, writable: bool): Option<seq<real>> {
    if Decide(file, limit, now) == Accepted && writable then Some(Kept(file, now) + [now]) else file
  }

  /** The three verdicts, exactly: a call passes while fewer than the limit are kept, and is otherwise
      refused, unless nothing is kept; then taking the minimum fails, which takes a limit of zero or
      less. */
  lemma VerdictExactly(file: Option<seq<real>>, limit: int, now: real)
    ensures var kept := Kept(file, now);
            && (Decide(file, limit, now).Accepted? <==> |kept| < limit)
            && (Decide(file, limit, now).Refused? <==> |kept| >= limit && kept != [])
            && (Decide(file, limit, now).Crashed? <==> limit <= 0 && kept == [])
  {}

  /** For instance a limit of zero and no file, or a file whose only stamp has expired. */
  lemma ZeroLimitCrashes(now: real)
    ensures Decide(None, 0, now) == Crashed
    ensures Decide(Some([now - HOUR]), 0, now) == Crashed
  {
    var stamps := [now - HOUR];
    assert stamps[..0] == [];
    assert Young(stamps[..0], now) == [];
  }

  class Counter {
    var file: Option<seq<real>>

    method Check(limit: int, now: real, writable: bool) returns (v: Verdict)
      modifies this
      ensures v == Decide(old(file), limit, now)
      ensures file == FileAfter(old(file), limit, now, writable)
    {
      var stamps := [];
      if file.Some? {
        var i := 0;
        while i < |file.value|
          invariant 0 <= i <= |file.value| && file == old(file)
          invariant stamps == Young(file.value[..i], now)
        {
          assert file.value[..i + 1][..i] == file.value[..i];
          if now - file.value[i] < HOUR {
            stamps := stamps + [file.value[i]];
          }
          i := i + 1;
        }
        assert file.value[..i] == file.value;
      }
      if |stamps| >= limit {
        if stamps == [] {
          return Crashed;
        }
        return Refused(Advice(stamps, now));
      }
      if writable {
        file := Some(stamps + [now]);
      }
      return Accepted;
    }
  }

  // ---------------------------------------------------------------- whole runs

  /** The file after a run of calls with a fixed limit in which every write succeeds. */
  function After(limit: int, times: seq<real>): Option<seq<real>> {
    if times == [] then None else FileAfter(After(limit, times[..|times| - 1]), limit, times[|times| - 1], true)
  }

  /** The times of the accepted calls. */
  function AcceptedAt(limit: int, times: seq<real>): seq<real> {
    if times == [] then [] else
      var n := |times| - 1;
      if Decide(After(limit, times[..n]), limit, times[n]) == Accepted then AcceptedAt(limit, times[..n]) + [times[n]]
      else AcceptedAt(limit, times[..n])
  }

  /** The clock does not run backwards, and reads at most `now` in the end. */
  ghost predicate Ascending(times: seq<real>, now: real) {
    times == [] || (Ascending(times[..|times| - 1], times[|times| - 1]) && times[|times| - 1] <= now)
  }

  lemma {:induction false} YoungLater(stamps: seq<real>, t1: real, t2: real)
    requires t1 <= t2
    ensures Young(Young(stamps, t1), t2) == Young(stamps, t2)
  {
    if stamps != [] {
      var n := |stamps| - 1;
      YoungLater(stamps[..n], t1, t2);
      if t1 - stamps[n] < HOUR { YoungSnoc(Young(stamps[..n], t1), stamps[n], t2); }
    }
  }

  lemma YoungSnoc(stamps: seq<real>, x: real, now: real)
    ensures Young(stamps + [x], now) == if now - x < HOUR then Young(stamps, now) + [x] else Young(stamps, now)
  {
    assert (stamps + [x])[..|stamps|] == stamps;
  }

  lemma {:induction false} YoungShorter(stamps: seq<real>, now: real)
    ensures |Young(stamps, now)| <= |stamps|
    ensures |Young(stamps, now)| == |stamps| ==> Young(stamps, now) == stamps
  {
    if stamps != [] {
      YoungShorter(stamps[..|stamps| - 1], now);
      assert stamps == stamps[..|stamps| - 1] + [stamps[|stamps| - 1]];
    }
  }

  /** What the file has forgotten does not matter: it keeps exactly the accepted calls of the last
      hour, and never more than the limit. */
  lemma {:induction false} FileKeepsTheHour(limit: int, times: seq<real>, now: real)
    requires limit >= 1 && Ascending(times, now)
    ensures Kept(After(limit, times), now) == Young(AcceptedAt(limit, times), now)
    ensures After(limit, times).Some? ==> |After(limit, times).value| <= limit
  {
    if times != [] {
      var n := |times| - 1;
      var before, t := times[..n], times[n];
      FileKeepsTheHour(limit, before, t);
      if Decide(After(limit, before), limit, t) == Accepted {
        var kept := Kept(After(limit, before), t);
        YoungSnoc(kept, t, now);
        YoungLater(AcceptedAt(limit, before), t, now);
        YoungSnoc(AcceptedAt(limit, before), t, now);
      } else {
        AscendingLater(before, t, now);
        FileKeepsTheHour(limit, before, now);
      }
    }
  }

  lemma AscendingLater(times: seq<real>, t: real, now: real)
    requires Ascending(times, t) && t <= now
    ensures Ascending(times, now)
  {}

  /** How many of the stamps lie in the half-open hour that starts at `from`. */
  function InHour(stamps: seq<real>, from: real): nat {
    if stamps == [] then 0 else
      var n := |stamps| - 1;
      InHour(stamps[..n], from) + if from <= stamps[n] < from + HOUR then 1 else 0
  }

  lemma {:induction false} HourIsYoung(stamps: seq<real>, from: real, now: real)
    requires now - from < HOUR
    ensures InHour(stamps, from) <= |Young(stamps, now)|
  {
    if stamps != [] { HourIsYoung(stamps[..|stamps| - 1], from, now); }
  }

  lemma InHourSnoc(stamps: seq<real>, x: real, from: real)
    ensures InHour(stamps + [x], from) == InHour(stamps, from) + if from <= x < from + HOUR then 1 else 0
  {
    assert (stamps + [x])[..|stamps|] == stamps;
  }

  /** No half-open hour, wherever it starts, holds more accepted calls than the limit. */
  lemma {:induction false} AtMostLimitPerHour(limit: int, times: seq<real>, now: real, from: real)
    requires limit >= 1 && Ascending(times, now)
    ensures InHour(AcceptedAt(limit, times), from) <= limit
  {
    if times != [] {
      var n := |times| - 1;
      var before, t := times[..n], times[n];
      AtMostLimitPerHour(limit, before, t, from);
      FileKeepsTheHour(limit, before, t);
      var a := AcceptedAt(limit, before);
      InHourSnoc(a, t, from);
      if t - from < HOUR { HourIsYoung(a, from, t); }
    }
  }

  // ---------------------------------------------------------------- the advice

  lemma {:induction false} OldestExpires(stamps: seq<real>, now: real)
    requires stamps != []
    ensures |Young(stamps, now)| == |stamps| <==> now - Oldest(stamps) < HOUR
  {
    var n := |stamps| - 1;
    YoungShorter(stamps[..n], now);
    if n > 0 { OldestExpires(stamps[..n], now); }
  }

  /** The advice in minutes: the next whole one after the time until the oldest stamp expires. */
  lemma AdviceExactly(kept: seq<real>, now: real)
    requires kept != []
    ensures var left := 3600.0 - (now - Oldest(kept));
            (Advice(kept, now) - 1) as real * 60.0 <= left < Advice(kept, now) as real * 60.0
  {
    WholePart((HOUR - (now - Oldest(kept))) / 60.0);
  }

  lemma WholePart(x: real)
    ensures x.Floor as real <= x < (x.Floor + 1) as real
  {}

  /** After a refusal, with nobody accepted in between, a later call is accepted exactly when the
      oldest stamp has expired. Waiting the advised minutes is enough, and the advice is at most a
      minute too long. */
  lemma AdviceWorks(limit: int, times: seq<real>, now: real, later: real)
    requires limit >= 1 && Ascending(times, now) && now <= later
    requires Decide(After(limit, times), limit, now).Refused?
    ensures var file := After(limit, times);
            var wait := Decide(file, limit, now).minutes as real * 60.0;
            && wait > 0.0 && Kept(file, now) != []
            && (Decide(file, limit, later) == Accepted <==> later - Oldest(Kept(file, now)) >= HOUR)
            && (later >= now + wait ==> Decide(file, limit, later) == Accepted)
            && (later < now + wait - 60.0 ==> Decide(file, limit, later).Refused?)
  {
    FileKeepsTheHour(limit, times, now);
    var stamps := After(limit, times).value;
    YoungShorter(stamps, now);
    YoungShorter(stamps, later);
    OldestExpires(stamps, now);
    OldestExpires(stamps, later);
    var left := HOUR - (now - Oldest(stamps));
    assert left > 0.0;
    FloorBounds(left / 60.0);
  }

  lemma FloorBounds(x: real)
    requires x > 0.0
    ensures x.Floor >= 0
    ensures x.Floor as real <= x < (x.Floor + 1) as real
  {}
}
