/** Per-peer admission: a token bucket for every peer and a bounded memory of recent jobs. */
module PeerLimit {
  import opened TokenBucket

  type Peer = string

  const MEMORY := 4096
  const MAX_BUCKETS := 10000

  datatype Memory = Memory(buckets: map<Peer, Bucket>, recent: seq<(Peer, string)>)

  datatype Verdict = Admitted | RepeatedJob | RateLimited

  datatype Call = Call(peer: Peer, job: string, now: nat)

  function IsRepeat(m: Memory, c: Call): bool {
    (c.peer, c.job) in m.recent
  }

  /** When there are too many buckets, all are dropped. */
  function Clears(m: Memory, rate: real, c: Call): bool {
    !IsRepeat(m, c) && rate > 0.0 && |m.buckets| > MAX_BUCKETS
  }

  function BucketOf(m: Memory, rate: real, c: Call): Bucket {
    if c.peer in m.buckets && !Clears(m, rate, c) then m.buckets[c.peer] else Full(rate * 4.0, rate, c.now)
  }

  function Remember(recent: seq<(Peer, string)>, entry: (Peer, string)): seq<(Peer, string)> {
    var all := recent + [entry];
    if |all| > MEMORY then all[1..] else all
  }

  function Decide(m: Memory, rate: real, c: Call): Verdict {
    if IsRepeat(m, c) then RepeatedJob
    else if rate > 0.0 && !Allows(BucketOf(m, rate, c), c.now) then RateLimited
    else Admitted
  }

  /** The memory after a call. */
  function Next(m: Memory, rate: real, c: Call): Memory {
    if IsRepeat(m, c) then m else
      var buckets := if Clears(m, rate, c) then map[] else m.buckets;
      var buckets' := if rate > 0.0 then buckets[c.peer := Spend(BucketOf(m, rate, c), c.now)] else buckets;
      Memory(buckets', if Decide(m, rate, c) == Admitted then Remember(m.recent, (c.peer, c.job)) else m.recent)
  }

  class PeerLimiter {
    var buckets: map<Peer, Bucket>
    var recent: seq<(Peer, string)>

    function Contents(): Memory
      reads this
    {
      Memory(buckets, recent)
    }

    constructor ()
      ensures Contents() == Memory(map[], [])
    {
      buckets, recent := map[], [];
    }

    /** Whether the job is remembered. */
    method IsRecent(peer: Peer, job: string) returns (found: bool)
      ensures found <==> (peer, job) in recent
    {
      var i := 0;
      while i < |recent|
        invariant 0 <= i <= |recent|
        invariant forall j :: 0 <= j < i ==> recent[j] != (peer, job)
      {
        if recent[i] == (peer, job) {
          return true;
        }
        i := i + 1;
      }
      return false;
    }

    /** Admits a request or says why not. A repeated job changes nothing at all. */
    method Limit(peer: Peer, job: string, rate: real, now: nat) returns (verdict: Verdict)
      modifies this
      ensures verdict == Decide(old(Contents()), rate, Call(peer, job, now))
      ensures Contents() == Next(old(Contents()), rate, Call(peer, job, now))
      ensures verdict == RepeatedJob ==> Contents() == old(Contents())
      ensures verdict != Admitted ==> recent == old(recent)
    {
      var repeated := IsRecent(peer, job);
      if repeated {
        return RepeatedJob;
      }
      if rate > 0.0 {
        if |buckets| > MAX_BUCKETS {
          buckets := map[];
        }
        if peer !in buckets {
          buckets := buckets[peer := Full(rate * 4.0, rate, now)];
        }
        var bucket := new Kubelek.Restore(buckets[peer]);
        var ok := bucket.Allow(now);
        buckets := buckets[peer := bucket.State()];
        if !ok {
          return RateLimited;
        }
      }
      recent := recent + [(peer, job)];
      if |recent| > MEMORY {
        recent := recent[1..];
      }
      return Admitted;
    }
  }

  // ---------------------------------------------------------------- whole runs

  function After(m: Memory, rate: real, calls: seq<Call>): Memory {
    if calls == [] then m else Next(After(m, rate, calls[..|calls| - 1]), rate, calls[|calls| - 1])
  }

  /** The jobs admitted, in order. */
  function Admissions(m: Memory, rate: real, calls: seq<Call>): seq<(Peer, string)> {
    if calls == [] then [] else
      var n := |calls| - 1;
      var before := Admissions(m, rate, calls[..n]);
      if Decide(After(m, rate, calls[..n]), rate, calls[n]) == Admitted then before + [(calls[n].peer, calls[n].job)]
      else before
  }

  /** The last `MEMORY` entries, or all of them if there are fewer. */
  function Latest<T>(s: seq<T>): seq<T> {
    if |s| > MEMORY then s[|s| - MEMORY..] else s
  }

  lemma RememberIsLatest(s: seq<(Peer, string)>, entry: (Peer, string))
    ensures Remember(Latest(s), entry) == Latest(s + [entry])
  {
    if |s| >= MEMORY {
      assert Latest(s + [entry]) == s[|s| + 1 - MEMORY..] + [entry];
      assert (Latest(s) + [entry])[1..] == Latest(s)[1..] + [entry];
    }
  }

  /** The bounded memory is the end of the list of all admissions. */
  lemma {:induction false} MemoryIsLatestAdmissions(rate: real, calls: seq<Call>)
    ensures After(Memory(map[], []), rate, calls).recent == Latest(Admissions(Memory(map[], []), rate, calls))
  {
    if calls != [] {
      var n := |calls| - 1;
      MemoryIsLatestAdmissions(rate, calls[..n]);
      RememberIsLatest(Admissions(Memory(map[], []), rate, calls[..n]), (calls[n].peer, calls[n].job));
    }
  }

  /** `entry` is one of the last 4096 of `s`. */
  ghost predicate AmongLatest(s: seq<(Peer, string)>, entry: (Peer, string)) {
    exists i :: 0 <= i < |s| && |s| - i <= 4096 && s[i] == entry
  }

  lemma LatestMembers(s: seq<(Peer, string)>, entry: (Peer, string))
    ensures entry in Latest(s) <==> AmongLatest(s, entry)
  {
    var latest := Latest(s);
    if entry in latest {
      var j :| 0 <= j < |latest| && latest[j] == entry;
      assert s[j + |s| - |latest|] == entry;
    }
    if AmongLatest(s, entry) {
      var i :| 0 <= i < |s| && |s| - i <= MEMORY && s[i] == entry;
      InLatest(s, i);
    }
  }

  /** A request is refused as repeated exactly when it is among the last 4096 admitted. */
  lemma RepeatExactly(rate: real, calls: seq<Call>, c: Call)
    ensures Decide(After(Memory(map[], []), rate, calls), rate, c) == RepeatedJob <==>
            AmongLatest(Admissions(Memory(map[], []), rate, calls), (c.peer, c.job))
  {
    MemoryIsLatestAdmissions(rate, calls);
    LatestMembers(Admissions(Memory(map[], []), rate, calls), (c.peer, c.job));
  }

  /** Any 4097 consecutive admissions are pairwise different. */
  lemma {:induction false} AdmissionsAreDistinct(rate: real, calls: seq<Call>, i: nat, j: nat)
    requires i < j < |Admissions(Memory(map[], []), rate, calls)| && j - i <= MEMORY
    ensures Admissions(Memory(map[], []), rate, calls)[i] != Admissions(Memory(map[], []), rate, calls)[j]
  {
    var n := |calls| - 1;
    var before := Admissions(Memory(map[], []), rate, calls[..n]);
    if j < |before| {
      AdmissionsAreDistinct(rate, calls[..n], i, j);
    } else {
      MemoryIsLatestAdmissions(rate, calls[..n]);
      InLatest(before, i);
    }
  }

  lemma InLatest<T>(s: seq<T>, i: nat)
    requires i < |s| && |s| - i <= MEMORY
    ensures s[i] in Latest(s)
  {
    var l := Latest(s);
    assert l[i - (|s| - |l|)] == s[i];
  }

  /** The memory is bounded: 4096 jobs and 10001 buckets. */
  lemma {:induction false} MemoryIsBounded(rate: real, calls: seq<Call>)
    ensures var m := After(Memory(map[], []), rate, calls);
            |m.recent| <= 4096 && |m.buckets| <= 10001
  {
    if calls != [] {
      MemoryIsBounded(rate, calls[..|calls| - 1]);
      OneMoreBucket(After(Memory(map[], []), rate, calls[..|calls| - 1]), rate, calls[|calls| - 1]);
    }
  }

  lemma OneMoreBucket(m: Memory, rate: real, c: Call)
    ensures |Next(m, rate, c).buckets| <= |m.buckets| + 1
    ensures |m.buckets| > 10000 && Next(m, rate, c).buckets != m.buckets ==> |Next(m, rate, c).buckets| == 1
  {
    var buckets := if Clears(m, rate, c) then map[] else m.buckets;
    AddedKey(buckets, c.peer, Spend(BucketOf(m, rate, c), c.now));
  }

  lemma AddedKey<K, V>(m: map<K, V>, k: K, v: V)
    ensures |m[k := v]| <= |m| + 1
    ensures m == map[] ==> |m[k := v]| == 1
  {
    assert m[k := v].Keys == m.Keys + {k};
  }

  // ---------------------------------------------------------------- one peer's bucket is its own

  /** Before each call there are no more than 10000 buckets. */
  ghost predicate FewBuckets(m: Memory, rate: real, calls: seq<Call>) {
    calls == [] || (FewBuckets(m, rate, calls[..|calls| - 1]) && |After(m, rate, calls[..|calls| - 1]).buckets| <= 10000)
  }

  /** When the peer's calls came that were not repetitions. */
  function OwnTimes(peer: Peer, m: Memory, rate: real, calls: seq<Call>): seq<nat> {
    if calls == [] then [] else
      var n := |calls| - 1;
      var before := OwnTimes(peer, m, rate, calls[..n]);
      if calls[n].peer == peer && (peer, calls[n].job) !in After(m, rate, calls[..n]).recent then before + [calls[n].now] else before
  }

  /** The bucket a peer starts from: its own, or a new one of four times the rate. */
  function FirstBucket(peer: Peer, m: Memory, rate: real, now: nat): Bucket {
    if peer in m.buckets then m.buckets[peer] else Bucket(rate * 4.0, rate, rate * 4.0, now)
  }

  /** The bucket is what a token bucket of the peer's alone would be, and has let as many through. */
  ghost predicate IsOwn(peer: Peer, m: Memory, rate: real, now: Memory, times: seq<nat>, admitted: nat) {
    if times == [] then admitted == 0 && (peer in now.buckets <==> peer in m.buckets) && (peer in m.buckets ==> now.buckets[peer] == m.buckets[peer])
    else
      var b := FirstBucket(peer, m, rate, times[0]);
      peer in now.buckets && now.buckets[peer] == Run(b, times) && admitted == Allowed(b, times)
  }

  lemma OwnStep(peer: Peer, m: Memory, rate: real, now: Memory, times: seq<nat>, admitted: nat, c: Call)
    requires rate > 0.0 && |now.buckets| <= 10000 && IsOwn(peer, m, rate, now, times, admitted)
    ensures var own := c.peer == peer && (peer, c.job) !in now.recent;
            IsOwn(peer, m, rate, Next(now, rate, c), if own then times + [c.now] else times,
                  admitted + if own && Decide(now, rate, c) == Admitted then 1 else 0)
  {
    var times' := times + [c.now];
    assert times'[..|times|] == times;
    if times == [] { assert Run(FirstBucket(peer, m, rate, c.now), []) == FirstBucket(peer, m, rate, c.now); }
  }

  /** As long as there are no more than 10000 buckets, what a peer is admitted is what a token bucket of its
      own lets through at the times of its calls, whatever the others do. */
  lemma {:induction false} PeersAreIndependent(peer: Peer, m: Memory, rate: real, calls: seq<Call>)
    requires rate > 0.0 && FewBuckets(m, rate, calls)
    ensures IsOwn(peer, m, rate, After(m, rate, calls), OwnTimes(peer, m, rate, calls), AdmittedOf(peer, m, rate, calls))
  {
    if calls != [] {
      var n := |calls| - 1;
      PeersAreIndependent(peer, m, rate, calls[..n]);
      OwnStep(peer, m, rate, After(m, rate, calls[..n]), OwnTimes(peer, m, rate, calls[..n]), AdmittedOf(peer, m, rate, calls[..n]), calls[n]);
    }
  }

  /** A new peer's first call is let through exactly if the rate is no limit or at least a quarter. */
  lemma NewPeerIsAdmittedExactly(m: Memory, rate: real, c: Call)
    requires c.peer !in m.buckets && (c.peer, c.job) !in m.recent
    ensures Decide(m, rate, c) == Admitted <==> rate <= 0.0 || rate >= 0.25
  {
    assert Accrued(rate, 0) == 0.0;
  }

  // ---------------------------------------------------------------- the rate of one peer

  function AdmittedOf(peer: Peer, m: Memory, rate: real, calls: seq<Call>): nat {
    if calls == [] then 0 else
      var n := |calls| - 1;
      AdmittedOf(peer, m, rate, calls[..n]) +
        if calls[n].peer == peer && Decide(After(m, rate, calls[..n]), rate, calls[n]) == Admitted then 1 else 0
  }

  /** The buckets are those of this rate. */
  ghost predicate HasRate(m: Memory, rate: real) {
    forall p :: p in m.buckets ==> Proper(m.buckets[p], rate)
  }

  ghost predicate Proper(b: Bucket, rate: real) {
    b.rate == rate && b.capacity == rate * 4.0 && 0.0 <= b.available <= b.capacity
  }

  /** Nothing behind the first call of the run drops the buckets; the first one may. */
  ghost predicate ClearsOnlyFirst(m: Memory, rate: real, calls: seq<Call>) {
    |calls| <= 1 || (
      var n := |calls| - 1;
      ClearsOnlyFirst(m, rate, calls[..n]) && !Clears(After(m, rate, calls[..n]), rate, calls[n]))
  }

  ghost predicate Within(calls: seq<Call>, lo: nat, hi: nat) {
    forall i :: 0 <= i < |calls| ==> lo <= calls[i].now <= hi
  }

  function MinNat(a: nat, b: nat): nat { if a <= b then a else b }

  /** The account of a bucket: what it let through since `lo` and what it holds do not exceed the
      burst plus the refill since `lo`. */
  ghost predicate Paid(b: Bucket, admitted: nat, lo: nat, hi: nat) {
    && lo <= hi && b.last >= lo
    && admitted as real + b.available <= b.capacity + Accrued(b.rate, MinNat(b.last, hi) - lo)
  }

  lemma StepOfBucket(b: Bucket, rate: real, now: nat, lo: nat, hi: nat, admitted: nat)
    requires rate > 0.0 && Proper(b, rate) && lo <= now <= hi
    requires admitted == 0 || Paid(b, admitted, lo, hi)
    ensures Proper(Spend(b, now), rate)
    ensures Paid(Spend(b, now), admitted + if Allows(b, now) then 1 else 0, lo, hi)
  {
    var b' := Spend(b, now);
    AccruedNotNegative(rate, MinNat(b'.last, hi) - lo);
    AccruedNotNegative(rate, if now >= b.last then now - b.last else 0);
    if admitted > 0 && now >= b.last {
      AccruedAdds(rate, b.last - lo, now - b.last);
    } else if admitted > 0 {
      assert Accrued(rate, 0) == 0.0;
    }
  }

  /** The peer's bucket accounts for what the peer was admitted, if it was admitted anything. */
  ghost predicate Covered(peer: Peer, m: Memory, admitted: nat, lo: nat, hi: nat) {
    admitted == 0 || (peer in m.buckets && Paid(m.buckets[peer], admitted, lo, hi))
  }

  lemma StepOfPeer(peer: Peer, m: Memory, rate: real, c: Call, lo: nat, hi: nat, admitted: nat)
    requires rate > 0.0 && HasRate(m, rate) && lo <= c.now <= hi
    requires Covered(peer, m, admitted, lo, hi) && (Clears(m, rate, c) ==> admitted == 0)
    ensures HasRate(Next(m, rate, c), rate)
    ensures var one := if c.peer == peer && Decide(m, rate, c) == Admitted then 1 else 0;
            Covered(peer, Next(m, rate, c), admitted + one, lo, hi)
  {
    if !IsRepeat(m, c) {
      var b := BucketOf(m, rate, c);
      StepOfBucket(b, rate, c.now, lo, hi, if c.peer == peer then admitted else 0);
      var m' := Next(m, rate, c);
      assert m'.buckets == (if Clears(m, rate, c) then map[] else m.buckets)[c.peer := Spend(b, c.now)];
    }
  }

  /** In every memory a run from the start comes to, clears included, the buckets are those of the rate. */
  lemma {:induction false} AlwaysHasRate(rate: real, calls: seq<Call>)
    requires rate > 0.0
    ensures HasRate(After(Memory(map[], []), rate, calls), rate)
  {
    if calls != [] {
      var n := |calls| - 1;
      AlwaysHasRate(rate, calls[..n]);
      var c := calls[n];
      StepOfPeer(c.peer, After(Memory(map[], []), rate, calls[..n]), rate, c, c.now, c.now, 0);
    }
  }

  lemma {:induction false} RateInvariant(peer: Peer, m: Memory, rate: real, calls: seq<Call>, lo: nat, hi: nat)
    requires rate > 0.0 && HasRate(m, rate) && ClearsOnlyFirst(m, rate, calls) && Within(calls, lo, hi)
    ensures HasRate(After(m, rate, calls), rate)
    ensures Covered(peer, After(m, rate, calls), AdmittedOf(peer, m, rate, calls), lo, hi)
  {
    if calls != [] {
      var n := |calls| - 1;
      assert forall i :: 0 <= i < n ==> calls[..n][i] == calls[i];
      RateInvariant(peer, m, rate, calls[..n], lo, hi);
      StepOfPeer(peer, After(m, rate, calls[..n]), rate, calls[n], lo, hi, AdmittedOf(peer, m, rate, calls[..n]));
    }
  }

  /** In any part of a run from the start in which the buckets are dropped at most by its first call,
      and whose clock readings lie between `lo` and `hi` in any order, a peer is admitted at most four
      times the rate plus the rate times the span, whatever the other peers do. */
  lemma PeerRateBound(peer: Peer, rate: real, before: seq<Call>, calls: seq<Call>, lo: nat, hi: nat)
    requires rate > 0.0 && lo <= hi && Within(calls, lo, hi)
    requires ClearsOnlyFirst(After(Memory(map[], []), rate, before), rate, calls)
    ensures AdmittedOf(peer, After(Memory(map[], []), rate, before), rate, calls) as real <= rate * 4.0 + Accrued(rate, hi - lo)
  {
    var m := After(Memory(map[], []), rate, before);
    AlwaysHasRate(rate, before);
    RateInvariant(peer, m, rate, calls, lo, hi);
    var admitted, e := AdmittedOf(peer, m, rate, calls), After(m, rate, calls);
    AccruedNotNegative(rate, hi - lo);
    if admitted > 0 {
      assert Proper(e.buckets[peer], rate);
      MoreTimeMoreTokens(rate, MinNat(e.buckets[peer].last, hi) - lo, hi - lo);
    }
  }

  lemma MoreTimeMoreTokens(rate: real, a: nat, b: nat)
    requires rate >= 0.0 && a <= b
    ensures Accrued(rate, a) <= Accrued(rate, b)
  {
    AccruedAdds(rate, a, b - a);
    AccruedNotNegative(rate, b - a);
  }
}
