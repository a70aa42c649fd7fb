/** The token bucket: burst `capacity`, refill `rate` tokens per second, clock in microseconds. */
module TokenBucket {

  datatype Bucket = Bucket(capacity: real, rate: real, available: real, last: nat)

  function Full(capacity: real, rate: real, now: nat): Bucket {
    Bucket(capacity, rate, capacity, now)
  }

  function Min(a: real, b: real): real { if a <= b then a else b }
  function Max(a: nat, b: nat): nat { if a >= b then a else b }

  /** Tokens that accrue in a number of microseconds: a millionth of the rate in each. */
  function Accrued(rate: real, us: nat): real {
    if us == 0 then 0.0 else Accrued(rate, us - 1) + rate / 1000000.0
  }

  /** In closed form, the seconds times the rate. */
  lemma {:induction false} AccruedFormula(rate: real, us: nat)
    ensures Accrued(rate, us) == us as real / 1000000.0 * rate
  {
    if us > 0 {
      AccruedFormula(rate, us - 1);
      var a, b := (us - 1) as real / 1000000.0, 1.0 / 1000000.0;
      assert us as real / 1000000.0 == a + b;
      assert (a + b) * rate == a * rate + b * rate;
    }
  }

  /** A clock that jumps back adds nothing and does not move `last`. */
  function Refill(b: Bucket, now: nat): Bucket {
    var dt := if now >= b.last then now - b.last else 0;
    b.(last := Max(b.last, now), available := Min(b.available + Accrued(b.rate, dt), b.capacity))
  }

  function Allows(b: Bucket, now: nat): bool {
    Refill(b, now).available >= 1.0
  }

  function Spend(b: Bucket, now: nat): Bucket {
    var r := Refill(b, now);
    if r.available >= 1.0 then r.(available := r.available - 1.0) else r
  }

  class Kubelek {
    const capacity: real
    const rate: real
    var available: real
    var last: nat

    function State(): Bucket
      reads this
    {
      Bucket(capacity, rate, available, last)
    }

    constructor (capacity: real, rate: real, now: nat)
      ensures State() == Full(capacity, rate, now)
    {
      this.capacity, this.rate := capacity, rate;
      available, last := capacity, now;
    }

    /** An existing bucket, taken up again. */
    constructor Restore(b: Bucket)
      ensures State() == b
    {
      capacity, rate := b.capacity, b.rate;
      available, last := b.available, b.last;
    }

    /** Lets one message through or refuses it. */
    method Allow(now: nat) returns (ok: bool)
      modifies this
      ensures ok == Allows(old(State()), now)
      ensures State() == Spend(old(State()), now)
    {
      AccruedFormula(rate, if now >= last then now - last else 0);
      var dt := (if now >= last then now - last else 0) as real / 1000000.0;
      last := Max(last, now);
      available := Min(available + dt * rate, capacity);
      ok := available >= 1.0;
      if ok {
        available := available - 1.0;
      }
    }
  }

  // ---------------------------------------------------------------- whole runs

  function Run(b: Bucket, times: seq<nat>): Bucket {
    if times == [] then b else Spend(Run(b, times[..|times| - 1]), times[|times| - 1])
  }

  /** How many calls of the run are let through. */
  function Allowed(b: Bucket, times: seq<nat>): nat {
    if times == [] then 0 else
      var n := |times| - 1;
      Allowed(b, times[..n]) + if Allows(Run(b, times[..n]), times[n]) then 1 else 0
  }

  lemma {:induction false} AccruedAdds(rate: real, a: nat, b: nat)
    ensures Accrued(rate, a + b) == Accrued(rate, a) + Accrued(rate, b)
  {
    if b > 0 { AccruedAdds(rate, a, b - 1); }
  }

  lemma {:induction false} AccruedNotNegative(rate: real, a: nat)
    requires rate >= 0.0
    ensures Accrued(rate, a) >= 0.0
  {
    if a > 0 { AccruedNotNegative(rate, a - 1); }
  }

  /** Nothing is let through that was not there at the start or accrued since: what is let through
      and what is left never exceed the tokens at the start plus the refill over the advance of the
      bucket's own clock, whatever the caller's clock does. */
  lemma {:induction false} RateBound(b: Bucket, times: seq<nat>)
    requires b.rate >= 0.0
    ensures var e := Run(b, times);
            && e.capacity == b.capacity && e.rate == b.rate && e.last >= b.last
            && Allowed(b, times) as real + e.available <= b.available + Accrued(b.rate, e.last - b.last)
  {
    if times == [] {
      AccruedNotNegative(b.rate, 0);
    } else {
      var n := |times| - 1;
      var m := Run(b, times[..n]);
      RateBound(b, times[..n]);
      var dt := if times[n] >= m.last then times[n] - m.last else 0;
      AccruedAdds(b.rate, m.last - b.last, dt);
      assert Spend(m, times[n]).last - b.last == (m.last - b.last) + dt;
    }
  }

  /** In any run the calls let through are at most the burst plus the refill since its first call. */
  lemma BurstBound(b: Bucket, times: seq<nat>)
    requires b.rate >= 0.0 && times != []
    requires b.available >= 0.0
    ensures var e := Run(b, times);
            e.last >= Max(b.last, times[0]) &&
            Allowed(b, times) as real + e.available <= b.capacity + Accrued(b.rate, e.last - Max(b.last, times[0]))
  {
    FirstRefillCounts(b, times);
    RefillIsCapped(b, times[0]);
    RateBound(Refill(b, times[0]), times);
  }

  lemma RefillIsCapped(b: Bucket, now: nat)
    ensures var r := Refill(b, now);
            r.capacity == b.capacity && r.rate == b.rate && r.last == Max(b.last, now) && r.available <= b.capacity
  {}

  /** Refilling at the time of the first call, before the run, changes nothing. */
  lemma {:induction false} FirstRefillCounts(b: Bucket, times: seq<nat>)
    requires times != []
    ensures Run(Refill(b, times[0]), times) == Run(b, times)
    ensures Allowed(Refill(b, times[0]), times) == Allowed(b, times)
  {
    var n := |times| - 1;
    if n == 0 {
      assert times[..0] == [];
      var r := Refill(b, times[0]);
      assert Accrued(b.rate, 0) == 0.0;
      assert Refill(r, times[0]) == r;
    } else {
      assert times[..n][0] == times[0];
      FirstRefillCounts(b, times[..n]);
    }
  }

  /** What is there at a moment: what was left and has accrued, up to the capacity. */
  ghost predicate HoldsAt(b: Bucket, now: nat, tokens: real) {
    tokens == Min(b.available + Accrued(b.rate, if now >= b.last then now - b.last else 0), b.capacity)
  }

  lemma SpendAtOnce(b: Bucket, now: nat, tokens: real)
    requires b.last >= now && b.available == tokens <= b.capacity
    ensures Allows(b, now) <==> tokens >= 1.0
    ensures Spend(b, now) == b.(available := if tokens >= 1.0 then tokens - 1.0 else tokens)
  {
    assert Accrued(b.rate, 0) == 0.0;
  }

  /** Calls at one moment: of what the bucket holds then, every whole token is let through and no more. A
      new bucket, for instance, lets its whole capacity through at once. */
  lemma {:induction false} BurstExactly(b: Bucket, now: nat, tokens: real, times: seq<nat>)
    requires HoldsAt(b, now, tokens) && times != [] && forall i :: 0 <= i < |times| ==> times[i] == now
    ensures var allowed := Allowed(b, times);
            && (allowed as real <= tokens || allowed == 0)
            && (allowed == |times| || allowed as real + 1.0 > tokens)
    ensures Run(b, times) == b.(last := Max(b.last, now), available := tokens - Allowed(b, times) as real)
  {
    var n := |times| - 1;
    if n == 0 {
      assert times[..0] == [];
    } else {
      BurstExactly(b, now, tokens, times[..n]);
      SpendAtOnce(Run(b, times[..n]), now, tokens - Allowed(b, times[..n]) as real);
    }
  }

  lemma NewHoldsCapacity(capacity: real, rate: real, now: nat)
    ensures HoldsAt(Full(capacity, rate, now), now, capacity)
  {
    assert Accrued(rate, 0) == 0.0;
  }

  /** A caller that keeps to the rate is never refused: if the bucket allows the first call and each
      later one comes at least the time of one token after the latest before it, all are let through. */
  lemma {:induction false} PatientCallerIsServed(b: Bucket, times: seq<nat>)
    requires b.rate >= 0.0 && b.capacity >= 1.0
    requires times != [] && times[0] >= b.last && Allows(b, times[0])
    requires forall i :: 0 < i < |times| ==> times[i] >= times[i - 1] && Accrued(b.rate, times[i] - times[i - 1]) >= 1.0
    ensures Allowed(b, times) == |times|
    ensures var e := Run(b, times);
            e.last == times[|times| - 1] && e.available >= 0.0 && e.rate == b.rate && e.capacity == b.capacity
  {
    var n := |times| - 1;
    if n == 0 {
      assert times[..0] == [];
    } else {
      var before := times[..n];
      PatientCallerIsServed(b, before);
      assert before[n - 1] == times[n - 1];
      PatientCallIsServed(Run(b, before), times[n]);
    }
  }

  lemma PatientCallIsServed(b: Bucket, now: nat)
    requires b.capacity >= 1.0 && b.available >= 0.0
    requires now >= b.last && Accrued(b.rate, now - b.last) >= 1.0
    ensures Allows(b, now)
    ensures var e := Spend(b, now); e.last == now && e.available >= 0.0 && e.rate == b.rate && e.capacity == b.capacity
  {}
}
