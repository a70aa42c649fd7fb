/** Answering a question about a text too long for one node: the text is cut into chunks, a chunk
    the node finds too long is halved, and the partial answers are combined level by level. */
module MapReduce {
  import opened Basics
  import opened Grouping

  /** What comes back for a request. `Refused` stands for every other failure: transport, another
      error code, or a receipt that does not verify. */
  datatype Reply = Answer(text: string) | TooBig(tokens: Option<nat>) | Refused

  /** An arbitrary node: its reply to the n-th request may depend on anything. */
  type Node = (nat, string) -> Reply

  // ---------------------------------------------------------------- halving one chunk

  /** A rejection as too long: the length of the prompt, and the token count if the node named it. */
  datatype Rejection = Rejection(chars: nat, tokens: Option<nat>)

  const MARGIN := 0.9

  /** The characters-per-token ratio after a rejection. */
  function Sharpen(ratio: real, e: Rejection): real {
    match e.tokens
    case None => ratio
    case Some(t) =>
      var measured := e.chars as real / (if t == 0 then 1 else t) as real;
      if measured < ratio then measured * MARGIN else ratio
  }

  function SharpenAll(ratio: real, log: seq<Rejection>): real {
    if log == [] then ratio else Sharpen(SharpenAll(ratio, log[..|log| - 1]), log[|log| - 1])
  }

  /** A fragment that was answered, and by which request. */
  datatype Part = Part(request: nat, fragment: string, answer: string)

  /** `next` is the number of the next request; `log` the rejections met, in order. */
  datatype Outcome = Done(parts: seq<Part>, next: nat, log: seq<Rejection>) | Failed(next: nat, log: seq<Rejection>)

  /** What happened before, put in front of an outcome. */
  function Prepend(parts: seq<Part>, log: seq<Rejection>, r: Outcome): Outcome {
    match r
    case Done(more, next, log') => Done(parts + more, next, log + log')
    case Failed(next, log') => Failed(next, log + log')
  }

  /** The recursion the queue stands for: answer the fragment, or answer its two halves in order.
      `extra` is the length of the prompt around a fragment. */
  function Halving(node: Node, extra: nat, n: nat, fragment: string, depth: nat): Outcome
    decreases depth, 0
  {
    match node(n, fragment)
    case Answer(text) => Done([Part(n, fragment, text)], n + 1, [])
    case Refused => Failed(n + 1, [])
    case TooBig(tokens) =>
      if depth == 0 then Failed(n + 1, []) else
        var log := [Rejection(extra + |fragment|, tokens)];
        var half := |fragment| / 2;
        if half == 0 then Failed(n + 1, log) else
          Prepend([], log, Both(node, extra, n + 1, fragment[..half], fragment[half..], depth - 1))
  }

  /** Two fragments, one after the other. */
  function Both(node: Node, extra: nat, n: nat, a: string, b: string, depth: nat): Outcome
    decreases depth, 1
  {
    var left := Halving(node, extra, n, a, depth);
    if left.Failed? then left else
      Prepend(left.parts, left.log, Halving(node, extra, left.next, b, depth))
  }

  /** The recursion run over a queue of fragments. */
  function RunQueue(node: Node, extra: nat, n: nat, queue: seq<(string, nat)>): Outcome
    decreases |queue|
  {
    if queue == [] then Done([], n, []) else
      var first := Halving(node, extra, n, queue[0].0, queue[0].1);
      if first.Failed? then first else
        Prepend(first.parts, first.log, RunQueue(node, extra, first.next, queue[1..]))
  }

  function Pow2(n: nat): (p: nat)
    ensures p >= 1
  {
    if n == 0 then 1 else 2 * Pow2(n - 1)
  }

  /** The most requests a queue can still cause. */
  function Work(queue: seq<(string, nat)>): nat {
    if queue == [] then 0 else Pow2(queue[0].1 + 1) - 1 + Work(queue[1..])
  }

  lemma PrependTwice(a: seq<Part>, la: seq<Rejection>, b: seq<Part>, lb: seq<Rejection>, r: Outcome)
    ensures Prepend(a, la, Prepend(b, lb, r)) == Prepend(a + b, la + lb, r)
  {
    Associative(la, lb, r.log);
    if r.Done? { Associative(a, b, r.parts); }
  }

  lemma PrependNothing(r: Outcome)
    ensures Prepend([], [], r) == r
  {
    assert [] + r.log == r.log;
    if r.Done? { assert [] + r.parts == r.parts; }
  }

  /** Two fragments at the front of the queue. */
  lemma RunTwo(node: Node, extra: nat, n: nat, a: string, b: string, depth: nat, rest: seq<(string, nat)>)
    ensures var both := Both(node, extra, n, a, b, depth);
            RunQueue(node, extra, n, [(a, depth), (b, depth)] + rest) ==
            if both.Failed? then both else Prepend(both.parts, both.log, RunQueue(node, extra, both.next, rest))
  {
    var queue := [(a, depth), (b, depth)] + rest;
    assert queue[1..] == [(b, depth)] + rest;
    assert queue[1..][1..] == rest;
    var left := Halving(node, extra, n, a, depth);
    if left.Done? {
      var right := Halving(node, extra, left.next, b, depth);
      if right.Done? {
        PrependTwice(left.parts, left.log, right.parts, right.log, RunQueue(node, extra, right.next, rest));
      }
    }
  }

  /** Putting the two halves in front of the queue continues the recursion where it stands. */
  lemma SplitContinues(node: Node, extra: nat, n: nat, fragment: string, depth: nat, rest: seq<(string, nat)>)
    requires depth > 0 && |fragment| / 2 != 0 && node(n, fragment).TooBig?
    ensures var half := |fragment| / 2;
            RunQueue(node, extra, n, [(fragment, depth)] + rest) ==
            Prepend([], [Rejection(extra + |fragment|, node(n, fragment).tokens)],
              RunQueue(node, extra, n + 1, [(fragment[..half], depth - 1), (fragment[half..], depth - 1)] + rest))
  {
    var half := |fragment| / 2;
    var queue := [(fragment, depth)] + rest;
    assert queue[1..] == rest;
    var log := [Rejection(extra + |fragment|, node(n, fragment).tokens)];
    RunTwo(node, extra, n + 1, fragment[..half], fragment[half..], depth - 1, rest);
    var both := Both(node, extra, n + 1, fragment[..half], fragment[half..], depth - 1);
    assert Halving(node, extra, n, fragment, depth) == Prepend([], log, both);
    if both.Done? {
      PrependTwice([], log, both.parts, both.log, RunQueue(node, extra, both.next, rest));
    }
  }

  /** The text of the answers, in the order of the fragments. */
  function Answers(parts: seq<Part>): seq<string> {
    if parts == [] then [] else Answers(parts[..|parts| - 1]) + [parts[|parts| - 1].answer]
  }

  function Fragments(parts: seq<Part>): seq<string> {
    if parts == [] then [] else Fragments(parts[..|parts| - 1]) + [parts[|parts| - 1].fragment]
  }

  function Join(lines: seq<string>): string {
    if lines == [] then "" else
      if |lines| == 1 then lines[0] else Join(lines[..|lines| - 1]) + "\n" + lines[|lines| - 1]
  }

  /** What the queue still stands for, after what has been done. */
  function Resume(node: Node, extra: nat, n: nat, parts: seq<Part>, log: seq<Rejection>, queue: seq<(string, nat)>): Outcome {
    Prepend(parts, log, RunQueue(node, extra, n, queue))
  }

  lemma ResumeSplit(node: Node, extra: nat, n: nat, parts: seq<Part>, log: seq<Rejection>, fragment: string, depth: nat, rest: seq<(string, nat)>)
    requires depth > 0 && |fragment| / 2 != 0 && node(n, fragment).TooBig?
    ensures var half := |fragment| / 2;
            Resume(node, extra, n, parts, log, [(fragment, depth)] + rest) ==
            Resume(node, extra, n + 1, parts, log + [Rejection(extra + |fragment|, node(n, fragment).tokens)],
                   [(fragment[..half], depth - 1), (fragment[half..], depth - 1)] + rest)
  {
    var half := |fragment| / 2;
    SplitContinues(node, extra, n, fragment, depth, rest);
    PrependTwice(parts, log, [], [Rejection(extra + |fragment|, node(n, fragment).tokens)],
                 RunQueue(node, extra, n + 1, [(fragment[..half], depth - 1), (fragment[half..], depth - 1)] + rest));
    assert parts + [] == parts;
  }

  lemma ResumeAnswer(node: Node, extra: nat, n: nat, parts: seq<Part>, log: seq<Rejection>, fragment: string, depth: nat, rest: seq<(string, nat)>)
    requires node(n, fragment).Answer?
    ensures Resume(node, extra, n, parts, log, [(fragment, depth)] + rest) ==
            Resume(node, extra, n + 1, parts + [Part(n, fragment, node(n, fragment).text)], log, rest)
  {
    assert ([(fragment, depth)] + rest)[1..] == rest;
    PrependTwice(parts, log, [Part(n, fragment, node(n, fragment).text)], [], RunQueue(node, extra, n + 1, rest));
    assert log + [] == log;
  }

  /** A refusal, a rejection that may not be halved any more, or one of a single character. */
  lemma ResumeFailure(node: Node, extra: nat, n: nat, parts: seq<Part>, log: seq<Rejection>, fragment: string, depth: nat, rest: seq<(string, nat)>)
    requires !node(n, fragment).Answer? && (node(n, fragment).TooBig? && depth > 0 ==> |fragment| / 2 == 0)
    ensures Resume(node, extra, n, parts, log, [(fragment, depth)] + rest) ==
            Failed(n + 1, if node(n, fragment).TooBig? && depth > 0
                          then log + [Rejection(extra + |fragment|, node(n, fragment).tokens)] else log)
  {
    assert log + [] == log;
  }

  lemma SharpenSnoc(ratio: real, log: seq<Rejection>, e: Rejection)
    ensures SharpenAll(ratio, log + [e]) == Sharpen(SharpenAll(ratio, log), e)
  {
    assert (log + [e])[..|log|] == log;
  }

  /** The queue with its first fragment replaced by its halves. */
  function Halved(queue: seq<(string, nat)>): seq<(string, nat)>
    requires queue != [] && queue[0].1 > 0
  {
    var (fragment, depth) := queue[0];
    [(fragment[..|fragment| / 2], depth - 1), (fragment[|fragment| / 2..], depth - 1)] + queue[1..]
  }

  lemma HeadAndRest<T>(queue: seq<T>)
    requires queue != []
    ensures [queue[0]] + queue[1..] == queue
  {}

  lemma HalvedStep(node: Node, extra: nat, n: nat, parts: seq<Part>, log: seq<Rejection>, queue: seq<(string, nat)>)
    requires queue != [] && queue[0].1 > 0 && |queue[0].0| / 2 != 0 && node(n, queue[0].0).TooBig?
    ensures Resume(node, extra, n, parts, log, queue) ==
            Resume(node, extra, n + 1, parts, log + [Rejection(extra + |queue[0].0|, node(n, queue[0].0).tokens)], Halved(queue))
  {
    HeadAndRest(queue);
    ResumeSplit(node, extra, n, parts, log, queue[0].0, queue[0].1, queue[1..]);
  }

  lemma AnsweredStep(node: Node, extra: nat, n: nat, parts: seq<Part>, log: seq<Rejection>, queue: seq<(string, nat)>)
    requires queue != [] && node(n, queue[0].0).Answer?
    ensures Resume(node, extra, n, parts, log, queue) ==
            Resume(node, extra, n + 1, parts + [Part(n, queue[0].0, node(n, queue[0].0).text)], log, queue[1..])
  {
    HeadAndRest(queue);
    ResumeAnswer(node, extra, n, parts, log, queue[0].0, queue[0].1, queue[1..]);
  }

  lemma FailedStep(node: Node, extra: nat, n: nat, parts: seq<Part>, log: seq<Rejection>, queue: seq<(string, nat)>)
    requires queue != [] && !node(n, queue[0].0).Answer?
    requires node(n, queue[0].0).TooBig? && queue[0].1 > 0 ==> |queue[0].0| / 2 == 0
    ensures Resume(node, extra, n, parts, log, queue) ==
            Failed(n + 1, if node(n, queue[0].0).TooBig? && queue[0].1 > 0
                          then log + [Rejection(extra + |queue[0].0|, node(n, queue[0].0).tokens)] else log)
  {
    HeadAndRest(queue);
    ResumeFailure(node, extra, n, parts, log, queue[0].0, queue[0].1, queue[1..]);
  }

  /** The loop over the queue, step by step, with the ratio it leaves. */
  function Loop(node: Node, extra: nat, n: nat, ratio: real, parts: seq<Part>, log: seq<Rejection>, queue: seq<(string, nat)>): (Outcome, real)
    decreases Work(queue)
  {
    if queue == [] then (Done(parts, n, log), ratio) else
      var (fragment, left) := queue[0];
      var reply := node(n, fragment);
      if reply.TooBig? && left > 0 then
        var e := Rejection(extra + |fragment|, reply.tokens);
        if |fragment| / 2 == 0 then (Failed(n + 1, log + [e]), Sharpen(ratio, e)) else
          HalvedIsLess(queue);
          Loop(node, extra, n + 1, Sharpen(ratio, e), parts, log + [e], Halved(queue))
      else if reply.Answer? then
        Loop(node, extra, n + 1, ratio, parts + [Part(n, fragment, reply.text)], log, queue[1..])
      else (Failed(n + 1, log), ratio)
  }

  lemma HalvedIsLess(queue: seq<(string, nat)>)
    requires queue != [] && queue[0].1 > 0
    ensures Work(Halved(queue)) < Work(queue)
  {
    var (fragment, depth) := queue[0];
    WorkOfSplit((fragment[..|fragment| / 2], depth - 1), (fragment[|fragment| / 2..], depth - 1), queue[1..], queue);
  }

  /** It is the recursion. */
  lemma {:induction false} LoopIsResume(node: Node, extra: nat, n: nat, ratio: real, parts: seq<Part>, log: seq<Rejection>, queue: seq<(string, nat)>)
    ensures Loop(node, extra, n, ratio, parts, log, queue).0 == Resume(node, extra, n, parts, log, queue)
    decreases Work(queue)
  {
    if queue == [] {
      assert parts + [] == parts && log + [] == log;
    } else {
      var (fragment, left) := queue[0];
      var reply := node(n, fragment);
      if reply.TooBig? && left > 0 && |fragment| / 2 != 0 {
        var e := Rejection(extra + |fragment|, reply.tokens);
        HalvedStep(node, extra, n, parts, log, queue);
        HalvedIsLess(queue);
        LoopIsResume(node, extra, n + 1, Sharpen(ratio, e), parts, log + [e], Halved(queue));
      } else if reply.Answer? {
        AnsweredStep(node, extra, n, parts, log, queue);
        LoopIsResume(node, extra, n + 1, ratio, parts + [Part(n, fragment, reply.text)], log, queue[1..]);
      } else {
        FailedStep(node, extra, n, parts, log, queue);
      }
    }
  }

  /** It leaves the ratio sharpened by all rejections in order. */
  lemma {:induction false} LoopSharpens(node: Node, extra: nat, n: nat, start: real, parts: seq<Part>, log: seq<Rejection>, queue: seq<(string, nat)>)
    ensures var (r, factor) := Loop(node, extra, n, SharpenAll(start, log), parts, log, queue);
            factor == SharpenAll(start, r.log)
    decreases Work(queue)
  {
    if queue != [] {
      var (fragment, left) := queue[0];
      var reply := node(n, fragment);
      if reply.TooBig? && left > 0 {
        var e := Rejection(extra + |fragment|, reply.tokens);
        SharpenSnoc(start, log, e);
        if |fragment| / 2 != 0 {
          HalvedIsLess(queue);
          LoopSharpens(node, extra, n + 1, start, parts, log + [e], Halved(queue));
        }
      } else if reply.Answer? {
        LoopSharpens(node, extra, n + 1, start, parts + [Part(n, fragment, reply.text)], log, queue[1..]);
      }
    }
  }

  lemma LoopFromStart(node: Node, extra: nat, n: nat, ratio: real, chunk: string, depth: nat)
    ensures var (r, factor) := Loop(node, extra, n, ratio, [], [], [(chunk, depth)]);
            r == Halving(node, extra, n, chunk, depth) && factor == SharpenAll(ratio, r.log)
  {
    QueueOfOne(node, extra, n, chunk, depth);
    LoopIsResume(node, extra, n, ratio, [], [], [(chunk, depth)]);
    LoopSharpens(node, extra, n, ratio, [], [], [(chunk, depth)]);
  }

  /** The worklist: a deque of fragments with the number of halvings each may still undergo. */
  method SendChunk(node: Node, extra: nat, n: nat, ratio: real, chunk: string, depth: nat)
    returns (r: Outcome, factor: real)
    ensures r == Halving(node, extra, n, chunk, depth)
    ensures factor == SharpenAll(ratio, r.log)
  {
    var queue := [(chunk, depth)];
    var parts: seq<Part>, log: seq<Rejection> := [], [];
    var next := n;
    factor := ratio;
    LoopFromStart(node, extra, n, ratio, chunk, depth);
    while queue != []
      invariant Loop(node, extra, next, factor, parts, log, queue) == Loop(node, extra, n, ratio, [], [], [(chunk, depth)])
      decreases Work(queue)
    {
      var (fragment, left) := queue[0];
      var reply := node(next, fragment);
      if reply.TooBig? && left > 0 {
        var e := Rejection(extra + |fragment|, reply.tokens);
        factor, log := Sharpen(factor, e), log + [e];
        var half := |fragment| / 2;
        if half == 0 {
          return Failed(next + 1, log), factor;
        }
        HalvedIsLess(queue);
        queue := [(fragment[..half], left - 1), (fragment[half..], left - 1)] + queue[1..];
      } else if reply.Answer? {
        parts := parts + [Part(next, fragment, reply.text)];
        queue := queue[1..];
      } else {
        return Failed(next + 1, log), factor;
      }
      next := next + 1;
    }
    r := Done(parts, next, log);
  }

  lemma QueueOfOne(node: Node, extra: nat, n: nat, chunk: string, depth: nat)
    ensures Resume(node, extra, n, [], [], [(chunk, depth)]) == Halving(node, extra, n, chunk, depth)
  {
    var queue := [(chunk, depth)];
    assert queue[1..] == [];
    PrependNothing(RunQueue(node, extra, n, queue));
    var first := Halving(node, extra, n, chunk, depth);
    assert first.log + [] == first.log;
    if first.Done? {
      assert first.parts + [] == first.parts;
      assert RunQueue(node, extra, first.next, queue[1..]) == Done([], first.next, []);
    }
  }

  lemma WorkOfSplit(a: (string, nat), b: (string, nat), rest: seq<(string, nat)>, before: seq<(string, nat)>)
    requires before != [] && before[1..] == rest && a.1 == b.1 && before[0].1 == a.1 + 1
    ensures Work([a, b] + rest) < Work(before)
  {
    var queue := [a, b] + rest;
    assert queue[1..] == [b] + rest;
    assert queue[1..][1..] == rest;
  }

  // ---------------------------------------------------------------- what the recursion guarantees

  lemma {:induction false} FragmentsConcat(a: seq<Part>, b: seq<Part>)
    ensures Concat(Fragments(a + b)) == Concat(Fragments(a)) + Concat(Fragments(b))
  {
    if b == [] {
      assert a + b == a;
      assert Concat(Fragments(a)) + [] == Concat(Fragments(a));
    } else {
      var k := |b| - 1;
      assert (a + b)[..|a + b| - 1] == a + b[..k];
      FragmentsConcat(a, b[..k]);
      ConcatSnoc(Fragments(a + b[..k]), b[k].fragment);
      ConcatSnoc(Fragments(b[..k]), b[k].fragment);
      Associative(Concat(Fragments(a)), Concat(Fragments(b[..k])), b[k].fragment);
    }
  }

  /** The answered fragments, in order, are the fragment; and every part is a real answer. */
  ghost predicate Covers(node: Node, parts: seq<Part>, fragment: string) {
    && Concat(Fragments(parts)) == fragment
    && forall i :: 0 <= i < |parts| ==> node(parts[i].request, parts[i].fragment) == Answer(parts[i].answer)
  }

  lemma CoversOne(node: Node, n: nat, fragment: string, text: string)
    requires node(n, fragment) == Answer(text)
    ensures Covers(node, [Part(n, fragment, text)], fragment)
  {
    var parts := [Part(n, fragment, text)];
    assert parts[..0] == [];
    ConcatSnoc([], fragment);
    assert Fragments(parts) == [] + [fragment];
  }

  lemma CoversTwo(node: Node, a: seq<Part>, b: seq<Part>, x: string, y: string)
    requires Covers(node, a, x) && Covers(node, b, y)
    ensures Covers(node, a + b, x + y)
  {
    FragmentsConcat(a, b);
  }

  lemma {:induction false} HalvingCovers(node: Node, extra: nat, n: nat, fragment: string, depth: nat)
    ensures var r := Halving(node, extra, n, fragment, depth);
            r.Done? ==> Covers(node, r.parts, fragment)
    decreases depth, 0
  {
    match node(n, fragment)
    case Refused =>
    case Answer(text) => CoversOne(node, n, fragment, text);
    case TooBig(tokens) =>
      var half := |fragment| / 2;
      if depth > 0 && half != 0 {
        BothCovers(node, extra, n + 1, fragment[..half], fragment[half..], depth - 1);
        var both := Both(node, extra, n + 1, fragment[..half], fragment[half..], depth - 1);
        if both.Done? { assert [] + both.parts == both.parts; }
        assert fragment[..half] + fragment[half..] == fragment;
      }
  }

  lemma {:induction false} BothCovers(node: Node, extra: nat, n: nat, a: string, b: string, depth: nat)
    ensures var r := Both(node, extra, n, a, b, depth);
            r.Done? ==> Covers(node, r.parts, a + b)
    decreases depth, 1
  {
    HalvingCovers(node, extra, n, a, depth);
    var left := Halving(node, extra, n, a, depth);
    if left.Done? {
      HalvingCovers(node, extra, left.next, b, depth);
      var right := Halving(node, extra, left.next, b, depth);
      if right.Done? { CoversTwo(node, left.parts, right.parts, a, b); }
    }
  }

  lemma {:induction false} AnswersConcat(a: seq<Part>, b: seq<Part>)
    ensures Answers(a + b) == Answers(a) + Answers(b)
    ensures |Answers(b)| == |b|
  {
    if b == [] {
      assert a + b == a && Answers(a) + [] == Answers(a);
    } else {
      var k := |b| - 1;
      assert (a + b)[..|a + b| - 1] == a + b[..k];
      AnswersConcat(a, b[..k]);
      Associative(Answers(a), Answers(b[..k]), [b[k].answer]);
    }
  }

  lemma {:induction false} JoinConcat(a: seq<string>, b: seq<string>)
    requires a != [] && b != []
    ensures Join(a + b) == Join(a) + "\n" + Join(b)
  {
    var k := |b| - 1;
    assert (a + b)[..|a + b| - 1] == a + b[..k];
    if k == 0 {
      assert a + b[..k] == a;
    } else {
      JoinConcat(a, b[..k]);
      Associative(Join(a) + "\n", Join(b[..k]) + "\n", b[k]);
      Associative(Join(a) + "\n", Join(b[..k]), "\n");
    }
  }

  /** The answer for a fragment that was halved is the answers for its halves, one line after the
      other. */
  lemma HalvedAnswer(node: Node, extra: nat, n: nat, a: string, b: string, depth: nat)
    requires Both(node, extra, n, a, b, depth).Done?
    ensures var left := Halving(node, extra, n, a, depth);
            && left.Done? && Halving(node, extra, left.next, b, depth).Done?
            && Join(Answers(Both(node, extra, n, a, b, depth).parts)) ==
               Join(Answers(left.parts)) + "\n" + Join(Answers(Halving(node, extra, left.next, b, depth).parts))
  {
    var left := Halving(node, extra, n, a, depth);
    var right := Halving(node, extra, left.next, b, depth);
    HalvingRequests(node, extra, n, a, depth);
    HalvingRequests(node, extra, left.next, b, depth);
    AnswersConcat(left.parts, right.parts);
    AnswersConcat([], left.parts);
    JoinConcat(Answers(left.parts), Answers(right.parts));
  }

  /** Requests: at most `2^(depth+1) - 1`, and on success exactly two per answered fragment but one. */
  lemma {:induction false} HalvingRequests(node: Node, extra: nat, n: nat, fragment: string, depth: nat)
    ensures var r := Halving(node, extra, n, fragment, depth);
            && n < r.next <= n + Pow2(depth + 1) - 1
            && (r.Done? ==> r.next - n == 2 * |r.parts| - 1)
    decreases depth
  {
    var half := |fragment| / 2;
    if node(n, fragment).TooBig? && depth > 0 && half != 0 {
      var a, b := fragment[..half], fragment[half..];
      HalvingRequests(node, extra, n + 1, a, depth - 1);
      var left := Halving(node, extra, n + 1, a, depth - 1);
      if left.Done? { HalvingRequests(node, extra, left.next, b, depth - 1); }
      assert Halving(node, extra, n, fragment, depth).next == Both(node, extra, n + 1, a, b, depth - 1).next;
    }
  }

  ghost predicate Ascend(parts: seq<Part>, first: nat, next: nat) {
    && (forall i :: 0 <= i < |parts| ==> first <= parts[i].request < next)
    && forall i, j :: 0 <= i < j < |parts| ==> parts[i].request < parts[j].request
  }

  lemma AscendTwo(a: seq<Part>, b: seq<Part>, n: nat, m: nat, next: nat)
    requires n <= m <= next && Ascend(a, n, m) && Ascend(b, m, next)
    ensures Ascend(a + b, n, next)
  {
    var all := a + b;
    forall i, j | 0 <= i < j < |all|
      ensures all[i].request < all[j].request
    {
      assert all[i] == if i < |a| then a[i] else b[i - |a|];
      assert all[j] == if j < |a| then a[j] else b[j - |a|];
    }
  }

  /** The fragments are answered in the order in which they stand in the text. */
  lemma {:induction false} HalvingAscends(node: Node, extra: nat, n: nat, fragment: string, depth: nat, r: Outcome)
    requires r == Halving(node, extra, n, fragment, depth) && r.Done?
    ensures Ascend(r.parts, n, r.next)
    decreases depth, 0
  {
    var half := |fragment| / 2;
    if node(n, fragment).TooBig? && depth > 0 && half != 0 {
      HalvedParts(node, extra, n, fragment, depth);
      var both := Both(node, extra, n + 1, fragment[..half], fragment[half..], depth - 1);
      BothAscend(node, extra, n + 1, fragment[..half], fragment[half..], depth - 1, both);
      AscendWider(both.parts, n + 1, n, both.next);
    } else {
      NotHalved(node, extra, n, fragment, depth);
    }
  }

  lemma {:induction false} BothAscend(node: Node, extra: nat, n: nat, a: string, b: string, depth: nat, r: Outcome)
    requires r == Both(node, extra, n, a, b, depth) && r.Done?
    ensures Ascend(r.parts, n, r.next)
    decreases depth, 1
  {
    var left := Halving(node, extra, n, a, depth);
    var right := Halving(node, extra, left.next, b, depth);
    HalvingAscends(node, extra, n, a, depth, left);
    HalvingAscends(node, extra, left.next, b, depth, right);
    HalvingRequests(node, extra, n, a, depth);
    HalvingRequests(node, extra, left.next, b, depth);
    AscendTwo(left.parts, right.parts, n, left.next, right.next);
  }

  lemma AscendWider(parts: seq<Part>, first: nat, n: nat, next: nat)
    requires Ascend(parts, first, next) && n <= first
    ensures Ascend(parts, n, next)
  {}

  lemma NotHalved(node: Node, extra: nat, n: nat, fragment: string, depth: nat)
    requires !(node(n, fragment).TooBig? && depth > 0 && |fragment| / 2 != 0)
    ensures var r := Halving(node, extra, n, fragment, depth);
            && r.next == n + 1
            && (r.Done? ==> |r.parts| == 1 && r.parts[0].request == n)
  {}

  lemma HalvedParts(node: Node, extra: nat, n: nat, fragment: string, depth: nat)
    requires node(n, fragment).TooBig? && depth > 0 && |fragment| / 2 != 0
    ensures var half, r := |fragment| / 2, Halving(node, extra, n, fragment, depth);
            var both := Both(node, extra, n + 1, fragment[..half], fragment[half..], depth - 1);
            && (r.Done? <==> both.Done?) && r.next == both.next
            && (r.Done? ==> r.parts == both.parts)
  {
    var half := |fragment| / 2;
    var both := Both(node, extra, n + 1, fragment[..half], fragment[half..], depth - 1);
    if both.Done? { assert [] + both.parts == both.parts; }
  }

  /** One of the requests from `first` on was rejected in this way. */
  ghost predicate WasRejected(node: Node, extra: nat, first: nat, next: nat, e: Rejection) {
    exists m, f :: first <= m < next && node(m, f) == TooBig(e.tokens) && e.chars == extra + |f|
  }

  ghost predicate AllRejected(node: Node, extra: nat, first: nat, next: nat, log: seq<Rejection>) {
    forall i :: 0 <= i < |log| ==> WasRejected(node, extra, first, next, log[i])
  }

  lemma RejectedEarlier(node: Node, extra: nat, n: nat, m: nat, next: nat, next': nat, log: seq<Rejection>)
    requires AllRejected(node, extra, m, next, log) && n <= m && next <= next'
    ensures AllRejected(node, extra, n, next', log)
  {
    forall i | 0 <= i < |log|
      ensures WasRejected(node, extra, n, next', log[i])
    { assert WasRejected(node, extra, m, next, log[i]); }
  }

  lemma RejectedTwo(node: Node, extra: nat, first: nat, next: nat, a: seq<Rejection>, b: seq<Rejection>)
    requires AllRejected(node, extra, first, next, a) && AllRejected(node, extra, first, next, b)
    ensures AllRejected(node, extra, first, next, a + b)
  {}

  lemma RejectedOne(node: Node, extra: nat, n: nat, fragment: string, next: nat)
    requires node(n, fragment).TooBig? && n < next
    ensures AllRejected(node, extra, n, next, [Rejection(extra + |fragment|, node(n, fragment).tokens)])
  {
    assert WasRejected(node, extra, n, next, Rejection(extra + |fragment|, node(n, fragment).tokens));
  }

  /** What is logged are rejections met on the way: of an answered chunk one for each time a fragment was
      halved, and so one fewer than there are answers. */
  lemma {:induction false} HalvingLogs(node: Node, extra: nat, n: nat, fragment: string, depth: nat)
    ensures var r := Halving(node, extra, n, fragment, depth);
            && AllRejected(node, extra, n, r.next, r.log)
            && (r.Done? ==> |r.parts| == |r.log| + 1)
    decreases depth, 0
  {
    if node(n, fragment).TooBig? && depth > 0 {
      var half, r := |fragment| / 2, Halving(node, extra, n, fragment, depth);
      HalvingRequests(node, extra, n, fragment, depth);
      RejectedOne(node, extra, n, fragment, r.next);
      if half != 0 {
        var a, b := fragment[..half], fragment[half..];
        BothLog(node, extra, n + 1, a, b, depth - 1);
        var both := Both(node, extra, n + 1, a, b, depth - 1);
        RejectedEarlier(node, extra, n, n + 1, both.next, r.next, both.log);
        RejectedTwo(node, extra, n, r.next, [Rejection(extra + |fragment|, node(n, fragment).tokens)], both.log);
      }
    }
  }

  lemma {:induction false} BothLog(node: Node, extra: nat, n: nat, a: string, b: string, depth: nat)
    ensures var r := Both(node, extra, n, a, b, depth);
            && AllRejected(node, extra, n, r.next, r.log)
            && (r.Done? ==> |r.parts| == |r.log| + 2)
    decreases depth, 1
  {
    HalvingLogs(node, extra, n, a, depth);
    var left := Halving(node, extra, n, a, depth);
    if left.Done? {
      HalvingLogs(node, extra, left.next, b, depth);
      HalvingRequests(node, extra, n, a, depth);
      HalvingRequests(node, extra, left.next, b, depth);
      var right := Halving(node, extra, left.next, b, depth);
      RejectedEarlier(node, extra, n, left.next, right.next, right.next, right.log);
      RejectedEarlier(node, extra, n, n, left.next, right.next, left.log);
      RejectedTwo(node, extra, n, right.next, left.log, right.log);
    }
  }

  /** The request that ended it: one refused, or one rejected that may not or cannot be halved. */
  ghost predicate EndedAt(node: Node, next: nat, f: string, left: nat) {
    next > 0 && (node(next - 1, f).Refused? || (node(next - 1, f).TooBig? && (left == 0 || |f| <= 1)))
  }

  ghost predicate GivenUp(node: Node, next: nat, fragment: string, depth: nat) {
    exists f, left: nat :: left <= depth && |f| <= |fragment| && EndedAt(node, next, f, left)
  }

  /** A chunk is given up at its last request, and only for that reason. */
  lemma {:induction false} HalvingGivesUp(node: Node, extra: nat, n: nat, fragment: string, depth: nat)
    requires Halving(node, extra, n, fragment, depth).Failed?
    ensures GivenUp(node, Halving(node, extra, n, fragment, depth).next, fragment, depth)
    decreases depth
  {
    var half := |fragment| / 2;
    if node(n, fragment).TooBig? && depth > 0 && half != 0 {
      var a, b := fragment[..half], fragment[half..];
      var left := Halving(node, extra, n + 1, a, depth - 1);
      if left.Failed? {
        HalvingGivesUp(node, extra, n + 1, a, depth - 1);
        GivenUpWider(node, left.next, a, depth - 1, fragment, depth);
      } else {
        HalvingGivesUp(node, extra, left.next, b, depth - 1);
        GivenUpWider(node, Halving(node, extra, left.next, b, depth - 1).next, b, depth - 1, fragment, depth);
      }
    } else {
      assert EndedAt(node, n + 1, fragment, depth);
    }
  }

  lemma GivenUpWider(node: Node, next: nat, f: string, depth: nat, fragment: string, depth': nat)
    requires GivenUp(node, next, f, depth) && |f| <= |fragment| && depth <= depth'
    ensures GivenUp(node, next, fragment, depth')
  {
    var g, left: nat :| left <= depth && |g| <= |f| && EndedAt(node, next, g, left);
  }

  /** The ratio only ever becomes more careful. */
  lemma {:induction false} SharpenAllDecreases(ratio: real, log: seq<Rejection>)
    requires ratio >= 0.0
    ensures 0.0 <= SharpenAll(ratio, log) <= ratio
  {
    if log != [] {
      var k := |log| - 1;
      SharpenAllDecreases(ratio, log[..k]);
      SharpenDecreases(SharpenAll(ratio, log[..k]), log[k]);
    }
  }

  lemma SharpenDecreases(ratio: real, e: Rejection)
    requires ratio >= 0.0
    ensures 0.0 <= Sharpen(ratio, e) <= ratio
  {
    if e.tokens.Some? {
      var t := (if e.tokens.value == 0 then 1 else e.tokens.value) as real;
      assert t >= 1.0;
      QuotientNotNegative(e.chars as real, t);
    }
  }

  lemma QuotientNotNegative(a: real, b: real)
    requires a >= 0.0 && b > 0.0
    ensures a / b >= 0.0
  {}

  /** The tokens a rejection counted, at least one. */
  function Counted(e: Rejection): real
    requires e.tokens.Some?
  {
    if e.tokens.value == 0 then 1.0 else e.tokens.value as real
  }

  /** The ratio is at most what the rejection measured. */
  ghost predicate WithinMeasured(ratio: real, e: Rejection) {
    e.tokens.Some? ==> ratio * Counted(e) <= e.chars as real
  }

  /** The ratio is nine tenths of what the rejection measured. */
  ghost predicate TakenFrom(ratio: real, e: Rejection) {
    e.tokens.Some? && 10.0 * (ratio * Counted(e)) == 9.0 * e.chars as real
  }

  lemma QuotientTimes(a: real, b: real, x: real)
    requires b > 0.0
    ensures (a / b) * b == a && (x <= a / b <==> x * b <= a)
  {
    FactorOrder(a, b, a / b, x);
  }

  lemma FactorOrder(a: real, b: real, q: real, x: real)
    requires b > 0.0 && q * b == a
    ensures x <= q <==> x * b <= a
  {
    if x <= q { RealOrder(x, q, b); } else { RealOrderStrict(q, x, b); }
  }

  lemma RealOrder(x: real, y: real, b: real)
    requires x <= y && b >= 0.0
    ensures x * b <= y * b
  {}

  lemma RealOrderStrict(x: real, y: real, b: real)
    requires x < y && b > 0.0
    ensures x * b < y * b
  {}

  lemma NineTenths(x: real, b: real)
    ensures 10.0 * ((x * MARGIN) * b) == 9.0 * (x * b)
  {
    assert (x * MARGIN) * b == MARGIN * (x * b);
  }

  /** One rejection: the ratio stays if it is within what was measured, and is else taken from it. */
  lemma SharpenMeans(ratio: real, e: Rejection)
    requires ratio >= 0.0
    ensures if WithinMeasured(ratio, e) then Sharpen(ratio, e) == ratio else TakenFrom(Sharpen(ratio, e), e)
    ensures WithinMeasured(Sharpen(ratio, e), e)
  {
    SharpenDecreases(ratio, e);
    if e.tokens.Some? {
      var t, chars := Counted(e), e.chars as real;
      var measured := chars / t;
      QuotientTimes(chars, t, ratio);
      QuotientNotNegative(chars, t);
      NineTenths(measured, t);
      QuotientTimes(chars, t, measured * MARGIN);
    }
  }

  lemma WithinLess(ratio: real, less: real, e: Rejection)
    requires WithinMeasured(ratio, e) && less <= ratio
    ensures WithinMeasured(less, e)
  {
    if e.tokens.Some? { RealOrder(less, ratio, Counted(e)); }
  }

  /** After any rejections: the ratio is within every measurement met, it has stayed exactly if the start
      was within all of them, and is else nine tenths of one of them. */
  lemma {:induction false} SharpenAllMeans(ratio: real, log: seq<Rejection>)
    requires ratio >= 0.0
    ensures forall i :: 0 <= i < |log| ==> WithinMeasured(SharpenAll(ratio, log), log[i])
    ensures SharpenAll(ratio, log) == ratio <==> forall i :: 0 <= i < |log| ==> WithinMeasured(ratio, log[i])
    ensures SharpenAll(ratio, log) == ratio || exists i :: 0 <= i < |log| && TakenFrom(SharpenAll(ratio, log), log[i])
  {
    if log != [] {
      var k := |log| - 1;
      var front, e := log[..k], log[k];
      var before, after := SharpenAll(ratio, front), SharpenAll(ratio, log);
      SharpenAllMeans(ratio, front);
      SharpenAllDecreases(ratio, front);
      SharpenMeans(before, e);
      SharpenDecreases(before, e);
      forall i | 0 <= i < |log|
        ensures WithinMeasured(after, log[i])
      {
        if i < k {
          assert front[i] == log[i];
          WithinLess(before, after, log[i]);
        }
      }
      assert forall i :: 0 <= i < k ==> front[i] == log[i];
      if after != before { assert TakenFrom(after, log[k]); }
    }
  }

  /** A node with a fixed limit: it answers fragments of up to `c` characters and finds longer ones
      too big. */
  ghost predicate HasLimit(node: Node, c: nat) {
    && (forall n, fragment {:trigger node(n, fragment)} :: |fragment| <= c ==> node(n, fragment).Answer?)
    && (forall n, fragment {:trigger node(n, fragment)} :: |fragment| > c ==> node(n, fragment).TooBig?)
  }

  /** Against such a node a chunk is answered exactly when `depth` halvings can bring it down to the
      limit. */
  lemma {:induction false} HalvingSucceedsExactly(node: Node, c: nat, extra: nat, n: nat, fragment: string, depth: nat)
    requires HasLimit(node, c)
    ensures Halving(node, extra, n, fragment, depth).Done? <==> |fragment| <= c * Pow2(depth)
    decreases depth, 0
  {
    ProductAtLeast(c, Pow2(depth));
    if |fragment| <= c {
      assert node(n, fragment).Answer?;
    } else {
      assert node(n, fragment).TooBig?;
      if depth > 0 {
        var a, b := fragment[..|fragment| / 2], fragment[|fragment| / 2..];
        BothSucceedExactly(node, c, extra, n + 1, a, b, depth - 1);
        HalvesFit(|fragment|, c * Pow2(depth - 1));
        assert c * Pow2(depth) == 2 * (c * Pow2(depth - 1));
      }
    }
  }

  lemma {:induction false} BothSucceedExactly(node: Node, c: nat, extra: nat, n: nat, a: string, b: string, depth: nat)
    requires HasLimit(node, c)
    ensures Both(node, extra, n, a, b, depth).Done? <==> |a| <= c * Pow2(depth) && |b| <= c * Pow2(depth)
    decreases depth, 1
  {
    HalvingSucceedsExactly(node, c, extra, n, a, depth);
    var left := Halving(node, extra, n, a, depth);
    if left.Done? { HalvingSucceedsExactly(node, c, extra, left.next, b, depth); }
  }

  lemma ProductAtLeast(c: nat, p: nat)
    requires p >= 1
    ensures c * p >= c
  {}

  lemma HalvesFit(l: nat, m: nat)
    ensures (l / 2 <= m && l - l / 2 <= m) <==> l <= 2 * m
  {}

  // ---------------------------------------------------------------- all chunks

  /** The `log` holds the rejections met in all chunks, in order. */
  datatype Mapped =
    | Mapped(results: seq<string>, parts: seq<Part>, next: nat, log: seq<Rejection>)
    | MapFailed(log: seq<Rejection>)

  /** The map phase over the chunks in order; the first failure ends it. `extra(i)` is the length of
      the prompt around chunk `i`. */
  function MapChunks(node: Node, extra: nat -> nat, depth: nat, chunks: seq<string>): Mapped {
    if chunks == [] then Mapped([], [], 0, []) else
      var k := |chunks| - 1;
      var done := MapChunks(node, extra, depth, chunks[..k]);
      if done.MapFailed? then done else
        var r := Halving(node, extra(k), done.next, chunks[k], depth);
        if r.Failed? then MapFailed(done.log + r.log) else
          Mapped(done.results + [Join(Answers(r.parts))], done.parts + r.parts, r.next, done.log + r.log)
  }

  /** Carrying the ratio from chunk to chunk is sharpening it by all rejections in order. */
  lemma {:induction false} SharpenConcat(ratio: real, a: seq<Rejection>, b: seq<Rejection>)
    ensures SharpenAll(SharpenAll(ratio, a), b) == SharpenAll(ratio, a + b)
  {
    if b == [] {
      assert a + b == a;
    } else {
      var k := |b| - 1;
      assert (a + b)[..|a + b| - 1] == a + b[..k];
      SharpenConcat(ratio, a, b[..k]);
    }
  }

  method SendAll(node: Node, extra: nat -> nat, ratio: real, depth: nat, chunks: seq<string>) returns (r: Mapped, factor: real)
    ensures r == MapChunks(node, extra, depth, chunks)
    ensures factor == SharpenAll(ratio, r.log)
  {
    r := Mapped([], [], 0, []);
    factor := ratio;
    for i := 0 to |chunks|
      invariant r.Mapped? && r == MapChunks(node, extra, depth, chunks[..i])
      invariant factor == SharpenAll(ratio, r.log)
    {
      assert chunks[..i + 1][..i] == chunks[..i];
      var one;
      one, factor := SendChunk(node, extra(i), r.next, factor, chunks[i], depth);
      SharpenConcat(ratio, r.log, one.log);
      if one.Failed? {
        MapFailsForGood(node, extra, depth, chunks, i + 1);
        return MapFailed(r.log + one.log), factor;
      }
      r := Mapped(r.results + [Join(Answers(one.parts))], r.parts + one.parts, one.next, r.log + one.log);
    }
    assert chunks[..|chunks|] == chunks;
  }

  lemma {:induction false} MapFailsForGood(node: Node, extra: nat -> nat, depth: nat, chunks: seq<string>, i: nat)
    requires i <= |chunks| && MapChunks(node, extra, depth, chunks[..i]).MapFailed?
    ensures MapChunks(node, extra, depth, chunks) == MapChunks(node, extra, depth, chunks[..i])
    decreases |chunks|
  {
    if i < |chunks| {
      assert chunks[..|chunks| - 1][..i] == chunks[..i];
      MapFailsForGood(node, extra, depth, chunks[..|chunks| - 1], i);
    } else {
      assert chunks[..i] == chunks;
    }
  }

  /** A successful map phase has one result per chunk and its answered fragments are the whole
      input, each piece once and in order. */
  lemma {:induction false} MapCovers(node: Node, extra: nat -> nat, depth: nat, chunks: seq<string>)
    ensures var r := MapChunks(node, extra, depth, chunks);
            r.Mapped? ==> |r.results| == |chunks| && Covers(node, r.parts, Concat(chunks))
  {
    if chunks != [] && MapChunks(node, extra, depth, chunks).Mapped? {
      var k := |chunks| - 1;
      MapCovers(node, extra, depth, chunks[..k]);
      var done := MapChunks(node, extra, depth, chunks[..k]);
      HalvingCovers(node, extra(k), done.next, chunks[k], depth);
      CoversTwo(node, done.parts, Halving(node, extra(k), done.next, chunks[k], depth).parts, Concat(chunks[..k]), chunks[k]);
    }
  }

  // ---------------------------------------------------------------- chunk by chunk

  lemma {:induction false} AnswerAt(parts: seq<Part>, j: nat)
    requires j < |parts|
    ensures |Answers(parts)| == |parts| && Answers(parts)[j] == parts[j].answer
  {
    AnswersConcat([], parts);
    if j < |parts| - 1 {
      AnswerAt(parts[..|parts| - 1], j);
    } else {
      AnswersConcat([], parts[..j]);
    }
  }

  lemma JoinOne(line: string)
    ensures Join([line]) == line
  {}

  /** One chunk of the map phase: its parts, the rejections met, and the numbers of its first request
      and of the one behind its last. */
  datatype Piece = Piece(parts: seq<Part>, log: seq<Rejection>, first: nat, next: nat)

  function PartsOf(pieces: seq<Piece>): seq<seq<Part>> {
    seq(|pieces|, i requires 0 <= i < |pieces| => pieces[i].parts)
  }

  function LogsOf(pieces: seq<Piece>): seq<seq<Rejection>> {
    seq(|pieces|, i requires 0 <= i < |pieces| => pieces[i].log)
  }

  /** The piece is what sending this chunk comes to. */
  ghost predicate IsPiece(node: Node, extra: nat, depth: nat, chunk: string, p: Piece) {
    Halving(node, extra, p.first, chunk, depth) == Done(p.parts, p.next, p.log)
  }

  /** The i-th piece begins where the one before it ended, the first with request zero. */
  ghost predicate Follows(pieces: seq<Piece>, i: nat)
    requires i < |pieces|
  {
    if i == 0 then pieces[i].first == 0 else pieces[i].first == pieces[i - 1].next
  }

  ghost predicate InSequence(pieces: seq<Piece>, next: nat) {
    && (forall i: nat :: i < |pieces| ==> Follows(pieces, i))
    && (if pieces == [] then next == 0 else next == pieces[|pieces| - 1].next)
  }

  ghost predicate ArePieces(node: Node, extra: nat -> nat, depth: nat, chunks: seq<string>, pieces: seq<Piece>) {
    |pieces| == |chunks| && forall i :: 0 <= i < |chunks| ==> IsPiece(node, extra(i), depth, chunks[i], pieces[i])
  }

  ghost predicate AreResults(results: seq<string>, pieces: seq<Piece>) {
    |pieces| == |results| && forall i :: 0 <= i < |pieces| ==> results[i] == Join(Answers(pieces[i].parts))
  }

  ghost predicate IsMapping(node: Node, extra: nat -> nat, depth: nat, chunks: seq<string>, r: Mapped, pieces: seq<Piece>)
    requires r.Mapped?
  {
    && ArePieces(node, extra, depth, chunks, pieces) && InSequence(pieces, r.next) && AreResults(r.results, pieces)
    && r.parts == Concat(PartsOf(pieces)) && r.log == Concat(LogsOf(pieces))
  }

  lemma OneMorePiece(pieces: seq<Piece>, p: Piece)
    ensures Concat(PartsOf(pieces + [p])) == Concat(PartsOf(pieces)) + p.parts
    ensures Concat(LogsOf(pieces + [p])) == Concat(LogsOf(pieces)) + p.log
  {
    assert PartsOf(pieces + [p]) == PartsOf(pieces) + [p.parts];
    assert LogsOf(pieces + [p]) == LogsOf(pieces) + [p.log];
    ConcatSnoc(PartsOf(pieces), p.parts);
    ConcatSnoc(LogsOf(pieces), p.log);
  }

  lemma OneMoreInSequence(pieces: seq<Piece>, next: nat, p: Piece)
    requires InSequence(pieces, next) && p.first == next
    ensures InSequence(pieces + [p], p.next)
  {
    var all := pieces + [p];
    forall i: nat | i < |all|
      ensures Follows(all, i)
    {
      if i < |pieces| { assert Follows(pieces, i); }
    }
  }

  lemma OneMoreChunk(node: Node, extra: nat -> nat, depth: nat, chunks: seq<string>, pieces: seq<Piece>, p: Piece)
    requires chunks != [] && ArePieces(node, extra, depth, chunks[..|chunks| - 1], pieces)
    requires IsPiece(node, extra(|chunks| - 1), depth, chunks[|chunks| - 1], p)
    ensures ArePieces(node, extra, depth, chunks, pieces + [p])
  {
    var k, all := |chunks| - 1, pieces + [p];
    forall i | 0 <= i < |chunks|
      ensures IsPiece(node, extra(i), depth, chunks[i], all[i])
    {
      if i < k { assert chunks[..k][i] == chunks[i] && all[i] == pieces[i]; }
    }
  }

  lemma OneMoreResult(results: seq<string>, pieces: seq<Piece>, p: Piece)
    requires AreResults(results, pieces)
    ensures AreResults(results + [Join(Answers(p.parts))], pieces + [p])
  {}

  lemma LastPiece(node: Node, extra: nat -> nat, depth: nat, chunks: seq<string>) returns (p: Piece)
    requires chunks != [] && MapChunks(node, extra, depth, chunks).Mapped?
    ensures var done := MapChunks(node, extra, depth, chunks[..|chunks| - 1]);
            && done.Mapped? && p.first == done.next
            && MapChunks(node, extra, depth, chunks) ==
               Mapped(done.results + [Join(Answers(p.parts))], done.parts + p.parts, p.next, done.log + p.log)
    ensures IsPiece(node, extra(|chunks| - 1), depth, chunks[|chunks| - 1], p)
  {
    var k := |chunks| - 1;
    var done := MapChunks(node, extra, depth, chunks[..k]);
    var r := Halving(node, extra(k), done.next, chunks[k], depth);
    p := Piece(r.parts, r.log, done.next, r.next);
  }

  /** A successful map phase sends the chunks one after the other, in order, each from the request where
      the one before it ended; the i-th result is the answers to the i-th chunk, line by line. */
  lemma {:induction false} MapIsPerChunk(node: Node, extra: nat -> nat, depth: nat, chunks: seq<string>) returns (pieces: seq<Piece>)
    requires MapChunks(node, extra, depth, chunks).Mapped?
    ensures IsMapping(node, extra, depth, chunks, MapChunks(node, extra, depth, chunks), pieces)
  {
    pieces := [];
    if chunks != [] {
      var k := |chunks| - 1;
      var p := LastPiece(node, extra, depth, chunks);
      var front := MapIsPerChunk(node, extra, depth, chunks[..k]);
      var done := MapChunks(node, extra, depth, chunks[..k]);
      OneMorePiece(front, p);
      OneMoreInSequence(front, done.next, p);
      OneMoreChunk(node, extra, depth, chunks, front, p);
      OneMoreResult(done.results, front, p);
      pieces := front + [p];
    }
  }

  /** It fails exactly if sending some chunk fails, when all before it have been answered. */
  lemma {:induction false} MapFailsExactly(node: Node, extra: nat -> nat, depth: nat, chunks: seq<string>)
    ensures MapChunks(node, extra, depth, chunks).MapFailed? <==> SomeFails(node, extra, depth, chunks)
  {
    if chunks != [] {
      MapFailsExactly(node, extra, depth, chunks[..|chunks| - 1]);
      SomeFailsStep(node, extra, depth, chunks);
    }
  }

  ghost predicate SomeFails(node: Node, extra: nat -> nat, depth: nat, chunks: seq<string>) {
    exists i: nat :: FailsAt(node, extra, depth, chunks, i)
  }

  lemma FailsAtPrefix(node: Node, extra: nat -> nat, depth: nat, chunks: seq<string>, k: nat, i: nat)
    requires i < k <= |chunks|
    ensures FailsAt(node, extra, depth, chunks[..k], i) <==> FailsAt(node, extra, depth, chunks, i)
  {
    assert chunks[..k][..i] == chunks[..i];
  }

  lemma SomeFailsStep(node: Node, extra: nat -> nat, depth: nat, chunks: seq<string>)
    requires chunks != []
    ensures SomeFails(node, extra, depth, chunks) <==>
              SomeFails(node, extra, depth, chunks[..|chunks| - 1]) || FailsAt(node, extra, depth, chunks, |chunks| - 1)
  {
    var k := |chunks| - 1;
    if i: nat :| FailsAt(node, extra, depth, chunks[..k], i) { FailsAtPrefix(node, extra, depth, chunks, k, i); }
    if i: nat :| FailsAt(node, extra, depth, chunks, i) && i < k { FailsAtPrefix(node, extra, depth, chunks, k, i); }
  }

  ghost predicate FailsAt(node: Node, extra: nat -> nat, depth: nat, chunks: seq<string>, i: nat) {
    && i < |chunks| && MapChunks(node, extra, depth, chunks[..i]).Mapped?
    && Halving(node, extra(i), MapChunks(node, extra, depth, chunks[..i]).next, chunks[i], depth).Failed?
  }

  /** So a file that is cut into chunks and mapped is read in full. */
  lemma WholeTextIsAnswered(node: Node, extra: nat -> nat, depth: nat, text: string, size: nat)
    requires size > 0
    ensures var r := MapChunks(node, extra, depth, Chunks(text, size));
            r.Mapped? ==> |r.results| == |Chunks(text, size)| && Covers(node, r.parts, text)
  {
    ChunksPartition(text, size);
    MapCovers(node, extra, depth, Chunks(text, size));
  }

  // ---------------------------------------------------------------- the reduce phase

  /** The model that combines a group of partial answers; `None` is any failure. */
  type Model = (nat, seq<string>) -> Option<string>

  /** How an answer came about: a partial result as it was, or one request combining several. */
  datatype Tree = Leaf(text: string) | Combined(request: nat, children: seq<Tree>)

  function Leaves(t: Tree): seq<string> {
    match t
    case Leaf(text) => [text]
    case Combined(_, children) => AllLeaves(children)
  }

  function AllLeaves(ts: seq<Tree>): seq<string> {
    if ts == [] then [] else AllLeaves(ts[..|ts| - 1]) + Leaves(ts[|ts| - 1])
  }

  function Value(model: Model, t: Tree): string {
    match t
    case Leaf(text) => text
    case Combined(request, children) =>
      match model(request, Values(model, children))
      case None => ""
      case Some(text) => text
  }

  function Values(model: Model, ts: seq<Tree>): (vs: seq<string>)
    ensures |vs| == |ts|
  {
    if ts == [] then [] else Values(model, ts[..|ts| - 1]) + [Value(model, ts[|ts| - 1])]
  }

  /** Every request of the tree was answered, combined at least two texts, and kept to the budget. */
  ghost predicate WithinBudget(model: Model, budget: nat, t: Tree) {
    match t
    case Leaf(_) => true
    case Combined(request, children) =>
      && |children| >= 2
      && Sum(Characters, Values(model, children)) <= budget
      && model(request, Values(model, children)).Some?
      && AllWithinBudget(model, budget, children)
  }

  ghost predicate AllWithinBudget(model: Model, budget: nat, ts: seq<Tree>) {
    ts == [] || (AllWithinBudget(model, budget, ts[..|ts| - 1]) && WithinBudget(model, budget, ts[|ts| - 1]))
  }

  lemma {:induction false} LeavesConcat(a: seq<Tree>, b: seq<Tree>)
    ensures AllLeaves(a + b) == AllLeaves(a) + AllLeaves(b)
  {
    if b == [] {
      assert a + b == a && AllLeaves(a) + [] == AllLeaves(a);
    } else {
      var k := |b| - 1;
      assert (a + b)[..|a + b| - 1] == a + b[..k];
      LeavesConcat(a, b[..k]);
      Associative(AllLeaves(a), AllLeaves(b[..k]), Leaves(b[k]));
    }
  }

  lemma {:induction false} ValuesConcat(model: Model, a: seq<Tree>, b: seq<Tree>)
    ensures Values(model, a + b) == Values(model, a) + Values(model, b)
  {
    if b == [] {
      assert a + b == a && Values(model, a) + [] == Values(model, a);
    } else {
      var k := |b| - 1;
      assert (a + b)[..|a + b| - 1] == a + b[..k];
      ValuesConcat(model, a, b[..k]);
      Associative(Values(model, a), Values(model, b[..k]), [Value(model, b[k])]);
    }
  }

  lemma {:induction false} WithinBudgetConcat(model: Model, budget: nat, a: seq<Tree>, b: seq<Tree>)
    ensures AllWithinBudget(model, budget, a + b) <==> AllWithinBudget(model, budget, a) && AllWithinBudget(model, budget, b)
  {
    if b == [] {
      assert a + b == a;
    } else {
      var k := |b| - 1;
      assert (a + b)[..|a + b| - 1] == a + b[..k];
      WithinBudgetConcat(model, budget, a, b[..k]);
    }
  }

  /** A level of texts, each with the tree behind it; together the trees hold `source` in order. */
  ghost predicate Grown(model: Model, budget: nat, level: seq<string>, forest: seq<Tree>, source: seq<string>) {
    && Values(model, forest) == level
    && AllWithinBudget(model, budget, forest)
    && AllLeaves(forest) == source
  }

  lemma GrownConcat(model: Model, budget: nat, l1: seq<string>, f1: seq<Tree>, s1: seq<string>,
                    l2: seq<string>, f2: seq<Tree>, s2: seq<string>)
    requires Grown(model, budget, l1, f1, s1) && Grown(model, budget, l2, f2, s2)
    ensures Grown(model, budget, l1 + l2, f1 + f2, s1 + s2)
  {
    LeavesConcat(f1, f2);
    ValuesConcat(model, f1, f2);
    WithinBudgetConcat(model, budget, f1, f2);
  }

  /** A grown level, cut in two. */
  lemma GrownSplit(model: Model, budget: nat, level: seq<string>, forest: seq<Tree>, source: seq<string>, k: nat)
    requires Grown(model, budget, level, forest, source) && k <= |level|
    ensures k <= |forest|
    ensures Grown(model, budget, level[..k], forest[..k], AllLeaves(forest[..k]))
    ensures Grown(model, budget, level[k..], forest[k..], AllLeaves(forest[k..]))
    ensures source == AllLeaves(forest[..k]) + AllLeaves(forest[k..])
  {
    var a, b := forest[..k], forest[k..];
    assert a + b == forest;
    LeavesConcat(a, b);
    ValuesConcat(model, a, b);
    WithinBudgetConcat(model, budget, a, b);
    assert level == Values(model, a) + Values(model, b);
  }

  /** Combining a whole group into one text. */
  lemma GrownCombine(model: Model, budget: nat, group: seq<string>, forest: seq<Tree>, source: seq<string>, request: nat)
    requires Grown(model, budget, group, forest, source)
    requires |group| >= 2 && Sum(Characters, group) <= budget && model(request, group).Some?
    ensures Grown(model, budget, [model(request, group).value], [Combined(request, forest)], source)
  {
    var ts := [Combined(request, forest)];
    assert ts[..0] == [];
    assert [] + Leaves(ts[0]) == Leaves(ts[0]);
  }

  lemma {:induction false} GrownStart(model: Model, budget: nat, results: seq<string>) returns (forest: seq<Tree>)
    ensures Grown(model, budget, results, forest, results)
  {
    forest := [];
    if results != [] {
      var k := |results| - 1;
      var front := GrownStart(model, budget, results[..k]);
      var last := [Leaf(results[k])];
      assert last[..0] == [] && [] + [results[k]] == [results[k]];
      GrownConcat(model, budget, results[..k], front, results[..k], [results[k]], last, [results[k]]);
      assert results[..k] + [results[k]] == results;
      forest := front + last;
    }
  }

  // ---------------------------------------------------------------- one round

  /** One group: a single text stays, several become the model's answer. `Some` holds the text and the
      number of the next request. */
  function CombineOne(model: Model, request: nat, group: seq<string>): Option<(string, nat)> {
    if |group| == 1 then Some((group[0], request)) else
      match model(request, group)
      case None => None
      case Some(text) => Some((text, request + 1))
  }

  /** The groups in order; the first failure ends the round. */
  function Combine(model: Model, request: nat, groups: seq<seq<string>>): (r: Option<(seq<string>, nat)>)
    ensures r.Some? ==> |r.value.0| == |groups|
  {
    if groups == [] then Some(([], request)) else
      match Combine(model, request, groups[..|groups| - 1])
      case None => None
      case Some((out, next)) =>
        match CombineOne(model, next, groups[|groups| - 1])
        case None => None
        case Some((text, next')) => Some((out + [text], next'))
  }

  method CombineGroups(model: Model, start: nat, groups: seq<seq<string>>) returns (r: Option<(seq<string>, nat)>)
    ensures r == Combine(model, start, groups)
  {
    var out: seq<string>, request := [], start;
    for i := 0 to |groups|
      invariant Combine(model, start, groups[..i]) == Some((out, request))
    {
      var group := groups[i];
      assert groups[..i + 1][..i] == groups[..i];
      if |group| == 1 {
        out := out + [group[0]];
      } else {
        var answer := model(request, group);
        if answer.None? {
          CombineFailsForGood(model, start, groups, i + 1);
          return None;
        }
        out, request := out + [answer.value], request + 1;
      }
    }
    assert groups[..|groups|] == groups;
    r := Some((out, request));
  }

  lemma {:induction false} CombineFailsForGood(model: Model, request: nat, groups: seq<seq<string>>, i: nat)
    requires i <= |groups| && Combine(model, request, groups[..i]).None?
    ensures Combine(model, request, groups).None?
    decreases |groups|
  {
    if i < |groups| {
      assert groups[..|groups| - 1][..i] == groups[..i];
      CombineFailsForGood(model, request, groups[..|groups| - 1], i);
    } else {
      assert groups[..i] == groups;
    }
  }

  /** A round fails only because the model failed on one of the groups of several texts. */
  lemma {:induction false} CombineFailure(model: Model, request: nat, groups: seq<seq<string>>) returns (i: nat, n: nat)
    requires Combine(model, request, groups).None?
    ensures i < |groups| && |groups[i]| != 1 && model(n, groups[i]).None?
  {
    var k := |groups| - 1;
    if Combine(model, request, groups[..k]).None? {
      i, n := CombineFailure(model, request, groups[..k]);
    } else {
      i, n := k, Combine(model, request, groups[..k]).value.1;
    }
  }

  /** The groups of a round that take a request: all but those of a single text. */
  ghost function Asked(groups: seq<seq<string>>): set<nat> {
    set i: nat | i < |groups| && |groups[i]| != 1
  }

  lemma AskedOfPrefix(groups: seq<seq<string>>)
    requires groups != []
    ensures var k := |groups| - 1;
            Asked(groups) == Asked(groups[..k]) + if |groups[k]| != 1 then {k} else {}
  {}

  /** A round takes one request for each group of several texts, and none for a single one. */
  lemma {:induction false} CombineRequests(model: Model, request: nat, groups: seq<seq<string>>)
    requires Combine(model, request, groups).Some?
    ensures Combine(model, request, groups).value.1 == request + |Asked(groups)|
  {
    if groups != [] {
      CombineRequests(model, request, groups[..|groups| - 1]);
      AskedOfPrefix(groups);
    }
  }

  lemma CombineOneGrows(model: Model, budget: nat, request: nat, group: seq<string>, forest: seq<Tree>, source: seq<string>)
    returns (tree: Tree)
    requires Admissible(Characters, budget, group) && Grown(model, budget, group, forest, source)
    requires CombineOne(model, request, group).Some?
    ensures Grown(model, budget, [CombineOne(model, request, group).value.0], [tree], source)
  {
    if |group| == 1 {
      assert group == [group[0]] && forest == [forest[0]];
      tree := forest[0];
    } else {
      GrownCombine(model, budget, group, forest, source, request);
      tree := Combined(request, forest);
    }
  }

  /** Combining admissible groups keeps every text accounted for. */
  lemma {:induction false} CombineGrows(model: Model, budget: nat, request: nat, groups: seq<seq<string>>,
                                        forest: seq<Tree>, source: seq<string>) returns (forest': seq<Tree>)
    requires AllAdmissible(Characters, budget, groups) && Grown(model, budget, Concat(groups), forest, source)
    requires Combine(model, request, groups).Some?
    ensures Grown(model, budget, Combine(model, request, groups).value.0, forest', source)
  {
    if groups == [] {
      forest' := forest;
    } else {
      var k := |groups| - 1;
      var front, last := Concat(groups[..k]), groups[k];
      assert Concat(groups)[..|front|] == front && Concat(groups)[|front|..] == last;
      GrownSplit(model, budget, Concat(groups), forest, source, |front|);
      var f, b := forest[..|front|], forest[|front|..];
      var done := CombineGrows(model, budget, request, groups[..k], f, AllLeaves(f));
      var (out, next) := Combine(model, request, groups[..k]).value;
      var tree := CombineOneGrows(model, budget, next, last, b, AllLeaves(b));
      GrownConcat(model, budget, out, done, AllLeaves(f), [CombineOne(model, next, last).value.0], [tree], AllLeaves(b));
      forest' := done + [tree];
    }
  }

  /** Texts that were on the level or are answers of the model. */
  ghost predicate AllKnown(model: Model, level: seq<string>, texts: seq<string>) {
    forall i :: 0 <= i < |texts| ==> texts[i] in level || exists n, g :: model(n, g) == Some(texts[i])
  }

  lemma {:induction false} CombineKnows(model: Model, request: nat, groups: seq<seq<string>>)
    requires Combine(model, request, groups).Some?
    ensures AllKnown(model, Concat(groups), Combine(model, request, groups).value.0)
  {
    if groups != [] {
      var k := |groups| - 1;
      CombineKnows(model, request, groups[..k]);
      var (out, next) := Combine(model, request, groups[..k]).value;
      forall i | 0 <= i < |out|
        ensures out[i] in Concat(groups) || exists n, g :: model(n, g) == Some(out[i])
      { if out[i] in Concat(groups[..k]) { assert out[i] in Concat(groups[..k]) + groups[k]; } }
      if |groups[k]| == 1 {
        assert groups[k][0] in Concat(groups[..k]) + groups[k];
      } else {
        assert model(next, groups[k]).Some?;
      }
    }
  }

  // ---------------------------------------------------------------- level by level

  datatype Round = NextLevel(texts: seq<string>, request: nat) | NoProgress | RoundFailed

  /** Group, give up if that does not shrink the level, otherwise combine. */
  function OneRound(model: Model, budget: nat, request: nat, level: seq<string>): (r: Round)
    requires |level| >= 2
    ensures r.NextLevel? ==> 0 < |r.texts| < |level|
  {
    var groups := Greedy(Characters, budget, level);
    if |groups| >= |level| then NoProgress else
      GreedyPartitions(Characters, budget, level);
      match Combine(model, request, groups)
      case None => RoundFailed
      case Some((texts, next)) => NextLevel(texts, next)
  }

  datatype Reduced =
    | Result(text: string, rounds: nat)
    | Stuck(level: seq<string>)
    | NodeFailed

  /** Rounds until one text is left: fewer than there are texts. */
  function Reduction(model: Model, budget: nat, request: nat, level: seq<string>, rounds: nat): (r: Reduced)
    requires level != []
    ensures r.Result? ==> rounds <= r.rounds < rounds + |level|
    decreases |level|
  {
    if |level| == 1 then Result(level[0], rounds) else
      match OneRound(model, budget, request, level)
      case NoProgress => Stuck(level)
      case RoundFailed => NodeFailed
      case NextLevel(texts, next) => Reduction(model, budget, next, texts, rounds + 1)
  }

  /** The loop over the levels. */
  method Reduce(model: Model, budget: nat, start: nat, results: seq<string>) returns (r: Reduced)
    requires results != []
    ensures r == Reduction(model, budget, start, results, 0)
  {
    var level, request, rounds := results, start, 0;
    while |level| > 1
      invariant level != []
      invariant Reduction(model, budget, request, level, rounds) == Reduction(model, budget, start, results, 0)
      decreases |level|
    {
      var groups := GroupByCharacters(level, budget);
      if |groups| >= |level| {
        return Stuck(level);
      }
      var combined := CombineGroups(model, request, groups);
      if combined.None? {
        return NodeFailed;
      }
      level, request, rounds := combined.value.0, combined.value.1, rounds + 1;
    }
    r := Result(level[0], rounds);
  }

  /** A level of one text has one tree behind it. */
  lemma OneTree(model: Model, budget: nat, level: seq<string>, forest: seq<Tree>, source: seq<string>)
    requires Grown(model, budget, level, forest, source) && |level| == 1
    ensures |forest| == 1
    ensures WithinBudget(model, budget, forest[0]) && Leaves(forest[0]) == source && Value(model, forest[0]) == level[0]
  {
    assert |forest| == 1 && forest[..|forest| - 1] == [];
    assert AllLeaves(forest) == [] + Leaves(forest[0]);
    assert Values(model, forest) == [] + [Value(model, forest[0])];
    assert [] + Leaves(forest[0]) == Leaves(forest[0]);
  }

  /** A text that a reduction of `source` can come to, and how. */
  ghost predicate IsReduct(model: Model, budget: nat, source: seq<string>, text: string, tree: Tree) {
    WithinBudget(model, budget, tree) && Leaves(tree) == source && Value(model, tree) == text
  }

  /** A level that a reduction of `source` can come to. */
  ghost predicate IsLevel(model: Model, budget: nat, source: seq<string>, level: seq<string>) {
    exists forest :: Grown(model, budget, level, forest, source)
  }

  /** A request the model fails on: several neighbours on a level the reduction comes to, within the
      budget. */
  ghost predicate IsRefused(model: Model, budget: nat, source: seq<string>, n: nat, front: seq<string>, g: seq<string>, back: seq<string>) {
    && |g| >= 2 && Sum(Characters, g) <= budget && model(n, g).None?
    && IsLevel(model, budget, source, front + g + back)
  }

  /** No two neighbours fit the budget together. */
  ghost predicate NoPairFits(budget: nat, level: seq<string>) {
    forall i :: 0 <= i < |level| - 1 ==> Characters(level[i]) + Characters(level[i + 1]) > budget
  }

  lemma RoundFailedMeans(model: Model, budget: nat, request: nat, level: seq<string>, source: seq<string>)
    requires |level| >= 2 && OneRound(model, budget, request, level).RoundFailed?
    requires IsLevel(model, budget, source, level)
    ensures exists n, front, g, back :: IsRefused(model, budget, source, n, front, g, back)
  {
    var groups := Greedy(Characters, budget, level);
    GreedyPartitions(Characters, budget, level);
    var i, n := CombineFailure(model, request, groups);
    var front, g, back := Concat(groups[..i]), groups[i], Concat(groups[i + 1..]);
    AroundGroup(groups, i);
    assert Admissible(Characters, budget, g);
    assert IsRefused(model, budget, source, n, front, g, back);
  }

  lemma TakeOneDrop<T>(s: seq<T>, i: nat)
    requires i < |s|
    ensures (s[..i] + [s[i]]) + s[i + 1..] == s
  {}

  lemma AroundGroup<T>(groups: seq<seq<T>>, i: nat)
    requires i < |groups|
    ensures Concat(groups) == Concat(groups[..i]) + groups[i] + Concat(groups[i + 1..])
  {
    TakeOneDrop(groups, i);
    ConcatAppend(groups[..i] + [groups[i]], groups[i + 1..]);
    ConcatSnoc(groups[..i], groups[i]);
  }

  lemma NextLevelMeans(model: Model, budget: nat, request: nat, level: seq<string>, source: seq<string>)
    requires |level| >= 2 && OneRound(model, budget, request, level).NextLevel?
    requires IsLevel(model, budget, source, level)
    ensures IsLevel(model, budget, source, OneRound(model, budget, request, level).texts)
    ensures AllKnown(model, level, OneRound(model, budget, request, level).texts)
    ensures |OneRound(model, budget, request, level).texts| == |Greedy(Characters, budget, level)|
  {
    var groups := Greedy(Characters, budget, level);
    GreedyPartitions(Characters, budget, level);
    var forest :| Grown(model, budget, level, forest, source);
    var forest' := CombineGrows(model, budget, request, groups, forest, source);
    CombineKnows(model, request, groups);
  }

  lemma ReductionStep(model: Model, budget: nat, request: nat, level: seq<string>, rounds: nat)
    requires |level| >= 2
    ensures Reduction(model, budget, request, level, rounds) ==
            match OneRound(model, budget, request, level)
            case NoProgress => Stuck(level)
            case RoundFailed => NodeFailed
            case NextLevel(texts, next) => Reduction(model, budget, next, texts, rounds + 1)
  {}

  /** What the three outcomes of a reduction mean. A result is the value of a tree whose leaves are the
      partial results, each once and in order, and in which every request combined at least two texts
      within the budget. It is stuck only on a level it has come to on which no two neighbours fit the
      budget together. It fails only because the model failed on neighbours of a level it has come to
      that do fit. */
  ghost predicate Accounted(model: Model, budget: nat, source: seq<string>, r: Reduced) {
    match r
    case Result(text, _) => exists tree :: IsReduct(model, budget, source, text, tree)
    case Stuck(level) => |level| >= 2 && NoPairFits(budget, level) && IsLevel(model, budget, source, level)
    case NodeFailed => exists n, front, g, back :: IsRefused(model, budget, source, n, front, g, back)
  }

  lemma LastLevelAccounted(model: Model, budget: nat, level: seq<string>, rounds: nat, source: seq<string>)
    requires |level| == 1 && IsLevel(model, budget, source, level)
    ensures Accounted(model, budget, source, Result(level[0], rounds))
  {
    var forest :| Grown(model, budget, level, forest, source);
    OneTree(model, budget, level, forest, source);
    assert IsReduct(model, budget, source, level[0], forest[0]);
  }

  lemma StuckAccounted(model: Model, budget: nat, request: nat, level: seq<string>, source: seq<string>)
    requires |level| >= 2 && OneRound(model, budget, request, level).NoProgress? && IsLevel(model, budget, source, level)
    ensures Accounted(model, budget, source, Stuck(level))
  {
    NoShrinkExactly(Characters, budget, level);
  }

  /** For every model, every outcome is accounted for in this way. */
  lemma {:induction false} ReductionMeans(model: Model, budget: nat, request: nat, level: seq<string>, rounds: nat, source: seq<string>)
    requires level != [] && IsLevel(model, budget, source, level)
    ensures Accounted(model, budget, source, Reduction(model, budget, request, level, rounds))
    decreases |level|
  {
    if |level| == 1 {
      LastLevelAccounted(model, budget, level, rounds, source);
    } else {
      match OneRound(model, budget, request, level)
      case NoProgress => StuckAccounted(model, budget, request, level, source);
      case RoundFailed => RoundFailedMeans(model, budget, request, level, source);
      case NextLevel(texts, next) =>
        NextLevelMeans(model, budget, request, level, source);
        ReductionMeans(model, budget, next, texts, rounds + 1, source);
    }
  }

  /** A first level on which no two neighbours fit is given up at once, without a request. */
  lemma StuckAtOnce(model: Model, budget: nat, request: nat, results: seq<string>)
    requires |results| >= 2
    ensures Reduction(model, budget, request, results, 0) == Stuck(results) <==> NoPairFits(budget, results)
  {
    NoShrinkExactly(Characters, budget, results);
    if !NoPairFits(budget, results) && OneRound(model, budget, request, results).NextLevel? {
      var round := OneRound(model, budget, request, results);
      StuckIsShorter(model, budget, round.request, round.texts, 1);
    }
  }

  lemma {:induction false} StuckIsShorter(model: Model, budget: nat, request: nat, level: seq<string>, rounds: nat)
    requires level != []
    ensures Reduction(model, budget, request, level, rounds).Stuck? ==>
              |Reduction(model, budget, request, level, rounds).level| <= |level|
    decreases |level|
  {
    if |level| > 1 {
      match OneRound(model, budget, request, level)
      case NoProgress =>
      case RoundFailed =>
      case NextLevel(texts, next) => StuckIsShorter(model, budget, next, texts, rounds + 1);
    }
  }

  // ---------------------------------------------------------------- when a reduction succeeds

  /** The number of rounds in which `n` results, divided by `k` and rounded up each time, become one. */
  function Rounds(n: nat, k: nat): nat
    requires k >= 2
    decreases n
  {
    if n <= 1 then 0 else
      CeilIsSmaller(n, k);
      1 + Rounds(CeilDiv(n, k), k)
  }

  lemma CeilIsSmaller(n: nat, k: nat)
    requires n >= 2 && k >= 2
    ensures 1 <= CeilDiv(n, k) < n
  {
    CeilMeaning(n, k, n - 1);
    CeilMeaning(n, k, 0);
    ProductOrder(2, k, n - 1);
  }

  lemma {:induction false} RoundsMonotone(m: nat, n: nat, k: nat)
    requires k >= 2 && m <= n
    ensures Rounds(m, k) <= Rounds(n, k)
    decreases n
  {
    if m > 1 {
      CeilIsSmaller(n, k);
      CeilMeaning(n, k, CeilDiv(n, k));
      CeilMeaning(m, k, CeilDiv(n, k));
      RoundsMonotone(CeilDiv(m, k), CeilDiv(n, k), k);
    }
  }

  function Power(k: nat, r: nat): nat {
    if r == 0 then 1 else Power(k, r - 1) * k
  }

  /** The depth is logarithmic: `r` rounds suffice exactly for up to `k^r` results. */
  lemma {:induction false} RoundsIsLogarithm(n: nat, k: nat, r: nat)
    requires k >= 2 && n >= 1
    ensures Rounds(n, k) <= r <==> n <= Power(k, r)
    decreases r
  {
    PowerPositive(k, r);
    if n > 1 {
      CeilIsSmaller(n, k);
      if r > 0 {
        RoundsIsLogarithm(CeilDiv(n, k), k, r - 1);
        CeilMeaning(n, k, Power(k, r - 1));
      }
    }
  }

  lemma {:induction false} PowerPositive(k: nat, r: nat)
    requires k >= 1
    ensures Power(k, r) >= 1
  {
    if r > 0 {
      PowerPositive(k, r - 1);
      ProductOrder(1, Power(k, r - 1), k);
    }
  }

  /** All texts of a level, and all texts the model can produce, are at most `limit` long. */
  ghost predicate Bounded(model: Model, level: seq<string>, limit: nat) {
    && (forall i :: 0 <= i < |level| ==> Characters(level[i]) <= limit)
    && (forall n, g :: model(n, g).Some? ==> |model(n, g).value| <= limit)
  }

  /** The favourable case: the budget holds `k >= 2` of the longest texts that can occur. */
  ghost predicate Favourable(model: Model, budget: nat, level: seq<string>, limit: nat, k: nat) {
    k >= 2 && k * limit <= budget && Bounded(model, level, limit)
  }

  /** Then a level has neighbours that fit, and the next one is at most a `k`-th of it. */
  lemma Progresses(model: Model, budget: nat, level: seq<string>, limit: nat, k: nat)
    requires Favourable(model, budget, level, limit, k) && |level| >= 2
    ensures |Greedy(Characters, budget, level)| <= CeilDiv(|level|, k) < |level|
  {
    GreedyShrinks(Characters, budget, level, limit, k);
    CeilIsSmaller(|level|, k);
  }

  lemma StaysFavourable(model: Model, budget: nat, level: seq<string>, next: seq<string>, limit: nat, k: nat)
    requires Favourable(model, budget, level, limit, k) && AllKnown(model, level, next)
    ensures Favourable(model, budget, next, limit, k)
  {
    forall i | 0 <= i < |next|
      ensures Characters(next[i]) <= limit
    {
      if next[i] !in level {
        var n, g :| model(n, g) == Some(next[i]);
      }
    }
  }

  lemma RoundsDrop(m: nat, n: nat, k: nat)
    requires k >= 2 && n >= 2 && m <= CeilDiv(n, k)
    ensures 1 + Rounds(m, k) <= Rounds(n, k)
  {
    CeilIsSmaller(n, k);
    RoundsMonotone(m, CeilDiv(n, k), k);
  }

  /** The model answers every request that combines several texts within the budget. */
  ghost predicate NeverFails(model: Model, budget: nat) {
    forall n, g {:trigger model(n, g)} :: |g| >= 2 && Sum(Characters, g) <= budget ==> model(n, g).Some?
  }

  lemma NoRoundFails(model: Model, budget: nat, request: nat, level: seq<string>)
    requires |level| >= 2 && NeverFails(model, budget)
    ensures !OneRound(model, budget, request, level).RoundFailed?
  {
    var groups := Greedy(Characters, budget, level);
    GreedyPartitions(Characters, budget, level);
    if Combine(model, request, groups).None? {
      var i, n := CombineFailure(model, request, groups);
    }
  }

  lemma FavourableRound(model: Model, budget: nat, request: nat, level: seq<string>, limit: nat, k: nat)
    requires Favourable(model, budget, level, limit, k) && |level| >= 2
    ensures var round := OneRound(model, budget, request, level);
            && !round.NoProgress?
            && (round.NextLevel? ==>
                  Favourable(model, budget, round.texts, limit, k) && 1 + Rounds(|round.texts|, k) <= Rounds(|level|, k))
  {
    Progresses(model, budget, level, limit, k);
    var groups := Greedy(Characters, budget, level);
    GreedyPartitions(Characters, budget, level);
    if Combine(model, request, groups).Some? {
      CombineKnows(model, request, groups);
      StaysFavourable(model, budget, level, Combine(model, request, groups).value.0, limit, k);
      RoundsDrop(|groups|, |level|, k);
    }
  }

  lemma {:induction false} FavourableIsNotStuck(model: Model, budget: nat, request: nat, level: seq<string>, limit: nat, k: nat, rounds: nat)
    requires Favourable(model, budget, level, limit, k) && level != []
    ensures !Reduction(model, budget, request, level, rounds).Stuck?
    decreases |level|
  {
    if |level| >= 2 {
      FavourableRound(model, budget, request, level, limit, k);
      ReductionStep(model, budget, request, level, rounds);
      var round := OneRound(model, budget, request, level);
      if round.NextLevel? { FavourableIsNotStuck(model, budget, round.request, round.texts, limit, k, rounds + 1); }
    }
  }

  ghost predicate TakesAtMost(r: Reduced, bound: nat) {
    r.Result? ==> r.rounds <= bound
  }

  lemma {:induction false} FavourableTakes(model: Model, budget: nat, request: nat, level: seq<string>, limit: nat, k: nat, rounds: nat)
    requires Favourable(model, budget, level, limit, k) && level != []
    ensures TakesAtMost(Reduction(model, budget, request, level, rounds), rounds + Rounds(|level|, k))
    decreases |level|
  {
    if |level| >= 2 {
      FavourableRound(model, budget, request, level, limit, k);
      ReductionStep(model, budget, request, level, rounds);
      var round := OneRound(model, budget, request, level);
      if round.NextLevel? { FavourableTakes(model, budget, round.request, round.texts, limit, k, rounds + 1); }
    }
  }

  lemma {:induction false} ReductionNeverFails(model: Model, budget: nat, request: nat, level: seq<string>, rounds: nat)
    requires NeverFails(model, budget) && level != []
    ensures Reduction(model, budget, request, level, rounds) != NodeFailed
    decreases |level|
  {
    if |level| >= 2 {
      NoRoundFails(model, budget, request, level);
      ReductionStep(model, budget, request, level, rounds);
      var round := OneRound(model, budget, request, level);
      if round.NextLevel? { ReductionNeverFails(model, budget, round.request, round.texts, rounds + 1); }
    }
  }

  /** When the budget holds `k >= 2` of the longest texts that can occur, a reduction is never stuck;
      if the model never fails either it ends in a result, after at most `Rounds(n, k)` rounds. */
  lemma ReductionSucceeds(model: Model, budget: nat, request: nat, results: seq<string>, limit: nat, k: nat)
    requires Favourable(model, budget, results, limit, k) && results != []
    ensures var r := Reduction(model, budget, request, results, 0);
            && !r.Stuck?
            && (r.Result? ==> r.rounds <= Rounds(|results|, k))
            && (NeverFails(model, budget) ==> r.Result?)
  {
    FavourableIsNotStuck(model, budget, request, results, limit, k, 0);
    FavourableTakes(model, budget, request, results, limit, k, 0);
    if NeverFails(model, budget) { ReductionNeverFails(model, budget, request, results, 0); }
  }

  // ---------------------------------------------------------------- from file to answer

  /** Nothing but white space. */
  predicate IsBlank(space: char -> bool, text: string) {
    forall i :: 0 <= i < |text| ==> space(text[i])
  }

  /** The whole run as a function. A blank file is turned away. */
  function FileAnswer(space: char -> bool, node: Node, model: Model, extra: nat -> nat, depth: nat,
                      text: string, size: nat, budget: nat): Option<Reduced>
    requires size > 0
  {
    if IsBlank(space, text) then None else
      WholeTextIsAnswered(node, extra, depth, text, size);
      ChunksPartition(text, size);
      match MapChunks(node, extra, depth, Chunks(text, size))
      case MapFailed(_) => Some(NodeFailed)
      case Mapped(results, _, next, _) => Some(Reduction(model, budget, next, results, 0))
  }

  /** Cut, map, and reduce unless there is a single chunk. */
  method AnswerFile(space: char -> bool, node: Node, model: Model, extra: nat -> nat, ratio: real, depth: nat,
                    text: string, size: nat, budget: nat) returns (r: Option<Reduced>)
    requires size > 0
    ensures r == FileAnswer(space, node, model, extra, depth, text, size, budget)
  {
    if IsBlank(space, text) {
      return None;
    }
    var chunks := Chunks(text, size);
    WholeTextIsAnswered(node, extra, depth, text, size);
    ChunksPartition(text, size);
    var done, factor := SendAll(node, extra, ratio, depth, chunks);
    if done.MapFailed? {
      return Some(NodeFailed);
    }
    if |done.results| == 1 {
      return Some(Result(done.results[0], 0));
    }
    var reduced := Reduce(model, budget, done.next, done.results);
    r := Some(reduced);
  }

  /** Each chunk is answered in full by its piece. */
  ghost predicate PiecesCover(node: Node, chunks: seq<string>, pieces: seq<Piece>) {
    |pieces| == |chunks| && forall i :: 0 <= i < |chunks| ==> Covers(node, pieces[i].parts, chunks[i])
  }

  lemma PiecesAnswer(node: Node, extra: nat -> nat, depth: nat, chunks: seq<string>, pieces: seq<Piece>)
    requires ArePieces(node, extra, depth, chunks, pieces)
    ensures PiecesCover(node, chunks, pieces)
  {
    forall i | 0 <= i < |chunks|
      ensures Covers(node, pieces[i].parts, chunks[i])
    {
      assert IsPiece(node, extra(i), depth, chunks[i], pieces[i]);
      HalvingCovers(node, extra(i), pieces[i].first, chunks[i], depth);
    }
  }

  /** What the run comes to. Only a blank file gives none. If sending some chunk fails the node has
      failed; otherwise the outcome is accounted for over the partial results, and a single chunk's is
      the result as it stands. */
  lemma FileAnswerExactly(space: char -> bool, node: Node, model: Model, extra: nat -> nat, depth: nat,
                          text: string, size: nat, budget: nat)
    requires size > 0
    ensures var r := FileAnswer(space, node, model, extra, depth, text, size, budget);
            var chunks := Chunks(text, size);
            var mapped := MapChunks(node, extra, depth, chunks);
            && (r.None? <==> forall i :: 0 <= i < |text| ==> space(text[i]))
            && (r.Some? && SomeFails(node, extra, depth, chunks) ==> r == Some(NodeFailed))
            && (r.Some? && !SomeFails(node, extra, depth, chunks) ==>
                  && mapped.Mapped? && Accounted(model, budget, mapped.results, r.value)
                  && (|text| <= size ==> r.value.Result? && mapped.results == [r.value.text]))
  {
    var chunks := Chunks(text, size);
    MapFailsExactly(node, extra, depth, chunks);
    if !IsBlank(space, text) && MapChunks(node, extra, depth, chunks).Mapped? {
      WholeTextIsAnswered(node, extra, depth, text, size);
      ChunksPartition(text, size);
      var mapped := MapChunks(node, extra, depth, chunks);
      var forest := GrownStart(model, budget, mapped.results);
      ReductionMeans(model, budget, mapped.next, mapped.results, 0, mapped.results);
      if |text| <= size { ChunksCount(text, size); }
    }
  }

  /** What a result means: it is the value of a tree over one partial result per chunk, in the order of
      the chunks. Each of these is the answers for its chunk, line by line, and the fragments answered are
      the whole chunk, each character once and in order. */
  lemma FileAnswerMeans(space: char -> bool, node: Node, model: Model, extra: nat -> nat, depth: nat,
                        text: string, size: nat, budget: nat) returns (pieces: seq<Piece>)
    requires size > 0
    requires var r := FileAnswer(space, node, model, extra, depth, text, size, budget); r.Some? && r.value.Result?
    ensures var mapped := MapChunks(node, extra, depth, Chunks(text, size));
            && mapped.Mapped? && Covers(node, mapped.parts, text)
            && IsMapping(node, extra, depth, Chunks(text, size), mapped, pieces) && PiecesCover(node, Chunks(text, size), pieces)
            && exists tree :: IsReduct(model, budget, mapped.results,
                 FileAnswer(space, node, model, extra, depth, text, size, budget).value.text, tree)
  {
    WholeTextIsAnswered(node, extra, depth, text, size);
    ChunksPartition(text, size);
    var chunks := Chunks(text, size);
    var mapped := MapChunks(node, extra, depth, chunks);
    pieces := MapIsPerChunk(node, extra, depth, chunks);
    PiecesAnswer(node, extra, depth, chunks, pieces);
    var forest := GrownStart(model, budget, mapped.results);
    ReductionMeans(model, budget, mapped.next, mapped.results, 0, mapped.results);
  }

  // ---------------------------------------------------------------- when a file is answered

  /** Every answer of the node is at most `a` long. */
  ghost predicate ShortAnswers(node: Node, a: nat) {
    forall n, fragment {:trigger node(n, fragment)} :: node(n, fragment).Answer? ==> |node(n, fragment).text| <= a
  }

  lemma {:induction false} JoinLength(parts: seq<Part>, a: nat)
    requires forall i :: 0 <= i < |parts| ==> |parts[i].answer| <= a
    ensures |Join(Answers(parts))| <= |parts| * (a + 1)
  {
    if parts != [] {
      var k := |parts| - 1;
      JoinLength(parts[..k], a);
      JoinSnoc(Answers(parts[..k]), parts[k].answer);
      OneMoreTime(k, a + 1);
    }
  }

  lemma OneMoreTime(k: nat, x: nat)
    ensures (k + 1) * x == k * x + x
  {}

  lemma JoinSnoc(lines: seq<string>, line: string)
    ensures |Join(lines + [line])| <= |Join(lines)| + |line| + 1
  {
    assert (lines + [line])[..|lines|] == lines;
  }

  /** What a chunk comes to is no longer than the answers to as many fragments as there can be. */
  lemma PartialResultIsShort(node: Node, extra: nat, n: nat, fragment: string, depth: nat, a: nat)
    requires ShortAnswers(node, a) && Halving(node, extra, n, fragment, depth).Done?
    ensures |Join(Answers(Halving(node, extra, n, fragment, depth).parts))| <= Pow2(depth) * (a + 1)
  {
    var parts := Halving(node, extra, n, fragment, depth).parts;
    HalvingCovers(node, extra, n, fragment, depth);
    HalvingRequests(node, extra, n, fragment, depth);
    JoinLength(parts, a);
    ProductOrder(|parts|, Pow2(depth), a + 1);
  }

  /** Against a node with a limit, chunks that halving can bring down to it are all answered. */
  lemma {:induction false} MapSucceeds(node: Node, c: nat, extra: nat -> nat, depth: nat, chunks: seq<string>, a: nat)
    requires HasLimit(node, c) && ShortAnswers(node, a)
    requires forall i :: 0 <= i < |chunks| ==> |chunks[i]| <= c * Pow2(depth)
    ensures var r := MapChunks(node, extra, depth, chunks);
            && r.Mapped? && |r.results| == |chunks|
            && forall i :: 0 <= i < |r.results| ==> |r.results[i]| <= Pow2(depth) * (a + 1)
  {
    if chunks != [] {
      var k := |chunks| - 1;
      MapSucceeds(node, c, extra, depth, chunks[..k], a);
      var done := MapChunks(node, extra, depth, chunks[..k]);
      HalvingSucceedsExactly(node, c, extra(k), done.next, chunks[k], depth);
      PartialResultIsShort(node, extra(k), done.next, chunks[k], depth, a);
    }
  }

  /** The whole run succeeds, under conditions that can be checked beforehand: the chunks are no longer
      than `depth` halvings can bring down to the node's limit, node and model keep to their lengths,
      the budget holds `k >= 2` of the longest texts, and the model answers what is within it. The
      number of rounds is the logarithm of the number of chunks. */
  lemma FileIsAnswered(space: char -> bool, node: Node, model: Model, extra: nat -> nat, depth: nat,
                       text: string, size: nat, budget: nat, c: nat, a: nat, limit: nat, k: nat)
    requires !IsBlank(space, text) && 0 < size <= c * Pow2(depth)
    requires HasLimit(node, c) && ShortAnswers(node, a) && Pow2(depth) * (a + 1) <= limit
    requires forall n, g {:trigger model(n, g)} :: model(n, g).Some? ==> |model(n, g).value| <= limit
    requires k >= 2 && k * limit <= budget && NeverFails(model, budget)
    ensures var r := FileAnswer(space, node, model, extra, depth, text, size, budget);
            r.Some? && r.value.Result? && r.value.rounds <= Rounds(CeilDiv(|text|, size), k)
  {
    var chunks := Chunks(text, size);
    ChunksPartition(text, size);
    ChunksCount(text, size);
    MapSucceeds(node, c, extra, depth, chunks, a);
    var mapped := MapChunks(node, extra, depth, chunks);
    assert Favourable(model, budget, mapped.results, limit, k);
    ReductionSucceeds(model, budget, mapped.next, mapped.results, limit, k);
  }
}
