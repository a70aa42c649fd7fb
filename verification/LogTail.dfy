/** Following a growing log file: each read hands out the lines completed since the last one. */
module LogTail {
  import opened Basics

  type Byte = x: int | 0 <= x < 256

  const NEWLINE: Byte := 10

  /** The complete lines of `s` and the unfinished rest, as splitting at line breaks gives them. */
  function Split(s: seq<Byte>): (seq<seq<Byte>>, seq<Byte>) {
    if s == [] then ([], []) else
      var n := |s| - 1;
      var (lines, rest) := Split(s[..n]);
      if s[n] == NEWLINE then (lines + [rest], []) else (lines, rest + [s[n]])
  }

  /** Lines and rest put together again. */
  function Unsplit(lines: seq<seq<Byte>>, rest: seq<Byte>): seq<Byte> {
    if lines == [] then rest else Unsplit(lines[..|lines| - 1], lines[|lines| - 1] + [NEWLINE] + rest)
  }

  /** Splitting is right: it loses nothing and no line contains a line break. */
  lemma {:induction false} SplitUnsplit(s: seq<Byte>)
    ensures var (lines, rest) := Split(s);
            && Unsplit(lines, rest) == s
            && NEWLINE !in rest
            && forall i :: 0 <= i < |lines| ==> NEWLINE !in lines[i]
  {
    if s != [] {
      var n := |s| - 1;
      SplitUnsplit(s[..n]);
      var (lines, rest) := Split(s[..n]);
      assert s == s[..n] + [s[n]];
      if s[n] == NEWLINE {
        assert (lines + [rest])[..|lines|] == lines;
        assert rest + [NEWLINE] + [] == rest + [NEWLINE];
      }
      UnsplitSnoc(lines, rest, s[n]);
    }
  }

  lemma {:induction false} UnsplitSnoc(lines: seq<seq<Byte>>, rest: seq<Byte>, x: Byte)
    ensures Unsplit(lines, rest + [x]) == Unsplit(lines, rest) + [x]
  {
    if lines != [] {
      var k := |lines| - 1;
      var head := lines[k] + [NEWLINE];
      assert head + (rest + [x]) == (head + rest) + [x];
      UnsplitSnoc(lines[..k], head + rest, x);
    }
  }

  /** One more byte. */
  lemma SplitSnoc(s: seq<Byte>, x: Byte)
    ensures var (lines, rest) := Split(s);
            Split(s + [x]) == if x == NEWLINE then (lines + [rest], []) else (lines, rest + [x])
  {
    assert (s + [x])[..|s|] == s;
  }

  /** Splitting may be interrupted anywhere if the rest is carried over. */
  lemma {:induction false} SplitContinues(a: seq<Byte>, b: seq<Byte>)
    ensures var (first, rest) := Split(a);
            var (more, end) := Split(rest + b);
            Split(a + b) == (first + more, end)
  {
    var (first, rest) := Split(a);
    if b == [] {
      SplitUnsplit(a);
      assert a + b == a && rest + b == rest;
      SplitPlain(rest);
      assert first + [] == first;
    } else {
      var n := |b| - 1;
      assert b == b[..n] + [b[n]];
      SplitContinues(a, b[..n]);
      SplitContinuesOneMore(a, b[..n], b[n]);
    }
  }

  lemma SplitContinuesOneMore(a: seq<Byte>, b: seq<Byte>, x: Byte)
    requires var (first, rest) := Split(a);
             var (more, end) := Split(rest + b);
             Split(a + b) == (first + more, end)
    ensures var (first, rest) := Split(a);
            var (more, end) := Split(rest + (b + [x]));
            Split(a + (b + [x])) == (first + more, end)
  {
    var (first, rest) := Split(a);
    var (more, end) := Split(rest + b);
    SplitSnoc(a + b, x);
    SplitSnoc(rest + b, x);
    Associative(a, b, [x]);
    Associative(rest, b, [x]);
    Associative(first, more, [end]);
  }

  lemma {:induction false} SplitPlain(s: seq<Byte>)
    requires NEWLINE !in s
    ensures Split(s) == ([], s)
  {
    if s != [] {
      var n := |s| - 1;
      SplitPlain(s[..n]);
      assert s == s[..n] + [s[n]];
    }
  }

  /** Lines that parse, in order; the others are skipped. */
  function Parsed<J>(parse: seq<Byte> -> Option<J>, lines: seq<seq<Byte>>): seq<J> {
    if lines == [] then [] else
      var n := |lines| - 1;
      match parse(lines[n])
      case None => Parsed(parse, lines[..n])
      case Some(j) => Parsed(parse, lines[..n]) + [j]
  }

  /** Handing out the parsed lines read by read is handing out those of all lines together. */
  lemma {:induction false} ParsedAppends<J>(parse: seq<Byte> -> Option<J>, a: seq<seq<Byte>>, b: seq<seq<Byte>>)
    ensures Parsed(parse, a + b) == Parsed(parse, a) + Parsed(parse, b)
  {
    if b == [] {
      assert a + b == a && Parsed(parse, a) + [] == Parsed(parse, a);
    } else {
      assert (a + b)[..|a + b| - 1] == a + b[..|b| - 1];
      ParsedAppends(parse, a, b[..|b| - 1]);
    }
  }

  /** `idx` holds, ascending, exactly the positions of the lines that parse, and `out` what they parse to. */
  ghost predicate AreParses<J>(parse: seq<Byte> -> Option<J>, lines: seq<seq<Byte>>, out: seq<J>, idx: seq<nat>) {
    && |idx| == |out|
    && (forall k, l :: 0 <= k < l < |idx| ==> idx[k] < idx[l])
    && (forall k :: 0 <= k < |idx| ==> idx[k] < |lines| && parse(lines[idx[k]]) == Some(out[k]))
    && (forall i :: 0 <= i < |lines| && parse(lines[i]).Some? ==> i in idx)
  }

  lemma OneMoreLine<J>(parse: seq<Byte> -> Option<J>, lines: seq<seq<Byte>>, out: seq<J>, idx: seq<nat>, line: seq<Byte>)
    requires AreParses(parse, lines, out, idx)
    ensures match parse(line)
            case None => AreParses(parse, lines + [line], out, idx)
            case Some(j) => AreParses(parse, lines + [line], out + [j], idx + [|lines|])
  {
    var all := lines + [line];
    assert forall i :: 0 <= i < |lines| ==> all[i] == lines[i];
    if parse(line).Some? {
      var idx', out' := idx + [|lines|], out + [parse(line).value];
      forall k | 0 <= k < |idx'|
        ensures idx'[k] < |all| && parse(all[idx'[k]]) == Some(out'[k])
      { if k < |idx| { assert idx'[k] == idx[k] && out'[k] == out[k]; } }
    }
  }

  /** Each line that parses is handed out once, in the order of the lines, and nothing else is. */
  lemma {:induction false} ParsedExactly<J>(parse: seq<Byte> -> Option<J>, lines: seq<seq<Byte>>) returns (idx: seq<nat>)
    ensures AreParses(parse, lines, Parsed(parse, lines), idx)
  {
    if lines == [] {
      idx := [];
    } else {
      var n := |lines| - 1;
      idx := ParsedExactly(parse, lines[..n]);
      OneMoreLine(parse, lines[..n], Parsed(parse, lines[..n]), idx, lines[n]);
      assert lines[..n] + [lines[n]] == lines;
      if parse(lines[n]).Some? { idx := idx + [n]; }
    }
  }

  // ---------------------------------------------------------------- the reader

  /** The reader's state: how far it has read and the unfinished line. */
  datatype Tail = Tail(offset: nat, buf: seq<Byte>)

  const START := Tail(0, [])

  /** The state a read starts from: a file shorter than what was read has been replaced. */
  function Resumed(t: Tail, size: nat): Tail {
    if size < t.offset then START else t
  }

  /** A read of a file that had `size` bytes when asked and holds `content` when read. The seek goes
      to the old offset even if nothing is there any more. */
  function Read(t: Tail, size: nat, content: seq<Byte>): (seq<seq<Byte>>, Tail) {
    var r := Resumed(t, size);
    var data := if r.offset <= |content| then content[r.offset..] else [];
    var (lines, rest) := Split(r.buf + data);
    (lines, Tail(r.offset + |data|, rest))
  }

  class JobTail<J> {
    const parse: seq<Byte> -> Option<J>
    var offset: nat
    var buf: seq<Byte>

    function State(): Tail
      reads this
    {
      Tail(offset, buf)
    }

    constructor (parse: seq<Byte> -> Option<J>)
      ensures State() == START && this.parse == parse
    {
      this.parse := parse;
      offset, buf := 0, [];
    }

    /** Reads what is new. `size` is asked for before the file is read. */
    method ReadNew(present: bool, size: nat, content: seq<Byte>) returns (out: seq<J>)
      modifies this
      ensures !present ==> out == [] && State() == old(State())
      ensures present ==> out == Parsed(parse, Read(old(State()), size, content).0)
      ensures present ==> State() == Read(old(State()), size, content).1
    {
      out := [];
      if !present {
        return;
      }
      if size < offset {
        offset, buf := 0, [];
      }
      var data := if offset <= |content| then content[offset..] else [];
      offset := offset + |data|;
      var (lines, rest) := Split(buf + data);
      buf := rest;
      var i := 0;
      while i < |lines|
        invariant 0 <= i <= |lines|
        invariant out == Parsed(parse, lines[..i])
        invariant State() == Read(old(State()), size, content).1
      {
        assert lines[..i + 1][..i] == lines[..i];
        var j := parse(lines[i]);
        if j.Some? {
          out := out + [j.value];
        }
        i := i + 1;
      }
      assert lines[..i] == lines;
    }
  }

  // ---------------------------------------------------------------- whole runs

  /** What happens to an append-only file and its reader. During a read the file may grow by `more`
      after its size was asked for. */
  datatype Event = Append(data: seq<Byte>) | ReadNew(more: seq<Byte>)

  /** The file, the reader, and every line handed out so far. */
  datatype World = World(content: seq<Byte>, tail: Tail, lines: seq<seq<Byte>>)

  function Happen(w: World, e: Event): World {
    match e
    case Append(data) => w.(content := w.content + data)
    case ReadNew(more) =>
      var content := w.content + more;
      var (lines, tail) := Read(w.tail, |w.content|, content);
      World(content, tail, w.lines + lines)
  }

  function Follow(events: seq<Event>): World {
    if events == [] then World([], START, []) else Happen(Follow(events[..|events| - 1]), events[|events| - 1])
  }

  ghost predicate InStep(w: World) {
    w.tail.offset <= |w.content| && Split(w.content[..w.tail.offset]) == (w.lines, w.tail.buf)
  }

  lemma ReadStaysInStep(w: World, more: seq<Byte>)
    requires InStep(w)
    ensures InStep(Happen(w, ReadNew(more)))
    ensures Happen(w, ReadNew(more)).tail.offset == |w.content + more|
  {
    var content, o := w.content + more, w.tail.offset;
    assert content[..o] == w.content[..o];
    SplitContinues(content[..o], content[o..]);
    assert content[..o] + content[o..] == content;
    assert content[..|content|] == content;
  }

  /** For every interleaving of appends and reads: the lines handed out are exactly the complete lines
      of the bytes read so far, each once and in order, and the buffer is the unfinished rest. After
      a read those bytes are the whole file. */
  lemma {:induction false} TailAgreesWithWholeFile(events: seq<Event>)
    ensures var w := Follow(events);
            && w.tail.offset <= |w.content|
            && Split(w.content[..w.tail.offset]) == (w.lines, w.tail.buf)
            && (events != [] && events[|events| - 1].ReadNew? ==> Split(w.content) == (w.lines, w.tail.buf))
  {
    if events != [] {
      var n := |events| - 1;
      TailAgreesWithWholeFile(events[..n]);
      var w := Follow(events[..n]);
      match events[n]
      case Append(data) =>
        assert (w.content + data)[..w.tail.offset] == w.content[..w.tail.offset];
      case ReadNew(more) =>
        ReadStaysInStep(w, more);
        var w' := Follow(events);
        assert w'.content[..|w'.content|] == w'.content;
    }
  }

  /** The jobs handed out in a run, read by read. */
  function JobsOf<J>(parse: seq<Byte> -> Option<J>, events: seq<Event>): seq<J> {
    if events == [] then [] else
      var w, before := Follow(events[..|events| - 1]), JobsOf(parse, events[..|events| - 1]);
      match events[|events| - 1]
      case Append(_) => before
      case ReadNew(more) => before + Parsed(parse, Read(w.tail, |w.content|, w.content + more).0)
  }

  lemma {:induction false} JobsOfLines<J>(parse: seq<Byte> -> Option<J>, events: seq<Event>)
    ensures JobsOf(parse, events) == Parsed(parse, Follow(events).lines)
  {
    if events != [] {
      var n := |events| - 1;
      JobsOfLines(parse, events[..n]);
      var w := Follow(events[..n]);
      if events[n].ReadNew? { ParsedAppends(parse, w.lines, Read(w.tail, |w.content|, w.content + events[n].more).0); }
    }
  }

  /** So for every interleaving the jobs handed out are the complete lines read so far that parse, each once
      and in order; after a read, those of the whole file. */
  lemma JobsAgreeWithWholeFile<J>(parse: seq<Byte> -> Option<J>, events: seq<Event>) returns (idx: seq<nat>)
    ensures var w := Follow(events);
            && w.tail.offset <= |w.content|
            && AreParses(parse, Split(w.content[..w.tail.offset]).0, JobsOf(parse, events), idx)
            && (events != [] && events[|events| - 1].ReadNew? ==> AreParses(parse, Split(w.content).0, JobsOf(parse, events), idx))
  {
    TailAgreesWithWholeFile(events);
    JobsOfLines(parse, events);
    idx := ParsedExactly(parse, Follow(events).lines);
  }

  /** When the bytes carried over stand for exactly the bytes skipped. */
  lemma CarryMatches(buf: seq<Byte>, content: seq<Byte>, o: nat)
    requires o <= |content|
    ensures buf + content[o..] == content <==> |buf| == o && content[..o] == buf
  {
    assert content == content[..o] + content[o..];
    if buf + content[o..] == content {
      assert (buf + content[o..])[..|buf|] == buf;
    }
  }

  /** A replaced file. The reader then hands out what a new reader would exactly when the new file is
      shorter than what was read of the old one, or when no line was complete yet and the new file
      starts with the bytes in the buffer. A rotated file that has already grown to the old offset is
      otherwise misread. */
  lemma RotationIsNoticedExactly(t: Tail, content: seq<Byte>)
    ensures Read(t, |content|, content) == Read(START, |content|, content) <==>
            |content| < t.offset || (|t.buf| == t.offset && content[..t.offset] == t.buf)
  {
    if |content| >= t.offset {
      ReadBehind(t, content);
      ReadBehind(START, content);
      FromTheStart(content);
      SameSplit(t.buf + content[t.offset..], content);
      CarryMatches(t.buf, content, t.offset);
    }
  }

  lemma ReadBehind(t: Tail, content: seq<Byte>)
    requires |content| >= t.offset
    ensures var (lines, rest) := Split(t.buf + content[t.offset..]);
            Read(t, |content|, content) == (lines, Tail(|content|, rest))
  {}

  lemma FromTheStart(content: seq<Byte>)
    ensures START.buf + content[START.offset..] == content
  {}

  lemma SameSplit(a: seq<Byte>, b: seq<Byte>)
    ensures Split(a).0 == Split(b).0 && Split(a).1 == Split(b).1 <==> a == b
  {
    if Split(a).0 == Split(b).0 && Split(a).1 == Split(b).1 {
      SplitUnsplit(a);
      SplitUnsplit(b);
    }
  }

  lemma FollowTwo(a: Event, b: Event)
    ensures Follow([a, b]) == Happen(Happen(World([], START, []), a), b)
  {
    assert [a, b][..1] == [a];
    assert [a][..0] == [];
    assert Follow([a]) == Happen(Follow([]), a);
  }

  lemma SplitOneLine(x: Byte)
    requires x != NEWLINE
    ensures Split([x, NEWLINE]) == ([[x]], [])
  {
    var s: seq<Byte> := [x, NEWLINE];
    SplitPlain([x]);
    assert s[..|s| - 1] == [x];
    assert [] + [[x]] == [[x]];
  }

  lemma FirstRead(x: Byte)
    requires x != NEWLINE
    ensures Read(START, 2, [x, NEWLINE]) == ([[x]], Tail(2, []))
  {
    var s: seq<Byte> := [x, NEWLINE];
    SplitOneLine(x);
    assert s[0..] == s && [] + s == s;
  }

  lemma ReadNothingNew(s: seq<Byte>)
    ensures Read(Tail(|s|, []), |s|, s) == ([], Tail(|s|, []))
  {
    assert s[|s|..] == [] && [] + s[|s|..] == [];
  }

  /** For instance a file of one line, replaced by a different one of the same length: nothing of the
      new file is handed out. */
  lemma RotationMissed()
    ensures var t := Follow([Append([65, NEWLINE]), ReadNew([])]).tail;
            && Read(t, 2, [66, NEWLINE]).0 == []
            && Read(START, 2, [66, NEWLINE]).0 == [[66]]
  {
    var a: seq<Byte>, b: seq<Byte> := [65, NEWLINE], [66, NEWLINE];
    FollowTwo(Append(a), ReadNew([]));
    FirstRead(65);
    FirstRead(66);
    assert [] + a == a && a + [] == a;
    ReadNothingNew(b);
  }
}
