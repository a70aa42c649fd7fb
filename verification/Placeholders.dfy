/** The placeholder grammar of the redactor.

    A placeholder is `[LABEL#n]` with optional white space around the `#`. Its language is given
    declaratively (`ValidParts`, `Text`); `Scan` is the deterministic left-to-right matcher a
    regular-expression engine runs, and is proved to recognise exactly that language. */
module Placeholders {
  import opened Basics
  import opened Substitution

  /** The classes `\s` and `\d`. They depend on the Unicode tables of the host, so they are a
      parameter; only what every version of those tables guarantees is assumed. */
  datatype CharClasses = CharClasses(space: char -> bool, digit: char -> bool) {
    ghost predicate Valid() {
      && (forall c :: '0' <= c <= '9' ==> digit(c))
      && (forall c :: space(c) ==> !digit(c) && IsPlainClass(c))
      && (forall c :: digit(c) ==> IsPlainClass(c))
      && space(' ') && !digit('-')
    }
  }

  predicate IsPlainClass(c: char) {
    !IsLabelChar(c) && c != '[' && c != ']' && c != '#'
  }

  type Classes = k: CharClasses | k.Valid() witness CharClasses(c => c == ' ', c => '0' <= c <= '9')

  /** The four variable pieces of a placeholder: the label, the white space before and after the
      `#`, and the number. */
  datatype Parts = Parts(kind: string, before: string, after: string, number: string)

  predicate ValidParts(k: Classes, q: Parts) {
    && ValidLabel(q.kind)
    && All(k.space, q.before)
    && All(k.space, q.after)
    && 1 <= |q.number|
    && All(k.digit, q.number)
  }

  /** The matched text. */
  function Text(q: Parts): string {
    "[" + (q.kind + (q.before + ("#" + (q.after + (q.number + "]")))))
  }

  /** The spelling without white space, which is the one used as a key. */
  function Canon(q: Parts): string {
    Text(q.(before := "", after := ""))
  }

  /** Splits `s` after its longest prefix of characters that satisfy `p`. */
  function Span(p: char -> bool, s: string): (r: (string, string))
    ensures s == r.0 + r.1
    ensures All(p, r.0)
    ensures r.1 == "" || !p(r.1[0])
  {
    if s == "" || !p(s[0]) then ("", s) else
      var (run, rest) := Span(p, s[1..]);
      assert s == [s[0]] + s[1..];
      ([s[0]] + run, rest)
  }

  /** Matches the placeholder pattern at the start of `s`. */
  function Scan(k: Classes, s: string): Option<Parts> {
    if s == "" || s[0] != '[' then None else
      var (kind, s2) := Span(IsLabelChar, s[1..]);
      if !(2 <= |kind| <= 20) then None else
        var (before, s3) := Span(k.space, s2);
        if s3 == "" || s3[0] != '#' then None else
          var (after, s5) := Span(k.space, s3[1..]);
          var (number, s6) := Span(k.digit, s5);
          if number == "" || s6 == "" || s6[0] != ']' then None else
            Some(Parts(kind, before, after, number))
  }

  /** A run that cannot be continued is found whole. */
  lemma {:induction false} SpanAt(p: char -> bool, a: string, z: string)
    requires All(p, a)
    requires z == "" || !p(z[0])
    ensures Span(p, a + z) == (a, z)
  {
    if a == "" {
      assert a + z == z;
    } else {
      assert (a + z)[0] == a[0] && (a + z)[1..] == a[1..] + z;
      SpanAt(p, a[1..], z);
      assert [a[0]] + a[1..] == a;
    }
  }

  /** A placeholder followed by `z`, nested the way the matcher takes it apart. */
  function Then(q: Parts, z: string): string {
    "[" + (q.kind + (q.before + ("#" + (q.after + (q.number + ("]" + z))))))
  }

  lemma ThenIsText(q: Parts, z: string)
    ensures Then(q, z) == Text(q) + z
  {
    var t6 := q.number + "]";
    var t5 := q.after + t6;
    var t4 := "#" + t5;
    var t3 := q.before + t4;
    var t2 := q.kind + t3;
    assert q.number + ("]" + z) == t6 + z;
    assert q.after + (t6 + z) == t5 + z;
    assert "#" + (t5 + z) == t4 + z;
    assert q.before + (t4 + z) == t3 + z;
    assert q.kind + (t3 + z) == t2 + z;
    assert "[" + (t2 + z) == ("[" + t2) + z;
  }

  lemma HeadAndTail(s: string, c: char)
    requires s != "" && s[0] == c
    ensures s == [c] + s[1..]
  {}

  /** What the matcher reports is a placeholder at the start of the text. */
  lemma ScanSound(k: Classes, s: string)
    ensures Scan(k, s).Some? ==> ValidParts(k, Scan(k, s).value) && Text(Scan(k, s).value) <= s
  {
    if Scan(k, s).Some? {
      var q := Scan(k, s).value;
      var (kind, s2) := Span(IsLabelChar, s[1..]);
      var (before, s3) := Span(k.space, s2);
      var (after, s5) := Span(k.space, s3[1..]);
      var (number, s6) := Span(k.digit, s5);
      HeadAndTail(s6, ']');
      HeadAndTail(s3, '#');
      HeadAndTail(s, '[');
      ThenIsText(q, s6[1..]);
    }
  }

  /** Every placeholder at the start of the text is reported, so at most one starts at a place. */
  lemma ScanComplete(k: Classes, q: Parts, z: string)
    requires ValidParts(k, q)
    ensures Scan(k, Text(q) + z) == Some(q)
  {
    ThenIsText(q, z);
    var s6 := "]" + z;
    var s5 := q.number + s6;
    var s3 := "#" + (q.after + s5);
    var s2 := q.before + s3;
    assert Then(q, z)[1..] == q.kind + s2;
    assert s2[0] == if q.before == "" then '#' else q.before[0];
    SpanAt(IsLabelChar, q.kind, s2);
    SpanAt(k.space, q.before, s3);
    assert s3[1..] == q.after + s5;
    assert s5[0] == q.number[0];
    SpanAt(k.space, q.after, s5);
    SpanAt(k.digit, q.number, s6);
  }

  /** The same, for a placeholder given as a prefix. */
  lemma ScanPrefix(k: Classes, q: Parts, s: string)
    requires ValidParts(k, q) && Text(q) <= s
    ensures Scan(k, s) == Some(q)
  {
    ScanComplete(k, q, s[|Text(q)|..]);
    assert Text(q) + s[|Text(q)|..] == s;
  }

  /** Brackets occur only at the two ends of a placeholder. */
  lemma Shape(k: Classes, q: Parts)
    requires ValidParts(k, q)
    ensures |Text(q)| >= 5
    ensures Text(q)[0] == '[' && Text(q)[|Text(q)| - 1] == ']'
    ensures forall i :: 0 < i < |Text(q)| ==> Text(q)[i] != '['
    ensures forall i :: 0 <= i < |Text(q)| - 1 ==> Text(q)[i] != ']'
  {
    var l, w, v, d := |q.kind|, |q.before|, |q.after|, |q.number|;
    var t := Text(q);
    assert |t| == l + w + v + d + 3;
    forall i | 0 < i < |t| - 1
      ensures t[i] != '[' && t[i] != ']'
    {
      if i < 1 + l { assert t[i] == q.kind[i - 1]; }
      else if i < 1 + l + w { assert t[i] == q.before[i - 1 - l]; }
      else if i == 1 + l + w { assert t[i] == '#'; }
      else if i < 2 + l + w + v { assert t[i] == q.after[i - 2 - l - w]; }
      else { assert t[i] == q.number[i - 2 - l - w - v]; }
    }
  }

  /** The pattern `\[([A-Z_?]{2,20})\s*#\s*(\d+)\]` as a matcher. */
  function Pattern(k: Classes): string -> Option<Hit> {
    s => match Scan(k, s)
      case None => None
      case Some(q) => Some(Hit(Text(q), Canon(q)))
  }

  lemma NumberIsDigits(k: Classes, n: nat)
    ensures All(k.digit, Number(n))
  {
    NumberShape(n);
  }

  /** The pattern is a placeholder grammar: everything the redactor's round trip relies on. */
  lemma PatternIsGrammar(k: Classes)
    ensures IsGrammar(Pattern(k))
  {
    var f := Pattern(k);
    forall s
      ensures f(s).Some? ==> f(s).value.text <= s && Bracketed(f(s).value.text)
    {
      ScanSound(k, s);
      if Scan(k, s).Some? { Shape(k, Scan(k, s).value); }
    }
    forall s, z | f(s).Some? && StartsWith(z, f(s).value.text)
      ensures f(z) == f(s)
    {
      ScanSound(k, s);
      ScanPrefix(k, Scan(k, s).value, z);
    }
    forall kind, n: nat | ValidLabel(kind)
      ensures f(Key(kind, n)) == Some(Hit(Key(kind, n), Key(kind, n)))
    {
      var q := Parts(kind, "", "", Number(n));
      NumberIsDigits(k, n);
      NumberShape(n);
      ScanComplete(k, q, "");
      KeyIsText(kind, n);
      assert Text(q) + "" == Text(q);
    }
  }

  lemma KeyIsText(kind: string, n: nat)
    ensures Key(kind, n) == Text(Parts(kind, "", "", Number(n)))
  {
    assert "" + ("#" + ("" + (Number(n) + "]"))) == "#" + (Number(n) + "]");
  }
}
