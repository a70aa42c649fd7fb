/** Replacing placeholders by looked-up text, for any placeholder grammar.

    Nothing here depends on how placeholders are spelt beyond what `IsGrammar` says. */
module Substitution {
  import opened Basics

  predicate All(p: char -> bool, s: string) {
    forall i :: 0 <= i < |s| ==> p(s[i])
  }

  predicate IsLabelChar(c: char) {
    'A' <= c <= 'Z' || c == '_' || c == '?'
  }

  predicate ValidLabel(kind: string) {
    2 <= |kind| <= 20 && All(IsLabelChar, kind)
  }

  /** A number in decimal. */
  function Number(n: nat): string {
    if n < 10 then [('0' as int + n) as char] else Number(n / 10) + [('0' as int + n % 10) as char]
  }

  lemma {:induction false} NumberShape(n: nat)
    ensures Number(n) != ""
    ensures forall i :: 0 <= i < |Number(n)| ==> '0' <= Number(n)[i] <= '9'
  {
    if n >= 10 { NumberShape(n / 10); }
  }

  lemma {:induction false} NumberInjective(m: nat, n: nat)
    ensures Number(m) == Number(n) ==> m == n
  {
    NumberShape(m / 10);
    NumberShape(n / 10);
    var a, b := Number(m), Number(n);
    if a == b {
      assert a[|a| - 1] == b[|b| - 1];
      if m >= 10 && n >= 10 {
        assert Number(m / 10) == a[..|a| - 1] == b[..|b| - 1] == Number(n / 10);
        NumberInjective(m / 10, n / 10);
      }
    }
  }

  /** What a text of digits stands for. */
  function Decimal(s: string): int {
    if s == "" then 0 else 10 * Decimal(s[..|s| - 1]) + (s[|s| - 1] as int - '0' as int)
  }

  /** The number is read back, and only zero begins with a zero. */
  lemma {:induction false} NumberIsDecimal(n: nat)
    ensures Decimal(Number(n)) == n
    ensures Number(n) != "" && (n > 0 ==> Number(n)[0] != '0')
  {
    var s := Number(n);
    if n >= 10 {
      NumberIsDecimal(n / 10);
      assert s[..|s| - 1] == Number(n / 10);
    } else {
      assert s[..0] == "";
    }
  }

  /** The placeholder written for the n-th value with this label. */
  function Key(kind: string, n: nat): string {
    "[" + (kind + ("#" + (Number(n) + "]")))
  }

  lemma KeyPieces(kind: string, n: nat)
    requires ValidLabel(kind)
    ensures |Key(kind, n)| >= |kind| + 3
    ensures forall p :: 1 <= p < 1 + |kind| ==> Key(kind, n)[p] != '#'
    ensures Key(kind, n)[1 + |kind|] == '#'
    ensures Key(kind, n)[1..1 + |kind|] == kind
    ensures Key(kind, n)[2 + |kind|..|Key(kind, n)| - 1] == Number(n)
  {
    var k := Key(kind, n);
    forall p | 1 <= p < 1 + |kind|
      ensures k[p] != '#'
    { assert k[p] == kind[p - 1]; }
    assert k[1..] == kind + ("#" + (Number(n) + "]"));
    assert k[2 + |kind|..] == Number(n) + "]";
  }

  /** Different labels or numbers give different placeholders. */
  lemma KeyInjective(kind1: string, n1: nat, kind2: string, n2: nat)
    requires ValidLabel(kind1) && ValidLabel(kind2)
    requires Key(kind1, n1) == Key(kind2, n2)
    ensures kind1 == kind2 && n1 == n2
  {
    KeyPieces(kind1, n1);
    KeyPieces(kind2, n2);
    NumberInjective(n1, n2);
  }

  // ---------------------------------------------------------------- grammars

  /** A placeholder found at the start of a text, and its spelling without white space. */
  datatype Hit = Hit(text: string, key: string)

  /** Brackets occur exactly at the two ends. */
  ghost predicate Bracketed(t: string) {
    && |t| >= 2 && t[0] == '[' && t[|t| - 1] == ']'
    && (forall i :: 0 < i < |t| ==> t[i] != '[')
    && (forall i :: 0 <= i < |t| - 1 ==> t[i] != ']')
  }

  ghost predicate StartsWith(s: string, prefix: string) {
    prefix <= s
  }

  /** What a matcher of placeholders at the start of a text has to satisfy: it reports a bracketed
      prefix, what it reports depends on that prefix only, and it reads every key as itself. */
  ghost predicate IsGrammar(f: string -> Option<Hit>) {
    && (forall s :: f(s).Some? ==> f(s).value.text <= s && Bracketed(f(s).value.text))
    && (forall s, z :: f(s).Some? && StartsWith(z, f(s).value.text) ==> f(z) == f(s))
    && (forall kind, n: nat {:trigger f(Key(kind, n))} :: ValidLabel(kind) ==> f(Key(kind, n)) == Some(Hit(Key(kind, n), Key(kind, n))))
  }

  /** The placeholder that starts at position `i`, if any. */
  function At(f: string -> Option<Hit>, s: string, i: nat): Option<Hit>
    requires i <= |s|
  {
    f(s[i..])
  }

  /** No placeholder starts anywhere in `s`. */
  ghost predicate Plain(f: string -> Option<Hit>, s: string) {
    forall i :: 0 <= i < |s| ==> At(f, s, i).None?
  }

  /** A contiguous part of plain text is plain. */
  lemma PlainPart(f: string -> Option<Hit>, s: string, a: nat, b: nat)
    requires IsGrammar(f) && a <= b <= |s|
    requires Plain(f, s)
    ensures Plain(f, s[a..b])
  {
    forall i | 0 <= i < |s[a..b]|
      ensures At(f, s[a..b], i).None?
    {
      assert At(f, s, a + i).None?;
      assert s[a..b][i..] <= s[a + i..];
      assert At(f, s[a..b], i).Some? ==> StartsWith(s[a + i..], At(f, s[a..b], i).value.text);
    }
  }

  /** The intervals of all placeholders from position `i` on, as a left-to-right search that
      continues behind each match finds them. */
  function FindAll(f: string -> Option<Hit>, s: string, i: nat): seq<(nat, nat)>
    requires i <= |s|
    decreases |s| - i
  {
    if i == |s| then [] else
      match At(f, s, i)
      case None => FindAll(f, s, i + 1)
      case Some(h) =>
        if 1 <= |h.text| && i + |h.text| <= |s| then
          [(i, i + |h.text|)] + FindAll(f, s, i + |h.text|)
        else FindAll(f, s, i + 1)
  }

  /** No placeholder starts inside another. */
  lemma NothingInside(f: string -> Option<Hit>, s: string, i: nat, p: nat)
    requires IsGrammar(f) && i < p < |s| && At(f, s, i).Some? && p < i + |At(f, s, i).value.text|
    ensures At(f, s, p).None?
  {
    var t := At(f, s, i).value.text;
    assert t[p - i] == s[i..][p - i] == s[p];
    assert s[p..] != "" && s[p..][0] == s[p] != '[';
  }

  ghost predicate IsHitAt(f: string -> Option<Hit>, s: string, p: nat, e: nat) {
    p < |s| && At(f, s, p).Some? && e == p + |At(f, s, p).value.text|
  }

  lemma FindAllHit(f: string -> Option<Hit>, s: string, i: nat)
    requires IsGrammar(f) && i < |s| && At(f, s, i).Some?
    ensures var n := i + |At(f, s, i).value.text|;
            i < n <= |s| && FindAll(f, s, i) == [(i, n)] + FindAll(f, s, n)
  {
    assert Bracketed(At(f, s, i).value.text) && At(f, s, i).value.text <= s[i..];
  }

  lemma InFront<T>(x: T, rest: seq<T>, y: T)
    ensures y in [x] + rest <==> y == x || y in rest
  {}

  /** Where the search goes on after looking at position `i`. */
  function NextFrom(f: string -> Option<Hit>, s: string, i: nat): nat
    requires i < |s|
  {
    match At(f, s, i)
    case None => i + 1
    case Some(h) => i + |h.text|
  }

  lemma FindAllStep(f: string -> Option<Hit>, s: string, i: nat, p: nat, e: nat)
    requires IsGrammar(f) && i < |s|
    ensures i < NextFrom(f, s, i) <= |s|
    ensures (p, e) in FindAll(f, s, i) <==> (p == i && IsHitAt(f, s, p, e)) || (p, e) in FindAll(f, s, NextFrom(f, s, i))
    ensures i < p < NextFrom(f, s, i) ==> !IsHitAt(f, s, p, e)
  {
    if At(f, s, i).Some? {
      var n := NextFrom(f, s, i);
      FindAllHit(f, s, i);
      if i < p < n { NothingInside(f, s, i, p); }
      InFront((i, n), FindAll(f, s, n), (p, e));
    }
  }

  /** So that search misses no placeholder. */
  lemma {:induction false} FindAllExact(f: string -> Option<Hit>, s: string, i: nat, p: nat, e: nat)
    requires IsGrammar(f) && i <= |s|
    ensures (p, e) in FindAll(f, s, i) <==> i <= p && IsHitAt(f, s, p, e)
    decreases |s| - i
  {
    if i < |s| {
      FindAllStep(f, s, i, p, e);
      FindAllExact(f, s, NextFrom(f, s, i), p, e);
    }
  }

  // ---------------------------------------------------------------- restoring

  /** The text a placeholder stands for; an unknown one, or one that stands for nothing, stays. */
  function Lookup(m: map<string, string>, h: Hit): string {
    if h.key in m && m[h.key] != "" then m[h.key] else h.text
  }

  function StepLength(f: string -> Option<Hit>, s: string): (n: nat)
    requires s != ""
    ensures 1 <= n
  {
    match f(s)
    case None => 1
    case Some(h) => if 1 <= |h.text| <= |s| then |h.text| else 1
  }

  function StepText(f: string -> Option<Hit>, m: map<string, string>, s: string): string
    requires s != ""
  {
    match f(s)
    case None => [s[0]]
    case Some(h) => Lookup(m, h)
  }

  /** One left-to-right pass that replaces each placeholder by what the map holds for it. */
  function Restore(f: string -> Option<Hit>, m: map<string, string>, s: string): string
    decreases |s|
  {
    if s == "" then "" else StepText(f, m, s) + Restore(f, m, s[StepLength(f, s)..])
  }

  lemma RestoreStep(f: string -> Option<Hit>, m: map<string, string>, s: string, n: nat, r: string, rest: string)
    requires s != "" && StepLength(f, s) == n <= |s| && StepText(f, m, s) == r && s[n..] == rest
    ensures Restore(f, m, s) == r + Restore(f, m, rest)
  {}

  lemma StepPlain(f: string -> Option<Hit>, m: map<string, string>, s: string)
    requires s != "" && Plain(f, s)
    ensures StepLength(f, s) == 1 && StepText(f, m, s) == [s[0]]
  {
    assert At(f, s, 0).None? && s[0..] == s;
  }

  lemma HeadThenTail(s: string)
    requires s != ""
    ensures [s[0]] + s[1..] == s && s[1..|s|] == s[1..]
  {}

  lemma {:induction false} RestorePlain(f: string -> Option<Hit>, m: map<string, string>, s: string)
    requires IsGrammar(f) && Plain(f, s)
    ensures Restore(f, m, s) == s
    decreases |s|
  {
    if s != "" {
      HeadThenTail(s);
      PlainPart(f, s, 1, |s|);
      RestorePlain(f, m, s[1..]);
      StepPlain(f, m, s);
      RestoreStep(f, m, s, 1, [s[0]], s[1..]);
    }
  }

  /** No placeholder of `x + y` that starts in `x` reaches into `y`. */
  ghost predicate Separated(f: string -> Option<Hit>, x: string, y: string) {
    forall i :: 0 <= i < |x| && At(f, x + y, i).Some? ==> i + |At(f, x + y, i).value.text| <= |x|
  }

  /** A placeholder does not reach over an opening bracket that follows its own, nor beyond a
      closing one. */
  lemma EndsAtBracket(s: string, i: nat, t: string, p: nat)
    requires Bracketed(t) && i < |s| && t <= s[i..] && i <= p < |s|
    ensures i < p && s[p] == '[' ==> i + |t| <= p
    ensures s[p] == ']' ==> i + |t| <= p + 1
  {
    assert forall j :: 0 <= j < |t| ==> t[j] == s[i..][j] == s[i + j];
    assert s[i + (p - i)] == s[p];
  }

  lemma SeparatedByOpening(f: string -> Option<Hit>, x: string, y: string)
    requires IsGrammar(f)
    requires y == "" || y[0] == '['
    ensures Separated(f, x, y)
  {
    forall i | 0 <= i < |x| && At(f, x + y, i).Some?
      ensures i + |At(f, x + y, i).value.text| <= |x|
    {
      if y != "" { EndsAtBracket(x + y, i, At(f, x + y, i).value.text, |x|); }
    }
  }

  lemma SeparatedByClosing(f: string -> Option<Hit>, x: string, y: string)
    requires IsGrammar(f)
    requires x != "" && x[|x| - 1] == ']'
    ensures Separated(f, x, y)
  {
    forall i | 0 <= i < |x| && At(f, x + y, i).Some?
      ensures i + |At(f, x + y, i).value.text| <= |x|
    {
      EndsAtBracket(x + y, i, At(f, x + y, i).value.text, |x| - 1);
    }
  }

  lemma SeparatedTail(f: string -> Option<Hit>, x: string, y: string, n: nat)
    requires Separated(f, x, y) && n <= |x|
    ensures Separated(f, x[n..], y)
  {
    forall i | 0 <= i < |x[n..]| && At(f, x[n..] + y, i).Some?
      ensures i + |At(f, x[n..] + y, i).value.text| <= |x[n..]|
    {
      assert (x[n..] + y)[i..] == (x + y)[n + i..];
      assert At(f, x + y, n + i) == At(f, x[n..] + y, i);
    }
  }

  /** Where a separated text is cut makes no difference to what starts in its first part. */
  lemma AtSeparated(f: string -> Option<Hit>, x: string, y: string, i: nat)
    requires IsGrammar(f) && Separated(f, x, y) && i < |x|
    ensures At(f, x + y, i) == At(f, x, i)
  {
    assert x[i..] <= (x + y)[i..];
    if At(f, x + y, i).Some? {
      assert StartsWith(x[i..], At(f, x + y, i).value.text);
    } else if At(f, x, i).Some? {
      assert StartsWith((x + y)[i..], At(f, x, i).value.text);
    }
  }

  lemma StepSeparated(f: string -> Option<Hit>, m: map<string, string>, x: string, y: string)
    requires IsGrammar(f) && x != "" && Separated(f, x, y)
    ensures StepLength(f, x + y) == StepLength(f, x) <= |x|
    ensures StepText(f, m, x + y) == StepText(f, m, x)
  {
    AtSeparated(f, x, y, 0);
    assert (x + y)[0..] == x + y && x[0..] == x;
  }

  lemma DropOfConcat(x: string, y: string, n: nat)
    requires n <= |x|
    ensures (x + y)[n..] == x[n..] + y
  {}

  /** One step into the first part. */
  lemma RestoreCutStep(f: string -> Option<Hit>, m: map<string, string>, x: string, y: string)
    requires IsGrammar(f) && x != "" && Separated(f, x, y)
    ensures var n, r := StepLength(f, x), StepText(f, m, x);
            && n <= |x| && Separated(f, x[n..], y)
            && Restore(f, m, x) == r + Restore(f, m, x[n..])
            && Restore(f, m, x + y) == r + Restore(f, m, x[n..] + y)
  {
    var n, r := StepLength(f, x), StepText(f, m, x);
    StepSeparated(f, m, x, y);
    SeparatedTail(f, x, y, n);
    DropOfConcat(x, y, n);
    RestoreStep(f, m, x + y, n, r, x[n..] + y);
    RestoreStep(f, m, x, n, r, x[n..]);
  }

  /** Restoring distributes over a separated cut. */
  lemma {:induction false} RestoreCut(f: string -> Option<Hit>, m: map<string, string>, x: string, y: string)
    requires IsGrammar(f) && Separated(f, x, y)
    ensures Restore(f, m, x + y) == Restore(f, m, x) + Restore(f, m, y)
    decreases |x|
  {
    if x == "" {
      assert x + y == y;
    } else {
      var n := StepLength(f, x);
      RestoreCutStep(f, m, x, y);
      RestoreCut(f, m, x[n..], y);
      Associative(StepText(f, m, x), Restore(f, m, x[n..]), Restore(f, m, y));
    }
  }
}
