/** The rule for tax numbers (NIP), and a text that redaction with it does not give back. */
module TaxNumbers {
  import opened Basics
  import opened Substitution
  import opened Redaction
  import Placeholders

  // ---------------------------------------------------------------- the rule

  type Classes = Placeholders.Classes

  /** What may not stand next to a number. */
  predicate Touches(k: Classes, c: char) {
    k.digit(c) || c == '-'
  }

  /** What separates the groups of a number. */
  predicate Separates(k: Classes, c: char) {
    k.space(c) || c == '-'
  }

  predicate StandsAlone(k: Classes, s: string, i: nat, n: nat) {
    i + n <= |s| && (i == 0 || !Touches(k, s[i - 1])) && (i + n == |s| || !Touches(k, s[i + n]))
  }

  /** Groups of three, three, two and two digits with separators. */
  predicate GroupedAt(k: Classes, s: string, i: nat) {
    && StandsAlone(k, s, i, 13)
    && (forall p :: i <= p < i + 13 && p != i + 3 && p != i + 7 && p != i + 10 ==> k.digit(s[p]))
    && Separates(k, s[i + 3]) && Separates(k, s[i + 7]) && Separates(k, s[i + 10])
  }

  /** Ten digits in a row. */
  predicate PlainAt(k: Classes, s: string, i: nat) {
    StandsAlone(k, s, i, 10) && forall p :: i <= p < i + 10 ==> k.digit(s[p])
  }

  /** The length of the number that stands at `i`, the grouped form first; zero if none does. */
  function NipLength(k: Classes, s: string, i: nat): nat {
    if GroupedAt(k, s, i) then 13 else if PlainAt(k, s, i) then 10 else 0
  }

  /** All numbers from `i` on, each search continuing behind the last match. */
  function FindNips(k: Classes, s: string, i: nat): seq<(nat, nat)>
    decreases |s| - i
  {
    if i >= |s| then [] else
      var n := NipLength(k, s, i);
      if n > 0 then [(i, i + n)] + FindNips(k, s, i + n) else FindNips(k, s, i + 1)
  }

  lemma {:induction false} FindNipsOrdered(k: Classes, s: string, i: nat)
    ensures Ordered(FindNips(k, s, i), |s|)
    ensures FindNips(k, s, i) != [] ==> FindNips(k, s, i)[0].0 >= i
    decreases |s| - i
  {
    if i < |s| {
      var n := NipLength(k, s, i);
      if n > 0 {
        FindNipsOrdered(k, s, i + n);
        OrderedInFront((i, i + n), FindNips(k, s, i + n), |s|);
      } else {
        FindNipsOrdered(k, s, i + 1);
      }
    }
  }

  lemma OrderedInFront(x: (nat, nat), rest: seq<(nat, nat)>, n: nat)
    requires Ordered(rest, n) && x.0 < x.1 <= n && (rest != [] ==> x.1 <= rest[0].0)
    ensures Ordered([x] + rest, n)
  {
    forall j | 0 <= j < |rest|
      ensures x.1 <= rest[j].0
    { if j > 0 { assert rest[0].1 <= rest[j].0; } }
  }

  lemma SeparatorIsNoDigit(k: Classes, c: char)
    requires Separates(k, c)
    ensures !k.digit(c)
  {}

  lemma InsideGrouped(k: Classes, s: string, i: nat, p: nat)
    requires GroupedAt(k, s, i) && i < p < i + 13
    ensures NipLength(k, s, p) == 0
  {
    SeparatorIsNoDigit(k, s[i + 7]);
    SeparatorIsNoDigit(k, s[i + 10]);
    if p != i + 4 && p != i + 8 && p != i + 11 {
      assert k.digit(s[p - 1]);
    } else if p == i + 4 {
      assert !k.digit(s[p + 3]) && !k.digit(s[p + 6]);
    } else if p + 2 < |s| {
      assert !k.digit(s[p + 2]);
    }
  }

  lemma InsidePlain(k: Classes, s: string, i: nat, p: nat)
    requires PlainAt(k, s, i) && i < p < i + 10
    ensures NipLength(k, s, p) == 0
  {
    assert k.digit(s[p - 1]);
  }

  /** The search finds exactly the numbers of either form: no two of them overlap. */
  lemma {:induction false} FindNipsExactly(k: Classes, s: string, i: nat, p: nat, e: nat)
    ensures (p, e) in FindNips(k, s, i) <==> i <= p && NipLength(k, s, p) > 0 && e == p + NipLength(k, s, p)
    decreases |s| - i
  {
    if i < |s| {
      var n := NipLength(k, s, i);
      if n > 0 {
        FindNipsExactly(k, s, i + n, p, e);
        InFront((i, i + n), FindNips(k, s, i + n), (p, e));
        if i < p < i + n {
          if n == 13 { InsideGrouped(k, s, i, p); } else { InsidePlain(k, s, i, p); }
        }
      } else {
        FindNipsExactly(k, s, i + 1, p, e);
      }
    }
  }

  /** The value of a decimal digit, for `0` to `9` the usual one. */
  ghost predicate IsValue(value: char -> nat) {
    forall c :: '0' <= c <= '9' ==> value(c) == c as int - '0' as int
  }

  function Digits(k: Classes, value: char -> nat, s: string): seq<nat> {
    if s == "" then [] else
      Digits(k, value, s[..|s| - 1]) + if k.digit(s[|s| - 1]) then [value(s[|s| - 1])] else []
  }

  /** The check digit of a tax number; separators do not count. */
  predicate NipOk(k: Classes, value: char -> nat, s: string) {
    var d := Digits(k, value, s);
    && |d| == 10
    && var r := (6 * d[0] + 5 * d[1] + 7 * d[2] + 2 * d[3] + 3 * d[4] + 4 * d[5] + 5 * d[6] + 6 * d[7] + 7 * d[8]) % 11;
       r != 10 && r == d[9]
  }

  /** The digits of a text are those of its parts, one after the other, and whatever is no digit is left
      out. */
  lemma {:induction false} DigitsAppend(k: Classes, value: char -> nat, s: string, t: string)
    ensures Digits(k, value, s + t) == Digits(k, value, s) + Digits(k, value, t)
  {
    if t == "" {
      assert s + t == s;
    } else {
      var n := |t| - 1;
      assert (s + t)[..|s| + n] == s + t[..n];
      DigitsAppend(k, value, s, t[..n]);
      Associative(Digits(k, value, s), Digits(k, value, t[..n]), if k.digit(t[n]) then [value(t[n])] else []);
    }
  }

  lemma DigitsOfOne(k: Classes, value: char -> nat, c: char)
    ensures Digits(k, value, [c]) == if k.digit(c) then [value(c)] else []
  {
    assert [c][..0] == "";
  }

  ghost predicate AreDecimal(d: seq<nat>) {
    |d| == 10 && forall i :: 0 <= i < 10 ==> d[i] <= 9
  }

  /** The sum of the digits by weight, the check digit counting against the others. */
  function WeightedSum(d: seq<nat>): int
    requires |d| == 10
  {
    var sum: int := 6 * d[0] + 5 * d[1] + 7 * d[2] + 2 * d[3] + 3 * d[4] + 4 * d[5] + 5 * d[6] + 6 * d[7] + 7 * d[8];
    sum - d[9]
  }

  /** Ten digits are valid exactly if eleven divides that sum. */
  lemma NipOkExactly(k: Classes, value: char -> nat, s: string)
    requires AreDecimal(Digits(k, value, s))
    ensures NipOk(k, value, s) <==> WeightedSum(Digits(k, value, s)) % 11 == 0
  {
    var d := Digits(k, value, s);
    CheckDigit(WeightedSum(d) + d[9], d[9]);
  }

  lemma CheckDigit(sum: int, digit: nat)
    requires digit <= 9
    ensures sum % 11 == digit <==> (sum - digit) % 11 == 0
  {}

  /** Eleven divides no product of a weight and a difference of digits, unless it is zero. */
  lemma NotDivisible(weight: int, delta: int)
    requires -11 < weight < 11 && weight != 0 && -11 < delta < 11 && delta != 0
    ensures (weight * delta) % 11 != 0
  {
    var w, d := if weight < 0 then -weight else weight, if delta < 0 then -delta else delta;
    var q := (weight * delta) / 11;
    if weight * delta == 11 * q { NoMultiple(w, d, if (weight < 0) == (delta < 0) then q else -q); }
  }

  lemma NoMultiple(w: int, d: int, q: int)
    requires 0 < w < 11 && 0 < d < 11
    ensures w * d != 11 * q
  {
    if w <= 5 { SmallMultiple(w, d, q); } else if w * d == 11 * q { SmallMultiple(11 - w, d, d - q); }
  }

  lemma SmallMultiple(w: int, d: int, q: int)
    requires 0 < w <= 5 && 0 < d < 11
    ensures w * d != 11 * q
  {
    if w == 1 {} else if w == 2 {} else if w == 3 {} else if w == 4 {} else {}
  }

  lemma SumsDiffer(a: int, b: int, change: int)
    requires b == a + change && a % 11 == 0 && change % 11 != 0
    ensures b % 11 != 0
  {}

  const WEIGHTS: seq<int> := [6, 5, 7, 2, 3, 4, 5, 6, 7, -1]

  lemma SumAfterChange(d: seq<nat>, i: nat, x: nat)
    requires |d| == 10 && i < 10
    ensures WeightedSum(d[i := x]) == WeightedSum(d) + WEIGHTS[i] * (x as int - d[i] as int)
  {}

  /** One wrong digit, the check digit included, is always noticed. */
  lemma WrongDigitIsNoticed(d: seq<nat>, i: nat, x: nat)
    requires AreDecimal(d) && i < 10 && x <= 9 && x != d[i]
    requires WeightedSum(d) % 11 == 0
    ensures WeightedSum(d[i := x]) % 11 != 0
  {
    var delta: int := x as int - d[i] as int;
    SumAfterChange(d, i, x);
    NotDivisible(WEIGHTS[i], delta);
    SumsDiffer(WeightedSum(d), WeightedSum(d[i := x]), WEIGHTS[i] * delta);
  }

  lemma SumAfterSwap(d: seq<nat>, i: nat)
    requires |d| == 10 && i < 9
    ensures WeightedSum(d[i := d[i + 1]][i + 1 := d[i]]) ==
            WeightedSum(d) + (WEIGHTS[i] - WEIGHTS[i + 1]) * (d[i + 1] as int - d[i] as int)
  {
    SumAfterChange(d, i, d[i + 1]);
    SumAfterChange(d[i := d[i + 1]], i + 1, d[i]);
    TakenTwice(WEIGHTS[i], WEIGHTS[i + 1], d[i + 1] as int - d[i] as int);
  }

  lemma TakenTwice(v: int, w: int, delta: int)
    ensures v * delta + w * -delta == (v - w) * delta
  {}

  /** So are two neighbouring digits in the wrong order, the check digit's neighbour included. */
  lemma SwappedDigitsAreNoticed(d: seq<nat>, i: nat)
    requires AreDecimal(d) && i < 9 && d[i] != d[i + 1] && WeightedSum(d) % 11 == 0
    ensures WeightedSum(d[i := d[i + 1]][i + 1 := d[i]]) % 11 != 0
  {
    var delta: int := d[i + 1] as int - d[i] as int;
    SumAfterSwap(d, i);
    NotDivisible(WEIGHTS[i] - WEIGHTS[i + 1], delta);
    SumsDiffer(WeightedSum(d), WeightedSum(d[i := d[i + 1]][i + 1 := d[i]]), (WEIGHTS[i] - WEIGHTS[i + 1]) * delta);
  }

  /** In texts: changing one digit of a valid number makes it invalid. */
  lemma ChangedNumberIsInvalid(k: Classes, value: char -> nat, s: string, t: string, i: nat, x: nat)
    requires AreDecimal(Digits(k, value, s)) && i < 10 && x <= 9 && x != Digits(k, value, s)[i]
    requires Digits(k, value, t) == Digits(k, value, s)[i := x]
    ensures NipOk(k, value, s) ==> !NipOk(k, value, t)
  {
    NipOkExactly(k, value, s);
    NipOkExactly(k, value, t);
    if NipOk(k, value, s) { WrongDigitIsNoticed(Digits(k, value, s), i, x); }
  }

  function NipRule(k: Classes, value: char -> nat): Rule {
    Rule(s => FindNips(k, s, 0), v => if NipOk(k, value, v) then Some("NIP") else None)
  }

  lemma NipRuleIsValid(k: Classes, value: char -> nat)
    ensures ValidRule(NipRule(k, value))
  {
    forall s
      ensures Ordered(NipRule(k, value).find(s), |s|)
    { FindNipsOrdered(k, s, 0); }
    NipIsLabel();
  }

  lemma NipIsLabel()
    ensures ValidLabel("NIP")
  {}

  // ---------------------------------------------------------------- a text that does not come back

  const PLACEHOLDER := "[NIP#1]"
  const NUMBER := "1234563218"

  /** A text that spells out a placeholder and holds a valid tax number. */
  const SAMPLE := "[NIP#1] 1234563218"

  /** Ten of the digits `0` to `9`. */
  predicate TenDigits(s: string) {
    |s| == 10 && forall i :: 0 <= i < 10 ==> '0' <= s[i] <= '9'
  }

  /** Ten digits are a number where nothing touches them. */
  lemma NumberHere(k: Classes, s: string, i: nat)
    requires i + 10 <= |s| && TenDigits(s[i..i + 10]) && StandsAlone(k, s, i, 10)
    ensures NipLength(k, s, i) == 10
  {
    forall p | i <= p < i + 10
      ensures k.digit(s[p])
    { assert s[i..i + 10][p - i] == s[p]; }
    assert k.digit(s[i + 3]) && !Separates(k, s[i + 3]);
  }

  /** No number starts at something that is not a digit, or right before it. */
  lemma NoNumberHere(k: Classes, s: string, i: nat)
    requires i < |s| && (!k.digit(s[i]) || (i + 1 < |s| && !k.digit(s[i + 1])))
    ensures NipLength(k, s, i) == 0
  {}

  lemma {:induction false} NoNipBefore(k: Classes, s: string, i: nat, j: nat)
    requires i <= j <= |s| && forall p :: i <= p < j ==> NipLength(k, s, p) == 0
    ensures FindNips(k, s, i) == FindNips(k, s, j)
    decreases j - i
  {
    if i < j { NoNipBefore(k, s, i + 1, j); }
  }

  lemma SampleDigits(k: Classes)
    ensures forall i :: 0 <= i < 8 && i != 5 ==> !k.digit(SAMPLE[i])
    ensures SAMPLE[8..18] == NUMBER && TenDigits(NUMBER)
  {
    assert SAMPLE[0] == '[' && SAMPLE[1] == 'N' && SAMPLE[2] == 'I' && SAMPLE[3] == 'P';
    assert SAMPLE[4] == '#' && SAMPLE[6] == ']' && SAMPLE[7] == ' ';
    assert SAMPLE[8..18] == NUMBER;
  }

  lemma SampleNips(k: Classes)
    ensures FindNips(k, SAMPLE, 0) == [(8, 18)]
  {
    SampleDigits(k);
    forall p | 0 <= p < 8
      ensures NipLength(k, SAMPLE, p) == 0
    { NoNumberHere(k, SAMPLE, p); }
    NoNipBefore(k, SAMPLE, 0, 8);
    NumberHere(k, SAMPLE, 8);
    assert FindNips(k, SAMPLE, 18) == [];
  }

  lemma {:induction false} DigitsOfDigits(k: Classes, value: char -> nat, s: string)
    requires IsValue(value) && forall i :: 0 <= i < |s| ==> '0' <= s[i] <= '9'
    ensures |Digits(k, value, s)| == |s|
    ensures forall i :: 0 <= i < |s| ==> Digits(k, value, s)[i] == s[i] as int - '0' as int
  {
    if s != "" { DigitsOfDigits(k, value, s[..|s| - 1]); }
  }

  lemma NumberIsValid(k: Classes, value: char -> nat)
    requires IsValue(value)
    ensures NipOk(k, value, NUMBER)
  {
    DigitsOfDigits(k, value, NUMBER);
    var d := Digits(k, value, NUMBER);
    assert d[0] == 1 && d[1] == 2 && d[2] == 3 && d[3] == 4 && d[4] == 5;
    assert d[5] == 6 && d[6] == 3 && d[7] == 2 && d[8] == 1 && d[9] == 8;
  }

  lemma FirstNipKey()
    ensures ValidLabel("NIP") && Key("NIP", 1) == PLACEHOLDER
  {
    assert Number(1) == "1";
  }

  lemma SamplePlaceholder(f: string -> Option<Hit>)
    requires IsGrammar(f)
    ensures f(SAMPLE) == Some(Hit(PLACEHOLDER, PLACEHOLDER))
  {
    FirstNipKey();
    assert f(Key("NIP", 1)).Some?;
    assert StartsWith(SAMPLE, PLACEHOLDER);
  }

  /** A text whose only opening bracket is its first character has no placeholder behind that one. */
  lemma NothingBehindFirst(f: string -> Option<Hit>, t: string, a: nat, b: nat)
    requires IsGrammar(f) && t != "" && f(t).Some? && |f(t).value.text| <= a
    requires forall i :: 1 <= i < |t| ==> t[i] != '['
    ensures !Overlaps(FindAll(f, t, 0), a, b)
  {
    var hits := FindAll(f, t, 0);
    forall i | 0 <= i < |hits|
      ensures hits[i].1 <= a
    {
      var (p, e) := hits[i];
      FindAllExact(f, t, 0, p, e);
      assert t[p..][0] == t[p];
      assert t[0..] == t;
    }
  }

  lemma SelectOne(f: string -> Option<Hit>, r: Rule, out: string, a: nat, b: nat, kind: string)
    requires a <= b <= |out| && TakenAs(f, r, out, a, b) == Some(kind)
    ensures Select(f, r, out, [(a, b)]) == [Span(a, b, kind, out[a..b])]
  {
    assert [(a, b)][..0] == [];
  }

  lemma SampleTaken(k: Classes, value: char -> nat, f: string -> Option<Hit>)
    requires IsGrammar(f) && IsValue(value)
    ensures TakenAs(f, NipRule(k, value), SAMPLE, 8, 18) == Some("NIP")
  {
    SampleDigits(k);
    SamplePlaceholder(f);
    NothingBehindFirst(f, SAMPLE, 8, 18);
    NumberIsValid(k, value);
  }

  lemma SampleSelection(k: Classes, value: char -> nat, f: string -> Option<Hit>)
    requires IsGrammar(f) && IsValue(value)
    ensures Select(f, NipRule(k, value), SAMPLE, [(8, 18)]) == [Span(8, 18, "NIP", NUMBER)]
  {
    SampleDigits(k);
    SampleTaken(k, value, f);
    SelectOne(f, NipRule(k, value), SAMPLE, 8, 18, "NIP");
  }

  lemma PlaceFirst(kind: string, value: string)
    ensures Place(EMPTY, kind, value).0.originals == map[Key(kind, 1) := value]
  {}

  lemma ReplaceOne(b: Book, out: string, s: Span)
    requires OrderedSpans([s], |out|)
    ensures ReplaceAll(b, out, [s]).0 == Place(b, s.kind, s.text).0
  {
    assert [s][..0] == [];
  }

  /** The first fragment booked under a label gets number one. */
  lemma FirstBooked(f: string -> Option<Hit>, r: Rule, out: string, s: Span)
    requires IsGrammar(f) && ValidRule(r) && Select(f, r, out, r.find(out)) == [s]
    ensures ApplyRule(f, EMPTY, r, out).0.originals == map[Key(s.kind, 1) := s.text]
  {
    SelectIsReplaceable(f, r, out, r.find(out));
    ReplaceOne(EMPTY, out, s);
    PlaceFirst(s.kind, s.text);
  }

  /** The rule books the number under the placeholder that the text already spells out. */
  lemma SampleBooks(k: Classes, value: char -> nat, f: string -> Option<Hit>)
    requires IsGrammar(f) && IsValue(value) && ValidRule(NipRule(k, value))
    ensures ApplyRule(f, EMPTY, NipRule(k, value), SAMPLE).0.originals == map[PLACEHOLDER := NUMBER]
  {
    SampleNips(k);
    SampleSelection(k, value, f);
    FirstNipKey();
    FirstBooked(f, NipRule(k, value), SAMPLE, Span(8, 18, "NIP", NUMBER));
  }

  lemma KeyThenPlain(f: string -> Option<Hit>, m: map<string, string>, t: string, key: string, rest: string)
    requires IsGrammar(f) && t == key + rest && t != "" && f(t) == Some(Hit(key, key))
    requires key in m && m[key] != "" && Plain(f, rest)
    ensures Restore(f, m, t) == m[key] + rest
  {
    assert t[|key|..] == rest;
    assert Bracketed(key);
    RestoreStep(f, m, t, |key|, m[key], rest);
    RestorePlain(f, m, rest);
  }

  const BEHIND := " 1234563218"

  lemma SampleIs()
    ensures SAMPLE == PLACEHOLDER + BEHIND
  {}

  lemma Twice()
    ensures NUMBER + BEHIND == "1234563218 1234563218"
    ensures "1234563218 1234563218" != SAMPLE
  {
    assert "1234563218 1234563218"[0] != SAMPLE[0];
  }

  lemma BehindIsPlain(f: string -> Option<Hit>)
    requires IsGrammar(f)
    ensures Plain(f, BEHIND)
  {
    NoBracketIsPlain(f, BEHIND);
  }

  /** What the sample restores to under any map that holds that entry. */
  lemma SampleRestored(f: string -> Option<Hit>, m: map<string, string>)
    requires IsGrammar(f) && PLACEHOLDER in m && m[PLACEHOLDER] == NUMBER
    ensures Restore(f, m, SAMPLE) == NUMBER + BEHIND
  {
    SamplePlaceholder(f);
    BehindIsPlain(f);
    SampleIs();
    KeyThenPlain(f, m, SAMPLE, PLACEHOLDER, BEHIND);
  }

  /** What some of the rules book is booked in the end, and decides what the text restores to. */
  lemma BookedInTheEnd(f: string -> Option<Hit>, rules: seq<Rule>, t: string, n: nat, key: string)
    requires IsGrammar(f) && ValidRules(rules) && n <= |rules| && key in ApplyRules(f, EMPTY, rules[..n], t).0.originals
    ensures var m := ApplyRules(f, EMPTY, rules, t).0.originals;
            && key in m && m[key] == ApplyRules(f, EMPTY, rules[..n], t).0.originals[key]
            && Restore(f, m, ApplyRules(f, EMPTY, rules, t).1) == Restore(f, m, t)
  {
    EmptyIsValid(f);
    RulesKeep(f, EMPTY, rules, t, n, |rules|, key, ApplyRules(f, EMPTY, rules[..n], t).0.originals[key]);
    assert rules[..|rules|] == rules;
    RedactionRestoresAlike(f, EMPTY, rules, t);
    var m := ApplyRules(f, EMPTY, rules, t).0.originals;
    assert Extends(m, m);
  }

  /** Restoring does not undo redaction for every text. Whatever other rules there are, as long as none
      before the one for tax numbers takes anything from the sample, its redaction is restored to the
      number twice, because the text already spells out the placeholder issued for the number. */
  lemma RoundTripFails(k: Classes, value: char -> nat, f: string -> Option<Hit>, rules: seq<Rule>, n: nat)
    requires IsGrammar(f) && IsValue(value) && ValidRules(rules) && n < |rules| && rules[n] == NipRule(k, value)
    requires ApplyRules(f, EMPTY, rules[..n], SAMPLE) == (EMPTY, SAMPLE)
    ensures var (b, out) := ApplyRules(f, EMPTY, rules, SAMPLE);
            Restore(f, b.originals, out) == "1234563218 1234563218" && Restore(f, b.originals, out) != SAMPLE
  {
    SampleBooks(k, value, f);
    OneMoreRule(f, EMPTY, rules, SAMPLE, n);
    BookedInTheEnd(f, rules, SAMPLE, n + 1, PLACEHOLDER);
    SampleRestored(f, ApplyRules(f, EMPTY, rules, SAMPLE).0.originals);
    Twice();
  }

  lemma ValidAlone(r: Rule)
    requires ValidRule(r)
    ensures ValidRules([r])
  {}

  lemma NoRuleChangesNothing(f: string -> Option<Hit>, b: Book, rules: seq<Rule>, t: string)
    requires IsGrammar(f) && ValidRules(rules)
    ensures ApplyRules(f, b, rules[..0], t) == (b, t)
  {
    assert rules[..0] == [];
  }

  /** With that rule alone, for instance. */
  lemma RoundTripFailsAlone(k: Classes, value: char -> nat, f: string -> Option<Hit>, rules: seq<Rule>)
    requires IsGrammar(f) && IsValue(value) && rules == [NipRule(k, value)]
    ensures ValidRules(rules)
    ensures var (b, out) := ApplyRules(f, EMPTY, rules, SAMPLE);
            Restore(f, b.originals, out) != SAMPLE
  {
    NipRuleIsValid(k, value);
    ValidAlone(NipRule(k, value));
    NoRuleChangesNothing(f, EMPTY, rules, SAMPLE);
    RoundTripFails(k, value, f, rules, 0);
  }
}
