/** Reversible redaction: rules find fragments, each fragment is replaced by a placeholder, and a
    book of originals undoes it. The functions say what one redaction does; class `Anonimizer`
    does it in place. */
module Redaction {
  import opened Basics
  import opened Substitution

  /** The mutable state as a value: placeholder -> original, the number of different originals per
      label, and the number of replacements per label. */
  datatype Book = Book(originals: map<string, string>, unique: map<string, nat>, hits: map<string, nat>)

  const EMPTY := Book(map[], map[], map[])

  function Count(c: map<string, nat>, kind: string): nat {
    if kind in c then c[kind] else 0
  }

  function Bump(c: map<string, nat>, kind: string): map<string, nat> {
    c[kind := Count(c, kind) + 1]
  }

  ghost predicate IsIssued(b: Book, key: string, kind: string, n: nat) {
    key == Key(kind, n) && ValidLabel(kind) && 1 <= n <= Count(b.unique, kind)
  }

  ghost predicate HasKey(b: Book, key: string) {
    key in b.originals
  }

  /** The keys are exactly `[LABEL#1]` to `[LABEL#unique]`; originals are distinct, non-empty, and
      contain no placeholder. */
  ghost predicate Valid(f: string -> Option<Hit>, b: Book) {
    && (forall key :: HasKey(b, key) ==> exists kind, n: nat :: IsIssued(b, key, kind, n))
    && (forall key, kind, n: nat :: IsIssued(b, key, kind, n) ==> key in b.originals)
    && (forall k1, k2 :: k1 in b.originals && k2 in b.originals && b.originals[k1] == b.originals[k2] ==> k1 == k2)
    && (forall key :: key in b.originals ==> b.originals[key] != "" && Plain(f, b.originals[key]))
  }

  ghost predicate Extends(m: map<string, string>, m': map<string, string>) {
    forall key :: key in m ==> key in m' && m'[key] == m[key]
  }

  // ---------------------------------------------------------------- one placeholder

  /** The placeholder for a value: the one it already has, or the next one with this label. */
  ghost function Place(b: Book, kind: string, value: string): (Book, string) {
    var hits := Bump(b.hits, kind);
    if exists key :: key in b.originals && b.originals[key] == value then
      var key :| key in b.originals && b.originals[key] == value;
      (b.(hits := hits), key)
    else
      var key := Key(kind, Count(b.unique, kind) + 1);
      (Book(b.originals[key := value], Bump(b.unique, kind), hits), key)
  }

  /** The next key is unused. */
  lemma NextKeyIsFresh(f: string -> Option<Hit>, b: Book, kind: string)
    requires Valid(f, b) && ValidLabel(kind)
    ensures Key(kind, Count(b.unique, kind) + 1) !in b.originals
  {
    var key := Key(kind, Count(b.unique, kind) + 1);
    if HasKey(b, key) {
      var kind', n: nat :| IsIssued(b, key, kind', n);
      KeyInjective(kind, Count(b.unique, kind) + 1, kind', n);
    }
  }

  /** Booking a new value under the next key keeps the book valid. */
  lemma FreshKeepsValid(f: string -> Option<Hit>, b: Book, kind: string, value: string, hits: map<string, nat>)
    requires Valid(f, b) && ValidLabel(kind) && value != "" && Plain(f, value)
    requires forall key :: key in b.originals ==> b.originals[key] != value
    ensures var key := Key(kind, Count(b.unique, kind) + 1);
            Valid(f, Book(b.originals[key := value], Bump(b.unique, kind), hits))
  {
    var key := Key(kind, Count(b.unique, kind) + 1);
    var b' := Book(b.originals[key := value], Bump(b.unique, kind), hits);
    NextKeyIsFresh(f, b, kind);
    assert IsIssued(b', key, kind, Count(b.unique, kind) + 1);
    forall k1 | HasKey(b', k1)
      ensures exists kind', n: nat :: IsIssued(b', k1, kind', n)
    {
      if k1 != key {
        assert HasKey(b, k1);
        var kind', n: nat :| IsIssued(b, k1, kind', n);
        assert IsIssued(b', k1, kind', n);
      }
    }
    forall k1, kind', n: nat | IsIssued(b', k1, kind', n)
      ensures k1 in b'.originals
    {
      assert k1 == key || IsIssued(b, k1, kind', n);
    }
  }

  lemma SameKeysIssued(f: string -> Option<Hit>, b: Book, hits: map<string, nat>)
    requires Valid(f, b)
    ensures Valid(f, b.(hits := hits))
  {
    forall key, kind, n: nat
      ensures IsIssued(b.(hits := hits), key, kind, n) == IsIssued(b, key, kind, n)
    {}
    forall key | HasKey(b.(hits := hits), key)
      ensures exists kind, n: nat :: IsIssued(b.(hits := hits), key, kind, n)
    {
      assert HasKey(b, key);
      var kind, n: nat :| IsIssued(b, key, kind, n);
      assert IsIssued(b.(hits := hits), key, kind, n);
    }
  }

  /** Placing keeps the book valid and what it already holds, books the value under the placeholder
      that is returned, and counts one replacement. */
  lemma PlaceKeepsValid(f: string -> Option<Hit>, b: Book, kind: string, value: string)
    requires IsGrammar(f) && Valid(f, b) && ValidLabel(kind) && value != "" && Plain(f, value)
    ensures var (b', key) := Place(b, kind, value);
            && Valid(f, b') && Extends(b.originals, b'.originals)
            && key in b'.originals && b'.originals[key] == value
            && b'.hits == Bump(b.hits, kind)
            && f(key) == Some(Hit(key, key))
  {
    var (b', key) := Place(b, kind, value);
    if exists key :: key in b.originals && b.originals[key] == value {
      SameKeysIssued(f, b, Bump(b.hits, kind));
      assert HasKey(b, key);
      var kind', n: nat :| IsIssued(b, key, kind', n);
      assert f(Key(kind', n)).Some?;
    } else {
      NextKeyIsFresh(f, b, kind);
      assert f(Key(kind, Count(b.unique, kind) + 1)).Some?;
      FreshKeepsValid(f, b, kind, value, Bump(b.hits, kind));
    }
  }

  lemma PlaceKnown(f: string -> Option<Hit>, b: Book, kind: string, key: string)
    requires Valid(f, b) && key in b.originals
    ensures Place(b, kind, b.originals[key]) == (b.(hits := Bump(b.hits, kind)), key)
  {}

  // ---------------------------------------------------------------- one rule

  /** A rule: where its pattern matches a text (regular-expression `finditer`), and under which
      label a matched fragment is taken, if its checks accept it. */
  datatype Rule = Rule(find: string -> seq<(nat, nat)>, accept: string -> Option<string>)

  /** Ordered, disjoint, non-empty spans of a text of length `n`. */
  ghost predicate Ordered(spans: seq<(nat, nat)>, n: nat) {
    && (forall i :: 0 <= i < |spans| ==> spans[i].0 < spans[i].1 <= n)
    && (forall i, j :: 0 <= i < j < |spans| ==> spans[i].1 <= spans[j].0)
  }

  ghost predicate ValidRule(r: Rule) {
    && (forall s :: Ordered(r.find(s), |s|))
    && (forall v :: r.accept(v).Some? ==> ValidLabel(r.accept(v).value))
  }

  ghost predicate ValidRules(rules: seq<Rule>) {
    forall i :: 0 <= i < |rules| ==> ValidRule(rules[i])
  }

  /** A fragment to take out: where it stands, its label, and its text. */
  datatype Span = Span(from: nat, to: nat, kind: string, text: string)

  ghost predicate OrderedSpans(sel: seq<Span>, n: nat) {
    && (forall i :: 0 <= i < |sel| ==> sel[i].from < sel[i].to <= n && ValidLabel(sel[i].kind))
    && (forall i, j :: 0 <= i < j < |sel| ==> sel[i].to <= sel[j].from)
  }

  predicate Overlaps(hits: seq<(nat, nat)>, a: nat, b: nat) {
    exists i :: 0 <= i < |hits| && hits[i].0 < b && hits[i].1 > a
  }

  /** The label under which a rule takes a match: none if it overlaps a placeholder or fails the
      rule's own checks. */
  function TakenAs(f: string -> Option<Hit>, r: Rule, out: string, a: nat, b: nat): Option<string>
    requires a <= b <= |out|
  {
    if Overlaps(FindAll(f, out, 0), a, b) then None else r.accept(out[a..b])
  }

  predicate InRange(spans: seq<(nat, nat)>, n: nat) {
    forall i :: 0 <= i < |spans| ==> spans[i].0 <= spans[i].1 <= n
  }

  /** The fragments a rule takes out of `out`, among the matches `spans`. */
  function Select(f: string -> Option<Hit>, r: Rule, out: string, spans: seq<(nat, nat)>): seq<Span>
    requires InRange(spans, |out|)
  {
    if spans == [] then [] else
      var n := |spans| - 1;
      var (a, b) := spans[n];
      match TakenAs(f, r, out, a, b)
      case None => Select(f, r, out, spans[..n])
      case Some(kind) => Select(f, r, out, spans[..n]) + [Span(a, b, kind, out[a..b])]
  }

  /** No placeholder of `out` overlaps the interval. */
  ghost predicate Clear(f: string -> Option<Hit>, out: string, a: nat, b: nat) {
    forall i :: 0 <= i < |out| && At(f, out, i).Some? ==> !(i < b && i + |At(f, out, i).value.text| > a)
  }

  lemma NoOverlapIsClear(f: string -> Option<Hit>, out: string, a: nat, b: nat)
    requires IsGrammar(f)
    requires !Overlaps(FindAll(f, out, 0), a, b)
    ensures Clear(f, out, a, b)
  {
    forall i | 0 <= i < |out| && At(f, out, i).Some?
      ensures !(i < b && i + |At(f, out, i).value.text| > a)
    {
      var e := i + |At(f, out, i).value.text|;
      FindAllExact(f, out, 0, i, e);
      var j :| 0 <= j < |FindAll(f, out, 0)| && FindAll(f, out, 0)[j] == (i, e);
    }
  }

  /** Each span stands in `out` as recorded and is clear of placeholders. */
  ghost predicate Matched(f: string -> Option<Hit>, out: string, sel: seq<Span>) {
    forall i :: 0 <= i < |sel| ==>
      && sel[i].from <= sel[i].to <= |out| && sel[i].text == out[sel[i].from..sel[i].to]
      && Clear(f, out, sel[i].from, sel[i].to)
  }

  /** Spans that may be replaced in `out`: ordered, ending by `limit`, clear of placeholders. */
  ghost predicate Replaceable(f: string -> Option<Hit>, out: string, sel: seq<Span>, limit: nat) {
    && OrderedSpans(sel, |out|)
    && (forall i :: 0 <= i < |sel| ==> sel[i].to <= limit)
    && Matched(f, out, sel)
  }

  lemma ReplaceableGrows(f: string -> Option<Hit>, out: string, sel: seq<Span>, limit: nat, s: Span)
    requires Replaceable(f, out, sel, limit)
    requires limit <= s.from < s.to <= |out| && ValidLabel(s.kind) && Clear(f, out, s.from, s.to)
    requires s.text == out[s.from..s.to]
    ensures Replaceable(f, out, sel + [s], s.to)
  {}

  lemma TakenIsReplaceable(f: string -> Option<Hit>, r: Rule, out: string, sel: seq<Span>, limit: nat, a: nat, b: nat)
    requires IsGrammar(f) && ValidRule(r) && limit <= a < b <= |out|
    requires Replaceable(f, out, sel, limit) && TakenAs(f, r, out, a, b).Some?
    ensures Replaceable(f, out, sel + [Span(a, b, TakenAs(f, r, out, a, b).value, out[a..b])], b)
  {
    NoOverlapIsClear(f, out, a, b);
    ReplaceableGrows(f, out, sel, limit, Span(a, b, TakenAs(f, r, out, a, b).value, out[a..b]));
  }

  lemma ReplaceableLater(f: string -> Option<Hit>, out: string, sel: seq<Span>, limit: nat, limit': nat)
    requires Replaceable(f, out, sel, limit) && limit <= limit'
    ensures Replaceable(f, out, sel, limit')
  {}

  /** Where the last of the matches ends. */
  function EndOf(spans: seq<(nat, nat)>): nat {
    if spans == [] then 0 else spans[|spans| - 1].1
  }

  /** Selected spans are ordered and clear of every placeholder of the text. */
  lemma {:induction false} SelectIsReplaceable(f: string -> Option<Hit>, r: Rule, out: string, spans: seq<(nat, nat)>)
    requires IsGrammar(f) && ValidRule(r) && Ordered(spans, |out|)
    ensures Replaceable(f, out, Select(f, r, out, spans), EndOf(spans))
  {
    if spans != [] {
      var n := |spans| - 1;
      var (a, b) := spans[n];
      SelectIsReplaceable(f, r, out, spans[..n]);
      var sel := Select(f, r, out, spans[..n]);
      assert n > 0 ==> spans[..n][n - 1] == spans[n - 1];
      assert EndOf(spans[..n]) <= a < b <= |out|;
      if TakenAs(f, r, out, a, b).Some? {
        TakenIsReplaceable(f, r, out, sel, EndOf(spans[..n]), a, b);
      } else {
        ReplaceableLater(f, out, sel, EndOf(spans[..n]), b);
      }
    }
  }

  /** Replaces the selected spans, last one first. */
  ghost function ReplaceAll(b: Book, out: string, sel: seq<Span>): (Book, string)
    requires OrderedSpans(sel, |out|)
    decreases |sel|
  {
    if sel == [] then (b, out) else
      var last := sel[|sel| - 1];
      var (b1, key) := Place(b, last.kind, last.text);
      ReplaceAll(b1, out[..last.from] + key + out[last.to..], sel[..|sel| - 1])
  }

  /** The book never knows less than before, so what restores alike keeps restoring alike. */
  ghost predicate Alike(f: string -> Option<Hit>, m: map<string, string>, x: string, y: string) {
    forall m' :: Extends(m, m') ==> Restore(f, m', x) == Restore(f, m', y)
  }

  lemma CutInThree(s: string, a: nat, b: nat)
    requires a <= b <= |s|
    ensures s == s[..a] + (s[a..b] + s[b..])
  {}

  /** An interval clear of placeholders can be cut out. */
  lemma ClearCut(f: string -> Option<Hit>, out: string, a: nat, b: nat)
    requires IsGrammar(f) && a < b <= |out| && Clear(f, out, a, b)
    ensures Separated(f, out[..a], out[a..b] + out[b..])
    ensures Separated(f, out[a..b], out[b..])
    ensures Plain(f, out[a..b])
  {
    CutInThree(out, a, b);
    var v := out[a..b];
    assert v + out[b..] == out[a..];
    forall i | 0 <= i < |v|
      ensures At(f, v + out[b..], i).None? && At(f, v, i).None?
    {
      assert out[a..][i..] == out[a + i..];
      assert At(f, out, a + i).None?;
      assert v[i..] <= out[a + i..];
    }
    forall i | 0 <= i < a && At(f, out, i).Some?
      ensures i + |At(f, out, i).value.text| <= a
    {}
  }

  /** What the text restores to, seen around a clear interval. */
  lemma RestoreAroundClear(f: string -> Option<Hit>, m: map<string, string>, out: string, a: nat, b: nat)
    requires IsGrammar(f) && a < b <= |out| && Clear(f, out, a, b)
    ensures Restore(f, m, out) == Restore(f, m, out[..a]) + (out[a..b] + Restore(f, m, out[b..]))
  {
    ClearCut(f, out, a, b);
    CutInThree(out, a, b);
    RestoreCut(f, m, out[..a], out[a..b] + out[b..]);
    RestoreCut(f, m, out[a..b], out[b..]);
    RestorePlain(f, m, out[a..b]);
  }

  /** A booked placeholder restores to its original, whatever stands around it. */
  lemma RestoreAroundKey(f: string -> Option<Hit>, m: map<string, string>, x: string, key: string, y: string)
    requires IsGrammar(f) && f(key) == Some(Hit(key, key)) && key in m && m[key] != ""
    ensures Restore(f, m, x + key + y) == Restore(f, m, x) + (m[key] + Restore(f, m, y))
  {
    assert Bracketed(key);
    Associative(x, key, y);
    SeparatedByOpening(f, x, key + y);
    SeparatedByClosing(f, key, y);
    RestoreCut(f, m, x, key + y);
    RestoreCut(f, m, key, y);
    assert key[|key|..] == "";
    RestoreStep(f, m, key, |key|, m[key], "");
    assert m[key] + "" == m[key];
  }

  /** Putting a placeholder into a clear interval leaves earlier intervals clear. */
  lemma ClearStays(f: string -> Option<Hit>, out: string, a: nat, b: nat, key: string, a0: nat, b0: nat)
    requires IsGrammar(f) && a < b <= |out| && Clear(f, out, a, b) && Bracketed(key)
    requires a0 < b0 <= a && Clear(f, out, a0, b0)
    ensures Clear(f, out[..a] + key + out[b..], a0, b0)
  {
    var x, z := out[..a], key + out[b..];
    Associative(x, key, out[b..]);
    CutInThree(out, a, b);
    ClearCut(f, out, a, b);
    SeparatedByOpening(f, x, z);
    forall i | 0 <= i < |x + z| && At(f, x + z, i).Some?
      ensures !(i < b0 && i + |At(f, x + z, i).value.text| > a0)
    {
      if i < b0 {
        AtSeparated(f, x, z, i);
        AtSeparated(f, x, out[a..b] + out[b..], i);
      }
    }
  }

  lemma FragmentStays(out: string, a: nat, key: string, z: string, from: nat, to: nat)
    requires from <= to <= a <= |out|
    ensures (out[..a] + key + z)[from..to] == out[from..to]
  {
    Associative(out[..a], key, z);
  }

  /** One replacement books the fragment and leaves the remaining spans replaceable. */
  lemma OneReplacement(f: string -> Option<Hit>, b: Book, out: string, sel: seq<Span>)
    requires IsGrammar(f) && Valid(f, b) && OrderedSpans(sel, |out|) && Matched(f, out, sel) && sel != []
    ensures var last := sel[|sel| - 1];
            var (b1, key) := Place(b, last.kind, last.text);
            && Valid(f, b1) && Extends(b.originals, b1.originals)
            && last.text != "" && Plain(f, last.text)
            && key in b1.originals && b1.originals[key] == last.text && f(key) == Some(Hit(key, key))
            && Matched(f, out[..last.from] + key + out[last.to..], sel[..|sel| - 1])
  {
    var n := |sel| - 1;
    var last := sel[n];
    ClearCut(f, out, last.from, last.to);
    PlaceKeepsValid(f, b, last.kind, last.text);
    var (b1, key) := Place(b, last.kind, last.text);
    forall i | 0 <= i < n
      ensures Clear(f, out[..last.from] + key + out[last.to..], sel[i].from, sel[i].to)
      ensures (out[..last.from] + key + out[last.to..])[sel[i].from..sel[i].to] == sel[i].text
    {
      FragmentStays(out, last.from, key, out[last.to..], sel[i].from, sel[i].to);
      ClearStays(f, out, last.from, last.to, key, sel[i].from, sel[i].to);
    }
  }

  /** Replacing selected spans keeps the book valid and what the text restores to, under the new
      book and under every later one. */
  lemma {:induction false} ReplaceAllRestores(f: string -> Option<Hit>, b: Book, out: string, sel: seq<Span>)
    requires IsGrammar(f) && Valid(f, b) && OrderedSpans(sel, |out|) && Matched(f, out, sel)
    ensures var (b', out') := ReplaceAll(b, out, sel);
            && Valid(f, b') && Extends(b.originals, b'.originals)
            && Alike(f, b'.originals, out', out)
    decreases |sel|
  {
    if sel != [] {
      var n := |sel| - 1;
      var last := sel[n];
      OneReplacement(f, b, out, sel);
      var (b1, key) := Place(b, last.kind, last.text);
      var next := out[..last.from] + key + out[last.to..];
      ReplaceAllRestores(f, b1, next, sel[..n]);
      var (b', out') := ReplaceAll(b1, next, sel[..n]);
      forall m | Extends(b'.originals, m)
        ensures Restore(f, m, out') == Restore(f, m, out)
      {
        assert Extends(b1.originals, m);
        RestoreAroundKey(f, m, out[..last.from], key, out[last.to..]);
        RestoreAroundClear(f, m, out, last.from, last.to);
      }
    }
  }

  // ---------------------------------------------------------------- all rules

  /** One rule applied to a text. */
  ghost function ApplyRule(f: string -> Option<Hit>, b: Book, r: Rule, out: string): (Book, string)
    requires IsGrammar(f) && ValidRule(r)
  {
    SelectIsReplaceable(f, r, out, r.find(out));
    ReplaceAll(b, out, Select(f, r, out, r.find(out)))
  }

  /** The rules applied in order. */
  ghost function ApplyRules(f: string -> Option<Hit>, b: Book, rules: seq<Rule>, t: string): (Book, string)
    requires IsGrammar(f) && ValidRules(rules)
  {
    if rules == [] then (b, t) else
      var (b1, out) := ApplyRules(f, b, rules[..|rules| - 1], t);
      ApplyRule(f, b1, rules[|rules| - 1], out)
  }

  /** Whatever the rules and the text: the redacted text and the text restore alike, under the book
      of that moment and under every later one. */
  lemma {:induction false} RedactionRestoresAlike(f: string -> Option<Hit>, b: Book, rules: seq<Rule>, t: string)
    requires IsGrammar(f) && Valid(f, b) && ValidRules(rules)
    ensures var (b', out) := ApplyRules(f, b, rules, t);
            Valid(f, b') && Extends(b.originals, b'.originals) && Alike(f, b'.originals, out, t)
  {
    if rules != [] {
      var n := |rules| - 1;
      RedactionRestoresAlike(f, b, rules[..n], t);
      var (b1, mid) := ApplyRules(f, b, rules[..n], t);
      SelectIsReplaceable(f, rules[n], mid, rules[n].find(mid));
      ReplaceAllRestores(f, b1, mid, Select(f, rules[n], mid, rules[n].find(mid)));
      var (b', out) := ApplyRules(f, b, rules, t);
      forall m | Extends(b'.originals, m)
        ensures Restore(f, m, out) == Restore(f, m, t)
      {
        assert Extends(b1.originals, m);
      }
    }
  }

  lemma RuleExtends(f: string -> Option<Hit>, b: Book, r: Rule, out: string)
    requires IsGrammar(f) && Valid(f, b) && ValidRule(r)
    ensures Extends(b.originals, ApplyRule(f, b, r, out).0.originals)
  {
    SelectIsReplaceable(f, r, out, r.find(out));
    ReplaceAllRestores(f, b, out, Select(f, r, out, r.find(out)));
  }

  /** Each rule is applied to what the ones before it in the list left. */
  lemma OneMoreRule(f: string -> Option<Hit>, b: Book, rules: seq<Rule>, t: string, n: nat)
    requires IsGrammar(f) && ValidRules(rules) && n < |rules|
    ensures var (b1, out) := ApplyRules(f, b, rules[..n], t);
            ApplyRules(f, b, rules[..n + 1], t) == ApplyRule(f, b1, rules[n], out)
  {
    assert rules[..n + 1][..n] == rules[..n];
  }

  /** The map after the first `n` rules. */
  ghost function MapAfter(f: string -> Option<Hit>, b: Book, rules: seq<Rule>, t: string, n: nat): map<string, string>
    requires IsGrammar(f) && ValidRules(rules) && n <= |rules|
  {
    ApplyRules(f, b, rules[..n], t).0.originals
  }

  lemma OneMoreKeeps(f: string -> Option<Hit>, b: Book, rules: seq<Rule>, t: string, n: nat, key: string, value: string)
    requires IsGrammar(f) && Valid(f, b) && ValidRules(rules) && n < |rules|
    requires key in MapAfter(f, b, rules, t, n) && MapAfter(f, b, rules, t, n)[key] == value
    ensures key in MapAfter(f, b, rules, t, n + 1) && MapAfter(f, b, rules, t, n + 1)[key] == value
  {
    RedactionRestoresAlike(f, b, rules[..n], t);
    OneMoreRule(f, b, rules, t, n);
    var (b1, mid) := ApplyRules(f, b, rules[..n], t);
    RuleExtends(f, b1, rules[n], mid);
  }

  /** What the first rules book, later rules keep. */
  lemma {:induction false} RulesKeep(f: string -> Option<Hit>, b: Book, rules: seq<Rule>, t: string, n: nat, m: nat, key: string, value: string)
    requires IsGrammar(f) && Valid(f, b) && ValidRules(rules) && n <= m <= |rules|
    requires key in MapAfter(f, b, rules, t, n) && MapAfter(f, b, rules, t, n)[key] == value
    ensures key in MapAfter(f, b, rules, t, m) && MapAfter(f, b, rules, t, m)[key] == value
    decreases m - n
  {
    if n < m {
      OneMoreKeeps(f, b, rules, t, n, key, value);
      RulesKeep(f, b, rules, t, n + 1, m, key, value);
    }
  }

  /** Round trip: a text without placeholders comes back, from this book and from every later one. */
  lemma RoundTrip(f: string -> Option<Hit>, b: Book, rules: seq<Rule>, t: string, m: map<string, string>)
    requires IsGrammar(f) && Valid(f, b) && ValidRules(rules)
    requires Plain(f, t)
    requires Extends(ApplyRules(f, b, rules, t).0.originals, m)
    ensures Restore(f, m, ApplyRules(f, b, rules, t).1) == t
  {
    RedactionRestoresAlike(f, b, rules, t);
    RestorePlain(f, m, t);
  }

  /** The text holds a placeholder that the book resolves. */
  ghost predicate Resolves(f: string -> Option<Hit>, m: map<string, string>, t: string) {
    exists i :: 0 <= i < |t| && At(f, t, i).Some? && At(f, t, i).value.key in m
  }

  lemma ResolvesTail(f: string -> Option<Hit>, m: map<string, string>, t: string, n: nat)
    requires n <= |t| && Resolves(f, m, t[n..])
    ensures Resolves(f, m, t)
  {
    var i :| 0 <= i < |t[n..]| && At(f, t[n..], i).Some? && At(f, t[n..], i).value.key in m;
    assert t[n..][i..] == t[n + i..];
    assert At(f, t, n + i) == At(f, t[n..], i);
  }

  /** One step of the substitution: it copies exactly when the placeholder there is not resolved. */
  lemma StepCopies(f: string -> Option<Hit>, m: map<string, string>, t: string)
    requires IsGrammar(f) && t != ""
    ensures StepLength(f, t) <= |t|
    ensures (f(t).Some? && f(t).value.key in m) ==> Resolves(f, m, t)
    ensures !(f(t).Some? && f(t).value.key in m) ==> StepText(f, m, t) == t[..StepLength(f, t)]
  {
    assert t[0..] == t && At(f, t, 0) == f(t);
  }

  /** So where nothing is resolved a step copies, and nothing is resolved behind it. */
  lemma UnresolvedStep(f: string -> Option<Hit>, m: map<string, string>, t: string)
    requires IsGrammar(f) && t != "" && !Resolves(f, m, t)
    ensures var n := StepLength(f, t);
            n <= |t| && StepText(f, m, t) == t[..n] && !Resolves(f, m, t[n..])
  {
    var n := StepLength(f, t);
    StepCopies(f, m, t);
    if Resolves(f, m, t[n..]) { ResolvesTail(f, m, t, n); }
  }

  /** If nothing is resolved, restoring changes nothing. */
  lemma {:induction false} UnresolvedStays(f: string -> Option<Hit>, m: map<string, string>, t: string)
    requires IsGrammar(f) && !Resolves(f, m, t)
    ensures Restore(f, m, t) == t
    decreases |t|
  {
    if t != "" {
      var n := StepLength(f, t);
      UnresolvedStep(f, m, t);
      UnresolvedStays(f, m, t[n..]);
      RestoreStep(f, m, t, n, t[..n], t[n..]);
      TakeAndDrop(t, n);
    }
  }

  /** A plain text that spans a place does not carry a placeholder there. */
  lemma PlainDoesNotCover(f: string -> Option<Hit>, v: string, i: nat, h: Hit)
    requires IsGrammar(f) && Plain(f, v) && f(h.text) == Some(h) && h.text != ""
    requires i + |h.text| <= |v|
    ensures v[i..i + |h.text|] != h.text
  {
    assert At(f, v, i).None?;
    var rest := v[i..];
    assert rest[..|h.text|] == v[i..i + |h.text|];
    assert v[i..i + |h.text|] == h.text ==> StartsWith(rest, h.text);
  }

  lemma SliceOfSlice(s: string, lo: nat, hi: nat, i: nat, j: nat)
    requires lo <= hi <= |s| && i <= j <= hi - lo
    ensures s[lo..hi][i..j] == s[lo + i..lo + j]
  {
    forall n | 0 <= n < j - i
      ensures s[lo..hi][i..j][n] == s[lo + i..lo + j][n]
    { assert s[lo..hi][i..j][n] == s[lo..hi][i + n]; }
  }

  /** Restoring a resolved placeholder leaves the restored side behind. */
  lemma ResolvedIsShorter(f: string -> Option<Hit>, s: string, lo: nat, v: string, p: nat, h: Hit)
    requires IsGrammar(f) && Plain(f, v) && f(h.text) == Some(h) && h.text != ""
    requires lo <= p && p + |h.text| <= |s| && lo + |v| <= |s|
    requires s[lo..lo + |v|] == v && s[p..p + |h.text|] == h.text
    ensures lo + |v| < p + |h.text|
  {
    if p + |h.text| <= lo + |v| {
      SliceOfSlice(s, lo, lo + |v|, p - lo, p - lo + |h.text|);
      PlainDoesNotCover(f, v, p - lo, h);
    }
  }

  lemma RegroupStep(a: string, t: string, n: nat, b: string, r: string, rest: string)
    requires n <= |t| && a + t == b + (r + rest)
    ensures (a + t[..n]) + t[n..] == (b + r) + rest
    ensures |b| + |r| <= |a + t| && (a + t)[|b|..|b| + |r|] == r
    ensures (a + t)[|a|..|a| + n] == t[..n]
  {
    Associative(b, r, rest);
    assert t == t[..n] + t[n..];
    Associative(a, t[..n], t[n..]);
  }

  /** One step of the substitution on two texts that agree: a resolved placeholder leaves the
      restored side strictly behind, a copied piece leaves the distance as it was. */
  lemma StepFallsBehind(
      f: string -> Option<Hit>, m: map<string, string>, a: string, b: string, t: string, rest: string)
    requires IsGrammar(f) && t != "" && |b| <= |a| && a + t == b + (StepText(f, m, t) + rest)
    requires forall key :: key in m ==> m[key] != "" && Plain(f, m[key])
    ensures var n, r := StepLength(f, t), StepText(f, m, t);
            && n <= |t|
            && (a + t[..n]) + t[n..] == (b + r) + rest
            && if f(t).Some? && f(t).value.key in m then |b + r| < |a + t[..n]| else r == t[..n]
  {
    var n, r := StepLength(f, t), StepText(f, m, t);
    StepCopies(f, m, t);
    RegroupStep(a, t, n, b, r, rest);
    if f(t).Some? && f(t).value.key in m {
      var h := f(t).value;
      assert StartsWith(h.text, h.text) && f(h.text) == Some(h);
      ResolvedIsShorter(f, a + t, |b|, r, |a|, h);
    }
  }

  /** The heart of the converse: `a + t` and `b + Restore(t)` can only be equal, with `b` not the
      longer one, when `a` and `b` are equally long. */
  lemma {:induction false} NeverCatchesUp(
      f: string -> Option<Hit>, m: map<string, string>, a: string, b: string, t: string)
    requires IsGrammar(f) && |b| <= |a| && a + t == b + Restore(f, m, t)
    requires forall key :: key in m ==> m[key] != "" && Plain(f, m[key])
    ensures |a| == |b|
    decreases |t|
  {
    if t == "" {
      assert a + t == a && b + Restore(f, m, t) == b;
    } else {
      var n, r := StepLength(f, t), StepText(f, m, t);
      StepCopies(f, m, t);
      RestoreStep(f, m, t, n, r, t[n..]);
      StepFallsBehind(f, m, a, b, t, Restore(f, m, t[n..]));
      NeverCatchesUp(f, m, a + t[..n], b + r, t[n..]);
    }
  }

  /** A text that restoring leaves unchanged holds no placeholder that the book resolves. */
  lemma {:induction false} UnchangedIsUnresolved(f: string -> Option<Hit>, m: map<string, string>, t: string)
    requires IsGrammar(f) && Restore(f, m, t) == t
    requires forall key :: key in m ==> m[key] != "" && Plain(f, m[key])
    ensures !Resolves(f, m, t)
    decreases |t|
  {
    if t != "" {
      var n, r := StepLength(f, t), StepText(f, m, t);
      var rest := Restore(f, m, t[n..]);
      StepCopies(f, m, t);
      RestoreStep(f, m, t, n, r, t[n..]);
      assert "" + t == t && "" + (r + rest) == r + rest;
      StepFallsBehind(f, m, "", "", t, rest);
      NeverCatchesUp(f, m, "" + t[..n], "" + r, t[n..]);
      assert r == t[..n] && rest == t[n..];
      UnchangedIsUnresolved(f, m, t[n..]);
      if Resolves(f, m, t) { ResolvesHere(f, m, t); }
    }
  }

  lemma ResolvesBehind(f: string -> Option<Hit>, m: map<string, string>, t: string, n: nat, i: nat)
    requires n <= i < |t| && At(f, t, i).Some? && At(f, t, i).value.key in m
    ensures Resolves(f, m, t[n..])
  {
    assert t[n..][i - n..] == t[i..];
    assert At(f, t[n..], i - n) == At(f, t, i);
  }

  /** A resolved placeholder is the one at the start, or lies behind the first step. */
  lemma ResolvesHere(f: string -> Option<Hit>, m: map<string, string>, t: string)
    requires IsGrammar(f) && t != "" && Resolves(f, m, t)
    ensures StepLength(f, t) <= |t|
    ensures (f(t).Some? && f(t).value.key in m) || Resolves(f, m, t[StepLength(f, t)..])
  {
    StepCopies(f, m, t);
    var n := StepLength(f, t);
    var i :| 0 <= i < |t| && At(f, t, i).Some? && At(f, t, i).value.key in m;
    assert t[0..] == t;
    if i >= n {
      ResolvesBehind(f, m, t, n, i);
    } else if i > 0 {
      NothingInside(f, t, 0, i);
    }
  }

  /** Round trip, exactly: a text comes back if and only if none of its own placeholders is one the
      book resolves by then. */
  lemma RoundTripExactly(f: string -> Option<Hit>, b: Book, rules: seq<Rule>, t: string)
    requires IsGrammar(f) && Valid(f, b) && ValidRules(rules)
    ensures var (b', out) := ApplyRules(f, b, rules, t);
            Restore(f, b'.originals, out) == t <==> !Resolves(f, b'.originals, t)
  {
    RedactionRestoresAlike(f, b, rules, t);
    var m := ApplyRules(f, b, rules, t).0.originals;
    assert Extends(m, m);
    if Resolves(f, m, t) {
      if Restore(f, m, t) == t { UnchangedIsUnresolved(f, m, t); }
    } else {
      UnresolvedStays(f, m, t);
    }
  }

  /** A text the book resolves before the call is not restored after it. */
  lemma ResolvedBeforeIsLost(f: string -> Option<Hit>, b: Book, rules: seq<Rule>, t: string)
    requires IsGrammar(f) && Valid(f, b) && ValidRules(rules) && Resolves(f, b.originals, t)
    ensures var (b', out) := ApplyRules(f, b, rules, t); Restore(f, b'.originals, out) != t
  {
    RedactionRestoresAlike(f, b, rules, t);
    RoundTripExactly(f, b, rules, t);
    var m := ApplyRules(f, b, rules, t).0.originals;
    var i :| 0 <= i < |t| && At(f, t, i).Some? && At(f, t, i).value.key in b.originals;
    assert At(f, t, i).value.key in m;
  }

  // ---------------------------------------------------------------- which texts always come back

  ghost predicate IsKeyAt(f: string -> Option<Hit>, t: string, i: nat, kind: string, n: nat)
    requires i <= |t|
  {
    At(f, t, i).Some? && ValidLabel(kind) && n >= 1 && At(f, t, i).value.key == Key(kind, n)
  }

  /** The text spells out a placeholder that a redaction could issue: a label and a number from one on,
      written as the redactor writes it but for white space. */
  ghost predicate SpellsKey(f: string -> Option<Hit>, t: string) {
    exists i, kind, n: nat :: 0 <= i < |t| && IsKeyAt(f, t, i, kind, n)
  }

  /** The text comes back whatever was redacted before, by whatever rules, and whatever follows. */
  ghost predicate AlwaysComesBack(f: string -> Option<Hit>, t: string)
    requires IsGrammar(f)
  {
    forall b, rules, later: Book {:trigger ApplyRules(f, b, rules, t), Valid(f, later)} ::
      Valid(f, b) && ValidRules(rules) && Valid(f, later) &&
      Extends(ApplyRules(f, b, rules, t).0.originals, later.originals) ==>
        Restore(f, later.originals, ApplyRules(f, b, rules, t).1) == t
  }

  lemma ResolvedIsSpelt(f: string -> Option<Hit>, b: Book, t: string)
    requires Valid(f, b) && Resolves(f, b.originals, t)
    ensures SpellsKey(f, t)
  {
    var i :| 0 <= i < |t| && At(f, t, i).Some? && At(f, t, i).value.key in b.originals;
    assert HasKey(b, At(f, t, i).value.key);
    var kind, n: nat :| IsIssued(b, At(f, t, i).value.key, kind, n);
    assert IsKeyAt(f, t, i, kind, n);
  }

  /** A book with the first `n` placeholders of one label, each standing for its number. */
  function Filled(kind: string, n: nat): Book {
    if n == 0 then EMPTY else
      var b := Filled(kind, n - 1);
      Book(b.originals[Key(kind, n) := Number(n)], Bump(b.unique, kind), b.hits)
  }

  lemma NoBracketIsPlain(f: string -> Option<Hit>, s: string)
    requires IsGrammar(f) && forall i :: 0 <= i < |s| ==> s[i] != '['
    ensures Plain(f, s)
  {
    forall i | 0 <= i < |s|
      ensures At(f, s, i).None?
    {
      assert s[i..][0] == s[i];
      assert At(f, s, i).Some? ==> Bracketed(At(f, s, i).value.text);
    }
  }

  lemma NumberIsPlain(f: string -> Option<Hit>, n: nat)
    requires IsGrammar(f)
    ensures Number(n) != "" && Plain(f, Number(n))
  {
    NumberShape(n);
    NoBracketIsPlain(f, Number(n));
  }

  lemma {:induction false} FilledValues(kind: string, n: nat, key: string)
    requires key in Filled(kind, n).originals
    ensures exists i: nat :: i <= n && Filled(kind, n).originals[key] == Number(i)
  {
    var b := Filled(kind, n - 1);
    if key == Key(kind, n) {
      assert Filled(kind, n).originals[key] == Number(n);
    } else {
      FilledValues(kind, n - 1, key);
      var i: nat :| i <= n - 1 && b.originals[key] == Number(i);
      assert Filled(kind, n).originals[key] == Number(i);
    }
  }

  lemma NextNumberIsNew(kind: string, n: nat, key: string)
    requires n >= 1 && key in Filled(kind, n - 1).originals
    ensures Filled(kind, n - 1).originals[key] != Number(n)
  {
    FilledValues(kind, n - 1, key);
    var i: nat :| i <= n - 1 && Filled(kind, n - 1).originals[key] == Number(i);
    NumberInjective(i, n);
  }

  lemma {:induction false} FilledIsValid(f: string -> Option<Hit>, kind: string, n: nat)
    requires IsGrammar(f) && ValidLabel(kind)
    ensures Valid(f, Filled(kind, n)) && Count(Filled(kind, n).unique, kind) == n
  {
    if n == 0 {
      EmptyIsValid(f);
    } else {
      FilledIsValid(f, kind, n - 1);
      NumberIsPlain(f, n);
      var b := Filled(kind, n - 1);
      forall key | key in b.originals
        ensures b.originals[key] != Number(n)
      { NextNumberIsNew(kind, n, key); }
      FreshKeepsValid(f, b, kind, Number(n), b.hits);
    }
  }

  lemma EmptyIsValid(f: string -> Option<Hit>)
    ensures Valid(f, EMPTY)
  {}

  /** A text always comes back if and only if it spells out no placeholder that could be issued. */
  lemma ComesBackExactly(f: string -> Option<Hit>, t: string)
    requires IsGrammar(f)
    ensures AlwaysComesBack(f, t) <==> !SpellsKey(f, t)
  {
    if SpellsKey(f, t) {
      SpeltIsLost(f, t);
    } else {
      forall b, rules, later: Book | Valid(f, b) && ValidRules(rules) && Valid(f, later) &&
          Extends(ApplyRules(f, b, rules, t).0.originals, later.originals)
        ensures Restore(f, later.originals, ApplyRules(f, b, rules, t).1) == t
      { UnspeltComesBack(f, b, rules, t, later); }
    }
  }

  lemma UnspeltComesBack(f: string -> Option<Hit>, b: Book, rules: seq<Rule>, t: string, later: Book)
    requires IsGrammar(f) && Valid(f, b) && ValidRules(rules) && Valid(f, later) && !SpellsKey(f, t)
    requires Extends(ApplyRules(f, b, rules, t).0.originals, later.originals)
    ensures Restore(f, later.originals, ApplyRules(f, b, rules, t).1) == t
  {
    RedactionRestoresAlike(f, b, rules, t);
    if Resolves(f, later.originals, t) { ResolvedIsSpelt(f, later, t); }
    UnresolvedStays(f, later.originals, t);
  }

  lemma SpeltIsLost(f: string -> Option<Hit>, t: string)
    requires IsGrammar(f) && SpellsKey(f, t)
    ensures !AlwaysComesBack(f, t)
  {
    var i, kind, n: nat :| 0 <= i < |t| && IsKeyAt(f, t, i, kind, n);
    var b, rules := Filled(kind, n), [];
    FilledIsValid(f, kind, n);
    assert Key(kind, n) in b.originals;
    assert Resolves(f, b.originals, t);
    ResolvedBeforeIsLost(f, b, rules, t);
    assert ApplyRules(f, b, rules, t) == (b, t) && Extends(b.originals, b.originals);
  }

  // ---------------------------------------------------------------- histories

  /** Several texts redacted one after another with the same instance. */
  ghost function RedactEach(f: string -> Option<Hit>, b: Book, rules: seq<Rule>, texts: seq<string>): (Book, seq<string>)
    requires IsGrammar(f) && ValidRules(rules)
  {
    if texts == [] then (b, []) else
      var (b1, outs) := RedactEach(f, b, rules, texts[..|texts| - 1]);
      var (b2, out) := ApplyRules(f, b1, rules, texts[|texts| - 1]);
      (b2, outs + [out])
  }

  ghost predicate AllAlike(f: string -> Option<Hit>, m: map<string, string>, outs: seq<string>, texts: seq<string>) {
    |outs| == |texts| && forall i :: 0 <= i < |texts| ==> Alike(f, m, outs[i], texts[i])
  }

  lemma AllAlikeLater(f: string -> Option<Hit>, m: map<string, string>, m': map<string, string>,
                      outs: seq<string>, texts: seq<string>, out: string, text: string)
    requires AllAlike(f, m, outs, texts) && Extends(m, m') && Alike(f, m', out, text)
    ensures AllAlike(f, m', outs + [out], texts + [text])
  {
    forall i, m'' | 0 <= i < |texts| && Extends(m', m'')
      ensures Restore(f, m'', outs[i]) == Restore(f, m'', texts[i])
    {
      assert Extends(m, m'') && Alike(f, m, outs[i], texts[i]);
    }
  }

  lemma {:induction false} HistoryRestoresAlike(f: string -> Option<Hit>, b: Book, rules: seq<Rule>, texts: seq<string>)
    requires IsGrammar(f) && Valid(f, b) && ValidRules(rules)
    ensures var (b', outs) := RedactEach(f, b, rules, texts);
            Valid(f, b') && AllAlike(f, b'.originals, outs, texts)
  {
    if texts != [] {
      var n := |texts| - 1;
      HistoryRestoresAlike(f, b, rules, texts[..n]);
      var (b1, outs) := RedactEach(f, b, rules, texts[..n]);
      RedactionRestoresAlike(f, b1, rules, texts[n]);
      var (b2, out) := ApplyRules(f, b1, rules, texts[n]);
      AllAlikeLater(f, b1.originals, b2.originals, outs, texts[..n], out, texts[n]);
      assert texts[..n] + [texts[n]] == texts;
    }
  }

  /** After any number of redactions on one instance, every earlier text that held no placeholder is
      still restored. */
  lemma EveryEarlierTextComesBack(f: string -> Option<Hit>, rules: seq<Rule>, texts: seq<string>, i: nat)
    requires IsGrammar(f) && ValidRules(rules)
    requires i < |texts| && Plain(f, texts[i])
    ensures var (b, outs) := RedactEach(f, EMPTY, rules, texts);
            |outs| == |texts| && Restore(f, b.originals, outs[i]) == texts[i]
  {
    HistoryRestoresAlike(f, EMPTY, rules, texts);
    var (b, outs) := RedactEach(f, EMPTY, rules, texts);
    assert Extends(b.originals, b.originals);
    RestorePlain(f, b.originals, texts[i]);
  }

  // ---------------------------------------------------------------- what replacing does

  /** The placeholder each selected span receives, last one first. */
  ghost function KeysFor(b: Book, sel: seq<Span>): (keys: seq<string>)
    ensures |keys| == |sel|
    decreases |sel|
  {
    if sel == [] then [] else
      var (b1, key) := Place(b, sel[|sel| - 1].kind, sel[|sel| - 1].text);
      KeysFor(b1, sel[..|sel| - 1]) + [key]
  }

  /** The text with the spans exchanged for the given placeholders and nothing else changed. */
  function Exchange(out: string, sel: seq<Span>, keys: seq<string>): string
    requires |keys| == |sel|
    requires forall i :: 0 <= i < |sel| ==> sel[i].from < sel[i].to <= |out|
    requires forall i, j :: 0 <= i < j < |sel| ==> sel[i].to <= sel[j].from
    decreases |sel|
  {
    if sel == [] then out else
      var n := |sel| - 1;
      Exchange(out[..sel[n].from], sel[..n], keys[..n]) + keys[n] + out[sel[n].to..]
  }

  lemma {:induction false} ExchangeLeavesTail(x: string, z: string, sel: seq<Span>, keys: seq<string>)
    requires |keys| == |sel| && OrderedSpans(sel, |x|)
    ensures Exchange(x + z, sel, keys) == Exchange(x, sel, keys) + z
  {
    if sel != [] {
      var n := |sel| - 1;
      assert (x + z)[..sel[n].from] == x[..sel[n].from];
      assert (x + z)[sel[n].to..] == x[sel[n].to..] + z;
    }
  }

  /** Exchanging the last span and then the others is exchanging all of them. */
  lemma ExchangeOneMore(out: string, sel: seq<Span>, keys: seq<string>, key: string)
    requires sel != [] && OrderedSpans(sel, |out|) && |keys| == |sel| - 1
    ensures var n := |sel| - 1;
            var next := out[..sel[n].from] + key + out[sel[n].to..];
            && OrderedSpans(sel[..n], |next|)
            && Exchange(out, sel, keys + [key]) == Exchange(next, sel[..n], keys)
  {
    var n := |sel| - 1;
    var x, z := out[..sel[n].from], out[sel[n].to..];
    Associative(x, key, z);
    ExchangeLeavesTail(x, key + z, sel[..n], keys);
    Associative(Exchange(x, sel[..n], keys), key, z);
    assert (keys + [key])[..n] == keys;
  }

  lemma ReplaceAllStep(b: Book, out: string, sel: seq<Span>)
    requires sel != [] && OrderedSpans(sel, |out|)
    ensures var n := |sel| - 1;
            var (b1, key) := Place(b, sel[n].kind, sel[n].text);
            var next := out[..sel[n].from] + key + out[sel[n].to..];
            && OrderedSpans(sel[..n], |next|)
            && ReplaceAll(b, out, sel) == ReplaceAll(b1, next, sel[..n])
            && KeysFor(b, sel) == KeysFor(b1, sel[..n]) + [key]
  {}

  /** Exactly the selected spans are exchanged for placeholders: no selected fragment is left where
      it was found, and nothing else changes. */
  lemma {:induction false} ReplaceAllExchanges(b: Book, out: string, sel: seq<Span>)
    requires OrderedSpans(sel, |out|)
    ensures ReplaceAll(b, out, sel).1 == Exchange(out, sel, KeysFor(b, sel))
    decreases |sel|
  {
    if sel != [] {
      var n := |sel| - 1;
      var (b1, key) := Place(b, sel[n].kind, sel[n].text);
      var next := out[..sel[n].from] + key + out[sel[n].to..];
      ReplaceAllStep(b, out, sel);
      ReplaceAllExchanges(b1, next, sel[..n]);
      ExchangeOneMore(out, sel, KeysFor(b1, sel[..n]), key);
    }
  }

  ghost predicate Booked(m: map<string, string>, keys: seq<string>, sel: seq<Span>) {
    |keys| == |sel| && forall i :: 0 <= i < |sel| ==> keys[i] in m && m[keys[i]] == sel[i].text
  }

  lemma BookedOneMore(m: map<string, string>, m': map<string, string>, keys: seq<string>, sel: seq<Span>, key: string)
    requires sel != [] && Booked(m', keys, sel[..|sel| - 1])
    requires Extends(m, m') && key in m && m[key] == sel[|sel| - 1].text
    ensures Booked(m', keys + [key], sel)
  {
    forall i | 0 <= i < |sel|
      ensures (keys + [key])[i] in m' && m'[(keys + [key])[i]] == sel[i].text
    {
      if i < |keys| { assert sel[..|sel| - 1][i] == sel[i]; }
    }
  }

  /** Each of those placeholders is booked for the fragment that stood in its place. */
  lemma {:induction false} ReplaceAllBooks(f: string -> Option<Hit>, b: Book, out: string, sel: seq<Span>)
    requires IsGrammar(f) && Valid(f, b) && OrderedSpans(sel, |out|) && Matched(f, out, sel)
    ensures Booked(ReplaceAll(b, out, sel).0.originals, KeysFor(b, sel), sel)
    decreases |sel|
  {
    if sel != [] {
      var n := |sel| - 1;
      var last := sel[n];
      OneReplacement(f, b, out, sel);
      var (b1, key) := Place(b, last.kind, last.text);
      var next := out[..last.from] + key + out[last.to..];
      ReplaceAllRestores(f, b1, next, sel[..n]);
      ReplaceAllBooks(f, b1, next, sel[..n]);
      BookedOneMore(b1.originals, ReplaceAll(b1, next, sel[..n]).0.originals, KeysFor(b1, sel[..n]), sel, key);
    }
  }

  /** Which matches a rule takes: exactly those that overlap no placeholder and that its checks accept. */
  lemma {:induction false} SelectExactly(f: string -> Option<Hit>, r: Rule, out: string, spans: seq<(nat, nat)>, s: Span)
    requires IsGrammar(f) && InRange(spans, |out|)
    ensures s in Select(f, r, out, spans) <==>
              && (s.from, s.to) in spans && s.from <= s.to <= |out|
              && Clear(f, out, s.from, s.to)
              && s.text == out[s.from..s.to] && r.accept(s.text) == Some(s.kind)
  {
    if spans != [] {
      var n := |spans| - 1;
      assert spans == spans[..n] + [spans[n]];
      SelectExactly(f, r, out, spans[..n], s);
      OverlapsIsNotClear(f, out, s.from, s.to);
    }
  }

  lemma OverlapsIsNotClear(f: string -> Option<Hit>, out: string, a: nat, b: nat)
    requires IsGrammar(f)
    ensures Overlaps(FindAll(f, out, 0), a, b) <==> !Clear(f, out, a, b)
  {
    var hits := FindAll(f, out, 0);
    if Overlaps(hits, a, b) {
      var i :| 0 <= i < |hits| && hits[i].0 < b && hits[i].1 > a;
      FindAllExact(f, out, 0, hits[i].0, hits[i].1);
      assert hits[i] in hits;
      assert At(f, out, hits[i].0).Some?;
    } else {
      NoOverlapIsClear(f, out, a, b);
    }
  }

  /** One rule: everything it takes is exchanged for placeholders booked for exactly those fragments,
      and nothing else of the text changes. */
  lemma RuleTakesOutWhatItAccepts(f: string -> Option<Hit>, b: Book, r: Rule, out: string)
    requires IsGrammar(f) && Valid(f, b) && ValidRule(r)
    ensures var sel := Select(f, r, out, r.find(out));
            && OrderedSpans(sel, |out|)
            && exists keys ::
                 && Booked(ApplyRule(f, b, r, out).0.originals, keys, sel)
                 && ApplyRule(f, b, r, out).1 == Exchange(out, sel, keys)
  {
    SelectIsReplaceable(f, r, out, r.find(out));
    var sel := Select(f, r, out, r.find(out));
    ReplaceAllExchanges(b, out, sel);
    ReplaceAllBooks(f, b, out, sel);
  }

  function CountKind(sel: seq<Span>, kind: string): nat {
    if sel == [] then 0 else
      CountKind(sel[..|sel| - 1], kind) + if sel[|sel| - 1].kind == kind then 1 else 0
  }

  /** The statistics count every replacement under its label. */
  lemma {:induction false} HitsCountReplacements(b: Book, out: string, sel: seq<Span>, kind: string)
    requires OrderedSpans(sel, |out|)
    ensures Count(ReplaceAll(b, out, sel).0.hits, kind) == Count(b.hits, kind) + CountKind(sel, kind)
    decreases |sel|
  {
    if sel != [] {
      var n := |sel| - 1;
      var (b1, key) := Place(b, sel[n].kind, sel[n].text);
      HitsCountReplacements(b1, out[..sel[n].from] + key + out[sel[n].to..], sel[..n], kind);
    }
  }
}
