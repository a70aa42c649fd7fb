/** In which order the placeholders of one rule are numbered. */
module Numbering {
  import opened Basics
  import opened Substitution
  import opened Redaction
  import opened TaxNumbers

  // ---------------------------------------------------------------- numbers fall towards the front

  ghost predicate IsNew(b: Book, text: string) {
    forall key :: key in b.originals ==> b.originals[key] != text
  }

  lemma PlaceNew(b: Book, kind: string, value: string)
    requires IsNew(b, value)
    ensures Place(b, kind, value).1 == Key(kind, Count(b.unique, kind) + 1)
    ensures Count(Place(b, kind, value).0.unique, kind) == Count(b.unique, kind) + 1
  {}

  /** Placing another value keeps a text new and lowers no counter. */
  lemma PlaceOther(b: Book, kind: string, value: string, text: string, other: string)
    ensures IsNew(b, text) && value != text ==> IsNew(Place(b, kind, value).0, text)
    ensures Count(Place(b, kind, value).0.unique, other) >= Count(b.unique, other)
  {}

  /** The fragment's text is not repeated behind it. */
  ghost predicate IsLast(sel: seq<Span>, i: nat) {
    i < |sel| && forall j :: i < j < |sel| ==> sel[j].text != sel[i].text
  }

  lemma LastOfFront(sel: seq<Span>, i: nat)
    requires IsLast(sel, i) && i < |sel| - 1
    ensures IsLast(sel[..|sel| - 1], i) && sel[|sel| - 1].text != sel[i].text
  {}

  /** A new text gets a number above those in use. */
  lemma {:induction false} NumberOfLast(b: Book, sel: seq<Span>, i: nat) returns (n: nat)
    requires IsLast(sel, i) && IsNew(b, sel[i].text)
    ensures n > Count(b.unique, sel[i].kind) && KeysFor(b, sel)[i] == Key(sel[i].kind, n)
    decreases |sel|
  {
    var k := |sel| - 1;
    if i == k {
      PlaceNew(b, sel[k].kind, sel[k].text);
      n := Count(b.unique, sel[k].kind) + 1;
    } else {
      LastOfFront(sel, i);
      PlaceOther(b, sel[k].kind, sel[k].text, sel[i].text, sel[i].kind);
      n := NumberOfLast(Place(b, sel[k].kind, sel[k].text).0, sel[..k], i);
    }
  }

  /** Among new texts of one label the number falls as the position of the last occurrence rises. */
  lemma {:induction false} NumbersFall(b: Book, sel: seq<Span>, i: nat, j: nat) returns (m: nat, n: nat)
    requires i < j && IsLast(sel, i) && IsLast(sel, j) && sel[i].kind == sel[j].kind
    requires IsNew(b, sel[i].text) && IsNew(b, sel[j].text)
    ensures m < n && KeysFor(b, sel)[j] == Key(sel[j].kind, m) && KeysFor(b, sel)[i] == Key(sel[i].kind, n)
    decreases |sel|
  {
    var k := |sel| - 1;
    var b1 := Place(b, sel[k].kind, sel[k].text).0;
    LastOfFront(sel, i);
    PlaceOther(b, sel[k].kind, sel[k].text, sel[i].text, sel[i].kind);
    if j == k {
      PlaceNew(b, sel[k].kind, sel[k].text);
      m := Count(b.unique, sel[k].kind) + 1;
      n := NumberOfLast(b1, sel[..k], i);
    } else {
      LastOfFront(sel, j);
      PlaceOther(b, sel[k].kind, sel[k].text, sel[j].text, sel[j].kind);
      m, n := NumbersFall(b1, sel[..k], i, j);
    }
  }

  // ---------------------------------------------------------------- when numbers rise in the order of the text

  ghost predicate IsFirst(sel: seq<Span>, i: nat) {
    i < |sel| && forall j :: 0 <= j < i ==> sel[j].text != sel[i].text
  }

  /** The last position up to `j` at which the text at `i` stands. */
  function LastUpTo(sel: seq<Span>, i: nat, j: nat): (l: nat)
    requires i <= j < |sel|
    ensures i <= l <= j && sel[l].text == sel[i].text
    ensures forall p :: l < p <= j ==> sel[p].text != sel[i].text
    decreases j
  {
    if sel[j].text == sel[i].text then j else LastUpTo(sel, i, j - 1)
  }

  function LastOf(sel: seq<Span>, i: nat): nat
    requires i < |sel|
  {
    LastUpTo(sel, i, |sel| - 1)
  }

  /** Two new texts of one label, the first of them appearing first. */
  ghost predicate IsPair(b: Book, sel: seq<Span>, i: nat, j: nat) {
    && i < j < |sel| && IsFirst(sel, i) && IsFirst(sel, j) && sel[i].kind == sel[j].kind
    && IsNew(b, sel[i].text) && IsNew(b, sel[j].text)
  }

  ghost predicate Rises(b: Book, sel: seq<Span>, i: nat, j: nat)
    requires i < j < |sel|
  {
    exists m: nat, n: nat {:trigger Key(sel[i].kind, m), Key(sel[j].kind, n)} ::
      m < n && KeysFor(b, sel)[i] == Key(sel[i].kind, m) && KeysFor(b, sel)[j] == Key(sel[j].kind, n)
  }

  /** New texts of one label are numbered in the order in which they appear. */
  ghost predicate NumberedInOrder(b: Book, sel: seq<Span>) {
    forall i, j :: IsPair(b, sel, i, j) ==> Rises(b, sel, i, j)
  }

  /** They disappear in the opposite order. */
  ghost predicate LastsFall(b: Book, sel: seq<Span>) {
    forall i, j :: IsPair(b, sel, i, j) ==> LastOf(sel, i) > LastOf(sel, j)
  }

  /** The label depends on the text alone, as it does for the fragments a rule takes. */
  ghost predicate KindsByText(sel: seq<Span>) {
    forall i, j :: 0 <= i < |sel| && 0 <= j < |sel| && sel[i].text == sel[j].text ==> sel[i].kind == sel[j].kind
  }

  /** Fragments of the same text get the same placeholder. */
  lemma SameTextSameKey(f: string -> Option<Hit>, b: Book, out: string, sel: seq<Span>, i: nat, j: nat)
    requires IsGrammar(f) && Valid(f, b) && OrderedSpans(sel, |out|) && Matched(f, out, sel)
    requires i < |sel| && j < |sel| && sel[i].text == sel[j].text
    ensures KeysFor(b, sel)[i] == KeysFor(b, sel)[j]
  {
    ReplaceAllBooks(f, b, out, sel);
    ReplaceAllRestores(f, b, out, sel);
    var m, keys := ReplaceAll(b, out, sel).0.originals, KeysFor(b, sel);
    assert keys[i] in m && keys[j] in m && m[keys[i]] == m[keys[j]];
  }

  lemma PairRisesExactly(f: string -> Option<Hit>, b: Book, out: string, sel: seq<Span>, i: nat, j: nat)
    requires IsGrammar(f) && Valid(f, b) && OrderedSpans(sel, |out|) && Matched(f, out, sel) && KindsByText(sel)
    requires IsPair(b, sel, i, j)
    ensures Rises(b, sel, i, j) <==> LastOf(sel, i) > LastOf(sel, j)
  {
    var p, q := LastOf(sel, i), LastOf(sel, j);
    SameTextSameKey(f, b, out, sel, i, p);
    SameTextSameKey(f, b, out, sel, j, q);
    if p > q {
      var m, n := NumbersFall(b, sel, q, p);
      assert KeysFor(b, sel)[i] == Key(sel[i].kind, m) && KeysFor(b, sel)[j] == Key(sel[j].kind, n);
    } else {
      var m, n := NumbersFall(b, sel, p, q);
      NotRising(b, sel, i, j, m, n);
    }
  }

  lemma NotRising(b: Book, sel: seq<Span>, i: nat, j: nat, m: nat, n: nat)
    requires i < j < |sel| && ValidLabel(sel[i].kind) && sel[i].kind == sel[j].kind && m < n
    requires KeysFor(b, sel)[j] == Key(sel[j].kind, m) && KeysFor(b, sel)[i] == Key(sel[i].kind, n)
    ensures !Rises(b, sel, i, j)
  {
    forall m': nat, n': nat | KeysFor(b, sel)[i] == Key(sel[i].kind, m') && KeysFor(b, sel)[j] == Key(sel[j].kind, n')
      ensures m' == n && n' == m
    {
      KeyInjective(sel[i].kind, m', sel[i].kind, n);
      KeyInjective(sel[j].kind, n', sel[j].kind, m);
    }
  }

  lemma NumberingExactly(f: string -> Option<Hit>, b: Book, out: string, sel: seq<Span>)
    requires IsGrammar(f) && Valid(f, b) && OrderedSpans(sel, |out|) && Matched(f, out, sel) && KindsByText(sel)
    ensures NumberedInOrder(b, sel) <==> LastsFall(b, sel)
  {
    forall i: nat, j: nat | IsPair(b, sel, i, j)
      ensures Rises(b, sel, i, j) <==> LastOf(sel, i) > LastOf(sel, j)
    { PairRisesExactly(f, b, out, sel, i, j); }
  }

  lemma SelectedKinds(f: string -> Option<Hit>, r: Rule, out: string, spans: seq<(nat, nat)>)
    requires IsGrammar(f) && InRange(spans, |out|)
    ensures KindsByText(Select(f, r, out, spans))
  {
    var sel := Select(f, r, out, spans);
    forall i | 0 <= i < |sel|
      ensures r.accept(sel[i].text) == Some(sel[i].kind)
    {
      assert sel[i] in sel;
      SelectExactly(f, r, out, spans, sel[i]);
    }
  }

  /** One rule on one text: the new texts of each label are numbered in the order of the text if and only
      if those that appear first are the last to be repeated. */
  lemma RuleNumbersExactly(f: string -> Option<Hit>, b: Book, r: Rule, out: string)
    requires IsGrammar(f) && Valid(f, b) && ValidRule(r)
    ensures InRange(r.find(out), |out|)
    ensures var sel := Select(f, r, out, r.find(out)); NumberedInOrder(b, sel) <==> LastsFall(b, sel)
  {
    SelectIsReplaceable(f, r, out, r.find(out));
    SelectedKinds(f, r, out, r.find(out));
    NumberingExactly(f, b, out, Select(f, r, out, r.find(out)));
  }

  /** Where no text is repeated, that is if and only if no label has more than one new text. */
  lemma DistinctFallExactly(b: Book, sel: seq<Span>)
    requires forall i, j :: 0 <= i < j < |sel| ==> sel[i].text != sel[j].text
    ensures LastsFall(b, sel) <==>
            forall i, j :: 0 <= i < j < |sel| && sel[i].kind == sel[j].kind ==> !(IsNew(b, sel[i].text) && IsNew(b, sel[j].text))
  {
    forall i: nat | i < |sel|
      ensures LastOf(sel, i) == i && IsFirst(sel, i)
    {}
    forall i: nat, j: nat | i < j < |sel|
      ensures IsPair(b, sel, i, j) <==> sel[i].kind == sel[j].kind && IsNew(b, sel[i].text) && IsNew(b, sel[j].text)
    {}
  }

  // ---------------------------------------------------------------- two tax numbers

  const OTHER := "5260250274"

  /** Two and three texts with spaces between them. */
  function Two(a: string, b: string): string {
    a + (" " + b)
  }

  function Three(a: string, b: string, c: string): string {
    a + (" " + Two(b, c))
  }

  lemma OtherIsValid(k: Classes, value: char -> nat)
    requires IsValue(value)
    ensures TenDigits(OTHER) && NipOk(k, value, OTHER)
  {
    DigitsOfDigits(k, value, OTHER);
    var d := Digits(k, value, OTHER);
    assert d[0] == 5 && d[1] == 2 && d[2] == 6 && d[3] == 0 && d[4] == 2;
    assert d[5] == 5 && d[6] == 0 && d[7] == 2 && d[8] == 7 && d[9] == 4;
  }

  /** A number at `i` that ends the text or is followed by a space and the rest. */
  lemma NumberThen(k: Classes, s: string, i: nat)
    requires i + 10 <= |s| && TenDigits(s[i..i + 10]) && (i == 0 || s[i - 1] == ' ') && (i + 10 == |s| || s[i + 10] == ' ')
    ensures FindNips(k, s, i) == [(i, i + 10)] + if i + 10 == |s| then [] else FindNips(k, s, i + 11)
  {
    NumberHere(k, s, i);
    if i + 10 < |s| { NoNumberHere(k, s, i + 10); }
  }

  lemma TwoPieces(a: string, b: string)
    requires TenDigits(a) && TenDigits(b)
    ensures var t := Two(a, b);
            && |t| == 21 && t[0..10] == a && t[11..21] == b && t[10] == ' '
            && forall i :: 0 <= i < |t| ==> t[i] != '['
  {}

  lemma ThreePieces(a: string, b: string, c: string)
    requires TenDigits(a) && TenDigits(b) && TenDigits(c)
    ensures var t := Three(a, b, c);
            && |t| == 32 && t[0..10] == a && t[11..21] == b && t[22..32] == c && t[10] == ' ' && t[21] == ' '
            && forall i :: 0 <= i < |t| ==> t[i] != '['
  {
    TwoPieces(b, c);
    var t, u := Three(a, b, c), Two(b, c);
    assert t[11..] == u;
    assert forall i :: 11 <= i < 32 ==> t[i] == u[i - 11];
    assert t[11..21] == u[0..10] && t[22..32] == u[11..21];
  }

  lemma TwoNumbers(k: Classes, s: string)
    requires |s| == 21 && TenDigits(s[0..10]) && TenDigits(s[11..21]) && s[10] == ' '
    ensures FindNips(k, s, 0) == [(0, 10), (11, 21)]
  {
    NumberThen(k, s, 0);
    NumberThen(k, s, 11);
  }

  lemma ThreeNumbers(k: Classes, s: string)
    requires |s| == 32 && TenDigits(s[0..10]) && TenDigits(s[11..21]) && TenDigits(s[22..32]) && s[10] == ' ' && s[21] == ' '
    ensures FindNips(k, s, 0) == [(0, 10), (11, 21), (22, 32)]
  {
    NumberThen(k, s, 0);
    NumberThen(k, s, 11);
    NumberThen(k, s, 22);
    assert [(11, 21)] + [(22, 32)] == [(11, 21), (22, 32)];
  }

  /** A text without brackets has no placeholder to overlap. */
  lemma NothingToOverlap(f: string -> Option<Hit>, t: string, a: nat, b: nat)
    requires IsGrammar(f) && forall i :: 0 <= i < |t| ==> t[i] != '['
    ensures !Overlaps(FindAll(f, t, 0), a, b)
  {
    NoBracketIsPlain(f, t);
    var hits := FindAll(f, t, 0);
    if hits != [] {
      FindAllExact(f, t, 0, hits[0].0, hits[0].1);
    }
  }

  lemma Taken(k: Classes, value: char -> nat, f: string -> Option<Hit>, t: string, a: nat, b: nat)
    requires IsGrammar(f) && (forall i :: 0 <= i < |t| ==> t[i] != '[')
    requires a <= b <= |t| && NipOk(k, value, t[a..b])
    ensures TakenAs(f, NipRule(k, value), t, a, b) == Some("NIP")
  {
    NothingToOverlap(f, t, a, b);
  }

  lemma SelectSnoc(f: string -> Option<Hit>, r: Rule, out: string, spans: seq<(nat, nat)>, a: nat, b: nat, kind: string)
    requires InRange(spans, |out|) && a <= b <= |out| && TakenAs(f, r, out, a, b) == Some(kind)
    ensures Select(f, r, out, spans + [(a, b)]) == Select(f, r, out, spans) + [Span(a, b, kind, out[a..b])]
  {
    assert (spans + [(a, b)])[..|spans|] == spans;
  }

  lemma SelectTwo(f: string -> Option<Hit>, r: Rule, out: string, x: (nat, nat), y: (nat, nat), kind: string)
    requires x.0 <= x.1 <= |out| && y.0 <= y.1 <= |out|
    requires TakenAs(f, r, out, x.0, x.1) == Some(kind) && TakenAs(f, r, out, y.0, y.1) == Some(kind)
    ensures Select(f, r, out, [x, y]) == [Span(x.0, x.1, kind, out[x.0..x.1]), Span(y.0, y.1, kind, out[y.0..y.1])]
  {
    SelectOne(f, r, out, x.0, x.1, kind);
    SelectSnoc(f, r, out, [x], y.0, y.1, kind);
    assert [x] + [y] == [x, y];
  }

  lemma SelectThree(f: string -> Option<Hit>, r: Rule, out: string, x: (nat, nat), y: (nat, nat), z: (nat, nat), kind: string)
    requires x.0 <= x.1 <= |out| && y.0 <= y.1 <= |out| && z.0 <= z.1 <= |out|
    requires TakenAs(f, r, out, x.0, x.1) == Some(kind) && TakenAs(f, r, out, y.0, y.1) == Some(kind)
    requires TakenAs(f, r, out, z.0, z.1) == Some(kind)
    ensures Select(f, r, out, [x, y, z]) ==
            [Span(x.0, x.1, kind, out[x.0..x.1]), Span(y.0, y.1, kind, out[y.0..y.1]), Span(z.0, z.1, kind, out[z.0..z.1])]
  {
    SelectTwo(f, r, out, x, y, kind);
    SelectSnoc(f, r, out, [x, y], z.0, z.1, kind);
    assert [x, y] + [z] == [x, y, z];
  }

  /** What the rule takes from a text. */
  function Numbers(k: Classes, value: char -> nat, f: string -> Option<Hit>, t: string): seq<Span> {
    FindNipsOrdered(k, t, 0);
    Select(f, NipRule(k, value), t, NipRule(k, value).find(t))
  }

  /** A valid number without separators. */
  ghost predicate IsNumber(k: Classes, value: char -> nat, s: string) {
    TenDigits(s) && NipOk(k, value, s)
  }

  lemma TwoSelected(k: Classes, value: char -> nat, f: string -> Option<Hit>, a: string, b: string)
    requires IsGrammar(f) && IsNumber(k, value, a) && IsNumber(k, value, b)
    ensures Numbers(k, value, f, Two(a, b)) == [Span(0, 10, "NIP", a), Span(11, 21, "NIP", b)]
  {
    var t := Two(a, b);
    TwoPieces(a, b);
    TwoNumbers(k, t);
    Taken(k, value, f, t, 0, 10);
    Taken(k, value, f, t, 11, 21);
    SelectTwo(f, NipRule(k, value), t, (0, 10), (11, 21), "NIP");
  }

  lemma ThreeSelected(k: Classes, value: char -> nat, f: string -> Option<Hit>, a: string, b: string, c: string)
    requires IsGrammar(f) && IsNumber(k, value, a) && IsNumber(k, value, b) && IsNumber(k, value, c)
    ensures Numbers(k, value, f, Three(a, b, c)) == [Span(0, 10, "NIP", a), Span(11, 21, "NIP", b), Span(22, 32, "NIP", c)]
  {
    var t := Three(a, b, c);
    ThreePieces(a, b, c);
    ThreeNumbers(k, t);
    Taken(k, value, f, t, 0, 10);
    Taken(k, value, f, t, 11, 21);
    Taken(k, value, f, t, 22, 32);
    SelectThree(f, NipRule(k, value), t, (0, 10), (11, 21), (22, 32), "NIP");
  }

  lemma TwoKeys(b: Book, first: Span, last: Span)
    requires IsNew(b, first.text) && IsNew(b, last.text) && first.text != last.text && first.kind == last.kind
    ensures var n := Count(b.unique, first.kind);
            KeysFor(b, [first, last]) == [Key(first.kind, n + 2), Key(first.kind, n + 1)]
  {
    PlaceNew(b, last.kind, last.text);
    PlaceOther(b, last.kind, last.text, first.text, first.kind);
    var b1 := Place(b, last.kind, last.text).0;
    PlaceNew(b1, first.kind, first.text);
    assert [first, last][..1] == [first] && [first][..0] == [];
    assert KeysFor(b1, [first]) == [Key(first.kind, Count(b1.unique, first.kind) + 1)];
  }

  lemma TwoAreReversedHere(first: Span, last: Span)
    requires first.text != last.text && first.kind == last.kind && ValidLabel(first.kind)
    ensures KeysFor(EMPTY, [first, last]) == [Key(first.kind, 2), Key(first.kind, 1)]
    ensures !NumberedInOrder(EMPTY, [first, last])
  {
    TwoKeys(EMPTY, first, last);
    var sel := [first, last];
    NotRising(EMPTY, sel, 0, 1, 1, 2);
    assert IsPair(EMPTY, sel, 0, 1);
  }

  /** Two different numbers: the one that stands first is called `[NIP#2]`. */
  lemma TwoAreReversed(k: Classes, value: char -> nat, f: string -> Option<Hit>, a: string, b: string)
    requires IsGrammar(f) && IsNumber(k, value, a) && IsNumber(k, value, b) && a != b
    ensures KeysFor(EMPTY, Numbers(k, value, f, Two(a, b))) == [Key("NIP", 2), Key("NIP", 1)]
    ensures !NumberedInOrder(EMPTY, Numbers(k, value, f, Two(a, b)))
  {
    NipIsLabel();
    TwoSelected(k, value, f, a, b);
    TwoAreReversedHere(Span(0, 10, "NIP", a), Span(11, 21, "NIP", b));
  }

  lemma FirstRepeated(sel: seq<Span>)
    requires |sel| == 3 && sel[0].text == sel[2].text && sel[0].text != sel[1].text
    ensures LastsFall(EMPTY, sel)
  {
    assert LastOf(sel, 0) == 2 && LastOf(sel, 1) == 1;
    assert !IsFirst(sel, 2);
  }

  /** If the first is repeated behind the other, the order of the text is kept. */
  lemma ThreeKeepTheOrder(k: Classes, value: char -> nat, f: string -> Option<Hit>, a: string, b: string)
    requires IsGrammar(f) && IsNumber(k, value, a) && IsNumber(k, value, b) && a != b
    ensures NumberedInOrder(EMPTY, Numbers(k, value, f, Three(a, b, a)))
  {
    NipRuleIsValid(k, value);
    ThreeSelected(k, value, f, a, b, a);
    EmptyIsValid(f);
    RuleNumbersExactly(f, EMPTY, NipRule(k, value), Three(a, b, a));
    FirstRepeated(Numbers(k, value, f, Three(a, b, a)));
  }

  /** There are two such numbers. */
  lemma TwoNumbersExist(k: Classes, value: char -> nat)
    requires IsValue(value)
    ensures IsNumber(k, value, NUMBER) && IsNumber(k, value, OTHER) && NUMBER != OTHER
  {
    NumberIsValid(k, value);
    OtherIsValid(k, value);
    assert NUMBER[0] != OTHER[0];
  }
}
