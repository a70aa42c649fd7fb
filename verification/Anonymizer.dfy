/** The redactor as the object that is mutated by its calls. */
module Anonymizer {
  import opened Basics
  import opened Substitution
  import opened Redaction
  import Placeholders

  datatype Report = Report(entities: map<string, nat>, replacements: map<string, nat>, charsIn: nat, charsOut: nat)

  class Anonimizer {
    const pattern: string -> Option<Hit>
    var originals: map<string, string>
    var unique: map<string, nat>
    var hits: map<string, nat>

    function Contents(): Book
      reads this
    {
      Book(originals, unique, hits)
    }

    ghost predicate IsValid()
      reads this
    {
      IsGrammar(pattern) && Valid(pattern, Contents())
    }

    constructor (k: Placeholders.Classes)
      ensures IsValid() && Contents() == EMPTY && pattern == Placeholders.Pattern(k)
    {
      Placeholders.PatternIsGrammar(k);
      pattern := Placeholders.Pattern(k);
      originals, unique, hits := map[], map[], map[];
    }

    /** Looks a value up among the originals, visiting them in any order. */
    method Find(value: string) returns (key: Option<string>)
      ensures key.Some? ==> key.value in originals && originals[key.value] == value
      ensures key.None? ==> forall k :: k in originals ==> originals[k] != value
    {
      var keys := originals.Keys;
      while keys != {}
        invariant keys <= originals.Keys
        invariant forall k :: k in originals && k !in keys ==> originals[k] != value
        decreases keys
      {
        var k :| k in keys;
        if originals[k] == value {
          return Some(k);
        }
        keys := keys - {k};
      }
      return None;
    }

    /** The placeholder of a value that is already booked, or a new one. */
    method Placeholder(kind: string, value: string) returns (key: string)
      requires IsValid() && ValidLabel(kind) && value != "" && Plain(pattern, value)
      modifies this
      ensures IsValid()
      ensures (Contents(), key) == Place(old(Contents()), kind, value)
    {
      PlaceKeepsValid(pattern, Contents(), kind, value);
      var known := Find(value);
      if known.Some? {
        PlaceKnown(pattern, Contents(), kind, known.value);
        hits := Bump(hits, kind);
        return known.value;
      }
      var n := Count(unique, kind) + 1;
      unique := unique[kind := n];
      key := Key(kind, n);
      originals := originals[key := value];
      hits := Bump(hits, kind);
    }

    /** The inner loop of `redact`: which fragments a rule takes. */
    method Choose(r: Rule, out: string) returns (sel: seq<Span>)
      requires IsGrammar(pattern) && ValidRule(r)
      ensures InRange(r.find(out), |out|) && sel == Select(pattern, r, out, r.find(out))
    {
      var spans := r.find(out);
      sel := [];
      assert Ordered(spans, |out|);
      for i := 0 to |spans|
        invariant sel == Select(pattern, r, out, spans[..i])
      {
        assert spans[..i + 1][..i] == spans[..i];
        var (a, b) := spans[i];
        var taken := TakenAs(pattern, r, out, a, b);
        if taken.Some? {
          sel := sel + [Span(a, b, taken.value, out[a..b])];
        }
      }
      assert spans[..|spans|] == spans;
    }

    /** Puts the placeholders in, last fragment first, so that the earlier spans stay where they are. */
    method Substitute(text: string, sel: seq<Span>) returns (out: string)
      requires IsValid() && OrderedSpans(sel, |text|) && Matched(pattern, text, sel)
      modifies this
      ensures IsValid()
      ensures (Contents(), out) == ReplaceAll(old(Contents()), text, sel)
    {
      out := text;
      var left := sel;
      while left != []
        invariant IsValid()
        invariant OrderedSpans(left, |out|) && Matched(pattern, out, left)
        invariant ReplaceAll(Contents(), out, left) == ReplaceAll(old(Contents()), text, sel)
        decreases |left|
      {
        var last := left[|left| - 1];
        OneReplacement(pattern, Contents(), out, left);
        var key := Placeholder(last.kind, last.text);
        out := out[..last.from] + key + out[last.to..];
        left := left[..|left| - 1];
      }
    }

    /** Redacts a text. `nfc` is the Unicode normalisation applied first. The result restores to the
        normalised text exactly as that text itself would, from now on. */
    method Redact(text: string, nfc: string -> string, rules: seq<Rule>) returns (out: string, report: Report)
      requires IsValid() && ValidRules(rules)
      modifies this
      ensures IsValid()
      ensures text == "" ==> out == "" && Contents() == old(Contents()) && report == Report(map[], map[], 0, 0)
      ensures text != "" ==> (Contents(), out) == ApplyRules(pattern, old(Contents()), rules, nfc(text))
      ensures text != "" ==> report == Report(unique, hits, |text|, |out|)
      ensures Extends(old(originals), originals)
      ensures text != "" ==> Alike(pattern, originals, out, nfc(text))
      ensures text != "" && Plain(pattern, nfc(text)) ==> Restore(pattern, originals, out) == nfc(text)
    {
      if text == "" {
        return "", Report(map[], map[], 0, 0);
      }
      out := nfc(text);
      for i := 0 to |rules|
        invariant IsValid()
        invariant (Contents(), out) == ApplyRules(pattern, old(Contents()), rules[..i], nfc(text))
      {
        assert rules[..i + 1][..i] == rules[..i];
        var sel := Choose(rules[i], out);
        SelectIsReplaceable(pattern, rules[i], out, rules[i].find(out));
        out := Substitute(out, sel);
      }
      assert rules[..|rules|] == rules;
      report := Report(unique, hits, |text|, |out|);
      RedactionRestoresAlike(pattern, old(Contents()), rules, nfc(text));
      if Plain(pattern, nfc(text)) {
        RoundTrip(pattern, old(Contents()), rules, nfc(text), originals);
      }
    }

    /** Restores a text with the map as it is. A text that a redaction left, now or earlier on this
        instance, comes back as the text it was made from, if that held no placeholder; and what
        holds no placeholder of the map is left as it is. */
    method Undo(text: string) returns (back: string)
      requires IsGrammar(pattern)
      ensures back == Restore(pattern, originals, text)
      ensures forall t :: Plain(pattern, t) && Alike(pattern, originals, text, t) ==> back == t
      ensures !Resolves(pattern, originals, text) ==> back == text
    {
      back := Restore(pattern, originals, text);
      forall t | Plain(pattern, t) && Alike(pattern, originals, text, t)
        ensures back == t
      {
        assert Extends(originals, originals);
        RestorePlain(pattern, originals, t);
      }
      if !Resolves(pattern, originals, text) { UnresolvedStays(pattern, originals, text); }
    }
  }
}
