/**
 The cascading "contains -> replace" substitution that normalises the
 insurance-plan column. Rules are tried in table order; a rule whose
 pattern occurs in the lower-cased CURRENT value replaces the whole value
 by its replacement, and the next rule is tested against that result.
 */
module Mapping {
  import opened Wrappers
  import opened Text

  /** A spreadsheet cell of the plan column: text, or missing (NaN). */
  datatype Cell = Str(text: string) | NaN

  /**
   `astype(str)`: a text cell keeps its text and a missing cell becomes
   "nan", so afterwards a missing cell and the text "nan" look the same.
   */
  function CellText(c: Cell): (r: string)
    ensures c.Str? ==> r == c.text
    ensures r == "nan" <==> c == NaN || c == Str("nan")
  {
    match c
    case Str(t) => t
    case NaN => "nan"
  }

  /** One row of the mapping sheet: ReplaceLowerContains and ReplaceTo. */
  datatype Rule = Rule(pattern: string, replacement: string)

  /** The rule's pattern occurs in the lower-cased value (the pattern itself is not lower-cased). */
  function Matches(rule: Rule, v: string): (r: bool)
    ensures r <==> exists i :: OccursAt(rule.pattern, Lower(v), i)
    ensures rule.pattern == [] ==> r
    ensures |rule.pattern| > |v| ==> !r
  {
    assert OccursAt(rule.pattern, Lower(v), 0) <== rule.pattern == [];
    Contains(Lower(v), rule.pattern)
  }

  /** Only the lower-cased value is looked at: a value and its lower-cased form match the same rules. */
  lemma MatchIgnoresValueCase(rule: Rule, v: string)
    ensures Matches(rule, v) == Matches(rule, Lower(v))
  {
    LowerIdempotent(v);
  }

  /** The pattern "cat" matches the values "CAT" and "Cat". */
  lemma MatchesAnyCaseOfValue(to: string)
    ensures Matches(Rule("cat", to), "CAT") && Matches(Rule("cat", to), "Cat")
  {
    var up := Lower("CAT");
    assert up[0] == 'c' && up[1] == 'a' && up[2] == 't';
    assert up[0..3] == "cat";
    assert OccursAt("cat", up, 0);
    var mixed := Lower("Cat");
    assert mixed[0] == 'c' && mixed[1] == 'a' && mixed[2] == 't';
    assert mixed[0..3] == "cat";
    assert OccursAt("cat", mixed, 0);
  }

  /** One iteration of the rule loop applied to one value. */
  function Step(rule: Rule, v: string): (r: string)
    ensures r == v || r == rule.replacement
  {
    if Matches(rule, v) then rule.replacement else v
  }

  /**
   The value after rules[0], ..., rules[|rules| - 1] have been applied in
   order. A match overwrites the whole value, so the result is the input or
   one rule's replacement as a whole, never a splice.
   */
  function Cascade(rules: seq<Rule>, v: string): (r: string)
    ensures r == v || exists j :: 0 <= j < |rules| && r == rules[j].replacement
  {
    if rules == [] then v
    else Step(rules[|rules| - 1], Cascade(rules[..|rules| - 1], v))
  }

  /** Rule `i` fires: its pattern occurs in the value produced by rules 0..i-1. */
  predicate Fires(rules: seq<Rule>, v: string, i: nat)
    requires i < |rules|
  {
    Matches(rules[i], Cascade(rules[..i], v))
  }

  /** The last rule below index `n` that fires at its step, if any. */
  function LastFiringBelow(rules: seq<Rule>, v: string, n: nat): (r: Option<nat>)
    requires n <= |rules|
    ensures r.Some? ==> r.value < n && Fires(rules, v, r.value)
    ensures r.Some? ==> forall j :: r.value < j < n ==> !Fires(rules, v, j)
    ensures r.None? ==> forall j :: 0 <= j < n ==> !Fires(rules, v, j)
  {
    if n == 0 then None
    else if Fires(rules, v, n - 1) then Some(n - 1)
    else LastFiringBelow(rules, v, n - 1)
  }

  /** The last rule that fires at its step, if any. */
  function LastFiring(rules: seq<Rule>, v: string): (r: Option<nat>)
    ensures r.Some? ==> r.value < |rules| && Fires(rules, v, r.value)
    ensures r.Some? ==> forall j :: r.value < j < |rules| ==> !Fires(rules, v, j)
    ensures r.None? ==> forall j :: 0 <= j < |rules| ==> !Fires(rules, v, j)
  {
    LastFiringBelow(rules, v, |rules|)
  }

  /** Applying `r1 ++ r2` is applying `r1`, then `r2` to its result. */
  lemma {:induction false} CascadeSplit(r1: seq<Rule>, r2: seq<Rule>, v: string)
    ensures Cascade(r1 + r2, v) == Cascade(r2, Cascade(r1, v))
    decreases |r2|
  {
    if r2 == [] {
      assert r1 + r2 == r1;
    } else {
      var front := r2[..|r2| - 1];
      assert (r1 + r2)[..|r1 + r2| - 1] == r1 + front;
      CascadeSplit(r1, front, v);
    }
  }

  /** Read front to back: the first rule's output is the input of the rest of the table. */
  lemma CascadeFirst(rule: Rule, rest: seq<Rule>, v: string)
    ensures Cascade([rule] + rest, v) == Cascade(rest, Step(rule, v))
  {
    CascadeSplit([rule], rest, v);
    assert [rule][..0] == [];
  }

  /** A value that no pattern occurs in passes through unchanged; in particular with an empty table. */
  lemma {:induction false} PassThrough(rules: seq<Rule>, v: string)
    requires forall j :: 0 <= j < |rules| ==> !Matches(rules[j], v)
    ensures Cascade(rules, v) == v
  {
    if rules != [] {
      PassThrough(rules[..|rules| - 1], v);
    }
  }

  /** The first `k + 1` rules are the first `k` followed by one more step. */
  lemma CascadePrefixStep(rules: seq<Rule>, v: string, k: nat)
    requires k < |rules|
    ensures Cascade(rules[..k + 1], v) == Step(rules[k], Cascade(rules[..k], v))
  {
    assert rules[..k + 1][..k] == rules[..k];
  }

  /** Rules that do not fire leave the value produced before them alone. */
  lemma {:induction false} CascadeNoFiring(rules: seq<Rule>, v: string, i: nat, k: nat)
    requires i <= k <= |rules|
    requires forall j :: i <= j < k ==> !Fires(rules, v, j)
    ensures Cascade(rules[..k], v) == Cascade(rules[..i], v)
    decreases k - i
  {
    if i < k {
      CascadeNoFiring(rules, v, i, k - 1);
      CascadePrefixStep(rules, v, k - 1);
      assert !Fires(rules, v, k - 1);
    }
  }

  /** The result is the original value if no rule fired, else the replacement of the last rule that fired. */
  lemma CascadeIsLastFiring(rules: seq<Rule>, v: string)
    ensures Cascade(rules, v) == match LastFiring(rules, v)
                                 case None => v
                                 case Some(i) => rules[i].replacement
  {
    assert rules[..|rules|] == rules;
    match LastFiring(rules, v)
    case None =>
      CascadeNoFiring(rules, v, 0, |rules|);
      assert rules[..0] == [];
    case Some(i) =>
      CascadePrefixStep(rules, v, i);
      CascadeNoFiring(rules, v, i + 1, |rules|);
  }

  /** A pattern holding an upper-case letter never occurs in a lower-cased value. */
  lemma UpperPatternNeverMatches(rule: Rule, v: string)
    requires exists j :: 0 <= j < |rule.pattern| && IsUpper(rule.pattern[j])
    ensures !Matches(rule, v)
    ensures Step(rule, v) == v
  {
  }

  /** Such a rule can be removed from anywhere in the table without changing any result. */
  lemma UpperPatternRuleInert(r1: seq<Rule>, rule: Rule, r2: seq<Rule>, v: string)
    requires exists j :: 0 <= j < |rule.pattern| && IsUpper(rule.pattern[j])
    ensures Cascade(r1 + [rule] + r2, v) == Cascade(r1 + r2, v)
  {
    CascadeSplit(r1 + [rule], r2, v);
    CascadeSplit(r1, [rule], v);
    CascadeSplit(r1, r2, v);
    UpperPatternNeverMatches(rule, Cascade(r1, v));
    assert [rule][..0] == [];
  }

  /** An empty pattern occurs in every value: everything before such a rule is forgotten. */
  lemma EmptyPatternResets(r1: seq<Rule>, to: string, r2: seq<Rule>, v: string)
    ensures Cascade(r1 + [Rule("", to)] + r2, v) == Cascade(r2, to)
  {
    var rule := Rule("", to);
    CascadeSplit(r1 + [rule], r2, v);
    CascadeSplit(r1, [rule], v);
    assert [rule][..0] == [];
    assert OccursAt("", Lower(Cascade(r1, v)), 0);
  }

  /** Re-running the table changes nothing when every replacement is itself left alone by the table. */
  lemma Idempotent(rules: seq<Rule>, v: string)
    requires forall j :: 0 <= j < |rules| ==> Cascade(rules, rules[j].replacement) == rules[j].replacement
    ensures Cascade(rules, Cascade(rules, v)) == Cascade(rules, v)
  {
    CascadeIsLastFiring(rules, v);
    if LastFiring(rules, v).None? {
      assert Cascade(rules, v) == v;
    }
  }

  /** Two rules applied to "cat": the second rule matches the first one's output (not first-match-wins). */
  lemma CascadeExample()
    ensures Step(Rule("a", "X"), "cat") == "X"
    ensures Cascade([Rule("a", "X"), Rule("x", "Y")], "cat") == "Y"
  {
    assert OccursAt("a", Lower("cat"), 1);
    assert OccursAt("x", Lower("X"), 0);
    CascadeFirst(Rule("a", "X"), [Rule("x", "Y")], "cat");
  }

  /** A table with no replacement cycle can still change its own output when re-run. */
  lemma ReRunCanChange()
    ensures var rules := [Rule("b", "c"), Rule("a", "b")];
            Cascade(rules, "a") == "b" && Cascade(rules, "b") == "c"
  {
    assert OccursAt("a", Lower("a"), 0);
    assert OccursAt("b", Lower("b"), 0);
    assert !Matches(Rule("b", "c"), "a");
    assert !Matches(Rule("a", "b"), "c");
    CascadeFirst(Rule("b", "c"), [Rule("a", "b")], "a");
    CascadeFirst(Rule("b", "c"), [Rule("a", "b")], "b");
  }
}
