/**
 * The stylesheet and its two lookups: the point lookup a renderer performs, and the
 * ordered candidate lookup the cascade uses.
 */
module Stylesheets {
  import opened Rules
  import opened Properties
  import opened Ordering

  datatype Stylesheet = Stylesheet(rules: map<Rule, PropertySet>, isFullyQualified: bool)

  // ---------------------------------------------------------------------------------------
  // Candidate lookup (`getPropertySets`)

  /** The rules of `rules` compatible with `reference`, each once, in descending rank. */
  function CandidateRules(rules: map<Rule, PropertySet>, reference: Rule, rank: Rank): (cs: seq<Rule>)
    requires InjectiveOn(rank, rules.Keys)
    ensures forall r :: r in cs <==> r in rules && Compatible(r, reference)
    ensures |cs| == |set r | r in rules && Compatible(r, reference)|
    ensures Descending(cs, rank)
  {
    SortedDescending((set r | r in rules && Compatible(r, reference)), rank)
  }

  /** The property sets of the candidate rules for `reference`, most highly ranked first. */
  function GetPropertySets(rules: map<Rule, PropertySet>, reference: Rule, rank: Rank): (sets: seq<PropertySet>)
    requires InjectiveOn(rank, rules.Keys)
    ensures |sets| == |CandidateRules(rules, reference, rank)|
    ensures forall i :: 0 <= i < |sets| ==> sets[i] == rules[CandidateRules(rules, reference, rank)[i]]
  {
    var cs := CandidateRules(rules, reference, rank);
    seq(|cs|, i requires 0 <= i < |cs| => rules[cs[i]])
  }

  /**
   * What the candidate lookup returns, said without the sort: one property set per
   * compatible rule, and nothing else.
   */
  lemma GetPropertySetsExact(rules: map<Rule, PropertySet>, reference: Rule, rank: Rank)
    requires InjectiveOn(rank, rules.Keys)
    ensures |GetPropertySets(rules, reference, rank)| == |set r | r in rules && Compatible(r, reference)|
    ensures forall r :: r in rules && Compatible(r, reference) ==>
      exists i :: 0 <= i < |GetPropertySets(rules, reference, rank)| &&
        GetPropertySets(rules, reference, rank)[i] == rules[r]
    ensures forall i :: 0 <= i < |GetPropertySets(rules, reference, rank)| ==>
      exists r :: r in rules && Compatible(r, reference) && GetPropertySets(rules, reference, rank)[i] == rules[r]
  {
    CandidateSetsComplete(rules, reference, rank);
    CandidateSetsSound(rules, reference, rank);
  }

  lemma CandidateSetsComplete(rules: map<Rule, PropertySet>, reference: Rule, rank: Rank)
    requires InjectiveOn(rank, rules.Keys)
    ensures forall r :: r in rules && Compatible(r, reference) ==>
      exists i :: 0 <= i < |GetPropertySets(rules, reference, rank)| &&
        GetPropertySets(rules, reference, rank)[i] == rules[r]
  {
    var sets := GetPropertySets(rules, reference, rank);
    var cs := CandidateRules(rules, reference, rank);
    forall r | r in rules && Compatible(r, reference)
      ensures exists i :: 0 <= i < |sets| && sets[i] == rules[r]
    {
      var i :| 0 <= i < |cs| && cs[i] == r;
      assert sets[i] == rules[r];
    }
  }

  lemma CandidateSetsSound(rules: map<Rule, PropertySet>, reference: Rule, rank: Rank)
    requires InjectiveOn(rank, rules.Keys)
    ensures forall i :: 0 <= i < |GetPropertySets(rules, reference, rank)| ==>
      exists r :: r in rules && Compatible(r, reference) && GetPropertySets(rules, reference, rank)[i] == rules[r]
  {
    var sets := GetPropertySets(rules, reference, rank);
    var cs := CandidateRules(rules, reference, rank);
    forall i | 0 <= i < |sets|
      ensures exists r :: r in rules && Compatible(r, reference) && sets[i] == rules[r]
    {
      var r := cs[i];
      assert r in cs;
      assert r in rules && Compatible(r, reference) && sets[i] == rules[r];
    }
  }

  // ---------------------------------------------------------------------------------------
  // Point lookup (`getPropertySet`)

  /** `r` matches `q` and no matching rule of the element outranks it. */
  ghost predicate IsFirstMatch(rules: map<Rule, PropertySet>, rank: Rank, q: Query, r: Rule) {
    && r in rules && r.element == q.element && Matches(r, q)
    && forall o :: o in rules && o.element == q.element && Matches(o, q) ==> rank(o) <= rank(r)
  }

  /** `r` is the least ranked rule of `element`. */
  ghost predicate IsLastOfElement(rules: map<Rule, PropertySet>, rank: Rank, element: string, r: Rule) {
    && r in rules && r.element == element
    && forall o :: o in rules && o.element == element ==> rank(r) <= rank(o)
  }

  ghost predicate AnyMatch(rules: map<Rule, PropertySet>, q: Query) {
    exists r :: r in rules && r.element == q.element && Matches(r, q)
  }

  ghost predicate HasElement(rules: map<Rule, PropertySet>, element: string) {
    exists r :: r in rules && r.element == element
  }

  /** The rules of `element`, each once, in descending rank (`possibleRules`). */
  ghost predicate ElementRulesDescending(rules: map<Rule, PropertySet>, rank: Rank, element: string, possible: seq<Rule>) {
    && Descending(possible, rank)
    && forall x :: x in possible <==> x in rules && x.element == element
  }

  lemma ScanStopsAtFirstMatch(rules: map<Rule, PropertySet>, rank: Rank, q: Query, possible: seq<Rule>, i: nat)
    requires ElementRulesDescending(rules, rank, q.element, possible)
    requires i < |possible| && Matches(possible[i], q)
    requires forall j :: 0 <= j < i ==> !Matches(possible[j], q)
    ensures IsFirstMatch(rules, rank, q, possible[i])
  {
    assert possible[i] in possible;
    forall o | o in rules && o.element == q.element && Matches(o, q) ensures rank(o) <= rank(possible[i]) {
      assert o in possible;
      var j :| 0 <= j < |possible| && possible[j] == o;
      assert i <= j;
    }
  }

  lemma ScanFindsNoMatch(rules: map<Rule, PropertySet>, rank: Rank, q: Query, possible: seq<Rule>)
    requires ElementRulesDescending(rules, rank, q.element, possible)
    requires forall j :: 0 <= j < |possible| ==> !Matches(possible[j], q)
    ensures !AnyMatch(rules, q)
    ensures |possible| == 0 <==> !HasElement(rules, q.element)
  {
    forall o | o in rules && o.element == q.element ensures !Matches(o, q) && |possible| > 0 {
      assert o in possible;
    }
    if |possible| > 0 {
      assert possible[0] in possible;
    }
  }

  lemma LastIsLeastOfElement(rules: map<Rule, PropertySet>, rank: Rank, element: string, possible: seq<Rule>)
    requires ElementRulesDescending(rules, rank, element, possible)
    requires |possible| > 0
    ensures IsLastOfElement(rules, rank, element, possible[|possible| - 1])
  {
    var last := possible[|possible| - 1];
    assert last in possible;
    forall o | o in rules && o.element == element ensures rank(last) <= rank(o) {
      assert o in possible;
      var j :| 0 <= j < |possible| && possible[j] == o;
      assert j == |possible| - 1 || rank(possible[j]) > rank(last);
    }
  }

  /**
   * Scans the element's rules from the highest rank down and returns the set of the
   * first one that matches; without a match, the set of the element's least ranked rule;
   * for an element without rules, the empty set.
   */
  method GetPropertySet(rules: map<Rule, PropertySet>, rank: Rank, q: Query) returns (ps: PropertySet)
    requires InjectiveOn(rank, rules.Keys)
    ensures AnyMatch(rules, q) ==> exists r :: IsFirstMatch(rules, rank, q, r) && ps == rules[r]
    ensures !AnyMatch(rules, q) && HasElement(rules, q.element) ==>
      exists r :: IsLastOfElement(rules, rank, q.element, r) && ps == rules[r]
    ensures !HasElement(rules, q.element) ==> ps == FallbackPropertySet
  {
    var possible := SortedDescending((set r | r in rules && r.element == q.element), rank);
    assert ElementRulesDescending(rules, rank, q.element, possible);
    var i := 0;
    while i < |possible|
      invariant 0 <= i <= |possible|
      invariant forall j :: 0 <= j < i ==> !Matches(possible[j], q)
    {
      var rule := possible[i];
      if Matches(rule, q) {
        ScanStopsAtFirstMatch(rules, rank, q, possible, i);
        return rules[rule];
      }
      i := i + 1;
    }
    ScanFindsNoMatch(rules, rank, q, possible);
    if |possible| == 0 {
      ps := FallbackPropertySet;
    } else {
      LastIsLeastOfElement(rules, rank, q.element, possible);
      ps := rules[possible[|possible| - 1]];
    }
  }
}
