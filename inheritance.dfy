/**
 * An order-free reading of cascade inheritance: the value a property inherits is the one
 * set by the highest-ranked compatible rule that sets it, or implicit-inherit when no
 * compatible rule does. `FirstDefined` over the candidate lookup computes exactly that.
 */
module Inheritance {
  import opened Rules
  import opened Properties
  import opened Ordering
  import opened Stylesheets
  import opened Cascade

  /** Some rule compatible with `reference` sets `name`. */
  ghost predicate AnyDefining(rules: map<Rule, PropertySet>, reference: Rule, name: string) {
    exists o :: o in rules && Compatible(o, reference) && name in rules[o].properties
  }

  /** `c` is the highest-ranked rule compatible with `reference` that sets `name`. */
  ghost predicate NearestDefining(rules: map<Rule, PropertySet>, reference: Rule, rank: Rank, name: string, c: Rule) {
    && c in rules && Compatible(c, reference) && name in rules[c].properties
    && forall o :: o in rules && Compatible(o, reference) && name in rules[o].properties ==> rank(o) <= rank(c)
  }

  lemma NearestDefiningUnique(rules: map<Rule, PropertySet>, reference: Rule, rank: Rank, name: string, c: Rule, d: Rule)
    requires InjectiveOn(rank, rules.Keys)
    requires NearestDefining(rules, reference, rank, name, c) && NearestDefining(rules, reference, rank, name, d)
    ensures c == d
  {
    assert rank(c) <= rank(d) && rank(d) <= rank(c);
  }

  /** Where some candidate sets `name`, a first one does. */
  lemma {:induction false} FirstDefiningExists(candidates: seq<PropertySet>, name: string, j: nat)
    requires j < |candidates| && name in candidates[j].properties
    ensures exists i :: FirstDefining(candidates, name, i)
    decreases j
  {
    if forall k :: 0 <= k < j ==> name !in candidates[k].properties {
      assert FirstDefining(candidates, name, j);
    } else {
      var k :| 0 <= k < j && name in candidates[k].properties;
      FirstDefiningExists(candidates, name, k);
    }
  }

  /** `sets` lists the sets of the rules compatible with `reference`, highest rank first. */
  ghost predicate CandidateListing(rules: map<Rule, PropertySet>, reference: Rule, rank: Rank,
                                   cs: seq<Rule>, sets: seq<PropertySet>) {
    && (forall r :: r in cs <==> r in rules && Compatible(r, reference))
    && Descending(cs, rank)
    && |sets| == |cs|
    && (forall k :: 0 <= k < |sets| ==> cs[k] in rules && sets[k] == rules[cs[k]])
  }

  lemma ListingOfLookup(rules: map<Rule, PropertySet>, reference: Rule, rank: Rank)
    requires InjectiveOn(rank, rules.Keys)
    ensures CandidateListing(rules, reference, rank, CandidateRules(rules, reference, rank), GetPropertySets(rules, reference, rank))
  {
  }

  /** In such a listing, the first set defining `name` is the nearest defining rule's. */
  lemma FirstDefiningIsNearest(rules: map<Rule, PropertySet>, reference: Rule, rank: Rank, name: string,
                               cs: seq<Rule>, sets: seq<PropertySet>, i: int)
    requires CandidateListing(rules, reference, rank, cs, sets)
    requires FirstDefining(sets, name, i)
    ensures NearestDefining(rules, reference, rank, name, cs[i])
  {
    var c := cs[i];
    assert c in cs && sets[i] == rules[c];
    forall o | o in rules && Compatible(o, reference) && name in rules[o].properties ensures rank(o) <= rank(c) {
      var j :| 0 <= j < |cs| && cs[j] == o;
      assert sets[j] == rules[o] && name in sets[j].properties;
      assert i <= j;
      if i < j {
        assert rank(cs[i]) > rank(cs[j]);
      }
    }
  }

  /** The nearest defining rule exists exactly when some compatible rule sets `name`. */
  lemma NearestDefiningExists(rules: map<Rule, PropertySet>, reference: Rule, rank: Rank, name: string)
    requires InjectiveOn(rank, rules.Keys)
    ensures AnyDefining(rules, reference, name) <==> exists c :: NearestDefining(rules, reference, rank, name, c)
  {
    if AnyDefining(rules, reference, name) {
      var o :| o in rules && Compatible(o, reference) && name in rules[o].properties;
      var cs := CandidateRules(rules, reference, rank);
      var sets := GetPropertySets(rules, reference, rank);
      ListingOfLookup(rules, reference, rank);
      var j :| 0 <= j < |cs| && cs[j] == o;
      assert sets[j] == rules[o];
      FirstDefiningExists(sets, name, j);
      var i :| FirstDefining(sets, name, i);
      FirstDefiningIsNearest(rules, reference, rank, name, cs, sets, i);
    }
  }

  /** The value `name` inherits among `rules` for a rule like `reference`. */
  ghost function Inherited(rules: map<Rule, PropertySet>, reference: Rule, rank: Rank, name: string): Value
    requires InjectiveOn(rank, rules.Keys)
  {
    NearestDefiningExists(rules, reference, rank, name);
    if AnyDefining(rules, reference, name) then
      var c :| NearestDefining(rules, reference, rank, name, c);
      rules[c].properties[name]
    else ImplicitInherit
  }

  /** The inherited value is the nearest defining rule's. */
  lemma InheritedFromNearest(rules: map<Rule, PropertySet>, reference: Rule, rank: Rank, name: string, c: Rule)
    requires InjectiveOn(rank, rules.Keys)
    requires NearestDefining(rules, reference, rank, name, c)
    ensures Inherited(rules, reference, rank, name) == rules[c].properties[name]
  {
    NearestDefiningExists(rules, reference, rank, name);
    var d :| NearestDefining(rules, reference, rank, name, d) && Inherited(rules, reference, rank, name) == rules[d].properties[name];
    NearestDefiningUnique(rules, reference, rank, name, c, d);
  }

  /** The first defining candidate in the sorted lookup is the order-free inherited value. */
  lemma FirstDefinedIsInherited(rules: map<Rule, PropertySet>, reference: Rule, rank: Rank, name: string)
    requires InjectiveOn(rank, rules.Keys)
    ensures FirstDefined(GetPropertySets(rules, reference, rank), name) == Inherited(rules, reference, rank, name)
  {
    var cs := CandidateRules(rules, reference, rank);
    var sets := GetPropertySets(rules, reference, rank);
    ListingOfLookup(rules, reference, rank);
    NearestDefiningExists(rules, reference, rank, name);
    if AnyDefining(rules, reference, name) {
      var o :| o in rules && Compatible(o, reference) && name in rules[o].properties;
      var j :| 0 <= j < |cs| && cs[j] == o;
      assert sets[j] == rules[o];
      FirstDefiningExists(sets, name, j);
      var i :| FirstDefining(sets, name, i);
      FirstDefiningIsNearest(rules, reference, rank, name, cs, sets, i);
      var c :| NearestDefining(rules, reference, rank, name, c);
      NearestDefiningUnique(rules, reference, rank, name, c, cs[i]);
      assert sets[i] == rules[cs[i]];
    } else {
      forall i | 0 <= i < |sets| ensures name !in sets[i].properties {
        assert cs[i] in cs && sets[i] == rules[cs[i]];
      }
    }
  }

  /** In a listing, some set defines `name` exactly when some compatible rule does. */
  lemma ListingDefines(rules: map<Rule, PropertySet>, reference: Rule, rank: Rank, name: string,
                       cs: seq<Rule>, sets: seq<PropertySet>)
    requires CandidateListing(rules, reference, rank, cs, sets)
    ensures (exists i :: 0 <= i < |sets| && name in sets[i].properties) <==> AnyDefining(rules, reference, name)
  {
    if AnyDefining(rules, reference, name) {
      var o :| o in rules && Compatible(o, reference) && name in rules[o].properties;
      var i :| 0 <= i < |cs| && cs[i] == o;
      assert name in sets[i].properties;
    }
    if exists i :: 0 <= i < |sets| && name in sets[i].properties {
      var i :| 0 <= i < |sets| && name in sets[i].properties;
      assert cs[i] in cs;
    }
  }

  /** Some looked-up candidate sets `name` exactly when some compatible rule does. */
  lemma LookupDefines(rules: map<Rule, PropertySet>, reference: Rule, rank: Rank, name: string)
    requires InjectiveOn(rank, rules.Keys)
    ensures var sets := GetPropertySets(rules, reference, rank);
      (exists i :: 0 <= i < |sets| && name in sets[i].properties) <==> AnyDefining(rules, reference, name)
  {
    ListingOfLookup(rules, reference, rank);
    ListingDefines(rules, reference, rank, name, CandidateRules(rules, reference, rank), GetPropertySets(rules, reference, rank));
  }

  /** Candidates from two lookups in a row: the first list wins where it defines `name`. */
  lemma {:induction false} FirstDefinedAppend(a: seq<PropertySet>, b: seq<PropertySet>, name: string)
    ensures FirstDefined(a + b, name) ==
      if exists i :: 0 <= i < |a| && name in a[i].properties then FirstDefined(a, name) else FirstDefined(b, name)
    decreases |a|
  {
    if a != [] {
      assert (a + b)[0] == a[0] && (a + b)[1..] == a[1..] + b;
      FirstDefinedAppend(a[1..], b, name);
      if name !in a[0].properties {
        assert (exists i :: 0 <= i < |a| && name in a[i].properties) <==>
          (exists i :: 0 <= i < |a[1..]| && name in a[1..][i].properties) by {
          forall i | 0 < i < |a| ensures a[i] == a[1..][i - 1] { }
        }
      }
    } else {
      assert a + b == b;
    }
  }
}
