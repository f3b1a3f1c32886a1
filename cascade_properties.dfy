/**
 * What cascade compile guarantees: which rules the result holds, that explicit values
 * survive, that every supported property is filled (from the nearest broader compatible
 * rule, or implicit-inherit), that pressed variants are added, and that compiling an
 * already fully qualified stylesheet changes nothing.
 */
module CascadeProperties {
  import opened Rules
  import opened Properties
  import opened Ordering
  import opened Schema
  import opened Stylesheets
  import opened Cascade
  import opened Inheritance

  // ---------------------------------------------------------------------------------------
  // The first pass, rule by rule

  ghost predicate Distinct(order: seq<Rule>) {
    forall i, j :: 0 <= i < |order| && 0 <= j < |order| && i != j ==> order[i] != order[j]
  }

  lemma DistinctPrefix(order: seq<Rule>, k: nat)
    requires Distinct(order) && k <= |order|
    ensures Distinct(order[..k])
  {
    forall i, j | 0 <= i < k && 0 <= j < k && i != j ensures order[..k][i] != order[..k][j] {
      assert order[..k][i] == order[i] && order[..k][j] == order[j];
    }
  }

  lemma NotLast(order: seq<Rule>, k: nat, q: Rule)
    requires Distinct(order) && k < |order| && q in order[..k]
    ensures q != order[|order| - 1]
  {
    var i :| 0 <= i < k && order[..k][i] == q;
    assert order[i] == q;
  }

  /** `all` holds every rule of `early`, with the same set. */
  ghost predicate Extends(all: map<Rule, PropertySet>, early: map<Rule, PropertySet>) {
    forall q :: q in early ==> q in all && all[q] == early[q]
  }

  /** A rule compiled within the prefix `order[..k]` keeps the set it had then. */
  lemma {:induction false} AccumulatedPrefix(order: seq<Rule>, k: nat, spec: StyleSpec, step: Step)
    requires Distinct(order) && k <= |order|
    ensures Extends(Accumulated(order, spec, step), Accumulated(order[..k], spec, step))
    decreases |order|
  {
    if k < |order| {
      var init := order[..|order| - 1];
      var last := order[|order| - 1];
      assert init[..k] == order[..k];
      DistinctPrefix(order, |order| - 1);
      AccumulatedPrefix(init, k, spec, step);
      var early := Accumulated(order[..k], spec, step);
      var mid := Accumulated(init, spec, step);
      var all := Accumulated(order, spec, step);
      assert Accumulated(init[..k], spec, step) == early;
      assert all == if last.element in spec.elements then mid[last := step(mid, last)] else mid;
      forall q | q in early ensures q in all && all[q] == early[q] {
        NotLast(order, k, q);
        assert q in mid && mid[q] == early[q];
        assert all[q] == mid[q];
      }
    } else {
      assert order[..k] == order;
    }
  }

  /** The set the first pass gives the rule at position `k`. */
  lemma {:induction false} AccumulatedAt(order: seq<Rule>, k: nat, spec: StyleSpec, step: Step)
    requires Distinct(order) && k < |order|
    requires order[k].element in spec.elements
    ensures Accumulated(order, spec, step)[order[k]] == step(Accumulated(order[..k], spec, step), order[k])
    decreases |order|
  {
    var init := order[..|order| - 1];
    if k == |order| - 1 {
      assert init == order[..k];
    } else {
      assert init[k] == order[k] && init[..k] == order[..k];
      DistinctPrefix(order, |order| - 1);
      AccumulatedAt(init, k, spec, step);
    }
  }

  /** The compiled first-pass rules ranked below `r`: those compiled before it. */
  function Below(compiled: map<Rule, PropertySet>, r: Rule, rank: Rank): (m: map<Rule, PropertySet>)
    ensures m.Keys <= compiled.Keys
    ensures forall q :: q in m <==> q in compiled && rank(q) < rank(r)
  {
    map q | q in compiled && rank(q) < rank(r) :: compiled[q]
  }

  lemma AscendingIsDistinct(order: seq<Rule>, rank: Rank)
    requires Ascending(order, rank)
    ensures Distinct(order)
  {
    forall i, j | 0 <= i < |order| && 0 <= j < |order| && i != j ensures order[i] != order[j] {
      if i < j { assert rank(order[i]) < rank(order[j]); } else { assert rank(order[j]) < rank(order[i]); }
    }
  }

  /** A part of `all` holding exactly its rules ranked below `x` is `Below(all, x, rank)`. */
  lemma BelowUnique(all: map<Rule, PropertySet>, before: map<Rule, PropertySet>, x: Rule, rank: Rank)
    requires Extends(all, before)
    requires forall q :: q in before <==> q in all && rank(q) < rank(x)
    ensures before == Below(all, x, rank)
  {
    var below := Below(all, x, rank);
    assert before.Keys == below.Keys;
    forall q | q in before ensures before[q] == below[q] {
      assert all[q] == before[q];
    }
  }

  /** In ascending order, what is compiled before `order[k]` is what ranks below it. */
  lemma PrefixIsBelow(order: seq<Rule>, k: nat, spec: StyleSpec, step: Step, rank: Rank)
    requires Ascending(order, rank) && k < |order|
    ensures Accumulated(order[..k], spec, step) == Below(Accumulated(order, spec, step), order[k], rank)
  {
    AscendingIsDistinct(order, rank);
    AccumulatedPrefix(order, k, spec, step);
    var before := Accumulated(order[..k], spec, step);
    var all := Accumulated(order, spec, step);
    forall q ensures q in before <==> q in all && rank(q) < rank(order[k]) {
      AscendingPrefix(order, rank, k, q);
    }
    BelowUnique(all, before, order[k], rank);
  }

  /** The rules the first loop has compiled when it reaches `r` are the kept rules ranked below it. */
  lemma FirstPassOfAt(ss: Stylesheet, spec: StyleSpec, rank: Rank, r: Rule)
    requires InjectiveOn(rank, ss.rules.Keys)
    requires r in ss.rules && r.element in spec.elements
    ensures var first := FirstPassOf(ss, spec, rank);
      r in first && InjectiveOn(rank, Below(first, r, rank).Keys) &&
      first[r] == CompileRule(ss.rules, Below(first, r, rank), r, spec, rank)
  {
    var order := Sorted(ss.rules.Keys, rank);
    var step := CompileStep(ss.rules, spec, rank);
    AscendingIsDistinct(order, rank);
    assert r in order;
    var k :| 0 <= k < |order| && order[k] == r;
    AccumulatedAt(order, k, spec, step);
    PrefixIsBelow(order, k, spec, step, rank);
    CompileStepIs(ss.rules, Accumulated(order[..k], spec, step), r, spec, rank);
  }

  // ---------------------------------------------------------------------------------------
  // The result of compile

  /** The second pass keeps every compiled rule and adds the missing pressed variants. */
  lemma WithVariantsSplit(compiled: map<Rule, PropertySet>, spec: StyleSpec, synthesize: Rule -> PropertySet)
    ensures var out := WithVariants(compiled, compiled.Keys, spec, synthesize);
      var variants := PressedVariants(compiled, compiled.Keys, spec);
      && out.Keys == compiled.Keys + variants
      && (forall r :: r in compiled ==> out[r] == compiled[r])
      && (forall p :: p in variants ==> p.element in spec.elements && p !in compiled && out[p] == synthesize(p))
  {
    var variants := PressedVariants(compiled, compiled.Keys, spec);
    assert forall p :: p in variants ==> p !in compiled;
  }

  /** The compiled stylesheet is the first pass plus the synthesised pressed variants. */
  lemma CompiledSplit(ss: Stylesheet, spec: StyleSpec, rank: Rank)
    requires InjectiveOn(rank, ss.rules.Keys)
    ensures var first := FirstPassOf(ss, spec, rank);
      var out := Compiled(ss, spec, rank).rules;
      && InjectiveOn(rank, first.Keys)
      && out.Keys == first.Keys + PressedVariants(first, first.Keys, spec)
      && (forall r :: r in first ==> out[r] == first[r])
      && (forall p :: p in PressedVariants(first, first.Keys, spec) ==>
            p.element in spec.elements && p !in first && out[p] == SynthesizedSet(ss.rules, first, p, spec, rank))
  {
    var first := FirstPassOf(ss, spec, rank);
    InjectiveOnSubset(rank, ss.rules.Keys, first.Keys);
    var synthesize := Synthesizer(ss.rules, first, spec, rank);
    WithVariantsSplit(first, spec, synthesize);
    assert Compiled(ss, spec, rank).rules == WithVariants(first, first.Keys, spec, synthesize);
  }

  // ---------------------------------------------------------------------------------------
  // What compile guarantees

  /**
   * The compiled stylesheet holds every rule of a known element, and the pressed variant of
   * every unpressed such rule; nothing else.
   */
  lemma CompiledRules(ss: Stylesheet, spec: StyleSpec, rank: Rank)
    requires InjectiveOn(rank, ss.rules.Keys)
    ensures forall x :: x in Compiled(ss, spec, rank).rules <==>
      x.element in spec.elements && (x in ss.rules || (x.pressedSelector && x.(pressedSelector := false) in ss.rules))
  {
    var first := FirstPassOf(ss, spec, rank);
    var variants := PressedVariants(first, first.Keys, spec);
    CompiledSplit(ss, spec, rank);
    forall x ensures x in variants <==>
      x.element in spec.elements && x !in ss.rules && x.pressedSelector && x.(pressedSelector := false) in ss.rules
    {
      if x in variants {
        var r :| r in first && !r.pressedSelector && r.element in spec.elements && Pressed(r) !in first && Pressed(r) == x;
        assert x.(pressedSelector := false) == r;
      }
      if x.element in spec.elements && x !in ss.rules && x.pressedSelector && x.(pressedSelector := false) in ss.rules {
        var r := x.(pressedSelector := false);
        assert Pressed(r) == x && r in first;
      }
    }
  }

  /** The set a rule of the input compiles to: its own values kept, every supported property filled. */
  lemma CompiledRuleSet(ss: Stylesheet, spec: StyleSpec, rank: Rank, r: Rule)
    requires InjectiveOn(rank, ss.rules.Keys)
    requires r in ss.rules && r.element in spec.elements
    ensures var out := Compiled(ss, spec, rank).rules;
      && r in out
      && out[r].properties.Keys == ss.rules[r].properties.Keys + SupportedNames(spec.elements[r.element])
      && forall n :: n in ss.rules[r].properties ==> out[r].properties[n] == ss.rules[r].properties[n]
  {
    CompiledSplit(ss, spec, rank);
    FirstPassOfAt(ss, spec, rank, r);
  }

  /**
   * A supported property a rule leaves unset takes the value the first pass gave the
   * highest-ranked compatible rule ranked below it that sets it, or implicit-inherit.
   */
  lemma CompiledInherits(ss: Stylesheet, spec: StyleSpec, rank: Rank, r: Rule, n: string)
    requires InjectiveOn(rank, ss.rules.Keys)
    requires r in ss.rules && r.element in spec.elements
    requires n in SupportedNames(spec.elements[r.element]) && n !in ss.rules[r].properties
    ensures var first := FirstPassOf(ss, spec, rank);
      var out := Compiled(ss, spec, rank).rules;
      && r in out && n in out[r].properties
      && InjectiveOn(rank, Below(first, r, rank).Keys)
      && out[r].properties[n] == Inherited(Below(first, r, rank), r, rank, n)
  {
    var first := FirstPassOf(ss, spec, rank);
    CompiledRuleSet(ss, spec, rank, r);
    CompiledSplit(ss, spec, rank);
    FirstPassOfAt(ss, spec, rank, r);
    FirstDefinedIsInherited(Below(first, r, rank), r, rank, n);
  }

  /** The pressed variant of an unpressed rule that the input lacks: the synthesised set. */
  lemma CompiledPressedSet(ss: Stylesheet, spec: StyleSpec, rank: Rank, p: Rule)
    requires InjectiveOn(rank, ss.rules.Keys)
    requires p.element in spec.elements && p.pressedSelector
    requires p !in ss.rules && p.(pressedSelector := false) in ss.rules
    ensures var first := FirstPassOf(ss, spec, rank);
      && InjectiveOn(rank, first.Keys)
      && p in Compiled(ss, spec, rank).rules
      && Compiled(ss, spec, rank).rules[p] == SynthesizedSet(ss.rules, first, p, spec, rank)
  {
    var first := FirstPassOf(ss, spec, rank);
    CompiledSplit(ss, spec, rank);
    var r := p.(pressedSelector := false);
    assert Pressed(r) == p && r in first;
  }

  /**
   * A synthesised pressed set holds every supported property, valued by the highest-ranked
   * compatible input rule that sets it, else by the highest-ranked compatible compiled rule
   * that does, else implicit-inherit.
   */
  lemma SynthesizedSetValues(rules: map<Rule, PropertySet>, compiled: map<Rule, PropertySet>, p: Rule,
                             spec: StyleSpec, rank: Rank, n: string)
    requires p.element in spec.elements
    requires InjectiveOn(rank, rules.Keys) && InjectiveOn(rank, compiled.Keys)
    requires n in SupportedNames(spec.elements[p.element])
    ensures var synthesized := SynthesizedSet(rules, compiled, p, spec, rank).properties;
      && synthesized.Keys == SupportedNames(spec.elements[p.element])
      && synthesized[n] ==
           if AnyDefining(rules, p, n) then Inherited(rules, p, rank, n) else Inherited(compiled, p, rank, n)
  {
    var raw := GetPropertySets(rules, p, rank);
    var later := GetPropertySets(compiled, p, rank);
    FirstDefinedAppend(raw, later, n);
    FirstDefinedIsInherited(rules, p, rank, n);
    FirstDefinedIsInherited(compiled, p, rank, n);
    LookupDefines(rules, p, rank, n);
  }

  /**
   * The pressed variant of an unpressed input rule that the input lacks takes each supported
   * property from the highest-ranked input rule that is compatible with the variant and sets it.
   */
  lemma CompiledPressedFromNearest(ss: Stylesheet, spec: StyleSpec, rank: Rank, r: Rule, n: string, c: Rule)
    requires InjectiveOn(rank, ss.rules.Keys)
    requires r in ss.rules && !r.pressedSelector && r.element in spec.elements && Pressed(r) !in ss.rules
    requires n in SupportedNames(spec.elements[r.element])
    requires NearestDefining(ss.rules, Pressed(r), rank, n, c)
    ensures var out := Compiled(ss, spec, rank).rules;
      && Pressed(r) in out && n in out[Pressed(r)].properties
      && out[Pressed(r)].properties[n] == ss.rules[c].properties[n]
  {
    var p := Pressed(r);
    assert p.(pressedSelector := false) == r;
    CompiledPressedSet(ss, spec, rank, p);
    SynthesizedSetValues(ss.rules, FirstPassOf(ss, spec, rank), p, spec, rank, n);
    InheritedFromNearest(ss.rules, p, rank, n, c);
  }

  /**
   * A rule that is the only one setting `n` among the input rules compatible with its
   * missing pressed variant passes its own value on to that variant.
   */
  lemma PressedVariantKeepsOwnValue(ss: Stylesheet, spec: StyleSpec, rank: Rank, r: Rule, n: string)
    requires InjectiveOn(rank, ss.rules.Keys)
    requires r in ss.rules && !r.pressedSelector && r.element in spec.elements && Pressed(r) !in ss.rules
    requires n in SupportedNames(spec.elements[r.element]) && n in ss.rules[r].properties
    requires forall o :: o in ss.rules && o != r && Compatible(o, Pressed(r)) ==> n !in ss.rules[o].properties
    ensures var out := Compiled(ss, spec, rank).rules;
      && Pressed(r) in out && n in out[Pressed(r)].properties
      && out[Pressed(r)].properties[n] == ss.rules[r].properties[n]
  {
    CompatibleWithOwnPressed(r);
    assert NearestDefining(ss.rules, Pressed(r), rank, n, r);
    CompiledPressedFromNearest(ss, spec, rank, r, n, r);
  }

  /**
   * The candidates of a pressed variant are drawn from all input rules, so the variant of a
   * rule without codes takes a property from a rule of the same selector narrowed to some
   * codes, when that rule is the highest-ranked compatible one setting it.
   */
  lemma WildcardPressedTakesNarrowerValue(ss: Stylesheet, spec: StyleSpec, rank: Rank, r: Rule, s: Rule, n: string)
    requires InjectiveOn(rank, ss.rules.Keys)
    requires r in ss.rules && !r.pressedSelector && r.element in spec.elements && Pressed(r) !in ss.rules
    requires r.codes == [] && s in ss.rules && s == r.(codes := s.codes)
    requires n in SupportedNames(spec.elements[r.element]) && n in ss.rules[s].properties
    requires forall o :: o in ss.rules && Compatible(o, Pressed(r)) && n in ss.rules[o].properties ==> rank(o) <= rank(s)
    ensures var out := Compiled(ss, spec, rank).rules;
      && Pressed(r) in out && n in out[Pressed(r)].properties
      && out[Pressed(r)].properties[n] == ss.rules[s].properties[n]
  {
    DimensionCompatibleReflexive(r.groups);
    DimensionCompatibleReflexive(r.modes);
    assert Compatible(s, Pressed(r));
    CompiledPressedFromNearest(ss, spec, rank, r, n, s);
  }

  /** `c` is the highest-ranked rule of `compiled` compatible with `r` and ranked below it. */
  ghost predicate NearestBelow(compiled: map<Rule, PropertySet>, r: Rule, rank: Rank, c: Rule) {
    && c in compiled && Compatible(c, r) && rank(c) < rank(r)
    && forall o :: o in compiled && Compatible(o, r) && rank(o) < rank(r) ==> rank(o) <= rank(c)
  }

  /** Every first-pass set holds every property its element supports. */
  lemma FirstPassComplete(ss: Stylesheet, spec: StyleSpec, rank: Rank, c: Rule)
    requires InjectiveOn(rank, ss.rules.Keys)
    requires c in FirstPassOf(ss, spec, rank)
    ensures c.element in spec.elements
    ensures SupportedNames(spec.elements[c.element]) <= FirstPassOf(ss, spec, rank)[c].properties.Keys
  {
    CompiledSplit(ss, spec, rank);
    CompiledRuleSet(ss, spec, rank, c);
  }

  /**
   * Since every compiled set is complete, a supported property a rule leaves unset comes
   * from the nearest compatible rule below it, whichever that is; with none, it is
   * implicit-inherit.
   */
  lemma CompiledInheritsFromNearest(ss: Stylesheet, spec: StyleSpec, rank: Rank, r: Rule, n: string)
    requires InjectiveOn(rank, ss.rules.Keys)
    requires r in ss.rules && r.element in spec.elements
    requires n in SupportedNames(spec.elements[r.element]) && n !in ss.rules[r].properties
    ensures var first := FirstPassOf(ss, spec, rank);
      var out := Compiled(ss, spec, rank).rules;
      && r in out && n in out[r].properties
      && (forall c :: NearestBelow(first, r, rank, c) ==>
            n in first[c].properties && out[r].properties[n] == first[c].properties[n])
      && ((forall c :: c in first && Compatible(c, r) ==> rank(r) <= rank(c)) ==> out[r].properties[n] == ImplicitInherit)
  {
    var first := FirstPassOf(ss, spec, rank);
    var below := Below(first, r, rank);
    CompiledInherits(ss, spec, rank, r, n);
    forall c | NearestBelow(first, r, rank, c) ensures n in first[c].properties && Inherited(below, r, rank, n) == first[c].properties[n] {
      FirstPassComplete(ss, spec, rank, c);
      forall o | o in below && Compatible(o, r) && n in below[o].properties ensures rank(o) <= rank(c) {
      }
      assert NearestDefining(below, r, rank, n, c);
      InheritedFromNearest(below, r, rank, n, c);
    }
    if forall c :: c in first && Compatible(c, r) ==> rank(r) <= rank(c) {
      assert !AnyDefining(below, r, n);
    }
  }

  // ---------------------------------------------------------------------------------------
  // Fully qualified stylesheets

  /**
   * A fully qualified rule map: every rule's element is known, every rule sets every
   * property its element supports, and every unpressed rule has its pressed variant.
   */
  ghost predicate IsFullyQualified(rules: map<Rule, PropertySet>, spec: StyleSpec) {
    forall r :: r in rules ==>
      && r.element in spec.elements
      && SupportedNames(spec.elements[r.element]) <= rules[r].properties.Keys
      && (!r.pressedSelector ==> Pressed(r) in rules)
  }

  /** Compile always yields a fully qualified stylesheet, flagged as such. */
  lemma CompiledIsFullyQualified(ss: Stylesheet, spec: StyleSpec, rank: Rank)
    requires InjectiveOn(rank, ss.rules.Keys)
    ensures Compiled(ss, spec, rank).isFullyQualified
    ensures IsFullyQualified(Compiled(ss, spec, rank).rules, spec)
  {
    var out := Compiled(ss, spec, rank).rules;
    var first := FirstPassOf(ss, spec, rank);
    CompiledRules(ss, spec, rank);
    forall x | x in out
      ensures x.element in spec.elements
      ensures SupportedNames(spec.elements[x.element]) <= out[x].properties.Keys
      ensures !x.pressedSelector ==> Pressed(x) in out
    {
      if x in ss.rules {
        CompiledRuleSet(ss, spec, rank, x);
      } else {
        CompiledPressedSet(ss, spec, rank, x);
        NamesOfFilled(spec.elements[x.element].supportedProperties);
      }
      if !x.pressedSelector {
        assert Pressed(x).(pressedSelector := false) == x;
      }
    }
  }

  /** Filling an empty set yields exactly the supported names. */
  lemma NamesOfFilled(supported: seq<PropertySpec>)
    ensures forall candidates :: FillMissing(map[], supported, candidates).Keys == NamesOf(supported)
  {
  }

  /** Compiling a fully qualified stylesheet changes none of its rules. */
  lemma CompileFullyQualifiedUnchanged(ss: Stylesheet, spec: StyleSpec, rank: Rank)
    requires InjectiveOn(rank, ss.rules.Keys)
    requires IsFullyQualified(ss.rules, spec)
    ensures Compiled(ss, spec, rank) == Stylesheet(ss.rules, true)
  {
    var out := Compiled(ss, spec, rank).rules;
    CompiledRules(ss, spec, rank);
    forall x | x in out ensures x in ss.rules {
      assert x.pressedSelector ==> Pressed(x.(pressedSelector := false)) == x;
    }
    forall x | x in ss.rules ensures x in out && out[x] == ss.rules[x] {
      CompiledRuleSet(ss, spec, rank, x);
      SameProperties(ss.rules[x].properties, out[x].properties, SupportedNames(spec.elements[x.element]));
    }
    SameRules(ss.rules, out);
  }

  lemma SameProperties(kept: map<string, Value>, full: map<string, Value>, supported: set<string>)
    requires full.Keys == kept.Keys + supported && supported <= kept.Keys
    requires forall n :: n in kept ==> full[n] == kept[n]
    ensures full == kept
  {
  }

  lemma SameRules(a: map<Rule, PropertySet>, b: map<Rule, PropertySet>)
    requires forall x :: x in b ==> x in a
    requires forall x :: x in a ==> x in b && b[x] == a[x]
    ensures a == b
  {
  }

  /** Compile is idempotent. */
  lemma CompileIdempotent(ss: Stylesheet, spec: StyleSpec, rank: Rank)
    requires InjectiveOn(rank, ss.rules.Keys)
    requires InjectiveOn(rank, Compiled(ss, spec, rank).rules.Keys)
    ensures Compiled(Compiled(ss, spec, rank), spec, rank) == Compiled(ss, spec, rank)
  {
    CompiledIsFullyQualified(ss, spec, rank);
    CompileFullyQualifiedUnchanged(Compiled(ss, spec, rank), spec, rank);
  }
}
