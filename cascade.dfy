/**
 * Cascade compile (`compileToFullyQualified`): turns a stylesheet that relies on
 * run-time fallback into one in which every rule carries every property its element
 * supports, and every unpressed rule has a pressed variant.
 */
module Cascade {
  import opened Rules
  import opened Properties
  import opened Ordering
  import opened Schema
  import opened Stylesheets

  // ---------------------------------------------------------------------------------------
  // Filling one property set

  /** `i` is the first candidate that defines `name`. */
  ghost predicate FirstDefining(candidates: seq<PropertySet>, name: string, i: int) {
    && 0 <= i < |candidates| && name in candidates[i].properties
    && forall j :: 0 <= j < i ==> name !in candidates[j].properties
  }

  /**
   * `firstNotNullOfOrNull { it.properties[name] } ?: SnyggImplicitInheritValue`: the value
   * of the first candidate that defines `name`, or implicit-inherit when none does.
   */
  function FirstDefined(candidates: seq<PropertySet>, name: string): (v: Value)
    ensures forall i :: FirstDefining(candidates, name, i) ==> v == candidates[i].properties[name]
    ensures (forall i :: 0 <= i < |candidates| ==> name !in candidates[i].properties) ==> v == ImplicitInherit
  {
    if candidates == [] then ImplicitInherit
    else if name in candidates[0].properties then candidates[0].properties[name]
    else
      var v := FirstDefined(candidates[1..], name);
      assert forall i :: FirstDefining(candidates, name, i) ==> i > 0 && FirstDefining(candidates[1..], name, i - 1);
      v
  }

  /**
   * The `supportedProperties.forEach` loop: every supported property that `props` does
   * not set is added, with the value of the first candidate that defines it.
   */
  function FillMissing(props: map<string, Value>, supported: seq<PropertySpec>, candidates: seq<PropertySet>)
    : (filled: map<string, Value>)
    ensures filled.Keys == props.Keys + NamesOf(supported)
    ensures forall n :: n in props ==> filled[n] == props[n]
    ensures forall n :: n in filled && n !in props ==> filled[n] == FirstDefined(candidates, n)
    decreases |supported|
  {
    if supported == [] then props
    else
      var name := supported[0].name;
      var next := if name in props then props else props[name := FirstDefined(candidates, name)];
      NamesOfCons(supported);
      FillMissing(next, supported[1..], candidates)
  }

  /** The loop over the supported properties, editing a copy of `props`. */
  method FillFromCandidates(props: map<string, Value>, supported: seq<PropertySpec>, candidates: seq<PropertySet>)
    returns (filled: map<string, Value>)
    ensures filled == FillMissing(props, supported, candidates)
  {
    filled := props;
    for i := 0 to |supported|
      invariant FillMissing(filled, supported[i..], candidates) == FillMissing(props, supported, candidates)
    {
      var name := supported[i].name;
      assert supported[i..][1..] == supported[i + 1..];
      if name !in filled {
        filled := filled[name := FirstDefined(candidates, name)];
      }
    }
  }

  // ---------------------------------------------------------------------------------------
  // First pass: ascending order, unknown elements dropped, missing properties filled

  lemma InjectiveOnSubset(rank: Rank, s: set<Rule>, t: set<Rule>)
    requires t <= s && InjectiveOn(rank, s)
    ensures InjectiveOn(rank, t)
  {
  }

  /** The rule's property set completed from the candidates among the rules compiled before it. */
  function CompileRule(rules: map<Rule, PropertySet>, before: map<Rule, PropertySet>, rule: Rule, spec: StyleSpec, rank: Rank)
    : PropertySet
    requires rule in rules && rule.element in spec.elements
    requires InjectiveOn(rank, before.Keys)
  {
    PropertySet(FillMissing(rules[rule].properties, spec.elements[rule.element].supportedProperties,
                            GetPropertySets(before, rule, rank)))
  }

  /** A first-pass step: how a rule is compiled given the rules compiled before it. */
  type Step = (map<Rule, PropertySet>, Rule) -> PropertySet

  /**
   * `newRules` after the first loop has processed the rules of `order`, in that order:
   * a rule of an unknown element is skipped, any other is added with the set `step` gives it.
   */
  ghost function Accumulated(order: seq<Rule>, spec: StyleSpec, step: Step): (compiled: map<Rule, PropertySet>)
    ensures compiled.Keys == set r | r in order && r.element in spec.elements
    decreases |order|
  {
    if order == [] then map[]
    else
      var rule := order[|order| - 1];
      var init := order[..|order| - 1];
      assert forall r :: r in order <==> r in init || r == rule;
      var before := Accumulated(init, spec, step);
      if rule.element in spec.elements then before[rule := step(before, rule)] else before
  }

  /** The step of `compileToFullyQualified`'s first loop (`CompileRule`, where it is defined). */
  ghost function CompileStep(rules: map<Rule, PropertySet>, spec: StyleSpec, rank: Rank): Step {
    (before: map<Rule, PropertySet>, rule: Rule) =>
      if rule in rules && rule.element in spec.elements && InjectiveOn(rank, before.Keys)
      then CompileRule(rules, before, rule, spec, rank)
      else FallbackPropertySet
  }

  /** The first pass over the whole stylesheet, in ascending rule order. */
  ghost function FirstPassOf(ss: Stylesheet, spec: StyleSpec, rank: Rank): (compiled: map<Rule, PropertySet>)
    requires InjectiveOn(rank, ss.rules.Keys)
    ensures compiled.Keys == set r | r in ss.rules && r.element in spec.elements
  {
    var order := Sorted(ss.rules.Keys, rank);
    Accumulated(order, spec, CompileStep(ss.rules, spec, rank))
  }

  // ---------------------------------------------------------------------------------------
  // Second pass: pressed variants

  /** The pressed variants synthesised for the rules of `done`. */
  function PressedVariants(compiled: map<Rule, PropertySet>, done: set<Rule>, spec: StyleSpec): set<Rule> {
    set r | r in done && !r.pressedSelector && r.element in spec.elements && Pressed(r) !in compiled :: Pressed(r)
  }

  /** The property set of a synthesised pressed rule. */
  function SynthesizedSet(rules: map<Rule, PropertySet>, compiled: map<Rule, PropertySet>, pressed: Rule,
                          spec: StyleSpec, rank: Rank): PropertySet
    requires pressed.element in spec.elements
    requires InjectiveOn(rank, rules.Keys) && InjectiveOn(rank, compiled.Keys)
  {
    PropertySet(FillMissing(map[], spec.elements[pressed.element].supportedProperties,
                            GetPropertySets(rules, pressed, rank) + GetPropertySets(compiled, pressed, rank)))
  }

  /**
   * `newRulesWithPressed` after the second loop has processed the compiled rules of `done`,
   * with `synthesize` giving the set of each new pressed variant.
   */
  ghost function WithVariants(compiled: map<Rule, PropertySet>, done: set<Rule>, spec: StyleSpec,
                        synthesize: Rule -> PropertySet): map<Rule, PropertySet>
    requires done <= compiled.Keys
  {
    (map r | r in done :: compiled[r]) +
    (map p | p in PressedVariants(compiled, done, spec) :: synthesize(p))
  }

  /** The set each pressed variant receives (used only for rules of known elements). */
  ghost function Synthesizer(rules: map<Rule, PropertySet>, compiled: map<Rule, PropertySet>, spec: StyleSpec, rank: Rank)
    : Rule -> PropertySet
    requires InjectiveOn(rank, rules.Keys) && InjectiveOn(rank, compiled.Keys)
  {
    (p: Rule) => if p.element in spec.elements then SynthesizedSet(rules, compiled, p, spec, rank) else FallbackPropertySet
  }

  ghost function WithPressed(rules: map<Rule, PropertySet>, compiled: map<Rule, PropertySet>, done: set<Rule>,
                       spec: StyleSpec, rank: Rank): map<Rule, PropertySet>
    requires done <= compiled.Keys
    requires InjectiveOn(rank, rules.Keys) && InjectiveOn(rank, compiled.Keys)
  {
    WithVariants(compiled, done, spec, Synthesizer(rules, compiled, spec, rank))
  }

  /** What `compileToFullyQualified` returns. */
  ghost function Compiled(ss: Stylesheet, spec: StyleSpec, rank: Rank): Stylesheet
    requires InjectiveOn(rank, ss.rules.Keys)
  {
    var compiled := FirstPassOf(ss, spec, rank);
    InjectiveOnSubset(rank, ss.rules.Keys, compiled.Keys);
    Stylesheet(WithPressed(ss.rules, compiled, compiled.Keys, spec, rank), true)
  }

  lemma PressedVariantsStep(compiled: map<Rule, PropertySet>, done: set<Rule>, rule: Rule, spec: StyleSpec)
    ensures PressedVariants(compiled, done + {rule}, spec) ==
      PressedVariants(compiled, done, spec) +
      if !rule.pressedSelector && rule.element in spec.elements && Pressed(rule) !in compiled
      then {Pressed(rule)} else {}
  {
  }

  /** `m` is `newRulesWithPressed` once the compiled rules of `done` have been processed. */
  ghost predicate VariantsSoFar(compiled: map<Rule, PropertySet>, done: set<Rule>, spec: StyleSpec,
                                synthesize: Rule -> PropertySet, m: map<Rule, PropertySet>) {
    && done <= compiled.Keys
    && m.Keys == done + PressedVariants(compiled, done, spec)
    && (forall r :: r in done ==> m[r] == compiled[r])
    && (forall p :: p in PressedVariants(compiled, done, spec) ==> m[p] == synthesize(p))
  }

  /** Processing one more compiled rule in the second loop. */
  lemma VariantsStep(compiled: map<Rule, PropertySet>, done: set<Rule>, rule: Rule, spec: StyleSpec,
                     synthesize: Rule -> PropertySet, m: map<Rule, PropertySet>)
    requires VariantsSoFar(compiled, done, spec, synthesize, m)
    requires rule in compiled && rule !in done
    ensures var next := m[rule := compiled[rule]];
      VariantsSoFar(compiled, done + {rule}, spec, synthesize,
        if !rule.pressedSelector && rule.element in spec.elements && Pressed(rule) !in compiled
        then next[Pressed(rule) := synthesize(Pressed(rule))]
        else next)
  {
    PressedVariantsStep(compiled, done, rule, spec);
    assert forall p :: p in PressedVariants(compiled, done + {rule}, spec) ==> p !in compiled;
  }

  /** Once every compiled rule is processed, `m` is `WithVariants`. */
  lemma VariantsDone(compiled: map<Rule, PropertySet>, spec: StyleSpec,
                     synthesize: Rule -> PropertySet, m: map<Rule, PropertySet>)
    requires VariantsSoFar(compiled, compiled.Keys, spec, synthesize, m)
    ensures m == WithVariants(compiled, compiled.Keys, spec, synthesize)
  {
    var w := WithVariants(compiled, compiled.Keys, spec, synthesize);
    assert forall p :: p in PressedVariants(compiled, compiled.Keys, spec) ==> p !in compiled;
    assert m.Keys == w.Keys;
    forall k | k in m ensures m[k] == w[k] {
      if k in compiled {
        assert k !in PressedVariants(compiled, compiled.Keys, spec);
      }
    }
  }

  /** One more rule through the first pass. */
  lemma AccumulatedStep(order: seq<Rule>, i: nat, spec: StyleSpec, step: Step)
    requires i < |order|
    ensures var before := Accumulated(order[..i], spec, step);
      Accumulated(order[..i + 1], spec, step) ==
        if order[i].element in spec.elements then before[order[i] := step(before, order[i])] else before
  {
    assert order[..i + 1][..i] == order[..i] && order[..i + 1][i] == order[i];
  }

  /** Where a rule's element is known, the first-pass step compiles it by `CompileRule`. */
  lemma CompileStepIs(rules: map<Rule, PropertySet>, before: map<Rule, PropertySet>, rule: Rule, spec: StyleSpec, rank: Rank)
    requires rule in rules && rule.element in spec.elements
    requires InjectiveOn(rank, rules.Keys) && before.Keys <= rules.Keys
    ensures InjectiveOn(rank, before.Keys)
    ensures CompileStep(rules, spec, rank)(before, rule) == CompileRule(rules, before, rule, spec, rank)
  {
    InjectiveOnSubset(rank, rules.Keys, before.Keys);
  }

  /** The first loop of `compileToFullyQualified`: compile the rules in ascending order. */
  method CompileInOrder(rules: map<Rule, PropertySet>, spec: StyleSpec, rank: Rank)
    returns (newRules: map<Rule, PropertySet>)
    requires InjectiveOn(rank, rules.Keys)
    ensures newRules == FirstPassOf(Stylesheet(rules, false), spec, rank)
  {
    var order := Sorted(rules.Keys, rank);
    ghost var step := CompileStep(rules, spec, rank);
    newRules := map[];
    for i := 0 to |order|
      invariant newRules == Accumulated(order[..i], spec, step)
    {
      var rule := order[i];
      AccumulatedStep(order, i, spec, step);
      var editor := rules[rule].properties;
      if rule.element in spec.elements {
        var propertySetSpec := spec.elements[rule.element];
        CompileStepIs(rules, newRules, rule, spec, rank);
        var possiblePropertySets := GetPropertySets(newRules, rule, rank);
        editor := FillFromCandidates(editor, propertySetSpec.supportedProperties, possiblePropertySets);
        assert PropertySet(editor) == step(newRules, rule);
        newRules := newRules[rule := PropertySet(editor)];
      }
    }
    assert order[..|order|] == order;
  }

  /** The second loop of `compileToFullyQualified`: add the missing pressed variants. */
  method AddPressedVariants(rules: map<Rule, PropertySet>, newRules: map<Rule, PropertySet>, spec: StyleSpec, rank: Rank)
    returns (newRulesWithPressed: map<Rule, PropertySet>)
    requires InjectiveOn(rank, rules.Keys) && InjectiveOn(rank, newRules.Keys)
    ensures newRulesWithPressed == WithPressed(rules, newRules, newRules.Keys, spec, rank)
  {
    ghost var synthesize := Synthesizer(rules, newRules, spec, rank);
    newRulesWithPressed := map[];
    var remaining := newRules.Keys;
    while remaining != {}
      invariant remaining <= newRules.Keys
      invariant VariantsSoFar(newRules, newRules.Keys - remaining, spec, synthesize, newRulesWithPressed)
      decreases remaining
    {
      var rule :| rule in remaining;
      var propSet := newRules[rule];
      VariantsStep(newRules, newRules.Keys - remaining, rule, spec, synthesize, newRulesWithPressed);
      assert (newRules.Keys - remaining) + {rule} == newRules.Keys - (remaining - {rule});
      remaining := remaining - {rule};
      newRulesWithPressed := newRulesWithPressed[rule := propSet];
      if !rule.pressedSelector {
        if rule.element !in spec.elements {
          continue;
        }
        var propertySetSpec := spec.elements[rule.element];
        var pressedRule := Pressed(rule);
        if pressedRule !in newRules {
          var possiblePropertySets := GetPropertySets(rules, pressedRule, rank) + GetPropertySets(newRules, pressedRule, rank);
          var editor := FillFromCandidates(map[], propertySetSpec.supportedProperties, possiblePropertySets);
          assert PropertySet(editor) == synthesize(pressedRule);
          newRulesWithPressed := newRulesWithPressed[pressedRule := PropertySet(editor)];
        }
      }
    }
    assert newRules.Keys - {} == newRules.Keys;
    VariantsDone(newRules, spec, synthesize, newRulesWithPressed);
  }

  /**
   * `compileToFullyQualified`: the first loop fills `newRules` in ascending rule order, the
   * second adds a pressed variant for every compiled rule that lacks one.
   */
  method CompileToFullyQualified(ss: Stylesheet, spec: StyleSpec, rank: Rank) returns (out: Stylesheet)
    requires InjectiveOn(rank, ss.rules.Keys)
    ensures out == Compiled(ss, spec, rank)
  {
    var newRules := CompileInOrder(ss.rules, spec, rank);
    assert Stylesheet(ss.rules, false).rules == ss.rules;
    InjectiveOnSubset(rank, ss.rules.Keys, newRules.Keys);
    var newRulesWithPressed := AddPressedVariants(ss.rules, newRules, spec, rank);
    out := Stylesheet(newRulesWithPressed, true);
  }
}
