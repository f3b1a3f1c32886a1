/**
 * Selector rules and the two matching tests of the stylesheet: the point-lookup
 * match of a rule against a render query, and the compatibility of a rule with a
 * reference rule used by the cascade.
 */
module Rules {

  /** A selector: an element name, code/group/mode lists (empty = any) and pseudo-state flags. */
  datatype Rule = Rule(
    element: string,
    codes: seq<int>,
    groups: seq<int>,
    modes: seq<int>,
    pressedSelector: bool,
    focusSelector: bool,
    disabledSelector: bool)

  /** Kotlin's `Int.MIN_VALUE`, the "not given" value of a query's code, group or mode. */
  const Unspecified: int := -0x8000_0000

  /** The arguments of a point lookup. */
  datatype Query = Query(
    element: string,
    code: int,
    group: int,
    mode: int,
    isPressed: bool,
    isFocus: bool,
    isDisabled: bool)

  /** One code/group/mode dimension of a point lookup. */
  predicate DimensionMatches(ruleValues: seq<int>, queryValue: int) {
    queryValue == Unspecified || ruleValues == [] || queryValue in ruleValues
  }

  /** One pseudo-state flag of a point lookup: a rule flag that is set demands the state. */
  predicate FlagMatches(ruleFlag: bool, queryFlag: bool) {
    queryFlag == ruleFlag || !ruleFlag
  }

  /** The test of a point lookup, applied to the rules of the queried element. */
  predicate Matches(rule: Rule, q: Query) {
    && DimensionMatches(rule.codes, q.code)
    && DimensionMatches(rule.groups, q.group)
    && DimensionMatches(rule.modes, q.mode)
    && FlagMatches(rule.pressedSelector, q.isPressed)
    && FlagMatches(rule.focusSelector, q.isFocus)
    && FlagMatches(rule.disabledSelector, q.isDisabled)
  }

  /** One code/group/mode dimension of the cascade: either side empty, or a shared value. */
  predicate DimensionCompatible(ruleValues: seq<int>, referenceValues: seq<int>) {
    ruleValues == [] || referenceValues == [] || exists v :: v in ruleValues && v in referenceValues
  }

  /** Whether `rule` is a cascade candidate for `reference`. */
  predicate Compatible(rule: Rule, reference: Rule) {
    && rule.element == reference.element
    && DimensionCompatible(rule.codes, reference.codes)
    && DimensionCompatible(rule.groups, reference.groups)
    && DimensionCompatible(rule.modes, reference.modes)
    && FlagMatches(rule.pressedSelector, reference.pressedSelector)
    && FlagMatches(rule.focusSelector, reference.focusSelector)
    && FlagMatches(rule.disabledSelector, reference.disabledSelector)
  }

  /** `rule.copy(pressedSelector = true)`. */
  function Pressed(rule: Rule): (p: Rule)
    ensures p.pressedSelector
    ensures p.(pressedSelector := rule.pressedSelector) == rule
  {
    rule.(pressedSelector := true)
  }

  /** Every list is compatible with itself: an empty list by definition, any other through its first value. */
  lemma DimensionCompatibleReflexive(values: seq<int>)
    ensures DimensionCompatible(values, values)
  {
    if values != [] {
      var v := values[0];
      assert v in values;
    }
  }

  /** Every rule is a cascade candidate for itself. */
  lemma CompatibleReflexive(rule: Rule)
    ensures Compatible(rule, rule)
  {
    DimensionCompatibleReflexive(rule.codes);
    DimensionCompatibleReflexive(rule.groups);
    DimensionCompatibleReflexive(rule.modes);
  }

  /** A rule is a cascade candidate for its own pressed variant. */
  lemma CompatibleWithOwnPressed(rule: Rule)
    ensures Compatible(rule, Pressed(rule))
  {
    DimensionCompatibleReflexive(rule.codes);
    DimensionCompatibleReflexive(rule.groups);
    DimensionCompatibleReflexive(rule.modes);
  }

  /** The first value of a list, or `Unspecified` for an empty one. */
  function FirstOr(values: seq<int>): int {
    if values == [] then Unspecified else values[0]
  }

  /** The render query a rule describes: its element, the first value of each list, its flags. */
  function OwnQuery(rule: Rule): Query {
    Query(rule.element, FirstOr(rule.codes), FirstOr(rule.groups), FirstOr(rule.modes),
          rule.pressedSelector, rule.focusSelector, rule.disabledSelector)
  }

  /** A rule matches the query built from its own fields. */
  lemma MatchesOwnQuery(rule: Rule)
    ensures Matches(rule, OwnQuery(rule))
  {
    if rule.codes != [] { assert rule.codes[0] in rule.codes; }
    if rule.groups != [] { assert rule.groups[0] in rule.groups; }
    if rule.modes != [] { assert rule.modes[0] in rule.modes; }
  }

  /** The dimension test of the cascade does not depend on which side is the reference. */
  lemma DimensionCompatibleSymmetric(a: seq<int>, b: seq<int>)
    ensures DimensionCompatible(a, b) <==> DimensionCompatible(b, a)
  {
  }

  /**
   * A rule that matches a point query is a cascade candidate for every reference rule
   * whose lists contain the query's values and whose flags equal the query's flags.
   */
  lemma {:induction false} MatchImpliesCompatible(rule: Rule, reference: Rule, q: Query)
    requires reference.element == q.element && Matches(rule, q) && rule.element == q.element
    requires q.code != Unspecified && q.group != Unspecified && q.mode != Unspecified
    requires reference.codes == [q.code] && reference.groups == [q.group] && reference.modes == [q.mode]
    requires reference.pressedSelector == q.isPressed && reference.focusSelector == q.isFocus
    requires reference.disabledSelector == q.isDisabled
    ensures Compatible(rule, reference)
  {
    if rule.codes != [] { assert q.code in rule.codes && q.code in reference.codes; }
    if rule.groups != [] { assert q.group in rule.groups && q.group in reference.groups; }
    if rule.modes != [] { assert q.mode in rule.modes && q.mode in reference.modes; }
  }
}
