/**
 * The stylesheet editor: a mutable staging map from rule to property set. Each rule
 * definition stores (or replaces) one entry; `Build` freezes the map into a stylesheet.
 * The block builder runs a sequence of definitions on a fresh editor and builds it, so a
 * later definition of the same rule replaces an earlier one.
 */
module Editor {
  import opened Wrappers
  import opened Rules
  import opened Properties
  import opened Stylesheets

  /**
   * One `"element"(codes = ..., ...) { ... }` call inside a builder block; `properties` is
   * what its property-set block produced.
   */
  datatype Definition = Definition(
    element: string,
    codes: seq<int>,
    groups: seq<int>,
    modes: seq<int>,
    pressedSelector: bool,
    focusSelector: bool,
    disabledSelector: bool,
    properties: PropertySet)
  {
    /** The rule this definition writes. */
    function DefinedRule(): Rule {
      Rule(element, codes, groups, modes, pressedSelector, focusSelector, disabledSelector)
    }
  }

  /** The staging map after running `defs` in order on `init`. */
  function Applied(init: map<Rule, PropertySet>, defs: seq<Definition>): map<Rule, PropertySet>
    decreases |defs|
  {
    if defs == [] then init
    else
      var last := defs[|defs| - 1];
      Applied(init, defs[..|defs| - 1])[last.DefinedRule() := last.properties]
  }

  /** Definition `i` is the last one of `defs` that writes `r`. */
  ghost predicate LastDefining(defs: seq<Definition>, r: Rule, i: int) {
    && 0 <= i < |defs| && defs[i].DefinedRule() == r
    && forall j :: i < j < |defs| ==> defs[j].DefinedRule() != r
  }

  /** Some definition of `defs` writes `r`. */
  ghost predicate Writes(defs: seq<Definition>, r: Rule) {
    exists i :: 0 <= i < |defs| && defs[i].DefinedRule() == r
  }

  lemma WritesPrefix(defs: seq<Definition>, r: Rule)
    requires defs != []
    ensures Writes(defs, r) <==> Writes(defs[..|defs| - 1], r) || defs[|defs| - 1].DefinedRule() == r
  {
    var init := defs[..|defs| - 1];
    if Writes(defs, r) && defs[|defs| - 1].DefinedRule() != r {
      var i :| 0 <= i < |defs| && defs[i].DefinedRule() == r;
      assert init[i] == defs[i];
    }
    if Writes(init, r) {
      var i :| 0 <= i < |init| && init[i].DefinedRule() == r;
      assert defs[i] == init[i];
    }
  }

  /** The staged rules are the initial ones plus every rule some definition writes. */
  lemma {:induction false} AppliedKeys(init: map<Rule, PropertySet>, defs: seq<Definition>, r: Rule)
    ensures r in Applied(init, defs) <==> r in init || Writes(defs, r)
    decreases |defs|
  {
    if defs != [] {
      AppliedKeys(init, defs[..|defs| - 1], r);
      WritesPrefix(defs, r);
    }
  }

  /** The last definition of a rule wins. */
  lemma {:induction false} AppliedLastWins(init: map<Rule, PropertySet>, defs: seq<Definition>, r: Rule, i: int)
    requires LastDefining(defs, r, i)
    ensures r in Applied(init, defs) && Applied(init, defs)[r] == defs[i].properties
    decreases |defs|
  {
    var last := defs[|defs| - 1];
    if i < |defs| - 1 {
      var init' := defs[..|defs| - 1];
      assert LastDefining(init', r, i) by {
        forall j | i < j < |init'| ensures init'[j].DefinedRule() != r {
          assert init'[j] == defs[j];
        }
      }
      AppliedLastWins(init, init', r, i);
      assert init'[i] == defs[i];
    }
  }

  /** A rule no definition writes keeps its initial entry. */
  lemma {:induction false} AppliedUntouched(init: map<Rule, PropertySet>, defs: seq<Definition>, r: Rule)
    requires r in init && !Writes(defs, r)
    ensures r in Applied(init, defs) && Applied(init, defs)[r] == init[r]
    decreases |defs|
  {
    if defs != [] {
      WritesPrefix(defs, r);
      AppliedUntouched(init, defs[..|defs| - 1], r);
    }
  }

  class StylesheetEditor {
    var rules: map<Rule, PropertySet>

    /** `SnyggStylesheetEditor(initRules)`: empty, or a copy of `initRules`. */
    constructor (initRules: Option<map<Rule, PropertySet>>)
      ensures rules == if initRules.Some? then initRules.value else map[]
    {
      rules := map[];
      if initRules.Some? {
        rules := rules + initRules.value;
      }
    }

    /** `String.invoke`: store `properties` under the rule built from the arguments, replacing any entry. */
    method Define(element: string, codes: seq<int>, groups: seq<int>, modes: seq<int>,
                  pressedSelector: bool, focusSelector: bool, disabledSelector: bool, properties: PropertySet)
      modifies this
      ensures rules == old(rules)[Rule(element, codes, groups, modes, pressedSelector, focusSelector, disabledSelector) := properties]
    {
      var ruleEditor := Rule(element, codes, groups, modes, pressedSelector, focusSelector, disabledSelector);
      rules := rules[ruleEditor := properties];
    }

    /** `build`: the staged rules, frozen. */
    method Build(isFullyQualified: bool) returns (ss: Stylesheet)
      ensures ss.rules == rules && ss.isFullyQualified == isFullyQualified
    {
      ss := Stylesheet(rules, isFullyQualified);
    }

    /** Run a builder block's definitions in order. */
    method DefineAll(defs: seq<Definition>)
      modifies this
      ensures rules == Applied(old(rules), defs)
    {
      ghost var init := rules;
      for i := 0 to |defs|
        invariant rules == Applied(init, defs[..i])
      {
        var d := defs[i];
        Define(d.element, d.codes, d.groups, d.modes, d.pressedSelector, d.focusSelector, d.disabledSelector, d.properties);
        assert defs[..i + 1][..i] == defs[..i] && defs[..i + 1][i] == d;
      }
      assert defs[..|defs|] == defs;
    }
  }

  /** `SnyggStylesheet.edit()`: an editor holding the stylesheet's rules. */
  method Edit(ss: Stylesheet) returns (editor: StylesheetEditor)
    ensures fresh(editor) && editor.rules == ss.rules
  {
    editor := new StylesheetEditor(Some(ss.rules));
  }

  /** `SnyggStylesheet { ... }`: a fresh editor, the block's definitions, then `build()`. */
  method BuildStylesheet(defs: seq<Definition>) returns (ss: Stylesheet)
    ensures ss == Stylesheet(Applied(map[], defs), false)
  {
    var builder := new StylesheetEditor(None);
    builder.DefineAll(defs);
    ss := builder.Build(false);
  }

  /** Editing a stylesheet and building it again gives back its rules, not yet fully qualified. */
  method EditThenBuild(ss: Stylesheet) returns (rebuilt: Stylesheet)
    ensures rebuilt == Stylesheet(ss.rules, false)
  {
    var editor := Edit(ss);
    rebuilt := editor.Build(false);
  }
}
