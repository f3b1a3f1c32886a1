# Snygg stylesheet cascade, modelled in Dafny

This project models the stylesheet core of FlorisBoard's "Snygg" theming engine
(`SnyggStylesheet.kt`). A stylesheet maps selector rules to property sets. A rule names an
element and carries code, group and mode lists, plus three pseudo-state flags (pressed,
focus, disabled). A property set maps property names to values. A value is either a
concrete value or the `ImplicitInherit` sentinel. The model covers five pieces:

- **Point lookup** (`getPropertySet`). It scans the rules of one element from the highest
  rank down and returns the first rule that matches the query. With no match it returns
  the lowest-ranked rule of that element. With no rule for the element it returns the
  empty fallback set.
- **Candidate lookup** (`getPropertySets`). It returns the sets of all rules compatible
  with a reference rule, in descending rank.
- **Cascade compile** (`compileToFullyQualified`).
  - The first loop walks the rules in ascending rank and drops rules whose element the
    schema does not know.
  - It fills every supported property a rule leaves unset. The value comes from the
    rules already compiled, or is `ImplicitInherit`.
  - The second loop adds a pressed variant for every unpressed rule that lacks one.
- **Codec** (`SnyggStylesheetSerializer`). Saving encodes every value with the value's own
  encoder. Loading drops unknown elements and decodes each value with the first encoder
  that accepts it.
- **Editor and builder** (`SnyggStylesheetEditor`, `edit()`, the `SnyggStylesheet { }`
  block builder). The editor is a mutable staging map, and `build()` freezes it.

Layout, one module per file:

| file | module | contents |
|---|---|---|
| `wrappers.dfy` | `Wrappers` | `Option` |
| `properties.dfy` | `Properties` | values, property sets, the fallback set |
| `rules.dfy` | `Rules` | rules, queries, the match and compatibility tests |
| `ordering.dfy` | `Ordering` | the rule order and sorting |
| `schema.dfy` | `Schema` | the style schema and encoders |
| `stylesheet.dfy` | `Stylesheets` | the stylesheet, candidate lookup, point lookup |
| `cascade.dfy` | `Cascade` | compile, as functions and as the source's two loops |
| `cascade_properties.dfy` | `CascadeProperties` | what compile guarantees |
| `inheritance.dfy` | `Inheritance` | an order-free definition of the inherited value |
| `codec.dfy` | `Codec` | save and load, and the round trip |
| `editor.dfy` | `Editor` | the editor class and the block builder |

Modelling choices:

- **Rule order.** The rule order (`SnyggRule.compareTo`) is defined in another file. It is
  modelled as a rank function `Rule -> int`, required to be injective on the rules being
  sorted. Every strict total order on a finite set has this form.
- **Concrete values.** Concrete values are an abstract type `Datum`.
- **Schema.** The schema (`SnyggSpec`) is a parameter. It maps each known element to its
  ordered supported properties, each with an ordered list of encoders.
- **Encoders.** An encoder is a pair of partial functions.
- **A value's own encoder.** `encoderOf: Value -> Encoder` gives each value its own encoder
  (`snyggValue.encoder()`).
- **`Unspecified`.** `Unspecified` is Kotlin's `Int.MIN_VALUE`, written out literally.
- **Mutable state.** The editor's mutable map is a class field.
- **Source loops.** The source's loops are methods. Each is proved equal to a pure
  specification function, and the lemmas are stated about those functions.

Compile is written as three methods: the first loop, the second loop, and a method that
runs both. The source itself marks this function with "TODO: divide in smaller, testable
sections".

When loading, the code (`SnyggStylesheet.kt:224-233`) keeps a property whose name the schema does
not support, and gives it `ImplicitInherit`. The model does the same.
`Codec.RoundTripKeepsNames` states the resulting round trip. A saved value under an
unsupported name comes back as `ImplicitInherit`.

When the second loop fills in a synthesised pressed variant, it looks up candidates among all input rules
(line 132). That set includes rules narrower than the variant. The pressed variant of a rule
without codes therefore takes a property from a rule of the same selector narrowed to some
codes whenever that narrower rule is the highest-ranked compatible one setting the property.
The model keeps this behaviour, and `CascadeProperties.WildcardPressedTakesNarrowerValue`
states it.

## Model

All source paths are relative to the repository root.

| member | source | states |
|---|---|---|
| Rules.Pressed | app/src/main/java/dev/patrickgold/florisboard/snygg/SnyggStylesheet.kt:129 | `rule.copy(pressedSelector = true)`: the result is pressed and equals `rule` in every other field |
| Rules.DimensionMatches | app/src/main/java/dev/patrickgold/florisboard/snygg/SnyggStylesheet.kt:66-68 | defines one dimension of the point-lookup match: the query leaves it unspecified, the rule's list is empty, or the list holds the query's value |
| Rules.FlagMatches | app/src/main/java/dev/patrickgold/florisboard/snygg/SnyggStylesheet.kt:69-71 | defines one pseudo-state test: a rule flag that is set demands the state, a clear one accepts either |
| Rules.Matches | app/src/main/java/dev/patrickgold/florisboard/snygg/SnyggStylesheet.kt:66-71 | defines the point-lookup match: all three dimensions and all three flags match |
| Rules.DimensionCompatible | app/src/main/java/dev/patrickgold/florisboard/snygg/SnyggStylesheet.kt:45-47 | defines one dimension of cascade compatibility: either list is empty, or they share a value |
| Rules.Compatible | app/src/main/java/dev/patrickgold/florisboard/snygg/SnyggStylesheet.kt:44-50 | defines the cascade candidate test: same element, every dimension compatible, every set flag of the rule also set on the reference |
| Rules.DimensionCompatibleReflexive | app/src/main/java/dev/patrickgold/florisboard/snygg/SnyggStylesheet.kt:45-47 | every code/group/mode list is compatible with itself |
| Rules.CompatibleReflexive | app/src/main/java/dev/patrickgold/florisboard/snygg/SnyggStylesheet.kt:44-50 | every rule is a cascade candidate for itself |
| Rules.CompatibleWithOwnPressed | app/src/main/java/dev/patrickgold/florisboard/snygg/SnyggStylesheet.kt:129-132 | every rule is a cascade candidate for its own pressed copy, so that copy's candidates include the rule |
| Rules.MatchesOwnQuery | app/src/main/java/dev/patrickgold/florisboard/snygg/SnyggStylesheet.kt:66-71 | a rule matches the point query made of its element, the first value of each list (unspecified for an empty list) and its flags |
| Rules.DimensionCompatibleSymmetric | app/src/main/java/dev/patrickgold/florisboard/snygg/SnyggStylesheet.kt:45-47 | the code/group/mode compatibility test does not depend on which rule is the reference |
| Rules.MatchImpliesCompatible | app/src/main/java/dev/patrickgold/florisboard/snygg/SnyggStylesheet.kt:44-50 | a rule that matches a point query (lines 66-71) is a cascade candidate for a reference rule whose lists are the query's values and whose flags are the query's flags |
| Ordering.Sorted | app/src/main/java/dev/patrickgold/florisboard/snygg/SnyggStylesheet.kt:110 | `rules.keys.sorted()`: a permutation of the set (same size, same members) in strictly ascending rank |
| Ordering.SortedDescending | app/src/main/java/dev/patrickgold/florisboard/snygg/SnyggStylesheet.kt:64 | `sortedDescending()`: a permutation of the set in strictly descending rank |
| Ordering.AscendingPrefix | app/src/main/java/dev/patrickgold/florisboard/snygg/SnyggStylesheet.kt:110 | in an ascending list, the rules before position k are exactly the listed rules ranked below the k-th |
| Schema.PropertySetSpecOf | app/src/main/java/dev/patrickgold/florisboard/snygg/SnyggStylesheet.kt:112 | `propertySetSpec(element)` is present exactly when the schema knows the element |
| Schema.IndexOfName | app/src/main/java/dev/patrickgold/florisboard/snygg/SnyggStylesheet.kt:225 | the position of the first supported property with the name, or none when no supported property has it |
| Schema.PropertySpecOf | app/src/main/java/dev/patrickgold/florisboard/snygg/SnyggStylesheet.kt:225 | `propertySpec(name)` is present exactly when the name is supported, and then carries that name |
| Stylesheets.CandidateRules | app/src/main/java/dev/patrickgold/florisboard/snygg/SnyggStylesheet.kt:43-51 | the filtered, sorted rules: exactly the compatible rules, each once, in descending rank |
| Stylesheets.GetPropertySets | app/src/main/java/dev/patrickgold/florisboard/snygg/SnyggStylesheet.kt:43-51 | one set per candidate rule, position by position |
| Stylesheets.GetPropertySetsExact | app/src/main/java/dev/patrickgold/florisboard/snygg/SnyggStylesheet.kt:43-51 | without the sort: as many sets as compatible rules, the set of every compatible rule occurs, and every set is the set of a compatible rule |
| Stylesheets.GetPropertySet | app/src/main/java/dev/patrickgold/florisboard/snygg/SnyggStylesheet.kt:54-77 | with a matching rule of the element, the set of the highest-ranked match; with rules of the element but no match, the set of its lowest-ranked rule; with no rule of the element, the empty fallback set (line 37) |
| Cascade.CompileRule | app/src/main/java/dev/patrickgold/florisboard/snygg/SnyggStylesheet.kt:111-122 | defines the first pass for one rule: its own set completed from the candidates among the rules compiled before it |
| Cascade.PressedVariants | app/src/main/java/dev/patrickgold/florisboard/snygg/SnyggStylesheet.kt:127-130 | defines which pressed copies the second loop adds: one per unpressed rule of a known element whose pressed copy is not compiled |
| Cascade.SynthesizedSet | app/src/main/java/dev/patrickgold/florisboard/snygg/SnyggStylesheet.kt:131-141 | defines a new pressed copy's set: the supported names filled from the input candidates, then the compiled ones |
| Cascade.Compiled | app/src/main/java/dev/patrickgold/florisboard/snygg/SnyggStylesheet.kt:108-146 | defines what compile returns: the first pass plus the synthesised pressed copies, flagged fully qualified |
| Cascade.FirstDefined | app/src/main/java/dev/patrickgold/florisboard/snygg/SnyggStylesheet.kt:116-118 | `firstNotNullOfOrNull ?: ImplicitInherit`: the value of the first candidate that sets the name, or implicit-inherit when none does |
| Cascade.FillMissing | app/src/main/java/dev/patrickgold/florisboard/snygg/SnyggStylesheet.kt:114-121 | the filled set has the original names plus every supported name; original values are kept; every added value is the first defining candidate's |
| Cascade.FillFromCandidates | app/src/main/java/dev/patrickgold/florisboard/snygg/SnyggStylesheet.kt:114-121 | the `forEach` loop over the supported properties computes `FillMissing` |
| Cascade.Accumulated | app/src/main/java/dev/patrickgold/florisboard/snygg/SnyggStylesheet.kt:110-123 | after the first loop over an order, `newRules` holds exactly the listed rules of known elements |
| Cascade.FirstPassOf | app/src/main/java/dev/patrickgold/florisboard/snygg/SnyggStylesheet.kt:110-123 | the first loop keeps exactly the rules whose element the schema knows |
| Cascade.AccumulatedStep | app/src/main/java/dev/patrickgold/florisboard/snygg/SnyggStylesheet.kt:112-122 | one loop iteration: a rule of a known element is added with its compiled set, any other is skipped |
| Cascade.CompileStepIs | app/src/main/java/dev/patrickgold/florisboard/snygg/SnyggStylesheet.kt:111-122 | for a rule of a known element, the step compiles the rule's own set against the rules compiled before it |
| Cascade.CompileInOrder | app/src/main/java/dev/patrickgold/florisboard/snygg/SnyggStylesheet.kt:109-123 | the first loop computes the first pass |
| Cascade.PressedVariantsStep | app/src/main/java/dev/patrickgold/florisboard/snygg/SnyggStylesheet.kt:127-130 | one more rule adds a pressed variant exactly when it is unpressed, its element is known and its pressed copy is not compiled |
| Cascade.VariantsStep | app/src/main/java/dev/patrickgold/florisboard/snygg/SnyggStylesheet.kt:125-142 | one iteration of the second loop keeps its invariant: processed rules copied, their missing pressed variants synthesised |
| Cascade.VariantsDone | app/src/main/java/dev/patrickgold/florisboard/snygg/SnyggStylesheet.kt:124-144 | once every rule is processed, the map is the first pass plus the synthesised variants |
| Cascade.AddPressedVariants | app/src/main/java/dev/patrickgold/florisboard/snygg/SnyggStylesheet.kt:124-144 | the second loop, in any iteration order, computes the first pass plus the synthesised pressed variants |
| Cascade.CompileToFullyQualified | app/src/main/java/dev/patrickgold/florisboard/snygg/SnyggStylesheet.kt:108-146 | the whole compile returns `Compiled`, flagged fully qualified |
| Cascade.InjectiveOnSubset | app/src/main/java/dev/patrickgold/florisboard/snygg/SnyggStylesheet.kt:113 | the rule order stays a strict order on the rules compiled so far |
| CascadeProperties.DistinctPrefix | app/src/main/java/dev/patrickgold/florisboard/snygg/SnyggStylesheet.kt:110 | a prefix of a list without repeats has no repeats |
| CascadeProperties.NotLast | app/src/main/java/dev/patrickgold/florisboard/snygg/SnyggStylesheet.kt:110 | in a list without repeats, a rule before position k is not the last rule |
| CascadeProperties.AccumulatedPrefix | app/src/main/java/dev/patrickgold/florisboard/snygg/SnyggStylesheet.kt:110-123 | a rule compiled early keeps its set to the end of the first loop |
| CascadeProperties.AccumulatedAt | app/src/main/java/dev/patrickgold/florisboard/snygg/SnyggStylesheet.kt:113-122 | the rule at position k gets the set computed from the rules compiled before it |
| CascadeProperties.Below | app/src/main/java/dev/patrickgold/florisboard/snygg/SnyggStylesheet.kt:113 | the compiled rules ranked below a rule, with their sets |
| CascadeProperties.AscendingIsDistinct | app/src/main/java/dev/patrickgold/florisboard/snygg/SnyggStylesheet.kt:110 | the sorted order has no repeats |
| CascadeProperties.BelowUnique | app/src/main/java/dev/patrickgold/florisboard/snygg/SnyggStylesheet.kt:113 | a part of the compiled map that holds exactly its rules ranked below `x` is `Below` |
| CascadeProperties.PrefixIsBelow | app/src/main/java/dev/patrickgold/florisboard/snygg/SnyggStylesheet.kt:110-113 | in ascending order, `newRules` when a rule is reached is exactly the compiled rules ranked below it |
| CascadeProperties.FirstPassOfAt | app/src/main/java/dev/patrickgold/florisboard/snygg/SnyggStylesheet.kt:110-122 | every kept rule is compiled against the compiled rules ranked below it |
| CascadeProperties.WithVariantsSplit | app/src/main/java/dev/patrickgold/florisboard/snygg/SnyggStylesheet.kt:124-144 | the second loop keeps every compiled rule and its set, and adds each missing pressed variant of a known element, never over a compiled rule |
| CascadeProperties.CompiledSplit | app/src/main/java/dev/patrickgold/florisboard/snygg/SnyggStylesheet.kt:124-145 | the compiled stylesheet is the first pass plus the pressed variants; compiled rules are unchanged; each variant gets the synthesised set |
| CascadeProperties.CompiledRules | app/src/main/java/dev/patrickgold/florisboard/snygg/SnyggStylesheet.kt:110-145 | the result holds exactly the rules of known elements, plus the pressed copy of each such unpressed rule |
| CascadeProperties.CompiledRuleSet | app/src/main/java/dev/patrickgold/florisboard/snygg/SnyggStylesheet.kt:111-126 | a kept rule keeps every explicit value and gains exactly its element's supported names |
| CascadeProperties.CompiledInherits | app/src/main/java/dev/patrickgold/florisboard/snygg/SnyggStylesheet.kt:113-119 | an unset supported property takes the value set by the highest-ranked compatible rule compiled below it, else implicit-inherit |
| CascadeProperties.FirstPassComplete | app/src/main/java/dev/patrickgold/florisboard/snygg/SnyggStylesheet.kt:114-122 | every compiled rule sets every property its element supports |
| CascadeProperties.CompiledInheritsFromNearest | app/src/main/java/dev/patrickgold/florisboard/snygg/SnyggStylesheet.kt:113-119 | an unset supported property comes from the nearest compatible rule below; with no compatible rule below, it is implicit-inherit |
| CascadeProperties.CompiledPressedSet | app/src/main/java/dev/patrickgold/florisboard/snygg/SnyggStylesheet.kt:127-141 | the pressed copy of an unpressed rule the input lacks is present with the synthesised set |
| CascadeProperties.SynthesizedSetValues | app/src/main/java/dev/patrickgold/florisboard/snygg/SnyggStylesheet.kt:131-141 | a synthesised set has exactly the supported names; each value is the highest-ranked compatible input rule's, else the highest-ranked compatible compiled rule's, else implicit-inherit |
| CascadeProperties.CompiledPressedFromNearest | app/src/main/java/dev/patrickgold/florisboard/snygg/SnyggStylesheet.kt:127-141 | a missing pressed copy takes each supported property from the highest-ranked input rule compatible with it that sets the property |
| CascadeProperties.PressedVariantKeepsOwnValue | app/src/main/java/dev/patrickgold/florisboard/snygg/SnyggStylesheet.kt:127-141 | a rule that is the only compatible input rule setting a property passes its own value on to its missing pressed copy |
| CascadeProperties.WildcardPressedTakesNarrowerValue | app/src/main/java/dev/patrickgold/florisboard/snygg/SnyggStylesheet.kt:132 | the pressed copy of a rule without codes takes a value from the same selector narrowed to codes, when that rule ranks highest among those setting it |
| CascadeProperties.IsFullyQualified | app/src/main/java/dev/patrickgold/florisboard/snygg/SnyggStylesheet.kt:145 | defines what the fully-qualified flag promises: known elements only, every supported property set, every unpressed rule with its pressed copy |
| CascadeProperties.CompiledIsFullyQualified | app/src/main/java/dev/patrickgold/florisboard/snygg/SnyggStylesheet.kt:108-146 | the result is flagged fully qualified and is so: known elements only, every supported property set, every unpressed rule with its pressed variant |
| CascadeProperties.NamesOfFilled | app/src/main/java/dev/patrickgold/florisboard/snygg/SnyggStylesheet.kt:131-140 | a set filled from empty has exactly the supported names |
| CascadeProperties.CompileFullyQualifiedUnchanged | app/src/main/java/dev/patrickgold/florisboard/snygg/SnyggStylesheet.kt:108-146 | compiling a fully qualified stylesheet returns its rules unchanged |
| CascadeProperties.SameProperties | app/src/main/java/dev/patrickgold/florisboard/snygg/SnyggStylesheet.kt:114-121 | filling a set that already holds every supported name changes nothing |
| CascadeProperties.CompileIdempotent | app/src/main/java/dev/patrickgold/florisboard/snygg/SnyggStylesheet.kt:108-146 | compiling twice gives the same stylesheet as compiling once |
| Inheritance.NearestDefiningUnique | app/src/main/java/dev/patrickgold/florisboard/snygg/SnyggStylesheet.kt:51 | the highest-ranked compatible rule setting a name is unique |
| Inheritance.FirstDefiningExists | app/src/main/java/dev/patrickgold/florisboard/snygg/SnyggStylesheet.kt:116-118 | when some candidate sets the name, a first one does |
| Inheritance.ListingOfLookup | app/src/main/java/dev/patrickgold/florisboard/snygg/SnyggStylesheet.kt:43-51 | the candidate lookup lists the compatible rules' sets in descending rank |
| Inheritance.FirstDefiningIsNearest | app/src/main/java/dev/patrickgold/florisboard/snygg/SnyggStylesheet.kt:116-118 | the first listed candidate setting a name belongs to the highest-ranked compatible rule setting it |
| Inheritance.NearestDefiningExists | app/src/main/java/dev/patrickgold/florisboard/snygg/SnyggStylesheet.kt:43-51 | a highest-ranked compatible rule setting a name exists exactly when some compatible rule sets it |
| Inheritance.Inherited | app/src/main/java/dev/patrickgold/florisboard/snygg/SnyggStylesheet.kt:113-118 | defines the inherited value without reference to list order: the value of the highest-ranked compatible rule setting the name, else implicit-inherit |
| Inheritance.InheritedFromNearest | app/src/main/java/dev/patrickgold/florisboard/snygg/SnyggStylesheet.kt:116-118 | the inherited value is the highest-ranked compatible rule's value |
| Inheritance.FirstDefinedIsInherited | app/src/main/java/dev/patrickgold/florisboard/snygg/SnyggStylesheet.kt:113-118 | the first defining set of the sorted candidate lookup is the order-free inherited value |
| Inheritance.ListingDefines | app/src/main/java/dev/patrickgold/florisboard/snygg/SnyggStylesheet.kt:43-51 | some listed set sets a name exactly when some compatible rule does |
| Inheritance.LookupDefines | app/src/main/java/dev/patrickgold/florisboard/snygg/SnyggStylesheet.kt:43-51 | some looked-up set sets a name exactly when some compatible rule does |
| Inheritance.FirstDefinedAppend | app/src/main/java/dev/patrickgold/florisboard/snygg/SnyggStylesheet.kt:132-137 | over two candidate lists in a row, the first list wins wherever it sets the name |
| Codec.EncodeValue | app/src/main/java/dev/patrickgold/florisboard/snygg/SnyggStylesheet.kt:211 | defines how one value is saved: with the encoder the value itself names |
| Codec.SerializeProperties | app/src/main/java/dev/patrickgold/florisboard/snygg/SnyggStylesheet.kt:210-212 | succeeds exactly when every value encodes; then same names, each value encoded by its own encoder |
| Codec.Serialize | app/src/main/java/dev/patrickgold/florisboard/snygg/SnyggStylesheet.kt:208-215 | succeeds exactly when every value of every rule encodes; then same rules, each set encoded |
| Codec.DecodeFirst | app/src/main/java/dev/patrickgold/florisboard/snygg/SnyggStylesheet.kt:227-233 | the value of the first encoder that accepts the string, or implicit-inherit when none does |
| Codec.DecodedValue | app/src/main/java/dev/patrickgold/florisboard/snygg/SnyggStylesheet.kt:224-234 | an unsupported name reads as implicit-inherit; a supported one by its first accepting encoder, else implicit-inherit |
| Codec.DecodedProperties | app/src/main/java/dev/patrickgold/florisboard/snygg/SnyggStylesheet.kt:224-234 | every raw property name is kept |
| Codec.DecodedRules | app/src/main/java/dev/patrickgold/florisboard/snygg/SnyggStylesheet.kt:220-236 | the processed raw rules of known elements, each decoded |
| Codec.Decoded | app/src/main/java/dev/patrickgold/florisboard/snygg/SnyggStylesheet.kt:217-238 | not fully qualified; exactly the raw rules of known elements; each with all its raw property names |
| Codec.DecodeValue | app/src/main/java/dev/patrickgold/florisboard/snygg/SnyggStylesheet.kt:225-233 | the encoder loop with early return computes `DecodedValue` |
| Codec.DecodeProperties | app/src/main/java/dev/patrickgold/florisboard/snygg/SnyggStylesheet.kt:224-234 | decoding each raw name in turn computes `DecodedProperties` |
| Codec.DecodedRulesStep | app/src/main/java/dev/patrickgold/florisboard/snygg/SnyggStylesheet.kt:223-235 | one raw rule: known elements are added decoded, unknown ones skipped |
| Codec.Deserialize | app/src/main/java/dev/patrickgold/florisboard/snygg/SnyggStylesheet.kt:217-238 | the loading loop, in any iteration order, computes `Decoded` |
| Codec.KnownRules | app/src/main/java/dev/patrickgold/florisboard/snygg/SnyggStylesheet.kt:223 | the rules whose element the schema knows |
| Codec.PropertiesRoundTrip | app/src/main/java/dev/patrickgold/florisboard/snygg/SnyggStylesheet.kt:210-234 | a saved set reads back as itself when each of its values does |
| Codec.RoundTripKeepsNames | app/src/main/java/dev/patrickgold/florisboard/snygg/SnyggStylesheet.kt:208-238 | loading what was saved gives the known-element rules with all their names; supported values come back, unsupported ones as implicit-inherit |
| Codec.RoundTrip | app/src/main/java/dev/patrickgold/florisboard/snygg/SnyggStylesheet.kt:208-238 | loading what was saved gives back exactly the known-element rules, unflagged, when every value reads back |
| Codec.OwnEncoderFirstRoundTrips | app/src/main/java/dev/patrickgold/florisboard/snygg/SnyggStylesheet.kt:211-230 | a value reads back when its own encoder comes first among its property's encoders and inverts its own output |
| Codec.UnsupportedInheritRoundTrips | app/src/main/java/dev/patrickgold/florisboard/snygg/SnyggStylesheet.kt:225-233 | implicit-inherit under an unsupported name always reads back |
| Editor.Applied | app/src/main/java/dev/patrickgold/florisboard/snygg/SnyggStylesheet.kt:158 | defines the staging map after a block's definitions run in order: each stores its set under its rule, over any earlier entry |
| Editor.WritesPrefix | app/src/main/java/dev/patrickgold/florisboard/snygg/SnyggStylesheet.kt:156-160 | a rule is written by a definition list exactly when it is written by all but the last definition, or by the last |
| Editor.AppliedKeys | app/src/main/java/dev/patrickgold/florisboard/snygg/SnyggStylesheet.kt:191 | after a run of definitions, the staged rules are the initial ones plus every rule some definition writes |
| Editor.AppliedLastWins | app/src/main/java/dev/patrickgold/florisboard/snygg/SnyggStylesheet.kt:191 | the last definition of a rule decides its set |
| Editor.AppliedUntouched | app/src/main/java/dev/patrickgold/florisboard/snygg/SnyggStylesheet.kt:191 | a rule no definition writes keeps its initial set |
| Editor.StylesheetEditor.constructor | app/src/main/java/dev/patrickgold/florisboard/snygg/SnyggStylesheet.kt:162-169 | the staging map starts empty, or as a copy of the initial rules |
| Editor.StylesheetEditor.Define | app/src/main/java/dev/patrickgold/florisboard/snygg/SnyggStylesheet.kt:171-192 | `String.invoke` stores the set under the rule built from the arguments, replacing any entry, and changes nothing else |
| Editor.StylesheetEditor.Build | app/src/main/java/dev/patrickgold/florisboard/snygg/SnyggStylesheet.kt:194-199 | `build` freezes the staged rules with the given flag |
| Editor.StylesheetEditor.DefineAll | app/src/main/java/dev/patrickgold/florisboard/snygg/SnyggStylesheet.kt:158 | running a block's definitions in order yields `Applied` |
| Editor.Edit | app/src/main/java/dev/patrickgold/florisboard/snygg/SnyggStylesheet.kt:148-153 | `edit()` gives a new editor holding the stylesheet's rules |
| Editor.BuildStylesheet | app/src/main/java/dev/patrickgold/florisboard/snygg/SnyggStylesheet.kt:156-160 | the block builder yields the definitions applied to an empty map, not fully qualified |
| Editor.EditThenBuild | app/src/main/java/dev/patrickgold/florisboard/snygg/SnyggStylesheet.kt:148-153 | editing and then building gives back the same rules, not fully qualified |

## Left out

- `get` (lines 80-91): Compose memoisation around `getPropertySet`. It is UI wiring with
  nothing to prove.
- `getStatic` (lines 93-101): a direct call of `getPropertySet`, which is modelled.
- `plus` (lines 103-105): its body is `TODO()`, so it has no behaviour to model.
- The kotlinx.serialization framing (`KSerializer`, `MapSerializer`, the descriptor, the
  encoder and decoder streams). Saving and loading are modelled as transformations between
  the rule map and the raw map of strings.
- The hard-coded `FlorisImeUiSpec` (line 222). The schema is a parameter everywhere.
- The concrete value types and encoders, and how `SnyggPropertySet` and
  `SnyggPropertySetEditor` work inside. These are defined in other files. Values are
  abstract, and `edit()`/`build()` on a property set or a rule is the identity.
- `SnyggRule.compareTo` is defined in another file. All the model assumes is that it is a
  strict total order on the rules being sorted (an injective rank). Rules that compare
  equal without being equal are not modelled.
- The encoder lookup `propertySpec(name)` is defined in another file. It is modelled as
  the first supported property with that name.
- Map iteration order (`mutableMapOf` keeps insertion order). It affects only the order of
  entries in the result, and both map-filling loops are proved correct for any iteration
  order.
- Exceptions: `getOrThrow` in `serialize` is modelled as the whole save returning `None`.
  The `!!` lookups in the source never fail on the keys the model uses.
- `Rules.Rule`: codes, groups and modes are unbounded integers, not 32-bit `Int`. The only
  32-bit constant the source relies on, `Int.MIN_VALUE`, is modelled exactly.
- `ThemeScreen.kt` is not part of this model; it is settings-screen UI code.
- CompileIdempotent: requires the rule order to be strict on the compiled rules as well as
  on the input. With an abstract rank, a pressed copy could otherwise tie with another rule.
