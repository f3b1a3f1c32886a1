/**
 * The stylesheet codec. On disk a stylesheet is a map from rule to a map from property
 * name to an encoded string. Saving encodes every value with the value's own encoder and
 * fails as a whole when one of them fails. Loading skips rules whose element the schema
 * does not know, keeps every property name of the others, and decodes each value with the
 * first of the property's encoders that accepts it, falling back to implicit-inherit.
 */
module Codec {
  import opened Wrappers
  import opened Rules
  import opened Properties
  import opened Schema
  import opened Stylesheets

  type RawProperties = map<string, string>

  type RawStylesheet = map<Rule, RawProperties>

  // ---------------------------------------------------------------------------------------
  // Saving

  /** `snyggValue.encoder().serialize(snyggValue)`: `encoderOf` gives each value its own encoder. */
  function EncodeValue(v: Value, encoderOf: Value -> Encoder): Option<string> {
    encoderOf(v).serialize(v)
  }

  /** The inner `mapValues`: every value encoded under its own name, or failure. */
  function SerializeProperties(props: map<string, Value>, encoderOf: Value -> Encoder): (raw: Option<RawProperties>)
    ensures raw.Some? <==> forall n :: n in props ==> EncodeValue(props[n], encoderOf).Some?
    ensures raw.Some? ==> raw.value.Keys == props.Keys
    ensures raw.Some? ==> forall n :: n in props ==> Some(raw.value[n]) == EncodeValue(props[n], encoderOf)
  {
    if forall n :: n in props ==> EncodeValue(props[n], encoderOf).Some?
    then Some(map n | n in props :: EncodeValue(props[n], encoderOf).value)
    else None
  }

  /** `serialize`: the raw rule map, or failure when any value fails to encode (`getOrThrow`). */
  function Serialize(ss: Stylesheet, encoderOf: Value -> Encoder): (raw: Option<RawStylesheet>)
    ensures raw.Some? <==>
      forall r, n :: r in ss.rules && n in ss.rules[r].properties ==> EncodeValue(ss.rules[r].properties[n], encoderOf).Some?
    ensures raw.Some? ==> raw.value.Keys == ss.rules.Keys
    ensures raw.Some? ==> forall r :: r in ss.rules ==> Some(raw.value[r]) == SerializeProperties(ss.rules[r].properties, encoderOf)
  {
    if forall r :: r in ss.rules ==> SerializeProperties(ss.rules[r].properties, encoderOf).Some?
    then Some(map r | r in ss.rules :: SerializeProperties(ss.rules[r].properties, encoderOf).value)
    else
      assert exists r :: r in ss.rules && !SerializeProperties(ss.rules[r].properties, encoderOf).Some?;
      None
  }

  // ---------------------------------------------------------------------------------------
  // Loading, as functions

  /** Encoder `i` is the first of `encoders` that accepts `s`. */
  ghost predicate FirstDecoding(encoders: seq<Encoder>, s: string, i: int) {
    && 0 <= i < |encoders| && encoders[i].deserialize(s).Some?
    && forall j :: 0 <= j < i ==> encoders[j].deserialize(s).None?
  }

  /** The value of the first encoder that accepts `s`, or implicit-inherit when none does. */
  function DecodeFirst(encoders: seq<Encoder>, s: string): (v: Value)
    ensures forall i :: FirstDecoding(encoders, s, i) ==> v == encoders[i].deserialize(s).value
    ensures (forall i :: 0 <= i < |encoders| ==> encoders[i].deserialize(s).None?) ==> v == ImplicitInherit
  {
    if encoders == [] then ImplicitInherit
    else match encoders[0].deserialize(s)
      case Some(x) => x
      case None =>
        assert forall i :: FirstDecoding(encoders, s, i) ==> i > 0 && FirstDecoding(encoders[1..], s, i - 1);
        DecodeFirst(encoders[1..], s)
  }

  /**
   * One raw property of a rule whose element has the schema `pss`: an unsupported name
   * reads as implicit-inherit, a supported one by its first accepting encoder.
   */
  function DecodedValue(pss: PropertySetSpec, name: string, s: string): (v: Value)
    ensures name !in SupportedNames(pss) ==> v == ImplicitInherit
    ensures PropertySpecOf(pss, name).Some? ==>
      var encoders := PropertySpecOf(pss, name).value.encoders;
      && (forall i :: FirstDecoding(encoders, s, i) ==> v == encoders[i].deserialize(s).value)
      && ((forall i :: 0 <= i < |encoders| ==> encoders[i].deserialize(s).None?) ==> v == ImplicitInherit)
  {
    match PropertySpecOf(pss, name)
    case None => ImplicitInherit
    case Some(propertySpec) => DecodeFirst(propertySpec.encoders, s)
  }

  /** The outer `mapValues`: every raw name kept, each value decoded. */
  function DecodedProperties(pss: PropertySetSpec, raw: RawProperties): (props: map<string, Value>)
    ensures props.Keys == raw.Keys
  {
    map n | n in raw :: DecodedValue(pss, n, raw[n])
  }

  /** The rules of `done` whose element the schema knows, decoded. */
  function DecodedRules(raw: RawStylesheet, done: set<Rule>, spec: StyleSpec): (rules: map<Rule, PropertySet>)
    requires done <= raw.Keys
    ensures forall r :: r in rules <==> r in done && r.element in spec.elements
  {
    map r | r in done && r.element in spec.elements :: PropertySet(DecodedProperties(spec.elements[r.element], raw[r]))
  }

  /** What `deserialize` returns. */
  function Decoded(raw: RawStylesheet, spec: StyleSpec): (ss: Stylesheet)
    ensures !ss.isFullyQualified
    ensures forall r :: r in ss.rules <==> r in raw && r.element in spec.elements
    ensures forall r :: r in ss.rules ==> ss.rules[r].properties.Keys == raw[r].Keys
  {
    Stylesheet(DecodedRules(raw, raw.Keys, spec), false)
  }

  // ---------------------------------------------------------------------------------------
  // Loading, as the source does it

  /** The encoder loop with its early `return@mapValues`. */
  method DecodeValue(pss: PropertySetSpec, name: string, s: string) returns (v: Value)
    ensures v == DecodedValue(pss, name, s)
  {
    var propertySpec := PropertySpecOf(pss, name);
    if propertySpec.Some? {
      var encoders := propertySpec.value.encoders;
      for i := 0 to |encoders|
        invariant DecodeFirst(encoders[i..], s) == DecodeFirst(encoders, s)
      {
        assert encoders[i..][0] == encoders[i] && encoders[i..][1..] == encoders[i + 1..];
        var decoded := encoders[i].deserialize(s);
        if decoded.Some? {
          return decoded.value;
        }
      }
      assert encoders[|encoders|..] == [];
    }
    return ImplicitInherit;
  }

  /** `rawProperties.mapValues { ... }`, one name at a time. */
  method DecodeProperties(pss: PropertySetSpec, rawProperties: RawProperties) returns (properties: map<string, Value>)
    ensures properties == DecodedProperties(pss, rawProperties)
  {
    properties := map[];
    var names := rawProperties.Keys;
    while names != {}
      invariant names <= rawProperties.Keys
      invariant properties.Keys == rawProperties.Keys - names
      invariant forall n :: n in properties ==> properties[n] == DecodedValue(pss, n, rawProperties[n])
      decreases names
    {
      var name :| name in names;
      names := names - {name};
      var value := DecodeValue(pss, name, rawProperties[name]);
      properties := properties[name := value];
    }
  }

  /** One more raw rule through the loading loop. */
  lemma DecodedRulesStep(raw: RawStylesheet, done: set<Rule>, rule: Rule, spec: StyleSpec)
    requires done <= raw.Keys && rule in raw && rule !in done
    ensures var before := DecodedRules(raw, done, spec);
      DecodedRules(raw, done + {rule}, spec) ==
        if rule.element in spec.elements
        then before[rule := PropertySet(DecodedProperties(spec.elements[rule.element], raw[rule]))]
        else before
  {
  }

  /** `deserialize`: fill `ruleMap` rule by rule, skipping unknown elements. */
  method Deserialize(raw: RawStylesheet, spec: StyleSpec) returns (ss: Stylesheet)
    ensures ss == Decoded(raw, spec)
  {
    var ruleMap: map<Rule, PropertySet> := map[];
    var remaining := raw.Keys;
    while remaining != {}
      invariant remaining <= raw.Keys
      invariant ruleMap == DecodedRules(raw, raw.Keys - remaining, spec)
      decreases remaining
    {
      var rule :| rule in remaining;
      ghost var done := raw.Keys - remaining;
      DecodedRulesStep(raw, done, rule, spec);
      remaining := remaining - {rule};
      assert raw.Keys - remaining == done + {rule};
      var rawProperties := raw[rule];
      var propertySetSpec := PropertySetSpecOf(spec, rule.element);
      if propertySetSpec.None? {
        continue;
      }
      var properties := DecodeProperties(propertySetSpec.value, rawProperties);
      ruleMap := ruleMap[rule := PropertySet(properties)];
    }
    assert raw.Keys - remaining == raw.Keys;
    ss := Stylesheet(ruleMap, false);
  }

  // ---------------------------------------------------------------------------------------
  // Round trip

  /** The rules of a known element, as saving then loading can at best give them back. */
  function KnownRules(rules: map<Rule, PropertySet>, spec: StyleSpec): (known: map<Rule, PropertySet>)
    ensures forall r :: r in known <==> r in rules && r.element in spec.elements
  {
    map r | r in rules && r.element in spec.elements :: rules[r]
  }

  /** Value `v` of property `name` reads back as itself once saved. */
  ghost predicate ValueRoundTrips(pss: PropertySetSpec, name: string, v: Value, encoderOf: Value -> Encoder) {
    EncodeValue(v, encoderOf).Some? ==> DecodedValue(pss, name, EncodeValue(v, encoderOf).value) == v
  }

  /** One rule's saved properties read back as themselves when each value does. */
  lemma PropertiesRoundTrip(pss: PropertySetSpec, props: map<string, Value>, encoderOf: Value -> Encoder, raw: RawProperties)
    requires SerializeProperties(props, encoderOf) == Some(raw)
    requires forall n :: n in props ==> ValueRoundTrips(pss, n, props[n], encoderOf)
    ensures DecodedProperties(pss, raw) == props
  {
    var decoded := DecodedProperties(pss, raw);
    forall n | n in props ensures decoded[n] == props[n] {
      assert Some(raw[n]) == EncodeValue(props[n], encoderOf);
      assert ValueRoundTrips(pss, n, props[n], encoderOf);
    }
  }

  /**
   * Loading what was saved gives back the rules of known elements with every property
   * name; a supported property gets its value back when that value reads back as itself,
   * an unsupported one reads as implicit-inherit.
   */
  lemma RoundTripKeepsNames(ss: Stylesheet, spec: StyleSpec, encoderOf: Value -> Encoder, raw: RawStylesheet)
    requires Serialize(ss, encoderOf) == Some(raw)
    requires forall r, n ::
      (r in ss.rules && r.element in spec.elements && n in ss.rules[r].properties &&
       n in SupportedNames(spec.elements[r.element])) ==>
      ValueRoundTrips(spec.elements[r.element], n, ss.rules[r].properties[n], encoderOf)
    ensures var decoded := Decoded(raw, spec).rules;
      && (forall r :: r in decoded <==> r in ss.rules && r.element in spec.elements)
      && (forall r :: r in decoded ==> decoded[r].properties.Keys == ss.rules[r].properties.Keys)
      && (forall r, n :: r in decoded && n in decoded[r].properties ==>
            decoded[r].properties[n] ==
              if n in SupportedNames(spec.elements[r.element]) then ss.rules[r].properties[n] else ImplicitInherit)
  {
    var decoded := Decoded(raw, spec).rules;
    forall r, n | r in decoded && n in decoded[r].properties
      ensures decoded[r].properties[n] ==
        if n in SupportedNames(spec.elements[r.element]) then ss.rules[r].properties[n] else ImplicitInherit
    {
      var props := ss.rules[r].properties;
      assert Some(raw[r]) == SerializeProperties(props, encoderOf);
      assert Some(raw[r][n]) == EncodeValue(props[n], encoderOf);
      if n in SupportedNames(spec.elements[r.element]) {
        assert ValueRoundTrips(spec.elements[r.element], n, props[n], encoderOf);
      }
    }
    forall r | r in decoded ensures decoded[r].properties.Keys == ss.rules[r].properties.Keys {
      assert Some(raw[r]) == SerializeProperties(ss.rules[r].properties, encoderOf);
    }
  }

  /**
   * Loading what was saved gives back the rules of known elements, as long as every value
   * reads back as itself; the fully qualified flag is not saved.
   */
  lemma RoundTrip(ss: Stylesheet, spec: StyleSpec, encoderOf: Value -> Encoder, raw: RawStylesheet)
    requires Serialize(ss, encoderOf) == Some(raw)
    requires forall r, n :: r in ss.rules && r.element in spec.elements && n in ss.rules[r].properties ==>
      ValueRoundTrips(spec.elements[r.element], n, ss.rules[r].properties[n], encoderOf)
    ensures Decoded(raw, spec) == Stylesheet(KnownRules(ss.rules, spec), false)
  {
    var decoded := Decoded(raw, spec).rules;
    var known := KnownRules(ss.rules, spec);
    forall r | r in known ensures decoded[r] == known[r] {
      var props := ss.rules[r].properties;
      assert Some(raw[r]) == SerializeProperties(props, encoderOf);
      PropertiesRoundTrip(spec.elements[r.element], props, encoderOf, raw[r]);
    }
    assert decoded.Keys == known.Keys;
  }

  /** A value whose own encoder comes first among its supported property's encoders reads back. */
  lemma OwnEncoderFirstRoundTrips(pss: PropertySetSpec, name: string, v: Value, encoderOf: Value -> Encoder)
    requires PropertySpecOf(pss, name).Some?
    requires var encoders := PropertySpecOf(pss, name).value.encoders;
      |encoders| > 0 && encoders[0] == encoderOf(v)
    requires forall s :: encoderOf(v).serialize(v) == Some(s) ==> encoderOf(v).deserialize(s) == Some(v)
    ensures ValueRoundTrips(pss, name, v, encoderOf)
  {
    var encoders := PropertySpecOf(pss, name).value.encoders;
    if EncodeValue(v, encoderOf).Some? {
      var s := EncodeValue(v, encoderOf).value;
      assert FirstDecoding(encoders, s, 0);
    }
  }

  /** Implicit-inherit under a name the schema does not support reads back, whatever it encodes to. */
  lemma UnsupportedInheritRoundTrips(pss: PropertySetSpec, name: string, encoderOf: Value -> Encoder)
    requires name !in SupportedNames(pss)
    ensures ValueRoundTrips(pss, name, ImplicitInherit, encoderOf)
  {
  }
}
