/**
 * The style schema the stylesheet is checked against. It is supplied by the caller:
 * for each styleable element, the ordered list of supported properties, and for each
 * property the ordered list of encoders that may read its value.
 */
module Schema {
  import opened Wrappers
  import opened Properties

  /** A value encoder: `serialize` may reject a value, `deserialize` may reject a string. */
  datatype Encoder = Encoder(serialize: Value -> Option<string>, deserialize: string -> Option<Value>)

  datatype PropertySpec = PropertySpec(name: string, encoders: seq<Encoder>)

  datatype PropertySetSpec = PropertySetSpec(supportedProperties: seq<PropertySpec>)

  /** `propertySetSpec(element)` is `elements[element]` when present, and absent otherwise. */
  datatype StyleSpec = StyleSpec(elements: map<string, PropertySetSpec>)

  function PropertySetSpecOf(spec: StyleSpec, element: string): (r: Option<PropertySetSpec>)
    ensures r.Some? <==> element in spec.elements
  {
    if element in spec.elements then Some(spec.elements[element]) else None
  }

  /** The names of a list of property specs. */
  function NamesOf(props: seq<PropertySpec>): (names: set<string>)
    ensures forall n :: n in names <==> exists i :: 0 <= i < |props| && props[i].name == n
  {
    set i | 0 <= i < |props| :: props[i].name
  }

  lemma NamesOfCons(props: seq<PropertySpec>)
    requires props != []
    ensures NamesOf(props) == {props[0].name} + NamesOf(props[1..])
  {
    forall n | n in NamesOf(props) ensures n in {props[0].name} + NamesOf(props[1..]) {
      var i :| 0 <= i < |props| && props[i].name == n;
      if i > 0 { assert props[1..][i - 1].name == n; }
    }
    forall n | n in NamesOf(props[1..]) ensures n in NamesOf(props) {
      var i :| 0 <= i < |props[1..]| && props[1..][i].name == n;
      assert props[i + 1].name == n;
    }
  }

  function SupportedNames(pss: PropertySetSpec): set<string> {
    NamesOf(pss.supportedProperties)
  }

  /** The position of the first supported property called `name`, looking from `from` on. */
  function IndexOfName(props: seq<PropertySpec>, name: string, from: nat): (r: Option<nat>)
    requires from <= |props|
    ensures r.None? <==> forall i :: from <= i < |props| ==> props[i].name != name
    ensures r.Some? ==> from <= r.value < |props| && props[r.value].name == name
    ensures r.Some? ==> forall i :: from <= i < r.value ==> props[i].name != name
    decreases |props| - from
  {
    if from == |props| then None
    else if props[from].name == name then Some(from)
    else IndexOfName(props, name, from + 1)
  }

  /** `propertySpec(name)`: the first supported property with that name, if any. */
  function PropertySpecOf(pss: PropertySetSpec, name: string): (r: Option<PropertySpec>)
    ensures r.Some? <==> name in SupportedNames(pss)
    ensures r.Some? ==> r.value.name == name
  {
    match IndexOfName(pss.supportedProperties, name, 0)
    case None => None
    case Some(i) => Some(pss.supportedProperties[i])
  }
}
