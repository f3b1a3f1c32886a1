/**
 * Style values and property sets.
 *
 * A property set maps a property name to a value. A value is either a concrete,
 * schema-defined value (a colour, a size, an enum member, ...) whose structure this
 * model leaves abstract, or the sentinel `ImplicitInherit`, which tells the renderer
 * to resolve the property from its context.
 */
module Properties {

  /** A concrete style value; its kinds and encodings are defined outside the stylesheet. */
  type Datum(==)

  datatype Value = ImplicitInherit | Concrete(datum: Datum)

  datatype PropertySet = PropertySet(properties: map<string, Value>)

  /** The empty set returned by a point lookup for an element without rules. */
  const FallbackPropertySet: PropertySet := PropertySet(map[])
}
