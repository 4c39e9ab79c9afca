/** The field maps a step passes to a factory: an ordered PHP array from field name to value. */
module FieldSets {

  datatype Field = Field(name: string, value: string)

  /** Ordered (name, value) pairs; `array('bar_field' => 'x')` is `[Field("bar_field", "x")]`. */
  type FieldSet = seq<Field>

  /** A PHP array never holds the same key twice. */
  predicate DistinctNames(fields: FieldSet)
  {
    forall i, j :: 0 <= i < j < |fields| ==> fields[i].name != fields[j].name
  }

  /** `name` is one of the keys of `fields`. */
  predicate Lists(fields: FieldSet, name: string)
  {
    exists i :: 0 <= i < |fields| && fields[i].name == name
  }
}
