/** The Kafka Connect schemas the inference produces, as plain values compared
    structurally. Names, versions, defaults and documentation of a Connect schema
    play no part in the inference and are not modelled. */
module Schemas {

  /** The primitive Connect types the inference can produce. */
  datatype Prim = String | Boolean | Int32 | Int64 | Float64

  datatype Schema =
    | Primitive(prim: Prim, optional: bool)
    | Struct(fields: seq<Field>, optional: bool)
    | Array(elem: Schema, optional: bool)

  /** One named field of a struct schema, in declaration order. */
  datatype Field = Field(name: string, schema: Schema)

  /** No two fields of `fs` share a name. */
  ghost predicate UniqueNames(fs: seq<Field>) {
    forall i, j :: 0 <= i < j < |fs| ==> fs[i].name != fs[j].name
  }

  /** The shape every inferred schema has: each node, at every depth, is
      optional, and the fields of each struct have distinct names. */
  ghost predicate WellFormed(s: Schema) {
    match s
    case Primitive(_, optional) => optional
    case Array(elem, optional) => optional && WellFormed(elem)
    case Struct(fields, optional) =>
      optional && UniqueNames(fields) && forall i :: 0 <= i < |fields| ==> WellFormed(fields[i].schema)
  }

  /** The fields of a struct under construction are well formed. */
  ghost predicate FieldsWellFormed(fs: seq<Field>) {
    UniqueNames(fs) && forall i :: 0 <= i < |fs| ==> WellFormed(fs[i].schema)
  }
}
