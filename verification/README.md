# Outbox payload schema inference, modelled in Dafny

The Debezium outbox event router can derive the Kafka Connect schema of a JSON
payload from the payload itself. `SchemaBuilderUtil` walks a parsed Jackson
`JsonNode` tree and builds an optional Connect struct. Each object member
becomes a field, and the fields keep the member order. Strings, booleans and
numbers become optional primitives. For numbers, Jackson's `isInt` gives
INT32, `isLong` gives INT64 and anything else FLOAT64. Nested objects become
nested structs. Non-empty arrays become optional arrays of one member schema.

Array members follow these rules:

- The first non-null element is the sample.
- Every non-null element must have the sample's node type. For numbers it must
  also have the sample's width schema. Otherwise the call fails with "not a
  homogenous array".
- An object sample merges the members of all object elements into one struct.
  The first field seen under a name wins.
- Any other sample must have a schema of its own. Otherwise the call fails with
  "unrecognized member schema".

A member whose value has no schema is dropped. That is a null, an empty array
or a non-JSON node. A member whose name is already declared is ignored, but
its value is still inferred first, so an error inside it aborts the call.

The project has these modules:

- `Wrappers` (`wrappers.dfy`): `Option` stands for a nullable Java reference and `Result` for a call that may throw.
- `Json` (`json.dfy`): the node tree, Jackson's node types, and a size measure used for termination.
- `Schemas` (`schema.dfy`): Connect schemas as plain values. `WellFormed` says a schema is optional at every node and has distinct field names in every struct.
- `StructBuilder` (`struct_builder.dfy`): the field list of a struct builder, with `HasField`, `Lookup`, `AddField`, and `MergeFields`, the first-seen-wins merge of known fields.
- `SchemaBuilderUtil` (`schema_builder_util.dfy`): one function per Java method, all in one mutually recursive group. It also holds reference definitions of a homogeneous array (`Homogeneous`) and of its sample (`Representative`).
- `InferenceProperties` (`properties.dfy`): the inference compared with reference definitions. `Kept` lists the fields an object contributes and `UnionKept` those an array of objects contributes.
- `Scenarios` (`scenarios.dfy`): concrete documents and their schemas.

Two behaviours of the code are easy to misread; the model follows the code:

- A non-empty array of nulls only is not dropped. Its sample stays the null node, which has no schema, so the call fails with "unrecognized member schema". See `InferenceProperties.AllNullArrayFails`.
- Nested arrays are supported. An array sample is inferred recursively. Only the first inner array's shape is used; the later inner arrays are only checked to be arrays. An empty first inner array makes the call fail. See `InferenceProperties.NestedArray` and `Scenarios.NestedArraysUseFirstInner`.

## Model

| member | source | states |
|---|---|---|
| StructBuilder.HasField | debezium-core/src/main/java/io/debezium/transforms/outbox/SchemaBuilderUtil.java:160-162 | the builder declares `name` exactly when some field carries that name |
| StructBuilder.Lookup | debezium-core/src/main/java/io/debezium/transforms/outbox/SchemaBuilderUtil.java:160-162 | a name resolves exactly when it is declared, and then to the schema of a field of that name |
| StructBuilder.AddField | debezium-core/src/main/java/io/debezium/transforms/outbox/SchemaBuilderUtil.java:52-53 | appending an undeclared name keeps earlier fields. The new name resolves to the new schema, other names resolve as before, and names stay distinct |
| StructBuilder.MergeFields | debezium-core/src/main/java/io/debezium/transforms/outbox/SchemaBuilderUtil.java:48-55 | merging keeps the builder's fields as a prefix and keeps names distinct. A name resolves to the builder's schema if declared, else to its first occurrence in the merged fields. The declared names are the union of both |
| StructBuilder.MergeFieldsAppend | debezium-core/src/main/java/io/debezium/transforms/outbox/SchemaBuilderUtil.java:146-155 | feeding a second batch into the same builder is the same as merging both batches at once |
| StructBuilder.MergeFieldsDistinct | debezium-core/src/main/java/io/debezium/transforms/outbox/SchemaBuilderUtil.java:39-42 | when no name repeats, merging appends every field in order and drops none |
| StructBuilder.MergeFieldsOrder | debezium-core/src/main/java/io/debezium/transforms/outbox/SchemaBuilderUtil.java:40-42 | appended fields come in the order in which their names first occur |
| SchemaBuilderUtil.NumberSchema | debezium-core/src/main/java/io/debezium/transforms/outbox/SchemaBuilderUtil.java:63-70 | an optional primitive that is INT32 exactly for int numbers, INT64 exactly for long numbers, FLOAT64 exactly for the rest |
| SchemaBuilderUtil.FirstNonNullIndex | debezium-core/src/main/java/io/debezium/transforms/outbox/SchemaBuilderUtil.java:90-98 | every element before the index is null, and the element at the index, if any, is not |
| SchemaBuilderUtil.Representative | debezium-core/src/main/java/io/debezium/transforms/outbox/SchemaBuilderUtil.java:83-98 | the sample is null exactly when every element is null, and otherwise is the first non-null element |
| SchemaBuilderUtil.ScanElementsSpec | debezium-core/src/main/java/io/debezium/transforms/outbox/SchemaBuilderUtil.java:86-117 | `ScanElements` models the loop. From a null reference the scan succeeds exactly on homogeneous arrays and yields the first non-null element. From a set reference it succeeds exactly when all non-null elements agree with it |
| SchemaBuilderUtil.GetFirstArrayElement | debezium-core/src/main/java/io/debezium/transforms/outbox/SchemaBuilderUtil.java:82-120 | succeeds exactly when non-null elements pairwise agree on node type and number width. It then yields the first non-null element or the null node, and otherwise fails with "not a homogenous array" |
| SchemaBuilderUtil.JsonNodeToSchema | debezium-core/src/main/java/io/debezium/transforms/outbox/SchemaBuilderUtil.java:32-45 | a document's schema is a well-formed optional struct, and a null document gives the empty optional struct |
| SchemaBuilderUtil.JsonNodeToSchemaBuilder | debezium-core/src/main/java/io/debezium/transforms/outbox/SchemaBuilderUtil.java:36-46 | the fields built from a document are optional throughout and have distinct names |
| SchemaBuilderUtil.AddFieldSchemas | debezium-core/src/main/java/io/debezium/transforms/outbox/SchemaBuilderUtil.java:39-43 | feeding members never changes fields already built, and keeps the fields well formed |
| SchemaBuilderUtil.AddFieldSchema | debezium-core/src/main/java/io/debezium/transforms/outbox/SchemaBuilderUtil.java:48-55 | fails exactly when the value's inference fails, with that error. A declared name or a value without schema leaves the builder unchanged; otherwise one field is appended |
| SchemaBuilderUtil.JsonValueToSchema | debezium-core/src/main/java/io/debezium/transforms/outbox/SchemaBuilderUtil.java:57-79 | a value has no schema exactly when it is null, a non-JSON node or an empty array. Any schema it has is well formed |
| SchemaBuilderUtil.FindArrayMemberSchema | debezium-core/src/main/java/io/debezium/transforms/outbox/SchemaBuilderUtil.java:122-134 | a member schema found for an array is well formed |
| SchemaBuilderUtil.BuildDocumentUnionSchema | debezium-core/src/main/java/io/debezium/transforms/outbox/SchemaBuilderUtil.java:136-158 | the union of an array holding an object is a well-formed optional struct |
| SchemaBuilderUtil.UnionElements | debezium-core/src/main/java/io/debezium/transforms/outbox/SchemaBuilderUtil.java:139-156 | a builder exists after the loop exactly when one existed before or an element is an object, and its fields stay well formed |
| InferenceProperties.KeptNames | debezium-core/src/main/java/io/debezium/transforms/outbox/SchemaBuilderUtil.java:48-54 | an object contributes a name exactly when some member of that name has a schema |
| InferenceProperties.KeptLookup | debezium-core/src/main/java/io/debezium/transforms/outbox/SchemaBuilderUtil.java:51-53 | a name takes the schema of the first member of that name that has one |
| InferenceProperties.KeptUnique | debezium-core/src/main/java/io/debezium/transforms/outbox/SchemaBuilderUtil.java:39-42 | members with distinct names contribute fields with distinct names |
| InferenceProperties.AddFieldSchemaIsMerge | debezium-core/src/main/java/io/debezium/transforms/outbox/SchemaBuilderUtil.java:48-55 | one `addFieldSchema` step is the first-seen-wins merge of the member's own field |
| InferenceProperties.AddFieldSchemasFailure | debezium-core/src/main/java/io/debezium/transforms/outbox/SchemaBuilderUtil.java:51-52 | the member loop fails exactly when some member's value fails, including an ignored duplicate. The error is that value's error |
| InferenceProperties.AddFieldSchemasMerges | debezium-core/src/main/java/io/debezium/transforms/outbox/SchemaBuilderUtil.java:39-43 | a successful member loop is the first-seen-wins merge of the object's kept fields |
| InferenceProperties.AddFieldSchemasSpec | debezium-core/src/main/java/io/debezium/transforms/outbox/SchemaBuilderUtil.java:39-55 | the member loop succeeds exactly when every value does, and then yields the merge of the kept fields |
| InferenceProperties.ObjectSchemaSpec | debezium-core/src/main/java/io/debezium/transforms/outbox/SchemaBuilderUtil.java:74-75 | a nested object fails exactly when a member fails. Otherwise it is the optional struct of its kept fields merged first-seen-wins |
| InferenceProperties.ObjectFields | debezium-core/src/main/java/io/debezium/transforms/outbox/SchemaBuilderUtil.java:39-54 | a field exists exactly for names some member of which has a schema. Each takes its first such member's schema, and with distinct member names the fields are the kept members in order |
| InferenceProperties.ObjectFieldOrder | debezium-core/src/main/java/io/debezium/transforms/outbox/SchemaBuilderUtil.java:39-42 | struct fields are ordered by the first appearance of their names among the kept members |
| InferenceProperties.IgnoredDuplicateStillFails | debezium-core/src/main/java/io/debezium/transforms/outbox/SchemaBuilderUtil.java:51-52 | any failing member value aborts its object, even if its field would be ignored |
| InferenceProperties.DocumentSchema | debezium-core/src/main/java/io/debezium/transforms/outbox/SchemaBuilderUtil.java:36-45 | a null document gives the empty optional struct. An object document fails exactly when a member fails, and otherwise gives the merged kept fields |
| InferenceProperties.HomogeneousAgreesWithRepresentative | debezium-core/src/main/java/io/debezium/transforms/outbox/SchemaBuilderUtil.java:100-116 | in an accepted array every non-null element agrees with the sample, and numbers share the sample's width |
| InferenceProperties.ObjectsOnly | debezium-core/src/main/java/io/debezium/transforms/outbox/SchemaBuilderUtil.java:95-104 | an array of objects only passes the homogeneity check with its first element as sample |
| InferenceProperties.MixedArrayFails | debezium-core/src/main/java/io/debezium/transforms/outbox/SchemaBuilderUtil.java:100-116 | two non-null elements of different node types, or numbers of different widths, make the array fail with "not a homogenous array" |
| InferenceProperties.ArrayOfPrimitives | debezium-core/src/main/java/io/debezium/transforms/outbox/SchemaBuilderUtil.java:122-134 | a homogeneous array with a string, boolean or number sample is an optional array of that sample's primitive |
| InferenceProperties.UnrecognizedSampleFails | debezium-core/src/main/java/io/debezium/transforms/outbox/SchemaBuilderUtil.java:128-131 | a non-empty homogeneous array whose sample is null, a non-JSON node or an empty array fails with "unrecognized member schema" |
| InferenceProperties.AllNullArrayFails | debezium-core/src/main/java/io/debezium/transforms/outbox/SchemaBuilderUtil.java:83-131 | a non-empty array of nulls only fails instead of being dropped |
| InferenceProperties.NestedArray | debezium-core/src/main/java/io/debezium/transforms/outbox/SchemaBuilderUtil.java:71-73 | an array whose sample is a non-empty array is an array of that inner array's schema. All its non-null elements are arrays |
| InferenceProperties.OnlyRepresentativeMatters | debezium-core/src/main/java/io/debezium/transforms/outbox/SchemaBuilderUtil.java:122-134 | homogeneous arrays with the same non-object sample get the same schema |
| InferenceProperties.UnionElementsStep | debezium-core/src/main/java/io/debezium/transforms/outbox/SchemaBuilderUtil.java:143-155 | non-objects are skipped. An object runs the member loop from the builder so far, or from no fields if it is the first object |
| InferenceProperties.UnionElementsFailure | debezium-core/src/main/java/io/debezium/transforms/outbox/SchemaBuilderUtil.java:139-156 | the element loop fails exactly when some member of some object element fails |
| InferenceProperties.UnionElementsMerges | debezium-core/src/main/java/io/debezium/transforms/outbox/SchemaBuilderUtil.java:139-156 | a successful element loop is the first-seen-wins merge of all object elements' kept fields, in array order |
| InferenceProperties.BuildDocumentUnionSchemaSpec | debezium-core/src/main/java/io/debezium/transforms/outbox/SchemaBuilderUtil.java:136-158 | the union fails exactly when some object member fails. Otherwise every name takes its first schema across the array, so nested structs are not deep-merged |
| InferenceProperties.UnionKeptFromFirstObject | debezium-core/src/main/java/io/debezium/transforms/outbox/SchemaBuilderUtil.java:143-148 | the union's contributions start with the first object element's own |
| InferenceProperties.UnionStartsWithFirstObject | debezium-core/src/main/java/io/debezium/transforms/outbox/SchemaBuilderUtil.java:146-148 | the union struct starts with exactly the fields of the first object element's own struct |
| InferenceProperties.ArrayOfObjects | debezium-core/src/main/java/io/debezium/transforms/outbox/SchemaBuilderUtil.java:124-125 | a homogeneous array with an object sample is an optional array of the union struct |
| Scenarios.IntAndLongDoNotMix | debezium-core/src/main/java/io/debezium/transforms/outbox/SchemaBuilderUtil.java:106-115 | `[5, 5000000000]` fails with "not a homogenous array" |
| Scenarios.NumberAndStringDoNotMix | debezium-core/src/main/java/io/debezium/transforms/outbox/SchemaBuilderUtil.java:100-104 | `[1, "x"]` fails with "not a homogenous array" |
| Scenarios.NullsSkipped | debezium-core/src/main/java/io/debezium/transforms/outbox/SchemaBuilderUtil.java:90-93 | `["a", null, "b"]` is an optional array of optional strings |
| Scenarios.NullArrayFails | debezium-core/src/main/java/io/debezium/transforms/outbox/SchemaBuilderUtil.java:83-131 | `[null, null]` fails with "unrecognized member schema" |
| Scenarios.EmptyArrayAndNullDropped | debezium-core/src/main/java/io/debezium/transforms/outbox/SchemaBuilderUtil.java:71-77 | in `{"a": [], "b": null, "c": 1}` only `c` becomes a field |
| Scenarios.NestedObject | debezium-core/src/main/java/io/debezium/transforms/outbox/SchemaBuilderUtil.java:74-75 | `{"a": {"b": 1}}` is a struct holding a struct holding an INT32 |
| Scenarios.FirstSeenWinsWhenMerging | debezium-core/src/main/java/io/debezium/transforms/outbox/SchemaBuilderUtil.java:52-53 | merging `a: INT32, b: STRING, a: STRING` gives `a: INT32, b: STRING` |
| Scenarios.UnionContributions | debezium-core/src/main/java/io/debezium/transforms/outbox/SchemaBuilderUtil.java:139-155 | three one-member objects contribute their fields in array order |
| Scenarios.UnionOfObjects | debezium-core/src/main/java/io/debezium/transforms/outbox/SchemaBuilderUtil.java:136-158 | `[{"a": 1}, {"b": "x"}, {"a": "x"}]` is an array of struct `a: INT32, b: STRING` |
| Scenarios.IgnoredDuplicateAborts | debezium-core/src/main/java/io/debezium/transforms/outbox/SchemaBuilderUtil.java:51-52 | `[{"a": 1}, {"a": [1, "x"]}]` fails although the second `a` would be ignored |
| Scenarios.NestedArraysUseFirstInner | debezium-core/src/main/java/io/debezium/transforms/outbox/SchemaBuilderUtil.java:128 | `[[1], ["x"]]` is an array of arrays of INT32 |
| Scenarios.EmptyFirstInnerArrayFails | debezium-core/src/main/java/io/debezium/transforms/outbox/SchemaBuilderUtil.java:128-131 | `[[], [1]]` fails with "unrecognized member schema" |

## Left out

- Connect `SchemaBuilder` and `Schema` internals are not modelled: `build()`, schema names, versions and object identity. Schemas are values compared structurally, so the identity comparison of the shared `OPTIONAL_*` constants at line 112 becomes equality.
- Jackson parsing is not modelled, and neither is how Jackson picks a numeric node class. `NumRepr` is given with each number, and floating-point values themselves play no part.
- Jackson's `fields()` on a root that is not an object is library behaviour: `JsonNodeToSchema` requires a null or object document.
- Exception messages (`String.format`, `asText()`) are not modelled; only the error kind is.
- Jackson's BINARY, POJO and MISSING nodes are `JOther`. They keep distinct node types for the homogeneity check and have no schema.
- Jackson never builds an object with a repeated member name, but the model allows one. First-seen-wins decides such a name as it does across array elements.
- SchemaBuilderUtil.BuildDocumentUnionSchema: requires an object element, since without one the Java code would dereference a null builder. Its only caller guarantees that element.
- Call-stack depth is not modelled. Recursion is bounded only by the size of the document.
- Determinism is not stated, because Dafny functions are deterministic by construction.
- StructBuilder.AddField: Connect's `SchemaBuilder.field(name, schema)` refuses an empty field name with an exception, but the model appends a field named `""`. The Connect library is not part of this model.
- SchemaBuilderUtil.AddFieldSchema: for the same reason, a member named `""` whose value has a schema makes the program throw, while the model adds the field. So "fails exactly when the value fails" holds only for documents without an empty member name. The same goes for every lemma built on it (`AddFieldSchemasFailure`, `AddFieldSchemasSpec`, `ObjectSchemaSpec`, `DocumentSchema`, `UnionElementsFailure`, `BuildDocumentUnionSchemaSpec`).
- InferenceProperties.AddFieldSchemasFailure: states that the error is the error of some failing member. It does not say that this member is the first failing one.
