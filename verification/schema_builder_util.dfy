/** Schema inference of the outbox event router: derives a Kafka Connect schema
    from the shape of a parsed JSON document.

    Each Java method becomes one function. Together they form one mutually
    recursive group that terminates on the size of the JSON tree; the second
    component of each `decreases` orders the functions that call one another
    on a node of the same size. */
module SchemaBuilderUtil {
  import opened Wrappers
  import opened Json
  import opened Schemas
  import opened StructBuilder

  /** The two `ConnectException`s the inference can throw. */
  datatype Err =
    | NotHomogenousArray        // non-null array elements of different node types or number widths
    | UnrecognizedMemberSchema  // the array's sample element has no schema

  /** Number width: Jackson's `isInt` gives INT32, `isLong` gives INT64,
      anything else FLOAT64. */
  function NumberSchema(repr: NumRepr): (s: Schema)
    ensures s.Primitive? && s.optional
    ensures s.prim == Int32 <==> repr == IntRepr
    ensures s.prim == Int64 <==> repr == LongRepr
    ensures s.prim == Float64 <==> repr == OtherNum
  {
    match repr
    case IntRepr => Primitive(Int32, true)
    case LongRepr => Primitive(Int64, true)
    case OtherNum => Primitive(Float64, true)
  }

  // ---------------------------------------------------------------------------
  // Reference definitions for arrays: what a homogeneous array is and which
  // element represents it, stated without the element scan.

  /** Two non-null array elements agree: same node type and, for numbers,
      the same width schema. */
  predicate Compatible(a: Json, b: Json) {
    NodeTypeOf(a) == NodeTypeOf(b) && (a.JNum? && b.JNum? ==> NumberSchema(a.repr) == NumberSchema(b.repr))
  }

  /** Every two non-null elements agree; null elements are ignored. */
  ghost predicate Homogeneous(es: seq<Json>) {
    forall i, j :: 0 <= i < |es| && 0 <= j < |es| && !es[i].JNull? && !es[j].JNull? ==> Compatible(es[i], es[j])
  }

  /** Every non-null element agrees with `ref`. */
  ghost predicate AllCompatibleWith(ref: Json, es: seq<Json>) {
    forall i :: 0 <= i < |es| && !es[i].JNull? ==> Compatible(ref, es[i])
  }

  ghost predicate ContainsObject(es: seq<Json>) {
    exists i :: 0 <= i < |es| && es[i].JObject?
  }

  /** Index of the first non-null element, `|es|` when there is none. */
  function FirstNonNullIndex(es: seq<Json>): (k: nat)
    ensures k <= |es|
    ensures forall i :: 0 <= i < k ==> es[i].JNull?
    ensures k < |es| ==> !es[k].JNull?
  {
    if |es| == 0 then 0
    else if !es[0].JNull? then 0
    else 1 + FirstNonNullIndex(es[1..])
  }

  /** The first non-null element, or null when every element is null. */
  function Representative(es: seq<Json>): (r: Json)
    ensures r.JNull? <==> forall i :: 0 <= i < |es| ==> es[i].JNull?
    ensures !r.JNull? ==> FirstNonNullIndex(es) < |es| && r == es[FirstNonNullIndex(es)]
    ensures Size(r) <= 1 + ElemsSize(es)
  {
    var k := FirstNonNullIndex(es);
    if k < |es| then
      ElemSizeBound(es, k);
      es[k]
    else JNull
  }

  // ---------------------------------------------------------------------------
  // getFirstArrayElement

  /** The loop of `getFirstArrayElement` from the current reference node `ref`
      (initially null) over the elements not yet visited. */
  function ScanElements(ref: Json, rest: seq<Json>): Result<Json, Err>
    decreases |rest|
  {
    if |rest| == 0 then Ok(ref)
    else
      var e := rest[0];
      if e.JNull? then ScanElements(ref, rest[1..])
      else
        var ref' := if ref.JNull? then e else ref;
        if NodeTypeOf(e) != NodeTypeOf(ref') then Fail(NotHomogenousArray)
        else if NodeTypeOf(ref') == NumberType && NumberSchema(ref'.repr) != NumberSchema(e.repr) then
          Fail(NotHomogenousArray)
        else ScanElements(ref', rest[1..])
  }

  lemma CompatibleIsEquivalence(a: Json, b: Json, c: Json)
    ensures Compatible(a, a)
    ensures Compatible(a, b) ==> Compatible(b, a)
    ensures Compatible(a, b) && Compatible(b, c) ==> Compatible(a, c)
  {
  }

  /** The scan succeeds exactly on homogeneous arrays and then yields the
      first non-null element. */
  lemma {:induction false} ScanElementsSpec(ref: Json, rest: seq<Json>)
    ensures ScanElements(ref, rest) ==
            if ref.JNull? then
              (if Homogeneous(rest) then Ok(Representative(rest)) else Fail(NotHomogenousArray))
            else
              (if AllCompatibleWith(ref, rest) then Ok(ref) else Fail(NotHomogenousArray))
    decreases |rest|
  {
    if |rest| > 0 {
      var e := rest[0];
      var tail := rest[1..];
      assert forall i :: 0 < i < |rest| ==> rest[i] == tail[i - 1];
      if e.JNull? {
        ScanElementsSpec(ref, tail);
        assert Homogeneous(rest) <==> Homogeneous(tail) by {
          if Homogeneous(tail) {
            forall i, j | 0 <= i < |rest| && 0 <= j < |rest| && !rest[i].JNull? && !rest[j].JNull?
              ensures Compatible(rest[i], rest[j])
            {
              assert rest[i] == tail[i - 1] && rest[j] == tail[j - 1];
            }
          }
        }
        assert AllCompatibleWith(ref, rest) <==> AllCompatibleWith(ref, tail) by {
          if AllCompatibleWith(ref, tail) {
            forall i | 0 <= i < |rest| && !rest[i].JNull?
              ensures Compatible(ref, rest[i])
            {
              assert rest[i] == tail[i - 1];
            }
          }
        }
        assert FirstNonNullIndex(rest) == 1 + FirstNonNullIndex(tail);
      } else if ref.JNull? {
        CompatibleIsEquivalence(e, e, e);
        ScanElementsSpec(e, tail);
        assert Homogeneous(rest) <==> AllCompatibleWith(e, tail) by {
          if AllCompatibleWith(e, tail) {
            forall i, j | 0 <= i < |rest| && 0 <= j < |rest| && !rest[i].JNull? && !rest[j].JNull?
              ensures Compatible(rest[i], rest[j])
            {
              CompatibleIsEquivalence(rest[i], e, rest[j]);
              CompatibleIsEquivalence(e, rest[i], rest[j]);
            }
          }
          if Homogeneous(rest) {
            forall i | 0 <= i < |tail| && !tail[i].JNull?
              ensures Compatible(e, tail[i])
            {
              assert tail[i] == rest[i + 1];
            }
          }
        }
      } else {
        ScanElementsSpec(ref, tail);
        assert AllCompatibleWith(ref, rest) <==> Compatible(ref, e) && AllCompatibleWith(ref, tail) by {
          if Compatible(ref, e) && AllCompatibleWith(ref, tail) {
            forall i | 0 <= i < |rest| && !rest[i].JNull?
              ensures Compatible(ref, rest[i])
            {
              if i > 0 {
                assert rest[i] == tail[i - 1];
              }
            }
          }
          if AllCompatibleWith(ref, rest) {
            forall i | 0 <= i < |tail| && !tail[i].JNull?
              ensures Compatible(ref, tail[i])
            {
              assert tail[i] == rest[i + 1];
            }
          }
        }
      }
    }
  }

  /** `getFirstArrayElement`: fails with "not a homogenous array" exactly when
      two non-null elements differ in node type or number width; otherwise
      yields the first non-null element, or the null node when there is none. */
  function GetFirstArrayElement(es: seq<Json>): (r: Result<Json, Err>)
    ensures r.Ok? <==> Homogeneous(es)
    ensures r.Ok? ==> r.value == Representative(es)
    ensures r.Fail? ==> r.error == NotHomogenousArray
  {
    ScanElementsSpec(JNull, es);
    ScanElements(JNull, es)
  }

  // ---------------------------------------------------------------------------
  // The mutually recursive inference

  function DocSize(document: Option<Json>): nat {
    match document
    case None => 0
    case Some(j) => Size(j)
  }

  /** `jsonNodeToSchema`: the struct schema of a document, or of a nested
      object. A null document gives the empty optional struct. */
  function JsonNodeToSchema(document: Option<Json>): (r: Result<Schema, Err>)
    requires document.Some? ==> document.value.JObject?
    ensures r.Ok? ==> r.value.Struct? && WellFormed(r.value)
    ensures document.None? ==> r == Ok(Struct([], true))
    decreases DocSize(document), 2
  {
    var fields :- JsonNodeToSchemaBuilder(document);
    Ok(Struct(fields, true))
  }

  /** `jsonNodeToSchemaBuilder`: the fields of an optional struct built from the
      members of `document`, in member order. */
  function JsonNodeToSchemaBuilder(document: Option<Json>): (r: Result<seq<Field>, Err>)
    requires document.Some? ==> document.value.JObject?
    ensures r.Ok? ==> FieldsWellFormed(r.value)
    decreases DocSize(document), 1
  {
    if document.None? then Ok([])
    else AddFieldSchemas([], document.value.members)
  }

  /** The loops over an object's members (lines 40-43 and 152-155 of
      `SchemaBuilderUtil.java`) that feed each member to `addFieldSchema`,
      in order. The fields already in `b` are never changed. */
  function AddFieldSchemas(b: seq<Field>, ms: seq<Member>): (r: Result<seq<Field>, Err>)
    ensures r.Ok? ==> |b| <= |r.value| && r.value[..|b|] == b
    ensures r.Ok? && FieldsWellFormed(b) ==> FieldsWellFormed(r.value)
    decreases MembersSize(ms), 5
  {
    if |ms| == 0 then Ok(b)
    else
      var b' :- AddFieldSchema(b, ms[0]);
      var r :- AddFieldSchemas(b', ms[1..]);
      assert r[..|b|] == r[..|b'|][..|b|];
      Ok(r)
  }

  /** `addFieldSchema`: the value's schema is computed first, so a failure
      aborts even when the field is then ignored; a value without a schema adds
      nothing; a name already declared keeps its first schema. */
  function AddFieldSchema(b: seq<Field>, m: Member): (r: Result<seq<Field>, Err>)
    ensures r.Fail? <==> JsonValueToSchema(m.value).Fail?
    ensures r.Fail? ==> r.error == JsonValueToSchema(m.value).error
    ensures r.Ok? && (HasField(b, m.name) || JsonValueToSchema(m.value) == Ok(None)) ==> r.value == b
    ensures r.Ok? && !HasField(b, m.name) && JsonValueToSchema(m.value).value.Some? ==>
              r.value == b + [Field(m.name, JsonValueToSchema(m.value).value.value)]
    ensures r.Ok? && FieldsWellFormed(b) ==> FieldsWellFormed(r.value)
    ensures r.Ok? ==> |b| <= |r.value| && r.value[..|b|] == b
    decreases Size(m.value), 4
  {
    var s :- JsonValueToSchema(m.value);
    if s.Some? && !HasField(b, m.name) then Ok(AddField(b, m.name, s.value)) else Ok(b)
  }

  /** `jsonValueToSchema`: the schema of one value, or none. Strings, booleans
      and numbers map to optional primitives, objects to structs, non-empty
      arrays to arrays of their member schema. A value has no schema exactly
      when it is null, an empty array, or a non-JSON node. */
  function JsonValueToSchema(node: Json): (r: Result<Option<Schema>, Err>)
    ensures r.Ok? && r.value.Some? ==> WellFormed(r.value.value)
    ensures r == Ok(None) <==> node.JNull? || node.JOther? || node == JArray([])
    decreases Size(node), 3
  {
    match node
    case JString(_) => Ok(Some(Primitive(String, true)))
    case JBool(_) => Ok(Some(Primitive(Boolean, true)))
    case JNum(repr) => Ok(Some(NumberSchema(repr)))
    case JArray(es) =>
      if |es| == 0 then Ok(None)
      else
        var elem :- FindArrayMemberSchema(es);
        Ok(Some(Array(elem, true)))
    case JObject(_) =>
      var s :- JsonNodeToSchema(Some(node));
      Ok(Some(s))
    case _ => Ok(None)
  }

  /** `findArrayMemberSchema`: the element schema of an array. An object sample
      merges every object element into one struct; any other sample must have
      a schema of its own. */
  function FindArrayMemberSchema(es: seq<Json>): (r: Result<Schema, Err>)
    ensures r.Ok? ==> WellFormed(r.value)
    decreases 1 + ElemsSize(es), 4
  {
    var sample :- GetFirstArrayElement(es);
    if sample.JObject? then BuildDocumentUnionSchema(es)
    else
      var s :- JsonValueToSchema(sample);
      if s.None? then Fail(UnrecognizedMemberSchema) else Ok(s.value)
  }

  /** `buildDocumentUnionSchema`: one struct holding the fields of every object
      element. Its only caller has found an object element, without which the
      Java code would dereference a null builder. */
  function BuildDocumentUnionSchema(es: seq<Json>): (r: Result<Schema, Err>)
    requires ContainsObject(es)
    ensures r.Ok? ==> r.value.Struct? && WellFormed(r.value)
    decreases 1 + ElemsSize(es), 3
  {
    var builder :- UnionElements(None, es);
    Ok(Struct(builder.value, true))
  }

  /** The element loop of `buildDocumentUnionSchema`: the first object element
      creates the builder, later ones add their members to it, and
      non-object elements are skipped. */
  function UnionElements(builder: Option<seq<Field>>, es: seq<Json>): (r: Result<Option<seq<Field>>, Err>)
    ensures r.Ok? ==> (r.value.Some? <==> builder.Some? || ContainsObject(es))
    ensures r.Ok? && r.value.Some? && (builder.Some? ==> FieldsWellFormed(builder.value)) ==>
              FieldsWellFormed(r.value.value)
    decreases ElemsSize(es), 2
  {
    if |es| == 0 then Ok(builder)
    else
      var e := es[0];
      assert Size(e) >= 1 && ElemsSize(es) == Size(e) + ElemsSize(es[1..]);
      assert ContainsObject(es) <==> e.JObject? || ContainsObject(es[1..]) by {
        if ContainsObject(es[1..]) {
          var i :| 0 <= i < |es[1..]| && es[1..][i].JObject?;
          assert es[i + 1].JObject?;
        }
      }
      if !e.JObject? then UnionElements(builder, es[1..])
      else if builder.None? then
        var first :- JsonNodeToSchemaBuilder(Some(e));
        UnionElements(Some(first), es[1..])
      else
        var merged :- AddFieldSchemas(builder.value, e.members);
        UnionElements(Some(merged), es[1..])
  }
}
