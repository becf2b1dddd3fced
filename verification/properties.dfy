/** What the schema inference computes, stated against reference definitions
    that do not follow the Java control flow: the fields an object contributes
    (`Kept`), the fields an array of objects contributes (`UnionKept`), and the
    first-seen-wins merge of `StructBuilder.MergeFields`. */
module InferenceProperties {
  import opened Wrappers
  import opened Json
  import opened Schemas
  import opened StructBuilder
  import opened SchemaBuilderUtil

  // ---------------------------------------------------------------------------
  // Reference definitions

  /** The schema a member's value contributes; a failing value contributes none. */
  function ValueSchema(m: Member): Option<Schema> {
    match JsonValueToSchema(m.value)
    case Ok(s) => s
    case Fail(_) => None
  }

  /** The field one member contributes: none when its value has no schema. */
  function KeptOne(m: Member): seq<Field> {
    match ValueSchema(m)
    case Some(s) => [Field(m.name, s)]
    case None => []
  }

  /** The members of an object that have a schema, in member order, as fields. */
  function Kept(ms: seq<Member>): seq<Field> {
    if |ms| == 0 then [] else KeptOne(ms[0]) + Kept(ms[1..])
  }

  /** The fields every object element of an array contributes, in array order. */
  function UnionKept(es: seq<Json>): seq<Field> {
    if |es| == 0 then []
    else (if es[0].JObject? then Kept(es[0].members) else []) + UnionKept(es[1..])
  }

  /** No member's value makes the inference fail. */
  ghost predicate MembersInferable(ms: seq<Member>) {
    forall i :: 0 <= i < |ms| ==> JsonValueToSchema(ms[i].value).Ok?
  }

  /** No member of any object element makes the inference fail. */
  ghost predicate ObjectsInferable(es: seq<Json>) {
    forall i :: 0 <= i < |es| && es[i].JObject? ==> MembersInferable(es[i].members)
  }

  /** Member `i` has a schema and no earlier member of the same name has one:
      it is the member whose schema the field of that name takes. */
  ghost predicate FirstWithSchema(ms: seq<Member>, i: int) {
    && 0 <= i < |ms|
    && ValueSchema(ms[i]).Some?
    && forall j :: 0 <= j < i && ms[j].name == ms[i].name ==> ValueSchema(ms[j]).None?
  }

  /** Member names are distinct, as they are in a Jackson `ObjectNode`. */
  ghost predicate UniqueMemberNames(ms: seq<Member>) {
    forall i, j :: 0 <= i < j < |ms| ==> ms[i].name != ms[j].name
  }

  // ---------------------------------------------------------------------------
  // Objects

  /** A name is among the kept fields exactly when some member of that name
      has a schema. */
  lemma {:induction false} KeptNames(ms: seq<Member>)
    ensures forall n :: HasField(Kept(ms), n) <==> exists i :: 0 <= i < |ms| && ms[i].name == n && ValueSchema(ms[i]).Some?
  {
    if |ms| > 0 {
      var tail := ms[1..];
      KeptNames(tail);
      LookupAppend(KeptOne(ms[0]), Kept(tail));
      forall n
        ensures HasField(Kept(ms), n) <==> exists i :: 0 <= i < |ms| && ms[i].name == n && ValueSchema(ms[i]).Some?
      {
        if exists i :: 0 <= i < |ms| && ms[i].name == n && ValueSchema(ms[i]).Some? {
          var i :| 0 <= i < |ms| && ms[i].name == n && ValueSchema(ms[i]).Some?;
          if i > 0 {
            assert tail[i - 1] == ms[i];
          }
        }
        if HasField(Kept(tail), n) {
          var i :| 0 <= i < |tail| && tail[i].name == n && ValueSchema(tail[i]).Some?;
          assert ms[i + 1] == tail[i];
        }
      }
    }
  }

  /** A name resolves, among the kept fields, to the schema of the first
      member of that name that has one. */
  lemma {:induction false} KeptLookup(ms: seq<Member>, i: nat)
    requires FirstWithSchema(ms, i)
    ensures Lookup(Kept(ms), ms[i].name) == ValueSchema(ms[i])
  {
    var tail := ms[1..];
    LookupAppend(KeptOne(ms[0]), Kept(tail));
    if i > 0 {
      assert FirstWithSchema(tail, i - 1) by {
        forall j | 0 <= j < i - 1 && tail[j].name == tail[i - 1].name
          ensures ValueSchema(tail[j]).None?
        {
          assert tail[j] == ms[j + 1];
        }
      }
      KeptLookup(tail, i - 1);
      assert !HasField(KeptOne(ms[0]), ms[i].name);
    }
  }

  /** Over members with distinct names nothing is de-duplicated. */
  lemma {:induction false} KeptUnique(ms: seq<Member>)
    requires UniqueMemberNames(ms)
    ensures UniqueNames(Kept(ms))
  {
    if |ms| > 0 {
      var tail := ms[1..];
      assert UniqueMemberNames(tail) by {
        forall i, j | 0 <= i < j < |tail|
          ensures tail[i].name != tail[j].name
        {
          assert tail[i] == ms[i + 1] && tail[j] == ms[j + 1];
        }
      }
      KeptUnique(tail);
      KeptNames(tail);
      forall i | 0 <= i < |tail|
        ensures tail[i].name != ms[0].name
      {
        assert tail[i] == ms[i + 1];
      }
      assert !HasField(Kept(tail), ms[0].name);
      var k := Kept(ms);
      assert k == KeptOne(ms[0]) + Kept(tail);
      forall p, q | 0 <= p < q < |k|
        ensures k[p].name != k[q].name
      {
        if p == 0 && |KeptOne(ms[0])| == 1 {
          assert k[q] == Kept(tail)[q - 1];
        }
      }
    }
  }

  /** The first step of the member loop, as a merge of the member's kept field. */
  lemma AddFieldSchemaIsMerge(b: seq<Field>, m: Member)
    requires AddFieldSchema(b, m).Ok?
    ensures AddFieldSchema(b, m).value == MergeFields(b, KeptOne(m))
  {
    var k := KeptOne(m);
    if k != [] {
      assert k[1..] == [];
    }
  }

  lemma MembersInferableTail(ms: seq<Member>)
    requires |ms| > 0
    ensures MembersInferable(ms) <==> JsonValueToSchema(ms[0].value).Ok? && MembersInferable(ms[1..])
  {
    assert forall i :: 0 < i < |ms| ==> ms[i] == ms[1..][i - 1];
  }

  /** The member loop fails exactly when some member's value fails, even one
      whose field would have been ignored, and then with that value's error. */
  lemma {:induction false} AddFieldSchemasFailure(b: seq<Field>, ms: seq<Member>)
    ensures AddFieldSchemas(b, ms).Ok? <==> MembersInferable(ms)
    ensures AddFieldSchemas(b, ms).Fail? ==>
              exists i :: 0 <= i < |ms| && JsonValueToSchema(ms[i].value) == Fail(AddFieldSchemas(b, ms).error)
    decreases |ms|
  {
    if |ms| > 0 {
      var tail := ms[1..];
      var first := AddFieldSchema(b, ms[0]);
      MembersInferableTail(ms);
      if first.Ok? {
        AddFieldSchemasFailure(first.value, tail);
        assert AddFieldSchemas(b, ms) == AddFieldSchemas(first.value, tail);
        if AddFieldSchemas(first.value, tail).Fail? {
          var i :| 0 <= i < |tail| && JsonValueToSchema(tail[i].value) == Fail(AddFieldSchemas(b, ms).error);
          assert ms[i + 1] == tail[i];
        }
      } else {
        assert AddFieldSchemas(b, ms) == Fail(first.error);
      }
    }
  }

  /** When the member loop succeeds it merges the kept fields of all members
      into `b`, first seen winning. */
  lemma {:induction false} AddFieldSchemasMerges(b: seq<Field>, ms: seq<Member>)
    requires AddFieldSchemas(b, ms).Ok?
    ensures AddFieldSchemas(b, ms).value == MergeFields(b, Kept(ms))
    decreases |ms|
  {
    if |ms| > 0 {
      var tail := ms[1..];
      var first := AddFieldSchema(b, ms[0]);
      assert first.Ok?;
      assert AddFieldSchemas(b, ms) == AddFieldSchemas(first.value, tail);
      AddFieldSchemaIsMerge(b, ms[0]);
      AddFieldSchemasMerges(first.value, tail);
      MergeFieldsAppend(b, KeptOne(ms[0]), Kept(tail));
    }
  }

  /** The member loop either fails with the error of some member's value or
      merges the kept fields of all members into `b`. */
  lemma AddFieldSchemasSpec(b: seq<Field>, ms: seq<Member>)
    ensures AddFieldSchemas(b, ms).Ok? <==> MembersInferable(ms)
    ensures AddFieldSchemas(b, ms).Ok? ==> AddFieldSchemas(b, ms).value == MergeFields(b, Kept(ms))
  {
    AddFieldSchemasFailure(b, ms);
    if AddFieldSchemas(b, ms).Ok? {
      AddFieldSchemasMerges(b, ms);
    }
  }

  /** A nested object fails exactly when one of its members' values fails;
      otherwise its struct holds the kept members merged first-seen-wins. */
  lemma ObjectSchemaSpec(ms: seq<Member>)
    ensures JsonValueToSchema(JObject(ms)).Ok? <==> MembersInferable(ms)
    ensures JsonValueToSchema(JObject(ms)).Ok? ==>
              JsonValueToSchema(JObject(ms)).value == Some(Struct(MergeFields([], Kept(ms)), true))
  {
    AddFieldSchemasSpec([], ms);
    assert JsonNodeToSchemaBuilder(Some(JObject(ms))) == AddFieldSchemas([], ms);
  }

  /** Field order and dropping of one object: its struct declares a field for
      exactly the names some member of which has a schema (null values, empty
      arrays and non-JSON nodes are dropped), each with the schema of the first
      such member; with distinct member names the fields are the kept members
      in member order. */
  lemma {:induction false} ObjectFields(ms: seq<Member>)
    requires MembersInferable(ms)
    ensures var r := JsonValueToSchema(JObject(ms));
      && r.Ok? && r.value.Some? && r.value.value.Struct?
      && (forall n :: HasField(r.value.value.fields, n) <==>
                       exists i :: 0 <= i < |ms| && ms[i].name == n && ValueSchema(ms[i]).Some?)
      && (forall i :: FirstWithSchema(ms, i) ==> Lookup(r.value.value.fields, ms[i].name) == ValueSchema(ms[i]))
      && (UniqueMemberNames(ms) ==> r.value.value.fields == Kept(ms))
  {
    ObjectSchemaSpec(ms);
    KeptNames(ms);
    forall i | FirstWithSchema(ms, i)
      ensures Lookup(Kept(ms), ms[i].name) == ValueSchema(ms[i])
    {
      KeptLookup(ms, i);
    }
    if UniqueMemberNames(ms) {
      KeptUnique(ms);
      MergeFieldsDistinct([], Kept(ms));
      assert [] + Kept(ms) == Kept(ms);
    }
  }

  /** Field order of one object: fields come in the order in which their names
      first appear among the kept members. */
  lemma ObjectFieldOrder(ms: seq<Member>)
    requires MembersInferable(ms)
    ensures var r := JsonValueToSchema(JObject(ms));
      && r.Ok? && r.value.Some? && r.value.value.Struct?
      && var fs := r.value.value.fields;
         forall p, q :: 0 <= p < q < |fs| ==> FirstIndex(Kept(ms), fs[p].name) < FirstIndex(Kept(ms), fs[q].name)
  {
    ObjectSchemaSpec(ms);
    MergeFieldsOrder([], Kept(ms));
  }

  /** A later member whose value fails aborts the whole object, even when a
      field of the same name is already declared and the member would have
      been ignored. */
  lemma IgnoredDuplicateStillFails(ms: seq<Member>, i: nat)
    requires i < |ms| && JsonValueToSchema(ms[i].value).Fail?
    ensures JsonValueToSchema(JObject(ms)).Fail?
  {
    ObjectSchemaSpec(ms);
  }

  /** A null document gives the empty optional struct; an object document gives
      the same struct as that object nested inside another document. */
  lemma DocumentSchema(document: Option<Json>)
    requires document.Some? ==> document.value.JObject?
    ensures document.None? ==> JsonNodeToSchema(document) == Ok(Struct([], true))
    ensures document.Some? ==>
              (JsonNodeToSchema(document).Ok? <==> MembersInferable(document.value.members))
    ensures document.Some? && JsonNodeToSchema(document).Ok? ==>
              JsonNodeToSchema(document).value == Struct(MergeFields([], Kept(document.value.members)), true)
  {
    if document.Some? {
      AddFieldSchemasSpec([], document.value.members);
    }
  }

  // ---------------------------------------------------------------------------
  // Arrays

  /** In a homogeneous array every non-null element agrees with the
      representative: same node type and, for numbers, the same width. */
  lemma HomogeneousAgreesWithRepresentative(es: seq<Json>)
    requires Homogeneous(es)
    ensures forall i :: 0 <= i < |es| && !es[i].JNull? ==> Compatible(Representative(es), es[i])
    ensures forall i :: 0 <= i < |es| && !es[i].JNull? && Representative(es).JNum? ==>
              es[i].JNum? && es[i].repr == Representative(es).repr
  {
  }

  /** An array of objects only (no nulls) is homogeneous and represented by its first element. */
  lemma ObjectsOnly(es: seq<Json>)
    requires |es| > 0 && forall i :: 0 <= i < |es| ==> es[i].JObject?
    ensures Homogeneous(es) && Representative(es) == es[0]
  {
  }

  /** Two non-null elements of different node types, or two numbers of
      different widths such as an int and a long, make any array fail. */
  lemma MixedArrayFails(es: seq<Json>, i: nat, j: nat)
    requires i < |es| && j < |es| && !es[i].JNull? && !es[j].JNull?
    requires NodeTypeOf(es[i]) != NodeTypeOf(es[j]) || (es[i].JNum? && es[j].JNum? && es[i].repr != es[j].repr)
    ensures JsonValueToSchema(JArray(es)) == Fail(NotHomogenousArray)
  {
    assert !Compatible(es[i], es[j]);
  }

  /** A homogeneous array of strings, booleans or numbers is an optional array
      of the representative's primitive schema. */
  lemma ArrayOfPrimitives(es: seq<Json>)
    requires Homogeneous(es)
    requires Representative(es).JString? || Representative(es).JBool? || Representative(es).JNum?
    ensures var rep := Representative(es);
      JsonValueToSchema(JArray(es)) == Ok(Some(Array(
        if rep.JString? then Primitive(String, true)
        else if rep.JBool? then Primitive(Boolean, true)
        else NumberSchema(rep.repr), true)))
  {
    var rep := Representative(es);
    var s := if rep.JString? then Primitive(String, true)
             else if rep.JBool? then Primitive(Boolean, true)
             else NumberSchema(rep.repr);
    assert |es| > 0;
    assert GetFirstArrayElement(es) == Ok(rep);
    assert JsonValueToSchema(rep) == Ok(Some(s));
    assert FindArrayMemberSchema(es) == Ok(s);
  }

  /** A non-empty array whose representative has no schema fails with
      "unrecognized member schema": an array of nulls only, an array of
      non-JSON nodes, or an array whose first non-null element is an empty
      array. Such an array is not dropped the way an empty array is. */
  lemma UnrecognizedSampleFails(es: seq<Json>)
    requires |es| > 0 && Homogeneous(es)
    requires Representative(es).JNull? || Representative(es).JOther? || Representative(es) == JArray([])
    ensures JsonValueToSchema(JArray(es)) == Fail(UnrecognizedMemberSchema)
  {
  }

  /** An array of nulls only fails rather than being dropped. */
  lemma AllNullArrayFails(es: seq<Json>)
    requires |es| > 0 && forall i :: 0 <= i < |es| ==> es[i].JNull?
    ensures JsonValueToSchema(JArray(es)) == Fail(UnrecognizedMemberSchema)
  {
    UnrecognizedSampleFails(es);
  }

  /** Nested arrays: when the first non-null element is a non-empty array, the
      element schema is that inner array's schema, and the later inner arrays
      are only checked to be arrays. */
  lemma NestedArray(es: seq<Json>)
    requires Homogeneous(es) && Representative(es).JArray? && |Representative(es).elems| > 0
    ensures var inner := FindArrayMemberSchema(Representative(es).elems);
      JsonValueToSchema(JArray(es)) == if inner.Ok? then Ok(Some(Array(Array(inner.value, true), true))) else Fail(inner.error)
    ensures forall i :: 0 <= i < |es| && !es[i].JNull? ==> es[i].JArray?
  {
    var rep := Representative(es);
    var inner := FindArrayMemberSchema(rep.elems);
    assert |es| > 0;
    assert GetFirstArrayElement(es) == Ok(rep);
    assert JsonValueToSchema(rep) == if inner.Ok? then Ok(Some(Array(inner.value, true))) else Fail(inner.error);
    assert FindArrayMemberSchema(es) == if inner.Ok? then Ok(Array(inner.value, true)) else Fail(inner.error);
    forall i | 0 <= i < |es| && !es[i].JNull?
      ensures es[i].JArray?
    {
      assert Compatible(es[FirstNonNullIndex(es)], es[i]);
    }
  }

  /** Only the representative decides the element schema of a non-object
      array: homogeneous arrays with the same representative get the same
      schema, whatever their other elements are. */
  lemma OnlyRepresentativeMatters(es1: seq<Json>, es2: seq<Json>)
    requires |es1| > 0 && |es2| > 0 && Homogeneous(es1) && Homogeneous(es2)
    requires Representative(es1) == Representative(es2) && !Representative(es1).JObject?
    ensures JsonValueToSchema(JArray(es1)) == JsonValueToSchema(JArray(es2))
  {
  }

  lemma ObjectsInferableTail(es: seq<Json>)
    requires |es| > 0
    ensures ObjectsInferable(es) <==>
              (es[0].JObject? ==> MembersInferable(es[0].members)) && ObjectsInferable(es[1..])
  {
    assert forall i :: 0 < i < |es| ==> es[i] == es[1..][i - 1];
  }

  /** One step of the element loop: an object element runs the member loop
      from the builder so far (from no fields for the first object). */
  lemma UnionElementsStep(builder: Option<seq<Field>>, es: seq<Json>)
    requires |es| > 0
    ensures !es[0].JObject? ==> UnionElements(builder, es) == UnionElements(builder, es[1..])
    ensures es[0].JObject? ==>
              var step := AddFieldSchemas(if builder.Some? then builder.value else [], es[0].members);
              UnionElements(builder, es) == if step.Ok? then UnionElements(Some(step.value), es[1..]) else Fail(step.error)
  {
    if es[0].JObject? && builder.None? {
      assert JsonNodeToSchemaBuilder(Some(es[0])) == AddFieldSchemas([], es[0].members);
    }
  }

  /** The element loop of the union builder fails exactly when some member of
      some object element fails. */
  lemma {:induction false} UnionElementsFailure(builder: Option<seq<Field>>, es: seq<Json>)
    ensures UnionElements(builder, es).Ok? <==> ObjectsInferable(es)
    decreases |es|
  {
    if |es| > 0 {
      var e := es[0];
      ObjectsInferableTail(es);
      UnionElementsStep(builder, es);
      if !e.JObject? {
        UnionElementsFailure(builder, es[1..]);
      } else {
        var start := if builder.Some? then builder.value else [];
        AddFieldSchemasFailure(start, e.members);
        var step := AddFieldSchemas(start, e.members);
        if step.Ok? {
          UnionElementsFailure(Some(step.value), es[1..]);
        }
      }
    }
  }

  /** When it succeeds, the element loop merges the fields of all object
      elements, in array order, first seen winning. */
  lemma {:induction false} UnionElementsMerges(builder: Option<seq<Field>>, es: seq<Json>)
    requires UnionElements(builder, es).Ok? && UnionElements(builder, es).value.Some?
    ensures UnionElements(builder, es).value.value == MergeFields(if builder.Some? then builder.value else [], UnionKept(es))
    decreases |es|
  {
    var start := if builder.Some? then builder.value else [];
    if |es| == 0 {
      assert MergeFields(start, []) == start;
    } else {
      var e := es[0];
      UnionElementsStep(builder, es);
      if !e.JObject? {
        UnionElementsMerges(builder, es[1..]);
        assert UnionKept(es) == UnionKept(es[1..]);
      } else {
        var step := AddFieldSchemas(start, e.members);
        assert step.Ok?;
        AddFieldSchemasMerges(start, e.members);
        UnionElementsMerges(Some(step.value), es[1..]);
        MergeFieldsAppend(start, Kept(e.members), UnionKept(es[1..]));
      }
    }
  }

  /** The union struct of an array of objects: it fails exactly when some
      member of some object element fails, and is otherwise the optional struct
      of all object elements' kept fields merged first-seen-wins across the
      array, so same-named nested structs are never deep-merged. */
  lemma BuildDocumentUnionSchemaSpec(es: seq<Json>)
    requires ContainsObject(es)
    ensures BuildDocumentUnionSchema(es).Ok? <==> ObjectsInferable(es)
    ensures BuildDocumentUnionSchema(es).Ok? ==>
              BuildDocumentUnionSchema(es).value == Struct(MergeFields([], UnionKept(es)), true)
    ensures BuildDocumentUnionSchema(es).Ok? ==>
              forall n :: Lookup(BuildDocumentUnionSchema(es).value.fields, n) == Lookup(UnionKept(es), n)
  {
    UnionElementsFailure(None, es);
    if BuildDocumentUnionSchema(es).Ok? {
      UnionElementsMerges(None, es);
    }
  }

  /** The union's contributions start with those of its first object element. */
  lemma {:induction false} UnionKeptFromFirstObject(es: seq<Json>, k: nat)
    requires k < |es| && es[k].JObject? && forall i :: 0 <= i < k ==> !es[i].JObject?
    ensures UnionKept(es) == Kept(es[k].members) + UnionKept(es[k + 1..])
  {
    if k > 0 {
      assert es[1..][k - 1] == es[k];
      UnionKeptFromFirstObject(es[1..], k - 1);
      assert es[1..][k..] == es[k + 1..];
    }
  }

  /** The union struct starts with exactly the fields the first object element
      would get as a struct of its own; later elements only append fields. */
  lemma UnionStartsWithFirstObject(es: seq<Json>, k: nat)
    requires k < |es| && es[k].JObject? && forall i :: 0 <= i < k ==> !es[i].JObject?
    requires BuildDocumentUnionSchema(es).Ok?
    ensures JsonNodeToSchema(Some(es[k])).Ok?
    ensures var first := JsonNodeToSchema(Some(es[k])).value.fields;
      var union := BuildDocumentUnionSchema(es).value.fields;
      |first| <= |union| && union[..|first|] == first
  {
    BuildDocumentUnionSchemaSpec(es);
    UnionKeptFromFirstObject(es, k);
    DocumentSchema(Some(es[k]));
    MergeFieldsAppend([], Kept(es[k].members), UnionKept(es[k + 1..]));
  }

  /** A homogeneous array whose representative is an object is an optional
      array of the union struct of its object elements. */
  lemma ArrayOfObjects(es: seq<Json>)
    requires Homogeneous(es) && Representative(es).JObject? && ObjectsInferable(es)
    ensures JsonValueToSchema(JArray(es)) == Ok(Some(Array(Struct(MergeFields([], UnionKept(es)), true), true)))
  {
    BuildDocumentUnionSchemaSpec(es);
  }
}
