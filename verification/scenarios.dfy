/** Concrete documents and the schemas the inference gives them. */
module Scenarios {
  import opened Wrappers
  import opened Json
  import opened Schemas
  import opened StructBuilder
  import opened SchemaBuilderUtil
  import opened InferenceProperties

  const Int: Json := JNum(IntRepr)
  const Long: Json := JNum(LongRepr)
  const Str: Json := JString("x")

  function Opt(p: Prim): Schema {
    Primitive(p, true)
  }

  /** `[5, 5000000000]`: an int and a long in one array fail. */
  lemma IntAndLongDoNotMix()
    ensures JsonValueToSchema(JArray([Int, Long])) == Fail(NotHomogenousArray)
  {
    MixedArrayFails([Int, Long], 0, 1);
  }

  /** `[1, "x"]` fails. */
  lemma NumberAndStringDoNotMix()
    ensures JsonValueToSchema(JArray([Int, Str])) == Fail(NotHomogenousArray)
  {
    MixedArrayFails([Int, Str], 0, 1);
  }

  /** `["a", null, "b"]`: nulls are skipped. */
  lemma NullsSkipped()
    ensures JsonValueToSchema(JArray([JString("a"), JNull, JString("b")])) == Ok(Some(Array(Opt(String), true)))
  {
    var es := [JString("a"), JNull, JString("b")];
    assert Homogeneous(es) by {
      forall i, j | 0 <= i < |es| && 0 <= j < |es| && !es[i].JNull? && !es[j].JNull?
        ensures Compatible(es[i], es[j])
      {
        assert es[i].JString? && es[j].JString?;
      }
    }
    ArrayOfPrimitives(es);
  }

  /** `[null, null]` fails: the array is not dropped. */
  lemma NullArrayFails()
    ensures JsonValueToSchema(JArray([JNull, JNull])) == Fail(UnrecognizedMemberSchema)
  {
    AllNullArrayFails([JNull, JNull]);
  }

  /** `{"a": [], "b": null, "c": 1}`: the empty array and the null are dropped. */
  lemma EmptyArrayAndNullDropped()
    ensures JsonValueToSchema(JObject([Member("a", JArray([])), Member("b", JNull), Member("c", Int)]))
            == Ok(Some(Struct([Field("c", Opt(Int32))], true)))
  {
    var ms := [Member("a", JArray([])), Member("b", JNull), Member("c", Int)];
    ObjectSchemaSpec(ms);
    assert KeptOne(ms[0]) == [] && KeptOne(ms[1]) == [];
    assert KeptOne(ms[2]) == [Field("c", Opt(Int32))];
    assert Kept(ms) == [Field("c", Opt(Int32))] by {
      assert ms[1..][1..] == [ms[2]];
      assert Kept([ms[2]]) == KeptOne(ms[2]) + Kept([]);
      assert Kept(ms[1..]) == KeptOne(ms[1]) + Kept([ms[2]]);
    }
    assert MembersInferable(ms);
  }

  /** `{"a": {"b": 1}}`: nested objects become nested structs. */
  lemma NestedObject()
    ensures JsonNodeToSchema(Some(JObject([Member("a", JObject([Member("b", Int)]))])))
            == Ok(Struct([Field("a", Struct([Field("b", Opt(Int32))], true))], true))
  {
    var inner := [Member("b", Int)];
    ObjectSchemaSpec(inner);
    assert Kept(inner) == [Field("b", Opt(Int32))];
    assert MembersInferable(inner);
    var outer := [Member("a", JObject(inner))];
    DocumentSchema(Some(JObject(outer)));
    assert MembersInferable(outer);
  }

  /** Merging `a: INT32, b: STRING, a: STRING` keeps the first `a`. */
  lemma FirstSeenWinsWhenMerging()
    ensures MergeFields([], [Field("a", Opt(Int32)), Field("b", Opt(String)), Field("a", Opt(String))])
            == [Field("a", Opt(Int32)), Field("b", Opt(String))]
  {
    var a, b, a' := Field("a", Opt(Int32)), Field("b", Opt(String)), Field("a", Opt(String));
    assert [a, b, a'][1..] == [b, a'] && [b, a'][1..] == [a'] && [a'][1..] == [];
    assert !HasField([], "a") && !HasField([a], "b") && HasField([a, b], "a");
    assert [] + [a] == [a] && [a] + [b] == [a, b];
    assert MergeFields([], [a, b, a']) == MergeFields([a], [b, a']);
    assert MergeFields([a], [b, a']) == MergeFields([a, b], [a']);
    assert MergeFields([a, b], [a']) == MergeFields([a, b], []);
  }

  /** The objects `{"a": 1}`, `{"b": "x"}`, `{"a": "x"}` contribute
      `a: INT32`, `b: STRING`, `a: STRING`, in that order. */
  lemma UnionContributions()
    ensures var es := [JObject([Member("a", Int)]), JObject([Member("b", Str)]), JObject([Member("a", Str)])];
      && ObjectsInferable(es)
      && UnionKept(es) == [Field("a", Opt(Int32)), Field("b", Opt(String)), Field("a", Opt(String))]
  {
    var o1, o2, o3 := [Member("a", Int)], [Member("b", Str)], [Member("a", Str)];
    var es := [JObject(o1), JObject(o2), JObject(o3)];
    assert Kept(o1) == [Field("a", Opt(Int32))];
    assert Kept(o2) == [Field("b", Opt(String))];
    assert Kept(o3) == [Field("a", Opt(String))];
    assert MembersInferable(o1) && MembersInferable(o2) && MembersInferable(o3);
    assert ObjectsInferable(es) by {
      forall i | 0 <= i < |es| && es[i].JObject?
        ensures MembersInferable(es[i].members)
      {
        assert i == 0 || i == 1 || i == 2;
      }
    }
    assert es[1..] == [JObject(o2), JObject(o3)];
    assert es[1..][1..] == [JObject(o3)];
    assert UnionKept([JObject(o3)]) == Kept(o3) + UnionKept([]);
    assert UnionKept(es[1..]) == Kept(o2) + UnionKept([JObject(o3)]);
    assert UnionKept(es) == Kept(o1) + UnionKept(es[1..]);
  }

  /** `[{"a": 1}, {"b": "x"}, {"a": "x"}]`: the union holds `a` then `b`, and
      `a` keeps the schema of its first occurrence. */
  lemma UnionOfObjects()
    ensures JsonValueToSchema(JArray([JObject([Member("a", Int)]), JObject([Member("b", Str)]), JObject([Member("a", Str)])]))
            == Ok(Some(Array(Struct([Field("a", Opt(Int32)), Field("b", Opt(String))], true), true)))
  {
    var es := [JObject([Member("a", Int)]), JObject([Member("b", Str)]), JObject([Member("a", Str)])];
    ObjectsOnly(es);
    UnionContributions();
    FirstSeenWinsWhenMerging();
    ArrayOfObjects(es);
  }

  /** `[{"a": 1}, {"a": [1, "x"]}]`: the second `a` would be ignored, but its
      value is inferred first and its failure aborts the whole array. */
  lemma IgnoredDuplicateAborts()
    ensures JsonValueToSchema(JArray([JObject([Member("a", Int)]), JObject([Member("a", JArray([Int, Str]))])]))
            == Fail(NotHomogenousArray)
  {
    var bad := JArray([Int, Str]);
    NumberAndStringDoNotMix();
    var o2 := [Member("a", bad)];
    var es := [JObject([Member("a", Int)]), JObject(o2)];
    assert Homogeneous(es);
    assert o2[0].value == bad && JsonValueToSchema(bad).Fail?;
    assert !MembersInferable(o2);
    assert !ObjectsInferable(es) by {
      assert es[1].JObject? && es[1].members == o2;
    }
    BuildDocumentUnionSchemaSpec(es);
    assert GetFirstArrayElement(es) == Ok(es[0]);
    var first := JsonNodeToSchemaBuilder(Some(es[0]));
    assert MembersInferable([Member("a", Int)]);
    AddFieldSchemasFailure([], [Member("a", Int)]);
    assert first.Ok?;
    assert AddFieldSchema(first.value, Member("a", bad)) == Fail(NotHomogenousArray);
    assert AddFieldSchemas(first.value, o2) == Fail(NotHomogenousArray);
    assert UnionElements(Some(first.value), es[1..]) == Fail(NotHomogenousArray);
  }

  /** `[[1], ["x"]]`: only the first inner array's shape is used; the second
      inner array is only checked to be an array. */
  lemma NestedArraysUseFirstInner()
    ensures JsonValueToSchema(JArray([JArray([Int]), JArray([Str])])) == Ok(Some(Array(Array(Opt(Int32), true), true)))
  {
    var es := [JArray([Int]), JArray([Str])];
    assert Homogeneous(es);
    assert Homogeneous([Int]);
    ArrayOfPrimitives([Int]);
    NestedArray(es);
  }

  /** `[[], [1]]`: an empty first inner array makes the outer array fail. */
  lemma EmptyFirstInnerArrayFails()
    ensures JsonValueToSchema(JArray([JArray([]), JArray([Int])])) == Fail(UnrecognizedMemberSchema)
  {
    var es := [JArray([]), JArray([Int])];
    assert Homogeneous(es);
    UnrecognizedSampleFails(es);
  }
}
