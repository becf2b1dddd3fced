/** An already-parsed JSON tree, as the Jackson `JsonNode` hierarchy presents it
    to the schema inference code. Only the facts the inference looks at are kept:
    the node type, the children of containers, and for numbers whether Jackson
    reports the value as an `int`, a `long` or neither. */
module Json {

  /** Jackson's `isInt()` / `isLong()` split of a numeric node, taken as given. */
  datatype NumRepr = IntRepr | LongRepr | OtherNum

  /** Jackson node kinds that are not JSON values of their own. */
  datatype OtherKind = Binary | Pojo | Missing

  /** A JSON node. Object members keep their insertion order. */
  datatype Json =
    | JNull
    | JBool(b: bool)
    | JString(str: string)
    | JNum(repr: NumRepr)
    | JArray(elems: seq<Json>)
    | JObject(members: seq<Member>)
    | JOther(kind: OtherKind)

  /** One `name: value` entry of an object, in the order Jackson iterates it. */
  datatype Member = Member(name: string, value: Json)

  /** Jackson's `JsonNodeType`: the tag that array homogeneity compares. */
  datatype NodeType =
    | ArrayType | BinaryType | BooleanType | MissingType | NullType
    | NumberType | ObjectType | PojoType | StringType

  function NodeTypeOf(j: Json): NodeType {
    match j
    case JNull => NullType
    case JBool(_) => BooleanType
    case JString(_) => StringType
    case JNum(_) => NumberType
    case JArray(_) => ArrayType
    case JObject(_) => ObjectType
    case JOther(Binary) => BinaryType
    case JOther(Pojo) => PojoType
    case JOther(Missing) => MissingType
  }

  /** Node count used as the termination measure of the inference.
      An array weighs one more than its elements need, so that an array and
      the scan over its elements can be told apart by the measure. */
  function Size(j: Json): nat {
    match j
    case JArray(es) => 2 + ElemsSize(es)
    case JObject(ms) => 1 + MembersSize(ms)
    case _ => 1
  }

  function ElemsSize(es: seq<Json>): nat {
    if |es| == 0 then 0 else Size(es[0]) + ElemsSize(es[1..])
  }

  function MembersSize(ms: seq<Member>): nat {
    if |ms| == 0 then 0 else Size(ms[0].value) + MembersSize(ms[1..])
  }

  /** Every element of an array is no larger than the elements together. */
  lemma {:induction false} ElemSizeBound(es: seq<Json>, i: nat)
    requires i < |es|
    ensures Size(es[i]) <= ElemsSize(es)
  {
    if i > 0 {
      ElemSizeBound(es[1..], i - 1);
    }
  }
}
