/** The growing field list of a Connect `SchemaBuilder.struct()`: fields are
    appended in order, looked up by name, and a name is never added twice. */
module StructBuilder {
  import opened Wrappers
  import opened Schemas

  /** Whether the builder already declares a field called `name`
      (Connect's `builder.field(name) != null`). */
  predicate HasField(fs: seq<Field>, name: string): (r: bool)
    ensures r <==> exists i :: 0 <= i < |fs| && fs[i].name == name
  {
    |fs| > 0 && (fs[0].name == name || HasField(fs[1..], name))
  }

  /** The schema of the field called `name`: the first one, if any. */
  function Lookup(fs: seq<Field>, name: string): (r: Option<Schema>)
    ensures r.Some? <==> HasField(fs, name)
    ensures r.Some? ==> exists i :: 0 <= i < |fs| && fs[i] == Field(name, r.value)
  {
    if |fs| == 0 then None
    else if fs[0].name == name then Some(fs[0].schema)
    else
      var r := Lookup(fs[1..], name);
      assert r.Some? ==> exists i :: 1 <= i < |fs| && fs[i] == Field(name, r.value) by {
        if r.Some? {
          var k :| 0 <= k < |fs[1..]| && fs[1..][k] == Field(name, r.value);
          assert fs[k + 1] == Field(name, r.value);
        }
      }
      r
  }

  /** Position of the first field called `name`, or `|fs|` when there is none. */
  function FirstIndex(fs: seq<Field>, name: string): (r: nat)
    ensures r <= |fs|
    ensures r < |fs| <==> HasField(fs, name)
    ensures r < |fs| ==> fs[r].name == name
    ensures forall j :: 0 <= j < r ==> fs[j].name != name
  {
    if |fs| == 0 then 0
    else if fs[0].name == name then 0
    else 1 + FirstIndex(fs[1..], name)
  }

  /** Looking a name up in a concatenation finds it in the first part if it
      is there, and otherwise in the second part. */
  lemma {:induction false} LookupAppend(a: seq<Field>, b: seq<Field>)
    ensures forall n :: Lookup(a + b, n) == if HasField(a, n) then Lookup(a, n) else Lookup(b, n)
    ensures forall n :: HasField(a + b, n) <==> HasField(a, n) || HasField(b, n)
  {
    forall n
      ensures Lookup(a + b, n) == if HasField(a, n) then Lookup(a, n) else Lookup(b, n)
    {
      if |a| > 0 {
        assert (a + b)[1..] == a[1..] + b;
        LookupAppend(a[1..], b);
      } else {
        assert a + b == b;
      }
    }
  }

  /** Connect's `builder.field(name, schema)`: appends a field whose name is not
      yet declared (Connect refuses a duplicate name). The earlier fields are
      untouched, the new name resolves to the new schema, every other name
      resolves as before, and distinct names stay distinct. */
  function AddField(fs: seq<Field>, name: string, schema: Schema): (r: seq<Field>)
    requires !HasField(fs, name)
    ensures |r| == |fs| + 1 && r[..|fs|] == fs
    ensures Lookup(r, name) == Some(schema)
    ensures forall n :: n != name ==> Lookup(r, n) == Lookup(fs, n)
    ensures forall n :: HasField(r, n) <==> HasField(fs, n) || n == name
    ensures UniqueNames(fs) ==> UniqueNames(r)
  {
    LookupAppend(fs, [Field(name, schema)]);
    fs + [Field(name, schema)]
  }

  /** Feeds the fields `xs` one by one into the builder `b`, skipping every
      field whose name is already declared: the first-seen-wins rule of the
      outbox schema builder, applied to fields whose schemas are known. */
  function MergeFields(b: seq<Field>, xs: seq<Field>): (r: seq<Field>)
    ensures |b| <= |r| && r[..|b|] == b
    ensures UniqueNames(b) ==> UniqueNames(r)
    ensures forall n :: Lookup(r, n) == if HasField(b, n) then Lookup(b, n) else Lookup(xs, n)
    ensures forall n :: HasField(r, n) <==> HasField(b, n) || HasField(xs, n)
    decreases |xs|
  {
    if |xs| == 0 then b
    else
      var x := xs[0];
      var b' := if HasField(b, x.name) then b else AddField(b, x.name, x.schema);
      var r := MergeFields(b', xs[1..]);
      assert r[..|b|] == r[..|b'|][..|b|];
      r
  }

  /** Merging in two batches is merging their concatenation. */
  lemma {:induction false} MergeFieldsAppend(b: seq<Field>, xs: seq<Field>, ys: seq<Field>)
    ensures MergeFields(MergeFields(b, xs), ys) == MergeFields(b, xs + ys)
    decreases |xs|
  {
    if |xs| == 0 {
      assert xs + ys == ys;
    } else {
      var x := xs[0];
      var b' := if HasField(b, x.name) then b else AddField(b, x.name, x.schema);
      assert (xs + ys)[0] == x;
      assert (xs + ys)[1..] == xs[1..] + ys;
      MergeFieldsAppend(b', xs[1..], ys);
    }
  }

  /** When no name repeats, merging drops nothing and reorders nothing. */
  lemma {:induction false} MergeFieldsDistinct(b: seq<Field>, xs: seq<Field>)
    requires UniqueNames(b + xs)
    ensures MergeFields(b, xs) == b + xs
    decreases |xs|
  {
    if |xs| == 0 {
      assert b + xs == b;
    } else {
      var x := xs[0];
      assert (b + xs)[|b|] == x;
      assert !HasField(b, x.name) by {
        forall i | 0 <= i < |b|
          ensures b[i].name != x.name
        {
          assert (b + xs)[i] == b[i];
        }
      }
      var b' := AddField(b, x.name, x.schema);
      assert b' + xs[1..] == b + xs;
      MergeFieldsDistinct(b', xs[1..]);
    }
  }

  /** The fields of `r` from position `from` on come in the order in which
      their names first occur in `xs`. */
  ghost predicate OrderedFrom(r: seq<Field>, from: nat, xs: seq<Field>) {
    forall p, q :: from <= p < q < |r| ==> FirstIndex(xs, r[p].name) < FirstIndex(xs, r[q].name)
  }

  /** The fields a merge appends come in the order in which their names
      first occur in `xs`. */
  lemma {:induction false} MergeFieldsOrder(b: seq<Field>, xs: seq<Field>)
    requires UniqueNames(b)
    ensures OrderedFrom(MergeFields(b, xs), |b|, xs)
    decreases |xs|
  {
    if |xs| > 0 {
      var x := xs[0];
      var b' := if HasField(b, x.name) then b else AddField(b, x.name, x.schema);
      var r := MergeFields(b', xs[1..]);
      assert r == MergeFields(b, xs);
      MergeFieldsOrder(b', xs[1..]);
      assert OrderedFrom(r, |b'|, xs[1..]);
      // x's name sits at position k < |b'| of r, so no later field carries it.
      var k: nat;
      if HasField(b, x.name) {
        k :| k < |b| && b[k].name == x.name;
      } else {
        k := |b|;
      }
      assert r[..|b'|] == b';
      assert k < |b'| && r[k].name == x.name;
      assert UniqueNames(r);
      OrderedAfterStep(xs, r, |b|, |b'|, k);
    }
  }

  /** The inductive step of `MergeFieldsOrder`: the first field of `xs` sits
      at position `k` of `r`, and the fields from `n` on are ordered by `xs`
      without its first field. */
  lemma OrderedAfterStep(xs: seq<Field>, r: seq<Field>, from: nat, n: nat, k: nat)
    requires |xs| > 0 && UniqueNames(r)
    requires k < n <= |r| && r[k].name == xs[0].name
    requires (n == from && k < from) || (n == from + 1 && k == from)
    requires OrderedFrom(r, n, xs[1..])
    ensures OrderedFrom(r, from, xs)
  {
    forall p, q | from <= p < q < |r|
      ensures FirstIndex(xs, r[p].name) < FirstIndex(xs, r[q].name)
    {
      assert r[q].name != xs[0].name;
      if p != k {
        assert r[p].name != xs[0].name;
        assert FirstIndex(xs[1..], r[p].name) < FirstIndex(xs[1..], r[q].name);
      }
    }
  }
}
