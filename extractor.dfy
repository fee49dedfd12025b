/**
 * `get_structure`: the structure of a decoded vault document, i.e. all of its
 * keys and containers and none of its values.
 */
module Extractor {
  import opened Yaml

  /** The string `"secret"` that replaces every scalar stored as a dict value. */
  const Secret: Value := Leaf(Str("secret"))

  /** Python `None`: what a scalar reached directly (a list element or the root) becomes. */
  const NoneValue: Value := Leaf(Null)

  /**
   * The structure of `v`. A list maps element by element; a dict keeps its keys
   * in order, hiding scalar values behind `"secret"` and recursing into dict and
   * list values; a scalar falls through both type tests of the source and gives
   * `None`.
   */
  function Structure(v: Value): (r: Value)
    ensures v.Leaf? <==> r == NoneValue
    ensures v.List? <==> r.List?
    ensures v.List? ==> |r.items| == |v.items|
    ensures v.Dict? <==> r.Dict?
    ensures v.Dict? ==> Keys(r.entries) == Keys(v.entries)
    ensures v.Dict? ==> forall i :: 0 <= i < |v.entries| ==>
      (v.entries[i].1.Leaf? <==> r.entries[i].1 == Secret)
  {
    match v
    case List(items) => List(seq(|items|, i requires 0 <= i < |items| => Structure(items[i])))
    case Dict(entries) =>
      Dict(seq(|entries|, i requires 0 <= i < |entries| =>
        (entries[i].0, if entries[i].1.Leaf? then Secret else Structure(entries[i].1))))
    case Leaf(_) => NoneValue
  }

  /**
   * The trees the extractor produces: a scalar dict value is `"secret"`, any
   * other scalar is `None`, containers hold such trees.
   */
  predicate IsShape(v: Value) {
    match v
    case Leaf(s) => s == Null
    case List(items) => forall i :: 0 <= i < |items| ==> IsShape(items[i])
    case Dict(entries) =>
      forall i :: 0 <= i < |entries| ==>
        if entries[i].1.Leaf? then entries[i].1 == Secret else IsShape(entries[i].1)
  }

  /** No scalar but the two markers `"secret"` and `None` occurs anywhere in `v`. */
  predicate OnlyMarkers(v: Value) {
    match v
    case Leaf(s) => s == Null || s == Str("secret")
    case List(items) => forall i :: 0 <= i < |items| ==> OnlyMarkers(items[i])
    case Dict(entries) => forall i :: 0 <= i < |entries| ==> OnlyMarkers(entries[i].1)
  }

  /** The skeleton of `v`: the same keys, lengths and nesting, every scalar replaced by `None`. */
  function Erase(v: Value): Value {
    match v
    case List(items) => List(seq(|items|, i requires 0 <= i < |items| => Erase(items[i])))
    case Dict(entries) =>
      Dict(seq(|entries|, i requires 0 <= i < |entries| => (entries[i].0, Erase(entries[i].1))))
    case Leaf(_) => NoneValue
  }

  /** Every result of the extractor is a shape tree. */
  lemma {:induction false} StructureIsShape(v: Value)
    ensures IsShape(Structure(v))
  {
    match v
    case Leaf(_) =>
    case List(items) =>
      forall i | 0 <= i < |items| ensures IsShape(Structure(items[i])) {
        StructureIsShape(items[i]);
      }
    case Dict(entries) =>
      forall i | 0 <= i < |entries| && !entries[i].1.Leaf? ensures IsShape(Structure(entries[i].1)) {
        StructureIsShape(entries[i].1);
      }
  }

  /** A shape tree holds no scalar but the markers. */
  lemma {:induction false} ShapeHasOnlyMarkers(v: Value)
    requires IsShape(v)
    ensures OnlyMarkers(v)
  {
    match v
    case Leaf(_) =>
    case List(items) =>
      forall i | 0 <= i < |items| ensures OnlyMarkers(items[i]) {
        ShapeHasOnlyMarkers(items[i]);
      }
    case Dict(entries) =>
      forall i | 0 <= i < |entries| ensures OnlyMarkers(entries[i].1) {
        if !entries[i].1.Leaf? {
          ShapeHasOnlyMarkers(entries[i].1);
        }
      }
  }

  /** The extracted structure contains none of the document's scalar values. */
  lemma StructureHidesValues(v: Value)
    ensures OnlyMarkers(Structure(v))
  {
    StructureIsShape(v);
    ShapeHasOnlyMarkers(Structure(v));
  }

  /**
   * The extractor preserves shape: the result has the same keys in the same
   * order, the same list lengths and the same nesting as the input.
   */
  lemma {:induction false} StructurePreservesSkeleton(v: Value)
    ensures Erase(Structure(v)) == Erase(v)
  {
    match v
    case Leaf(_) =>
    case List(items) =>
      forall i | 0 <= i < |items| ensures Erase(Structure(items[i])) == Erase(items[i]) {
        StructurePreservesSkeleton(items[i]);
      }
    case Dict(entries) =>
      forall i | 0 <= i < |entries| && !entries[i].1.Leaf?
        ensures Erase(Structure(entries[i].1)) == Erase(entries[i].1)
      {
        StructurePreservesSkeleton(entries[i].1);
      }
  }

  /** The keys of a dict are kept, so a well-formed document gives a well-formed structure. */
  lemma {:induction false} StructureWellFormed(v: Value)
    requires WellFormed(v)
    ensures WellFormed(Structure(v))
  {
    match v
    case Leaf(_) =>
    case List(items) =>
      forall i | 0 <= i < |items| ensures WellFormed(Structure(items[i])) {
        StructureWellFormed(items[i]);
      }
    case Dict(entries) =>
      forall i | 0 <= i < |entries| && !entries[i].1.Leaf?
        ensures WellFormed(Structure(entries[i].1))
      {
        StructureWellFormed(entries[i].1);
      }
  }

  /** The extractor leaves a tree unchanged exactly when the tree is a shape tree. */
  lemma {:induction false} StructureFixedIff(v: Value)
    ensures Structure(v) == v <==> IsShape(v)
  {
    StructureIsShape(v);
    if IsShape(v) {
      ShapeIsFixed(v);
    }
  }

  lemma {:induction false} ShapeIsFixed(v: Value)
    requires IsShape(v)
    ensures Structure(v) == v
  {
    match v
    case Leaf(_) =>
    case List(items) =>
      forall i | 0 <= i < |items| ensures Structure(items[i]) == items[i] {
        ShapeIsFixed(items[i]);
      }
      assert Structure(v).items == items;
    case Dict(entries) =>
      forall i | 0 <= i < |entries|
        ensures (if entries[i].1.Leaf? then Secret else Structure(entries[i].1)) == entries[i].1
      {
        if !entries[i].1.Leaf? {
          ShapeIsFixed(entries[i].1);
        }
      }
      assert Structure(v).entries == entries;
  }

  /** Extracting the structure of a structure changes nothing. */
  lemma StructureIdempotent(v: Value)
    ensures Structure(Structure(v)) == Structure(v)
  {
    StructureIsShape(v);
    ShapeIsFixed(Structure(v));
  }

  /** A list of scalars becomes a list of `None`, one per element, not of `"secret"`. */
  lemma ScalarListGivesNones(items: seq<Value>)
    requires forall i :: 0 <= i < |items| ==> items[i].Leaf?
    ensures Structure(List(items)) == List(seq(|items|, _ => NoneValue))
  {
  }

  /**
   * `get_structure` as the source runs it: a list is rebuilt by appending the
   * structure of each element, a dict by updating an empty dict key by key.
   */
  method GetStructure(data: Value) returns (keys: Value)
    requires WellFormed(data)
    ensures keys == Structure(data)
    ensures WellFormed(keys)
    decreases data
  {
    match data {
      case List(items) =>
        var acc: seq<Value> := [];
        for i := 0 to |items|
          invariant |acc| == i
          invariant forall j :: 0 <= j < i ==> acc[j] == Structure(items[j])
        {
          var element := GetStructure(items[i]);
          acc := acc + [element];
        }
        keys := List(acc);
      case Dict(entries) =>
        var acc: seq<(string, Value)> := [];
        for i := 0 to |entries|
          invariant |acc| == i
          invariant forall j :: 0 <= j < i ==>
            acc[j] == (entries[j].0, if entries[j].1.Leaf? then Secret else Structure(entries[j].1))
        {
          var (key, value) := entries[i];
          assert key !in Keys(acc);
          if !value.Dict? && !value.List? {
            acc := Put(acc, key, Secret);
          } else {
            var sub := GetStructure(value);
            acc := Put(acc, key, sub);
          }
        }
        keys := Dict(acc);
      case Leaf(_) =>
        keys := NoneValue;
    }
    StructureWellFormed(data);
  }
}
