/**
 * A decoded YAML document as `yaml.safe_load` hands it to the extractor:
 * Python dicts (kept in insertion order), lists and scalars.
 */
module Yaml {

  /**
   * What the extractor's type tests see as a scalar. Floats, dates, `!unsafe`
   * strings, sets, bytes and the tuples of `!!omap`/`!!pairs` are all `Other`.
   */
  datatype Scalar = Null | Bool(b: bool) | Int(i: int) | Str(s: string) | Other(text: string)

  /** A dict is its sequence of (key, value) pairs in insertion order. */
  datatype Value =
    | Dict(entries: seq<(string, Value)>)
    | List(items: seq<Value>)
    | Leaf(scalar: Scalar)

  function Keys(entries: seq<(string, Value)>): (keys: seq<string>)
    ensures |keys| == |entries|
    ensures forall i :: 0 <= i < |entries| ==> keys[i] == entries[i].0
  {
    seq(|entries|, i requires 0 <= i < |entries| => entries[i].0)
  }

  predicate DistinctKeys(entries: seq<(string, Value)>) {
    forall i, j :: 0 <= i < j < |entries| ==> entries[i].0 != entries[j].0
  }

  /** What a Python dict guarantees at every level: no key occurs twice. */
  predicate WellFormed(v: Value) {
    match v
    case Leaf(_) => true
    case List(items) => forall i :: 0 <= i < |items| ==> WellFormed(items[i])
    case Dict(entries) =>
      DistinctKeys(entries) && forall i :: 0 <= i < |entries| ==> WellFormed(entries[i].1)
  }

  /**
   * `d.update({key: value})` on an insertion-ordered dict: an existing key keeps
   * its position and takes the new value, a new key is appended.
   */
  function Put(d: seq<(string, Value)>, key: string, value: Value): (r: seq<(string, Value)>)
    ensures key !in Keys(d) ==> r == d + [(key, value)]
  {
    if |d| == 0 then [(key, value)]
    else if d[0].0 == key then [(key, value)] + d[1..]
    else [d[0]] + Put(d[1..], key, value)
  }
}
