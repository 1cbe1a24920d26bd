/** The shape of the metadata maps the extraction chains hand to the
    resolvers: string or integer tag keys, and values that are text,
    numbers (EXIF rationals), booleans, sequences, nested dictionaries,
    `None`, or some other object (a `datetime`, an `IfdTag`). A `Dict` lists
    its entries in iteration order. */
module MetaValues {

  datatype Key = Name(name: string) | Tag(id: int)

  datatype Value =
    | Null
    | Str(s: string)
    | Num(r: real)
    | Bool(b: bool)
    | Items(items: seq<Value>)
    | Dict(entries: seq<(Key, Value)>)
    | Opaque

  type MetaMap = map<Key, Value>

  /** Python truthiness: `None`, zero, the empty string, list and dict are
      false; any other object is true. */
  predicate Truthy(v: Value) {
    match v
    case Null => false
    case Str(s) => s != ""
    case Num(r) => r != 0.0
    case Bool(b) => b
    case Items(xs) => xs != []
    case Dict(es) => es != []
    case Opaque => true
  }

  /** `m.get(k, default)`. */
  function Get(m: MetaMap, k: Key, default: Value): (v: Value)
    ensures k in m ==> v == m[k]
    ensures k !in m ==> v == default
  {
    if k in m then m[k] else default
  }

  /** The dictionary built by assigning the entries in order: a later entry
      for the same key overwrites an earlier one. */
  function FromEntries(es: seq<(Key, Value)>): (m: MetaMap)
    ensures forall k :: k in m <==> exists j :: 0 <= j < |es| && es[j].0 == k
    decreases |es|
  {
    if es == [] then map[]
    else
      var last := es[|es| - 1];
      FromEntries(es[..|es| - 1])[last.0 := last.1]
  }

  /** The entry `FromEntries` keeps for `k` is the last one written. */
  lemma {:induction false} FromEntriesLast(es: seq<(Key, Value)>, j: nat)
    requires j < |es|
    requires forall q :: j < q < |es| ==> es[q].0 != es[j].0
    ensures FromEntries(es)[es[j].0] == es[j].1
    decreases |es|
  {
    if j < |es| - 1 {
      FromEntriesLast(es[..|es| - 1], j);
    }
  }
}
