/**
 * The `HashMap<Data<HeaderFieldKey>, Data<Ascii>>` of the `Data`-based header
 * (src/header/header.rs, src/header/builders.rs). `HeaderFieldKey` compares
 * and hashes ASCII-case-insensitively, so the map is filed by the lowercased
 * key. `HashMap::insert` on a key that is already present replaces the value
 * and keeps the key, so each entry remembers the spelling it was first
 * inserted with.
 */
module FieldMap {
  import opened Wrappers
  import opened Bytes
  import opened Ascii
  import opened Encodings

  /** Lowercased key -> (key as stored, value). */
  type Fields = map<seq<byte>, (seq<byte>, seq<byte>)>

  /**
   * Every entry is filed under its stored key lowercased, the stored key is a
   * valid `HeaderFieldKey` and the value a valid `Ascii`.
   */
  predicate Valid(m: Fields) {
    forall f | f in m :: Lowercase(m[f].0) == f && KeyValid(m[f].0) && AsciiValid(m[f].1)
  }

  /**
   * Each filed key exactly once: an order in which `HashMap::iter` may visit
   * the entries. The model leaves the order open; what depends on it takes
   * it as a parameter.
   */
  predicate IsOrder(m: Fields, order: seq<seq<byte>>) {
    && (forall i, j | 0 <= i < j < |order| :: order[i] != order[j])
    && (forall f | f in m :: f in order)
    && (forall f | f in order :: f in m)
  }

  /**
   * `HashMap::insert(key, value)`: a key equal to a stored one, up to case,
   * replaces that entry's value and keeps its key; any other key is added.
   */
  function Insert(m: Fields, key: seq<byte>, value: seq<byte>): (r: Fields)
    ensures r.Keys == m.Keys + {Lowercase(key)}
    ensures Lowercase(key) in m ==> r[Lowercase(key)] == (m[Lowercase(key)].0, value)
    ensures Lowercase(key) !in m ==> r[Lowercase(key)] == (key, value)
    ensures forall f | f in m && f != Lowercase(key) :: r[f] == m[f]
    ensures Valid(m) && KeyValid(key) && AsciiValid(value) ==> Valid(r)
  {
    var f := Lowercase(key);
    if f in m then m[f := (m[f].0, value)] else m[f := (key, value)]
  }

  /** `HashMap::get(key)`: the value stored under a key equal to `key` up to case. */
  function Get(m: Fields, key: seq<byte>): (r: Option<seq<byte>>)
    ensures r.Some? <==> Lowercase(key) in m
    ensures Valid(m) && r.Some? ==> AsciiValid(r.value)
  {
    var f := Lowercase(key);
    if f in m then Some(m[f].1) else None
  }

  /**
   * After `insert(key, value)`, a lookup with any spelling of `key` finds
   * `value`, and a lookup of any other key finds what it found before.
   */
  lemma GetAfterInsert(m: Fields, key: seq<byte>, value: seq<byte>, other: seq<byte>)
    ensures Get(Insert(m, key, value), other) ==
      if Lowercase(other) == Lowercase(key) then Some(value) else Get(m, other)
  {
  }

  /** Inserting twice under keys equal up to case keeps the first spelling and the last value. */
  lemma InsertTwice(m: Fields, k1: seq<byte>, v1: seq<byte>, k2: seq<byte>, v2: seq<byte>)
    requires Lowercase(k1) == Lowercase(k2) && Lowercase(k1) !in m
    ensures Insert(Insert(m, k1, v1), k2, v2) == m[Lowercase(k1) := (k1, v2)]
  {
  }
}
