/**
 * The property index: property key -> property value -> the ids of the nodes
 * that were ever given that value for that key, in the order they were given
 * it. Entries are only ever appended.
 */
module PropertyIndex {

  type Index = map<string, map<string, seq<string>>>

  /** The ids recorded under (`key`, `value`); empty when either level is missing. */
  function Bucket(idx: Index, key: string, value: string): seq<string>
  {
    if key in idx && value in idx[key] then idx[key][value] else []
  }

  /**
   * The index after recording `id` under (`key`, `value`), creating the
   * key and value levels when they are missing: that one bucket gains `id`
   * at its end and every other bucket is as it was.
   */
  function Indexed(idx: Index, key: string, value: string, id: string): (r: Index)
    ensures Bucket(r, key, value) == Bucket(idx, key, value) + [id]
    ensures forall k, v :: (k != key || v != value) ==> Bucket(r, k, v) == Bucket(idx, k, v)
    ensures r.Keys == idx.Keys + {key}
  {
    var inner := if key in idx then idx[key] else map[];
    var ids := if value in inner then inner[value] else [];
    idx[key := inner[value := ids + [id]]]
  }

  /**
   * Recording the same node twice under the same (key, value) leaves two
   * entries for it: the index keeps repeats.
   */
  lemma RepeatedValueKept(idx: Index, key: string, value: string, id: string)
    ensures Bucket(Indexed(Indexed(idx, key, value, id), key, value, id), key, value) == Bucket(idx, key, value) + [id, id]
  {
    assert Bucket(idx, key, value) + [id] + [id] == Bucket(idx, key, value) + [id, id];
  }
}
