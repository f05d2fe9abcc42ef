/**
 * The index of `p4/index.h`, seen through its interface: a map from key to
 * the offset of that key's newest record. A cell holding 0 exists but names
 * no record yet.
 */
module KvIndex {
  import opened Bytes
  import opened RecordLog

  type Index = map<Key, nat>

  /** The value a cell holds, 0 when the key has no cell. */
  function CellOf(ix: Index, key: Key): nat {
    if key in ix then ix[key] else 0
  }

  /** `index_update`: get-or-insert; a new cell starts at 0 and no other cell moves. */
  function Update(ix: Index, key: Key): (r: Index)
    ensures r.Keys == ix.Keys + {key}
    ensures r[key] == CellOf(ix, key)
    ensures forall k :: k in ix ==> r[k] == ix[k]
  {
    if key in ix then ix else ix[key := 0]
  }

  /** `index_lookup`: read-only, absent when the key never had a cell. */
  function Lookup(ix: Index, key: Key): Option<nat> {
    if key in ix then Some(ix[key]) else None
  }
}
