/**
 * The key-value database of `p4/kvdb.c`: four mutations (insert, update,
 * replace, remove) and a lookup over the chained record store and the
 * index, each answering with the source's tri-state result, plus the
 * `size` and `waste` counters.
 *
 * The store and the index are the abstractions of `RecordLog` and
 * `KvIndex`. What the collaborators may do wrong is a parameter: `Faults`
 * says whether `index_update` fails to allocate a cell and whether
 * `kvraw_append` fails to write. A failing `kvraw_lookup` is a read of an
 * offset that holds no record.
 */
module Kvdb {
  import opened Bytes
  import opened RecordLog
  import KvIndex

  /** The tri-state result: 0, +1 and -1. */
  datatype Status = Success | Violation | Failure

  /** `KVDB_MAX_KEY_LEN` and `KVDB_MAX_VAL_LEN` (their values live in `kvdb.h`). */
  datatype Limits = Limits(maxKeyLen: nat, maxValLen: nat)

  /** What the entry points assert of every key. */
  predicate KeyOk(lim: Limits, key: Key) {
    0 < |key| <= lim.maxKeyLen
  }

  /** What insert, update and replace assert of every value. */
  predicate ValOk(lim: Limits, val: seq<byte>) {
    0 < |val| <= lim.maxValLen
  }

  /** Which collaborator calls fail during one mutation. */
  datatype Faults = Faults(indexAllocFails: bool, appendFails: bool)

  const NoFaults := Faults(false, false)

  datatype Db = Db(size: u64, waste: u64, log: seq<Record>, index: KvIndex.Index)

  datatype Mode = MutateRemove | MutateInsert | MutateUpdate | MutateReplace

  /** A mutation's result; `removedLen` is the value length a successful remove reports back. */
  datatype Outcome = Outcome(status: Status, db: Db, removedLen: nat)

  datatype Found = Found(val: seq<byte>) | Missing | LookupFailed

  /** A fresh database: no records, no cells, both counters 0. */
  function Open(): Db {
    Db(0, 0, [], map[])
  }

  /**
   * `chain_lookup`: walk back from `off`, following each record's link on a
   * key mismatch. Some(o) is the first record on the walk whose key equals
   * `key`, or 0 when the walk reaches offset 0 without one; None when a
   * read fails, which on a log whose links point backwards happens exactly
   * when the walk starts past the last record.
   */
  function ChainLookup(log: seq<Record>, key: Key, off: nat): (r: Option<nat>)
    requires LinksBackward(log)
    ensures off == 0 ==> r == Some(0)
    ensures r.None? <==> off > |log|
    ensures r == Some(0) ==> forall o :: o in Chain(log, off) ==> log[o - 1].key != key
    ensures r.Some? && r.value != 0 ==>
      && r.value in Chain(log, off)
      && log[r.value - 1].key == key
      && forall o :: o in Chain(log, off) && o > r.value ==> log[o - 1].key != key
    decreases off
  {
    if off == 0 then Some(0)
    else match ReadAt(log, off)
      case None => None
      case Some(rec) =>
        if rec.key == key then Some(off)
        else ChainLookup(log, key, rec.prev)
  }

  /** The value length the chain walk reports for the record it stopped at (0 for none). */
  function FoundLen(log: seq<Record>, off: nat): nat {
    if 0 < off <= |log| then |log[off - 1].val| else 0
  }

  /**
   * `mutate`: resolve (or create) the key's cell, walk its chain, check the
   * mode's precondition, append one record linked to the cell's old value
   * and relink the cell, then adjust the counters.
   */
  function Mutate(db: Db, key: Key, val: seq<byte>, mode: Mode, faults: Faults): (r: Outcome)
    requires LinksBackward(db.log)
    ensures LinksBackward(r.db.log)
    ensures faults.indexAllocFails ==> r.status == Failure && r.db == db
    ensures r.db.index.Keys == db.index.Keys || r.db.index.Keys == db.index.Keys + {key}
    ensures forall k :: k in db.index && k != key ==> r.db.index[k] == db.index[k]
    ensures r.status != Success ==>
      && r.db.log == db.log && r.db.size == db.size && r.db.waste == db.waste
      && KvIndex.CellOf(r.db.index, key) == KvIndex.CellOf(db.index, key)
    ensures r.status == Success ==>
      && r.db.log == db.log + [Record(key, if mode == MutateRemove then [] else val, KvIndex.CellOf(db.index, key))]
      && key in r.db.index && r.db.index[key] == |r.db.log|
    ensures mode == MutateUpdate && !faults.appendFails ==> r.status != Violation
  {
    if faults.indexAllocFails then Outcome(Failure, db, 0)
    else
      var index := KvIndex.Update(db.index, key);
      var cell := index[key];
      var db1 := db.(index := index);
      match ChainLookup(db.log, key, cell)
      case None => Outcome(Failure, db1, 0)
      case Some(off) =>
        var len := FoundLen(db.log, off);
        var live := off != 0 && len != 0;
        var stored := if mode == MutateRemove then [] else val;
        var appended := db1.(log := db.log + [Record(key, stored, cell)],
                             index := index[key := |db.log| + 1]);
        match mode
        case MutateRemove =>
          if !live then Outcome(Violation, db1, 0)
          else if faults.appendFails then Outcome(Failure, db1, 0)
          else Outcome(Success, appended.(size := Dec(db.size), waste := Inc(db.waste)), len)
        case MutateInsert =>
          if live then Outcome(Violation, db1, 0)
          else if faults.appendFails then Outcome(Failure, db1, 0)
          else Outcome(Success, appended.(size := Inc(db.size)), 0)
        case MutateUpdate =>
          if faults.appendFails then Outcome(Failure, db1, 0)
          else if !live then Outcome(Success, appended.(size := Inc(db.size)), 0)
          else Outcome(Success, appended.(waste := Inc(db.waste)), 0)
        case MutateReplace =>
          if !live then Outcome(Violation, db1, 0)
          else if faults.appendFails then Outcome(Failure, db1, 0)
          else Outcome(Success, appended.(waste := Inc(db.waste)), 0)
  }

  /**
   * The update branch of `mutate` in the order the source writes it: the
   * counter is bumped before the append, so when the append fails the call
   * reports -1 with `size` or `waste` already changed. `Mutate` checks the
   * append first; the two agree whenever the append succeeds.
   */
  function UpdateAsWritten(db: Db, key: Key, val: seq<byte>, faults: Faults): (r: Outcome)
    requires LinksBackward(db.log)
    ensures !faults.appendFails ==> r == Mutate(db, key, val, MutateUpdate, faults)
    ensures faults.appendFails && !faults.indexAllocFails && KvIndex.CellOf(db.index, key) <= |db.log| ==>
      && r.status == Failure && r.db.log == db.log
      && (r.db.size != db.size || r.db.waste != db.waste)
  {
    if faults.indexAllocFails then Outcome(Failure, db, 0)
    else
      var index := KvIndex.Update(db.index, key);
      var cell := index[key];
      var db1 := db.(index := index);
      match ChainLookup(db.log, key, cell)
      case None => Outcome(Failure, db1, 0)
      case Some(off) =>
        var live := off != 0 && FoundLen(db.log, off) != 0;
        var bumped := if !live then db1.(size := Inc(db.size)) else db1.(waste := Inc(db.waste));
        if faults.appendFails then Outcome(Failure, bumped, 0)
        else Outcome(Success, bumped.(log := db.log + [Record(key, val, cell)],
                                      index := index[key := |db.log| + 1]), 0)
  }

  /** `kvdb_remove`. */
  function Remove(db: Db, lim: Limits, key: Key, faults: Faults): Outcome
    requires KeyOk(lim, key) && LinksBackward(db.log)
  {
    Mutate(db, key, [], MutateRemove, faults)
  }

  /** `kvdb_insert`. */
  function Insert(db: Db, lim: Limits, key: Key, val: seq<byte>, faults: Faults): Outcome
    requires KeyOk(lim, key) && ValOk(lim, val) && LinksBackward(db.log)
  {
    Mutate(db, key, val, MutateInsert, faults)
  }

  /** `kvdb_update` (upsert). */
  function Update(db: Db, lim: Limits, key: Key, val: seq<byte>, faults: Faults): Outcome
    requires KeyOk(lim, key) && ValOk(lim, val) && LinksBackward(db.log)
  {
    Mutate(db, key, val, MutateUpdate, faults)
  }

  /** `kvdb_replace`. */
  function Replace(db: Db, lim: Limits, key: Key, val: seq<byte>, faults: Faults): Outcome
    requires KeyOk(lim, key) && ValOk(lim, val) && LinksBackward(db.log)
  {
    Mutate(db, key, val, MutateReplace, faults)
  }

  /**
   * `kvdb_lookup`: "not found" (+1) when the key has no cell, its cell is 0,
   * the walk finds no record with the key, or the newest such record is a
   * tombstone; otherwise the value of that record (0).
   */
  function Lookup(db: Db, lim: Limits, key: Key): (r: Found)
    requires KeyOk(lim, key) && LinksBackward(db.log)
    ensures KvIndex.CellOf(db.index, key) == 0 ==> r == Missing
    ensures r.Found? ==> r.val != [] && exists i :: 0 <= i < |db.log| && db.log[i].key == key && db.log[i].val == r.val
  {
    match KvIndex.Lookup(db.index, key)
    case None => Missing
    case Some(cell) =>
      if cell == 0 then Missing
      else match ChainLookup(db.log, key, cell)
        case None => LookupFailed
        case Some(off) =>
          if off == 0 || db.log[off - 1].val == [] then Missing
          else Found(db.log[off - 1].val)
  }

  /** `kvdb_size`. */
  function Size(db: Db): u64 {
    db.size
  }

  /** `kvdb_waste`. */
  function Waste(db: Db): u64 {
    db.waste
  }
}
