/**
 * What the key-value database promises: an invariant every reachable state
 * keeps, and a refinement of each operation to the map the log denotes
 * (`RecordLog.Contents`). Lookups return that map's value, mutations change
 * it exactly as insert / upsert / replace / remove should, and the counters
 * track it: `size` is its number of keys and `waste` counts the superseded
 * live records.
 */
module KvdbProofs {
  import opened Bytes
  import opened RecordLog
  import KvIndex
  import opened Kvdb

  /** Every cell names its key's newest record (0 for a key without records). */
  predicate Tracks(log: seq<Record>, index: KvIndex.Index) {
    forall k :: k in index ==> index[k] == Newest(log, k)
  }

  /** Every key that has a record has a cell. */
  predicate Covers(log: seq<Record>, index: KvIndex.Index) {
    forall i :: 0 <= i < |log| ==> log[i].key in index
  }

  /**
   * The counters: `size` is the number of keys with a live value, and every
   * record is either live, a superseded live value (`waste`) or a tombstone.
   */
  predicate Counted(db: Db) {
    && db.size == |Contents(db.log)|
    && |db.log| == db.size + db.waste + Tombstones(db.log)
  }

  /** The state invariant of a database reachable from `Open`. */
  predicate Inv(db: Db) {
    && ChainLinked(db.log)
    && LinksBackward(db.log)
    && Tracks(db.log, db.index)
    && Covers(db.log, db.index)
    && Counted(db)
  }

  lemma MapCardUpdate<K, V>(m: map<K, V>, k: K, v: V)
    ensures |m[k := v]| == if k in m then |m| else |m| + 1
  {
  }

  lemma MapCardRemove<K, V>(m: map<K, V>, k: K)
    ensures |m - {k}| == if k in m then |m| - 1 else |m|
  {
    assert (m - {k}).Keys == m.Keys - {k};
  }

  /** A fresh database satisfies the invariant. */
  lemma OpenInv()
    ensures Inv(Open())
  {
  }

  /** Under the invariant a key's cell (0 when it has none) names its newest record. */
  lemma CellIsNewest(db: Db, key: Key)
    requires Inv(db)
    ensures KvIndex.CellOf(db.index, key) == Newest(db.log, key)
  {
    var o := Newest(db.log, key);
    if o != 0 {
      assert db.log[o - 1].key == key;
    }
  }

  /**
   * On a strictly chained log the backward walk never needs more than one
   * step: it stops at `off` when that record has the key, and otherwise
   * follows a chain of another key down to 0.
   */
  lemma ChainLookupOneStep(log: seq<Record>, key: Key, off: nat)
    requires ChainLinked(log) && LinksBackward(log) && off <= |log|
    ensures ChainLookup(log, key, off) == Some(if off != 0 && log[off - 1].key == key then off else 0)
  {
    var r := ChainLookup(log, key, off);
    if off != 0 {
      assert off in Chain(log, off);
      if log[off - 1].key != key {
        ChainKeepsKey(log, off);
      }
    }
  }

  /** The walk a mutation or lookup starts from a key's cell finds the key's newest record. */
  lemma ChainFindsNewest(db: Db, key: Key)
    requires Inv(db)
    ensures ChainLookup(db.log, key, KvIndex.CellOf(db.index, key)) == Some(Newest(db.log, key))
  {
    CellIsNewest(db, key);
    ChainLookupOneStep(db.log, key, Newest(db.log, key));
  }

  /**
   * Lookup answers with the denoted map: the value when the key is present,
   * "not found" when it is absent, and never an internal failure.
   */
  lemma LookupRefines(db: Db, lim: Limits, key: Key)
    requires Inv(db) && KeyOk(lim, key)
    ensures Lookup(db, lim, key) == if key in Contents(db.log) then Found(Contents(db.log)[key]) else Missing
  {
    ChainFindsNewest(db, key);
    ContentsNewest(db.log, key);
  }

  /** The same state after a call that changed nothing but possibly added a zero cell for `key`. */
  lemma ZeroCellKeepsInv(db: Db, key: Key)
    requires Inv(db)
    ensures Inv(db.(index := KvIndex.Update(db.index, key)))
  {
    CellIsNewest(db, key);
  }

  lemma AppendTracks(log: seq<Record>, index: KvIndex.Index, rec: Record)
    requires Tracks(log, index)
    ensures Tracks(log + [rec], KvIndex.Update(index, rec.key)[rec.key := |log| + 1])
  {
    var index' := KvIndex.Update(index, rec.key)[rec.key := |log| + 1];
    forall k | k in index'
      ensures index'[k] == Newest(log + [rec], k)
    {
      AppendOne(log, rec, k);
      if k != rec.key {
        assert k in index;
      }
    }
  }

  lemma AppendCovers(log: seq<Record>, index: KvIndex.Index, rec: Record)
    requires Covers(log, index)
    ensures Covers(log + [rec], KvIndex.Update(index, rec.key)[rec.key := |log| + 1])
  {
    var log' := log + [rec];
    var index' := KvIndex.Update(index, rec.key)[rec.key := |log| + 1];
    forall i | 0 <= i < |log'|
      ensures log'[i].key in index'
    {
      if i < |log| {
        assert log'[i] == log[i];
      }
    }
  }

  /** Appending the key's next record and relinking its cell keeps the invariant, given matching counters. */
  lemma AppendKeepsInv(db: Db, key: Key, stored: seq<byte>, size': u64, waste': u64)
    requires Inv(db)
    requires size' == |Contents(db.log + [Record(key, stored, Newest(db.log, key))])|
    requires |db.log| + 1 == size' + waste' + Tombstones(db.log + [Record(key, stored, Newest(db.log, key))])
    ensures Inv(Db(size', waste', db.log + [Record(key, stored, Newest(db.log, key))],
                   KvIndex.Update(db.index, key)[key := |db.log| + 1]))
  {
    var rec := Record(key, stored, Newest(db.log, key));
    AppendKeepsChainLinked(db.log, key, stored);
    ChainLinkedLinksBackward(db.log + [rec]);
    AppendTracks(db.log, db.index, rec);
    AppendCovers(db.log, db.index, rec);
  }

  /** What a mutation observes before it decides: the key's newest record, live exactly when the key is present. */
  lemma Observe(db: Db, key: Key)
    requires Inv(db)
    ensures ChainLookup(db.log, key, Newest(db.log, key)) == Some(Newest(db.log, key))
    ensures (Newest(db.log, key) != 0 && FoundLen(db.log, Newest(db.log, key)) != 0) <==> key in Contents(db.log)
    ensures key in Contents(db.log) ==> FoundLen(db.log, Newest(db.log, key)) == |Contents(db.log)[key]|
    ensures KvIndex.Update(db.index, key)[key] == Newest(db.log, key)
  {
    NewestChain(db.log, key);
    NewestLive(db.log, key);
    CellRelinked(db, key);
  }

  /** The newest record holds a value exactly when the key is in the denoted map, and that value is the map's. */
  lemma NewestLive(log: seq<Record>, key: Key)
    ensures (Newest(log, key) != 0 && FoundLen(log, Newest(log, key)) != 0) <==> key in Contents(log)
    ensures key in Contents(log) ==> FoundLen(log, Newest(log, key)) == |Contents(log)[key]|
  {
    ContentsNewest(log, key);
  }

  /** The cell a mutation resolves (created as 0 when missing) names the key's newest record. */
  lemma CellRelinked(db: Db, key: Key)
    requires Inv(db)
    ensures KvIndex.Update(db.index, key)[key] == Newest(db.log, key)
  {
    CellIsNewest(db, key);
  }

  /** The walk from a key's newest record stops right there. */
  lemma NewestChain(log: seq<Record>, key: Key)
    requires ChainLinked(log) && LinksBackward(log)
    ensures ChainLookup(log, key, Newest(log, key)) == Some(Newest(log, key))
  {
    ChainLookupOneStep(log, key, Newest(log, key));
  }

  lemma IncNoWrap(x: u64)
    requires x + 1 < U64_LIMIT
    ensures Inc(x) == x + 1
  {
  }

  lemma DecNoWrap(x: u64)
    requires x > 0
    ensures Dec(x) == x - 1
  {
  }

  /** The record a successful mutation of `key` appends on an invariant state. */
  function NextRecord(db: Db, key: Key, stored: seq<byte>): Record {
    Record(key, stored, Newest(db.log, key))
  }

  /** The index after a successful mutation of `key`. */
  function Relinked(db: Db, key: Key): KvIndex.Index {
    KvIndex.Update(db.index, key)[key := |db.log| + 1]
  }

  /** insert: refused exactly when the key is present; otherwise the key is set and `size` grows. */
  lemma InsertRefines(db: Db, key: Key, val: seq<byte>)
    requires Inv(db) && |db.log| + 1 < U64_LIMIT && val != []
    ensures var r := Mutate(db, key, val, MutateInsert, NoFaults);
            && Inv(r.db) && r.status != Failure
            && (r.status == Violation <==> key in Contents(db.log))
            && Contents(r.db.log) == if key in Contents(db.log) then Contents(db.log) else Contents(db.log)[key := val]
  {
    InsertShape(db, key, val);
    if key in Contents(db.log) {
      ZeroCellKeepsInv(db, key);
    } else {
      IncNoWrap(db.size);
      AppendOne(db.log, NextRecord(db, key, val), key);
      MapCardUpdate(Contents(db.log), key, val);
      AppendKeepsInv(db, key, val, db.size + 1, db.waste);
    }
  }

  /** What insert returns on an invariant state: refused for a present key, appended otherwise. */
  lemma InsertShape(db: Db, key: Key, val: seq<byte>)
    requires Inv(db)
    ensures Mutate(db, key, val, MutateInsert, NoFaults)
         == if key in Contents(db.log) then Outcome(Violation, db.(index := KvIndex.Update(db.index, key)), 0)
            else Outcome(Success, Db(Inc(db.size), db.waste, db.log + [NextRecord(db, key, val)], Relinked(db, key)), 0)
  {
    Observe(db, key);
  }

  /** update: never refused; the key is set, `size` grows for a new key and `waste` for an overwritten one. */
  lemma UpdateRefines(db: Db, key: Key, val: seq<byte>)
    requires Inv(db) && |db.log| + 1 < U64_LIMIT && val != []
    ensures var r := Mutate(db, key, val, MutateUpdate, NoFaults);
            && Inv(r.db) && r.status == Success
            && Contents(r.db.log) == Contents(db.log)[key := val]
            && r.db.size == db.size + (if key in Contents(db.log) then 0 else 1)
            && r.db.waste == db.waste + (if key in Contents(db.log) then 1 else 0)
  {
    if key in Contents(db.log) {
      UpdateExisting(db, key, val);
    } else {
      UpdateNew(db, key, val);
    }
  }

  /** Update of a present key: one more superseded record. */
  lemma UpdateExisting(db: Db, key: Key, val: seq<byte>)
    requires Inv(db) && |db.log| + 1 < U64_LIMIT && val != [] && key in Contents(db.log)
    ensures var r := Mutate(db, key, val, MutateUpdate, NoFaults);
            && Inv(r.db) && r.status == Success
            && Contents(r.db.log) == Contents(db.log)[key := val]
            && r.db.size == db.size && r.db.waste == db.waste + 1
  {
    UpdateShape(db, key, val);
    AppendOne(db.log, NextRecord(db, key, val), key);
    MapCardUpdate(Contents(db.log), key, val);
    IncNoWrap(db.waste);
    AppendKeepsInv(db, key, val, db.size, db.waste + 1);
  }

  /** What update returns on an invariant state: the record appended, one counter bumped. */
  lemma UpdateShape(db: Db, key: Key, val: seq<byte>)
    requires Inv(db)
    ensures Mutate(db, key, val, MutateUpdate, NoFaults)
         == Outcome(Success,
                    Db(if key in Contents(db.log) then db.size else Inc(db.size),
                       if key in Contents(db.log) then Inc(db.waste) else db.waste,
                       db.log + [NextRecord(db, key, val)], Relinked(db, key)),
                    0)
  {
    Observe(db, key);
  }

  /** Update of an absent key: one more key. */
  lemma UpdateNew(db: Db, key: Key, val: seq<byte>)
    requires Inv(db) && |db.log| + 1 < U64_LIMIT && val != [] && key !in Contents(db.log)
    ensures var r := Mutate(db, key, val, MutateUpdate, NoFaults);
            && Inv(r.db) && r.status == Success
            && Contents(r.db.log) == Contents(db.log)[key := val]
            && r.db.size == db.size + 1 && r.db.waste == db.waste
  {
    UpdateShape(db, key, val);
    AppendOne(db.log, NextRecord(db, key, val), key);
    MapCardUpdate(Contents(db.log), key, val);
    IncNoWrap(db.size);
    AppendKeepsInv(db, key, val, db.size + 1, db.waste);
  }

  /** replace: refused exactly when the key is absent; otherwise the key is set and `waste` grows. */
  lemma ReplaceRefines(db: Db, key: Key, val: seq<byte>)
    requires Inv(db) && |db.log| + 1 < U64_LIMIT && val != []
    ensures var r := Mutate(db, key, val, MutateReplace, NoFaults);
            && Inv(r.db) && r.status != Failure
            && (r.status == Violation <==> key !in Contents(db.log))
            && Contents(r.db.log) == if key in Contents(db.log) then Contents(db.log)[key := val] else Contents(db.log)
  {
    ReplaceShape(db, key, val);
    if key !in Contents(db.log) {
      ZeroCellKeepsInv(db, key);
    } else {
      IncNoWrap(db.waste);
      AppendOne(db.log, NextRecord(db, key, val), key);
      MapCardUpdate(Contents(db.log), key, val);
      AppendKeepsInv(db, key, val, db.size, db.waste + 1);
    }
  }

  /** What replace returns on an invariant state: refused for an absent key, appended otherwise. */
  lemma ReplaceShape(db: Db, key: Key, val: seq<byte>)
    requires Inv(db)
    ensures Mutate(db, key, val, MutateReplace, NoFaults)
         == if key !in Contents(db.log) then Outcome(Violation, db.(index := KvIndex.Update(db.index, key)), 0)
            else Outcome(Success, Db(db.size, Inc(db.waste), db.log + [NextRecord(db, key, val)], Relinked(db, key)), 0)
  {
    Observe(db, key);
  }

  /**
   * remove: refused exactly when the key is absent; otherwise a tombstone is
   * appended, the key disappears, `size` shrinks, `waste` grows, and the
   * removed value's length is reported.
   */
  lemma RemoveRefines(db: Db, key: Key)
    requires Inv(db) && |db.log| + 1 < U64_LIMIT
    ensures var r := Mutate(db, key, [], MutateRemove, NoFaults);
            && Inv(r.db) && r.status != Failure
            && (r.status == Violation <==> key !in Contents(db.log))
            && Contents(r.db.log) == Contents(db.log) - {key}
            && (r.status == Success ==> key in Contents(db.log) && r.removedLen == |Contents(db.log)[key]|)
  {
    RemoveShape(db, key);
    if key !in Contents(db.log) {
      ZeroCellKeepsInv(db, key);
      assert Contents(db.log) - {key} == Contents(db.log);
    } else {
      MapCardRemove(Contents(db.log), key);
      DecNoWrap(db.size);
      IncNoWrap(db.waste);
      AppendOne(db.log, NextRecord(db, key, []), key);
      AppendKeepsInv(db, key, [], db.size - 1, db.waste + 1);
    }
  }

  /** What remove returns on an invariant state: refused for an absent key, a tombstone otherwise. */
  lemma RemoveShape(db: Db, key: Key)
    requires Inv(db)
    ensures Mutate(db, key, [], MutateRemove, NoFaults)
         == if key !in Contents(db.log) then Outcome(Violation, db.(index := KvIndex.Update(db.index, key)), 0)
            else Outcome(Success, Db(Dec(db.size), Inc(db.waste), db.log + [NextRecord(db, key, [])], Relinked(db, key)),
                         |Contents(db.log)[key]|)
  {
    if key in Contents(db.log) {
      RemoveLive(db, key);
    } else {
      Observe(db, key);
    }
  }

  lemma RemoveLive(db: Db, key: Key)
    requires Inv(db) && key in Contents(db.log)
    ensures Mutate(db, key, [], MutateRemove, NoFaults)
         == Outcome(Success, Db(Dec(db.size), Inc(db.waste), db.log + [NextRecord(db, key, [])], Relinked(db, key)),
                    |Contents(db.log)[key]|)
  {
    Observe(db, key);
  }

  /**
   * A call that fails (-1) changes neither the log, nor the counters, nor
   * what any key denotes; the invariant survives. The index may have gained
   * a zero cell for the key.
   */
  lemma FailureKeepsState(db: Db, key: Key, val: seq<byte>, mode: Mode, faults: Faults)
    requires Inv(db)
    ensures var r := Mutate(db, key, val, mode, faults);
            r.status == Failure ==> Inv(r.db) && r.db.log == db.log && r.db.size == db.size && r.db.waste == db.waste
  {
    ZeroCellKeepsInv(db, key);
  }

  /**
   * A call that does not fail had no fault to meet: the index allocated,
   * and either the append succeeded or the mode refused before appending.
   * Its outcome is the fault-free one.
   */
  lemma UnfailedIsFaultFree(db: Db, key: Key, val: seq<byte>, mode: Mode, faults: Faults)
    requires LinksBackward(db.log)
    ensures var r := Mutate(db, key, val, mode, faults);
            r.status != Failure ==> r == Mutate(db, key, val, mode, NoFaults)
  {
  }

  /** Remove stores a tombstone whatever value buffer it is handed. */
  lemma RemoveIgnoresVal(db: Db, key: Key, val: seq<byte>, faults: Faults)
    requires LinksBackward(db.log)
    ensures Mutate(db, key, val, MutateRemove, faults) == Mutate(db, key, [], MutateRemove, faults)
  {
  }

  /**
   * The invariant is kept by every call of the model, under any combination
   * of collaborator failures: a failure leaves the database as it was, a
   * refusal only creates the key's cell, and a success is the fault-free
   * append.
   */
  lemma MutateKeepsInv(db: Db, key: Key, val: seq<byte>, mode: Mode, faults: Faults)
    requires Inv(db) && |db.log| + 1 < U64_LIMIT && (mode != MutateRemove ==> val != [])
    ensures Inv(Mutate(db, key, val, mode, faults).db)
  {
    var r := Mutate(db, key, val, mode, faults);
    if r.status == Failure {
      FailureKeepsState(db, key, val, mode, faults);
    } else {
      UnfailedIsFaultFree(db, key, val, mode, faults);
      match mode
      case MutateInsert => InsertRefines(db, key, val);
      case MutateUpdate => UpdateRefines(db, key, val);
      case MutateReplace => ReplaceRefines(db, key, val);
      case MutateRemove =>
        RemoveIgnoresVal(db, key, val, NoFaults);
        RemoveRefines(db, key);
    }
  }

  /** Round trip: a value inserted under an absent key is what lookup returns next. */
  lemma InsertThenLookup(db: Db, lim: Limits, key: Key, val: seq<byte>)
    requires Inv(db) && |db.log| + 1 < U64_LIMIT
    requires KeyOk(lim, key) && ValOk(lim, val)
    requires key !in Contents(db.log)
    ensures Insert(db, lim, key, val, NoFaults).status == Success
    ensures Lookup(Insert(db, lim, key, val, NoFaults).db, lim, key) == Found(val)
  {
    InsertRefines(db, key, val);
    LookupRefines(Insert(db, lim, key, val, NoFaults).db, lim, key);
  }

  /** Chain correctness: after insert(k, v1) and update(k, v2), lookup(k) returns v2. */
  lemma UpdateSupersedes(db: Db, lim: Limits, key: Key, v1: seq<byte>, v2: seq<byte>)
    requires Inv(db) && |db.log| + 2 < U64_LIMIT && key !in Contents(db.log)
    requires KeyOk(lim, key) && ValOk(lim, v1) && ValOk(lim, v2)
    ensures var r1 := Insert(db, lim, key, v1, NoFaults);
            var r2 := Update(r1.db, lim, key, v2, NoFaults);
            && r1.status == Success && r2.status == Success
            && Lookup(r2.db, lim, key) == Found(v2)
            && r2.db.size == db.size + 1 && r2.db.waste == db.waste + 1
  {
    InsertRefines(db, key, v1);
    var db1 := Insert(db, lim, key, v1, NoFaults).db;
    UpdateRefines(db1, key, v2);
    var db2 := Update(db1, lim, key, v2, NoFaults).db;
    LookupRefines(db2, lim, key);
  }

  /** Tombstones: after insert then remove the key is not found, and a second remove is refused. */
  lemma RemoveLeavesTombstone(db: Db, lim: Limits, key: Key, val: seq<byte>)
    requires Inv(db) && |db.log| + 3 < U64_LIMIT && key !in Contents(db.log)
    requires KeyOk(lim, key) && ValOk(lim, val)
    ensures var r1 := Insert(db, lim, key, val, NoFaults);
            var r2 := Remove(r1.db, lim, key, NoFaults);
            && r1.status == Success && r2.status == Success && r2.removedLen == |val|
            && r2.db.log[|r2.db.log| - 1].val == []
            && Lookup(r2.db, lim, key) == Missing
            && Remove(r2.db, lim, key, NoFaults).status == Violation
            && r2.db.size == db.size && r2.db.waste == db.waste + 1
  {
    InsertFresh(db, lim, key, val);
    RemovePresentKey(Insert(db, lim, key, val, NoFaults).db, lim, key);
    RemoveTwice(Remove(Insert(db, lim, key, val, NoFaults).db, lim, key, NoFaults).db, lim, key);
  }

  /** A successful insert of an absent key, in the terms the scenarios need. */
  lemma InsertFresh(db: Db, lim: Limits, key: Key, val: seq<byte>)
    requires Inv(db) && |db.log| + 1 < U64_LIMIT && key !in Contents(db.log)
    requires KeyOk(lim, key) && ValOk(lim, val)
    ensures var r := Insert(db, lim, key, val, NoFaults);
            && r.status == Success && Inv(r.db) && |r.db.log| == |db.log| + 1
            && key in Contents(r.db.log) && Contents(r.db.log)[key] == val
            && r.db.size == db.size + 1 && r.db.waste == db.waste
  {
    InsertRefines(db, key, val);
    InsertShape(db, key, val);
    IncNoWrap(db.size);
  }

  /** A successful remove of a present key, in the terms the scenarios need. */
  lemma RemovePresentKey(db: Db, lim: Limits, key: Key)
    requires Inv(db) && |db.log| + 1 < U64_LIMIT && key in Contents(db.log) && KeyOk(lim, key)
    ensures var r := Remove(db, lim, key, NoFaults);
            && r.status == Success && Inv(r.db) && |r.db.log| == |db.log| + 1
            && r.removedLen == |Contents(db.log)[key]| && r.db.log[|r.db.log| - 1].val == []
            && key !in Contents(r.db.log)
            && r.db.size == db.size - 1 && r.db.waste == db.waste + 1
  {
    RemoveRefines(db, key);
    RemoveLive(db, key);
    DecNoWrap(db.size);
    IncNoWrap(db.waste);
  }

  /** After a successful remove the key is not found and removing it again is refused. */
  lemma RemoveTwice(db: Db, lim: Limits, key: Key)
    requires Inv(db) && |db.log| + 1 < U64_LIMIT && KeyOk(lim, key) && key !in Contents(db.log)
    ensures Lookup(db, lim, key) == Missing && Remove(db, lim, key, NoFaults).status == Violation
  {
    LookupRefines(db, lim, key);
    RemoveRefines(db, key);
  }

  /** Inserting an existing key is refused (+1) and the stored value stays the first one. */
  lemma InsertExistingRefused(db: Db, lim: Limits, key: Key, v1: seq<byte>, v2: seq<byte>)
    requires Inv(db) && |db.log| + 2 < U64_LIMIT && key !in Contents(db.log)
    requires KeyOk(lim, key) && ValOk(lim, v1) && ValOk(lim, v2)
    ensures var r1 := Insert(db, lim, key, v1, NoFaults);
            var r2 := Insert(r1.db, lim, key, v2, NoFaults);
            && r1.status == Success && r2.status == Violation
            && r2.db.log == r1.db.log && Lookup(r2.db, lim, key) == Found(v1)
  {
    InsertRefines(db, key, v1);
    var db1 := Insert(db, lim, key, v1, NoFaults).db;
    InsertRefines(db1, key, v2);
    LookupRefines(Insert(db1, lim, key, v2, NoFaults).db, lim, key);
  }

  /** Replacing a key that was never inserted is refused (+1) and appends nothing. */
  lemma ReplaceMissingRefused(db: Db, lim: Limits, key: Key, val: seq<byte>)
    requires Inv(db) && |db.log| + 1 < U64_LIMIT
    requires KeyOk(lim, key) && ValOk(lim, val)
    requires forall i :: 0 <= i < |db.log| ==> db.log[i].key != key
    ensures Replace(db, lim, key, val, NoFaults).status == Violation
    ensures Replace(db, lim, key, val, NoFaults).db.log == db.log
  {
    ContentsNewest(db.log, key);
    ReplaceRefines(db, key, val);
  }

  /**
   * The update branch as the source orders it breaks the counters: from any
   * state keeping the invariant, a failing append returns -1 with the log
   * unchanged but `size` or `waste` bumped, so they no longer count the log.
   */
  lemma UpdateAsWrittenMiscounts(db: Db, key: Key, val: seq<byte>)
    requires Inv(db)
    ensures var r := UpdateAsWritten(db, key, val, Faults(false, true));
            r.status == Failure && r.db.log == db.log && !Counted(r.db)
  {
    if key in db.index {
      assert KvIndex.CellOf(db.index, key) == Newest(db.log, key);
    }
  }

  /** The same call through `Mutate`, which appends before counting, keeps the invariant. */
  lemma UpdateFailureKeepsCount(db: Db, key: Key, val: seq<byte>)
    requires Inv(db)
    ensures var r := Mutate(db, key, val, MutateUpdate, Faults(false, true));
            r.status == Failure && Inv(r.db)
  {
    FailureKeepsState(db, key, val, MutateUpdate, Faults(false, true));
  }
}
