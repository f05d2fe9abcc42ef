/**
 * The chained record store behind `p4/kvraw.h`, seen through its interface:
 * an append-only sequence of records, each carrying the offset it was
 * linked to when appended. Offsets name records 1-based (offset `o` is
 * `log[o - 1]`), so that 0 can keep its meaning of "no record".
 */
module RecordLog {
  import opened Bytes

  type Key = seq<byte>

  /** One appended record; a record with an empty value is a tombstone. */
  datatype Record = Record(key: Key, val: seq<byte>, prev: nat)

  /** Every back-link points strictly before its own record, so chain walks end. */
  predicate LinksBackward(log: seq<Record>) {
    forall i :: 0 <= i < |log| ==> log[i].prev <= i
  }

  /** `kvraw_lookup`: reading an offset that holds no record fails. */
  function ReadAt(log: seq<Record>, off: nat): Option<Record> {
    if 0 < off <= |log| then Some(log[off - 1]) else None
  }

  /** The offsets a backward walk from `off` visits, newest first, up to 0 or an unreadable offset. */
  function Chain(log: seq<Record>, off: nat): (c: seq<nat>)
    requires LinksBackward(log)
    ensures forall i :: 0 <= i < |c| ==> 0 < c[i] <= off && c[i] <= |log|
    decreases off
  {
    if off == 0 || off > |log| then [] else [off] + Chain(log, log[off - 1].prev)
  }

  /** The newest offset whose record carries `key`, or 0: the reference for "latest record". */
  function Newest(log: seq<Record>, key: Key): (o: nat)
    ensures o <= |log|
    ensures o != 0 ==> log[o - 1].key == key
    ensures forall i :: o <= i < |log| ==> log[i].key != key
  {
    if log == [] then 0
    else if log[|log| - 1].key == key then |log|
    else Newest(log[..|log| - 1], key)
  }

  /**
   * Records for one key form a strict chain in append order: each record
   * links to the newest earlier record with the same key.
   */
  predicate ChainLinked(log: seq<Record>) {
    forall i :: 0 <= i < |log| ==> LinkedAt(log, i)
  }

  predicate LinkedAt(log: seq<Record>, i: nat)
    requires i < |log|
  {
    log[i].prev == Newest(log[..i], log[i].key)
  }

  /** The key-value map a log denotes: the newest record per key, tombstones removing. */
  function Contents(log: seq<Record>): map<Key, seq<byte>> {
    if log == [] then map[]
    else
      var c := Contents(log[..|log| - 1]);
      var r := log[|log| - 1];
      if r.val == [] then c - {r.key} else c[r.key := r.val]
  }

  /** How many tombstones the log holds. */
  function Tombstones(log: seq<Record>): nat {
    if log == [] then 0
    else Tombstones(log[..|log| - 1]) + (if log[|log| - 1].val == [] then 1 else 0)
  }

  lemma ChainLinkedLinksBackward(log: seq<Record>)
    requires ChainLinked(log)
    ensures LinksBackward(log)
  {
    forall i | 0 <= i < |log|
      ensures log[i].prev <= i
    {
      assert LinkedAt(log, i);
      assert |log[..i]| == i;
    }
  }

  /** The reference definitions, one record later. */
  lemma AppendOne(log: seq<Record>, r: Record, k: Key)
    ensures Newest(log + [r], k) == (if r.key == k then |log| + 1 else Newest(log, k))
    ensures Contents(log + [r]) == (if r.val == [] then Contents(log) - {r.key} else Contents(log)[r.key := r.val])
    ensures Tombstones(log + [r]) == Tombstones(log) + (if r.val == [] then 1 else 0)
  {
    assert (log + [r])[..|log|] == log;
  }

  /** Appending a record linked to the newest same-key record keeps the chains strict. */
  lemma AppendKeepsChainLinked(log: seq<Record>, key: Key, val: seq<byte>)
    requires ChainLinked(log)
    ensures ChainLinked(log + [Record(key, val, Newest(log, key))])
  {
    var log' := log + [Record(key, val, Newest(log, key))];
    forall i | 0 <= i < |log'|
      ensures LinkedAt(log', i)
    {
      if i < |log| {
        assert LinkedAt(log, i);
        assert log'[..i] == log[..i];
      } else {
        assert log'[..i] == log;
      }
    }
  }

  /**
   * The newest record of a key decides its value: the key is present in
   * `Contents` exactly when that record exists and is not a tombstone.
   */
  lemma {:induction false} ContentsNewest(log: seq<Record>, k: Key)
    ensures k in Contents(log) <==> Newest(log, k) != 0 && log[Newest(log, k) - 1].val != []
    ensures k in Contents(log) ==> Contents(log)[k] == log[Newest(log, k) - 1].val
    decreases |log|
  {
    if log != [] {
      var init := log[..|log| - 1];
      var r := log[|log| - 1];
      assert log == init + [r];
      AppendOne(init, r, k);
      ContentsNewest(init, k);
      if r.key != k && Newest(init, k) != 0 {
        assert log[Newest(init, k) - 1] == init[Newest(init, k) - 1];
      }
    }
  }

  /**
   * On a strictly chained log every record on the chain from `off` carries
   * the key of the record at `off`.
   */
  lemma {:induction false} ChainKeepsKey(log: seq<Record>, off: nat)
    requires ChainLinked(log) && LinksBackward(log) && 0 < off <= |log|
    ensures forall o :: o in Chain(log, off) ==> log[o - 1].key == log[off - 1].key
    decreases off
  {
    var k := log[off - 1].key;
    var p := log[off - 1].prev;
    assert LinkedAt(log, off - 1);
    assert p == Newest(log[..off - 1], k);
    var c := Chain(log, off);
    assert c == [off] + Chain(log, p);
    if p != 0 {
      assert log[..off - 1][p - 1] == log[p - 1];
      ChainKeepsKey(log, p);
    } else {
      assert c == [off];
    }
  }
}
