/** The in-memory index: key to file position, with running counters. */
module Index {
  import opened Codec

  datatype IndexEntry = IndexEntry(offset: nat, size: int32, timestamp: int64, deleted: bool)

  /** Everything an index holds: its map and its two counters. */
  datatype IndexState = IndexState(entries: map<Bytes, IndexEntry>, active: int, tombstones: int)

  const EMPTY := IndexState(map[], 0, 0)

  datatype KeysResult = Keys(keys: seq<Bytes>) | NegativeCapacity

  /** A stored key lands over a tombstone without the active counter following. */
  function PutEntry(s: IndexState, key: Bytes, offset: nat, size: int32, timestamp: int64): IndexState {
    IndexState(
      s.entries[key := IndexEntry(offset, size, timestamp, false)],
      if key !in s.entries then s.active + 1 else s.active,
      if key in s.entries && s.entries[key].deleted then s.tombstones - 1 else s.tombstones)
  }

  function DeleteEntry(s: IndexState, key: Bytes, timestamp: int64): IndexState {
    if key !in s.entries then
      IndexState(s.entries[key := IndexEntry(0, 0, timestamp, true)], s.active, s.tombstones + 1)
    else if !s.entries[key].deleted then
      IndexState(s.entries[key := s.entries[key].(timestamp := timestamp, deleted := true)], s.active - 1, s.tombstones + 1)
    else s
  }

  ghost function LiveKeys(s: IndexState): set<Bytes> { set k | k in s.entries && !s.entries[k].deleted }

  ghost function DeadKeys(s: IndexState): set<Bytes> { set k | k in s.entries && s.entries[k].deleted }

  // --------------------------------------------------------------- histories

  datatype IndexOp = DoPut(key: Bytes, offset: nat, size: int32, timestamp: int64) | DoDelete(key: Bytes, timestamp: int64)

  function ApplyOp(s: IndexState, op: IndexOp): IndexState {
    match op
    case DoPut(k, offset, size, t) => PutEntry(s, k, offset, size, t)
    case DoDelete(k, t) => DeleteEntry(s, k, t)
  }

  function AfterOps(ops: seq<IndexOp>): IndexState {
    if ops == [] then EMPTY else ApplyOp(AfterOps(ops[..|ops| - 1]), ops[|ops| - 1])
  }

  /** How many Puts of the history found a tombstone under their key. */
  function Revivals(ops: seq<IndexOp>): nat {
    if ops == [] then 0
    else
      var before := AfterOps(ops[..|ops| - 1]);
      var op := ops[|ops| - 1];
      Revivals(ops[..|ops| - 1]) +
      if op.DoPut? && op.key in before.entries && before.entries[op.key].deleted then 1 else 0
  }

  /**
   * The tombstone counter is always exact; the active counter is short by exactly the
   * number of revivals, so it is the number of live keys iff no Put ever revived a key.
   */
  lemma {:induction false} CounterDrift(ops: seq<IndexOp>)
    ensures AfterOps(ops).tombstones == |DeadKeys(AfterOps(ops))|
    ensures AfterOps(ops).active == |LiveKeys(AfterOps(ops))| - Revivals(ops)
  {
    if ops == [] {
      assert DeadKeys(EMPTY) == {} && LiveKeys(EMPTY) == {};
    } else {
      CounterDrift(ops[..|ops| - 1]);
      DriftStep(AfterOps(ops[..|ops| - 1]), ops[|ops| - 1]);
    }
  }

  /** An operation moves each counter as it moves the keys, but for a revival. */
  lemma DriftStep(s: IndexState, op: IndexOp)
    ensures var s' := ApplyOp(s, op);
            && s'.tombstones - |DeadKeys(s')| == s.tombstones - |DeadKeys(s)|
            && s'.active - |LiveKeys(s')| == s.active - |LiveKeys(s)| -
                 (if op.DoPut? && op.key in s.entries && s.entries[op.key].deleted then 1 else 0)
  {
    match op
    case DoPut(k, offset, size, t) => PutDrift(s, k, offset, size, t);
    case DoDelete(k, t) => DeleteDrift(s, k, t);
  }

  lemma PutDrift(s: IndexState, k: Bytes, offset: nat, size: int32, t: int64)
    ensures var s' := PutEntry(s, k, offset, size, t);
            && s'.tombstones - |DeadKeys(s')| == s.tombstones - |DeadKeys(s)|
            && s'.active - |LiveKeys(s')| == s.active - |LiveKeys(s)| - (if k in s.entries && s.entries[k].deleted then 1 else 0)
  {
    PutMoves(s, k, offset, size, t);
    Membership(s, k);
  }

  lemma DeleteDrift(s: IndexState, k: Bytes, t: int64)
    ensures var s' := DeleteEntry(s, k, t);
            && s'.tombstones - |DeadKeys(s')| == s.tombstones - |DeadKeys(s)|
            && s'.active - |LiveKeys(s')| == s.active - |LiveKeys(s)|
  {
    DeleteMoves(s, k, t);
    Membership(s, k);
  }

  lemma Membership(s: IndexState, k: Bytes)
    ensures k in LiveKeys(s) <==> k in s.entries && !s.entries[k].deleted
    ensures k in DeadKeys(s) <==> k in s.entries && s.entries[k].deleted
    ensures |LiveKeys(s) + {k}| == |LiveKeys(s)| + if k in LiveKeys(s) then 0 else 1
    ensures |LiveKeys(s) - {k}| == |LiveKeys(s)| - if k in LiveKeys(s) then 1 else 0
    ensures |DeadKeys(s) + {k}| == |DeadKeys(s)| + if k in DeadKeys(s) then 0 else 1
    ensures |DeadKeys(s) - {k}| == |DeadKeys(s)| - if k in DeadKeys(s) then 1 else 0
  {
    OneKey(LiveKeys(s), k);
    OneKey(DeadKeys(s), k);
  }

  lemma OneKey(keys: set<Bytes>, k: Bytes)
    ensures |keys + {k}| == |keys| + if k in keys then 0 else 1
    ensures |keys - {k}| == |keys| - if k in keys then 1 else 0
  {
    if k in keys { assert keys + {k} == keys; } else { assert keys - {k} == keys; }
  }

  lemma PutMoves(s: IndexState, k: Bytes, offset: nat, size: int32, t: int64)
    ensures LiveKeys(PutEntry(s, k, offset, size, t)) == LiveKeys(s) + {k}
    ensures DeadKeys(PutEntry(s, k, offset, size, t)) == DeadKeys(s) - {k}
  {
  }

  lemma DeleteMoves(s: IndexState, k: Bytes, t: int64)
    ensures LiveKeys(DeleteEntry(s, k, t)) == LiveKeys(s) - {k}
    ensures DeadKeys(DeleteEntry(s, k, t)) == DeadKeys(s) + {k}
  {
  }

  /** Listing the keys asks for a negative capacity exactly when revivals outnumber the live keys. */
  lemma KeysFailsExactly(ops: seq<IndexOp>)
    ensures AfterOps(ops).active < 0 <==> |LiveKeys(AfterOps(ops))| < Revivals(ops)
  {
    CounterDrift(ops);
  }

  /** Two rounds of put and delete on one key are enough to break the listing. */
  lemma KeysCanFail(k: Bytes)
    ensures AfterOps([DoPut(k, 0, 0, 1), DoDelete(k, 2), DoPut(k, 50, 0, 3), DoDelete(k, 4)]).active == -1
  {
    var a, b, c, d := DoPut(k, 0, 0, 1), DoDelete(k, 2), DoPut(k, 50, 0, 3), DoDelete(k, 4);
    assert [a, b, c, d][..3] == [a, b, c] && [a, b, c][..2] == [a, b] && [a, b][..1] == [a] && [a][..0] == [];
    assert AfterOps([a]).active == 1;
    assert AfterOps([a, b]).active == 0;
    assert AfterOps([a, b, c]).active == 0;
  }

  // -------------------------------------------------------------- the object

  /** The index object; `State` is what it holds. */
  class KeyIndex {
    var entries: map<Bytes, IndexEntry>
    var active: int
    var tombstones: int

    function State(): IndexState
      reads this
    {
      IndexState(entries, active, tombstones)
    }

    constructor ()
      ensures State() == EMPTY
    {
      entries, active, tombstones := map[], 0, 0;
    }

    method Get(key: Bytes) returns (found: bool, entry: IndexEntry)
      ensures found == (key in entries)
      ensures found ==> entry == entries[key]
    {
      if key !in entries {
        return false, IndexEntry(0, 0, 0, false);
      }
      return true, entries[key];
    }

    method Put(key: Bytes, offset: nat, size: int32, timestamp: int64)
      modifies this
      ensures State() == PutEntry(old(State()), key, offset, size, timestamp)
    {
      if key in entries && entries[key].deleted {
        tombstones := tombstones - 1;
      } else if key !in entries {
        active := active + 1;
      }
      entries := entries[key := IndexEntry(offset, size, timestamp, false)];
    }

    method Delete(key: Bytes, timestamp: int64) returns (deleted: bool)
      modifies this
      ensures State() == DeleteEntry(old(State()), key, timestamp)
      ensures deleted == (key in old(LiveKeys(State())))
    {
      if key !in entries {
        entries := entries[key := IndexEntry(0, 0, timestamp, true)];
        tombstones := tombstones + 1;
        return false;
      }
      var entry := entries[key];
      if !entry.deleted {
        entries := entries[key := entry.(timestamp := timestamp, deleted := true)];
        active := active - 1;
        tombstones := tombstones + 1;
        return true;
      }
      return false;
    }

    method Has(key: Bytes) returns (live: bool)
      ensures live == (key in LiveKeys(State()))
    {
      live := key in entries && !entries[key].deleted;
    }

    /** The live keys in some order, or a failed allocation when the active counter went below zero. */
    method ListKeys() returns (r: KeysResult)
      ensures r.NegativeCapacity? <==> active < 0
      ensures r.Keys? ==> multiset(r.keys) == multiset(LiveKeys(State()))
    {
      if active < 0 {
        return NegativeCapacity;
      }
      var keys: seq<Bytes> := [];
      var rest := entries.Keys;
      while rest != {}
        invariant rest <= entries.Keys
        invariant multiset(keys) == multiset(LiveKeys(State()) - rest)
      {
        var k :| k in rest;
        if !entries[k].deleted {
          keys := keys + [k];
          assert LiveKeys(State()) - (rest - {k}) == (LiveKeys(State()) - rest) + {k};
        } else {
          assert LiveKeys(State()) - (rest - {k}) == LiveKeys(State()) - rest;
        }
        rest := rest - {k};
      }
      assert LiveKeys(State()) - {} == LiveKeys(State());
      return Keys(keys);
    }
  }
}
