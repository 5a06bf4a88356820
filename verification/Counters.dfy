/** The index's counters in engine runs, and when exactly listing the keys fails. */
module Counters {
  import opened Codec
  import opened Index
  import opened Log
  import opened Engine

  /** The keys whose last record is a tombstone. */
  function DeadOf(rs: seq<Record>): set<Bytes> {
    if rs == [] then {}
    else
      var dead, r := DeadOf(rs[..|rs| - 1]), rs[|rs| - 1];
      if r.deleted then dead + {r.key} else dead - {r.key}
  }

  /** How many records store a key whose record before was a tombstone. */
  function RevivalsOf(rs: seq<Record>): nat {
    if rs == [] then 0
    else
      var init, r := rs[..|rs| - 1], rs[|rs| - 1];
      RevivalsOf(init) + if !r.deleted && r.key in DeadOf(init) then 1 else 0
  }

  lemma {:induction false} DeadOfIndex(rs: seq<Record>)
    ensures DeadKeys(IndexOf(rs)) == DeadOf(rs)
  {
    if rs == [] {
    } else {
      DeadOfIndex(rs[..|rs| - 1]);
      DeadAfter(IndexOf(rs[..|rs| - 1]), rs[|rs| - 1], LogSize(rs[..|rs| - 1]));
    }
  }

  lemma DeadAfter(s: IndexState, r: Record, offset: nat)
    ensures DeadKeys(ApplyRecord(s, r, offset)) == if r.deleted then DeadKeys(s) + {r.key} else DeadKeys(s) - {r.key}
  {
    if r.deleted { DeleteMoves(s, r.key, r.timestamp); } else { PutMoves(s, r.key, offset, ToInt32(|r.value|), r.timestamp); }
  }

  /** The index operation that a record stands for. */
  function OpOf(r: Record, offset: nat): IndexOp {
    if r.deleted then DoDelete(r.key, r.timestamp) else DoPut(r.key, offset, ToInt32(|r.value|), r.timestamp)
  }

  /**
   * In the index of any log, and so of every represented engine, the tombstone counter is exact and
   * the active counter is short by the revivals among the log's records.
   */
  lemma {:induction false} CountersOfLog(rs: seq<Record>)
    ensures IndexOf(rs).tombstones == |DeadOf(rs)|
    ensures IndexOf(rs).active == |Contents(rs)| - RevivalsOf(rs)
  {
    DeadOfIndex(rs);
    LiveKeysAreContents(rs);
    assert |Contents(rs)| == |Contents(rs).Keys|;
    if rs == [] {
    } else {
      var init, r := rs[..|rs| - 1], rs[|rs| - 1];
      CountersOfLog(init);
      DeadOfIndex(init);
      LiveKeysAreContents(init);
      assert |Contents(init)| == |Contents(init).Keys|;
      DriftStep(IndexOf(init), OpOf(r, LogSize(init)));
    }
  }

  /** The delete that made the key's entry a tombstone: the first one since its last Put. */
  predicate Died(rs: seq<Record>, k: Bytes, j: nat) {
    && j < |rs| && rs[j].key == k && rs[j].deleted && k !in DeadOf(rs[..j])
    && forall i :: j < i < |rs| && rs[i].key == k ==> rs[i].deleted
  }

  /** A tombstone keeps the position and the size of the key's last Put, if any, and the time of the first delete since. */
  lemma {:induction false} TombstoneEntry(rs: seq<Record>, k: Bytes) returns (j: nat)
    requires k in DeadOf(rs)
    ensures Died(rs, k, j) && k in IndexOf(rs).entries
    ensures IndexOf(rs).entries[k] ==
            if k in Contents(rs[..j]) then
              var p := LastPut(rs[..j], k); IndexEntry(LogSize(rs[..j][..p]), ToInt32(|rs[p].value|), rs[j].timestamp, true)
            else IndexEntry(0, 0, rs[j].timestamp, true)
  {
    var init, r := rs[..|rs| - 1], rs[|rs| - 1];
    DeadOfIndex(init);
    IndexLocates(init, k);
    assert k in DeadKeys(IndexOf(init)) <==> k in IndexOf(init).entries && IndexOf(init).entries[k].deleted;
    if k in DeadOf(init) {
      j := TombstoneEntry(init, k);
      assert init[..j] == rs[..j];
    } else {
      j := |rs| - 1;
    }
  }

  // ----------------------------------------------------------------- engine runs

  /** The keys deleted and not stored again since the last compaction, and how often one was stored again. */
  datatype Tally = Tally(dead: set<Bytes>, revivals: nat)

  function Counted(t: Tally, closed: bool, op: Op): Tally {
    if closed then t
    else
      match op
      case Put(k, _, _) => Tally(t.dead - {k}, t.revivals + if k in t.dead then 1 else 0)
      case Delete(k, _) => Tally(t.dead + {k}, t.revivals)
      case Compact => Tally({}, 0)
      case _ => t
  }

  function TallyAfter(run: seq<Event>, n: nat): Tally
    requires n <= |run|
  {
    if n == 0 then Tally({}, 0) else Counted(TallyAfter(run, n - 1), StateAfter(run, n - 1).closed, run[n - 1].op)
  }

  lemma {:induction false} CopiesArePuts(f: Format, file: Bytes, entries: map<Bytes, IndexEntry>, order: seq<Bytes>)
    requires CopyRecords(f, file, entries, order).Records?
    ensures var copied := CopyRecords(f, file, entries, order).records; DeadOf(copied) == {} && RevivalsOf(copied) == 0
  {
    if order == [] {
    } else {
      CopiesArePuts(f, file, entries, order[..|order| - 1]);
      var copied := CopyRecords(f, file, entries, order).records;
      assert copied[..|copied| - 1] == CopyRecords(f, file, entries, order[..|order| - 1]).records;
    }
  }

  /** The log's tombstones and revivals are those of the tally. */
  predicate Tallies(rs: seq<Record>, t: Tally) { DeadOf(rs) == t.dead && RevivalsOf(rs) == t.revivals }

  lemma AppendTallies(rs: seq<Record>, t: Tally, op: Op)
    requires Tallies(rs, t) && Writes(op)
    ensures Tallies(rs + [RecordOf(op)], Counted(t, false, op))
  {
    assert (rs + [RecordOf(op)])[..|rs|] == rs;
  }

  lemma CopyTallies(f: Format, s: Engine, rs: seq<Record>, order: seq<Bytes>, s': Engine) returns (copied: seq<Record>)
    requires Lawful(f) && Represents(f, s, rs) && CompactedAs(f, s, order, s')
    ensures Represents(f, s', copied) && Contents(copied) == Contents(rs) && Tallies(copied, Tally({}, 0))
  {
    CopiesArePuts(f, s.AllBytes(), s.index.entries, order);
    copied := CompactionKeepsContents(f, s, rs, order);
  }

  lemma CompactTallies(f: Format, s: Engine, rs: seq<Record>, s': Engine, reply: Reply) returns (rs': seq<Record>)
    requires Lawful(f) && Represents(f, s, rs) && CompactStep(f, s, s', reply)
    ensures Represents(f, s', rs') && Contents(rs') == Contents(rs) && Tallies(rs', Tally({}, 0))
  {
    NothingUnreadable(f, s, rs);
    var order :| CompactedAs(f, s, order, s');
    rs' := CopyTallies(f, s, rs, order, s');
  }

  lemma StepTallies(f: Format, sync: bool, s: Engine, rs: seq<Record>, t: Tally, op: Op, s': Engine, reply: Reply) returns (rs': seq<Record>)
    requires Lawful(f) && Represents(f, s, rs) && Tallies(rs, t)
    requires OpFits(op) && Allowed(s, op) && Step(f, sync, s, op, s', reply)
    ensures Represents(f, s', rs') && Tallies(rs', Counted(t, s.closed, op))
    ensures Plain(Contents(rs'), s'.closed) == PlainStep(Plain(Contents(rs), s.closed), op)
  {
    rs' := StepRefines(f, sync, s, rs, op, s', reply);
    if !s.closed && Writes(op) {
      AppendTallies(rs, t, op);
    } else if !s.closed && op.Compact? {
      rs' := CompactTallies(f, s, rs, s', reply);
    } else {
      SameLog(f, sync, s, rs, op, s', reply);
      rs' := rs;
    }
  }

  /** Without a write or a compaction the log stays what it is, also when the store is opened again. */
  lemma SameLog(f: Format, sync: bool, s: Engine, rs: seq<Record>, op: Op, s': Engine, reply: Reply)
    requires Lawful(f) && Represents(f, s, rs) && Allowed(s, op) && Step(f, sync, s, op, s', reply)
    requires s.closed || !(Writes(op) || op.Compact?)
    ensures Represents(f, s', rs)
  {
    if op.Reopen? {
      assert s.disk == s.AllBytes();
      ReplayWhole(f, rs);
      BytesLength(f, rs);
    }
  }

  /** The log explains the state after `n` operations of a run, and is counted by its tally. */
  ghost predicate TalliedAt(f: Format, run: seq<Event>, n: nat, rs: seq<Record>)
    requires n <= |run|
  {
    && Represents(f, StateAfter(run, n), rs)
    && Plain(Contents(rs), StateAfter(run, n).closed) == PlainAfter(run, n)
    && Tallies(rs, TallyAfter(run, n))
  }

  lemma NothingTallied(f: Format, run: seq<Event>)
    ensures TalliedAt(f, run, 0, [])
  {
  }

  lemma NextTallied(f: Format, sync: bool, run: seq<Event>, n: nat, rs: seq<Record>) returns (rs': seq<Record>)
    requires Lawful(f) && IsRun(f, sync, run) && 0 < n <= |run| && TalliedAt(f, run, n - 1, rs)
    ensures TalliedAt(f, run, n, rs')
  {
    var e := run[n - 1];
    assert StepsAt(f, sync, run, n - 1);
    rs' := StepTallies(f, sync, StateAfter(run, n - 1), rs, TallyAfter(run, n - 1), e.op, e.after, e.reply);
  }

  lemma {:induction false} RunTallies(f: Format, sync: bool, run: seq<Event>, n: nat) returns (rs: seq<Record>)
    requires Lawful(f) && IsRun(f, sync, run) && n <= |run|
    ensures TalliedAt(f, run, n, rs)
  {
    if n == 0 {
      NothingTallied(f, run);
      rs := [];
    } else {
      rs := RunTallies(f, sync, run, n - 1);
      rs := NextTallied(f, sync, run, n, rs);
    }
  }

  /**
   * After any run, closings and reopenings included, the active counter is short by the number of
   * Puts over a deleted key since the last compaction, so listing the keys fails exactly when they
   * outnumber the live keys; the tombstone counter is exact.
   */
  lemma KeysFailInRunExactly(f: Format, sync: bool, run: seq<Event>)
    requires Lawful(f) && IsRun(f, sync, run)
    ensures var s, p, t := StateAfter(run, |run|), PlainAfter(run, |run|), TallyAfter(run, |run|);
            && s.index.active == |p.contents| - t.revivals
            && s.index.tombstones == |t.dead|
            && (s.index.active < 0 <==> |p.contents| < t.revivals)
  {
    var rs := RunTallies(f, sync, run, |run|);
    CountersOfLog(rs);
  }

  /**
   * After any run a Get of an open store says that the key was deleted exactly when it was, and not
   * stored again, since the last compaction; it says that there is no such key exactly when the key has
   * no value and was not deleted since then.
   */
  lemma GetErrorsExactly(f: Format, sync: bool, run: seq<Event>, k: Bytes)
    requires Lawful(f) && IsRun(f, sync, run) && !StateAfter(run, |run|).closed
    ensures var s, p, t := StateAfter(run, |run|), PlainAfter(run, |run|), TallyAfter(run, |run|);
            && (GetReply(f, s, k) == Failed(KeyDeleted) <==> k in t.dead)
            && (GetReply(f, s, k) == Failed(KeyNotFound) <==> k !in p.contents && k !in t.dead)
  {
    var rs := RunTallies(f, sync, run, |run|);
    KindOfAbsence(f, StateAfter(run, |run|), rs, k);
  }

  lemma KindOfAbsence(f: Format, s: Engine, rs: seq<Record>, k: Bytes)
    requires Lawful(f) && Represents(f, s, rs)
    ensures GetReply(f, s, k) == Failed(KeyDeleted) <==> k in DeadOf(rs)
    ensures GetReply(f, s, k) == Failed(KeyNotFound) <==> k !in Contents(rs) && k !in DeadOf(rs)
  {
    GetAnswers(f, s, rs, k);
    DeadOfIndex(rs);
    LiveKeysAreContents(rs);
    assert k in DeadKeys(s.index) <==> k in s.index.entries && s.index.entries[k].deleted;
    assert k in LiveKeys(s.index) <==> k in s.index.entries && !s.index.entries[k].deleted;
  }

  /** A compaction of an open store makes both counters exact. */
  lemma CompactMakesExact(f: Format, sync: bool, run: seq<Event>)
    requires Lawful(f) && IsRun(f, sync, run) && run != []
    requires run[|run| - 1].op.Compact? && !StateAfter(run, |run| - 1).closed
    ensures StateAfter(run, |run|).index.active == |PlainAfter(run, |run|).contents|
    ensures StateAfter(run, |run|).index.tombstones == 0
  {
    KeysFailInRunExactly(f, sync, run);
  }

  // ------------------------------------------------------------------ a failing run

  lemma {:induction false} SamePrefix(run: seq<Event>, e: Event, n: nat)
    requires n <= |run|
    ensures StateAfter(run + [e], n) == StateAfter(run, n)
    ensures PlainAfter(run + [e], n) == PlainAfter(run, n) && TallyAfter(run + [e], n) == TallyAfter(run, n)
  {
    if n == 0 {
    } else {
      SamePrefix(run, e, n - 1);
    }
  }

  /** The run goes on with a write that is flushed at once. */
  lemma AddWrite(f: Format, sync: bool, run: seq<Event>, op: Op) returns (more: seq<Event>)
    requires IsRun(f, sync, run) && !StateAfter(run, |run|).closed && Writes(op) && OpFits(op)
    ensures IsRun(f, sync, more) && !StateAfter(more, |more|).closed
    ensures PlainAfter(more, |more|) == PlainStep(PlainAfter(run, |run|), op)
    ensures TallyAfter(more, |more|) == Counted(TallyAfter(run, |run|), false, op)
  {
    var s, r := StateAfter(run, |run|), RecordOf(op);
    var e := Event(op, Done, Engine(s.AllBytes() + f.enc(r), [], ApplyRecord(s.index, r, s.position), s.position + RecordSize(r), false));
    more := run + [e];
    SamePrefix(run, e, |run|);
    forall i | 0 <= i < |more|
      ensures StepsAt(f, sync, more, i)
    {
      if i < |run| {
        SamePrefix(run, e, i);
        assert StepsAt(f, sync, run, i);
      }
    }
  }

  /** Storing and deleting one key twice is a run after which listing the keys fails. */
  lemma KeysCanFailInRun(f: Format, sync: bool, k: Bytes) returns (run: seq<Event>)
    requires Lawful(f) && |k| < 0x1_0000_0000
    ensures IsRun(f, sync, run) && StateAfter(run, |run|).index.active == -1
  {
    run := AddWrite(f, sync, [], Put(k, [], 1));
    run := AddWrite(f, sync, run, Delete(k, 2));
    run := AddWrite(f, sync, run, Put(k, [], 3));
    run := AddWrite(f, sync, run, Delete(k, 4));
    KeysFailInRunExactly(f, sync, run);
  }
}
