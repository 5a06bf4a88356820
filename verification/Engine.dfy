/**
 * What the storage engine does, one operation at a time, as a relation between the states
 * before and after; and what every run of operations means.
 */
module Engine {
  import opened Codec
  import opened Index
  import opened Log
  import opened Sequences

  /**
   * The bytes that reached the file, the bytes still in the write buffer, the index, the
   * append position and the closed flag.
   */
  datatype Engine = Engine(disk: Bytes, buffer: Bytes, index: IndexState, position: nat, closed: bool) {
    function AllBytes(): Bytes { disk + buffer }
    function Flushed(): Engine { Engine(AllBytes(), [], index, position, closed) }
  }

  const FRESH := Engine([], [], EMPTY, 0, false)

  datatype Op =
    | Put(key: Bytes, value: Bytes, timestamp: int64)
    | Delete(key: Bytes, timestamp: int64)
    | Get(key: Bytes)
    | Has(key: Bytes)
    | Sync
    | Compact
    | Close
    | Reopen

  datatype Error = StorageClosed | KeyNotFound | KeyDeleted | ReadFailed | RebuildFailed

  datatype Reply = Done | Found(value: Bytes, timestamp: int64) | Answer(live: bool) | Failed(error: Error)

  /** Seeking past the end is allowed and finds the end of the file. */
  function ReadAt(f: Format, file: Bytes, offset: nat): ReadResult {
    f.dec(if offset <= |file| then file[offset..] else [])
  }

  // -------------------------------------------------------------- compaction

  /** Every key of the set exactly once, in some order. */
  ghost predicate Lists(order: seq<Bytes>, keys: set<Bytes>) {
    NoRepeats(order) && Members(order) == keys
  }

  datatype Copied = Records(records: seq<Record>) | Unreadable

  /** Re-reading the value of each listed key from the old file, under the key the index holds. */
  function CopyRecords(f: Format, file: Bytes, entries: map<Bytes, IndexEntry>, order: seq<Bytes>): Copied {
    if order == [] then Records([])
    else
      var init, k := order[..|order| - 1], order[|order| - 1];
      var before := CopyRecords(f, file, entries, init);
      var read := if k in entries then ReadAt(f, file, entries[k].offset) else EndOfFile;
      if before.Records? && read.Read?
      then Records(before.records + [Record(k, read.record.value, read.record.timestamp, false)])
      else Unreadable
  }

  ghost predicate HasUnreadable(f: Format, s: Engine) {
    exists k | k in LiveKeys(s.index) :: !ReadAt(f, s.AllBytes(), s.index.entries[k].offset).Read?
  }

  /** The engine after copying the live keys in some order. */
  ghost predicate CompactedAs(f: Format, s: Engine, order: seq<Bytes>, s': Engine) {
    && Lists(order, LiveKeys(s.index))
    && CopyRecords(f, s.AllBytes(), s.index.entries, order).Records?
    && var rs := CopyRecords(f, s.AllBytes(), s.index.entries, order).records;
       s' == Engine(LogBytes(f, rs), [], IndexOf(rs), LogSize(rs), false)
  }

  /** Compaction either stops at a record it cannot read, leaving the old file in place, or swaps in a copy. */
  ghost predicate CompactStep(f: Format, s: Engine, s': Engine, reply: Reply) {
    if reply == Done then exists order :: CompactedAs(f, s, order, s')
    else s' == s.Flushed() && reply == Failed(ReadFailed) && HasUnreadable(f, s)
  }

  // -------------------------------------------------------------- operations

  /** One record appended; the buffer may spill any of its bytes to the file, and all of them under sync. */
  ghost predicate Appended(f: Format, sync: bool, s: Engine, r: Record, s': Engine) {
    && s'.AllBytes() == s.AllBytes() + f.enc(r)
    && s.disk <= s'.disk
    && (sync ==> s'.buffer == [])
    && s'.position == s.position + RecordSize(r)
    && !s'.closed
  }

  /** What a Get of an open store answers, read at the position in the index. */
  function GetReply(f: Format, s: Engine, k: Bytes): Reply {
    if k !in s.index.entries then Failed(KeyNotFound)
    else if s.index.entries[k].deleted then Failed(KeyDeleted)
    else
      match ReadAt(f, s.AllBytes(), s.index.entries[k].offset)
      case Read(r, _, _) => Found(r.value, r.timestamp)
      case _ => Failed(ReadFailed)
  }

  ghost predicate Step(f: Format, sync: bool, s: Engine, op: Op, s': Engine, reply: Reply) {
    if s.closed && !op.Reopen? then
      && s' == s
      && reply == (if op.Close? then Done else if op.Has? then Answer(false) else Failed(StorageClosed))
    else
      match op
      case Put(k, v, t) =>
        && Appended(f, sync, s, Record(k, v, t, false), s')
        && s'.index == PutEntry(s.index, k, s.position, ToInt32(|v|), t)
        && reply == Done
      case Delete(k, t) =>
        && Appended(f, sync, s, Record(k, [], t, true), s')
        && s'.index == DeleteEntry(s.index, k, t)
        && reply == Done
      case Get(k) =>
        && s' == (if k in s.index.entries && !s.index.entries[k].deleted then s.Flushed() else s)
        && reply == GetReply(f, s, k)
      case Has(k) => s' == s && reply == Answer(k in LiveKeys(s.index))
      case Sync => s' == s.Flushed() && reply == Done
      case Compact => CompactStep(f, s, s', reply)
      case Close => s' == s.Flushed().(closed := true) && reply == Done
      case Reopen =>
        match Replay(f, s.disk, 0, EMPTY)
        case Replayed(index) => s' == Engine(s.disk, [], index, |s.disk|, false) && reply == Done
        case ReplayError(_, _) => s' == s && reply == Failed(RebuildFailed)
  }

  /** The record list `rs` explains the state: all bytes are its encoding and the index is its replay. */
  ghost predicate Represents(f: Format, s: Engine, rs: seq<Record>) {
    && AllFit(rs)
    && s.AllBytes() == LogBytes(f, rs)
    && s.position == LogSize(rs)
    && s.index == IndexOf(rs)
    && (s.closed ==> s.buffer == [])
  }

  // --------------------------------------------------- what compaction keeps

  /** The bytes taken by the current records of the keys in `keys`. */
  ghost function LiveSize(rs: seq<Record>, keys: set<Bytes>): nat
    requires keys <= Contents(rs).Keys
  {
    if rs == [] then 0
    else
      var init, r := rs[..|rs| - 1], rs[|rs| - 1];
      if r.key in keys then LiveSize(init, keys - {r.key}) + RecordSize(r)
      else LiveSize(init, keys)
  }

  /** Every record that is not the current one of a key in `keys` takes at least a header of the rest. */
  lemma {:induction false} LiveSizeBound(rs: seq<Record>, keys: set<Bytes>)
    requires keys <= Contents(rs).Keys
    ensures |keys| <= |rs|
    ensures LiveSize(rs, keys) + HEADER_SIZE * (|rs| - |keys|) <= LogSize(rs)
  {
    if rs == [] {
    } else {
      var init, r := rs[..|rs| - 1], rs[|rs| - 1];
      if r.key in keys {
        LiveSizeBound(init, keys - {r.key});
      } else {
        LiveSizeBound(init, keys);
      }
    }
  }

  lemma {:induction false} LiveSizeAdd(rs: seq<Record>, keys: set<Bytes>, k: Bytes)
    requires k !in keys && keys + {k} <= Contents(rs).Keys
    ensures LiveSize(rs, keys + {k}) == LiveSize(rs, keys) + RecordSize(rs[LastPut(rs, k)])
  {
    var init, r := rs[..|rs| - 1], rs[|rs| - 1];
    var more := keys + {k};
    if r.key == k {
      assert more - {r.key} == keys;
    } else if r.key in keys {
      assert more - {r.key} == (keys - {r.key}) + {k};
      LiveSizeAdd(init, keys - {r.key}, k);
    } else {
      LiveSizeAdd(init, keys, k);
    }
  }

  /** Each listed key once, with its current value and timestamp, and no tombstone. */
  ghost predicate IsCopy(rs: seq<Record>, order: seq<Bytes>, copied: seq<Record>) {
    && AllFit(copied) && |copied| == |order|
    && Contents(copied).Keys == Members(order) <= Contents(rs).Keys
    && (forall k :: k in Contents(copied) ==> Contents(copied)[k] == Contents(rs)[k])
    && (forall k :: k in IndexOf(copied).entries ==> !IndexOf(copied).entries[k].deleted)
  }

  function CurrentRecord(rs: seq<Record>, k: Bytes): Record
    requires k in Contents(rs)
  {
    Record(k, Contents(rs)[k].value, Contents(rs)[k].timestamp, false)
  }

  lemma CopyExtends(rs: seq<Record>, order: seq<Bytes>, copied: seq<Record>, k: Bytes)
    requires IsCopy(rs, order, copied)
    requires k in Contents(rs) && FitsHeader(CurrentRecord(rs, k))
    ensures IsCopy(rs, order + [k], copied + [CurrentRecord(rs, k)])
  {
    var more := copied + [CurrentRecord(rs, k)];
    assert more[..|more| - 1] == copied;
    assert Members(order + [k]) == Members(order) + {k};
  }

  /** The index entry of a key leads to the key's current record. */
  ghost predicate Reachable(f: Format, rs: seq<Record>, file: Bytes, k: Bytes)
    requires k in Contents(rs)
  {
    && k in IndexOf(rs).entries
    && FitsHeader(CurrentRecord(rs, k))
    && ReadAt(f, file, IndexOf(rs).entries[k].offset) ==
       Read(CurrentRecord(rs, k), ToInt32(|Contents(rs)[k].value|), RecordSize(CurrentRecord(rs, k)))
  }

  lemma AllReachable(f: Format, rs: seq<Record>, k: Bytes)
    requires Lawful(f) && AllFit(rs) && k in Contents(rs)
    ensures Reachable(f, rs, LogBytes(f, rs), k)
  {
    ReadAtIndex(f, rs, k);
  }

  lemma CopyOne(f: Format, rs: seq<Record>, file: Bytes, order: seq<Bytes>, copied: seq<Record>, k: Bytes)
    requires k in Contents(rs) && Reachable(f, rs, file, k)
    requires CopyRecords(f, file, IndexOf(rs).entries, order) == Records(copied)
    ensures CopyRecords(f, file, IndexOf(rs).entries, order + [k]) == Records(copied + [CurrentRecord(rs, k)])
  {
    assert (order + [k])[..|order|] == order;
  }

  lemma CopySize(rs: seq<Record>, order: seq<Bytes>, copied: seq<Record>, k: Bytes)
    requires k !in Members(order) && Members(order) + {k} <= Contents(rs).Keys
    requires LogSize(copied) == LiveSize(rs, Members(order))
    ensures LogSize(copied + [CurrentRecord(rs, k)]) == LiveSize(rs, Members(order) + {k})
  {
    LiveSizeAdd(rs, Members(order), k);
    assert (copied + [CurrentRecord(rs, k)])[..|copied|] == copied;
    assert rs[LastPut(rs, k)] == CurrentRecord(rs, k);
  }

  /** Copying never fails when every key is reachable, and each copy carries its key's current value and timestamp. */
  lemma {:induction false} CopySucceeds(f: Format, rs: seq<Record>, file: Bytes, order: seq<Bytes>) returns (copied: seq<Record>)
    requires NoRepeats(order) && Members(order) <= Contents(rs).Keys
    requires forall k :: k in Contents(rs) ==> Reachable(f, rs, file, k)
    ensures CopyRecords(f, file, IndexOf(rs).entries, order) == Records(copied)
    ensures IsCopy(rs, order, copied)
    ensures LogSize(copied) == LiveSize(rs, Members(order))
  {
    if order == [] {
      copied := [];
      assert Members(order) == {};
      EmptyLiveSize(rs);
    } else {
      var init, k := order[..|order| - 1], order[|order| - 1];
      assert order == init + [k];
      assert Members(order) == Members(init) + {k} && k !in Members(init);
      var before := CopySucceeds(f, rs, file, init);
      copied := before + [CurrentRecord(rs, k)];
      assert Reachable(f, rs, file, k);
      CopyOne(f, rs, file, init, before, k);
      CopyExtends(rs, init, before, k);
      CopySize(rs, init, before, k);
    }
  }

  lemma {:induction false} EmptyLiveSize(rs: seq<Record>)
    ensures LiveSize(rs, {}) == 0
  {
    if rs == [] {
    } else {
      EmptyLiveSize(rs[..|rs| - 1]);
    }
  }

  lemma EveryKeyReachable(f: Format, rs: seq<Record>)
    requires Lawful(f) && AllFit(rs)
    ensures forall k :: k in Contents(rs) ==> Reachable(f, rs, LogBytes(f, rs), k)
  {
    forall k | k in Contents(rs)
      ensures Reachable(f, rs, LogBytes(f, rs), k)
    {
      AllReachable(f, rs, k);
    }
  }

  /**
   * Compaction, whatever order the live keys are visited in: the copy succeeds, means the same
   * map, holds one record per live key and no tombstone, and gives back at least a header for
   * every record it drops.
   */
  lemma CompactionKeepsContents(f: Format, s: Engine, rs: seq<Record>, order: seq<Bytes>) returns (copied: seq<Record>)
    requires Lawful(f) && Represents(f, s, rs) && Lists(order, LiveKeys(s.index))
    ensures CopyRecords(f, s.AllBytes(), s.index.entries, order) == Records(copied)
    ensures AllFit(copied)
    ensures Contents(copied) == Contents(rs)
    ensures |copied| == |Contents(rs)| && DeadKeys(IndexOf(copied)) == {}
    ensures LogSize(copied) + HEADER_SIZE * (|rs| - |copied|) <= LogSize(rs)
    ensures |copied| <= |rs|
  {
    LiveKeysAreContents(rs);
    copied := CopyOfLog(f, rs, order);
    CopyMeans(rs, order, copied);
    CopyIsSmall(rs, order, copied);
  }

  /** Copying the live keys of a whole log, in any order, succeeds. */
  lemma CopyOfLog(f: Format, rs: seq<Record>, order: seq<Bytes>) returns (copied: seq<Record>)
    requires Lawful(f) && AllFit(rs) && Lists(order, Contents(rs).Keys)
    ensures CopyRecords(f, LogBytes(f, rs), IndexOf(rs).entries, order) == Records(copied)
    ensures IsCopy(rs, order, copied) && LogSize(copied) == LiveSize(rs, Members(order))
  {
    EveryKeyReachable(f, rs);
    copied := CopySucceeds(f, rs, LogBytes(f, rs), order);
  }

  lemma CopyMeans(rs: seq<Record>, order: seq<Bytes>, copied: seq<Record>)
    requires IsCopy(rs, order, copied) && Members(order) == Contents(rs).Keys
    ensures AllFit(copied) && Contents(copied) == Contents(rs) && DeadKeys(IndexOf(copied)) == {} && |copied| == |order|
  {
  }

  /** One record for each live key is at least a header smaller for every record dropped. */
  lemma CopyIsSmall(rs: seq<Record>, order: seq<Bytes>, copied: seq<Record>)
    requires NoRepeats(order) && Members(order) == Contents(rs).Keys
    requires |copied| == |order| && LogSize(copied) == LiveSize(rs, Members(order))
    ensures |copied| == |Contents(rs)| <= |rs|
    ensures LogSize(copied) + HEADER_SIZE * (|rs| - |copied|) <= LogSize(rs)
  {
    NoRepeatsCount(order);
    assert |Contents(rs)| == |Contents(rs).Keys|;
    LiveSizeBound(rs, Members(order));
  }

  lemma NothingUnreadable(f: Format, s: Engine, rs: seq<Record>)
    requires Lawful(f) && Represents(f, s, rs)
    ensures !HasUnreadable(f, s)
  {
    LiveKeysAreContents(rs);
    forall k | k in LiveKeys(s.index)
      ensures ReadAt(f, s.AllBytes(), s.index.entries[k].offset).Read?
    {
      AllReachable(f, rs, k);
    }
  }

  /** The new file is the records end to end, without gap or overlap, each readable where it lies. */
  lemma CompactedRecordsTile(f: Format, copied: seq<Record>, i: nat)
    requires Lawful(f) && AllFit(copied) && i < |copied|
    ensures LogSize(copied[..0]) == 0 && LogSize(copied) == |LogBytes(f, copied)|
    ensures LogSize(copied[..i + 1]) == LogSize(copied[..i]) + RecordSize(copied[i])
    ensures ReadAt(f, LogBytes(f, copied), LogSize(copied[..i])) ==
            Read(copied[i], ToInt32(|copied[i].value|), RecordSize(copied[i]))
  {
    assert copied[..i + 1][..i] == copied[..i];
    BytesLength(f, copied);
    LogReadsAt(f, copied, LogBytes(f, copied), i);
  }

  /** A crash on either side of the rename reopens to the same live map. */
  lemma CompactionCrashSafe(f: Format, s: Engine, rs: seq<Record>, order: seq<Bytes>)
    requires Lawful(f) && Represents(f, s, rs) && Lists(order, LiveKeys(s.index))
    ensures CopyRecords(f, s.AllBytes(), s.index.entries, order).Records?
    ensures var copied := CopyRecords(f, s.AllBytes(), s.index.entries, order).records;
            && Replay(f, s.AllBytes(), 0, EMPTY) == Replayed(IndexOf(rs))
            && Replay(f, LogBytes(f, copied), 0, EMPTY) == Replayed(IndexOf(copied))
            && Contents(copied) == Contents(rs)
  {
    var copied := CompactionKeepsContents(f, s, rs, order);
    ReplayWhole(f, rs);
    ReplayWhole(f, copied);
  }

  // ---------------------------------------------------------------- meanings

  /** The specification: a map and whether the store is open. */
  datatype Plain = Plain(contents: map<Bytes, Versioned>, closed: bool)

  function PlainStep(p: Plain, op: Op): Plain {
    match op
    case Reopen => Plain(p.contents, false)
    case Close => Plain(p.contents, true)
    case Put(k, v, t) => if p.closed then p else Plain(p.contents[k := Versioned(v, t)], false)
    case Delete(k, _) => if p.closed then p else Plain(p.contents - {k}, false)
    case _ => p
  }

  /** The replies the plain map allows; which error a missing key gives is left to the history. */
  predicate ReplyAgrees(p: Plain, op: Op, reply: Reply) {
    match op
    case Reopen => reply == Done
    case Close => reply == Done
    case Has(k) => reply == Answer(!p.closed && k in p.contents)
    case Get(k) =>
      if p.closed then reply == Failed(StorageClosed)
      else if k in p.contents then reply == Found(p.contents[k].value, p.contents[k].timestamp)
      else reply in {Failed(KeyNotFound), Failed(KeyDeleted)}
    case _ => reply == if p.closed then Failed(StorageClosed) else Done
  }

  /** Keys and values that the 32-bit length fields can describe. */
  predicate OpFits(op: Op) {
    match op
    case Put(k, v, _) => |k| < 0x1_0000_0000 && |v| < 0x1_0000_0000
    case Delete(k, _) => |k| < 0x1_0000_0000
    case _ => true
  }

  /** A store is reopened only after it was closed. */
  predicate Allowed(s: Engine, op: Op) { op.Reopen? ==> s.closed }

  lemma AppendRepresents(f: Format, sync: bool, s: Engine, rs: seq<Record>, r: Record, s': Engine)
    requires Lawful(f) && Represents(f, s, rs) && FitsHeader(r)
    requires Appended(f, sync, s, r, s') && s'.index == ApplyRecord(s.index, r, s.position)
    ensures Represents(f, s', rs + [r])
    ensures Contents(rs + [r]) == if r.deleted then Contents(rs) - {r.key} else Contents(rs)[r.key := Versioned(r.value, r.timestamp)]
  {
    OneMoreRecord(f, rs, r);
  }

  lemma GetAnswers(f: Format, s: Engine, rs: seq<Record>, k: Bytes)
    requires Lawful(f) && Represents(f, s, rs)
    ensures ReplyAgrees(Plain(Contents(rs), false), Get(k), GetReply(f, s, k))
    ensures GetReply(f, s, k).Found? <==> k in s.index.entries && !s.index.entries[k].deleted
  {
    IndexLocates(rs, k);
    if k in Contents(rs) {
      AllReachable(f, rs, k);
      GetFinds(f, s, rs, k);
    }
  }

  lemma GetFinds(f: Format, s: Engine, rs: seq<Record>, k: Bytes)
    requires k in Contents(rs) && Reachable(f, rs, s.AllBytes(), k) && s.index == IndexOf(rs) && !s.index.entries[k].deleted
    ensures GetReply(f, s, k) == Found(Contents(rs)[k].value, Contents(rs)[k].timestamp)
  {
  }

  lemma CompactRefines(f: Format, s: Engine, rs: seq<Record>, s': Engine, reply: Reply) returns (copied: seq<Record>)
    requires Lawful(f) && Represents(f, s, rs) && !s.closed && CompactStep(f, s, s', reply)
    ensures Represents(f, s', copied) && Contents(copied) == Contents(rs) && reply == Done && !s'.closed && s'.buffer == []
  {
    NothingUnreadable(f, s, rs);
    var order :| CompactedAs(f, s, order, s');
    copied := CompactionKeepsContents(f, s, rs, order);
  }

  predicate Writes(op: Op) { op.Put? || op.Delete? }

  /** The record a write appends. */
  function RecordOf(op: Op): Record
    requires Writes(op)
  {
    match op
    case Put(k, v, t) => Record(k, v, t, false)
    case Delete(k, t) => Record(k, [], t, true)
  }

  /** Operations after which everything written is in the file. */
  predicate Flushes(sync: bool, op: Op, reply: Reply) {
    match op
    case Put(_, _, _) => sync
    case Delete(_, _) => sync
    case Get(_) => reply.Found?
    case Has(_) => false
    case _ => true
  }

  /** Every operation keeps the representation, acts on it as on the plain map, and answers as the plain map does. */
  lemma StepRefines(f: Format, sync: bool, s: Engine, rs: seq<Record>, op: Op, s': Engine, reply: Reply)
    returns (rs': seq<Record>)
    requires Lawful(f) && Represents(f, s, rs)
    requires OpFits(op) && Allowed(s, op) && Step(f, sync, s, op, s', reply)
    ensures Represents(f, s', rs')
    ensures Plain(Contents(rs'), s'.closed) == PlainStep(Plain(Contents(rs), s.closed), op)
    ensures ReplyAgrees(Plain(Contents(rs), s.closed), op, reply)
    ensures sync && s.buffer == [] ==> s'.buffer == []
    ensures Writes(op) && !s.closed ==> rs' == rs + [RecordOf(op)] && s.disk <= s'.disk
    ensures Flushes(sync, op, reply) ==> s'.buffer == []
    ensures !Writes(op) && !Flushes(sync, op, reply) ==> rs' == rs && s' == s
  {
    rs' := rs;
    LiveKeysAreContents(rs);
    if !s.closed || op.Reopen? {
      match op
      case Put(k, v, t) =>
        AppendRepresents(f, sync, s, rs, Record(k, v, t, false), s');
        rs' := rs + [Record(k, v, t, false)];
      case Delete(k, t) =>
        AppendRepresents(f, sync, s, rs, Record(k, [], t, true), s');
        rs' := rs + [Record(k, [], t, true)];
      case Get(k) =>
        GetAnswers(f, s, rs, k);
      case Compact =>
        rs' := CompactRefines(f, s, rs, s', reply);
      case Reopen =>
        assert s.disk == s.AllBytes();
        ReplayWhole(f, rs);
        BytesLength(f, rs);
      case Has(_) =>
      case Sync =>
      case Close =>
    }
  }

  // -------------------------------------------------------------------- runs

  datatype Event = Event(op: Op, reply: Reply, after: Engine)

  ghost predicate IsRun(f: Format, sync: bool, run: seq<Event>) {
    forall i :: 0 <= i < |run| ==> StepsAt(f, sync, run, i)
  }

  ghost predicate StepsAt(f: Format, sync: bool, run: seq<Event>, i: nat)
    requires i < |run|
  {
    && OpFits(run[i].op)
    && Allowed(StateAfter(run, i), run[i].op)
    && Step(f, sync, StateAfter(run, i), run[i].op, run[i].after, run[i].reply)
  }

  function StateAfter(run: seq<Event>, i: nat): Engine
    requires i <= |run|
  {
    if i == 0 then FRESH else run[i - 1].after
  }

  function PlainAfter(run: seq<Event>, i: nat): Plain
    requires i <= |run|
  {
    if i == 0 then Plain(map[], false) else PlainStep(PlainAfter(run, i - 1), run[i - 1].op)
  }

  lemma RunStep(f: Format, sync: bool, run: seq<Event>, n: nat, rs: seq<Record>) returns (rs': seq<Record>)
    requires Lawful(f) && IsRun(f, sync, run) && n < |run|
    requires Represents(f, StateAfter(run, n), rs)
    requires Plain(Contents(rs), StateAfter(run, n).closed) == PlainAfter(run, n)
    ensures Represents(f, StateAfter(run, n + 1), rs')
    ensures Plain(Contents(rs'), StateAfter(run, n + 1).closed) == PlainAfter(run, n + 1)
    ensures ReplyAgrees(PlainAfter(run, n), run[n].op, run[n].reply)
    ensures sync && StateAfter(run, n).buffer == [] ==> StateAfter(run, n + 1).buffer == []
  {
    assert StepsAt(f, sync, run, n);
    rs' := StepRefines(f, sync, StateAfter(run, n), rs, run[n].op, run[n].after, run[n].reply);
  }

  /** Every prefix of a run ends in a represented state that means the plain map, and is answered as the map answers. */
  lemma {:induction false} RunRepresents(f: Format, sync: bool, run: seq<Event>, n: nat) returns (rs: seq<Record>)
    requires Lawful(f) && IsRun(f, sync, run) && n <= |run|
    ensures Represents(f, StateAfter(run, n), rs)
    ensures Plain(Contents(rs), StateAfter(run, n).closed) == PlainAfter(run, n)
    ensures sync ==> StateAfter(run, n).buffer == []
    ensures n > 0 ==> ReplyAgrees(PlainAfter(run, n - 1), run[n - 1].op, run[n - 1].reply)
  {
    if n == 0 {
      rs := [];
    } else {
      rs := RunRepresents(f, sync, run, n - 1);
      rs := RunStep(f, sync, run, n - 1, rs);
    }
  }

  /** The record list explains the bytes and the index, and means the plain map. */
  ghost predicate Explains(f: Format, s: Engine, p: Plain, rs: seq<Record>) {
    Represents(f, s, rs) && Plain(Contents(rs), s.closed) == p
  }

  /**
   * Every run refines the plain map: after any operations in any order, with any buffering,
   * the bytes and the index are those of a record list that means the plain map, the index is
   * field for field what a replay of the flushed file rebuilds, and every reply is the plain map's.
   */
  lemma RunRefinesMap(f: Format, sync: bool, run: seq<Event>)
    requires Lawful(f) && IsRun(f, sync, run)
    ensures exists rs :: Explains(f, StateAfter(run, |run|), PlainAfter(run, |run|), rs)
    ensures Replay(f, StateAfter(run, |run|).AllBytes(), 0, EMPTY) == Replayed(StateAfter(run, |run|).index)
    ensures sync ==> StateAfter(run, |run|).buffer == []
    ensures forall i :: 0 <= i < |run| ==> ReplyAgrees(PlainAfter(run, i), run[i].op, run[i].reply)
  {
    var rs := RunRepresents(f, sync, run, |run|);
    assert Explains(f, StateAfter(run, |run|), PlainAfter(run, |run|), rs);
    ReplayWhole(f, rs);
    forall i | 0 <= i < |run|
      ensures ReplyAgrees(PlainAfter(run, i), run[i].op, run[i].reply)
    {
      var _ := RunRepresents(f, sync, run, i + 1);
    }
  }

  /**
   * Losing the buffer at any point of a run: the file alone reopens iff it ends on a record
   * boundary, and then to the map of a prefix of the records written; with sync writes it
   * always reopens, to the map itself.
   */
  lemma CrashRecovery(f: Format, sync: bool, run: seq<Event>) returns (rs: seq<Record>)
    requires Lawful(f) && IsRun(f, sync, run)
    ensures var s := StateAfter(run, |run|);
            && Represents(f, s, rs)
            && (Replay(f, s.disk, 0, EMPTY).Replayed? <==> exists j :: 0 <= j <= |rs| && LogSize(rs[..j]) == |s.disk|)
            && (forall j :: 0 <= j <= |rs| && LogSize(rs[..j]) == |s.disk| ==>
                  Replay(f, s.disk, 0, EMPTY) == Replayed(IndexOf(rs[..j])))
            && (sync ==> Replay(f, s.disk, 0, EMPTY) == Replayed(s.index))
  {
    RunRefinesMap(f, sync, run);
    var s := StateAfter(run, |run|);
    rs :| Explains(f, s, PlainAfter(run, |run|), rs);
    TornLog(f, rs, |s.disk|);
    assert s.AllBytes()[..|s.disk|] == s.disk;
    if sync {
      assert s.disk == s.AllBytes();
    }
  }

  /** The refinement for the data file itself, whatever its checksum. */
  lemma DataFileRefinesMap(crc: Checksum, sync: bool, run: seq<Event>)
    requires IsRun(FileFormat(crc), sync, run)
    ensures exists rs :: Explains(FileFormat(crc), StateAfter(run, |run|), PlainAfter(run, |run|), rs)
    ensures Replay(FileFormat(crc), StateAfter(run, |run|).AllBytes(), 0, EMPTY) == Replayed(StateAfter(run, |run|).index)
    ensures forall i :: 0 <= i < |run| ==> ReplyAgrees(PlainAfter(run, i), run[i].op, run[i].reply)
  {
    FileFormatIsLawful(crc);
    RunRefinesMap(FileFormat(crc), sync, run);
  }

  /** And what is left of the data file after a crash. */
  lemma DataFileRecovers(crc: Checksum, sync: bool, run: seq<Event>) returns (rs: seq<Record>)
    requires IsRun(FileFormat(crc), sync, run)
    ensures var s := StateAfter(run, |run|);
            && Represents(FileFormat(crc), s, rs)
            && (Replay(FileFormat(crc), s.disk, 0, EMPTY).Replayed? <==> exists j :: 0 <= j <= |rs| && LogSize(rs[..j]) == |s.disk|)
            && (sync ==> Replay(FileFormat(crc), s.disk, 0, EMPTY) == Replayed(s.index))
  {
    FileFormatIsLawful(crc);
    rs := CrashRecovery(FileFormat(crc), sync, run);
  }
}
