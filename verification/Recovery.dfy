/**
 * Runs of the storage engine in which the process may be lost at any point, with whatever was still
 * buffered, and started again on the file that is left.
 */
module Recovery {
  import opened Codec
  import opened Index
  import opened Log
  import opened Engine

  /** An operation, or a crash after which the file could be opened again. */
  datatype Happening = Did(event: Event) | Crashed(after: Engine)

  /** The buffer is lost and the store opened anew on the file. */
  ghost predicate CrashStep(f: Format, s: Engine, s': Engine) {
    match Replay(f, s.disk, 0, EMPTY)
    case Replayed(index) => s' == Engine(s.disk, [], index, |s.disk|, false)
    case ReplayError(_, _) => false
  }

  function After(h: Happening): Engine {
    match h
    case Did(e) => e.after
    case Crashed(s) => s
  }

  function StateAt(run: seq<Happening>, i: nat): Engine
    requires i <= |run|
  {
    if i == 0 then FRESH else After(run[i - 1])
  }

  ghost predicate HappensTo(f: Format, sync: bool, s: Engine, h: Happening) {
    match h
    case Did(e) => OpFits(e.op) && Allowed(s, e.op) && Step(f, sync, s, e.op, e.after, e.reply)
    case Crashed(s') => CrashStep(f, s, s')
  }

  ghost predicate IsLife(f: Format, sync: bool, run: seq<Happening>) {
    forall i :: 0 <= i < |run| ==> HappensAt(f, sync, run, i)
  }

  ghost predicate HappensAt(f: Format, sync: bool, run: seq<Happening>, i: nat)
    requires i < |run|
  {
    HappensTo(f, sync, StateAt(run, i), run[i])
  }

  // --------------------------------------------------------------- specification

  /** The writes in force, how many of them a crash cannot take, and whether the store is closed. */
  datatype Ledger = Ledger(writes: seq<Op>, durable: nat, closed: bool)

  const NEW_LEDGER := Ledger([], 0, false)

  /** The map after some writes. */
  function Meaning(writes: seq<Op>): map<Bytes, Versioned> {
    if writes == [] then map[] else PlainStep(Plain(Meaning(writes[..|writes| - 1]), false), writes[|writes| - 1]).contents
  }

  function PlainOf(p: Ledger): Plain { Plain(Meaning(p.writes), p.closed) }

  /** An operation on the ledger: writes are added, and flushes make all of them durable. */
  function AfterOp(sync: bool, p: Ledger, op: Op, reply: Reply): Ledger {
    if p.closed && !op.Reopen? then p
    else
      var writes := if Writes(op) then p.writes + [op] else p.writes;
      Ledger(writes, if Flushes(sync, op, reply) then |writes| else p.durable, op.Close?)
  }

  /** A crash takes back the writes after some point, none of them durable. */
  predicate RolledBack(p: Ledger, p': Ledger) {
    && p.durable <= |p'.writes| <= |p.writes| && p'.writes == p.writes[..|p'.writes|]
    && p'.durable == |p'.writes| && !p'.closed
  }

  predicate LedgerStep(sync: bool, p: Ledger, h: Happening, p': Ledger) {
    match h
    case Did(e) => p' == AfterOp(sync, p, e.op, e.reply) && ReplyAgrees(PlainOf(p), e.op, e.reply)
    case Crashed(_) => RolledBack(p, p')
  }

  // ------------------------------------------------------------------ refinement

  /** The records from `base` on are those of the writes that a crash may take. */
  ghost predicate Tail(writes: seq<Op>, durable: nat, rs: seq<Record>, base: nat) {
    && durable <= |writes| && base <= |rs| && |rs| - base == |writes| - durable
    && (forall i :: 0 <= i < |writes| ==> Writes(writes[i]))
    && (forall i :: durable <= i < |writes| ==> IsRecordOf(writes, durable, rs, base, i))
  }

  predicate IsRecordOf(writes: seq<Op>, durable: nat, rs: seq<Record>, base: nat, i: nat)
    requires durable <= i < |writes| && base + (i - durable) < |rs| && Writes(writes[i])
  {
    rs[base + (i - durable)] == RecordOf(writes[i])
  }

  /** The log and the file keep the ledger. */
  ghost predicate Keeps(f: Format, s: Engine, p: Ledger, rs: seq<Record>, base: nat) {
    && Represents(f, s, rs) && s.closed == p.closed
    && Tail(p.writes, p.durable, rs, base)
    && LogSize(rs[..base]) <= |s.disk|
    && Contents(rs[..base]) == Meaning(p.writes[..p.durable])
  }

  lemma {:induction false} TailMeans(writes: seq<Op>, durable: nat, rs: seq<Record>, base: nat, n: nat)
    requires Tail(writes, durable, rs, base) && durable <= n <= |writes|
    requires Contents(rs[..base]) == Meaning(writes[..durable])
    ensures Contents(rs[..base + (n - durable)]) == Meaning(writes[..n])
  {
    if n == durable {
    } else {
      TailMeans(writes, durable, rs, base, n - 1);
      TailNext(writes, durable, rs, base, n);
      OneMoreMeans(writes[..n], rs[..base + (n - durable)]);
    }
  }

  lemma TailNext(writes: seq<Op>, durable: nat, rs: seq<Record>, base: nat, n: nat)
    requires Tail(writes, durable, rs, base) && durable < n <= |writes|
    ensures var k := base + (n - durable);
            && 0 < k <= |rs| && Writes(writes[n - 1]) && rs[k - 1] == RecordOf(writes[n - 1])
            && rs[..k][..k - 1] == rs[..k - 1] && writes[..n][..n - 1] == writes[..n - 1]
  {
    assert IsRecordOf(writes, durable, rs, base, n - 1);
  }

  lemma {:induction false} OneMoreMeans(writes: seq<Op>, rs: seq<Record>)
    requires writes != [] && rs != [] && Writes(writes[|writes| - 1]) && rs[|rs| - 1] == RecordOf(writes[|writes| - 1])
    requires Contents(rs[..|rs| - 1]) == Meaning(writes[..|writes| - 1])
    ensures Contents(rs) == Meaning(writes)
  {
    match writes[|writes| - 1]
    case Put(_, _, _) =>
    case Delete(_, _) =>
    case _ =>
  }

  lemma KeepsMeaning(f: Format, s: Engine, p: Ledger, rs: seq<Record>, base: nat)
    requires Keeps(f, s, p, rs, base)
    ensures Contents(rs) == Meaning(p.writes)
  {
    TailMeans(p.writes, p.durable, rs, base, |p.writes|);
    assert rs[..|rs|] == rs && p.writes[..|p.writes|] == p.writes;
  }

  /** With nothing buffered the whole ledger is durable. */
  lemma AllDurable(f: Format, s: Engine, writes: seq<Op>, closed: bool, rs: seq<Record>)
    requires Lawful(f) && Represents(f, s, rs) && s.buffer == [] && s.closed == closed
    requires Contents(rs) == Meaning(writes) && forall i :: 0 <= i < |writes| ==> Writes(writes[i])
    ensures Keeps(f, s, Ledger(writes, |writes|, closed), rs, |rs|)
  {
    WholeFile(f, s, rs);
    WholeTail(writes, rs);
    Whole(rs);
    Whole(writes);
  }

  lemma Whole<T>(s: seq<T>)
    ensures s[..|s|] == s
  {
  }

  lemma WholeFile(f: Format, s: Engine, rs: seq<Record>)
    requires Lawful(f) && Represents(f, s, rs) && s.buffer == []
    ensures LogSize(rs) <= |s.disk|
  {
    BytesLength(f, rs);
  }

  lemma WholeTail(writes: seq<Op>, rs: seq<Record>)
    requires forall i :: 0 <= i < |writes| ==> Writes(writes[i])
    ensures Tail(writes, |writes|, rs, |rs|)
  {
  }

  lemma OpKeeps(f: Format, sync: bool, s: Engine, p: Ledger, rs: seq<Record>, base: nat, e: Event) returns (rs': seq<Record>, base': nat)
    requires Lawful(f) && Keeps(f, s, p, rs, base) && HappensTo(f, sync, s, Did(e))
    ensures Keeps(f, e.after, AfterOp(sync, p, e.op, e.reply), rs', base')
    ensures ReplyAgrees(PlainOf(p), e.op, e.reply)
  {
    KeepsMeaning(f, s, p, rs, base);
    rs' := StepRefines(f, sync, s, rs, e.op, e.after, e.reply);
    base' := base;
    if p.closed && !e.op.Reopen? {
      rs' := rs;
    } else if Flushes(sync, e.op, e.reply) {
      FlushKeeps(f, sync, p, e, rs');
      base' := |rs'|;
    } else if Writes(e.op) {
      OneMoreWrite(f, s, p, rs, base, e.op, e.after);
    }
  }

  lemma FlushKeeps(f: Format, sync: bool, p: Ledger, e: Event, rs': seq<Record>)
    requires Lawful(f) && (!p.closed || e.op.Reopen?) && Flushes(sync, e.op, e.reply)
    requires Represents(f, e.after, rs') && e.after.buffer == [] && forall i :: 0 <= i < |p.writes| ==> Writes(p.writes[i])
    requires Plain(Contents(rs'), e.after.closed) == PlainStep(PlainOf(p), e.op)
    ensures Keeps(f, e.after, AfterOp(sync, p, e.op, e.reply), rs', |rs'|)
  {
    var p' := AfterOp(sync, p, e.op, e.reply);
    WritesMean(p, e.op);
    AllDurable(f, e.after, p'.writes, p'.closed, rs');
  }

  lemma WritesMean(p: Ledger, op: Op)
    ensures Meaning(if Writes(op) then p.writes + [op] else p.writes) ==
            if Writes(op) then PlainStep(Plain(Meaning(p.writes), false), op).contents else Meaning(p.writes)
  {
    assert (p.writes + [op])[..|p.writes|] == p.writes;
  }

  lemma OneMoreWrite(f: Format, s: Engine, p: Ledger, rs: seq<Record>, base: nat, op: Op, s': Engine)
    requires Keeps(f, s, p, rs, base) && Writes(op) && s.disk <= s'.disk
    requires Represents(f, s', rs + [RecordOf(op)]) && !s'.closed
    ensures Keeps(f, s', Ledger(p.writes + [op], p.durable, false), rs + [RecordOf(op)], base)
  {
    var more := rs + [RecordOf(op)];
    assert more[..base] == rs[..base] && (p.writes + [op])[..p.durable] == p.writes[..p.durable];
    forall i | p.durable <= i < |p.writes + [op]|
      ensures IsRecordOf(p.writes + [op], p.durable, more, base, i)
    {
      if i < |p.writes| { assert IsRecordOf(p.writes, p.durable, rs, base, i); }
    }
  }

  /** The file that is left ends on a record boundary, behind everything durable. */
  lemma CrashBoundary(f: Format, s: Engine, rs: seq<Record>, base: nat, s': Engine) returns (j: nat)
    requires Lawful(f) && Represents(f, s, rs) && base <= |rs| && LogSize(rs[..base]) <= |s.disk| && CrashStep(f, s, s')
    ensures base <= j <= |rs| && LogSize(rs[..j]) == |s.disk|
    ensures s' == Engine(s.disk, [], IndexOf(rs[..j]), |s.disk|, false)
  {
    TornLog(f, rs, |s.disk|);
    assert s.AllBytes()[..|s.disk|] == s.disk;
    j :| 0 <= j <= |rs| && LogSize(rs[..j]) == |s.disk|;
    if j < base { SizeMonotone(rs, j, base); }
  }

  /** A crash rolls the ledger back to the writes whose records the file holds. */
  lemma CrashKeeps(f: Format, s: Engine, p: Ledger, rs: seq<Record>, base: nat, s': Engine) returns (p': Ledger, rs': seq<Record>)
    requires Lawful(f) && Keeps(f, s, p, rs, base) && CrashStep(f, s, s')
    ensures RolledBack(p, p') && Keeps(f, s', p', rs', |rs'|)
  {
    var j := CrashBoundary(f, s, rs, base, s');
    rs' := rs[..j];
    var n := p.durable + (j - base);
    p' := Ledger(p.writes[..n], n, false);
    PrefixRepresents(f, s, rs, j, s');
    TailMeans(p.writes, p.durable, rs, base, n);
    AllDurable(f, s', p'.writes, false, rs');
  }

  lemma PrefixRepresents(f: Format, s: Engine, rs: seq<Record>, j: nat, s': Engine)
    requires Lawful(f) && Represents(f, s, rs) && j <= |rs| && LogSize(rs[..j]) == |s.disk|
    requires s' == Engine(s.disk, [], IndexOf(rs[..j]), |s.disk|, false)
    ensures Represents(f, s', rs[..j])
  {
    PrefixBytes(f, rs, j);
    BytesLength(f, rs[..j]);
    assert LogBytes(f, rs[..j]) == s.AllBytes()[..|s.disk|] == s.disk;
  }

  // ----------------------------------------------------------------- whole runs

  ghost predicate Explained(f: Format, s: Engine, p: Ledger) { exists rs, base :: Keeps(f, s, p, rs, base) }

  /** The ledgers before and after each of the first `n` happenings. */
  predicate IsHistory(sync: bool, run: seq<Happening>, n: nat, ledgers: seq<Ledger>) {
    && n <= |run| && |ledgers| == n + 1 && ledgers[0] == NEW_LEDGER
    && (forall i :: 0 <= i < n ==> StepAt(sync, run, ledgers, i))
  }

  predicate StepAt(sync: bool, run: seq<Happening>, ledgers: seq<Ledger>, i: nat)
    requires i < |run| && i + 1 < |ledgers|
  {
    LedgerStep(sync, ledgers[i], run[i], ledgers[i + 1])
  }

  lemma HappeningKeeps(f: Format, sync: bool, s: Engine, p: Ledger, h: Happening) returns (p': Ledger)
    requires Lawful(f) && Explained(f, s, p) && HappensTo(f, sync, s, h)
    ensures LedgerStep(sync, p, h, p') && Explained(f, After(h), p')
  {
    var rs, base :| Keeps(f, s, p, rs, base);
    match h
    case Did(e) =>
      var rs', base' := OpKeeps(f, sync, s, p, rs, base, e);
      p' := AfterOp(sync, p, e.op, e.reply);
      assert Keeps(f, After(h), p', rs', base');
    case Crashed(s') =>
      var rs';
      p', rs' := CrashKeeps(f, s, p, rs, base, s');
      assert Keeps(f, After(h), p', rs', |rs'|);
  }

  lemma FreshExplained(f: Format)
    ensures Explained(f, FRESH, NEW_LEDGER)
  {
    assert Keeps(f, FRESH, NEW_LEDGER, [], 0);
  }

  lemma LifeStep(f: Format, sync: bool, run: seq<Happening>, n: nat, p: Ledger) returns (p': Ledger)
    requires Lawful(f) && IsLife(f, sync, run) && n < |run| && Explained(f, StateAt(run, n), p)
    ensures LedgerStep(sync, p, run[n], p') && Explained(f, StateAt(run, n + 1), p')
  {
    assert HappensAt(f, sync, run, n);
    p' := HappeningKeeps(f, sync, StateAt(run, n), p, run[n]);
  }

  lemma HistorySnoc(sync: bool, run: seq<Happening>, n: nat, ledgers: seq<Ledger>, p: Ledger)
    requires n < |run| && IsHistory(sync, run, n, ledgers) && LedgerStep(sync, ledgers[n], run[n], p)
    ensures IsHistory(sync, run, n + 1, ledgers + [p])
  {
    forall i | 0 <= i < n + 1
      ensures StepAt(sync, run, ledgers + [p], i)
    {
      if i < n { assert StepAt(sync, run, ledgers, i); }
    }
  }

  /** A relation between states and ledgers carries over to happening `i`. */
  ghost predicate CarriesOver(related: (Engine, Ledger) -> bool, sync: bool, run: seq<Happening>, i: nat, p: Ledger)
    requires i < |run|
  {
    exists p' :: LedgerStep(sync, p, run[i], p') && related(StateAt(run, i + 1), p')
  }

  /** A relation that starts and carries over from happening to happening gives a history. */
  lemma {:induction false} Simulated(related: (Engine, Ledger) -> bool, sync: bool, run: seq<Happening>, n: nat) returns (ledgers: seq<Ledger>)
    requires n <= |run| && related(FRESH, NEW_LEDGER)
    requires forall i: nat, p :: i < |run| && related(StateAt(run, i), p) ==> CarriesOver(related, sync, run, i, p)
    ensures IsHistory(sync, run, n, ledgers) && related(StateAt(run, n), ledgers[n])
  {
    if n == 0 {
      ledgers := [NEW_LEDGER];
    } else {
      var before := Simulated(related, sync, run, n - 1);
      assert CarriesOver(related, sync, run, n - 1, before[n - 1]);
      var p :| LedgerStep(sync, before[n - 1], run[n - 1], p) && related(StateAt(run, n - 1 + 1), p);
      HistorySnoc(sync, run, n - 1, before, p);
      ledgers := before + [p];
    }
  }

  /**
   * Through any operations and crashes there is a history of writes, rolled back at each crash to a
   * prefix that keeps everything flushed, such that every reply is that of the plain map of the
   * writes in force, and bytes and index are explained by them.
   */
  lemma LifeRollsBack(f: Format, sync: bool, run: seq<Happening>) returns (ledgers: seq<Ledger>)
    requires Lawful(f) && IsLife(f, sync, run)
    ensures IsHistory(sync, run, |run|, ledgers) && Explained(f, StateAt(run, |run|), ledgers[|run|])
  {
    var related := (s: Engine, p: Ledger) => Explained(f, s, p);
    FreshExplained(f);
    forall i: nat, p | i < |run| && related(StateAt(run, i), p)
      ensures CarriesOver(related, sync, run, i, p)
    {
      var p' := LifeStep(f, sync, run, i, p);
      assert related(StateAt(run, i + 1), p');
    }
    ledgers := Simulated(related, sync, run, |run|);
  }

  lemma ExplainedReplays(f: Format, s: Engine, p: Ledger)
    requires Lawful(f) && Explained(f, s, p)
    ensures Replay(f, s.AllBytes(), 0, EMPTY) == Replayed(s.index)
    ensures LiveKeys(s.index) == Meaning(p.writes).Keys
  {
    var rs, base :| Keeps(f, s, p, rs, base);
    ReplayWhole(f, rs);
    LiveKeysAreContents(rs);
    KeepsMeaning(f, s, p, rs, base);
  }

  /** The same for the data file itself, whatever its checksum. */
  lemma DataFileRollsBack(crc: Checksum, sync: bool, run: seq<Happening>) returns (ledgers: seq<Ledger>)
    requires IsLife(FileFormat(crc), sync, run)
    ensures IsHistory(sync, run, |run|, ledgers)
    ensures var s := StateAt(run, |run|);
            && Replay(FileFormat(crc), s.AllBytes(), 0, EMPTY) == Replayed(s.index)
            && LiveKeys(s.index) == Meaning(ledgers[|run|].writes).Keys
  {
    FileFormatIsLawful(crc);
    ledgers := LifeRollsBack(FileFormat(crc), sync, run);
    ExplainedReplays(FileFormat(crc), StateAt(run, |run|), ledgers[|run|]);
  }
}
