/** What becomes of the refinement when a key or a value is too long for the header's length fields. */
module Oversize {
  import opened Codec
  import opened Index
  import opened Log
  import opened Engine

  // --------------------------------------------------------------- continuations

  ghost predicate CanFollow(f: Format, sync: bool, s: Engine, e: Event) {
    OpFits(e.op) && Allowed(s, e.op) && Step(f, sync, s, e.op, e.after, e.reply)
  }

  /** The operations go on from `s`, with keys and values that fit. */
  ghost predicate GoesOn(f: Format, sync: bool, s: Engine, more: seq<Event>)
    decreases |more|
  {
    more == [] || (CanFollow(f, sync, s, more[0]) && GoesOn(f, sync, more[0].after, more[1..]))
  }

  /** All replies are those of the plain map. */
  predicate AllAgree(p: Plain, more: seq<Event>)
    decreases |more|
  {
    more == [] || (ReplyAgrees(p, more[0].op, more[0].reply) && AllAgree(PlainStep(p, more[0].op), more[1..]))
  }

  /** Whatever is done from `s` on is answered as by the plain map. */
  ghost predicate KeepsAnswering(f: Format, sync: bool, s: Engine, p: Plain) {
    forall more :: GoesOn(f, sync, s, more) ==> AllAgree(p, more)
  }

  lemma FirstAgrees(f: Format, sync: bool, s: Engine, p: Plain, rs: seq<Record>, e: Event) returns (rs': seq<Record>)
    requires Lawful(f) && Explains(f, s, p, rs) && CanFollow(f, sync, s, e)
    ensures Explains(f, e.after, PlainStep(p, e.op), rs') && ReplyAgrees(p, e.op, e.reply)
  {
    rs' := StepRefines(f, sync, s, rs, e.op, e.after, e.reply);
  }

  lemma FirstAndRest(p: Plain, more: seq<Event>)
    requires more != [] && ReplyAgrees(p, more[0].op, more[0].reply) && AllAgree(PlainStep(p, more[0].op), more[1..])
    ensures AllAgree(p, more)
  {
  }

  lemma {:induction false} ExplainedAgrees(f: Format, sync: bool, s: Engine, p: Plain, rs: seq<Record>, more: seq<Event>)
    requires Lawful(f) && Explains(f, s, p, rs) && GoesOn(f, sync, s, more)
    ensures AllAgree(p, more)
    decreases |more|
  {
    if more == [] {
    } else {
      var rs' := FirstAgrees(f, sync, s, p, rs, more[0]);
      ExplainedAgrees(f, sync, more[0].after, PlainStep(p, more[0].op), rs', more[1..]);
      FirstAndRest(p, more);
    }
  }

  // ------------------------------------------------------ what is read always fits

  /** The format never reads a record that it could not have described. */
  ghost predicate ReadsFit(f: Format) { forall b: Bytes :: f.dec(b).Read? ==> FitsHeader(f.dec(b).record) }

  lemma FileReadsFit(crc: Checksum)
    ensures ReadsFit(FileFormat(crc))
  {
  }

  predicate ShortKeys(s: IndexState) { forall k :: k in s.entries ==> |k| < 0x1_0000_0000 }

  /** So an index rebuilt from a file has no key that does not fit. */
  lemma {:induction false} ReplayedKeysFit(f: Format, file: Bytes, offset: nat, s: IndexState)
    requires ReadsFit(f) && offset <= |file| && ShortKeys(s) && Replay(f, file, offset, s).Replayed?
    ensures ShortKeys(Replay(f, file, offset, s).state)
    decreases |file| - offset
  {
    var d := f.dec(file[offset..]);
    if d.Read? {
      var r := d.record;
      var s' := if r.deleted then DeleteEntry(s, r.key, r.timestamp) else PutEntry(s, r.key, offset, d.size, r.timestamp);
      ReplayedKeysFit(f, file, offset + d.bytesRead, s');
    }
  }

  // ----------------------------------------------------------------- oversized Puts

  /** A value that is too long is never read back: what is read is shorter, or nothing. */
  lemma LongValueIsLost(f: Format, sync: bool, s: Engine, p: Plain, k: Bytes)
    requires ReadsFit(f) && !s.closed && !p.closed && k in p.contents && |p.contents[k].value| >= 0x1_0000_0000
    ensures !KeepsAnswering(f, sync, s, p)
  {
    var live := k in s.index.entries && !s.index.entries[k].deleted;
    var e := Event(Get(k), GetReply(f, s, k), if live then s.Flushed() else s);
    assert CanFollow(f, sync, s, e);
    assert GoesOn(f, sync, s, [e]);
    assert !ReplyAgrees(p, Get(k), GetReply(f, s, k));
    assert !AllAgree(p, [e]);
  }

  function Reopened(f: Format, s: Engine): Event {
    match Replay(f, s.disk, 0, EMPTY)
    case Replayed(index) => Event(Reopen, Done, Engine(s.disk, [], index, |s.disk|, false))
    case ReplayError(_, _) => Event(Reopen, Failed(RebuildFailed), s)
  }

  /** A key that is too long is gone when the store is closed and opened again, if it can be opened at all. */
  lemma LongKeyIsLost(f: Format, sync: bool, s: Engine, p: Plain, k: Bytes)
    requires ReadsFit(f) && !s.closed && !p.closed && k in p.contents && |k| >= 0x1_0000_0000
    ensures !KeepsAnswering(f, sync, s, p)
  {
    var closed := Event(Close, Done, s.Flushed().(closed := true));
    var again := Reopened(f, closed.after);
    var asked := Event(Has(k), Answer(!again.after.closed && k in LiveKeys(again.after.index)), again.after);
    if again.reply == Done { ReplayedKeysFit(f, closed.after.disk, 0, EMPTY); }
    ThreeGoOn(f, sync, s, closed, again, asked);
    NotAllAgree(p, k, closed, again, asked);
  }

  lemma ThreeGoOn(f: Format, sync: bool, s: Engine, a: Event, b: Event, c: Event)
    requires CanFollow(f, sync, s, a) && CanFollow(f, sync, a.after, b) && CanFollow(f, sync, b.after, c)
    ensures GoesOn(f, sync, s, [a, b, c])
  {
    assert [a, b, c][1..] == [b, c] && [b, c][1..] == [c];
    assert GoesOn(f, sync, b.after, [c]);
    assert GoesOn(f, sync, a.after, [b, c]);
  }

  lemma NotAllAgree(p: Plain, k: Bytes, closed: Event, again: Event, asked: Event)
    requires k in p.contents && closed.op == Close && again.op == Reopen && asked.op == Has(k)
    requires again.reply != Done || asked.reply == Answer(false)
    ensures !AllAgree(p, [closed, again, asked])
  {
    var more := [closed, again, asked];
    assert more[1..] == [again, asked] && [again, asked][1..] == [asked];
    var shut := PlainStep(p, Close);
    assert AllAgree(p, more) ==> AllAgree(shut, [again, asked]);
    assert AllAgree(shut, [again, asked]) ==> again.reply == Done && AllAgree(PlainStep(shut, Reopen), [asked]);
  }

  /**
   * After a Put, everything done later is answered as by the plain map exactly when the lengths of
   * the key and the value fit the header: a longer value is not read back, and a longer key does not
   * survive closing and opening.
   */
  lemma PutKeptExactly(crc: Checksum, sync: bool, s: Engine, rs: seq<Record>, k: Bytes, v: Bytes, t: int64, s': Engine)
    requires Represents(FileFormat(crc), s, rs) && !s.closed && Step(FileFormat(crc), sync, s, Put(k, v, t), s', Done)
    ensures KeepsAnswering(FileFormat(crc), sync, s', Plain(Contents(rs)[k := Versioned(v, t)], false)) <==> OpFits(Put(k, v, t))
  {
    var f, p := FileFormat(crc), Plain(Contents(rs)[k := Versioned(v, t)], false);
    FileReadsFit(crc);
    FileFormatIsLawful(crc);
    if OpFits(Put(k, v, t)) {
      var rs' := StepRefines(f, sync, s, rs, Put(k, v, t), s', Done);
      forall more | GoesOn(f, sync, s', more)
        ensures AllAgree(p, more)
      {
        ExplainedAgrees(f, sync, s', p, rs', more);
      }
    } else if |v| >= 0x1_0000_0000 {
      LongValueIsLost(f, sync, s', p, k);
    } else {
      LongKeyIsLost(f, sync, s', p, k);
    }
  }
}
