/** What a record that was damaged on disk does: it is refused by every reader, and nothing else is lost to a Get. */
module Damage {
  import opened Codec
  import opened Index
  import opened Log
  import opened Sequences
  import opened Engine

  /** The bytes of a record, changed anywhere but in its length fields, so that its checksum tells. */
  predicate Spoiled(crc: Checksum, r: Record, b: Bytes) {
    |b| == RecordSize(r) && b[12..20] == Encode(crc, r)[12..20] && Value(b[0..4]) != crc(b[4..])
  }

  /** Bytes put over those from `from` on. */
  function Over(log: Bytes, from: nat, b: Bytes): (file: Bytes)
    requires from + |b| <= |log|
    ensures |file| == |log|
  {
    log[..from] + b + log[from + |b|..]
  }

  lemma OverAt(log: Bytes, from: nat, b: Bytes)
    requires from + |b| <= |log|
    ensures Over(log, from, b)[from..][..|b|] == b && Over(log, from, b)[..from] == log[..from]
  {
  }

  lemma OverElsewhere(log: Bytes, from: nat, b: Bytes, p: nat, q: nat)
    requires from + |b| <= |log| && p <= q <= |log| && (q <= from || from + |b| <= p)
    ensures Over(log, from, b)[p..q] == log[p..q]
  {
  }

  /** The file of a log in which other bytes lie where record `i` was written. */
  ghost predicate WrittenOver(f: Format, rs: seq<Record>, i: nat, b: Bytes, file: Bytes) {
    && i < |rs| && |b| == RecordSize(rs[i])
    && LogSize(rs[..i]) + |b| <= |LogBytes(f, rs)| && file == Over(LogBytes(f, rs), LogSize(rs[..i]), b)
  }

  /** Record `i` is spoiled and all else is as it was written. */
  ghost predicate SpoiledAt(crc: Checksum, rs: seq<Record>, i: nat, b: Bytes, file: Bytes) {
    AllFit(rs) && WrittenOver(FileFormat(crc), rs, i, b, file) && Spoiled(crc, rs[i], b)
  }

  lemma StartsSpoiled(crc: Checksum, r: Record, b: Bytes, rest: Bytes)
    requires FitsHeader(r) && Spoiled(crc, r, b) && |b| <= |rest| && rest[..|b|] == b
    ensures Decode(crc, rest) == Corrupt
  {
    assert rest[0..4] == b[0..4] && rest[12..20] == b[12..20] && rest[4..|b|] == b[4..];
    DamageIsRefused(crc, r, rest);
  }

  lemma SpoiledIsRefused(crc: Checksum, rs: seq<Record>, i: nat, b: Bytes, file: Bytes)
    requires SpoiledAt(crc, rs, i, b, file)
    ensures LogSize(rs[..i]) <= |file| && Decode(crc, file[LogSize(rs[..i])..]) == Corrupt
  {
    OverAt(LogBytes(FileFormat(crc), rs), LogSize(rs[..i]), b);
    StartsSpoiled(crc, rs[i], b, file[LogSize(rs[..i])..]);
  }

  predicate HoldsAt(file: Bytes, at: nat, e: Bytes) { at + |e| <= |file| && file[at..at + |e|] == e }

  /** Record `j` lies where the records before it end. */
  ghost predicate LiesAt(f: Format, rs: seq<Record>, j: nat, file: Bytes)
    requires j < |rs|
  {
    HoldsAt(file, LogSize(rs[..j]), f.enc(rs[j]))
  }

  lemma LiesIn(f: Format, rs: seq<Record>, j: nat)
    requires Lawful(f) && j < |rs|
    ensures LiesAt(f, rs, j, LogBytes(f, rs))
  {
    RecordAt(f, rs, LogBytes(f, rs), j);
    StartsWith(LogBytes(f, rs), LogSize(rs[..j]), f.enc(rs[j]));
  }

  lemma StartsWith(log: Bytes, at: nat, e: Bytes)
    requires at + |e| <= |log| && e <= log[at..]
    ensures HoldsAt(log, at, e)
  {
    assert log[at..][..|e|] == e;
  }

  lemma Apart(rs: seq<Record>, i: nat, j: nat)
    requires i < |rs| && j < |rs| && i != j
    ensures LogSize(rs[..j]) + RecordSize(rs[j]) <= LogSize(rs[..i]) || LogSize(rs[..i]) + RecordSize(rs[i]) <= LogSize(rs[..j])
  {
    if j < i { SizeMonotone(rs, j, i); } else { SizeMonotone(rs, i, j); }
  }

  lemma HoldsOver(log: Bytes, from: nat, b: Bytes, at: nat, e: Bytes)
    requires from + |b| <= |log| && HoldsAt(log, at, e) && (at + |e| <= from || from + |b| <= at)
    ensures HoldsAt(Over(log, from, b), at, e)
  {
    OverElsewhere(log, from, b, at, at + |e|);
  }

  lemma OthersLie(f: Format, rs: seq<Record>, i: nat, b: Bytes, file: Bytes, j: nat)
    requires WrittenOver(f, rs, i, b, file) && j < |rs| && j != i
    requires LiesAt(f, rs, j, LogBytes(f, rs)) && |f.enc(rs[j])| == RecordSize(rs[j])
    ensures LiesAt(f, rs, j, file)
  {
    Apart(rs, i, j);
    HoldsOver(LogBytes(f, rs), LogSize(rs[..i]), b, LogSize(rs[..j]), f.enc(rs[j]));
  }

  lemma ReadsWhereItLies(f: Format, r: Record, file: Bytes, at: nat)
    requires Lawful(f) && FitsHeader(r) && HoldsAt(file, at, f.enc(r))
    ensures ReadAt(f, file, at) == Read(r, ToInt32(|r.value|), RecordSize(r))
  {
    assert file[at..][..|f.enc(r)|] == file[at..at + |f.enc(r)|];
    assert f.enc(r) <= file[at..];
  }

  lemma OthersRead(f: Format, rs: seq<Record>, i: nat, b: Bytes, file: Bytes, j: nat)
    requires Lawful(f) && WrittenOver(f, rs, i, b, file) && j < |rs| && j != i && FitsHeader(rs[j])
    ensures ReadAt(f, file, LogSize(rs[..j])) == Read(rs[j], ToInt32(|rs[j].value|), RecordSize(rs[j]))
  {
    LiesIn(f, rs, j);
    OthersLie(f, rs, i, b, file, j);
    ReadsWhereItLies(f, rs[j], file, LogSize(rs[..j]));
  }

  /** A file with a spoiled record, live or not, is not opened: the replay stops there. */
  lemma SpoiledFileStaysShut(crc: Checksum, rs: seq<Record>, i: nat, b: Bytes, file: Bytes)
    requires SpoiledAt(crc, rs, i, b, file)
    ensures Replay(FileFormat(crc), file, 0, EMPTY) == ReplayError(LogSize(rs[..i]), Corrupt)
  {
    SpoiledIsRefused(crc, rs, i, b, file);
    OverAt(LogBytes(FileFormat(crc), rs), LogSize(rs[..i]), b);
    FileFormatIsLawful(crc);
    StopsAtCorrupt(FileFormat(crc), rs, i, file);
  }

  lemma StopsAtCorrupt(f: Format, rs: seq<Record>, i: nat, file: Bytes)
    requires Lawful(f) && AllFit(rs) && i < |rs| && LogSize(rs[..i]) <= |file| && LogSize(rs[..i]) <= |LogBytes(f, rs)|
    requires file[..LogSize(rs[..i])] == LogBytes(f, rs)[..LogSize(rs[..i])] && f.dec(file[LogSize(rs[..i])..]) == Corrupt
    ensures Replay(f, file, 0, EMPTY) == ReplayError(LogSize(rs[..i]), Corrupt)
  {
    HeadOf(f, rs, i, file);
    ReplayOfHead(f, rs[..i], file);
  }

  lemma HeadOf(f: Format, rs: seq<Record>, i: nat, file: Bytes)
    requires Lawful(f) && i < |rs| && LogSize(rs[..i]) <= |file| && LogSize(rs[..i]) <= |LogBytes(f, rs)|
    requires file[..LogSize(rs[..i])] == LogBytes(f, rs)[..LogSize(rs[..i])]
    ensures LogBytes(f, rs[..i]) <= file
  {
    PrefixBytes(f, rs, i);
    BytesLength(f, rs[..i]);
  }

  /** The store of a log whose bytes were damaged while it was open. */
  ghost predicate SpoiledStore(crc: Checksum, s: Engine, rs: seq<Record>, i: nat, b: Bytes) {
    !s.closed && s.index == IndexOf(rs) && SpoiledAt(crc, rs, i, b, s.AllBytes())
  }

  /** A Get of the key whose current record is spoiled fails; every other live key is answered as before. */
  lemma GetFromSpoiledStore(crc: Checksum, s: Engine, rs: seq<Record>, i: nat, b: Bytes, k: Bytes)
    requires SpoiledStore(crc, s, rs, i, b) && k in Contents(rs)
    ensures GetReply(FileFormat(crc), s, k) ==
            if LastPut(rs, k) == i then Failed(ReadFailed) else Found(Contents(rs)[k].value, Contents(rs)[k].timestamp)
  {
    IndexLocates(rs, k);
    var j := LastPut(rs, k);
    if j == i {
      SpoiledIsRefused(crc, rs, i, b, s.AllBytes());
    } else {
      FileFormatIsLawful(crc);
      OthersRead(FileFormat(crc), rs, i, b, s.AllBytes(), j);
    }
    GetReads(FileFormat(crc), s, rs, k);
  }

  /** What a Get answers, by what lies at the current record's position. */
  lemma GetReads(f: Format, s: Engine, rs: seq<Record>, k: Bytes)
    requires k in Contents(rs) && s.index == IndexOf(rs)
    ensures var d := ReadAt(f, s.AllBytes(), LogSize(rs[..LastPut(rs, k)]));
            GetReply(f, s, k) == if d.Read? then Found(d.record.value, d.record.timestamp) else Failed(ReadFailed)
  {
    IndexLocates(rs, k);
  }

  lemma {:induction false} UnreadableStays(f: Format, file: Bytes, entries: map<Bytes, IndexEntry>, order: seq<Bytes>, k: Bytes)
    requires k in order && k in entries && !ReadAt(f, file, entries[k].offset).Read?
    ensures CopyRecords(f, file, entries, order).Unreadable?
  {
    if order[|order| - 1] != k {
      assert k in order[..|order| - 1];
      UnreadableStays(f, file, entries, order[..|order| - 1], k);
    }
  }

  lemma NotCopied(crc: Checksum, s: Engine, rs: seq<Record>, i: nat, b: Bytes, k: Bytes, order: seq<Bytes>)
    requires SpoiledStore(crc, s, rs, i, b) && k in Contents(rs) && LastPut(rs, k) == i && Lists(order, LiveKeys(s.index))
    ensures CopyRecords(FileFormat(crc), s.AllBytes(), s.index.entries, order).Unreadable?
  {
    IndexLocates(rs, k);
    SpoiledIsRefused(crc, rs, i, b, s.AllBytes());
    assert k in Members(order);
    UnreadableStays(FileFormat(crc), s.AllBytes(), s.index.entries, order, k);
  }

  /** Compaction drops no spoiled record silently: it fails, and file and index are what they were. */
  lemma CompactionRefusesSpoiled(crc: Checksum, s: Engine, rs: seq<Record>, i: nat, b: Bytes, k: Bytes, s': Engine, reply: Reply)
    requires SpoiledStore(crc, s, rs, i, b) && k in Contents(rs) && LastPut(rs, k) == i
    requires CompactStep(FileFormat(crc), s, s', reply)
    ensures reply == Failed(ReadFailed) && s'.AllBytes() == s.AllBytes() && s'.index == s.index
  {
    forall order | Lists(order, LiveKeys(s.index))
      ensures CopyRecords(FileFormat(crc), s.AllBytes(), s.index.entries, order).Unreadable?
    {
      NotCopied(crc, s, rs, i, b, k, order);
    }
    OnlyFails(FileFormat(crc), s, s', reply);
  }

  lemma OnlyFails(f: Format, s: Engine, s': Engine, reply: Reply)
    requires forall order :: Lists(order, LiveKeys(s.index)) ==> CopyRecords(f, s.AllBytes(), s.index.entries, order).Unreadable?
    requires CompactStep(f, s, s', reply)
    ensures reply == Failed(ReadFailed) && s'.AllBytes() == s.AllBytes() && s'.index == s.index
  {
    assert s.AllBytes() + [] == s.AllBytes();
  }
}
