/** The data file as a sequence of records: replaying it, cutting it, and what it means as a map. */
module Log {
  import opened Codec
  import opened Index

  // --------------------------------------------------------- record formats

  /** A way of writing records and of reading one from the front of some bytes. */
  datatype RawFormat = RawFormat(enc: Record -> Bytes, dec: Bytes -> ReadResult)

  /** A successful read consumes something, and no more than there is. */
  ghost predicate Progresses(f: RawFormat) {
    forall b: Bytes :: f.dec(b).Read? ==> 0 < f.dec(b).bytesRead <= |b|
  }

  type Format = f: RawFormat | Progresses(f)
    ghost witness RawFormat((r: Record) => [], (b: Bytes) => EndOfFile)

  /** The format of the data file under a checksum. */
  function FileFormat(crc: Checksum): (f: Format)
    ensures forall r: Record :: f.enc(r) == Encode(crc, r)
    ensures forall b: Bytes :: f.dec(b) == Decode(crc, b)
  {
    RawFormat((r: Record) => Encode(crc, r), (b: Bytes) => Decode(crc, b))
  }

  /** All the log needs of a format: round trips, known sizes, and torn records that never read. */
  ghost predicate Lawful(f: Format) {
    && (forall r: Record :: |f.enc(r)| == RecordSize(r))
    && (forall r: Record, b: Bytes :: FitsHeader(r) && f.enc(r) <= b ==> f.dec(b) == Read(r, ToInt32(|r.value|), RecordSize(r)))
    && (forall r: Record, b: Bytes :: FitsHeader(r) && b < f.enc(r) ==> !f.dec(b).Read? && (f.dec(b).EndOfFile? <==> b == []))
    && f.dec([]) == EndOfFile
  }

  lemma FileFormatIsLawful(crc: Checksum)
    ensures Lawful(FileFormat(crc))
  {
    forall r: Record, b: Bytes | FitsHeader(r) && Encode(crc, r) <= b
      ensures Decode(crc, b) == Read(r, ToInt32(|r.value|), RecordSize(r))
    {
      ReadBack(crc, r, b);
    }
    forall r: Record, b: Bytes | FitsHeader(r) && b < Encode(crc, r)
      ensures !Decode(crc, b).Read? && (Decode(crc, b).EndOfFile? <==> b == [])
    {
      TornRecord(crc, r, b);
    }
  }

  // ------------------------------------------------------- records and bytes

  function LogBytes(f: Format, rs: seq<Record>): Bytes {
    if rs == [] then [] else LogBytes(f, rs[..|rs| - 1]) + f.enc(rs[|rs| - 1])
  }

  function LogSize(rs: seq<Record>): nat {
    if rs == [] then 0 else LogSize(rs[..|rs| - 1]) + RecordSize(rs[|rs| - 1])
  }

  predicate AllFit(rs: seq<Record>) { forall i :: 0 <= i < |rs| ==> FitsHeader(rs[i]) }

  lemma {:induction false} BytesLength(f: Format, rs: seq<Record>)
    requires Lawful(f)
    ensures |LogBytes(f, rs)| == LogSize(rs)
  {
    if rs == [] {
    } else {
      BytesLength(f, rs[..|rs| - 1]);
    }
  }

  lemma {:induction false} PrefixBytes(f: Format, rs: seq<Record>, j: nat)
    requires j <= |rs|
    ensures LogBytes(f, rs[..j]) <= LogBytes(f, rs)
  {
    if j == |rs| {
      assert rs[..j] == rs;
    } else {
      var init := rs[..|rs| - 1];
      PrefixBytes(f, init, j);
      assert init[..j] == rs[..j];
    }
  }

  lemma SplitAt(f: Format, rs: seq<Record>, i: nat)
    requires i < |rs|
    ensures LogBytes(f, rs[..i]) + f.enc(rs[i]) <= LogBytes(f, rs)
  {
    PrefixBytes(f, rs, i + 1);
    var upTo := rs[..i + 1];
    assert upTo[..|upTo| - 1] == rs[..i] && upTo[|upTo| - 1] == rs[i];
  }

  /** In a file that starts with a log, the bytes from record `i` on start with that record. */
  lemma RecordAt(f: Format, rs: seq<Record>, file: Bytes, i: nat)
    requires Lawful(f)
    requires i < |rs| && LogBytes(f, rs) <= file
    ensures LogSize(rs[..i]) + RecordSize(rs[i]) <= |file|
    ensures f.enc(rs[i]) <= file[LogSize(rs[..i])..]
  {
    SplitAt(f, rs, i);
    BytesLength(f, rs[..i]);
    NextBytes(LogBytes(f, rs[..i]), f.enc(rs[i]), LogBytes(f, rs), file);
  }

  lemma NextBytes(before: Bytes, next: Bytes, log: Bytes, file: Bytes)
    requires before + next <= log && log <= file
    ensures |before| + |next| <= |file| && next <= file[|before|..]
  {
    assert before + next <= file;
    assert file[|before|..][..|next|] == next;
  }

  // ------------------------------------------------------------------ replay

  datatype ReplayResult = Replayed(state: IndexState) | ReplayError(offset: nat, cause: ReadResult)

  function ApplyRecord(s: IndexState, r: Record, offset: nat): IndexState {
    if r.deleted then DeleteEntry(s, r.key, r.timestamp)
    else PutEntry(s, r.key, offset, ToInt32(|r.value|), r.timestamp)
  }

  /** The index after the records of a log, each applied at its own position. */
  function IndexOf(rs: seq<Record>): IndexState {
    if rs == [] then EMPTY
    else ApplyRecord(IndexOf(rs[..|rs| - 1]), rs[|rs| - 1], LogSize(rs[..|rs| - 1]))
  }

  /** Reading records from `offset` until a clean end of file; any other failure aborts. */
  function Replay(f: Format, file: Bytes, offset: nat, s: IndexState): ReplayResult
    requires offset <= |file|
    decreases |file| - offset
  {
    var d := f.dec(file[offset..]);
    match d
    case EndOfFile => Replayed(s)
    case Read(r, size, n) =>
      var s' := if r.deleted then DeleteEntry(s, r.key, r.timestamp) else PutEntry(s, r.key, offset, size, r.timestamp);
      Replay(f, file, offset + n, s')
    case _ => ReplayError(offset, d)
  }

  lemma ReplayStep(f: Format, file: Bytes, offset: nat, s: IndexState, r: Record)
    requires offset <= |file| && f.dec(file[offset..]) == Read(r, ToInt32(|r.value|), RecordSize(r))
    ensures offset + RecordSize(r) <= |file|
    ensures Replay(f, file, offset, s) == Replay(f, file, offset + RecordSize(r), ApplyRecord(s, r, offset))
  {
  }

  lemma ReplayStops(f: Format, file: Bytes, offset: nat, s: IndexState)
    requires offset <= |file| && !f.dec(file[offset..]).Read?
    ensures Replay(f, file, offset, s) ==
            if f.dec(file[offset..]).EndOfFile? then Replayed(s) else ReplayError(offset, f.dec(file[offset..]))
  {
  }

  /** Every record of `rs` reads at its position in the file. */
  ghost predicate ReadsThroughout(f: Format, rs: seq<Record>, file: Bytes) {
    forall i :: 0 <= i < |rs| ==> ReadsAt(f, rs, file, i)
  }

  predicate ReadsAt(f: Format, rs: seq<Record>, file: Bytes, i: nat)
    requires i < |rs|
  {
    && LogSize(rs[..i]) <= |file|
    && f.dec(file[LogSize(rs[..i])..]) == Read(rs[i], ToInt32(|rs[i].value|), RecordSize(rs[i]))
  }

  lemma LogReadsAt(f: Format, rs: seq<Record>, file: Bytes, i: nat)
    requires Lawful(f)
    requires i < |rs| && FitsHeader(rs[i]) && LogBytes(f, rs) <= file
    ensures ReadsAt(f, rs, file, i)
  {
    RecordAt(f, rs, file, i);
  }

  lemma LogReadsThroughout(f: Format, rs: seq<Record>, file: Bytes)
    requires Lawful(f)
    requires AllFit(rs) && LogBytes(f, rs) <= file
    ensures ReadsThroughout(f, rs, file)
  {
    forall i | 0 <= i < |rs|
      ensures ReadsAt(f, rs, file, i)
    {
      LogReadsAt(f, rs, file, i);
    }
  }

  lemma ReplayOne(f: Format, rs: seq<Record>, file: Bytes, i: nat)
    requires i < |rs| && ReadsAt(f, rs, file, i)
    ensures LogSize(rs[..i + 1]) <= |file|
    ensures Replay(f, file, LogSize(rs[..i]), IndexOf(rs[..i])) == Replay(f, file, LogSize(rs[..i + 1]), IndexOf(rs[..i + 1]))
  {
    assert rs[..i + 1][..i] == rs[..i];
    ReplayStep(f, file, LogSize(rs[..i]), IndexOf(rs[..i]), rs[i]);
  }

  /** A file in which the records read one after the other replays as those records first. */
  lemma {:induction false} ReplaySkips(f: Format, rs: seq<Record>, file: Bytes, j: nat)
    requires ReadsThroughout(f, rs, file) && j <= |rs|
    ensures LogSize(rs[..j]) <= |file|
    ensures Replay(f, file, 0, EMPTY) == Replay(f, file, LogSize(rs[..j]), IndexOf(rs[..j]))
  {
    if j == 0 {
    } else {
      ReplaySkips(f, rs, file, j - 1);
      assert ReadsAt(f, rs, file, j - 1);
      ReplayOne(f, rs, file, j - 1);
    }
  }

  /** Where a cut falls: after `j` whole records, before the end of the next one. */
  lemma {:induction false} Locate(rs: seq<Record>, cut: nat) returns (j: nat)
    requires cut <= LogSize(rs)
    ensures j <= |rs| && LogSize(rs[..j]) <= cut
    ensures j == |rs| ==> cut == LogSize(rs)
    ensures j < |rs| ==> cut < LogSize(rs[..j]) + RecordSize(rs[j])
  {
    if cut == LogSize(rs) {
      j := |rs|;
      assert rs[..j] == rs;
    } else {
      var init := rs[..|rs| - 1];
      if LogSize(init) <= cut {
        j := |rs| - 1;
      } else {
        j := Locate(init, cut);
        assert init[..j] == rs[..j];
      }
    }
  }

  lemma {:induction false} SizeMonotone(rs: seq<Record>, i: nat, j: nat)
    requires i < j <= |rs|
    ensures LogSize(rs[..i]) + RecordSize(rs[i]) <= LogSize(rs[..j]) <= LogSize(rs)
    decreases |rs| - i
  {
    assert rs[..i + 1][..i] == rs[..i];
    if i + 1 < j { SizeMonotone(rs, i + 1, j); }
    if j < |rs| { SizeMonotone(rs, j, |rs|); }
    assert rs[..|rs|] == rs;
  }

  /** A cut file is whole records followed by a proper prefix of the next one. */
  lemma CutFile(f: Format, rs: seq<Record>, cut: nat, j: nat)
    requires Lawful(f)
    requires cut <= |LogBytes(f, rs)| && j < |rs|
    requires LogSize(rs[..j]) <= cut < LogSize(rs[..j]) + RecordSize(rs[j])
    ensures LogBytes(f, rs[..j]) <= LogBytes(f, rs)[..cut]
    ensures LogBytes(f, rs)[..cut][LogSize(rs[..j])..] < f.enc(rs[j])
  {
    BytesLength(f, rs[..j]);
    SplitAt(f, rs, j);
    CutBytes(LogBytes(f, rs[..j]), f.enc(rs[j]), LogBytes(f, rs), cut);
  }

  lemma CutBytes(before: Bytes, next: Bytes, log: Bytes, cut: nat)
    requires before + next <= log && |before| <= cut < |before| + |next|
    ensures before <= log[..cut] && log[..cut][|before|..] < next
  {
    assert log[..cut] == (before + next)[..cut];
    assert log[..cut][|before|..] == next[..cut - |before|];
  }

  lemma ReplayHead(f: Format, rs: seq<Record>, file: Bytes)
    requires Lawful(f)
    requires AllFit(rs) && LogBytes(f, rs) <= file
    ensures LogSize(rs) <= |file|
    ensures Replay(f, file, 0, EMPTY) == Replay(f, file, LogSize(rs), IndexOf(rs))
  {
    LogReadsThroughout(f, rs, file);
    ReplaySkips(f, rs, file, |rs|);
    assert rs[..|rs|] == rs;
  }

  /** The outcome of replaying the first `cut` bytes of a log of written records. */
  lemma ReplayCut(f: Format, rs: seq<Record>, cut: nat) returns (j: nat)
    requires Lawful(f)
    requires AllFit(rs)
    requires cut <= LogSize(rs) == |LogBytes(f, rs)|
    ensures j <= |rs| && LogSize(rs[..j]) <= cut
    ensures j < |rs| ==> cut < LogSize(rs[..j]) + RecordSize(rs[j])
    ensures var result := Replay(f, LogBytes(f, rs)[..cut], 0, EMPTY);
            if LogSize(rs[..j]) == cut then result == Replayed(IndexOf(rs[..j]))
            else result.ReplayError? && result.offset == LogSize(rs[..j])
  {
    j := Locate(rs, cut);
    ReplayCutAt(f, rs, cut, j);
  }

  lemma ReplayCutAt(f: Format, rs: seq<Record>, cut: nat, j: nat)
    requires Lawful(f)
    requires AllFit(rs) && j <= |rs| && LogSize(rs[..j]) <= cut <= LogSize(rs) == |LogBytes(f, rs)|
    requires j < |rs| ==> cut < LogSize(rs[..j]) + RecordSize(rs[j])
    ensures var result := Replay(f, LogBytes(f, rs)[..cut], 0, EMPTY);
            if LogSize(rs[..j]) == cut then result == Replayed(IndexOf(rs[..j]))
            else result.ReplayError? && result.offset == LogSize(rs[..j])
  {
    CutTail(f, rs, cut, j);
    ReplayOfHead(f, rs[..j], LogBytes(f, rs)[..cut]);
  }

  /** Replaying a file that starts with whole records and goes on with something that does not read. */
  lemma ReplayOfHead(f: Format, head: seq<Record>, file: Bytes)
    requires Lawful(f) && AllFit(head) && LogBytes(f, head) <= file && LogSize(head) <= |file|
    requires !f.dec(file[LogSize(head)..]).Read?
    ensures var d := f.dec(file[LogSize(head)..]);
            Replay(f, file, 0, EMPTY) == if d.EndOfFile? then Replayed(IndexOf(head)) else ReplayError(LogSize(head), d)
  {
    ReplayHead(f, head, file);
    ReplayStops(f, file, LogSize(head), IndexOf(head));
  }

  /** What is left behind the whole records of a cut file never reads as a record. */
  lemma CutTail(f: Format, rs: seq<Record>, cut: nat, j: nat)
    requires Lawful(f)
    requires AllFit(rs) && j <= |rs| && LogSize(rs[..j]) <= cut <= LogSize(rs) == |LogBytes(f, rs)|
    requires j < |rs| ==> cut < LogSize(rs[..j]) + RecordSize(rs[j])
    ensures LogBytes(f, rs[..j]) <= LogBytes(f, rs)[..cut]
    ensures var d := f.dec(LogBytes(f, rs)[..cut][LogSize(rs[..j])..]);
            !d.Read? && (d.EndOfFile? <==> LogSize(rs[..j]) == cut)
  {
    if j < |rs| {
      CutFile(f, rs, cut, j);
    } else {
      assert rs[..j] == rs;
    }
  }

  /**
   * Torn logs are never misread: a cut log replays iff the cut is on a record boundary,
   * and then gives the index after exactly that many records.
   */
  lemma TornLog(f: Format, rs: seq<Record>, cut: nat)
    requires Lawful(f)
    requires AllFit(rs)
    requires cut <= |LogBytes(f, rs)|
    ensures Replay(f, LogBytes(f, rs)[..cut], 0, EMPTY).Replayed?
            <==> exists j :: 0 <= j <= |rs| && LogSize(rs[..j]) == cut
    ensures forall j :: 0 <= j <= |rs| && LogSize(rs[..j]) == cut ==>
              Replay(f, LogBytes(f, rs)[..cut], 0, EMPTY) == Replayed(IndexOf(rs[..j]))
  {
    BytesLength(f, rs);
    var j0 := ReplayCut(f, rs, cut);
    forall j | 0 <= j <= |rs| && LogSize(rs[..j]) == cut
      ensures j == j0
    {
      if j < j0 { SizeMonotone(rs, j, j0); }
      if j0 < j { SizeMonotone(rs, j0, j); }
    }
  }

  /** Replaying a whole log rebuilds the index of its records, counters included. */
  lemma ReplayWhole(f: Format, rs: seq<Record>)
    requires Lawful(f)
    requires AllFit(rs)
    ensures Replay(f, LogBytes(f, rs), 0, EMPTY) == Replayed(IndexOf(rs))
  {
    BytesLength(f, rs);
    TornLog(f, rs, LogSize(rs));
    assert rs[..|rs|] == rs;
    assert LogBytes(f, rs)[..LogSize(rs)] == LogBytes(f, rs);
  }

  // ----------------------------------------------------------------- meaning

  datatype Versioned = Versioned(value: Bytes, timestamp: int64)

  /** The plain map a log stands for. */
  function Contents(rs: seq<Record>): map<Bytes, Versioned> {
    if rs == [] then map[]
    else
      var r := rs[|rs| - 1];
      var before := Contents(rs[..|rs| - 1]);
      if r.deleted then before - {r.key} else before[r.key := Versioned(r.value, r.timestamp)]
  }

  /** The position of the last record of a key that the log maps to a value. */
  function LastPut(rs: seq<Record>, key: Bytes): (i: nat)
    requires key in Contents(rs)
    ensures i < |rs| && rs[i].key == key && !rs[i].deleted
    ensures Contents(rs)[key] == Versioned(rs[i].value, rs[i].timestamp)
  {
    if rs[|rs| - 1].key == key then |rs| - 1 else LastPut(rs[..|rs| - 1], key)
  }

  /** The index maps a live key to the position of the record that holds its value, and nothing else is live. */
  lemma {:induction false} IndexLocates(rs: seq<Record>, key: Bytes)
    ensures key in Contents(rs) <==> key in IndexOf(rs).entries && !IndexOf(rs).entries[key].deleted
    ensures key in Contents(rs) ==>
              var i := LastPut(rs, key);
              IndexOf(rs).entries[key] == IndexEntry(LogSize(rs[..i]), ToInt32(|rs[i].value|), rs[i].timestamp, false)
  {
    if rs == [] {
    } else {
      var init, r := rs[..|rs| - 1], rs[|rs| - 1];
      IndexLocates(init, key);
      if key != r.key && key in Contents(rs) {
        var i := LastPut(init, key);
        assert init[..i] == rs[..i];
      }
    }
  }

  /** One more record at the end of a log. */
  lemma OneMoreRecord(f: Format, rs: seq<Record>, r: Record)
    ensures LogBytes(f, rs + [r]) == LogBytes(f, rs) + f.enc(r) && LogSize(rs + [r]) == LogSize(rs) + RecordSize(r)
    ensures IndexOf(rs + [r]) == ApplyRecord(IndexOf(rs), r, LogSize(rs))
    ensures Contents(rs + [r]) == if r.deleted then Contents(rs) - {r.key} else Contents(rs)[r.key := Versioned(r.value, r.timestamp)]
  {
    assert (rs + [r])[..|rs|] == rs;
  }

  lemma LiveKeysAreContents(rs: seq<Record>)
    ensures LiveKeys(IndexOf(rs)) == Contents(rs).Keys
  {
    forall k
      ensures k in LiveKeys(IndexOf(rs)) <==> k in Contents(rs).Keys
    {
      IndexLocates(rs, k);
    }
  }

  /** Reading at the indexed position returns the key's current value and timestamp. */
  lemma ReadAtIndex(f: Format, rs: seq<Record>, key: Bytes)
    requires Lawful(f)
    requires AllFit(rs)
    requires key in Contents(rs)
    ensures key in IndexOf(rs).entries && !IndexOf(rs).entries[key].deleted
    ensures IndexOf(rs).entries[key].offset <= |LogBytes(f, rs)|
    ensures var r := rs[LastPut(rs, key)];
            && r == Record(key, Contents(rs)[key].value, Contents(rs)[key].timestamp, false)
            && f.dec(LogBytes(f, rs)[IndexOf(rs).entries[key].offset..]) == Read(r, ToInt32(|r.value|), RecordSize(r))
  {
    IndexLocates(rs, key);
    var i := LastPut(rs, key);
    LogReadsAt(f, rs, LogBytes(f, rs), i);
  }
}
