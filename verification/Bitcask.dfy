/** The storage engine object: each method performs exactly one `Engine.Step`. */
module Bitcask {
  import opened Codec
  import opened Index
  import opened Log
  import opened Sequences
  import E = Engine

  datatype Opened = Opened(store: Bitcask) | OpenFailed(offset: nat)

  /** Reading the file record by record into a fresh index. */
  method RebuildIndex(f: Format, file: Bytes) returns (ok: bool, index: KeyIndex, offset: nat)
    ensures fresh(index)
    ensures match Replay(f, file, 0, EMPTY)
            case Replayed(s) => ok && index.State() == s
            case ReplayError(at, _) => !ok && offset == at
  {
    index := new KeyIndex();
    offset := 0;
    while true
      invariant offset <= |file|
      invariant fresh(index)
      invariant Replay(f, file, offset, index.State()) == Replay(f, file, 0, EMPTY)
      decreases |file| - offset
    {
      var read := f.dec(file[offset..]);
      if read.EndOfFile? {
        return true, index, offset;
      }
      if !read.Read? {
        return false, index, offset;
      }
      if read.record.deleted {
        var _ := index.Delete(read.record.key, read.record.timestamp);
      } else {
        index.Put(read.record.key, offset, read.size, read.record.timestamp);
      }
      offset := offset + read.bytesRead;
    }
  }

  /** Opening a data file; an unreadable file is not opened. */
  method NewBitcask(crc: Checksum, syncWrite: bool, file: Bytes) returns (r: Opened)
    ensures match Replay(FileFormat(crc), file, 0, EMPTY)
            case Replayed(s) =>
              && r.Opened? && fresh(r.store) && fresh(r.store.index)
              && r.store.crc == crc && r.store.syncWrite == syncWrite
              && r.store.State() == E.Engine(file, [], s, |file|, false)
            case ReplayError(at, _) => r == OpenFailed(at)
  {
    var index := new KeyIndex();
    if |file| > 0 {
      var ok, rebuilt, at := RebuildIndex(FileFormat(crc), file);
      if !ok {
        return OpenFailed(at);
      }
      index := rebuilt;
    }
    var store := new Bitcask(crc, syncWrite, file, index);
    return Opened(store);
  }

  /** What is in the temporary file and the new index once the keys of `order` are copied. */
  ghost predicate CopiedSoFar(f: Format, file: Bytes, s: IndexState, order: seq<Bytes>, bytes: Bytes, index: IndexState, position: nat) {
    && E.CopyRecords(f, file, s.entries, order).Records?
    && var rs := E.CopyRecords(f, file, s.entries, order).records;
       bytes == LogBytes(f, rs) && index == IndexOf(rs) && position == LogSize(rs)
  }

  lemma CopyOneMore(f: Format, file: Bytes, s: IndexState, order: seq<Bytes>, bytes: Bytes, index: IndexState, position: nat,
                    key: Bytes, r: Record)
    requires CopiedSoFar(f, file, s, order, bytes, index, position)
    requires key in s.entries && E.ReadAt(f, file, s.entries[key].offset).Read?
    requires var read := E.ReadAt(f, file, s.entries[key].offset).record;
             r == Record(key, read.value, read.timestamp, false)
    ensures CopiedSoFar(f, file, s, order + [key], bytes + f.enc(r), ApplyRecord(index, r, position), position + RecordSize(r))
  {
    assert (order + [key])[..|order|] == order;
    var rs := E.CopyRecords(f, file, s.entries, order).records;
    assert (rs + [r])[..|rs|] == rs;
  }

  /** Taking `key` off the keys still to visit. */
  lemma VisitOne(order: seq<Bytes>, live: set<Bytes>, rest: set<Bytes>, key: Bytes)
    requires E.Lists(order, live - rest) && key in rest
    ensures key !in live ==> E.Lists(order, live - (rest - {key}))
    ensures key in live ==> E.Lists(order + [key], live - (rest - {key}))
  {
    if key in live {
      AppendNew(order, key);
      VisitedMore(live, rest, key);
    } else {
      VisitedSame(live, rest, key);
    }
  }

  lemma VisitedMore(live: set<Bytes>, rest: set<Bytes>, key: Bytes)
    requires key in live && key in rest
    ensures live - (rest - {key}) == (live - rest) + {key}
  {
  }

  lemma VisitedSame(live: set<Bytes>, rest: set<Bytes>, key: Bytes)
    requires key !in live
    ensures live - (rest - {key}) == live - rest
  {
  }

  /** Copies the live records in whatever order the map yields them. */
  method CopyLive(f: Format, file: Bytes, index: KeyIndex)
    returns (ok: bool, bytes: Bytes, newIndex: KeyIndex, newPosition: nat, ghost order: seq<Bytes>)
    ensures fresh(newIndex)
    ensures ok ==> E.Lists(order, LiveKeys(index.State()))
    ensures ok ==> CopiedSoFar(f, file, index.State(), order, bytes, newIndex.State(), newPosition)
    ensures !ok ==> exists k | k in LiveKeys(index.State()) :: !E.ReadAt(f, file, index.entries[k].offset).Read?
  {
    ghost var s := index.State();
    var all := index.entries;
    var rest := all.Keys;
    bytes, newPosition, order := [], 0, [];
    newIndex := new KeyIndex();
    while rest != {}
      invariant fresh(newIndex)
      invariant rest <= all.Keys
      invariant E.Lists(order, LiveKeys(s) - rest)
      invariant CopiedSoFar(f, file, s, order, bytes, newIndex.State(), newPosition)
    {
      var key :| key in rest;
      VisitOne(order, LiveKeys(s), rest, key);
      rest := rest - {key};
      var entry := all[key];
      if !entry.deleted {
        var read := E.ReadAt(f, file, entry.offset);
        if !read.Read? {
          assert key in LiveKeys(s);
          return false, bytes, newIndex, newPosition, order;
        }
        var r := Record(key, read.record.value, read.record.timestamp, false);
        CopyOneMore(f, file, s, order, bytes, newIndex.State(), newPosition, key, r);
        order := order + [key];
        bytes := bytes + f.enc(r);
        newIndex.Put(key, newPosition, ToInt32(|r.value|), r.timestamp);
        newPosition := newPosition + RecordSize(r);
      }
    }
    assert LiveKeys(s) - rest == LiveKeys(s);
    ok := true;
  }

  lemma StoppedIsStep(f: Format, sync: bool, s: E.Engine)
    requires !s.closed
    requires exists k | k in LiveKeys(s.index) :: !E.ReadAt(f, s.AllBytes(), s.index.entries[k].offset).Read?
    ensures E.Step(f, sync, s, E.Compact, s.Flushed(), E.Failed(E.ReadFailed))
  {
  }

  lemma SwappedIsStep(f: Format, sync: bool, s: E.Engine, order: seq<Bytes>, s': E.Engine)
    requires !s.closed && s'.buffer == [] && !s'.closed
    requires E.Lists(order, LiveKeys(s.index))
    requires CopiedSoFar(f, s.AllBytes(), s.index, order, s'.disk, s'.index, s'.position)
    ensures E.Step(f, sync, s, E.Compact, s', E.Done)
  {
    assert E.CompactedAs(f, s, order, s');
  }

  class Bitcask {
    const crc: Checksum
    const syncWrite: bool
    var disk: Bytes
    var buffer: Bytes
    var index: KeyIndex
    var position: nat
    var closed: bool

    function State(): E.Engine
      reads this, index
    {
      E.Engine(disk, buffer, index.State(), position, closed)
    }

    constructor (crc: Checksum, syncWrite: bool, file: Bytes, index: KeyIndex)
      ensures this.crc == crc && this.syncWrite == syncWrite && this.index == index
      ensures disk == file && buffer == [] && position == |file| && !closed
    {
      this.crc, this.syncWrite, this.index := crc, syncWrite, index;
      disk, buffer, position, closed := file, [], |file|, false;
    }

    /** The buffered writer: bytes join the buffer and any part of it may move on to the file. */
    method Write(bytes: Bytes)
      modifies `disk, `buffer
      ensures disk + buffer == old(disk + buffer) + bytes
      ensures old(disk) <= disk
    {
      buffer := buffer + bytes;
      var spill :| 0 <= spill <= |buffer|;
      disk, buffer := disk + buffer[..spill], buffer[spill..];
    }

    method Flush()
      modifies `disk, `buffer
      ensures disk == old(disk + buffer) && buffer == []
    {
      disk, buffer := disk + buffer, [];
    }

    /** Appends one record and returns where it starts. */
    method WriteEntry(key: Bytes, value: Bytes, timestamp: int64, deleted: bool) returns (offset: nat)
      modifies `disk, `buffer, `position
      ensures offset == old(position)
      ensures disk + buffer == old(disk + buffer) + Encode(crc, Record(key, value, timestamp, deleted))
      ensures old(disk) <= disk
      ensures syncWrite ==> buffer == []
      ensures position == old(position) + RecordSize(Record(key, value, timestamp, deleted))
    {
      var header := BuildHeader(crc, key, value, timestamp, deleted);
      offset := position;
      Write(header[..]);
      Write(key);
      Write(value);
      assert old(disk + buffer) + (header[..] + key + value) == old(disk + buffer) + header[..] + key + value;
      position := position + header.Length + |key| + |value|;
      if syncWrite {
        Flush();
      }
    }

    method Put(key: Bytes, value: Bytes, timestamp: int64) returns (reply: E.Reply)
      modifies this, index
      ensures index == old(index)
      ensures E.Step(FileFormat(crc), syncWrite, old(State()), E.Put(key, value, timestamp), State(), reply)
    {
      if closed {
        return E.Failed(E.StorageClosed);
      }
      var offset := WriteEntry(key, value, timestamp, false);
      index.Put(key, offset, ToInt32(|value|), timestamp);
      return E.Done;
    }

    method Delete(key: Bytes, timestamp: int64) returns (reply: E.Reply)
      modifies this, index
      ensures index == old(index)
      ensures E.Step(FileFormat(crc), syncWrite, old(State()), E.Delete(key, timestamp), State(), reply)
    {
      if closed {
        return E.Failed(E.StorageClosed);
      }
      var _ := WriteEntry(key, [], timestamp, true);
      var _ := index.Delete(key, timestamp);
      return E.Done;
    }

    method Get(key: Bytes) returns (reply: E.Reply)
      modifies `disk, `buffer
      ensures E.Step(FileFormat(crc), syncWrite, old(State()), E.Get(key), State(), reply)
    {
      if closed {
        return E.Failed(E.StorageClosed);
      }
      var found, entry := index.Get(key);
      if !found {
        return E.Failed(E.KeyNotFound);
      }
      if entry.deleted {
        return E.Failed(E.KeyDeleted);
      }
      Flush();
      var read := E.ReadAt(FileFormat(crc), disk, entry.offset);
      if !read.Read? {
        return E.Failed(E.ReadFailed);
      }
      return E.Found(read.record.value, read.record.timestamp);
    }

    method Has(key: Bytes) returns (reply: E.Reply)
      ensures E.Step(FileFormat(crc), syncWrite, State(), E.Has(key), State(), reply)
    {
      if closed {
        return E.Answer(false);
      }
      var live := index.Has(key);
      return E.Answer(live);
    }

    /** The live keys in some order; a closed store has none, and a negative active counter makes the listing fail. */
    method Keys() returns (r: KeysResult)
      ensures r.NegativeCapacity? <==> !closed && State().index.active < 0
      ensures r.Keys? ==> multiset(r.keys) == if closed then multiset{} else multiset(LiveKeys(State().index))
    {
      if closed {
        return KeysResult.Keys([]);
      }
      r := index.ListKeys();
    }

    method Sync() returns (reply: E.Reply)
      modifies `disk, `buffer
      ensures E.Step(FileFormat(crc), syncWrite, old(State()), E.Sync, State(), reply)
    {
      if closed {
        return E.Failed(E.StorageClosed);
      }
      Flush();
      return E.Done;
    }

    method Close() returns (reply: E.Reply)
      modifies this
      ensures index == old(index)
      ensures E.Step(FileFormat(crc), syncWrite, old(State()), E.Close, State(), reply)
    {
      if !closed {
        closed := true;
        Flush();
      }
      return E.Done;
    }

    /** Copies the live records to a new file and swaps the files. */
    method Compact() returns (reply: E.Reply)
      modifies this
      ensures index == old(index) || fresh(index)
      ensures E.Step(FileFormat(crc), syncWrite, old(State()), E.Compact, State(), reply)
    {
      reply := CompactFormat(FileFormat(crc));
    }

    method CompactFormat(f: Format) returns (reply: E.Reply)
      modifies this
      ensures index == old(index) || fresh(index)
      ensures E.Step(f, syncWrite, old(State()), E.Compact, State(), reply)
    {
      if closed {
        return E.Failed(E.StorageClosed);
      }
      ghost var start := State();
      Flush();
      var ok, bytes, newIndex, newPosition, order := CopyLive(f, disk, index);
      if !ok {
        StoppedIsStep(f, syncWrite, start);
        return E.Failed(E.ReadFailed);
      }
      disk, buffer, index, position := bytes, [], newIndex, newPosition;
      SwappedIsStep(f, syncWrite, start, order, State());
      return E.Done;
    }
  }
}
