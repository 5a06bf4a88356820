/** The record format of the append-only data file: a 21-byte big-endian header, the key, the value. */
module Codec {
  type byte = b: int | 0 <= b < 0x100
  type uint32 = n: int | 0 <= n < 0x1_0000_0000
  type uint64 = n: int | 0 <= n < 0x1_0000_0000_0000_0000

  /** How many uint64 values there are. */
  const SPACE := 0x1_0000_0000_0000_0000

  type int32 = n: int | -0x8000_0000 <= n < 0x8000_0000
  type int64 = n: int | -0x8000_0000_0000_0000 <= n < 0x8000_0000_0000_0000

  type Bytes = seq<byte>
  /** The checksum is any function of the bytes it covers. */
  type Checksum = Bytes -> uint32

  const HEADER_SIZE := 21

  /** One logical record of the log; a tombstone has `deleted` set. */
  datatype Record = Record(key: Bytes, value: Bytes, timestamp: int64, deleted: bool)

  // ---------------------------------------------------------------- integers

  function ToUint64(n: int64): uint64 { if n < 0 then n + 0x1_0000_0000_0000_0000 else n }

  function ToInt64(n: uint64): int64 { if n < 0x8000_0000_0000_0000 then n else n - 0x1_0000_0000_0000_0000 }

  /** Go's conversion to uint32 keeps the low 32 bits. */
  function ToUint32(n: nat): uint32 { n % 0x1_0000_0000 }

  /** Go's conversion to int32 keeps the low 32 bits and reads them as two's complement. */
  function ToInt32(n: nat): int32 {
    var low := n % 0x1_0000_0000;
    if low < 0x8000_0000 then low else low - 0x1_0000_0000
  }

  /** Big-endian bytes of a 32-bit number. */
  function Put32(n: uint32): (b: Bytes)
    ensures |b| == 4
  {
    [n / 0x100_0000, n / 0x1_0000 % 0x100, n / 0x100 % 0x100, n % 0x100]
  }

  /** The 32-bit number stored in `b[at..at+4]`. */
  function Get32(b: Bytes, at: nat): uint32
    requires at + 4 <= |b|
  {
    var b0: int, b1: int, b2: int, b3: int := b[at], b[at + 1], b[at + 2], b[at + 3];
    b0 * 0x100_0000 + b1 * 0x1_0000 + b2 * 0x100 + b3
  }

  function High32(n: uint64): uint32 { n / 0x1_0000_0000 }

  function Get64(b: Bytes, at: nat): uint64
    requires at + 8 <= |b|
  {
    Get32(b, at) * 0x1_0000_0000 + Get32(b, at + 4)
  }

  /** A number stored anywhere reads back. */
  lemma StoredAt32(n: uint32, b: Bytes, at: nat)
    requires at + 4 <= |b|
    requires forall i :: 0 <= i < 4 ==> b[at + i] == Put32(n)[i]
    ensures Get32(b, at) == n
  {
    var p := Put32(n);
    assert b[at] == b[at + 0] == p[0] && b[at + 1] == p[1] && b[at + 2] == p[2] && b[at + 3] == p[3];
    var x, y, z := n / 0x100, n / 0x1_0000, n / 0x100_0000;
    assert y == x / 0x100 && z == y / 0x100;
  }

  // ----------------------------------------------------------------- records

  /** The checksummed part of a header: everything after the checksum itself. */
  function HeaderTail(keyLen: uint32, valueLen: uint32, timestamp: int64, deleted: bool): (b: Bytes)
    ensures |b| == 17
  {
    var stamp := ToUint64(timestamp);
    var h, l, k, v := Put32(High32(stamp)), Put32(ToUint32(stamp)), Put32(keyLen), Put32(valueLen);
    [h[0], h[1], h[2], h[3], l[0], l[1], l[2], l[3], k[0], k[1], k[2], k[3], v[0], v[1], v[2], v[3],
     if deleted then 1 else 0]
  }

  /** The bytes written for a record; lengths are truncated to 32 bits. */
  function Payload(r: Record): Bytes {
    HeaderTail(ToUint32(|r.key|), ToUint32(|r.value|), r.timestamp, r.deleted) + r.key + r.value
  }

  function Encode(crc: Checksum, r: Record): (b: Bytes)
    ensures |b| == RecordSize(r)
  {
    Put32(crc(Payload(r))) + Payload(r)
  }

  function RecordSize(r: Record): nat { HEADER_SIZE + |r.key| + |r.value| }

  /** Both lengths survive the 32-bit length fields. */
  predicate FitsHeader(r: Record) {
    |r.key| < 0x1_0000_0000 && |r.value| < 0x1_0000_0000
  }

  /** `EndOfFile` is the bare io.EOF; every other failure is an error for the caller. */
  datatype ReadResult =
    | EndOfFile
    | TornHeader
    | TornKey
    | TornValue
    | Corrupt
    | Read(record: Record, size: int32, bytesRead: nat)

  /** Reading one record from the front of the remaining bytes. */
  function Decode(crc: Checksum, b: Bytes): ReadResult {
    if |b| == 0 then EndOfFile
    else if |b| < HEADER_SIZE then TornHeader
    else
      var keyLen := Get32(b, 12);
      var valueLen := Get32(b, 16);
      var keyEnd := HEADER_SIZE + keyLen;
      var end := keyEnd + valueLen;
      if |b| < keyEnd then TornKey
      else if |b| < end then TornValue
      else if Get32(b, 0) != crc(b[4..HEADER_SIZE] + b[HEADER_SIZE..keyEnd] + b[keyEnd..end]) then Corrupt
      else
        Read(Record(b[HEADER_SIZE..keyEnd], b[keyEnd..end], ToInt64(Get64(b, 4)), b[20] == 1),
             ToInt32(valueLen), end)
  }

  /** The header fields of bytes that start like an encoded record. */
  lemma HeaderFields(crc: Checksum, r: Record, b: Bytes)
    requires HEADER_SIZE <= |b|
    requires forall i :: 0 <= i < HEADER_SIZE ==> b[i] == Encode(crc, r)[i]
    ensures Get32(b, 0) == crc(Payload(r))
    ensures ToInt64(Get64(b, 4)) == r.timestamp
    ensures Get32(b, 12) == ToUint32(|r.key|)
    ensures Get32(b, 16) == ToUint32(|r.value|)
    ensures (b[20] == 1) == r.deleted
  {
    var stamp := ToUint64(r.timestamp);
    StoredAt32(crc(Payload(r)), b, 0);
    StoredAt32(High32(stamp), b, 4);
    StoredAt32(ToUint32(stamp), b, 8);
    StoredAt32(ToUint32(|r.key|), b, 12);
    StoredAt32(ToUint32(|r.value|), b, 16);
  }

  lemma DecodeTiny(crc: Checksum, b: Bytes)
    requires |b| < HEADER_SIZE
    ensures Decode(crc, b) == if |b| == 0 then EndOfFile else TornHeader
  {
  }

  /** A known header whose key or value is cut short. */
  lemma DecodeShort(crc: Checksum, b: Bytes, keyLen: uint32, valueLen: uint32)
    requires HEADER_SIZE <= |b| < HEADER_SIZE + keyLen + valueLen
    requires Get32(b, 12) == keyLen && Get32(b, 16) == valueLen
    ensures Decode(crc, b) == if |b| < HEADER_SIZE + keyLen then TornKey else TornValue
  {
  }

  /** The parts of an encoded record that something follows. */
  lemma EncodedParts(crc: Checksum, r: Record, b: Bytes)
    requires Encode(crc, r) <= b
    ensures RecordSize(r) <= |b|
    ensures b[4..HEADER_SIZE] + r.key + r.value == Payload(r)
    ensures b[HEADER_SIZE..HEADER_SIZE + |r.key|] == r.key
    ensures b[HEADER_SIZE + |r.key|..RecordSize(r)] == r.value
  {
  }

  lemma EncodedFields(crc: Checksum, r: Record, b: Bytes)
    requires Encode(crc, r) <= b
    ensures Get32(b, 0) == crc(Payload(r))
    ensures ToInt64(Get64(b, 4)) == r.timestamp
    ensures Get32(b, 12) == ToUint32(|r.key|)
    ensures Get32(b, 16) == ToUint32(|r.value|)
    ensures (b[20] == 1) == r.deleted
  {
    HeaderFields(crc, r, b);
  }

  /** What reading gives, from the lengths and the checksum in the header. */
  lemma DecodesTo(crc: Checksum, b: Bytes, key: Bytes, value: Bytes)
    requires HEADER_SIZE + |key| + |value| <= |b|
    requires Get32(b, 12) == |key| && Get32(b, 16) == |value|
    requires b[HEADER_SIZE..HEADER_SIZE + |key|] == key && b[HEADER_SIZE + |key|..HEADER_SIZE + |key| + |value|] == value
    requires Get32(b, 0) == crc(b[4..HEADER_SIZE] + key + value)
    ensures Decode(crc, b) ==
            Read(Record(key, value, ToInt64(Get64(b, 4)), b[20] == 1), ToInt32(|value|), HEADER_SIZE + |key| + |value|)
  {
  }

  lemma LengthsFit(r: Record)
    requires FitsHeader(r)
    ensures ToUint32(|r.key|) == |r.key| && ToUint32(|r.value|) == |r.value|
  {
  }

  /** Bytes that start with a written record read back as that record, consuming exactly what was written. */
  lemma ReadBack(crc: Checksum, r: Record, b: Bytes)
    requires FitsHeader(r)
    requires Encode(crc, r) <= b
    ensures Decode(crc, b) == Read(r, ToInt32(|r.value|), RecordSize(r))
  {
    LengthsFit(r);
    EncodedFields(crc, r, b);
    EncodedParts(crc, r, b);
    DecodesTo(crc, b, r.key, r.value);
  }

  lemma RoundTrip(crc: Checksum, r: Record, rest: Bytes)
    requires FitsHeader(r)
    ensures Decode(crc, Encode(crc, r) + rest) == Read(r, ToInt32(|r.value|), RecordSize(r))
  {
    ReadBack(crc, r, Encode(crc, r) + rest);
  }

  lemma Truncates(n: nat)
    ensures ToUint32(n) <= n
    ensures 0x1_0000_0000 <= n ==> ToUint32(n) < n
  {
  }

  lemma DecodeLength(crc: Checksum, b: Bytes, keyLen: uint32, valueLen: uint32)
    requires HEADER_SIZE <= |b|
    requires Get32(b, 12) == keyLen && Get32(b, 16) == valueLen
    ensures Decode(crc, b).Read? ==> Decode(crc, b).bytesRead == HEADER_SIZE + keyLen + valueLen
  {
  }

  /** Lengths that do not fit the header make the reader stop short of the record's end. */
  lemma TruncatedLengths(crc: Checksum, r: Record)
    requires !FitsHeader(r)
    ensures var d := Decode(crc, Encode(crc, r)); d.Read? ==> d.bytesRead < RecordSize(r)
  {
    EncodedFields(crc, r, Encode(crc, r));
    Truncates(|r.key|);
    Truncates(|r.value|);
    DecodeLength(crc, Encode(crc, r), ToUint32(|r.key|), ToUint32(|r.value|));
  }

  /** The codec is faithful exactly for the records whose lengths fit the header. */
  lemma RoundTripExactly(crc: Checksum, r: Record)
    ensures (forall rest: Bytes :: Decode(crc, Encode(crc, r) + rest) == Read(r, ToInt32(|r.value|), RecordSize(r)))
            <==> FitsHeader(r)
  {
    if FitsHeader(r) {
      forall rest: Bytes
        ensures Decode(crc, Encode(crc, r) + rest) == Read(r, ToInt32(|r.value|), RecordSize(r))
      {
        RoundTrip(crc, r, rest);
      }
    } else {
      TruncatedLengths(crc, r);
      assert Encode(crc, r) + [] == Encode(crc, r);
    }
  }

  lemma TornFields(crc: Checksum, r: Record, b: Bytes)
    requires HEADER_SIZE <= |b| && b <= Encode(crc, r)
    ensures Get32(b, 12) == ToUint32(|r.key|)
    ensures Get32(b, 16) == ToUint32(|r.value|)
  {
    HeaderFields(crc, r, b);
  }

  /** A proper prefix of a written record never reads as a record; only the empty one is a clean end of file. */
  lemma TornRecord(crc: Checksum, r: Record, b: Bytes)
    requires FitsHeader(r)
    requires b < Encode(crc, r)
    ensures Decode(crc, b) ==
            if |b| == 0 then EndOfFile
            else if |b| < HEADER_SIZE then TornHeader
            else if |b| < HEADER_SIZE + |r.key| then TornKey
            else TornValue
  {
    assert |b| < RecordSize(r);
    if |b| < HEADER_SIZE {
      DecodeTiny(crc, b);
    } else {
      TornFields(crc, r, b);
      LengthsFit(r);
      DecodeShort(crc, b, |r.key|, |r.value|);
    }
  }

  // ------------------------------------------------------- the bytes, one by one

  /** The number that bytes stand for, the most significant one first. */
  function Value(b: Bytes): nat {
    if b == [] then 0
    else
      var last: int := b[|b| - 1];
      0x100 * Value(b[..|b| - 1]) + last
  }

  lemma ValueSnoc(a: Bytes, x: byte)
    ensures Value(a + [x]) == 0x100 * Value(a) + x as int
  {
    assert (a + [x])[..|a|] == a;
  }

  lemma FourMore(a: Bytes, x: byte, y: byte, z: byte, w: byte)
    ensures Value(a + [x, y, z, w]) == 0x1_0000_0000 * Value(a) + 0x100_0000 * x as int + 0x1_0000 * y as int + 0x100 * z as int + w as int
  {
    ValueSnoc(a, x);
    ValueSnoc(a + [x], y);
    ValueSnoc(a + [x] + [y], z);
    ValueSnoc(a + [x] + [y] + [z], w);
    assert a + [x] + [y] + [z] + [w] == a + [x, y, z, w];
  }

  lemma FourBytes(b: Bytes)
    requires |b| == 4
    ensures Value(b) == Get32(b, 0)
  {
    FourMore([], b[0], b[1], b[2], b[3]);
    assert [] + [b[0], b[1], b[2], b[3]] == b;
  }

  lemma ValueConcat(a: Bytes, b: Bytes)
    requires |b| == 4
    ensures Value(a + b) == 0x1_0000_0000 * Value(a) + Value(b)
  {
    FourMore(a, b[0], b[1], b[2], b[3]);
    FourBytes(b);
    assert b == [b[0], b[1], b[2], b[3]];
  }

  /** Numbers are stored big-endian. */
  lemma BigEndian(b: Bytes, at: nat)
    requires at + 4 <= |b|
    ensures Value(b[at..at + 4]) == Get32(b, at)
    ensures at + 8 <= |b| ==> Value(b[at..at + 8]) == Get64(b, at)
  {
    FourBytes(b[at..at + 4]);
    if at + 8 <= |b| {
      assert b[at..at + 8] == b[at..at + 4] + b[at + 4..at + 8];
      ValueConcat(b[at..at + 4], b[at + 4..at + 8]);
      FourBytes(b[at + 4..at + 8]);
    }
  }

  /** The conversions keep the low bits; their types say the rest. */
  lemma ConversionsKeepBits(x: int64, u: uint64, n: nat)
    ensures (ToUint64(x) - x) % SPACE == 0 && (u - ToInt64(u)) % SPACE == 0
    ensures (n - ToUint32(n)) % 0x1_0000_0000 == 0 && (n - ToInt32(n)) % 0x1_0000_0000 == 0
  {
    Kept32(n);
  }

  lemma Kept32(n: nat)
    ensures (n - ToUint32(n)) % 0x1_0000_0000 == 0 && (n - ToInt32(n)) % 0x1_0000_0000 == 0
  {
    var q := n / 0x1_0000_0000;
    assert n - ToUint32(n) == 0x1_0000_0000 * q;
    Multiple32(q);
    Multiple32(q + 1);
    if n % 0x1_0000_0000 < 0x8000_0000 {
      assert n - ToInt32(n) == 0x1_0000_0000 * q;
    } else {
      assert n - ToInt32(n) == 0x1_0000_0000 * (q + 1);
    }
  }

  lemma Multiple32(q: int)
    ensures (0x1_0000_0000 * q) % 0x1_0000_0000 == 0
  {
  }

  /**
   * Where everything lies in a written record: the checksum over all that follows, timestamp, key
   * length, value length, the flag, the key and the value.
   */
  lemma Layout(crc: Checksum, r: Record)
    ensures var b := Encode(crc, r);
            && |b| == HEADER_SIZE + |r.key| + |r.value|
            && Value(b[0..4]) == crc(b[4..])
            && (Value(b[4..12]) - r.timestamp) % SPACE == 0
            && Value(b[12..16]) == |r.key| % 0x1_0000_0000
            && Value(b[16..20]) == |r.value| % 0x1_0000_0000
            && b[20] == (if r.deleted then 1 else 0)
            && b[21..] == r.key + r.value
  {
    var b := Encode(crc, r);
    EncodedFields(crc, r, b);
    LayoutOfFields(b);
    LayoutOfData(crc, r);
    HeaderFlag(crc, r);
  }

  lemma LayoutOfFields(b: Bytes)
    requires HEADER_SIZE <= |b|
    ensures Value(b[0..4]) == Get32(b, 0) && Value(b[12..16]) == Get32(b, 12) && Value(b[16..20]) == Get32(b, 16)
    ensures Value(b[4..12]) == Get64(b, 4) && (Value(b[4..12]) - ToInt64(Get64(b, 4))) % SPACE == 0
  {
    BigEndian(b, 0);
    BigEndian(b, 4);
    BigEndian(b, 12);
    BigEndian(b, 16);
    ConversionsKeepBits(0, Get64(b, 4), 0);
  }

  lemma LayoutOfData(crc: Checksum, r: Record)
    ensures Encode(crc, r)[4..] == Payload(r) && Encode(crc, r)[21..] == r.key + r.value
  {
  }

  lemma HeaderFlag(crc: Checksum, r: Record)
    ensures Encode(crc, r)[20] == if r.deleted then 1 else 0
  {
  }

  /** Where the record at the front of some bytes ends, by its length fields. */
  function EndOf(b: Bytes): nat
    requires HEADER_SIZE <= |b|
  {
    HEADER_SIZE + Value(b[12..16]) + Value(b[16..20])
  }

  /**
   * Bytes read as a record exactly when it is all there and the checksum is that of the bytes behind
   * it; a complete record with another checksum is refused. What is read is what lies in those bytes.
   */
  lemma ReadsExactly(crc: Checksum, b: Bytes)
    ensures var d := Decode(crc, b);
            && (d.Read? <==> HEADER_SIZE <= |b| && EndOf(b) <= |b| && Value(b[0..4]) == crc(b[4..EndOf(b)]))
            && (d.Corrupt? <==> HEADER_SIZE <= |b| && EndOf(b) <= |b| && Value(b[0..4]) != crc(b[4..EndOf(b)]))
            && (d.Read? ==>
                  && d.bytesRead == EndOf(b) && |d.record.key| == Value(b[12..16]) && |d.record.value| == Value(b[16..20])
                  && d.record.key + d.record.value == b[21..EndOf(b)]
                  && (Value(b[4..12]) - d.record.timestamp) % SPACE == 0
                  && (d.record.deleted <==> b[20] == 1)
                  && (|d.record.value| - d.size) % 0x1_0000_0000 == 0)
  {
    if HEADER_SIZE <= |b| {
      LayoutOfFields(b);
      if EndOf(b) <= |b| {
        var keyEnd := HEADER_SIZE + Value(b[12..16]);
        assert b[4..EndOf(b)] == b[4..HEADER_SIZE] + b[HEADER_SIZE..keyEnd] + b[keyEnd..EndOf(b)];
        assert b[21..EndOf(b)] == b[HEADER_SIZE..keyEnd] + b[keyEnd..EndOf(b)];
        Kept32(Value(b[16..20]));
      }
    }
  }

  /** A record damaged anywhere but in its length fields is refused exactly when the checksum tells. */
  lemma DamageIsRefused(crc: Checksum, r: Record, b: Bytes)
    requires FitsHeader(r) && RecordSize(r) <= |b| && b[12..20] == Encode(crc, r)[12..20]
    ensures EndOf(b) == RecordSize(r)
    ensures Decode(crc, b) == Corrupt <==> Value(b[0..4]) != crc(b[4..RecordSize(r)])
    ensures b[0..4] == Encode(crc, r)[0..4] ==> (Decode(crc, b) == Corrupt <==> crc(b[4..RecordSize(r)]) != crc(Payload(r)))
    ensures b[0..4] != Encode(crc, r)[0..4] && b[4..RecordSize(r)] == Payload(r) ==> Decode(crc, b) == Corrupt
  {
    var e := Encode(crc, r);
    Layout(crc, r);
    LengthsFit(r);
    assert b[12..16] == b[12..20][..4] == e[12..20][..4] == e[12..16];
    assert b[16..20] == b[12..20][4..] == e[12..20][4..] == e[16..20];
    ReadsExactly(crc, b);
    assert e[4..] == Payload(r);
    if Value(b[0..4]) == Value(e[0..4]) { ValueInjective(b[0..4], e[0..4]); }
  }

  lemma {:induction false} ValueInjective(a: Bytes, b: Bytes)
    requires |a| == |b| && Value(a) == Value(b)
    ensures a == b
  {
    if a == [] {
    } else {
      ValueInjective(a[..|a| - 1], b[..|b| - 1]);
      assert a == a[..|a| - 1] + [a[|a| - 1]] && b == b[..|b| - 1] + [b[|b| - 1]];
    }
  }

  // ------------------------------------------------- filling the header buffer

  /** Stores a big-endian 32-bit number into `a[at..at+4]` and touches nothing else. */
  method PutUint32(a: array<byte>, at: nat, n: uint32)
    requires at + 4 <= a.Length
    modifies a
    ensures a[at..at + 4] == Put32(n)
    ensures forall i :: 0 <= i < a.Length && !(at <= i < at + 4) ==> a[i] == old(a[i])
  {
    a[at], a[at + 1], a[at + 2], a[at + 3] := n / 0x100_0000, n / 0x1_0000 % 0x100, n / 0x100 % 0x100, n % 0x100;
  }

  /** Stores a big-endian 64-bit number into `a[at..at+8]` and touches nothing else. */
  method PutUint64(a: array<byte>, at: nat, n: uint64)
    requires at + 8 <= a.Length
    modifies a
    ensures a[at..at + 8] == Put32(High32(n)) + Put32(ToUint32(n)) && Value(a[at..at + 8]) == n
    ensures forall i :: 0 <= i < a.Length && !(at <= i < at + 8) ==> a[i] == old(a[i])
  {
    PutUint32(a, at, High32(n));
    ghost var high := a[at..at + 4];
    PutUint32(a, at + 4, ToUint32(n));
    assert a[at..at + 4] == high;
    assert a[at..at + 8] == a[at..at + 4] + a[at + 4..at + 8];
    StoredBigEndian(n);
  }

  lemma StoredBigEndian(n: uint64)
    ensures Value(Put32(High32(n)) + Put32(ToUint32(n))) == n
  {
    ValueConcat(Put32(High32(n)), Put32(ToUint32(n)));
    FourBytes(Put32(High32(n)));
    FourBytes(Put32(ToUint32(n)));
    StoredAt32(High32(n), Put32(High32(n)), 0);
    StoredAt32(ToUint32(n), Put32(ToUint32(n)), 0);
  }

  lemma TailBytes(tail: Bytes, stamp: uint64, keyLen: uint32, valueLen: uint32, flag: byte)
    requires tail == Put32(High32(stamp)) + Put32(ToUint32(stamp)) + Put32(keyLen) + Put32(valueLen) + [flag]
    requires flag < 2
    ensures tail == HeaderTail(keyLen, valueLen, ToInt64(stamp), flag == 1)
  {
  }

  /** Fills all of a zeroed header but the checksum. */
  method FillTail(header: array<byte>, keyLen: nat, valueLen: nat, timestamp: int64, deleted: bool)
    requires header.Length == HEADER_SIZE && header[20] == 0
    modifies header
    ensures header[4..] == HeaderTail(ToUint32(keyLen), ToUint32(valueLen), timestamp, deleted)
  {
    var stamp := ToUint64(timestamp);
    FillFields(header, stamp, ToUint32(keyLen), ToUint32(valueLen));
    if deleted {
      header[20] := 1;
    }
    assert header[4..] == header[4..20] + [header[20]];
    TailBytes(header[4..], stamp, ToUint32(keyLen), ToUint32(valueLen), header[20]);
  }

  method FillFields(header: array<byte>, stamp: uint64, keyLen: uint32, valueLen: uint32)
    requires header.Length == HEADER_SIZE
    modifies header
    ensures header[4..20] == Put32(High32(stamp)) + Put32(ToUint32(stamp)) + Put32(keyLen) + Put32(valueLen)
    ensures header[20] == old(header[20])
  {
    PutUint64(header, 4, stamp);
    ghost var first := header[4..12];
    PutUint32(header, 12, keyLen);
    ghost var second := header[12..16];
    PutUint32(header, 16, valueLen);
    assert header[4..12] == first && header[12..16] == second;
    assert header[4..20] == header[4..12] + header[12..16] + header[16..20];
  }

  /** Builds the header in place: the fields first, the checksum over them and the data last. */
  method BuildHeader(crc: Checksum, key: Bytes, value: Bytes, timestamp: int64, deleted: bool) returns (header: array<byte>)
    ensures fresh(header)
    ensures header[..] + key + value == Encode(crc, Record(key, value, timestamp, deleted))
  {
    var r := Record(key, value, timestamp, deleted);
    header := new byte[HEADER_SIZE](_ => 0);
    FillTail(header, |key|, |value|, timestamp, deleted);
    ghost var tail := header[4..];
    assert header[4..] + key + value == Payload(r);
    var sum := crc(header[4..] + key + value);
    PutUint32(header, 0, sum);
    assert header[..] == Put32(sum) + tail;
  }
}
