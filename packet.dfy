/** The wire format handed to the host once per tick: a 32-byte header
    followed by one 16-byte record per event, every multi-byte field
    little-endian. */
module Packet {
  import opened Ints

  /** "MIDR" read as a little-endian u32. */
  const MAGIC: uint32 := 0x4D494452
  const VERSION: uint16 := 1

  const KIND_CC: uint8 := 1
  const KIND_PB: uint8 := 2
  const KIND_CH_PRESS: uint8 := 3
  const KIND_POLY_PRESS: uint8 := 4
  const KIND_PROG: uint8 := 5
  const KIND_NOTE: uint8 := 6

  const HEADER_LEN: nat := 32
  const RECORD_LEN: nat := 16

  /** One event: a timestamp in microseconds, its kind, its channel, two data
      bytes, a signed 16-bit value (the pitch bend) and a spare u16. */
  datatype Record = Record(tsUs: uint64, kind: uint8, channel: uint8, a: uint8, b: uint8,
                           v16: int16, extra: uint16)

  /** What a packet carries: the header arguments of `encode_packet` and the
      records. */
  datatype Contents = Contents(flags: uint16, dispatchTsUs: uint64, droppedRaw: uint32,
                               droppedNote: uint32, records: seq<Record>)

  // ---------------------------------------------------------------------
  // Little-endian integers

  /** `push_u16`: the two bytes of `v.to_le_bytes()`, low byte first. */
  function U16Le(v: uint16): (r: seq<uint8>)
    ensures |r| == 2 && U16Of(r) == v
  {
    [v % 0x100, v / 0x100]
  }

  /** `push_u32`: the four bytes of `v.to_le_bytes()`, low half first. */
  function U32Le(v: uint32): (r: seq<uint8>)
    ensures |r| == 4 && U32Of(r) == v
  {
    var r := U16Le(v % 0x1_0000) + U16Le(v / 0x1_0000);
    assert r[..2] == U16Le(v % 0x1_0000) && r[2..] == U16Le(v / 0x1_0000);
    r
  }

  /** `push_u64`: the eight bytes of `v.to_le_bytes()`, low half first. */
  function U64Le(v: uint64): (r: seq<uint8>)
    ensures |r| == 8 && U64Of(r) == v
  {
    var r := U32Le(v % 0x1_0000_0000) + U32Le(v / 0x1_0000_0000);
    assert r[..4] == U32Le(v % 0x1_0000_0000) && r[4..] == U32Le(v / 0x1_0000_0000);
    r
  }

  /** `u16::from_le_bytes`: the reader matching `push_u16`. */
  function U16Of(bs: seq<uint8>): uint16
    requires |bs| == 2
  {
    bs[0] as int + 0x100 * (bs[1] as int)
  }

  /** `u32::from_le_bytes`: the reader matching `push_u32`. */
  function U32Of(bs: seq<uint8>): uint32
    requires |bs| == 4
  {
    U16Of(bs[..2]) as int + 0x1_0000 * (U16Of(bs[2..]) as int)
  }

  /** `u64::from_le_bytes`: the reader matching `push_u64`. */
  function U64Of(bs: seq<uint8>): uint64
    requires |bs| == 8
  {
    U32Of(bs[..4]) as int + 0x1_0000_0000 * (U32Of(bs[4..]) as int)
  }

  /** Every two bytes are the encoding of the value read from them. */
  lemma U16LeOf(bs: seq<uint8>)
    requires |bs| == 2
    ensures U16Le(U16Of(bs)) == bs
  {
  }

  lemma U32LeOf(bs: seq<uint8>)
    requires |bs| == 4
    ensures U32Le(U32Of(bs)) == bs
  {
    var lo, hi := U16Of(bs[..2]), U16Of(bs[2..]);
    Halves16(lo, hi);
    U16LeOf(bs[..2]);
    U16LeOf(bs[2..]);
    assert bs == bs[..2] + bs[2..];
  }

  lemma U64LeOf(bs: seq<uint8>)
    requires |bs| == 8
    ensures U64Le(U64Of(bs)) == bs
  {
    var lo, hi := U32Of(bs[..4]), U32Of(bs[4..]);
    Halves32(lo, hi);
    U32LeOf(bs[..4]);
    U32LeOf(bs[4..]);
    assert bs == bs[..4] + bs[4..];
  }

  /** Splitting a u32 into 16-bit halves gives back both halves. */
  lemma Halves16(lo: uint16, hi: uint16)
    ensures (lo + 0x1_0000 * hi) % 0x1_0000 == lo && (lo + 0x1_0000 * hi) / 0x1_0000 == hi
  {
  }

  /** Splitting a u64 into 32-bit halves gives back both halves. */
  lemma Halves32(lo: uint32, hi: uint32)
    ensures (lo + 0x1_0000_0000 * hi) % 0x1_0000_0000 == lo
    ensures (lo + 0x1_0000_0000 * hi) / 0x1_0000_0000 == hi
  {
  }

  /** The bit pattern of an i16 read as a u16 (two's complement). */
  function I16Bits(v: int16): (u: uint16)
    ensures v >= 0 ==> u == v
    ensures v < 0 ==> u >= 0x8000
  {
    if v < 0 then v + 0x1_0000 else v
  }

  /** The i16 whose two's-complement bit pattern is `u`. */
  function I16OfBits(u: uint16): (v: int16)
    ensures I16Bits(v) == u
  {
    if u >= 0x8000 then u - 0x1_0000 else u
  }

  /** `push_i16`: the two bytes of `v.to_le_bytes()` for a signed value. */
  function I16Le(v: int16): (r: seq<uint8>)
    ensures |r| == 2 && I16Of(r) == v
  {
    U16Le(I16Bits(v))
  }

  /** `i16::from_le_bytes`: the reader matching `push_i16`. */
  function I16Of(bs: seq<uint8>): int16
    requires |bs| == 2
  {
    I16OfBits(U16Of(bs))
  }

  lemma I16LeOf(bs: seq<uint8>)
    requires |bs| == 2
    ensures I16Le(I16Of(bs)) == bs
  {
    U16LeOf(bs);
  }

  // ---------------------------------------------------------------------
  // Byte layout

  /** The 32-byte header: magic, version, flags, dispatch timestamp, the two
      drop counters, the record count as `u32` and a reserved zero word. */
  function HeaderBytes(count: nat, dispatchTsUs: uint64, droppedRaw: uint32,
                       droppedNote: uint32, flags: uint16): (r: seq<uint8>)
    ensures |r| == HEADER_LEN
  {
    U32Le(MAGIC) + U16Le(VERSION) + U16Le(flags) + U64Le(dispatchTsUs)
      + U32Le(droppedRaw) + U32Le(droppedNote) + U32Le(count % U32_MODULUS) + U32Le(0)
  }

  /** The 16 bytes of one record. */
  function RecordBytes(r: Record): (bs: seq<uint8>)
    ensures |bs| == RECORD_LEN
  {
    U64Le(r.tsUs) + [r.kind, r.channel, r.a, r.b] + I16Le(r.v16) + U16Le(r.extra)
  }

  /** The record encodings one after the other, in order. */
  function RecordsBytes(rs: seq<Record>): (bs: seq<uint8>)
    ensures |bs| == RECORD_LEN * |rs|
  {
    if rs == [] then [] else RecordBytes(rs[0]) + RecordsBytes(rs[1..])
  }

  /** The packet `encode_packet` produces. */
  function PacketBytes(records: seq<Record>, dispatchTsUs: uint64, droppedRaw: uint32,
                       droppedNote: uint32, flags: uint16): (bs: seq<uint8>)
  {
    HeaderBytes(|records|, dispatchTsUs, droppedRaw, droppedNote, flags) + RecordsBytes(records)
  }

  lemma {:induction false} RecordsBytesAppend(rs: seq<Record>, r: Record)
    ensures RecordsBytes(rs + [r]) == RecordsBytes(rs) + RecordBytes(r)
  {
    if rs == [] {
      assert rs + [r] == [r];
    } else {
      assert (rs + [r])[1..] == rs[1..] + [r];
      RecordsBytesAppend(rs[1..], r);
    }
  }

  /** `encode_packet`: write the header field by field, then each record in
      order. The result is the byte layout above. */
  method EncodePacket(records: seq<Record>, dispatchTsUs: uint64, droppedRaw: uint32,
                      droppedNote: uint32, flags: uint16) returns (buf: seq<uint8>)
    ensures buf == PacketBytes(records, dispatchTsUs, droppedRaw, droppedNote, flags)
  {
    buf := U32Le(MAGIC);
    buf := buf + U16Le(VERSION);
    buf := buf + U16Le(flags);
    buf := buf + U64Le(dispatchTsUs);
    buf := buf + U32Le(droppedRaw);
    buf := buf + U32Le(droppedNote);
    buf := buf + U32Le(|records| % U32_MODULUS);
    buf := buf + U32Le(0);
    ghost var header := buf;
    assert header == HeaderBytes(|records|, dispatchTsUs, droppedRaw, droppedNote, flags);
    for i := 0 to |records|
      invariant buf == header + RecordsBytes(records[..i])
    {
      var r := records[i];
      buf := buf + RecordBytes(r);
      RecordsBytesAppend(records[..i], r);
      assert records[..i + 1] == records[..i] + [r];
    }
    assert records[..|records|] == records;
  }

  // ---------------------------------------------------------------------
  // Reading a packet back

  /** The record at the front of a 16-byte chunk, read at the fixed offsets. */
  function DecodeRecord(bs: seq<uint8>): (r: Record)
    requires |bs| == RECORD_LEN
  {
    Record(U64Of(bs[0..8]), bs[8], bs[9], bs[10], bs[11],
           I16Of(bs[12..14]), U16Of(bs[14..16]))
  }

  /** The records of a byte string made of whole 16-byte chunks. */
  function DecodeRecords(bs: seq<uint8>): (rs: seq<Record>)
    requires |bs| % RECORD_LEN == 0
    ensures RECORD_LEN * |rs| == |bs|
    decreases |bs|
  {
    if |bs| == 0 then [] else [DecodeRecord(bs[..RECORD_LEN])] + DecodeRecords(bs[RECORD_LEN..])
  }

  /** A reader of the format: it accepts exactly the byte strings whose
      magic, version, reserved word and length agree with the header. */
  function DecodePacket(bs: seq<uint8>): (p: Option<Contents>)
    ensures p.Some? ==> |bs| == HEADER_LEN + RECORD_LEN * |p.value.records|
  {
    if |bs| < HEADER_LEN then None
    else if U32Of(bs[0..4]) != MAGIC || U16Of(bs[4..6]) != VERSION then None
    else if U32Of(bs[28..32]) != 0 then None
    else if |bs| != HEADER_LEN + RECORD_LEN * U32Of(bs[24..28]) then None
    else
      Some(Contents(U16Of(bs[6..8]), U64Of(bs[8..16]), U32Of(bs[16..20]), U32Of(bs[20..24]),
                    DecodeRecords(bs[HEADER_LEN..])))
  }

  lemma DecodeRecordBytes(r: Record)
    ensures DecodeRecord(RecordBytes(r)) == r
  {
    var bs := RecordBytes(r);
    assert bs[0..8] == U64Le(r.tsUs);
    assert bs[12..14] == I16Le(r.v16);
    assert bs[14..16] == U16Le(r.extra);
  }

  lemma {:induction false} DecodeRecordsBytes(rs: seq<Record>)
    ensures DecodeRecords(RecordsBytes(rs)) == rs
  {
    if rs != [] {
      var bs := RecordsBytes(rs);
      assert bs[..RECORD_LEN] == RecordBytes(rs[0]);
      assert bs[RECORD_LEN..] == RecordsBytes(rs[1..]);
      DecodeRecordBytes(rs[0]);
      DecodeRecordsBytes(rs[1..]);
      assert rs == [rs[0]] + rs[1..];
    }
  }

  /** A prefix `p + f` of `s` places `f` right after `p`. */
  lemma Field(s: seq<uint8>, p: seq<uint8>, f: seq<uint8>)
    requires |p| + |f| <= |s| && s[..|p| + |f|] == p + f
    ensures s[..|p|] == p && s[|p|..|p| + |f|] == f
  {
    assert s[..|p|] == s[..|p| + |f|][..|p|];
    assert s[|p|..|p| + |f|] == s[..|p| + |f|][|p|..];
  }

  /** The 32-byte header sits at fixed offsets: magic at 0 (the bytes of
      "RDIM"), version at 4, flags at 6, dispatch timestamp at 8, dropped raw
      messages at 16, dropped note edges at 20, the record count (as `u32`)
      at 24 and zero at 28. */
  lemma HeaderLayout(records: seq<Record>, dispatchTsUs: uint64, droppedRaw: uint32,
                     droppedNote: uint32, flags: uint16)
    ensures var bs := PacketBytes(records, dispatchTsUs, droppedRaw, droppedNote, flags);
      && |bs| == HEADER_LEN + RECORD_LEN * |records|
      && U32Of(bs[0..4]) == MAGIC && bs[0..4] == [0x52, 0x44, 0x49, 0x4D]
      && U16Of(bs[4..6]) == VERSION
      && U16Of(bs[6..8]) == flags
      && U64Of(bs[8..16]) == dispatchTsUs
      && U32Of(bs[16..20]) == droppedRaw
      && U32Of(bs[20..24]) == droppedNote
      && U32Of(bs[24..28]) == |records| % U32_MODULUS
      && bs[28..32] == [0, 0, 0, 0]
  {
    var bs := PacketBytes(records, dispatchTsUs, droppedRaw, droppedNote, flags);
    var p4 := U32Le(MAGIC);
    var p6 := p4 + U16Le(VERSION);
    var p8 := p6 + U16Le(flags);
    var p16 := p8 + U64Le(dispatchTsUs);
    var p20 := p16 + U32Le(droppedRaw);
    var p24 := p20 + U32Le(droppedNote);
    var p28 := p24 + U32Le(|records| % U32_MODULUS);
    var p32 := p28 + U32Le(0);
    assert bs == p32 + RecordsBytes(records);
    Field(bs, p28, U32Le(0));
    Field(bs, p24, U32Le(|records| % U32_MODULUS));
    Field(bs, p20, U32Le(droppedNote));
    Field(bs, p16, U32Le(droppedRaw));
    Field(bs, p8, U64Le(dispatchTsUs));
    Field(bs, p6, U16Le(flags));
    Field(bs, p4, U16Le(VERSION));
  }

  /** Record `i` occupies bytes [32 + 16i, 48 + 16i) of the packet. */
  lemma RecordLayout(records: seq<Record>, dispatchTsUs: uint64, droppedRaw: uint32,
                     droppedNote: uint32, flags: uint16, i: nat)
    requires i < |records|
    ensures var bs := PacketBytes(records, dispatchTsUs, droppedRaw, droppedNote, flags);
      bs[HEADER_LEN + RECORD_LEN * i .. HEADER_LEN + RECORD_LEN * i + RECORD_LEN]
        == RecordBytes(records[i])
  {
    RecordsAt(records, i);
  }

  lemma {:induction false} RecordsAt(rs: seq<Record>, i: nat)
    requires i < |rs|
    ensures RecordsBytes(rs)[RECORD_LEN * i .. RECORD_LEN * i + RECORD_LEN] == RecordBytes(rs[i])
  {
    var head, tail := RecordBytes(rs[0]), RecordsBytes(rs[1..]);
    assert RecordsBytes(rs) == head + tail;
    if i == 0 {
      SliceFront(head, tail);
    } else {
      var from := RECORD_LEN * (i - 1);
      var lo := RECORD_LEN * i;
      assert lo == |head| + from;
      RecordsAt(rs[1..], i - 1);
      SliceAfter(head, tail, from, from + RECORD_LEN);
      assert (head + tail)[lo .. lo + RECORD_LEN] == tail[from .. from + RECORD_LEN];
      assert rs[1..][i - 1] == rs[i];
    }
  }

  lemma SliceFront<T>(a: seq<T>, b: seq<T>)
    ensures (a + b)[..|a|] == a
  {
  }

  lemma SliceAfter<T>(a: seq<T>, b: seq<T>, x: nat, y: nat)
    requires x <= y <= |b|
    ensures (a + b)[|a| + x .. |a| + y] == b[x..y]
  {
  }

  /** Round trip: reading an encoded packet recovers every header argument
      and every record, as long as the record count fits the `u32` field. */
  lemma DecodeEncoded(records: seq<Record>, dispatchTsUs: uint64, droppedRaw: uint32,
                      droppedNote: uint32, flags: uint16)
    requires |records| < U32_MODULUS
    ensures DecodePacket(PacketBytes(records, dispatchTsUs, droppedRaw, droppedNote, flags))
      == Some(Contents(flags, dispatchTsUs, droppedRaw, droppedNote, records))
  {
    var bs := PacketBytes(records, dispatchTsUs, droppedRaw, droppedNote, flags);
    HeaderLayout(records, dispatchTsUs, droppedRaw, droppedNote, flags);
    assert U32Of(bs[28..32]) == 0 by {
      assert bs[28..32] == U32Le(0);
    }
    assert U32Of(bs[24..28]) == |records|;
    assert bs[HEADER_LEN..] == RecordsBytes(records);
    DecodeRecordsBytes(records);
  }

  lemma Split(s: seq<uint8>, i: nat, j: nat)
    requires i <= j <= |s|
    ensures s[..j] == s[..i] + s[i..j]
  {
  }

  /** A header the reader accepts is the header written for what it read. */
  lemma EncodeDecodedHeader(bs: seq<uint8>)
    requires |bs| >= HEADER_LEN && U32Of(bs[0..4]) == MAGIC && U16Of(bs[4..6]) == VERSION
    requires U32Of(bs[28..32]) == 0
    ensures HeaderBytes(U32Of(bs[24..28]), U64Of(bs[8..16]), U32Of(bs[16..20]),
                        U32Of(bs[20..24]), U16Of(bs[6..8])) == bs[..HEADER_LEN]
  {
    var n := U32Of(bs[24..28]);
    assert n % U32_MODULUS == n;
    U32LeOf(bs[0..4]);
    U16LeOf(bs[4..6]);
    U16LeOf(bs[6..8]);
    U64LeOf(bs[8..16]);
    U32LeOf(bs[16..20]);
    U32LeOf(bs[20..24]);
    U32LeOf(bs[24..28]);
    U32LeOf(bs[28..32]);
    assert bs[..4] == bs[0..4];
    Split(bs, 4, 6);
    Split(bs, 6, 8);
    Split(bs, 8, 16);
    Split(bs, 16, 20);
    Split(bs, 20, 24);
    Split(bs, 24, 28);
    Split(bs, 28, 32);
  }

  /** The other direction: a byte string the reader accepts is exactly the
      encoding of what it read, so the format has one encoding per packet. */
  lemma EncodeDecoded(bs: seq<uint8>)
    requires DecodePacket(bs).Some?
    ensures var c := DecodePacket(bs).value;
      PacketBytes(c.records, c.dispatchTsUs, c.droppedRaw, c.droppedNote, c.flags) == bs
  {
    var c := DecodePacket(bs).value;
    var body := bs[HEADER_LEN..];
    assert c.records == DecodeRecords(body);
    assert |c.records| == U32Of(bs[24..28]);
    EncodeDecodedHeader(bs);
    EncodeDecodedRecords(body);
    assert PacketBytes(c.records, c.dispatchTsUs, c.droppedRaw, c.droppedNote, c.flags)
      == bs[..HEADER_LEN] + body;
    assert bs == bs[..HEADER_LEN] + body;
  }

  lemma {:induction false} EncodeDecodedRecords(bs: seq<uint8>)
    requires |bs| % RECORD_LEN == 0
    ensures RecordsBytes(DecodeRecords(bs)) == bs
    decreases |bs|
  {
    if |bs| > 0 {
      EncodeDecodedRecord(bs[..RECORD_LEN]);
      EncodeDecodedRecords(bs[RECORD_LEN..]);
      assert bs == bs[..RECORD_LEN] + bs[RECORD_LEN..];
    }
  }

  lemma EncodeDecodedRecord(bs: seq<uint8>)
    requires |bs| == RECORD_LEN
    ensures RecordBytes(DecodeRecord(bs)) == bs
  {
    U64LeOf(bs[0..8]);
    I16LeOf(bs[12..14]);
    U16LeOf(bs[14..16]);
    assert bs == bs[0..8] + [bs[8], bs[9], bs[10], bs[11]] + bs[12..14] + bs[14..16];
  }
}
