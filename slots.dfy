/** The coalescing store `State` of input.rs: for every channel the latest
    value of each controller, of pitch bend, channel pressure, program and of
    each note's poly pressure, with the timestamp of the last change and a
    dirty mark. Rust's `State` is a plain value (`#[derive(Clone)]`, fixed
    arrays stored inline), so it is a datatype here; an update through
    `&mut State` is a function from the old value to the new one. */
module Slots {
  import opened Ints
  import opened Bitset
  import opened Packet

  const CHANNELS: nat := 16
  const SLOTS: nat := 128

  /** `[[u8; 128]; 16]` */
  type Grid8 = g: seq<seq<uint8>> | |g| == 16 && forall c | 0 <= c < 16 :: |g[c]| == 128
    witness seq(16, _ => seq(128, _ => 0))
  /** `[[u64; 128]; 16]` */
  type GridTs = g: seq<seq<uint64>> | |g| == 16 && forall c | 0 <= c < 16 :: |g[c]| == 128
    witness seq(16, _ => seq(128, _ => 0))
  /** `[[u64; 2]; 16]` */
  type DirtyWords = d: seq<Words> | |d| == 16 witness seq(16, _ => EMPTY)
  /** `[u8; 16]`, `[i16; 16]`, `[u64; 16]`, `[bool; 16]` */
  type Ch8 = s: seq<uint8> | |s| == 16 witness seq(16, _ => 0)
  type ChI16 = s: seq<int16> | |s| == 16 witness seq(16, _ => 0)
  type ChTs = s: seq<uint64> | |s| == 16 witness seq(16, _ => 0)
  type ChFlags = s: seq<bool> | |s| == 16 witness seq(16, _ => false)

  /** A 16 x 128 parameter space (controllers, or poly pressure per note):
      the values, their timestamps and a dirty bitset per channel. */
  datatype Grid = Grid(values: Grid8, ts: GridTs, dirty: DirtyWords)

  datatype State = State(
    cc: Grid,
    pb: ChI16, pbTs: ChTs, pbDirty: ChFlags,
    chPressure: Ch8, chPressureTs: ChTs, chPressureDirty: ChFlags,
    program: Ch8, programTs: ChTs, programDirty: ChFlags,
    polyPressure: Grid)

  function EmptyGrid(): (g: Grid)
    ensures forall c, i | 0 <= c < 16 && 0 <= i < 128 :: g.values[c][i] == 0 && g.ts[c][i] == 0
    ensures forall c | 0 <= c < 16 :: g.dirty[c] == EMPTY
  {
    Grid(seq(16, _ => seq(128, _ => 0)), seq(16, _ => seq(128, _ => 0)), seq(16, _ => EMPTY))
  }

  /** `State::default()`: every value, timestamp and mark zero. */
  function Default(): (s: State)
    ensures forall c | 0 <= c < 16 :: s.pb[c] == 0 && s.pbTs[c] == 0
    ensures forall c | 0 <= c < 16 :: s.chPressure[c] == 0 && s.chPressureTs[c] == 0
    ensures forall c | 0 <= c < 16 :: s.program[c] == 0 && s.programTs[c] == 0
    ensures forall c, i | 0 <= c < 16 && 0 <= i < 128 :: s.cc.values[c][i] == 0 && s.cc.ts[c][i] == 0
    ensures forall c, i | 0 <= c < 16 && 0 <= i < 128 ::
      s.polyPressure.values[c][i] == 0 && s.polyPressure.ts[c][i] == 0
    ensures NothingDirty(s)
  {
    State(EmptyGrid(),
          seq(16, _ => 0), seq(16, _ => 0), seq(16, _ => false),
          seq(16, _ => 0), seq(16, _ => 0), seq(16, _ => false),
          seq(16, _ => 0), seq(16, _ => 0), seq(16, _ => false),
          EmptyGrid())
  }

  predicate NothingDirty(s: State)
  {
    && (forall c | 0 <= c < 16 :: s.cc.dirty[c] == EMPTY && s.polyPressure.dirty[c] == EMPTY)
    && (forall c | 0 <= c < 16 :: !s.pbDirty[c] && !s.chPressureDirty[c] && !s.programDirty[c])
  }

  // ---------------------------------------------------------------------
  // Latest-value-wins updates

  /** `r` is `g` with slot `i` of channel `ch` holding `v` stamped `ts` and
      marked dirty: every other slot, stamp and mark is as in `g`. */
  predicate SlotWritten(g: Grid, r: Grid, ch: nat, i: nat, v: uint8, ts: uint64)
    requires ch < 16 && i < 128
  {
    && r.values[ch][i] == v && r.ts[ch][i] == ts
    && (forall c, j | 0 <= c < 16 && 0 <= j < 128 && (c != ch || j != i) ::
          r.values[c][j] == g.values[c][j] && r.ts[c][j] == g.ts[c][j])
    && (forall j | 0 <= j < 128 :: BitAt(r.dirty[ch], j) == (BitAt(g.dirty[ch], j) || j == i))
    && (forall c | 0 <= c < 16 && c != ch :: r.dirty[c] == g.dirty[c])
  }

  /** Store `v` at slot `i` of channel `ch` stamped `ts`, and mark it dirty
      (`set_bit`). Every other slot, stamp and mark is kept. */
  function GridSet(g: Grid, ch: nat, i: nat, v: uint8, ts: uint64): (r: Grid)
    requires ch < 16 && i < 128
    ensures SlotWritten(g, r, ch, i, v, ts)
  {
    var row: seq<uint8> := g.values[ch][i := v];
    var stamps: seq<uint64> := g.ts[ch][i := ts];
    Grid(g.values[ch := row], g.ts[ch := stamps], g.dirty[ch := SetBit(g.dirty[ch], i)])
  }

  /** `update_cc`: a control change that alters the stored value replaces
      it, stamps it and marks the controller dirty; an equal value changes
      nothing, not even the stamp. */
  function UpdateCc(s: State, ch: nat, ctrl: nat, val: uint8, ts: uint64): (r: State)
    requires ch < 16 && ctrl < 128
    ensures s.cc.values[ch][ctrl] == val ==> r == s
    ensures s.cc.values[ch][ctrl] != val ==>
      r == s.(cc := r.cc) && SlotWritten(s.cc, r.cc, ch, ctrl, val, ts)
  {
    if s.cc.values[ch][ctrl] != val then s.(cc := GridSet(s.cc, ch, ctrl, val, ts)) else s
  }

  /** `update_poly_pressure`: the same rule on the per-note pressure grid. */
  function UpdatePolyPressure(s: State, ch: nat, note: nat, pressure: uint8, ts: uint64): (r: State)
    requires ch < 16 && note < 128
    ensures s.polyPressure.values[ch][note] == pressure ==> r == s
    ensures s.polyPressure.values[ch][note] != pressure ==>
      r == s.(polyPressure := r.polyPressure)
      && SlotWritten(s.polyPressure, r.polyPressure, ch, note, pressure, ts)
  {
    if s.polyPressure.values[ch][note] != pressure then
      s.(polyPressure := GridSet(s.polyPressure, ch, note, pressure, ts))
    else s
  }

  /** The bend of a pitch-bend message as input.rs:285-286 computes it:
      `((msb as i16) << 7) | (lsb as i16)`, minus the centre 8192. The two
      operands of `|` share only bit 7 (bit 0 of `msb`, bit 7 of `lsb`), so
      the `|` is their sum less 128 when both carry that bit; `OrOfShifted`
      proves this on 16-bit patterns. No byte values overflow the i16. */
  function BendValue(lsb: uint8, msb: uint8): (bend: int16)
    ensures -8192 <= bend < 0x8000 - 8192
  {
    var overlap := if msb % 2 == 1 && lsb >= 128 then 128 else 0;
    msb * 128 + lsb - overlap - 8192
  }

  /** `(msb << 7) | lsb` on 16-bit patterns of two bytes is their
      shifted sum, less the shared bit 7 when both have it. */
  lemma OrOfShifted(lsb: bv16, msb: bv16)
    requires lsb < 0x100 && msb < 0x100
    ensures (msb << 7) | lsb
      == msb * 128 + lsb - (if msb % 2 == 1 && lsb >= 128 then 128 else 0)
    ensures (msb << 7) | lsb < 0x8000
  {
  }

  /** For MIDI data bytes (below 128) the bend is `msb * 128 + lsb - 8192`,
      which lies in [-8192, 8191]; the centre message (0, 64) bends by 0. */
  lemma BendOfDataBytes(lsb: uint8, msb: uint8)
    requires lsb < 128 && msb < 128
    ensures BendValue(lsb, msb) == msb * 128 + lsb - 8192
    ensures -8192 <= BendValue(lsb, msb) <= 8191
  {
  }

  /** `update_pitch_bend`: the latest-value rule on the channel's bend. */
  function UpdatePitchBend(s: State, ch: nat, lsb: uint8, msb: uint8, ts: uint64): (r: State)
    requires ch < 16
    ensures s.pb[ch] == BendValue(lsb, msb) ==> r == s
    ensures s.pb[ch] != BendValue(lsb, msb) ==>
      r == s.(pb := r.pb, pbTs := r.pbTs, pbDirty := r.pbDirty)
      && r.pb == s.pb[ch := BendValue(lsb, msb)] && r.pbTs == s.pbTs[ch := ts]
      && r.pbDirty == s.pbDirty[ch := true]
  {
    var bend := BendValue(lsb, msb);
    if s.pb[ch] != bend then
      s.(pb := s.pb[ch := bend], pbTs := s.pbTs[ch := ts], pbDirty := s.pbDirty[ch := true])
    else s
  }

  /** `update_ch_pressure`: the latest-value rule on the channel pressure. */
  function UpdateChPressure(s: State, ch: nat, pressure: uint8, ts: uint64): (r: State)
    requires ch < 16
    ensures s.chPressure[ch] == pressure ==> r == s
    ensures s.chPressure[ch] != pressure ==>
      r == s.(chPressure := r.chPressure, chPressureTs := r.chPressureTs,
              chPressureDirty := r.chPressureDirty)
      && r.chPressure == s.chPressure[ch := pressure] && r.chPressureTs == s.chPressureTs[ch := ts]
      && r.chPressureDirty == s.chPressureDirty[ch := true]
  {
    if s.chPressure[ch] != pressure then
      s.(chPressure := s.chPressure[ch := pressure], chPressureTs := s.chPressureTs[ch := ts],
         chPressureDirty := s.chPressureDirty[ch := true])
    else s
  }

  /** `update_program`: the latest-value rule on the channel's program. */
  function UpdateProgram(s: State, ch: nat, program: uint8, ts: uint64): (r: State)
    requires ch < 16
    ensures s.program[ch] == program ==> r == s
    ensures s.program[ch] != program ==>
      r == s.(program := r.program, programTs := r.programTs, programDirty := r.programDirty)
      && r.program == s.program[ch := program] && r.programTs == s.programTs[ch := ts]
      && r.programDirty == s.programDirty[ch := true]
  {
    if s.program[ch] != program then
      s.(program := s.program[ch := program], programTs := s.programTs[ch := ts],
         programDirty := s.programDirty[ch := true])
    else s
  }

  /** A state update routed from one raw message. */
  datatype Update =
    | Cc(ch: nat, ctrl: nat, val: uint8, ts: uint64)
    | PitchBend(ch: nat, lsb: uint8, msb: uint8, ts: uint64)
    | ChPressure(ch: nat, pressure: uint8, ts: uint64)
    | Program(ch: nat, program: uint8, ts: uint64)
    | PolyPressure(ch: nat, note: nat, pressure: uint8, ts: uint64)

  /** The slot indices are in range: the channel is a status nibble, and
      the controller or note is a data byte the Rust code indexes with. */
  predicate UpdateInRange(u: Update)
  {
    && u.ch < 16
    && (u.Cc? ==> u.ctrl < 128)
    && (u.PolyPressure? ==> u.note < 128)
  }

  function Apply(s: State, u: Update): State
    requires UpdateInRange(u)
  {
    match u
    case Cc(ch, ctrl, val, ts) => UpdateCc(s, ch, ctrl, val, ts)
    case PitchBend(ch, lsb, msb, ts) => UpdatePitchBend(s, ch, lsb, msb, ts)
    case ChPressure(ch, p, ts) => UpdateChPressure(s, ch, p, ts)
    case Program(ch, p, ts) => UpdateProgram(s, ch, p, ts)
    case PolyPressure(ch, note, p, ts) => UpdatePolyPressure(s, ch, note, p, ts)
  }

  /** Applying the same update twice is applying it once. */
  lemma ApplyIdempotent(s: State, u: Update)
    requires UpdateInRange(u)
    ensures Apply(Apply(s, u), u) == Apply(s, u)
  {
  }

  /** Latest value wins: after two updates of the same slot the slot holds
      the second value, and it is dirty if either update changed it. */
  lemma CcLatestWins(s: State, ch: nat, ctrl: nat, v1: uint8, t1: uint64, v2: uint8, t2: uint64)
    requires ch < 16 && ctrl < 128
    ensures var r := UpdateCc(UpdateCc(s, ch, ctrl, v1, t1), ch, ctrl, v2, t2);
      && r.cc.values[ch][ctrl] == v2
      && r.cc.ts[ch][ctrl] == (if v1 != v2 then t2 else if s.cc.values[ch][ctrl] != v1 then t1
                               else s.cc.ts[ch][ctrl])
      && BitAt(r.cc.dirty[ch], ctrl) == (BitAt(s.cc.dirty[ch], ctrl) || s.cc.values[ch][ctrl] != v2
                                        || s.cc.values[ch][ctrl] != v1)
  {
  }

  /** On a fresh state a centred bend (LSB 0, MSB 64) equals the stored 0,
      so it marks nothing and the next tick emits no pitch-bend record. */
  lemma FreshCentredBendSilent(ch: nat, ts: uint64)
    requires ch < 16
    ensures UpdatePitchBend(Default(), ch, 0, 64, ts) == Default()
    ensures Pending(UpdatePitchBend(Default(), ch, 0, 64, ts)) == []
  {
    BendOfDataBytes(0, 64);
    NothingPending(Default());
  }

  // ---------------------------------------------------------------------
  // What a tick drains

  /** The record for slot `i` of channel `ch` of a grid. */
  function GridRecord(g: Grid, kind: uint8, ch: nat, i: nat): Record
    requires ch < 16 && i < 128
  {
    Record(g.ts[ch][i], kind, ch, i, g.values[ch][i], 0, 0)
  }

  /** The records of the listed slots of channel `ch`, in list order. */
  function GridRecords(g: Grid, kind: uint8, ch: nat, idx: seq<nat>): (rs: seq<Record>)
    requires ch < 16 && forall k | 0 <= k < |idx| :: idx[k] < 128
    ensures |rs| == |idx|
    ensures forall k | 0 <= k < |idx| :: rs[k] == GridRecord(g, kind, ch, idx[k])
  {
    if idx == [] then [] else [GridRecord(g, kind, ch, idx[0])] + GridRecords(g, kind, ch, idx[1..])
  }

  function PbRecord(s: State, ch: nat): Record
    requires ch < 16
  {
    Record(s.pbTs[ch], KIND_PB, ch, 0, 0, s.pb[ch], 0)
  }

  function ChPressureRecord(s: State, ch: nat): Record
    requires ch < 16
  {
    Record(s.chPressureTs[ch], KIND_CH_PRESS, ch, 0, s.chPressure[ch], 0, 0)
  }

  function ProgramRecord(s: State, ch: nat): Record
    requires ch < 16
  {
    Record(s.programTs[ch], KIND_PROG, ch, 0, s.program[ch], 0, 0)
  }

  /** Channel `ch`'s records in drain order: dirty controllers ascending,
      pitch bend, channel pressure, program, dirty poly pressures ascending. */
  function ChannelRecords(s: State, ch: nat): seq<Record>
    requires ch < 16
  {
    SetIndicesBelow(s.cc.dirty[ch]);
    SetIndicesBelow(s.polyPressure.dirty[ch]);
    GridRecords(s.cc, KIND_CC, ch, SetIndices(s.cc.dirty[ch]))
      + (if s.pbDirty[ch] then [PbRecord(s, ch)] else [])
      + (if s.chPressureDirty[ch] then [ChPressureRecord(s, ch)] else [])
      + (if s.programDirty[ch] then [ProgramRecord(s, ch)] else [])
      + GridRecords(s.polyPressure, KIND_POLY_PRESS, ch, SetIndices(s.polyPressure.dirty[ch]))
  }

  /** The records of channels `0 .. n`, channel by channel. */
  function PendingUpTo(s: State, n: nat): seq<Record>
    requires n <= 16
  {
    if n == 0 then [] else PendingUpTo(s, n - 1) + ChannelRecords(s, n - 1)
  }

  /** Everything a tick drains from the store, in emission order. */
  function Pending(s: State): seq<Record>
  {
    PendingUpTo(s, 16)
  }

  /** The store after a drain: every mark cleared, values and stamps kept. */
  function Drained(s: State): (r: State)
    ensures NothingDirty(r)
    ensures r.cc.values == s.cc.values && r.cc.ts == s.cc.ts
    ensures r.polyPressure.values == s.polyPressure.values && r.polyPressure.ts == s.polyPressure.ts
    ensures r.pb == s.pb && r.pbTs == s.pbTs && r.chPressure == s.chPressure
    ensures r.chPressureTs == s.chPressureTs && r.program == s.program && r.programTs == s.programTs
  {
    s.(cc := s.cc.(dirty := seq(16, _ => EMPTY)),
       pbDirty := seq(16, _ => false),
       chPressureDirty := seq(16, _ => false),
       programDirty := seq(16, _ => false),
       polyPressure := s.polyPressure.(dirty := seq(16, _ => EMPTY)))
  }

  lemma {:induction false} NothingPendingUpTo(s: State, n: nat)
    requires n <= 16 && NothingDirty(s)
    ensures PendingUpTo(s, n) == []
  {
    if n > 0 {
      NothingPendingUpTo(s, n - 1);
      EmptyIndices();
    }
  }

  /** A store with no marks has nothing to drain. */
  lemma NothingPending(s: State)
    requires NothingDirty(s)
    ensures Pending(s) == []
  {
    NothingPendingUpTo(s, 16);
  }

  /** A drain leaves nothing for the next tick. */
  lemma DrainedPendingEmpty(s: State)
    ensures Pending(Drained(s)) == []
  {
    NothingPending(Drained(s));
  }

  // ---------------------------------------------------------------------
  // Which records are pending

  /** `r` is the record some dirty mark of `s` stands for: its kind names
      the slot's parameter, and it carries the slot's stored value and
      stamp. */
  predicate IsPending(s: State, r: Record)
  {
    var ch := r.channel;
    && ch < 16
    && ((r.kind == KIND_CC && r.a < 128 && BitAt(s.cc.dirty[ch], r.a)
         && r == GridRecord(s.cc, KIND_CC, ch, r.a))
        || (r.kind == KIND_PB && s.pbDirty[ch] && r == PbRecord(s, ch))
        || (r.kind == KIND_CH_PRESS && s.chPressureDirty[ch] && r == ChPressureRecord(s, ch))
        || (r.kind == KIND_PROG && s.programDirty[ch] && r == ProgramRecord(s, ch))
        || (r.kind == KIND_POLY_PRESS && r.a < 128 && BitAt(s.polyPressure.dirty[ch], r.a)
            && r == GridRecord(s.polyPressure, KIND_POLY_PRESS, ch, r.a)))
  }

  lemma {:induction false} GridRecordsMember(g: Grid, kind: uint8, ch: nat, idx: seq<nat>, r: Record)
    requires ch < 16 && forall k | 0 <= k < |idx| :: idx[k] < 128
    ensures r in GridRecords(g, kind, ch, idx) <==>
      r.kind == kind && r.channel == ch && r.a in idx && r.a < 128
      && r == GridRecord(g, kind, ch, r.a)
  {
    if idx != [] {
      GridRecordsMember(g, kind, ch, idx[1..], r);
      assert r.a in idx <==> r.a == idx[0] || r.a in idx[1..];
    }
  }

  lemma ChannelMember(s: State, ch: nat, r: Record)
    requires ch < 16
    ensures r in ChannelRecords(s, ch) <==> IsPending(s, r) && r.channel == ch
  {
    SetIndicesBelow(s.cc.dirty[ch]);
    SetIndicesBelow(s.polyPressure.dirty[ch]);
    SetIndicesSpec(s.cc.dirty[ch]);
    SetIndicesSpec(s.polyPressure.dirty[ch]);
    GridRecordsMember(s.cc, KIND_CC, ch, SetIndices(s.cc.dirty[ch]), r);
    GridRecordsMember(s.polyPressure, KIND_POLY_PRESS, ch, SetIndices(s.polyPressure.dirty[ch]), r);
  }

  lemma {:induction false} PendingUpToMember(s: State, n: nat, r: Record)
    requires n <= 16
    ensures r in PendingUpTo(s, n) <==> IsPending(s, r) && r.channel < n
  {
    if n > 0 {
      PendingUpToMember(s, n - 1, r);
      ChannelMember(s, n - 1, r);
    }
  }

  /** A tick emits exactly the marked slots, each with its stored value and
      stamp: a record is pending if and only if it stands for a dirty mark. */
  lemma PendingExactly(s: State, r: Record)
    ensures r in Pending(s) <==> IsPending(s, r)
  {
    PendingUpToMember(s, 16, r);
  }

  /** One channel contributes at most 128 + 3 + 128 records. */
  lemma ChannelCount(s: State, ch: nat)
    requires ch < 16
    ensures |ChannelRecords(s, ch)| <= 259
  {
    SetIndicesCount(s.cc.dirty[ch]);
    SetIndicesCount(s.polyPressure.dirty[ch]);
  }

  lemma {:induction false} PendingUpToCount(s: State, n: nat)
    requires n <= 16
    ensures |PendingUpTo(s, n)| <= 259 * n
  {
    if n > 0 {
      PendingUpToCount(s, n - 1);
      ChannelCount(s, n - 1);
    }
  }

  /** A tick drains at most 16 * 259 records from the store. */
  lemma PendingCount(s: State)
    ensures |Pending(s)| <= 16 * 259
  {
    PendingUpToCount(s, 16);
  }
}
