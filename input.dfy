/** The MIDI input path of input.rs with its threads taken away: the ingest
    filter of the driver callback and its bounded hand-off queue, the
    coalescer's `handle_raw` and `push_note`, and one iteration of the
    dispatch loop, which drains the note queue and the coalescing store,
    sorts, encodes and delivers a packet. Locks and atomics become plain
    fields updated in sequence; a `close` that races a tick is a parameter
    saying where its stores land. */
module Input {
  import opened Ints
  import opened Bitset
  import opened Packet
  import opened Slots
  import opened StableSort

  const RAW_QUEUE_CAP: nat := 4096
  const NOTE_QUEUE_CAP: nat := 4096

  /** A channel message as the driver callback hands it on: the status, up
      to two data bytes (0 when missing) and the message length. */
  datatype RawMsg = RawMsg(tsUs: uint64, status: uint8, data1: uint8, data2: uint8, len: uint8)

  /** A note-on or note-off, kept in arrival order rather than coalesced. */
  datatype NoteEdge = NoteEdge(tsUs: uint64, channel: uint8, note: uint8, velocity: uint8, on: bool)

  // ---------------------------------------------------------------------
  // Ingest

  /** The bytes of the driver message a raw message keeps: as many of
      status, data1 and data2 as the message had, at most three. */
  function Kept(m: RawMsg): seq<uint8>
  {
    [m.status, m.data1, m.data2][..Min(m.len, 3)]
  }

  /** The ingest filter: empty messages and statuses outside the channel
      messages 0x80..0xEF are dropped; otherwise the message becomes a
      `RawMsg` whose missing data bytes are 0 and whose length saturates at
      255. */
  function ToRawMsg(ts: uint64, msg: seq<uint8>): (r: Option<RawMsg>)
    ensures r.Some? <==> |msg| > 0 && 0x80 <= msg[0] < 0xF0
    ensures r.Some? ==>
      && r.value.tsUs == ts
      && r.value.len == Min(|msg|, 255)
      && Kept(r.value) == msg[..Min(|msg|, 3)]
      && (|msg| < 2 ==> r.value.data1 == 0)
      && (|msg| < 3 ==> r.value.data2 == 0)
  {
    if |msg| == 0 then None
    else
      var status := msg[0];
      if status < 0x80 || status >= 0xF0 then None
      else
        var data1 := if |msg| > 1 then msg[1] else 0;
        var data2 := if |msg| > 2 then msg[2] else 0;
        Some(RawMsg(ts, status, data1, data2, Min(|msg|, 255)))
  }

  // ---------------------------------------------------------------------
  // Routing

  /** `status & 0xF0`, the message kind. */
  function Kind(status: uint8): uint8
  {
    status / 16 * 16
  }

  /** `status & 0x0F`, the channel. */
  function Channel(status: uint8): uint8
  {
    status % 16
  }

  /** The masks of the Rust code are the nibble arithmetic used here. */
  lemma NibbleMasks(b: bv8)
    ensures b & 0xF0 == b / 16 * 16 && b & 0x0F == b % 16
  {
  }

  /** What `handle_raw` does with one message. */
  datatype Action = Ignore | PushEdge(edge: NoteEdge) | Store(update: Update)

  /** The shortest message each kind is acted on at. */
  function MinLength(kind: uint8): nat
  {
    if kind == 0xC0 || kind == 0xD0 then 2 else 3
  }

  /** Controller and note numbers index arrays of 128; the Rust code indexes
      with the data byte unchecked, and the ingest filter does not bound it,
      so a byte of 128 or more is an out-of-bounds index there. */
  predicate DataBytesIndexable(raw: RawMsg)
  {
    (Kind(raw.status) == 0xA0 || Kind(raw.status) == 0xB0) && raw.len >= 3 ==> raw.data1 < 128
  }

  /** The routing of `handle_raw` on the status nibble. */
  function Route(raw: RawMsg): (a: Action)
    ensures a.PushEdge? ==>
      a.edge.tsUs == raw.tsUs && a.edge.channel == Channel(raw.status)
      && a.edge.note == raw.data1 && a.edge.velocity == raw.data2
    ensures a.Store? ==> a.update.ch == Channel(raw.status) && a.update.ts == raw.tsUs
    ensures a.Store? && DataBytesIndexable(raw) ==> UpdateInRange(a.update)
  {
    var kind, ch := Kind(raw.status), Channel(raw.status);
    if kind == 0x80 then
      if raw.len >= 3 then PushEdge(NoteEdge(raw.tsUs, ch, raw.data1, raw.data2, false)) else Ignore
    else if kind == 0x90 then
      if raw.len >= 3 then PushEdge(NoteEdge(raw.tsUs, ch, raw.data1, raw.data2, raw.data2 != 0))
      else Ignore
    else if kind == 0xA0 then
      if raw.len >= 3 then Store(PolyPressure(ch, raw.data1, raw.data2, raw.tsUs)) else Ignore
    else if kind == 0xB0 then
      if raw.len >= 3 then Store(Cc(ch, raw.data1, raw.data2, raw.tsUs)) else Ignore
    else if kind == 0xC0 then
      if raw.len >= 2 then Store(Program(ch, raw.data1, raw.tsUs)) else Ignore
    else if kind == 0xD0 then
      if raw.len >= 2 then Store(ChPressure(ch, raw.data1, raw.tsUs)) else Ignore
    else if kind == 0xE0 then
      if raw.len >= 3 then Store(PitchBend(ch, raw.data1, raw.data2, raw.tsUs)) else Ignore
    else Ignore
  }

  /** A message is ignored exactly when its kind is not a channel message
      or it is shorter than its kind needs. */
  lemma RouteIgnores(raw: RawMsg)
    ensures Route(raw) == Ignore <==>
      Kind(raw.status) < 0x80 || Kind(raw.status) == 0xF0 || raw.len < MinLength(Kind(raw.status))
  {
  }

  /** Only 0x8n and 0x9n become note edges, and an edge is a press exactly
      when it is a note-on with a non-zero velocity. */
  lemma NoteEdgeOn(raw: RawMsg)
    requires Route(raw).PushEdge?
    ensures Kind(raw.status) == 0x80 || Kind(raw.status) == 0x90
    ensures Route(raw).edge.on <==> Kind(raw.status) == 0x90 && raw.data2 != 0
  {
  }

  /** The driver message note-on with velocity 0 reaches the note queue as a
      release. */
  lemma NoteOnVelocityZero(ts: uint64, ch: uint8, note: uint8)
    requires ch < 16
    ensures ToRawMsg(ts, [0x90 + ch, note, 0]).Some?
    ensures Route(ToRawMsg(ts, [0x90 + ch, note, 0]).value) == PushEdge(NoteEdge(ts, ch, note, 0, false))
  {
    assert Kind(0x90 + ch) == 0x90;
  }

  // ---------------------------------------------------------------------
  // The note queue

  /** `push_note` on the queue: when it is full the oldest edge goes, then
      the new edge is appended. */
  function NotePushed(q: seq<NoteEdge>, e: NoteEdge): (r: seq<NoteEdge>)
    ensures |r| > 0 && r[|r| - 1] == e
    ensures |q| <= NOTE_QUEUE_CAP ==> |r| == Min(|q| + 1, NOTE_QUEUE_CAP)
  {
    if |q| >= NOTE_QUEUE_CAP then q[1..] + [e] else q + [e]
  }

  /** A push leaves a suffix of the queue followed by the new edge. */
  lemma NotePushedSuffix(q: seq<NoteEdge>, e: NoteEdge)
    ensures |NotePushed(q, e)| <= |q| + 1
    ensures NotePushed(q, e) == (q + [e])[|q| + 1 - |NotePushed(q, e)|..]
  {
  }

  /** The newest `NOTE_QUEUE_CAP` entries of `s`. */
  function Newest(s: seq<NoteEdge>): seq<NoteEdge>
  {
    s[|s| - Min(|s|, NOTE_QUEUE_CAP)..]
  }

  function PushedAll(q: seq<NoteEdge>, es: seq<NoteEdge>): seq<NoteEdge>
    decreases |es|
  {
    if es == [] then q else PushedAll(NotePushed(q, es[0]), es[1..])
  }

  /** Keeping the newest entries of a long enough suffix keeps the newest
      entries of the whole. */
  lemma NewestOfSuffix(s: seq<NoteEdge>, t: seq<NoteEdge>, x: seq<NoteEdge>)
    requires |t| <= |s| && t == s[|s| - |t|..] && |t| >= Min(|s|, NOTE_QUEUE_CAP)
    ensures Newest(t + x) == Newest(s + x)
  {
    var n := Min(|s + x|, NOTE_QUEUE_CAP);
    assert Min(|t + x|, NOTE_QUEUE_CAP) == n;
    assert t + x == (s + x)[|s| - |t|..];
  }

  /** One push keeps what the newest entries of the whole would be. */
  lemma PushedStep(q: seq<NoteEdge>, es: seq<NoteEdge>)
    requires |q| <= NOTE_QUEUE_CAP && es != []
    ensures |NotePushed(q, es[0])| <= NOTE_QUEUE_CAP
    ensures Newest(NotePushed(q, es[0]) + es[1..]) == Newest(q + es)
  {
    NotePushedSuffix(q, es[0]);
    NewestOfSuffix(q + [es[0]], NotePushed(q, es[0]), es[1..]);
    assert [es[0]] + es[1..] == es;
    AppendAssoc(q, [es[0]], es[1..]);
  }

  /** A queue fed one edge at a time holds exactly the newest 4096 edges
      ever pushed, in arrival order. */
  lemma {:induction false} PushedAllNewest(q: seq<NoteEdge>, es: seq<NoteEdge>)
    requires |q| <= NOTE_QUEUE_CAP
    ensures PushedAll(q, es) == Newest(q + es)
    decreases |es|
  {
    if es == [] {
      assert q + es == q;
    } else {
      PushedStep(q, es);
      PushedAllNewest(NotePushed(q, es[0]), es[1..]);
    }
  }

  /** The record a drained note edge becomes. */
  function NoteRecord(e: NoteEdge): (r: Record)
    ensures r.kind == KIND_NOTE && NoteEdgeOf(r) == e
    ensures r.v16 == 0 && r.extra == (if e.on then 1 else 0)
  {
    Record(e.tsUs, KIND_NOTE, e.channel, e.note, e.velocity, 0, if e.on then 1 else 0)
  }

  /** The edge a note record stands for. */
  function NoteEdgeOf(r: Record): NoteEdge
  {
    NoteEdge(r.tsUs, r.channel, r.a, r.b, r.extra == 1)
  }

  /** The records of the queued edges, in FIFO order. */
  function NoteRecords(q: seq<NoteEdge>): (rs: seq<Record>)
    ensures |rs| == |q|
    ensures forall k | 0 <= k < |q| :: rs[k] == NoteRecord(q[k])
  {
    if q == [] then [] else [NoteRecord(q[0])] + NoteRecords(q[1..])
  }

  lemma NoteRecordsSnoc(q: seq<NoteEdge>, k: nat)
    requires k < |q|
    ensures NoteRecords(q[..k + 1]) == NoteRecords(q[..k]) + [NoteRecord(q[k])]
  {
    var a, b := NoteRecords(q[..k + 1]), NoteRecords(q[..k]) + [NoteRecord(q[k])];
    assert |a| == |b|;
    forall i | 0 <= i < |a|
      ensures a[i] == b[i]
    {
    }
  }

  // ---------------------------------------------------------------------
  // What one raw message does to the shared state

  function StateAfter(s: State, raw: RawMsg): State
    requires DataBytesIndexable(raw)
  {
    match Route(raw)
    case Store(u) => Apply(s, u)
    case _ => s
  }

  function NotesAfter(q: seq<NoteEdge>, raw: RawMsg): seq<NoteEdge>
  {
    match Route(raw)
    case PushEdge(e) => NotePushed(q, e)
    case _ => q
  }

  function DroppedNoteAfter(q: seq<NoteEdge>, dropped: uint32, raw: RawMsg): uint32
  {
    if Route(raw).PushEdge? && |q| >= NOTE_QUEUE_CAP then WrappingIncrement(dropped) else dropped
  }

  /** A message too short for its kind, or of an unknown kind, changes
      neither the store, nor the note queue, nor the drop counter. */
  lemma ShortMessageInert(s: State, q: seq<NoteEdge>, dropped: uint32, raw: RawMsg)
    requires Kind(raw.status) < 0x80 || Kind(raw.status) == 0xF0 || raw.len < MinLength(Kind(raw.status))
    ensures DataBytesIndexable(raw) && StateAfter(s, raw) == s
    ensures NotesAfter(q, raw) == q && DroppedNoteAfter(q, dropped, raw) == dropped
  {
    RouteIgnores(raw);
  }

  /** A note edge leaves the store alone; a stored update leaves the note
      queue alone. */
  lemma EffectsDisjoint(s: State, q: seq<NoteEdge>, dropped: uint32, raw: RawMsg)
    requires DataBytesIndexable(raw)
    ensures Route(raw).PushEdge? ==> StateAfter(s, raw) == s
    ensures !Route(raw).PushEdge? ==> NotesAfter(q, raw) == q && DroppedNoteAfter(q, dropped, raw) == dropped
  {
  }

  // ---------------------------------------------------------------------
  // The dispatch drain, as specifications

  /** The store with channel `ch`'s marks cleared, as the drain leaves it
      after that channel. */
  function ChannelDrained(s: State, ch: nat): State
    requires ch < 16
  {
    s.(cc := s.cc.(dirty := s.cc.dirty[ch := EMPTY]),
       pbDirty := s.pbDirty[ch := false],
       chPressureDirty := s.chPressureDirty[ch := false],
       programDirty := s.programDirty[ch := false],
       polyPressure := s.polyPressure.(dirty := s.polyPressure.dirty[ch := EMPTY]))
  }

  /** The store once channels `0 .. n` are drained. */
  function DrainedUpTo(s: State, n: nat): State
    requires n <= 16
  {
    if n == 0 then s else ChannelDrained(DrainedUpTo(s, n - 1), n - 1)
  }

  /** Draining channels `0 .. n` clears their marks, keeps the marks of the
      other channels and keeps every value and stamp. */
  lemma {:induction false} DrainedUpToKeeps(s: State, n: nat)
    requires n <= 16
    ensures var r := DrainedUpTo(s, n);
      && r.cc.values == s.cc.values && r.cc.ts == s.cc.ts
      && r.polyPressure.values == s.polyPressure.values && r.polyPressure.ts == s.polyPressure.ts
      && r.pb == s.pb && r.pbTs == s.pbTs && r.chPressure == s.chPressure
      && r.chPressureTs == s.chPressureTs && r.program == s.program && r.programTs == s.programTs
      && (forall c | 0 <= c < 16 :: r.cc.dirty[c] == (if c < n then EMPTY else s.cc.dirty[c]))
      && (forall c | 0 <= c < 16 :: r.polyPressure.dirty[c] == (if c < n then EMPTY else s.polyPressure.dirty[c]))
      && (forall c | 0 <= c < 16 :: r.pbDirty[c] == (n <= c && s.pbDirty[c]))
      && (forall c | 0 <= c < 16 :: r.chPressureDirty[c] == (n <= c && s.chPressureDirty[c]))
      && (forall c | 0 <= c < 16 :: r.programDirty[c] == (n <= c && s.programDirty[c]))
  {
    if n > 0 {
      DrainedUpToKeeps(s, n - 1);
    }
  }

  /** Draining all sixteen channels is `Drained`. */
  lemma DrainedUpToAll(s: State)
    ensures DrainedUpTo(s, 16) == Drained(s)
  {
    var r, d := DrainedUpTo(s, 16), Drained(s);
    DrainedUpToKeeps(s, 16);
    assert r.cc.dirty == d.cc.dirty;
    assert r.polyPressure.dirty == d.polyPressure.dirty;
    assert r.pbDirty == d.pbDirty;
    assert r.chPressureDirty == d.chPressureDirty;
    assert r.programDirty == d.programDirty;
  }

  /** Channel `n` drains the same records once the channels before it are
      drained. */
  lemma ChannelRecordsOfDrained(s: State, n: nat)
    requires n < 16
    ensures ChannelRecords(DrainedUpTo(s, n), n) == ChannelRecords(s, n)
  {
    var r := DrainedUpTo(s, n);
    DrainedUpToKeeps(s, n);
    SetIndicesBelow(s.cc.dirty[n]);
    SetIndicesBelow(s.polyPressure.dirty[n]);
    GridRecordsSameData(r.cc, s.cc, KIND_CC, n, SetIndices(s.cc.dirty[n]));
    GridRecordsSameData(r.polyPressure, s.polyPressure, KIND_POLY_PRESS, n, SetIndices(s.polyPressure.dirty[n]));
  }

  lemma GridRecordsSameData(g1: Grid, g2: Grid, kind: uint8, ch: nat, idx: seq<nat>)
    requires ch < 16 && forall k | 0 <= k < |idx| :: idx[k] < 128
    requires g1.values == g2.values && g1.ts == g2.ts
    ensures GridRecords(g1, kind, ch, idx) == GridRecords(g2, kind, ch, idx)
  {
    var r1, r2 := GridRecords(g1, kind, ch, idx), GridRecords(g2, kind, ch, idx);
    forall k | 0 <= k < |idx|
      ensures r1[k] == r2[k]
    {
      assert r1[k] == GridRecord(g1, kind, ch, idx[k]);
    }
  }

  /** Appends the records of the listed slots, as the drain's inner
      `for cc in cc_indices` and `for note in poly_indices` loops do. */
  method AppendGridRecords(records: seq<Record>, g: Grid, kind: uint8, ch: nat, indices: seq<uint8>)
    returns (out: seq<Record>)
    requires ch < 16 && forall k | 0 <= k < |indices| :: indices[k] < 128
    ensures out == records + GridRecords(g, kind, ch, indices)
  {
    out := records;
    for k := 0 to |indices|
      invariant out == records + GridRecords(g, kind, ch, indices[..k])
    {
      var idx := indices[k];
      out := out + [Record(g.ts[ch][idx], kind, ch, idx, g.values[ch][idx], 0, 0)];
      ghost var before, after := GridRecords(g, kind, ch, indices[..k]), GridRecords(g, kind, ch, indices[..k + 1]);
      assert after == before + [GridRecord(g, kind, ch, idx)];
    }
    assert indices[..|indices|] == indices;
  }

  // ---------------------------------------------------------------------
  // The shared state

  /** `SharedState`: the coalescing store, the note queue and the two drop
      counters. Each lock or atomic is a field here. */
  class SharedState {
    var state: State
    var notes: seq<NoteEdge>
    var droppedRaw: uint32
    var droppedNote: uint32

    /** The note queue is bounded. */
    ghost predicate Valid()
      reads this
    {
      |notes| <= NOTE_QUEUE_CAP
    }

    constructor ()
      ensures Valid()
      ensures state == Default() && notes == [] && droppedRaw == 0 && droppedNote == 0
    {
      state := Default();
      notes := [];
      droppedRaw := 0;
      droppedNote := 0;
    }

    /** `push_note`: drops the oldest edge and counts it when the queue is
        full, then appends the new edge. */
    method PushNote(edge: NoteEdge)
      requires Valid()
      modifies this
      ensures Valid()
      ensures notes == NotePushed(old(notes), edge)
      ensures droppedNote == (if |old(notes)| >= NOTE_QUEUE_CAP then WrappingIncrement(old(droppedNote))
                              else old(droppedNote))
      ensures state == old(state) && droppedRaw == old(droppedRaw)
    {
      if |notes| >= NOTE_QUEUE_CAP {
        notes := notes[1..];
        droppedNote := WrappingIncrement(droppedNote);
      }
      notes := notes + [edge];
    }

    /** `handle_raw`. */
    method HandleRaw(raw: RawMsg)
      requires Valid() && DataBytesIndexable(raw)
      modifies this
      ensures Valid()
      ensures state == StateAfter(old(state), raw)
      ensures notes == NotesAfter(old(notes), raw)
      ensures droppedNote == DroppedNoteAfter(old(notes), old(droppedNote), raw)
      ensures droppedRaw == old(droppedRaw)
    {
      var kind, channel := Kind(raw.status), Channel(raw.status);
      if kind == 0x80 {
        if raw.len >= 3 {
          assert Route(raw) == PushEdge(NoteEdge(raw.tsUs, channel, raw.data1, raw.data2, false));
          PushNote(NoteEdge(raw.tsUs, channel, raw.data1, raw.data2, false));
        } else {
          assert Route(raw) == Ignore;
        }
      } else if kind == 0x90 {
        if raw.len >= 3 {
          var on := raw.data2 != 0;
          assert Route(raw) == PushEdge(NoteEdge(raw.tsUs, channel, raw.data1, raw.data2, on));
          PushNote(NoteEdge(raw.tsUs, channel, raw.data1, raw.data2, on));
        } else {
          assert Route(raw) == Ignore;
        }
      } else if kind == 0xA0 {
        if raw.len >= 3 {
          assert Route(raw) == Store(PolyPressure(channel, raw.data1, raw.data2, raw.tsUs));
          state := UpdatePolyPressure(state, channel, raw.data1, raw.data2, raw.tsUs);
        } else {
          assert Route(raw) == Ignore;
        }
      } else if kind == 0xB0 {
        if raw.len >= 3 {
          assert Route(raw) == Store(Cc(channel, raw.data1, raw.data2, raw.tsUs));
          state := UpdateCc(state, channel, raw.data1, raw.data2, raw.tsUs);
        } else {
          assert Route(raw) == Ignore;
        }
      } else if kind == 0xC0 {
        if raw.len >= 2 {
          assert Route(raw) == Store(Program(channel, raw.data1, raw.tsUs));
          state := UpdateProgram(state, channel, raw.data1, raw.tsUs);
        } else {
          assert Route(raw) == Ignore;
        }
      } else if kind == 0xD0 {
        if raw.len >= 2 {
          assert Route(raw) == Store(ChPressure(channel, raw.data1, raw.tsUs));
          state := UpdateChPressure(state, channel, raw.data1, raw.tsUs);
        } else {
          assert Route(raw) == Ignore;
        }
      } else if kind == 0xE0 {
        if raw.len >= 3 {
          assert Route(raw) == Store(PitchBend(channel, raw.data1, raw.data2, raw.tsUs));
          state := UpdatePitchBend(state, channel, raw.data1, raw.data2, raw.tsUs);
        } else {
          assert Route(raw) == Ignore;
        }
      } else {
        assert Route(raw) == Ignore;
      }
    }

    /** The note half of a tick: every queued edge popped from the front and
        turned into a record. */
    method DrainNotes() returns (records: seq<Record>)
      modifies this
      ensures records == NoteRecords(old(notes))
      ensures notes == [] && Valid()
      ensures state == old(state) && droppedRaw == old(droppedRaw) && droppedNote == old(droppedNote)
    {
      records := [];
      ghost var queued := notes;
      while notes != []
        invariant |notes| <= |queued| && notes == queued[|queued| - |notes|..]
        invariant records == NoteRecords(queued[..|queued| - |notes|])
        modifies `notes
        decreases |notes|
      {
        NoteRecordsSnoc(queued, |queued| - |notes|);
        var edge := notes[0];
        notes := notes[1..];
        records := records + [Record(edge.tsUs, KIND_NOTE, edge.channel, edge.note, edge.velocity,
                                     0, if edge.on then 1 else 0)];
      }
      assert queued[..|queued|] == queued;
    }

    /** What a tick drains: the queued edges in FIFO order, then the
        store's pending records in channel order. */
    function Backlog(): seq<Record>
      reads this
    {
      NoteRecords(notes) + Pending(state)
    }

    /** The head of a tick: both drop counters read and reset, then the
        note queue and the store drained, notes first. */
    method TakeAll() returns (records: seq<Record>, dropped: uint32, droppedNotes: uint32)
      modifies this
      ensures records == old(Backlog())
      ensures dropped == old(droppedRaw) && droppedNotes == old(droppedNote)
      ensures notes == [] && state == Drained(old(state)) && droppedRaw == 0 && droppedNote == 0
    {
      dropped := droppedRaw;
      droppedRaw := 0;
      droppedNotes := droppedNote;
      droppedNote := 0;
      records := DrainNotes();
      records := DrainState(records);
    }

    /** The store half of a tick, on the store behind the lock. */
    method DrainState(before: seq<Record>) returns (records: seq<Record>)
      modifies this
      ensures records == before + Pending(old(state))
      ensures state == Drained(old(state))
      ensures notes == old(notes) && droppedRaw == old(droppedRaw) && droppedNote == old(droppedNote)
    {
      records, state := DrainStore(state, before);
    }
  }

  /** The drain of the store: channel by channel, the dirty controllers,
      pitch bend, channel pressure, program and dirty poly pressures are
      appended to `before` and their marks cleared. */
  method DrainStore(s0: State, before: seq<Record>) returns (records: seq<Record>, s: State)
    ensures records == before + Pending(s0)
    ensures s == Drained(s0)
  {
    records, s := before, s0;
    for ch := 0 to 16
      invariant records == before + PendingUpTo(s0, ch)
      invariant s == DrainedUpTo(s0, ch)
    {
      ChannelRecordsOfDrained(s0, ch);
      AppendAssoc(before, PendingUpTo(s0, ch), ChannelRecords(s0, ch));
      records, s := DrainChannel(s, ch, records);
    }
    DrainedUpToAll(s0);
  }

  /** One channel of the drain: its records appended to `before` and its
      marks cleared. */
  method DrainChannel(s0: State, ch: nat, before: seq<Record>) returns (records: seq<Record>, s: State)
    requires ch < 16
    ensures records == before + ChannelRecords(s0, ch)
    ensures s == ChannelDrained(s0, ch)
  {
    SetIndicesBelow(s0.cc.dirty[ch]);
    SetIndicesBelow(s0.polyPressure.dirty[ch]);
    s := s0;
    var cc: Grid;
    records, cc := DrainGrid(s.cc, KIND_CC, ch, before);
    s := s.(cc := cc);
    ghost var r1 := records;
    ghost var a := GridRecords(s0.cc, KIND_CC, ch, SetIndices(s0.cc.dirty[ch]));

    ghost var b := if s0.pbDirty[ch] then [PbRecord(s0, ch)] else [];
    ghost var c := if s0.chPressureDirty[ch] then [ChPressureRecord(s0, ch)] else [];
    ghost var d := if s0.programDirty[ch] then [ProgramRecord(s0, ch)] else [];
    records, s := DrainScalars(s, ch, records);
    ghost var r2, r3 := r1 + b, r1 + b + c;
    ghost var r4 := records;

    var poly: Grid;
    records, poly := DrainGrid(s.polyPressure, KIND_POLY_PRESS, ch, records);
    s := s.(polyPressure := poly);
    ghost var e := GridRecords(s0.polyPressure, KIND_POLY_PRESS, ch, SetIndices(s0.polyPressure.dirty[ch]));

    AppendFive(before, a, b, c, d, e, r1, r2, r3, r4, records);
  }

  /** The pitch bend, channel pressure and program part of a channel's
      drain: each one's record appended when it is marked, and its mark
      cleared. */
  method DrainScalars(s0: State, ch: nat, before: seq<Record>) returns (records: seq<Record>, s: State)
    requires ch < 16
    ensures records == before + (if s0.pbDirty[ch] then [PbRecord(s0, ch)] else [])
                              + (if s0.chPressureDirty[ch] then [ChPressureRecord(s0, ch)] else [])
                              + (if s0.programDirty[ch] then [ProgramRecord(s0, ch)] else [])
    ensures s == s0.(pbDirty := s0.pbDirty[ch := false], chPressureDirty := s0.chPressureDirty[ch := false],
                     programDirty := s0.programDirty[ch := false])
  {
    s := s0;
    records := before;
    if s.pbDirty[ch] {
      records := records + [Record(s.pbTs[ch], KIND_PB, ch, 0, 0, s.pb[ch], 0)];
      s := s.(pbDirty := s.pbDirty[ch := false]);
    } else {
      assert s.pbDirty[ch := false] == s.pbDirty;
    }
    if s.chPressureDirty[ch] {
      records := records + [Record(s.chPressureTs[ch], KIND_CH_PRESS, ch, 0, s.chPressure[ch], 0, 0)];
      s := s.(chPressureDirty := s.chPressureDirty[ch := false]);
    } else {
      assert s.chPressureDirty[ch := false] == s.chPressureDirty;
    }
    if s.programDirty[ch] {
      records := records + [Record(s.programTs[ch], KIND_PROG, ch, 0, s.program[ch], 0, 0)];
      s := s.(programDirty := s.programDirty[ch := false]);
    } else {
      assert s.programDirty[ch := false] == s.programDirty;
    }
  }

  /** Five pieces appended one after another to `before` are `before`
      followed by the five pieces joined. */
  lemma AppendFive<T>(before: seq<T>, a: seq<T>, b: seq<T>, c: seq<T>, d: seq<T>, e: seq<T>,
                      r1: seq<T>, r2: seq<T>, r3: seq<T>, r4: seq<T>, r5: seq<T>)
    requires r1 == before + a && r2 == r1 + b && r3 == r2 + c && r4 == r3 + d && r5 == r4 + e
    ensures r5 == before + (a + b + c + d + e)
  {
    AppendAssoc(before, a, b);
    AppendAssoc(before, a + b, c);
    AppendAssoc(before, a + b + c, d);
    AppendAssoc(before, a + b + c + d, e);
  }

  /** The controller or poly-pressure part of a channel's drain: the set
      indices collected, the marks cleared, then one record per index. */
  method DrainGrid(g: Grid, kind: uint8, ch: nat, before: seq<Record>) returns (records: seq<Record>, r: Grid)
    requires ch < 16
    ensures forall k | 0 <= k < |SetIndices(g.dirty[ch])| :: SetIndices(g.dirty[ch])[k] < 128
    ensures records == before + GridRecords(g, kind, ch, SetIndices(g.dirty[ch]))
    ensures r == g.(dirty := g.dirty[ch := EMPTY])
  {
    var indices := CollectBitset(g.dirty[ch]);
    SetIndicesBelow(g.dirty[ch]);
    r := g.(dirty := g.dirty[ch := EMPTY]);
    records := AppendGridRecords(before, r, kind, ch, indices);
    GridRecordsSameData(r, g, kind, ch, indices);
  }

  // ---------------------------------------------------------------------
  // The input

  /** Where a concurrent `close` lands relative to one tick: not at all,
      between the tick's start and its stop check, or between the stop
      check and the callback. A close before the tick starts is `stop`
      already set. */
  datatype CloseRace = NoClose | DuringDrain | BeforeCallback

  datatype TickOutcome =
    | Stopped
    | Idle
    | Dispatched(packet: seq<uint8>, delivered: bool)

  /** The deadline rule: a tick that is more than a period late restarts
      the schedule from now, otherwise the schedule advances one period. */
  function NextDeadline(next: int, now: int, period: nat): (r: int)
    ensures now <= next + period ==> r == next + period
    ensures now > next + period ==> r == now + period
  {
    if now > next + period then now + period else next + period
  }

  /** The schedule never runs backwards or fires back to back: the next
      deadline is at least a period after the old one and not before now,
      and a tick woken at or after its deadline is next due within one
      period of now. */
  lemma DeadlineBounds(next: int, now: int, period: nat)
    ensures NextDeadline(next, now, period) >= next + period
    ensures NextDeadline(next, now, period) >= now
    ensures now >= next ==> NextDeadline(next, now, period) <= now + period
  {
  }

  /** What a tick that got past its stop check at the head returns, for
      the records it drained and the drop counts it read. */
  function TickOutcomeOf(records: seq<Record>, droppedRaw: uint32, droppedNote: uint32,
                         dispatchTsUs: uint64, race: CloseRace, enabled: bool): TickOutcome
  {
    if race == DuringDrain then Stopped
    else if records == [] && droppedRaw == 0 && droppedNote == 0 then Idle
    else Dispatched(PacketBytes(SortByTs(records), dispatchTsUs, droppedRaw, droppedNote, 0),
                    enabled && race == NoClose)
  }

  /** An opened input: the stop and callback-enabled flags, the bounded
      hand-off queue between the driver callback and the coalescer, and the
      dispatch schedule in integer time units. */
  class Input {
    const shared: SharedState
    var rawQueue: seq<RawMsg>
    var stop: bool
    var callbackEnabled: bool
    var nextTick: int
    const period: nat

    ghost predicate Valid()
      reads this, shared
    {
      |rawQueue| <= RAW_QUEUE_CAP && shared.Valid() && period > 0
    }

    constructor (period: nat, start: int)
      requires period > 0
      ensures Valid() && fresh(shared)
      ensures shared.state == Default() && shared.notes == []
      ensures shared.droppedRaw == 0 && shared.droppedNote == 0
      ensures rawQueue == [] && !stop && callbackEnabled
      ensures this.period == period && nextTick == start + period
    {
      shared := new SharedState();
      rawQueue := [];
      stop := false;
      callbackEnabled := true;
      this.period := period;
      nextTick := start + period;
    }

    /** The driver callback: filter the message and offer it to the
        hand-off queue, counting it as dropped when the queue is full. */
    method Ingest(ts: uint64, msg: seq<uint8>)
      requires Valid()
      modifies this, shared
      ensures Valid()
      ensures old(stop) || ToRawMsg(ts, msg).None? ==>
        rawQueue == old(rawQueue) && shared.droppedRaw == old(shared.droppedRaw)
      ensures !old(stop) && ToRawMsg(ts, msg).Some? && |old(rawQueue)| < RAW_QUEUE_CAP ==>
        rawQueue == old(rawQueue) + [ToRawMsg(ts, msg).value] && shared.droppedRaw == old(shared.droppedRaw)
      ensures !old(stop) && ToRawMsg(ts, msg).Some? && |old(rawQueue)| >= RAW_QUEUE_CAP ==>
        rawQueue == old(rawQueue) && shared.droppedRaw == WrappingIncrement(old(shared.droppedRaw))
      ensures stop == old(stop) && callbackEnabled == old(callbackEnabled) && nextTick == old(nextTick)
      ensures shared.state == old(shared.state) && shared.notes == old(shared.notes)
      ensures shared.droppedNote == old(shared.droppedNote)
    {
      if stop {
        return;
      }
      if |msg| == 0 {
        return;
      }
      var status := msg[0];
      if status < 0x80 || status >= 0xF0 {
        return;
      }
      var len := |msg|;
      var data1 := if len > 1 then msg[1] else 0;
      var data2 := if len > 2 then msg[2] else 0;
      var raw := RawMsg(ts, status, data1, data2, Min(len, 255));
      if |rawQueue| < RAW_QUEUE_CAP {
        rawQueue := rawQueue + [raw];
      } else {
        shared.droppedRaw := WrappingIncrement(shared.droppedRaw);
      }
    }

    /** One step of the coalescer: the oldest queued message is taken off
        the hand-off queue and handled. */
    method CoalesceOne()
      requires Valid() && rawQueue != [] && DataBytesIndexable(rawQueue[0])
      modifies this, shared
      ensures Valid()
      ensures rawQueue == old(rawQueue)[1..]
      ensures shared.state == StateAfter(old(shared.state), old(rawQueue)[0])
      ensures shared.notes == NotesAfter(old(shared.notes), old(rawQueue)[0])
      ensures shared.droppedNote == DroppedNoteAfter(old(shared.notes), old(shared.droppedNote), old(rawQueue)[0])
      ensures shared.droppedRaw == old(shared.droppedRaw)
      ensures stop == old(stop) && callbackEnabled == old(callbackEnabled) && nextTick == old(nextTick)
    {
      var raw := rawQueue[0];
      rawQueue := rawQueue[1..];
      shared.HandleRaw(raw);
    }

    /** `InputHandle::close`: the callback is disabled before stop is set. */
    method Close()
      modifies this`stop, this`callbackEnabled
      ensures !callbackEnabled && stop
      ensures rawQueue == old(rawQueue) && nextTick == old(nextTick)
    {
      callbackEnabled := false;
      stop := true;
    }

    /** One iteration of the dispatch loop, woken at `now` (no earlier than
        the deadline, after its sleep) with `dispatchTsUs` microseconds since
        the input opened. */
    method Tick(now: int, dispatchTsUs: uint64, race: CloseRace) returns (outcome: TickOutcome)
      requires Valid()
      modifies this, shared
      ensures Valid()
      ensures old(stop) ==> outcome == Stopped && unchanged(this) && unchanged(shared)
      ensures !old(stop) ==>
        && nextTick == NextDeadline(old(nextTick), now, period)
        && shared.notes == [] && shared.state == Drained(old(shared.state))
        && shared.droppedRaw == 0 && shared.droppedNote == 0
        && rawQueue == old(rawQueue)
        && outcome == TickOutcomeOf(old(shared.Backlog()), old(shared.droppedRaw), old(shared.droppedNote),
                                    dispatchTsUs, race, old(callbackEnabled))
        && (race == DuringDrain || (race == BeforeCallback && outcome.Dispatched?) ==> stop && !callbackEnabled)
        && (race == NoClose || (race == BeforeCallback && !outcome.Dispatched?) ==>
              !stop && callbackEnabled == old(callbackEnabled))
    {
      if stop {
        return Stopped;
      }
      outcome := TickDue(now, dispatchTsUs, race);
    }

    /** A tick that finds the input still open: the deadline advanced, the
        backlog drained, then the dispatch. */
    method TickDue(now: int, dispatchTsUs: uint64, race: CloseRace) returns (outcome: TickOutcome)
      requires Valid() && !stop
      modifies this, shared
      ensures Valid()
      ensures nextTick == NextDeadline(old(nextTick), now, period)
      ensures shared.notes == [] && shared.state == Drained(old(shared.state))
      ensures shared.droppedRaw == 0 && shared.droppedNote == 0
      ensures rawQueue == old(rawQueue)
      ensures outcome == TickOutcomeOf(old(shared.Backlog()), old(shared.droppedRaw), old(shared.droppedNote),
                                       dispatchTsUs, race, old(callbackEnabled))
      ensures race == DuringDrain || (race == BeforeCallback && outcome.Dispatched?) ==> stop && !callbackEnabled
      ensures race == NoClose || (race == BeforeCallback && !outcome.Dispatched?) ==>
        !stop && callbackEnabled == old(callbackEnabled)
    {
      nextTick := NextDeadline(nextTick, now, period);
      var records, droppedRaw, droppedNote := shared.TakeAll();
      outcome := Dispatch(records, droppedRaw, droppedNote, dispatchTsUs, race);
    }

    /** The rest of a tick once the drops are read and the records drained:
        the stop check, the idle check, then the sort, the encoding and the
        callback, each stop check seeing a close that `race` places before it. */
    method Dispatch(records: seq<Record>, droppedRaw: uint32, droppedNote: uint32,
                    dispatchTsUs: uint64, race: CloseRace) returns (outcome: TickOutcome)
      requires !stop
      modifies this`stop, this`callbackEnabled
      ensures outcome == TickOutcomeOf(records, droppedRaw, droppedNote, dispatchTsUs, race, old(callbackEnabled))
      ensures race == DuringDrain || (race == BeforeCallback && outcome.Dispatched?) ==> stop && !callbackEnabled
      ensures race == NoClose || (race == BeforeCallback && !outcome.Dispatched?) ==>
        !stop && callbackEnabled == old(callbackEnabled)
      ensures rawQueue == old(rawQueue) && nextTick == old(nextTick)
    {
      if race == DuringDrain {
        Close();
      }
      if stop {
        return Stopped;
      }
      if records == [] && droppedRaw == 0 && droppedNote == 0 {
        return Idle;
      }
      var sorted := SortByTs(records);
      var packet := EncodePacket(sorted, dispatchTsUs, droppedRaw, droppedNote, 0);
      if race == BeforeCallback {
        Close();
      }
      outcome := Dispatched(packet, callbackEnabled);
    }
  }

  // ---------------------------------------------------------------------
  // Properties of a tick

  /** A tick is idle exactly when nothing was drained and nothing dropped,
      and no close stopped it. */
  lemma IdleExactly(records: seq<Record>, droppedRaw: uint32, droppedNote: uint32,
                    dispatchTsUs: uint64, race: CloseRace, enabled: bool)
    ensures TickOutcomeOf(records, droppedRaw, droppedNote, dispatchTsUs, race, enabled) == Idle
      <==> race != DuringDrain && records == [] && droppedRaw == 0 && droppedNote == 0
  {
  }

  /** A packet is delivered only while the callback is enabled and no close
      has begun. */
  lemma DeliveredOnlyIfEnabled(records: seq<Record>, droppedRaw: uint32, droppedNote: uint32,
                               dispatchTsUs: uint64, race: CloseRace, enabled: bool)
    requires TickOutcomeOf(records, droppedRaw, droppedNote, dispatchTsUs, race, enabled).Dispatched?
    ensures TickOutcomeOf(records, droppedRaw, droppedNote, dispatchTsUs, race, enabled).delivered
      <==> enabled && race == NoClose
  {
  }

  /** The packet of a tick carries every drained record exactly once,
      ordered by timestamp, records of equal timestamp in drain order, and
      the two drop counts; it decodes back to exactly that. */
  lemma DispatchedPacket(notes: seq<NoteEdge>, s: State, droppedRaw: uint32, droppedNote: uint32,
                         dispatchTsUs: uint64, race: CloseRace, enabled: bool)
    requires |notes| <= NOTE_QUEUE_CAP
    ensures var records := NoteRecords(notes) + Pending(s);
      var sorted := SortByTs(records);
      var outcome := TickOutcomeOf(records, droppedRaw, droppedNote, dispatchTsUs, race, enabled);
      && (outcome.Dispatched? ==> outcome.packet == PacketBytes(sorted, dispatchTsUs, droppedRaw, droppedNote, 0))
      && DecodePacket(PacketBytes(sorted, dispatchTsUs, droppedRaw, droppedNote, 0))
         == Some(Contents(0, dispatchTsUs, droppedRaw, droppedNote, sorted))
      && SortedByTs(sorted)
      && multiset(sorted) == multiset(records)
      && forall ts :: WithTs(sorted, ts) == WithTs(records, ts)
  {
    PendingCount(s);
    PacketOfRecords(NoteRecords(notes) + Pending(s), droppedRaw, droppedNote, dispatchTsUs, race, enabled);
  }

  /** The same, for any batch of fewer than 2^32 drained records. */
  lemma PacketOfRecords(records: seq<Record>, droppedRaw: uint32, droppedNote: uint32,
                        dispatchTsUs: uint64, race: CloseRace, enabled: bool)
    requires |records| < U32_MODULUS
    ensures var sorted := SortByTs(records);
      var outcome := TickOutcomeOf(records, droppedRaw, droppedNote, dispatchTsUs, race, enabled);
      && (outcome.Dispatched? ==> outcome.packet == PacketBytes(sorted, dispatchTsUs, droppedRaw, droppedNote, 0))
      && DecodePacket(PacketBytes(sorted, dispatchTsUs, droppedRaw, droppedNote, 0))
         == Some(Contents(0, dispatchTsUs, droppedRaw, droppedNote, sorted))
      && SortedByTs(sorted)
      && multiset(sorted) == multiset(records)
      && forall ts :: WithTs(sorted, ts) == WithTs(records, ts)
  {
    DecodeSorted(records, dispatchTsUs, droppedRaw, droppedNote);
    SortByTsSpec(records);
  }

  /** A sorted batch of fewer than 2^32 records decodes back to itself. */
  lemma DecodeSorted(records: seq<Record>, dispatchTsUs: uint64, droppedRaw: uint32, droppedNote: uint32)
    requires |records| < U32_MODULUS
    ensures DecodePacket(PacketBytes(SortByTs(records), dispatchTsUs, droppedRaw, droppedNote, 0))
      == Some(Contents(0, dispatchTsUs, droppedRaw, droppedNote, SortByTs(records)))
  {
    var sorted := SortByTs(records);
    assert |sorted| == |multiset(sorted)| == |multiset(records)| == |records|;
    DecodeEncoded(sorted, dispatchTsUs, droppedRaw, droppedNote, 0);
  }

  /** After a tick drained the store and the note queue, a tick with
      nothing new in between and no drops is idle. */
  lemma QuietAfterDrain(s: State, dispatchTsUs: uint64, enabled: bool)
    ensures TickOutcomeOf(NoteRecords([]) + Pending(Drained(s)), 0, 0, dispatchTsUs, NoClose, enabled) == Idle
  {
    DrainedPendingEmpty(s);
  }
}
