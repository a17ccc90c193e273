# midi_bridge, modelled in Dafny

A model of the MIDI bridge in `apps/deno-notebooks/native/midi_bridge`, with
its threads, locks and foreign calls taken away.

**Input path** (`input.rs`):
- The driver callback filters each raw MIDI message. It then either hands
  the message to a bounded queue or counts it as dropped.
- The coalescer routes each message on its status nibble:
  - note-on and note-off edges go to a bounded FIFO;
  - controller, pitch-bend, channel-pressure, program and poly-pressure
    values go to a latest-value-wins store. The store marks a slot dirty
    only when its value changes. Controllers and poly pressure use
    128-bit bitsets.
- A periodic tick does the rest:
  1. it swaps out both drop counters;
  2. it drains the note FIFO and every dirty slot, in a fixed order;
  3. it skips idle ticks;
  4. it stable-sorts by timestamp, encodes a packet and gates the callback.

**Wire format** (`packet.rs`): a little-endian packet with a 32-byte header
and 16-byte records.

**FFI entry points** (`lib.rs`): one handle counter, the input and output
tables, open/close/send result codes, and the capacity protocol of
`write_json_buffer`.

**Modules:**
- `Ints`: fixed-width integer types, wrap-around of the atomic counters,
  and `Option`.
- `Bitset`: `set_bit` and `collect_bitset` over two `bv64` words.
- `Packet`: `encode_packet`, its byte layout, a decoder, and both round
  trips.
- `Slots`: the `State` value, its update rules, and the records a drain
  emits.
- `StableSort`: the ordering `sort_by_key` produces.
- `Input`:
  - the `SharedState` class: state, note FIFO, counters;
  - the `Input` class: flags, raw queue, schedule;
  - ingest, `handle_raw`, `push_note`, and one dispatch tick.
- `Bridge`: the handle registry class, the UTF-8 check of port ids, and
  `write_json_buffer`.

Deliberate modelling choices:
- Locks and atomics are plain fields, updated in sequence.
- A `close` that races a tick is a parameter saying where its stores land.
- Time is an integer, and the period a positive integer.
- Null pointers are `None`. The caller's output buffer is an array.

Two facts about the code worth stating up front:
- **Header size.** `encode_packet` writes a 32-byte header: magic,
  version, flags, the timestamp, two drop counters, the count and a zero
  word.
- **Centred pitch bend.** The bend slot starts at 0, so a first centred
  pitch bend changes nothing and emits nothing
  (`Slots.FreshCentredBendSilent`).

## Model

All source paths are under `apps/deno-notebooks/native/midi_bridge/src/`.

| member | source | states |
|---|---|---|
| Ints.WrappingIncrement | apps/deno-notebooks/native/midi_bridge/src/input.rs:268 | `fetch_add(1)` counts up by one and wraps from u32::MAX to 0 |
| Bitset.SetBit | apps/deno-notebooks/native/midi_bridge/src/input.rs:322-326 | after `set_bit(i)`, bit j of the 128-bit set is on exactly when it was on before or j == i; the other word is untouched |
| Bitset.SetBitAt | apps/deno-notebooks/native/midi_bridge/src/input.rs:323-325 | or-ing `1 << (i % 64)` into word `i / 64` sets exactly bit i of the 128-bit set |
| Bitset.TrailingZeros | apps/deno-notebooks/native/midi_bridge/src/input.rs:333 | `trailing_zeros` of a non-zero word is the position of its lowest set bit: that bit is set and every bit below it is clear |
| Bitset.ClearLowest | apps/deno-notebooks/native/midi_bridge/src/input.rs:336 | `val & (val - 1)` clears the lowest set bit and keeps every other bit |
| Bitset.PopLowest | apps/deno-notebooks/native/midi_bridge/src/input.rs:333-336 | the indices of a word are its lowest set index followed by the indices of the word with that bit cleared |
| Bitset.WordIndicesMember | apps/deno-notebooks/native/midi_bridge/src/input.rs:331-337 | an index is reported for a word exactly when its bit is set |
| Bitset.WordIndicesBounds | apps/deno-notebooks/native/midi_bridge/src/input.rs:331-337 | the indices reported for a word lie in its 64-index block and are strictly ascending |
| Bitset.SetIndicesSpec | apps/deno-notebooks/native/midi_bridge/src/input.rs:328-340 | the collected indices are strictly ascending (so each appears once) and are exactly the set bits below 128 |
| Bitset.SetIndicesCount | apps/deno-notebooks/native/midi_bridge/src/input.rs:328-340 | at most 128 indices are collected |
| Bitset.EmptyIndices | apps/deno-notebooks/native/midi_bridge/src/input.rs:390 | a cleared bitset (`[0; 2]`) reports no index |
| Bitset.CollectWord | apps/deno-notebooks/native/midi_bridge/src/input.rs:331-337 | the `while val != 0` loop appends exactly the indices of one word, ascending, offset by the block base |
| Bitset.CollectBitset | apps/deno-notebooks/native/midi_bridge/src/input.rs:328-340 | `collect_bitset` returns exactly the ascending set indices of both words |
| Packet.U16Le | apps/deno-notebooks/native/midi_bridge/src/packet.rs:52-54 | `push_u16` appends 2 bytes whose little-endian value is v |
| Packet.U32Le | apps/deno-notebooks/native/midi_bridge/src/packet.rs:56-58 | `push_u32` appends 4 bytes whose little-endian value is v |
| Packet.U64Le | apps/deno-notebooks/native/midi_bridge/src/packet.rs:60-62 | `push_u64` appends 8 bytes whose little-endian value is v |
| Packet.U16LeOf | apps/deno-notebooks/native/midi_bridge/src/packet.rs:52-54 | every 2 bytes are the encoding of the value they read as |
| Packet.U32LeOf | apps/deno-notebooks/native/midi_bridge/src/packet.rs:56-58 | every 4 bytes are the encoding of the value they read as |
| Packet.U64LeOf | apps/deno-notebooks/native/midi_bridge/src/packet.rs:60-62 | every 8 bytes are the encoding of the value they read as |
| Packet.I16Bits | apps/deno-notebooks/native/midi_bridge/src/packet.rs:64-66 | two's complement: non-negative values keep their value, negative ones get the top bit |
| Packet.I16OfBits | apps/deno-notebooks/native/midi_bridge/src/packet.rs:64-66 | reading the 16 bits back as i16 inverts the two's-complement map |
| Packet.I16Le | apps/deno-notebooks/native/midi_bridge/src/packet.rs:64-66 | `push_i16` appends 2 bytes that read back as v, sign included |
| Packet.I16LeOf | apps/deno-notebooks/native/midi_bridge/src/packet.rs:64-66 | every 2 bytes are the i16 encoding of the value they read as |
| Packet.HeaderBytes | apps/deno-notebooks/native/midi_bridge/src/packet.rs:30-37 | the header is 32 bytes |
| Packet.RecordBytes | apps/deno-notebooks/native/midi_bridge/src/packet.rs:40-46 | a record is 16 bytes |
| Packet.RecordsBytes | apps/deno-notebooks/native/midi_bridge/src/packet.rs:39-47 | n records take 16·n bytes |
| Packet.RecordsBytesAppend | apps/deno-notebooks/native/midi_bridge/src/packet.rs:39-47 | one more record appends its own 16 bytes: the body is the records' encodings concatenated in input order |
| Packet.EncodePacket | apps/deno-notebooks/native/midi_bridge/src/packet.rs:22-50 | for every input (no precondition, no failure) the buffer grown by the `push_*` calls and the record loop is the header followed by the record encodings |
| Packet.HeaderLayout | apps/deno-notebooks/native/midi_bridge/src/packet.rs:1-37 | the packet is 32 + 16·n bytes; bytes 0-3 are MAGIC (`52 44 49 4D`), then VERSION 1, flags, dispatch timestamp, dropped_raw, dropped_note, n mod 2^32, and four zero bytes at 28-31 |
| Packet.RecordLayout | apps/deno-notebooks/native/midi_bridge/src/packet.rs:39-47 | record i occupies bytes [32+16i, 48+16i) of the packet |
| Packet.RecordsAt | apps/deno-notebooks/native/midi_bridge/src/packet.rs:39-47 | record i occupies bytes [16i, 16i+16) of the body |
| Packet.DecodeRecords | apps/deno-notebooks/native/midi_bridge/src/packet.rs:39-47 | a body of 16·n bytes decodes to n records |
| Packet.DecodePacket | apps/deno-notebooks/native/midi_bridge/src/packet.rs:22-50 | a packet that decodes has exactly 32 + 16·n bytes for its n records |
| Packet.DecodeRecordBytes | apps/deno-notebooks/native/midi_bridge/src/packet.rs:40-46 | decoding a record's 16 bytes recovers every field (ts, kind, channel, a, b, v16, extra) |
| Packet.DecodeRecordsBytes | apps/deno-notebooks/native/midi_bridge/src/packet.rs:39-47 | decoding the body recovers the records in order |
| Packet.DecodeEncoded | apps/deno-notebooks/native/midi_bridge/src/packet.rs:22-66 | for fewer than 2^32 records, decoding the packet recovers flags, timestamp, both drop counts and every record exactly |
| Packet.EncodeDecoded | apps/deno-notebooks/native/midi_bridge/src/packet.rs:22-50 | every byte string that decodes is the encoding of what it decodes to |
| Packet.EncodeDecodedHeader | apps/deno-notebooks/native/midi_bridge/src/packet.rs:30-37 | a 32-byte prefix with MAGIC, VERSION and a zero final word is the header of the fields it holds |
| Packet.EncodeDecodedRecords | apps/deno-notebooks/native/midi_bridge/src/packet.rs:39-47 | any body of whole records re-encodes to itself |
| Packet.EncodeDecodedRecord | apps/deno-notebooks/native/midi_bridge/src/packet.rs:40-46 | any 16 bytes re-encode to themselves |
| Slots.EmptyGrid | apps/deno-notebooks/native/midi_bridge/src/input.rs:91-93 | a fresh 16×128 grid holds value 0 and timestamp 0 in every slot and has every dirty bitset clear |
| Slots.Default | apps/deno-notebooks/native/midi_bridge/src/input.rs:88-108 | `State::default()` holds value 0 and timestamp 0 in every slot (pitch bend, channel pressure, program, every controller and poly pressure) and nothing dirty |
| Slots.GridSet | apps/deno-notebooks/native/midi_bridge/src/input.rs:276-279 | writing a slot sets its value and timestamp, sets exactly its dirty bit, and leaves every other slot, timestamp and bitset alone |
| Slots.UpdateCc | apps/deno-notebooks/native/midi_bridge/src/input.rs:273-281 | an equal value leaves the whole State unchanged; otherwise only the cc grid changes: slot (ch, ctrl) gets the new value and timestamp, its dirty bit goes on, and every other slot, timestamp and dirty bit is kept |
| Slots.UpdatePolyPressure | apps/deno-notebooks/native/midi_bridge/src/input.rs:312-320 | the same rule for the poly-pressure grid: only slot (ch, note) and its dirty bit change, everything else is kept |
| Slots.BendValue | apps/deno-notebooks/native/midi_bridge/src/input.rs:285-286 | the i16 bend lies in [-8192, 24575] for any data bytes |
| Slots.OrOfShifted | apps/deno-notebooks/native/midi_bridge/src/input.rs:285 | `(msb << 7) \| lsb` is msb·128 + lsb, less 128 when bit 7 of lsb overlaps bit 0 of msb; it stays below 0x8000 |
| Slots.BendOfDataBytes | apps/deno-notebooks/native/midi_bridge/src/input.rs:285-286 | with both bytes ≤ 127 the bend is msb·128 + lsb − 8192, within [-8192, 8191] |
| Slots.UpdatePitchBend | apps/deno-notebooks/native/midi_bridge/src/input.rs:283-292 | an equal bend leaves the State unchanged; otherwise only the channel's bend, timestamp and dirty flag change |
| Slots.UpdateChPressure | apps/deno-notebooks/native/midi_bridge/src/input.rs:294-301 | the same rule for channel pressure |
| Slots.UpdateProgram | apps/deno-notebooks/native/midi_bridge/src/input.rs:303-310 | the same rule for program change |
| Slots.ApplyIdempotent | apps/deno-notebooks/native/midi_bridge/src/input.rs:273-320 | applying any update twice equals applying it once |
| Slots.CcLatestWins | apps/deno-notebooks/native/midi_bridge/src/input.rs:273-281 | after two controller updates the later value wins; the timestamp is that of the last update that changed the value, and the slot is dirty iff it was, or either update changed it |
| Slots.FreshCentredBendSilent | apps/deno-notebooks/native/midi_bridge/src/input.rs:283-292 | since the bend starts at 0 (line 94), a centred bend (LSB 0, MSB 64) on a fresh State changes nothing and leaves nothing to emit |
| Slots.GridRecords | apps/deno-notebooks/native/midi_bridge/src/input.rs:391-402 | one record per collected index, in order, each carrying that slot's stored value and timestamp |
| Slots.Drained | apps/deno-notebooks/native/midi_bridge/src/input.rs:386-458 | after the drain every cc/poly bitset and pb/pressure/program flag is clear, and all values and timestamps are unchanged |
| Slots.NothingPending | apps/deno-notebooks/native/midi_bridge/src/input.rs:386-458 | a State with nothing dirty emits no record |
| Slots.DrainedPendingEmpty | apps/deno-notebooks/native/midi_bridge/src/input.rs:386-458 | a drained State emits nothing on the next tick |
| Slots.GridRecordsMember | apps/deno-notebooks/native/midi_bridge/src/input.rs:391-402 | a record is among a grid's emitted records iff its kind and channel match, its index was collected, and it carries that slot's value and timestamp |
| Slots.ChannelMember | apps/deno-notebooks/native/midi_bridge/src/input.rs:389-456 | a channel emits exactly the records of its dirty slots |
| Slots.PendingExactly | apps/deno-notebooks/native/midi_bridge/src/input.rs:386-458 | a drain emits a record iff it belongs to a dirty slot and carries that slot's stored value and timestamp |
| Slots.PendingCount | apps/deno-notebooks/native/midi_bridge/src/input.rs:386-458 | one drain emits at most 16·259 records |
| StableSort.Insert | apps/deno-notebooks/native/midi_bridge/src/input.rs:468 | insertion adds exactly one copy of the record |
| StableSort.SortByTs | apps/deno-notebooks/native/midi_bridge/src/input.rs:468 | the sorted records are a permutation of the input |
| StableSort.SortSorted | apps/deno-notebooks/native/midi_bridge/src/input.rs:468 | the result is ordered by `ts_us` |
| StableSort.InsertSorted | apps/deno-notebooks/native/midi_bridge/src/input.rs:468 | insertion keeps a sorted sequence sorted |
| StableSort.InsertWithTs | apps/deno-notebooks/native/midi_bridge/src/input.rs:468 | insertion places the record after every record with its timestamp |
| StableSort.WithTsAppend | apps/deno-notebooks/native/midi_bridge/src/input.rs:468 | appending a record extends exactly its timestamp's group |
| StableSort.SortStable | apps/deno-notebooks/native/midi_bridge/src/input.rs:468 | for every timestamp, the records with that timestamp keep their input order (`sort_by_key` is stable) |
| StableSort.SortByTsSpec | apps/deno-notebooks/native/midi_bridge/src/input.rs:468 | the result is sorted, a permutation, and stable |
| StableSort.WithTsMember | apps/deno-notebooks/native/midi_bridge/src/input.rs:468 | a timestamp's group holds exactly the input's records with that timestamp |
| StableSort.SortedSameGroups | apps/deno-notebooks/native/midi_bridge/src/input.rs:468 | two sorted sequences with the same per-timestamp groups are equal |
| StableSort.SortUnique | apps/deno-notebooks/native/midi_bridge/src/input.rs:468 | any sorted sequence with the input's per-timestamp groups is this result, so every stable sort by `ts_us` gives the same records |
| Input.ToRawMsg | apps/deno-notebooks/native/midi_bridge/src/input.rs:139-155 | a message is kept iff it is non-empty with status in [0x80, 0xEF]; then it keeps the timestamp and the first three bytes, missing data bytes become 0, and `len = min(len, 255)` |
| Input.NibbleMasks | apps/deno-notebooks/native/midi_bridge/src/input.rs:209-210 | `status & 0xF0` is the high nibble times 16 and `status & 0x0F` the low nibble |
| Input.Route | apps/deno-notebooks/native/midi_bridge/src/input.rs:208-255 | an edge carries the message's timestamp, channel, note and velocity; a store update carries its channel and timestamp and stays in range when the data bytes are below 128 |
| Input.RouteIgnores | apps/deno-notebooks/native/midi_bridge/src/input.rs:208-255 | a message is ignored iff its kind is unknown, or it is shorter than 3 bytes (0x80, 0x90, 0xA0, 0xB0, 0xE0) or 2 bytes (0xC0, 0xD0) |
| Input.NoteEdgeOn | apps/deno-notebooks/native/midi_bridge/src/input.rs:212-222 | only 0x80 and 0x90 push edges, and an edge is `on` iff it is a 0x90 with non-zero velocity |
| Input.NoteOnVelocityZero | apps/deno-notebooks/native/midi_bridge/src/input.rs:217-222 | a note-on with velocity 0 is pushed as an edge with `on = false` |
| Input.ShortMessageInert | apps/deno-notebooks/native/midi_bridge/src/input.rs:208-255 | an ignored message changes neither the state, the notes nor the drop counter |
| Input.EffectsDisjoint | apps/deno-notebooks/native/midi_bridge/src/input.rs:208-255 | a note message leaves the store alone; any other leaves the notes and drop counter alone |
| Input.NotePushed | apps/deno-notebooks/native/midi_bridge/src/input.rs:257-271 | the new edge is last, and a queue within 4096 entries stays within 4096 (it grows by one until full) |
| Input.NotePushedSuffix | apps/deno-notebooks/native/midi_bridge/src/input.rs:266-270 | the pushed queue is a suffix of old queue + edge: FIFO order is kept and only the front is dropped |
| Input.PushedStep | apps/deno-notebooks/native/midi_bridge/src/input.rs:257-271 | one push followed by the rest equals keeping the newest 4096 of all edges |
| Input.PushedAllNewest | apps/deno-notebooks/native/midi_bridge/src/input.rs:257-271 | any run of pushes leaves exactly the newest ≤ 4096 edges, in arrival order |
| Input.NoteRecord | apps/deno-notebooks/native/midi_bridge/src/input.rs:374-382 | a note record has KIND_NOTE and carries the edge's timestamp, channel, note and velocity, `v16` 0, and `extra` 1 for note-on and 0 for note-off |
| Input.NoteRecords | apps/deno-notebooks/native/midi_bridge/src/input.rs:373-383 | the note drain emits one record per queued edge, in FIFO order |
| Input.NoteRecordsSnoc | apps/deno-notebooks/native/midi_bridge/src/input.rs:373-383 | popping the next edge appends its record |
| Input.DrainedUpToKeeps | apps/deno-notebooks/native/midi_bridge/src/input.rs:388-457 | after channels 0..n-1 are drained, their dirty marks are clear, later channels' are intact, and no value or timestamp changed |
| Input.DrainedUpToAll | apps/deno-notebooks/native/midi_bridge/src/input.rs:388-457 | draining all 16 channels one by one clears the whole State |
| Input.ChannelRecordsOfDrained | apps/deno-notebooks/native/midi_bridge/src/input.rs:388-457 | draining earlier channels does not change what a later channel emits |
| Input.GridRecordsSameData | apps/deno-notebooks/native/midi_bridge/src/input.rs:390-402 | clearing the dirty word before reading the slots does not change the records |
| Input.AppendGridRecords | apps/deno-notebooks/native/midi_bridge/src/input.rs:391-402 | the `for cc in cc_indices` loop appends exactly one record per index |
| Input.DrainGrid | apps/deno-notebooks/native/midi_bridge/src/input.rs:389-402 | collects the channel's indices, clears its dirty word, and appends one record per index; nothing else in the grid changes |
| Input.DrainChannel | apps/deno-notebooks/native/midi_bridge/src/input.rs:389-456 | appends the channel's records: CCs ascending, pb, channel pressure, program, poly pressure ascending; clears exactly that channel's marks |
| Input.DrainScalars | apps/deno-notebooks/native/midi_bridge/src/input.rs:404-441 | appends the pitch-bend, channel-pressure and program records in that order, each only when marked and with its stored value and timestamp, and clears exactly those three marks |
| Input.DrainStore | apps/deno-notebooks/native/midi_bridge/src/input.rs:386-458 | the `for ch in 0..16` loop appends every pending record in channel order and leaves the drained State |
| Input.SharedState.constructor | apps/deno-notebooks/native/midi_bridge/src/input.rs:58-66 | a default State, an empty note queue and zero counters |
| Input.SharedState.PushNote | apps/deno-notebooks/native/midi_bridge/src/input.rs:257-271 | the queue becomes the pushed queue; `dropped_note` rises by one (wrapping) exactly when the queue was full; nothing else changes |
| Input.SharedState.HandleRaw | apps/deno-notebooks/native/midi_bridge/src/input.rs:208-255 | the state, notes and drop counter become what the routed action prescribes; `dropped_raw` is untouched; the queue stays bounded |
| Input.SharedState.DrainNotes | apps/deno-notebooks/native/midi_bridge/src/input.rs:369-384 | the `while let` loop returns one record per edge in FIFO order and empties the queue |
| Input.SharedState.DrainState | apps/deno-notebooks/native/midi_bridge/src/input.rs:386-458 | appends the pending records and leaves the drained State; notes and counters unchanged |
| Input.SharedState.TakeAll | apps/deno-notebooks/native/midi_bridge/src/input.rs:366-458 | both drop counters are returned and reset to 0; the records are the backlog (`Backlog`: the notes in FIFO order, then the store's pending records); queue empty and State drained |
| Input.NextDeadline | apps/deno-notebooks/native/midi_bridge/src/input.rs:359-363 | a tick at most one period late keeps the schedule (`next + p`); a tick later than that restarts it from now (`now + p`) |
| Input.DeadlineBounds | apps/deno-notebooks/native/midi_bridge/src/input.rs:359-363 | the next deadline is at least one period after the old one, never before now, and (for a tick not early) at most one period after now |
| Input.Input.constructor | apps/deno-notebooks/native/midi_bridge/src/input.rs:123-126 | a fresh shared state, an empty raw queue, stop off, callback enabled, first deadline one period after start |
| Input.Input.Ingest | apps/deno-notebooks/native/midi_bridge/src/input.rs:136-158 | nothing is queued when stop is set or the message is filtered; otherwise the message is appended, or when the 4096-entry queue is full, `dropped_raw` rises by one and the queue is unchanged |
| Input.Input.CoalesceOne | apps/deno-notebooks/native/midi_bridge/src/input.rs:196-200 | the coalescer takes the oldest queued message and applies `handle_raw` to the shared state |
| Input.Input.Close | apps/deno-notebooks/native/midi_bridge/src/input.rs:26-32 | `close` disables the callback and sets stop |
| Input.Input.Dispatch | apps/deno-notebooks/native/midi_bridge/src/input.rs:460-472 | after the drain: a close seen at the stop check ends the tick with no callback; an idle tick returns without encoding; otherwise a packet of the stably sorted records is built, delivered only if the callback is still enabled |
| Input.Input.Tick | apps/deno-notebooks/native/midi_bridge/src/input.rs:350-472 | a stopped input changes nothing and reports Stopped; otherwise the deadline advances by `NextDeadline`, the counters are swapped to 0, the backlog is drained, the raw queue is kept, and the outcome is `TickOutcomeOf` the old backlog and counters; where a racing close lands decides the final stop and callback flags |
| Input.Input.TickDue | apps/deno-notebooks/native/midi_bridge/src/input.rs:359-472 | the same promise for a tick that finds the input open, stated without the stop case |
| Input.IdleExactly | apps/deno-notebooks/native/midi_bridge/src/input.rs:464-466 | a tick is idle iff it was not stopped and there are no records and both drop counts are zero |
| Input.DeliveredOnlyIfEnabled | apps/deno-notebooks/native/midi_bridge/src/input.rs:470-472 | a built packet reaches the callback iff the callback was enabled and no close landed before it |
| Input.DecodeSorted | apps/deno-notebooks/native/midi_bridge/src/input.rs:468-469 | the dispatched packet decodes to the sorted records and the tick's counters |
| Input.PacketOfRecords | apps/deno-notebooks/native/midi_bridge/src/input.rs:468-469 | a dispatched packet is the encoding of the records sorted stably by timestamp, with flags 0, and decodes back to them |
| Input.DispatchedPacket | apps/deno-notebooks/native/midi_bridge/src/input.rs:369-472 | for what a tick drains (notes then store), the packet decodes to a sorted, stable permutation of those records |
| Input.QuietAfterDrain | apps/deno-notebooks/native/midi_bridge/src/input.rs:464-466 | with no new input, the tick after a drain is idle |
| Bridge.AsciiIsUtf8 | apps/deno-notebooks/native/midi_bridge/src/lib.rs:46-49 | every ASCII port id passes the UTF-8 check |
| Bridge.Utf8Concat | apps/deno-notebooks/native/midi_bridge/src/lib.rs:46-49 | two valid UTF-8 strings joined are valid |
| Bridge.Utf8Lead | apps/deno-notebooks/native/midi_bridge/src/lib.rs:46-49 | a valid first sequence followed by valid bytes is valid |
| Bridge.Utf8Rejects | apps/deno-notebooks/native/midi_bridge/src/lib.rs:46-49 | an overlong form, a surrogate and a truncated sequence are rejected |
| Bridge.Registry.constructor | apps/deno-notebooks/native/midi_bridge/src/lib.rs:16-18 | the counter starts at 1 and both tables are empty |
| Bridge.Registry.NextHandle | apps/deno-notebooks/native/midi_bridge/src/lib.rs:20-22 | returns the counter and advances it by one (wrapping); the tables are untouched |
| Bridge.Registry.OpenInput | apps/deno-notebooks/native/midi_bridge/src/lib.rs:34-58 | a null, empty or non-UTF-8 port id, or a failed open, returns 0 and changes nothing; a success returns the counter, advances it and inserts the newly built input (one no id holds yet); until the counter wraps, the id is fresh in both tables, the tables stay disjoint and no two ids share an input |
| Bridge.Registry.CloseInput | apps/deno-notebooks/native/midi_bridge/src/lib.rs:60-65 | removes the id and closes the removed input (stop set, callback disabled, its queue and deadline kept); only that one input may change, so an unknown id changes no input and every input still in the table keeps its flags, queue and deadline; outputs and the counter are kept |
| Bridge.Registry.OpenOutput | apps/deno-notebooks/native/midi_bridge/src/lib.rs:67-85 | the same protocol as OpenInput, on the output table |
| Bridge.Registry.CloseOutput | apps/deno-notebooks/native/midi_bridge/src/lib.rs:87-90 | removes the id (an unknown id is a no-op); nothing else changes |
| Bridge.Registry.Send | apps/deno-notebooks/native/midi_bridge/src/lib.rs:92-107 | returns 0 iff the buffer is non-null and non-empty, the handle is an open output, and the send succeeded; otherwise −1; the tables are unchanged |
| Bridge.OpenTwo | apps/deno-notebooks/native/midi_bridge/src/lib.rs:50-56 | inputs and outputs share one counter: an input then an output opened on a fresh registry get ids 1 and 2 |
| Bridge.JsonWriteAsWritten | apps/deno-notebooks/native/midi_bridge/src/lib.rs:109-121 | as written, returns `len mod 2^32` and copies either nothing or all bytes; below 2^32 bytes it copies only when they fit |
| Bridge.JsonWriteOverrun | apps/deno-notebooks/native/midi_bridge/src/lib.rs:110-118 | 2^32 + 1 bytes with a one-byte capacity: the truncated length 1 passes the check and all bytes are copied |
| Bridge.WriteJsonBuffer | apps/deno-notebooks/native/midi_bridge/src/lib.rs:109-121 | always returns the needed length; copies the bytes, leaving the rest of the buffer, exactly when the buffer is non-null with non-zero capacity that holds them all; otherwise writes nothing |
| Bridge.JsonWriteAgrees | apps/deno-notebooks/native/midi_bridge/src/lib.rs:109-121 | below 2^32 bytes the written comparison and the corrected one agree: same return value, bytes copied exactly when they fit |

## Left out

- Threads, the bounded crossbeam channel, `recv_timeout`/`try_iter`, `Mutex` and the atomics.
  - The raw queue is a bounded sequence.
  - `Input.Input.CoalesceOne` handles one queued message at a time.
  - Each lock or atomic operation is a field update.
  - How the coalescer's steps interleave with a tick is not modelled.
- A `close` that races a tick is modelled only where its stores can land relative to the stop check (`CloseRace`). Finer interleavings of the relaxed atomics are not modelled.
- `Instant`, `thread::sleep` and the `f64` period (`1.0 / rate`). Time is an integer, the period a positive integer, and the dispatch timestamp a parameter of the tick.
- `InputHandle::close` drops the `JoinHandle`s without joining them and drops the midir connection. The model keeps only the two flag stores.
- `open_input`'s device work is not part of this model. That covers:
  - port lookup;
  - `connect`;
  - `rate_hz` (defaulting to 250) and `flags`;
  - the thread spawns.

  `Bridge.Registry.OpenInput` takes its outcome as the `device` parameter.
- `OutputHandle::open` and `OutputHandle::send` (output.rs) are foreign I/O. Their outcomes are the `connected` and `sent` parameters.
- `ports.rs`: the port listing and its `serde_json` text are not part of this model. `write_json_buffer` takes the bytes as given.
- Raw pointers and `from_raw_parts`:
  - a null pointer is `None` and a buffer is a sequence;
  - `copy_nonoverlapping` is an array update;
  - the FFI callback invocation is the `delivered` flag of the tick outcome.
- `deno_window` and `fastsleep` are not part of this model.
- Input.SharedState.HandleRaw: requires data bytes below 128 where they index the 128-slot arrays (`DataBytesIndexable`). Ingest never checks this, and in Rust a larger byte panics with an index out of bounds. That panic is not modelled.
- Slots.UpdateCc: the `update_*` functions and `set_bit` mutate `State` in place. Here they return a new `State` value, which `HandleRaw` assigns. `State` is a plain `Clone` value with no aliasing, so only the in-place form is lost.
- StableSort.SortByTs: `Vec::sort_by_key` is a merge sort in place. It is modelled as a pure stable insertion sort. `StableSort.SortUnique` shows that every stable sort by `ts_us` gives the same result.
- Bridge.Registry.OpenInput: freshness and table disjointness are guaranteed only while the counter is below u32::MAX. After 2^32 − 1 opens, `fetch_add` wraps the counter to 0 and ids repeat, as in the source.
- Bridge.Registry.OpenOutput: the same bound on freshness as OpenInput.
- Bridge.Registry.OpenInput, Bridge.Registry.OpenOutput, Bridge.Registry.Send: the port id and buffer lengths are taken below 2^32, as the `u32` length parameters imply.

## Findings

| source | as written | input that shows it | evidently intended | confidence | as-written member | corrected member |
|---|---|---|---|---|---|---|
| apps/deno-notebooks/native/midi_bridge/src/lib.rs:109-121 | `needed = bytes.len() as u32` truncates, and the capacity test `out_cap < needed` uses the truncated value, but the copy writes `bytes.len()` bytes | a buffer of 2^32 + 1 bytes with `out_cap = 1`: `needed` is 1, the test passes, and 2^32 + 1 bytes are copied into a one-byte buffer | compare the capacity with the full length, and copy only when all bytes fit | not executed | Bridge.JsonWriteOverrun | Bridge.WriteJsonBuffer |
