/** The C ABI of lib.rs: one handle counter shared by inputs and outputs, a
    table of opened inputs and one of opened outputs, the result codes of
    open, close and send, and the capacity protocol of `write_json_buffer`.

    The device calls (`input::open_input`, `OutputHandle::open`,
    `OutputHandle::send`) are foreign; each is a parameter saying what it
    returned. A raw pointer with its length is an `Option` of a byte
    sequence, `None` being the null pointer. */
module Bridge {
  import opened Ints
  import opened Input

  // ---------------------------------------------------------------------
  // `std::str::from_utf8`

  predicate Continuation(b: uint8)
  {
    0x80 <= b <= 0xBF
  }

  /** The length of the sequence a lead byte starts. */
  function LeadLength(lead: uint8): (n: nat)
    ensures 1 <= n <= 4
  {
    if lead < 0x80 then 1 else if lead <= 0xDF then 2 else if lead <= 0xEF then 3 else 4
  }

  /** The first sequence of `b` is well formed (table 3-7 of the Unicode
      Standard, as RFC 3629 restates it): no overlong form, no surrogate,
      nothing above U+10FFFF, not truncated. */
  predicate FirstSequenceValid(b: seq<uint8>)
    requires b != []
    ensures FirstSequenceValid(b) ==> |b| >= LeadLength(b[0])
  {
    var lead := b[0];
    if lead < 0x80 then true
    else if 0xC2 <= lead <= 0xDF then |b| >= 2 && Continuation(b[1])
    else if 0xE0 <= lead <= 0xEF then
      && |b| >= 3 && Continuation(b[1]) && Continuation(b[2])
      && (lead == 0xE0 ==> b[1] >= 0xA0)
      && (lead == 0xED ==> b[1] <= 0x9F)
    else if 0xF0 <= lead <= 0xF4 then
      && |b| >= 4 && Continuation(b[1]) && Continuation(b[2]) && Continuation(b[3])
      && (lead == 0xF0 ==> b[1] >= 0x90)
      && (lead == 0xF4 ==> b[1] <= 0x8F)
    else false
  }

  /** `std::str::from_utf8` succeeds: the bytes are a run of well-formed
      sequences. */
  predicate Utf8Valid(b: seq<uint8>)
    decreases |b|
  {
    b == [] || (FirstSequenceValid(b) && Utf8Valid(b[LeadLength(b[0])..]))
  }

  /** Every ASCII port name is accepted. */
  lemma {:induction false} AsciiIsUtf8(b: seq<uint8>)
    requires forall k | 0 <= k < |b| :: b[k] < 0x80
    ensures Utf8Valid(b)
    decreases |b|
  {
    if b != [] {
      AsciiIsUtf8(b[1..]);
    }
  }

  /** Two well-formed byte strings joined are well formed. */
  lemma {:induction false} Utf8Concat(a: seq<uint8>, b: seq<uint8>)
    requires Utf8Valid(a) && Utf8Valid(b)
    ensures Utf8Valid(a + b)
    decreases |a|
  {
    if a == [] {
      assert a + b == b;
    } else {
      var n := LeadLength(a[0]);
      Utf8Concat(a[n..], b);
      assert (a + b)[n..] == a[n..] + b;
      assert (a + b)[..|a|] == a;
      Utf8Lead(a + b, a);
    }
  }

  /** A byte string that starts with the first sequence of a well-formed
      `a` and continues with something well formed is well formed. */
  lemma Utf8Lead(c: seq<uint8>, a: seq<uint8>)
    requires Utf8Valid(a) && a != []
    requires |c| >= |a| && c[..|a|] == a
    requires Utf8Valid(c[LeadLength(a[0])..])
    ensures Utf8Valid(c)
  {
    var n := LeadLength(a[0]);
    assert |a| >= n;
    assert forall k | 0 <= k < n :: c[k] == a[k];
  }

  /** An overlong encoding, a surrogate and a truncated sequence are
      rejected. */
  lemma Utf8Rejects()
    ensures !Utf8Valid([0xC0, 0xAF])
    ensures !Utf8Valid([0xED, 0xA0, 0x80])
    ensures !Utf8Valid([0xE2, 0x82])
  {
  }

  // ---------------------------------------------------------------------
  // The handle tables

  /** An opened output connection (`OutputHandle`); the connection itself
      is foreign, so only the port it was opened on is kept. */
  datatype OutputPort = OutputPort(portId: seq<uint8>)

  /** The port id a caller passes as pointer and length, when it names a
      port at all: a non-null, non-empty, well-formed UTF-8 string. */
  predicate UsablePortId(portId: Option<seq<uint8>>)
  {
    portId.Some? && |portId.value| > 0 && Utf8Valid(portId.value)
  }

  /** `NEXT_HANDLE`, `INPUTS` and `OUTPUTS`. */
  class Registry {
    var nextHandle: uint32
    var inputs: map<uint32, Input>
    var outputs: map<uint32, OutputPort>

    /** Every id in use is non-zero, was issued before the counter's
        current value, and names an input or an output, not both; no two
        ids share an input, since each open builds its own. This holds
        until the counter wraps. */
    ghost predicate Valid()
      reads this
    {
      && nextHandle >= 1
      && (forall id | id in inputs :: 0 < id < nextHandle)
      && (forall id | id in outputs :: 0 < id < nextHandle)
      && inputs.Keys !! outputs.Keys
      && (forall a, b | a in inputs && b in inputs && a != b :: inputs[a] != inputs[b])
    }

    constructor ()
      ensures Valid()
      ensures nextHandle == 1 && inputs == map[] && outputs == map[]
    {
      nextHandle := 1;
      inputs := map[];
      outputs := map[];
    }

    /** `next_handle`: `fetch_add(1)` returns the counter and advances it,
        wrapping at 2^32. */
    method NextHandle() returns (id: uint32)
      modifies this
      ensures id == old(nextHandle) && nextHandle == WrappingIncrement(old(nextHandle))
      ensures inputs == old(inputs) && outputs == old(outputs)
    {
      id := nextHandle;
      nextHandle := WrappingIncrement(nextHandle);
    }

    /** `midi_open_input`. `device` is what `input::open_input` returned
        for the port, the rate, the flags and the callback: `None` for an
        error, otherwise a newly built input that no id holds yet. */
    method OpenInput(portId: Option<seq<uint8>>, device: Option<Input>) returns (id: uint32)
      requires portId.Some? ==> |portId.value| < U32_MODULUS
      requires device.Some? ==> device.value !in inputs.Values
      modifies this
      ensures !UsablePortId(portId) || device.None? ==>
        id == 0 && nextHandle == old(nextHandle) && inputs == old(inputs) && outputs == old(outputs)
      ensures UsablePortId(portId) && device.Some? ==>
        && id == old(nextHandle) && nextHandle == WrappingIncrement(old(nextHandle))
        && inputs == old(inputs)[id := device.value] && outputs == old(outputs)
      ensures old(Valid()) && old(nextHandle) < 0xFFFF_FFFF ==>
        Valid() && (id != 0 ==> id !in old(inputs) && id !in old(outputs))
    {
      if portId.None? || |portId.value| == 0 {
        return 0;
      }
      if !Utf8Valid(portId.value) {
        return 0;
      }
      match device {
        case Some(handle) =>
          id := NextHandle();
          inputs := inputs[id := handle];
        case None =>
          id := 0;
      }
    }

    /** `midi_close_input`: the input is taken out of the table, then
        closed; an unknown id changes nothing. */
    method CloseInput(handle: uint32)
      modifies this, if handle in inputs then {inputs[handle]} else {}
      ensures inputs == old(inputs) - {handle}
      ensures outputs == old(outputs) && nextHandle == old(nextHandle)
      ensures handle in old(inputs) ==> old(inputs)[handle].stop && !old(inputs)[handle].callbackEnabled
      ensures handle in old(inputs) ==>
        && old(inputs)[handle].rawQueue == old(inputs[handle].rawQueue)
        && old(inputs)[handle].nextTick == old(inputs[handle].nextTick)
      ensures old(Valid()) ==> forall id | id in inputs ::
        && inputs[id].stop == old(inputs[id].stop)
        && inputs[id].callbackEnabled == old(inputs[id].callbackEnabled)
        && inputs[id].rawQueue == old(inputs[id].rawQueue)
        && inputs[id].nextTick == old(inputs[id].nextTick)
      ensures old(Valid()) ==> Valid()
    {
      if handle in inputs {
        var input := inputs[handle];
        inputs := inputs - {handle};
        input.Close();
      }
    }

    /** `midi_open_output`. `connected` says whether `OutputHandle::open`
        connected to the port. */
    method OpenOutput(portId: Option<seq<uint8>>, connected: bool) returns (id: uint32)
      requires portId.Some? ==> |portId.value| < U32_MODULUS
      modifies this
      ensures !UsablePortId(portId) || !connected ==>
        id == 0 && nextHandle == old(nextHandle) && inputs == old(inputs) && outputs == old(outputs)
      ensures UsablePortId(portId) && connected ==>
        && id == old(nextHandle) && nextHandle == WrappingIncrement(old(nextHandle))
        && outputs == old(outputs)[id := OutputPort(portId.value)] && inputs == old(inputs)
      ensures old(Valid()) && old(nextHandle) < 0xFFFF_FFFF ==>
        Valid() && (id != 0 ==> id !in old(inputs) && id !in old(outputs))
    {
      if portId.None? || |portId.value| == 0 {
        return 0;
      }
      if !Utf8Valid(portId.value) {
        return 0;
      }
      if connected {
        id := NextHandle();
        outputs := outputs[id := OutputPort(portId.value)];
      } else {
        id := 0;
      }
    }

    /** `midi_close_output`: the output is dropped from the table; an
        unknown id changes nothing. */
    method CloseOutput(handle: uint32)
      modifies this
      ensures outputs == old(outputs) - {handle}
      ensures inputs == old(inputs) && nextHandle == old(nextHandle)
      ensures old(Valid()) ==> Valid()
    {
      outputs := outputs - {handle};
    }

    /** `midi_send`: -1 for a null or empty buffer, an unknown handle or a
        failed send (`sent` is what `OutputHandle::send` returned), 0 once
        the bytes went out. The tables and the counter are unchanged. */
    method Send(handle: uint32, bytes: Option<seq<uint8>>, sent: bool) returns (r: int)
      requires bytes.Some? ==> |bytes.value| < U32_MODULUS
      ensures r == 0 <==> bytes.Some? && |bytes.value| > 0 && handle in outputs && sent
      ensures r == 0 || r == -1
    {
      if bytes.None? || |bytes.value| == 0 {
        return -1;
      }
      if handle !in outputs {
        return -1;
      }
      r := if sent then 0 else -1;
    }
  }

  /** Ids come from the single counter: after an input and an output are
      opened on a fresh registry, they hold ids 1 and 2. */
  method OpenTwo(r: Registry, port: seq<uint8>, input: Input) returns (a: uint32, b: uint32)
    requires r.Valid() && r.nextHandle == 1 && 0 < |port| < U32_MODULUS && Utf8Valid(port)
    modifies r
    ensures a == 1 && b == 2 && a in r.inputs && b in r.outputs && r.Valid()
  {
    a := r.OpenInput(Some(port), Some(input));
    b := r.OpenOutput(Some(port), true);
  }

  // ---------------------------------------------------------------------
  // `write_json_buffer`

  /** What `write_json_buffer` does as written, for a buffer of `len`
      bytes: the value it returns (`bytes.len() as u32`) and the number of
      bytes it copies to `out_ptr`. */
  function JsonWriteAsWritten(len: nat, outNull: bool, outCap: uint32): (r: (uint32, nat))
    ensures r.0 == len % U32_MODULUS
    ensures r.1 == 0 || r.1 == len
    ensures len < U32_MODULUS ==> (r.1 > 0 ==> len <= outCap)
  {
    var needed := len % U32_MODULUS;
    if outNull || outCap == 0 then (needed, 0)
    else if outCap < needed then (needed, 0)
    else (needed, len)
  }

  /** A buffer of 2^32 + 1 bytes and a one-byte capacity: the truncated
      `needed` is 1, passes the capacity test, and all 2^32 + 1 bytes are
      copied into the one-byte buffer. */
  lemma JsonWriteOverrun()
    ensures JsonWriteAsWritten(U32_MODULUS + 1, false, 1) == (1, U32_MODULUS + 1)
    ensures JsonWriteAsWritten(U32_MODULUS + 1, false, 1).1 > 1
  {
  }

  /** `write_json_buffer` with the capacity compared against the full
      length: the needed length (as `u32`) is always returned, and the bytes
      are copied only into a non-null buffer whose capacity holds all of
      them. `out`'s length is the capacity the caller promises. */
  method WriteJsonBuffer(bytes: seq<uint8>, out: array?<uint8>, outCap: uint32) returns (needed: uint32)
    requires out != null ==> outCap <= out.Length
    modifies out
    ensures needed == |bytes| % U32_MODULUS
    ensures out != null && outCap > 0 && |bytes| <= outCap ==>
      out[..|bytes|] == bytes && out[|bytes|..] == old(out[|bytes|..])
    ensures !(out != null && outCap > 0 && |bytes| <= outCap) ==> out == null || out[..] == old(out[..])
  {
    needed := |bytes| % U32_MODULUS;
    if out == null || outCap == 0 {
      return needed;
    }
    if outCap < |bytes| {
      return needed;
    }
    forall k | 0 <= k < |bytes| {
      out[k] := bytes[k];
    }
  }

  /** Below 2^32 bytes the corrected comparison is the written one: the
      same value is returned and the same bytes are copied. */
  lemma JsonWriteAgrees(len: nat, outNull: bool, outCap: uint32)
    requires len < U32_MODULUS
    ensures JsonWriteAsWritten(len, outNull, outCap).0 == len % U32_MODULUS
    ensures JsonWriteAsWritten(len, outNull, outCap).1 > 0 <==> !outNull && outCap > 0 && len <= outCap && len > 0
  {
  }
}
