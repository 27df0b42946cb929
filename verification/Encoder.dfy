/** The encoder: section 7.2.1 of RFC 7692 over chunks, and the custody of the compressor. */
module Encoding {
  import opened Sequences
  import opened Wrappers
  import opened Errors
  import opened Sizes
  import opened Flate
  import opened Octets
  import opened Compressors

  const BLOCK_ROOM: nat := 0x2_0000

  const FRAMING_MARGIN: nat := 64

  /**
   * What stands for a message none of whose octets reached the wire: a stored block without its
   * tail (RFC 7692, section 7.2.3.6).
   */
  const EMPTY_MESSAGE: bytes := [0x00]

  /** Output room to ask for per backend call. */
  function RoomFor(payloadLen: nat): nat {
    Min(BLOCK_ROOM, SatAdd(payloadLen, FRAMING_MARGIN))
  }

  function Sum(s: seq<nat>): nat {
    if s == [] then 0 else Sum(s[..|s|-1]) + s[|s|-1]
  }

  // ---- What a chunk becomes.

  /** Steps 1 and 2 of section 7.2.1: the flushed chunk, and at most one more empty block behind it. */
  ghost predicate Aligned<C(!new), H(!new)>(d: Deflater<C, H>, c: C, payload: bytes, c': C, output: bytes) {
    exists w: bytes, redundant: bool :: IsAligned(d, c, payload, c', output, w, redundant)
  }

  ghost predicate IsAligned<C(!new), H(!new)>(
    d: Deflater<C, H>, c: C, payload: bytes, c': C, output: bytes, w: bytes, redundant: bool)
  {
    && Segment(d, c, payload, c', w)
    && (redundant ==> w != [])
    && output == w + (if redundant then EMPTY_BLOCK else [])
  }

  /** Step 3: exactly the tail goes, or the one octet that stands for nothing. */
  function StripOrSynthesize(payload: bytes, output: bytes): Result<bytes, CodecError> {
    if EndsWith(output, TRAILER) then Ok(output[..|output| - |TRAILER|])
    else if payload == [] && output == [] then Ok(EMPTY_MESSAGE)
    else Err(CompressionFailed)
  }

  /** A whole message, or the last fragment of a streamed one. */
  ghost predicate PreparesFinal<C(!new), H(!new)>(d: Deflater<C, H>, c: C, payload: bytes, c': C, wire: bytes) {
    exists output :: Aligned(d, c, payload, c', output) && StripOrSynthesize(payload, output) == Ok(wire)
  }

  /** Whether step 3 is owed nothing from this fragment: it ends aligned, or it is nothing at all. */
  predicate EndsAligned(payload: bytes, fragment: bytes) {
    EndsWith(fragment, TRAILER) || (payload == [] && fragment == [])
  }

  /** Whatever the backend chooses to write for this payload, steps 1 to 3 accept it. */
  ghost predicate Acceptable<C(!new), H(!new)>(d: Deflater<C, H>, c: C, payload: bytes) {
    forall c', output :: Aligned(d, c, payload, c', output) ==> EndsAligned(payload, output)
  }

  /** The history a finished message leaves behind. */
  function AfterMessage<C, H>(d: Deflater<C, H>, resets: bool, c: C): C {
    if resets then d.start else c
  }

  /** A fragment before the last. */
  ghost predicate PreparesNonFinal<C(!new), H(!new)>(d: Deflater<C, H>, c: C, payload: bytes, c': C, wire: bytes) {
    Aligned(d, c, payload, c', wire) && EndsAligned(payload, wire)
  }

  // ---- The backend driver.

  datatype Round = Round(consumed: nat, produced: nat, room: nat)

  /** One backend call into the spare room, which may be more than was asked for. */
  method Drive<C(!new, 0), H(!new, 0)>(compressor: Compressor<C, H>, input: bytes, output: bytes, mode: FlushMode,
                                       room: nat)
    returns (r: Result<Round, CodecError>, longer: bytes, ghost hints: seq<H>)
    requires mode.Sync? ==> input == []
    requires mode.NoFlush? ==> !compressor.rearmed
    modifies compressor
    ensures compressor.reliable ==> r.Ok?
    ensures r.Err? <==> compressor.faulted
    ensures compressor.stalled <==> r.Ok? && input != [] && r.value.consumed == 0 && r.value.produced == 0
    ensures r.Err? ==> r.error == CompressionFailed
    ensures r.Ok? ==>
      && r.value.room >= room && r.value.consumed <= |input|
      && |longer| == |output| + r.value.produced && r.value.produced <= r.value.room && output <= longer
    ensures r.Ok? && mode.NoFlush? ==>
      && |hints| == r.value.consumed && !compressor.rearmed
      && var fed := TakeAll(compressor.deflater, old(compressor.state), input[..r.value.consumed], hints);
      && compressor.state == fed.next
      && output + old(compressor.pending) + fed.out == longer + compressor.pending
      && (compressor.reliable && r.value.room > 0 && input != [] ==> r.value.consumed + r.value.produced > 0)
      && (old(compressor.Prompt()) ==> compressor.Prompt())
    ensures r.Ok? && mode.Sync? ==>
      && |hints| == 1
      && var again := old(compressor.rearmed) && old(compressor.pending) == [];
      && var flushed := if again then Gave(old(compressor.state), EMPTY_BLOCK)
                        else Flush(compressor.deflater, old(compressor.state), hints[0]);
      && compressor.state == flushed.next
      && output + old(compressor.pending) + flushed.out == longer + compressor.pending
      && (r.value.produced < r.value.room ==> compressor.pending == [])
      && compressor.rearmed == (r.value.produced == r.value.room && compressor.pending == [])
  {
    var capacity: nat :| capacity >= room;
    var beforeIn, beforeOut := compressor.totalIn, compressor.totalOut;
    var status, chunk; ghost var taken;
    ghost var backlog, state := compressor.pending, compressor.state;
    status, chunk, taken, hints := compressor.Compress(input, mode, capacity);
    if status.Err? || status.value == StreamEnd { return Err(CompressionFailed), output, hints; }
    longer := output + chunk;
    var consumed, produced := SatSub(compressor.totalIn, beforeIn), SatSub(compressor.totalOut, beforeOut);
    Regroup(output, chunk, compressor.pending);
    if mode.NoFlush? { Regroup(output, backlog, TakeAll(compressor.deflater, state, input[..consumed], hints).out); }
    else {
      Regroup(output, backlog, EMPTY_BLOCK);
      Regroup(output, backlog, Flush(compressor.deflater, state, hints[0]).out);
    }
    r := Ok(Round(consumed, produced, capacity));
  }

  /** Why steps 1 and 2 failed: a call was refused, or one with octets left moved nothing. */
  ghost predicate Explains<C(!new, 0), H(!new, 0)>(compressor: Compressor<C, H>, error: CodecError)
    reads compressor
  {
    (error == CompressionFailed && compressor.faulted) || (error == Stalled && compressor.stalled)
  }

  /** And why all three did: one of those, or an output step 3 refuses. */
  ghost predicate ExplainsAll<C(!new, 0), H(!new, 0)>(compressor: Compressor<C, H>, was: C, payload: bytes,
                                                      error: CodecError)
    reads compressor
  {
    || Explains(compressor, error)
    || (error == CompressionFailed && Refused(compressor.deflater, was, payload, compressor.state))
  }

  ghost predicate Refused<C(!new), H(!new)>(d: Deflater<C, H>, c: C, payload: bytes, c': C) {
    exists output :: Aligned(d, c, payload, c', output) && !EndsAligned(payload, output)
  }

  /** Step 1: the whole payload into the compressor. */
  method Feed<C(!new, 0), H(!new, 0)>(compressor: Compressor<C, H>, payload: bytes, output: bytes, room: nat)
    returns (r: Result<(), CodecError>, longer: bytes, ghost hints: seq<H>)
    requires compressor.Idle() && room > 0
    modifies compressor
    ensures compressor.reliable ==> r.Ok?
    ensures r.Err? ==> Explains(compressor, r.error)
    ensures r.Ok? ==>
      && |hints| == |payload| && !compressor.rearmed
      && var fed := TakeAll(compressor.deflater, old(compressor.state), payload, hints);
      && compressor.state == fed.next
      && longer + compressor.pending == output + fed.out
      && (old(compressor.Prompt()) ==> compressor.Prompt())
  {
    var input := payload;
    longer, hints := output, [];
    ghost var at := 0;
    while input != []
      invariant at <= |payload| && input == payload[at..] && |hints| == at && !compressor.rearmed
      invariant compressor.state == TakeAll(compressor.deflater, old(compressor.state), payload[..at], hints).next
      invariant longer + compressor.pending ==
        output + TakeAll(compressor.deflater, old(compressor.state), payload[..at], hints).out
      invariant old(compressor.Prompt()) ==> compressor.Prompt()
      decreases |input|, |compressor.pending|
    {
      ghost var start := compressor.state;
      var round; ghost var more;
      round, longer, more := Drive(compressor, input, longer, NoFlush, room);
      if round.Err? { return Err(round.error), longer, hints; }
      if round.value.consumed == 0 && round.value.produced == 0 { return Err(Stalled), longer, hints; }
      var k := round.value.consumed;
      TakeAllConcat(compressor.deflater, old(compressor.state), payload[..at], hints, input[..k], more);
      assert payload[..at] + input[..k] == payload[..at + k];
      Regroup(output, TakeAll(compressor.deflater, old(compressor.state), payload[..at], hints).out,
              TakeAll(compressor.deflater, start, input[..k], more).out);
      at, hints := at + k, hints + more;
      input := input[k..];
    }
    assert payload[..at] == payload;
    r := Ok(());
  }

  /** A flush under way: what was owed when it began, and the room of every call so far, each of them filled. */
  datatype Flushing<C, H> = Flushing(start: C, backlog: bytes, h: seq<H>, owed: bytes, rooms: seq<nat>)

  ghost predicate Underway<C(!new, 0), H(!new, 0)>(compressor: Compressor<C, H>, f: Flushing<C, H>, output: bytes,
                                                   longer: bytes, room: nat)
    reads compressor
  {
    && (forall i :: 0 <= i < |f.rooms| ==> f.rooms[i] >= room)
    && (f.rooms == [] ==>
          compressor.state == f.start && compressor.pending == f.backlog && !compressor.rearmed && longer == output)
    && (f.rooms != [] ==>
          && compressor.deflater.drained(compressor.state)
          && |f.h| == 1
          && compressor.state == Flush(compressor.deflater, f.start, f.h[0]).next
          && f.owed == f.backlog + Flush(compressor.deflater, f.start, f.h[0]).out
          && longer + compressor.pending == output + f.owed
          && |longer| == |output| + Sum(f.rooms) && Sum(f.rooms) >= room
          && compressor.rearmed == (compressor.pending == []))
  }

  /** A flush that ended: one more empty block exactly when the calls before the last were filled by what was owed. */
  ghost predicate Flushed<C(!new, 0), H(!new, 0)>(compressor: Compressor<C, H>, f: Flushing<C, H>, output: bytes,
                                                  longer: bytes, room: nat)
    reads compressor
  {
    && |f.h| == 1 && |f.rooms| > 0 && compressor.Idle()
    && (forall i :: 0 <= i < |f.rooms| ==> f.rooms[i] >= room)
    && var flushed := Flush(compressor.deflater, f.start, f.h[0]);
    && compressor.state == flushed.next
    && f.owed == f.backlog + flushed.out
    && var redundant := f.owed != [] && Sum(f.rooms[..|f.rooms|-1]) == |f.owed|;
    && longer == output + f.owed + (if redundant then EMPTY_BLOCK else [])
    && (|f.owed| < room ==> |f.rooms| == 1 && !redundant)
  }

  /** A call behind filled ones: they took all that was owed exactly when nothing of it is still pending. */
  lemma LaterCall(output: bytes, owed: bytes, longer: bytes, pending: bytes, sum: nat)
    requires longer + pending == output + owed && |longer| == |output| + sum
    ensures sum == |owed| <==> pending == []
    ensures pending == [] ==> longer == output + owed
  {
    if pending == [] { NothingMore(longer); }
  }

  /** One call of a flush, into room it fills or leaves over. */
  method FlushOnce<C(!new, 0), H(!new, 0)>(
    compressor: Compressor<C, H>, ghost output: bytes, longer: bytes, room: nat, ghost f: Flushing<C, H>)
    returns (r: Result<Round, CodecError>, longer': bytes, ghost f': Flushing<C, H>)
    requires Drains(compressor.deflater) && room > |EMPTY_BLOCK| && Underway(compressor, f, output, longer, room)
    modifies compressor
    ensures compressor.reliable ==> r.Ok?
    ensures r.Err? ==> compressor.faulted && r.error == CompressionFailed
    ensures f'.start == f.start && f'.backlog == f.backlog
    ensures r.Ok? && r.value.produced < r.value.room ==> Flushed(compressor, f', output, longer', room)
    ensures r.Ok? && r.value.produced >= r.value.room ==>
      && Underway(compressor, f', output, longer', room) && f'.rooms != []
      && (f.rooms != [] ==> |compressor.pending| < old(|compressor.pending|)
                            || (|compressor.pending| == old(|compressor.pending|)
                                && !compressor.rearmed && old(compressor.rearmed)))
  {
    f' := f;
    ghost var was, any := compressor.pending, [];
    r, longer', any := Drive(compressor, [], longer, Sync, room);
    if r.Err? { return; }
    ghost var out := Flush(compressor.deflater, f.start, any[0]).out;
    NothingMore(longer');
    if f.rooms == [] {
      f' := f.(h := any, owed := f.backlog + out);
      Regroup(output, f.backlog, out);
      NothingMore(output + f'.owed);
    } else {
      NothingMore(longer + was);
      LaterCall(output, f.owed, longer, was, Sum(f.rooms));
    }
    f' := f'.(rooms := f.rooms + [r.value.room]);
    assert f'.rooms[..|f'.rooms|-1] == f.rooms;
  }

  /**
   * Step 2: flush until a call leaves room over. `rooms` records the room of each
   * call; an extra empty block follows exactly when the calls before the last
   * one were filled to the octet by what was owed.
   */
  method SyncFlush<C(!new, 0), H(!new, 0)>(compressor: Compressor<C, H>, output: bytes, room: nat)
    returns (r: Result<(), CodecError>, longer: bytes, ghost h: seq<H>, ghost rooms: seq<nat>)
    requires Drains(compressor.deflater) && !compressor.rearmed
    requires room > |EMPTY_BLOCK|
    modifies compressor
    ensures compressor.reliable ==> r.Ok?
    ensures r.Err? ==> compressor.faulted && r.error == CompressionFailed
    ensures r.Ok? ==>
      && |h| == 1 && |rooms| > 0 && compressor.Idle()
      && (forall i :: 0 <= i < |rooms| ==> rooms[i] >= room)
      && var flushed := Flush(compressor.deflater, old(compressor.state), h[0]);
      && var owed := |old(compressor.pending) + flushed.out|;
      && var redundant := owed > 0 && Sum(rooms[..|rooms|-1]) == owed;
      && compressor.state == flushed.next
      && longer == output + old(compressor.pending) + flushed.out + (if redundant then EMPTY_BLOCK else [])
      && (owed < room ==> |rooms| == 1 && !redundant)
  {
    longer, h, rooms := output, [], [];
    ghost var f := Flushing(compressor.state, compressor.pending, [], [], []);
    while true
      invariant Underway(compressor, f, output, longer, room)
      invariant f.start == old(compressor.state) && f.backlog == old(compressor.pending)
      decreases (if f.rooms == [] then 1 else 0), |compressor.pending|, (if compressor.rearmed then 1 else 0)
    {
      var round;
      round, longer, f := FlushOnce(compressor, output, longer, room, f);
      if round.Err? { return Err(round.error), longer, h, rooms; }
      if round.value.produced < round.value.room {
        h, rooms := f.h, f.rooms;
        Regroup(output, f.backlog, Flush(compressor.deflater, f.start, f.h[0]).out);
        return Ok(()), longer, h, rooms;
      }
    }
  }

  // ---- The two producers.

  /**
   * What one chunk did on its way through steps 1 and 2: every choice the backend made, and what
   * was unsent when the flush began.
   */
  datatype Passage<H> = Passage(hints: seq<H>, flush: H, backlog: bytes, flushes: nat)

  /**
   * `w` is what the chunk had to put on the wire. The flush owes the backlog that
   * feeding left and its own output; owing less than the room, it is one call and
   * adds nothing.
   */
  ghost predicate Passes<C(!new), H(!new)>(d: Deflater<C, H>, c: C, payload: bytes, c': C, w: bytes, output: bytes,
                                           way: Passage<H>)
  {
    && |way.hints| == |payload|
    && var fed := TakeAll(d, c, payload, way.hints);
    && var flushed := Flush(d, fed.next, way.flush);
    && c' == flushed.next && w == fed.out + flushed.out
    && EndsWith(fed.out, way.backlog)
    && (|way.backlog + flushed.out| < RoomFor(|payload|) ==> output == w && way.flushes == 1)
  }

  /** Steps 1 and 2. */
  method ProduceAligned<C(!new, 0), H(!new, 0)>(compressor: Compressor<C, H>, payload: bytes)
    returns (r: Result<bytes, CodecError>, ghost w: bytes, ghost way: Passage<H>)
    requires compressor.Idle() && Drains(compressor.deflater)
    modifies compressor
    ensures compressor.reliable ==> r.Ok?
    ensures r.Err? ==> Explains(compressor, r.error)
    ensures r.Ok? ==>
      && compressor.Idle()
      && Aligned(compressor.deflater, old(compressor.state), payload, compressor.state, r.value)
      && Passes(compressor.deflater, old(compressor.state), payload, compressor.state, w, r.value, way)
    ensures r.Ok? && old(compressor.Prompt()) ==>
      var fed := TakeAll(compressor.deflater, old(compressor.state), payload, way.hints);
      |way.backlog| + compressor.pace.value.holds(fed.next) <= compressor.pace.value.bound
  {
    var room := RoomFor(|payload|);
    w, way := [], *;
    var fed, output; ghost var hints;
    fed, output, hints := Feed(compressor, payload, [], room);
    if fed.Err? { return Err(fed.error), w, way; }
    ghost var taken := TakeAll(compressor.deflater, old(compressor.state), payload, hints);
    ghost var sent, backlog := output, compressor.pending;
    var flushed; ghost var h, rooms;
    flushed, output, h, rooms := SyncFlush(compressor, output, room);
    if flushed.Err? { return Err(flushed.error), w, way; }
    ghost var tail := Flush(compressor.deflater, taken.next, h[0]).out;
    ghost var redundant := |backlog + tail| > 0 && Sum(rooms[..|rooms|-1]) == |backlog + tail|;
    w, way := taken.out + tail, Passage(hints, h[0], backlog, |rooms|);
    assert sent + backlog == taken.out by { assert [] + taken.out == taken.out; }
    assert IsSegment(compressor.deflater, old(compressor.state), payload, compressor.state, w, hints, h[0]);
    assert output == w + (if redundant then EMPTY_BLOCK else []);
    assert IsAligned(compressor.deflater, old(compressor.state), payload, compressor.state, output, w, redundant);
    r := Ok(output);
  }

  /** All three steps. */
  method Produce<C(!new, 0), H(!new, 0)>(compressor: Compressor<C, H>, payload: bytes)
    returns (r: Result<bytes, CodecError>)
    requires compressor.Idle() && Drains(compressor.deflater)
    modifies compressor
    ensures r.Err? ==> ExplainsAll(compressor, old(compressor.state), payload, r.error)
    ensures r.Ok? ==>
      && compressor.Idle()
      && PreparesFinal(compressor.deflater, old(compressor.state), payload, compressor.state, r.value)
    ensures compressor.reliable && Acceptable(compressor.deflater, old(compressor.state), payload) ==> r.Ok?
  {
    var output; ghost var w, way;
    output, w, way := ProduceAligned(compressor, payload);
    if output.Err? { return output; }
    r := StripOrSynthesize(payload, output.value);
  }

  /** Steps 1 and 2 with step 3 forbidden. */
  method ProduceNonFinal<C(!new, 0), H(!new, 0)>(compressor: Compressor<C, H>, payload: bytes)
    returns (r: Result<bytes, CodecError>)
    requires compressor.Idle() && Drains(compressor.deflater)
    modifies compressor
    ensures r.Err? ==> ExplainsAll(compressor, old(compressor.state), payload, r.error)
    ensures r.Ok? ==>
      && compressor.Idle()
      && PreparesNonFinal(compressor.deflater, old(compressor.state), payload, compressor.state, r.value)
    ensures compressor.reliable && Acceptable(compressor.deflater, old(compressor.state), payload) ==> r.Ok?
  {
    var output; ghost var w, way;
    output, w, way := ProduceAligned(compressor, payload);
    if output.Err? { return output; }
    if !EndsAligned(payload, output.value) { return Err(CompressionFailed); }
    r := output;
  }

  // ---- Custody. A guard is a value holding the compressor; the encoder that made it is vacant.

  /** A whole message not yet declared sent or discarded. */
  datatype PreparedMessage<C(!new, 0), H(!new, 0)> =
    PreparedMessage(encoder: Encoder<C, H>, compressor: Compressor<C, H>, payload: bytes)
  {

    method Commit() returns (out: bytes)
      requires encoder.compressor == null && compressor.Idle()
      modifies encoder`compressor, compressor
      ensures out == payload
      ensures encoder.compressor == compressor && compressor.Idle()
      ensures compressor.state == AfterMessage(compressor.deflater, encoder.resetBetweenMessages, old(compressor.state))
    {
      if encoder.resetBetweenMessages { compressor.Reset(); }
      encoder.compressor := compressor;
      out := payload;
    }

    /** The candidate's history goes; nothing of it reaches the peer. */
    method ResetToPlain()
      requires encoder.compressor == null
      modifies encoder`compressor, compressor
      ensures encoder.compressor == compressor && compressor.Idle()
      ensures compressor.state == compressor.deflater.start
    {
      compressor.Reset();
      encoder.compressor := compressor;
    }
  }

  /** A streamed message between fragments. */
  datatype StreamingMessage<C(!new, 0), H(!new, 0)> =
    StreamingMessage(encoder: Encoder<C, H>, compressor: Compressor<C, H>)
  {

    method PrepareNonFinalFragment(chunk: bytes) returns (r: Result<PreparedNonFinalFragment<C, H>, CodecError>)
      requires encoder.compressor == null && compressor.Idle() && Drains(compressor.deflater)
      modifies compressor
      ensures r.Ok? ==>
        && r.value.encoder == encoder && r.value.compressor == compressor && compressor.Idle()
        && PreparesNonFinal(compressor.deflater, old(compressor.state), chunk, compressor.state, r.value.payload)
      ensures compressor.reliable && Acceptable(compressor.deflater, old(compressor.state), chunk) ==> r.Ok?
      ensures r.Err? ==> ExplainsAll(compressor, old(compressor.state), chunk, r.error)
    {
      var encoded := ProduceNonFinal(compressor, chunk);
      if encoded.Err? { return Err(encoded.error); }
      r := Ok(PreparedNonFinalFragment(encoder, compressor, encoded.value));
    }

    method PrepareFinalFragment(chunk: bytes) returns (r: Result<PreparedFinalFragment<C, H>, CodecError>)
      requires encoder.compressor == null && compressor.Idle() && Drains(compressor.deflater)
      modifies compressor
      ensures r.Ok? ==>
        && r.value.encoder == encoder && r.value.compressor == compressor && compressor.Idle()
        && PreparesFinal(compressor.deflater, old(compressor.state), chunk, compressor.state, r.value.payload)
      ensures compressor.reliable && Acceptable(compressor.deflater, old(compressor.state), chunk) ==> r.Ok?
      ensures r.Err? ==> ExplainsAll(compressor, old(compressor.state), chunk, r.error)
    {
      var encoded := Produce(compressor, chunk);
      if encoded.Err? { return Err(encoded.error); }
      r := Ok(PreparedFinalFragment(encoder, compressor, encoded.value));
    }
  }

  datatype PreparedNonFinalFragment<C(!new, 0), H(!new, 0)> =
    PreparedNonFinalFragment(encoder: Encoder<C, H>, compressor: Compressor<C, H>, payload: bytes)
  {
    /** The middle of a message: no reset, and the encoder stays vacant. */
    method Commit() returns (out: bytes, next: StreamingMessage<C, H>)
      requires encoder.compressor == null && compressor.Idle()
      ensures out == payload && next == StreamingMessage(encoder, compressor)
      ensures encoder.compressor == null && compressor.Idle()
    {
      out, next := payload, StreamingMessage(encoder, compressor);
    }
  }

  datatype PreparedFinalFragment<C(!new, 0), H(!new, 0)> =
    PreparedFinalFragment(encoder: Encoder<C, H>, compressor: Compressor<C, H>, payload: bytes)
  {
    method Commit() returns (out: bytes)
      requires encoder.compressor == null && compressor.Idle()
      modifies encoder`compressor, compressor
      ensures out == payload
      ensures encoder.compressor == compressor && compressor.Idle()
      ensures compressor.state == AfterMessage(compressor.deflater, encoder.resetBetweenMessages, old(compressor.state))
    {
      if encoder.resetBetweenMessages { compressor.Reset(); }
      encoder.compressor := compressor;
      out := payload;
    }
  }

  class Encoder<C(!new, 0), H(!new, 0)> {
    const resetBetweenMessages: bool
    /** `null` is a vacant encoder: a guard holds the compressor, or nobody does any more. */
    var compressor: Compressor?<C, H>

    ghost function Footprint(): set<object>
      reads this
    {
      if compressor == null then {} else {compressor}
    }

    ghost predicate Valid()
      reads this, Footprint()
    {
      compressor != null ==> compressor.Idle() && Drains(compressor.deflater)
    }

    constructor (deflater: Deflater<C, H>, resetBetweenMessages: bool, reliable: bool, pace: Option<Pace<C>>)
      requires Drains(deflater)
      ensures this.resetBetweenMessages == resetBetweenMessages && Valid()
      ensures compressor != null && fresh(compressor)
      ensures compressor.deflater == deflater && compressor.reliable == reliable && compressor.pace == pace
      ensures compressor.state == deflater.start
    {
      this.resetBetweenMessages := resetBetweenMessages;
      compressor := new Compressor(deflater, reliable, pace);
    }

    method PrepareMessage(payload: bytes) returns (r: Result<PreparedMessage<C, H>, CodecError>)
      requires Valid()
      modifies this`compressor, Footprint()
      // Whatever happens the encoder ends vacant, and a vacant one refuses before touching a backend.
      ensures compressor == null
      ensures old(compressor) == null <==> r == Err(Poisoned)
      ensures r.Ok? ==>
        && r.value.encoder == this && r.value.compressor == old(compressor) && r.value.compressor.Idle()
        && PreparesFinal(r.value.compressor.deflater, old(compressor.state), payload,
                         r.value.compressor.state, r.value.payload)
      ensures
        (old(compressor) != null && old(compressor).reliable
         && Acceptable(old(compressor).deflater, old(compressor.state), payload)) ==> r.Ok?
      ensures r.Err? && old(compressor) != null ==>
        ExplainsAll(old(compressor), old(compressor.state), payload, r.error)
    {
      if compressor == null { return Err(Poisoned); }
      var taken: Compressor<C, H> := compressor;
      compressor := null;
      var encoded := Produce(taken, payload);
      if encoded.Err? { return Err(encoded.error); }
      r := Ok(PreparedMessage(this, taken, encoded.value));
    }

    method BeginStreamingMessage() returns (r: Result<StreamingMessage<C, H>, CodecError>)
      requires Valid()
      modifies this`compressor
      ensures compressor == null
      ensures old(compressor) == null <==> r == Err(Poisoned)
      ensures r.Ok? <==> old(compressor) != null
      ensures r.Ok? ==> r.value.encoder == this && r.value.compressor == old(compressor)
    {
      if compressor == null { return Err(Poisoned); }
      r := Ok(StreamingMessage(this, compressor));
      compressor := null;
    }
  }
}
