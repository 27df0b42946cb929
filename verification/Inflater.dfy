/**
 * The backend inflater as the decoder meets it: every call takes some of the
 * input, delivers some of the output it owes, and decides both amounts itself.
 */
module Inflaters {
  import opened Wrappers
  import opened Flate
  import opened Octets
  import opened Transducer

  /** The inflater between calls: output it owes, and whether the final block is behind it. */
  datatype Engine<S> = Engine(state: S, pending: bytes, finished: bool)

  /** The engine after taking all of `input`; `None` when an octet in it is not takeable. */
  function Eat<S>(m: Machine<S>, e: Engine<S>, input: bytes): Option<Engine<S>>
    decreases |input|
  {
    if input == [] then Some(e)
    else if e.finished then None
    else
      match m.eat(e.state, input[0])
      case Bad => None
      case More(next, out) => Eat(m, Engine(next, e.pending + out, false), input[1..])
      case Final(out) => Eat(m, Engine(m.start, e.pending + out, true), input[1..])
  }

  /** Whether the current stream breaks somewhere in `input`. */
  predicate Breaks<S>(m: Machine<S>, e: Engine<S>, input: bytes)
    decreases |input|
  {
    input != [] && !e.finished &&
    match m.eat(e.state, input[0])
    case Bad => true
    case More(next, out) => Breaks(m, Engine(next, e.pending + out, false), input[1..])
    case Final(_) => false
  }

  /** Whether one successful call may take `k` octets and deliver `n`. */
  predicate MayMove<S>(m: Machine<S>, e: Engine<S>, input: bytes, room: nat, k: nat, n: nat) {
    && k <= |input|
    && n <= room
    && Eat(m, e, input[..k]).Some?
    && n <= |Eat(m, e, input[..k]).value.pending|
    // With room, a call that could move does.
    && (room > 0 && (e.pending != [] || (input != [] && !e.finished)) ==> k + n > 0)
  }

  /** The engine once such a call returns. */
  function Moved<S>(m: Machine<S>, e: Engine<S>, input: bytes, k: nat, n: nat): Engine<S>
    requires k <= |input| && Eat(m, e, input[..k]).Some?
    requires n <= |Eat(m, e, input[..k]).value.pending|
  {
    var eaten := Eat(m, e, input[..k]).value;
    Engine(eaten.state, eaten.pending[n..], eaten.finished)
  }

  /** The whole contract: what moved, what was delivered, and the call that reaches the end says so. */
  ghost predicate Answers<S>(m: Machine<S>, e: Engine<S>, input: bytes, room: nat,
                             e': Engine<S>, k: nat, chunk: bytes, ended: bool)
  {
    && MayMove(m, e, input, room, k, |chunk|)
    && e' == Moved(m, e, input, k, |chunk|)
    && chunk == Eat(m, e, input[..k]).value.pending[..|chunk|]
    && ended == (e'.finished && e'.pending == [])
  }

  lemma MovedAnswers<S>(m: Machine<S>, e: Engine<S>, input: bytes, room: nat, k: nat, n: nat)
    requires MayMove(m, e, input, room, k, n)
    ensures var after := Moved(m, e, input, k, n);
      Answers(m, e, input, room, after, k, Eat(m, e, input[..k]).value.pending[..n],
              after.finished && after.pending == [])
  {
  }

  /**
   * `conforming` separates a backend that honours the contract from one about
   * which nothing at all is known beyond the memory it can write.
   */
  class Inflater<S(!new, 0)> {
    const family: nat -> Machine<S>
    const conforming: bool
    var width: nat
    var engine: Engine<S>
    var totalIn: nat
    var totalOut: nat
    /** The last call was refused. */
    var refused: bool
    /** The last call had octets to take, and its counters moved by nothing. */
    var stalled: bool

    constructor (family: nat -> Machine<S>, width: nat, conforming: bool)
      ensures this.family == family && this.width == width && this.conforming == conforming
      ensures engine == Engine(family(width).start, [], false) && !refused && !stalled
    {
      this.family, this.width, this.conforming := family, width, conforming;
      engine := Engine(family(width).start, [], false);
      totalIn, totalOut, refused, stalled := 0, 0, false, false;
    }

    /** The backend reset: a fresh stream, always at the default width of 15. */
    method Reset()
      modifies this
      ensures width == 15
      ensures engine == Engine(family(15).start, [], false) && !refused && !stalled
    {
      width := 15;
      engine := Engine(family(15).start, [], false);
      totalIn, totalOut, refused, stalled := 0, 0, false, false;
    }

    /** A call of a backend about which nothing is known. */
    method Misbehave(input: bytes, scratch: array<byte>, room: nat) returns (r: Result<Status, ()>)
      requires room <= scratch.Length
      modifies this`engine, this`totalIn, this`totalOut, this`refused, this`stalled, scratch
      ensures refused <==> r.Err?
      ensures stalled <==>
        r.Ok? && input != [] && totalIn <= old(totalIn) && (totalOut <= old(totalOut) || room == 0)
    {
      r := *;
      var beforeIn, beforeOut := totalIn, totalOut;
      engine, totalIn, totalOut := *, *, *;
      refused := r.Err?;
      stalled := r.Ok? && input != [] && totalIn <= beforeIn && (totalOut <= beforeOut || room == 0);
      var junk: bytes := *;
      forall i | 0 <= i < scratch.Length && i < |junk| { scratch[i] := junk[i]; }
    }

    /** A call that takes `k` octets and delivers `n`. */
    method Move(input: bytes, scratch: array<byte>, k: nat, n: nat)
      requires k <= |input| && n <= scratch.Length
      requires Eat(family(width), engine, input[..k]).Some?
      requires n <= |Eat(family(width), engine, input[..k]).value.pending|
      modifies this`engine, this`totalIn, this`totalOut, this`refused, this`stalled, scratch
      ensures engine == Moved(family(width), old(engine), input, k, n)
      ensures totalIn == old(totalIn) + k && totalOut == old(totalOut) + n
      ensures scratch[..n] == Eat(family(width), old(engine), input[..k]).value.pending[..n]
      ensures !refused && (stalled <==> input != [] && k == 0 && n == 0)
    {
      var m := family(width);
      var chunk := Eat(m, engine, input[..k]).value.pending[..n];
      forall i | 0 <= i < n { scratch[i] := chunk[i]; }
      assert scratch[..n] == chunk;
      engine, totalIn, totalOut := Moved(m, engine, input, k, n), totalIn + k, totalOut + n;
      refused, stalled := false, input != [] && k == 0 && n == 0;
    }

    method Decompress(input: bytes, scratch: array<byte>, room: nat) returns (r: Result<Status, ()>)
      requires room <= scratch.Length
      modifies this`engine, this`totalIn, this`totalOut, this`refused, this`stalled, scratch
      ensures refused <==> r.Err?
      ensures stalled <==>
        r.Ok? && input != [] && totalIn <= old(totalIn) && (totalOut <= old(totalOut) || room == 0)
      ensures conforming && r.Err? ==> Breaks(family(width), old(engine), input)
      ensures conforming && r.Ok? ==>
        && old(totalIn) <= totalIn && old(totalOut) <= totalOut <= old(totalOut) + room
        && Answers(family(width), old(engine), input, room, engine,
                   totalIn - old(totalIn), scratch[..totalOut - old(totalOut)], r.value == StreamEnd)
    {
      if !conforming {
        r := Misbehave(input, scratch, room);
        return;
      }
      var m := family(width);
      var fails: bool := *;
      if Breaks(m, engine, input) && (fails || engine.pending == []) {
        r := Err(());
        engine := *;
        refused, stalled := true, false;
        return;
      }
      SomeMove(m, engine, input, room);
      var k: nat, n: nat :| k <= |input| && n <= room && MayMove(m, engine, input, room, k, n);
      MovedAnswers(m, engine, input, room, k, n);
      Move(input, scratch, k, n);
      var ended := engine.finished && engine.pending == [];
      var quiet: bool := *;
      r := Ok(if ended then StreamEnd else if quiet then BufError else Fine);
    }
  }

  /** The contract can always be met, short of a stream already broken. */
  lemma SomeMove<S>(m: Machine<S>, e: Engine<S>, input: bytes, room: nat)
    requires Breaks(m, e, input) ==> e.pending != []
    ensures exists k: nat, n: nat :: k <= |input| && n <= room && MayMove(m, e, input, room, k, n)
  {
    if room > 0 && e.pending != [] {
      assert MayMove(m, e, input, room, 0, 1);
    } else if room > 0 && input != [] && !e.finished {
      assert MayMove(m, e, input, room, 1, 0);
    } else {
      assert MayMove(m, e, input, room, 0, 0);
    }
  }
}
