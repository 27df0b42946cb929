/** Custody, history and the shape of the wire, over whole runs. */
module ConnectionLaws {
  import opened Sequences
  import opened Wrappers
  import opened Errors
  import opened Octets
  import opened Compressors
  import opened Encoding
  import opened Formats
  import opened Connections

  lemma {:induction false} RunConcat<S, C, H>(k: Link<S, C, H>, w: World<S, C>, a: seq<Move<C>>, b: seq<Move<C>>)
    ensures Run(k, w, a + b) == Run(k, Run(k, w, a), b)
    decreases |a|
  {
    if a == [] {
      assert a + b == b;
    } else {
      assert (a + b)[0] == a[0] && (a + b)[1..] == a[1..] + b;
      RunConcat(k, Apply(k, w, a[0]), a[1..], b);
    }
  }

  /** One more move, open to the host when made. */
  lemma {:induction false} LegalSnoc<S(!new), C(!new), H(!new)>(k: Link<S, C, H>, w: World<S, C>, moves: seq<Move<C>>,
                                                                m: Move<C>)
    ensures Run(k, w, moves + [m]) == Apply(k, Run(k, w, moves), m)
    ensures Legal(k, w, moves) && Enabled(k, Run(k, w, moves), m) ==> Legal(k, w, moves + [m])
    decreases |moves|
  {
    if moves == [] {
      assert (moves + [m])[1..] == [];
    } else {
      assert (moves + [m])[0] == moves[0] && (moves + [m])[1..] == moves[1..] + [m];
      LegalSnoc(k, Apply(k, w, moves[0]), moves[1..], m);
    }
  }

  /** A world some legal run leads to. */
  ghost predicate Reaches<S(!new), C(!new), H(!new)>(k: Link<S, C, H>, moves: seq<Move<C>>, w: World<S, C>) {
    Legal(k, Initial(k), moves) && w == Run(k, Initial(k), moves)
  }

  lemma ReachesNext<S(!new), C(!new), H(!new)>(k: Link<S, C, H>, moves: seq<Move<C>>, w: World<S, C>, m: Move<C>)
    requires Reaches(k, moves, w) && Enabled(k, w, m)
    ensures Reaches(k, moves + [m], Apply(k, w, m))
  {
    LegalSnoc(k, Initial(k), moves, m);
  }

  lemma {:induction false} LegalSplit<S(!new), C(!new), H(!new)>(k: Link<S, C, H>, w: World<S, C>, a: seq<Move<C>>,
                                                                 b: seq<Move<C>>)
    requires Legal(k, w, a + b)
    ensures Legal(k, w, a) && Legal(k, Run(k, w, a), b)
    decreases |a|
  {
    if a == [] {
      assert a + b == b;
    } else {
      assert (a + b)[0] == a[0] && (a + b)[1..] == a[1..] + b;
      LegalSplit(k, Apply(k, w, a[0]), a[1..], b);
    }
  }

  // ---- Custody.

  /** A compressor lost is lost: every legal continuation leaves the whole world as it stands. */
  lemma {:induction false} VacantIsAbsorbing<S(!new), C(!new), H(!new)>(
    k: Link<S, C, H>, w: World<S, C>, moves: seq<Move<C>>)
    requires w.custody.Lost? && Legal(k, w, moves)
    ensures Run(k, w, moves) == w
    decreases |moves|
  {
    if moves != [] { VacantIsAbsorbing(k, Apply(k, w, moves[0]), moves[1..]); }
  }

  /** The three ways out of a guard that give the encoder its compressor back. */
  predicate Resolves<S, C>(w: World<S, C>, m: Move<C>) {
    || (m.CommitMessage? && w.custody.Candidate?)
    || (m.ResetToPlain? && w.custody.Candidate?)
    || (m.CommitFragment? && w.custody.FragmentOut? && w.custody.last)
  }

  /** An encoder that was vacant and is not any more was refilled by one of them. */
  lemma {:induction false} RefilledByResolution<S(!new), C(!new), H(!new)>(
    k: Link<S, C, H>, w: World<S, C>, moves: seq<Move<C>>)
    returns (i: nat)
    requires !w.custody.Held? && Legal(k, w, moves) && Run(k, w, moves).custody.Held?
    ensures i < |moves| && Resolves(Run(k, w, moves[..i]), moves[i])
    decreases |moves|
  {
    var next := Apply(k, w, moves[0]);
    if next.custody.Held? {
      i := 0;
    } else {
      var j := RefilledByResolution(k, next, moves[1..]);
      i := j + 1;
      assert moves[..i][0] == moves[0] && moves[..i][1..] == moves[1..][..j];
    }
  }

  /** Inside a streamed message, before its last fragment is prepared. */
  predicate MidStream<C>(m: Move<C>) {
    (m.PrepareFragment? && !m.last) || m.CommitFragment?
  }

  ghost predicate Streamed<S, C, H>(k: Link<S, C, H>, w: World<S, C>, before: bytes) {
    match w.custody
    case Streaming(c) => k.format.synced(c) && k.format.reach(c) == before + w.partSent
    case FragmentOut(from, c, payload, wire, last) =>
      !last && k.format.synced(c) && k.format.reach(c) == before + w.partSent + payload
    case _ => false
  }

  /**
   * A commit before the last never resets: through any number of fragments the
   * compressor's history grows by exactly the chunks, whatever the takeover flags say.
   */
  lemma {:induction false} FragmentsKeepHistory<S(!new), C(!new), H(!new)>(
    k: Link<S, C, H>, w: World<S, C>, moves: seq<Move<C>>, before: bytes)
    requires Lawful(k.format) && Streamed(k, w, before)
    requires Legal(k, w, moves) && forall i :: 0 <= i < |moves| ==> MidStream(moves[i])
    ensures Streamed(k, Run(k, w, moves), before)
    decreases |moves|
  {
    if moves != [] {
      FragmentKeepsHistory(k, w, moves[0], before);
      FragmentsKeepHistory(k, Apply(k, w, moves[0]), moves[1..], before);
    }
  }

  lemma FragmentKeepsHistory<S(!new), C(!new), H(!new)>(k: Link<S, C, H>, w: World<S, C>, m: Move<C>, before: bytes)
    requires Lawful(k.format) && Streamed(k, w, before) && Enabled(k, w, m) && MidStream(m)
    ensures Streamed(k, Apply(k, w, m), before)
  {
    match m
    case PrepareFragment(payload, last, c', wire) =>
      ReachGrows(k.format, w.custody.c, payload, c', wire);
    case CommitFragment(limit) =>
      Regroup(before, w.partSent, w.custody.payload);
  }

  // ---- History.

  lemma {:induction false} PlainIsRemembered<S(!new), C(!new), H(!new)>(
    k: Link<S, C, H>, w: World<S, C>, moves: seq<Move<C>>)
    requires Legal(k, w, moves)
    ensures Run(k, w, moves).plain <==> w.plain || exists i :: 0 <= i < |moves| && moves[i].ResetToPlain?
    decreases |moves|
  {
    if moves != [] {
      PlainIsRemembered(k, Apply(k, w, moves[0]), moves[1..]);
      assert forall i :: 1 <= i < |moves| ==> moves[i] == moves[1..][i-1];
    }
  }

  /**
   * Whenever an encoder holds its compressor and the peer has not failed, both ends
   * stand at a block boundary and what the compressor may refer to is a suffix of what
   * the peer still has: all of it unless some candidate was abandoned, and nothing at
   * all on either side when takeover was negotiated away.
   */
  lemma HistoryContainment<S(!new), C(!new), H(!new)>(k: Link<S, C, H>, moves: seq<Move<C>>)
    requires Lawful(k.format) && k.senderResets == k.receiverResets
    requires Legal(k, Initial(k), moves) && Run(k, Initial(k), moves).custody.Held?
    ensures Roomy(k, Initial(k), moves) ==> Run(k, Initial(k), moves).receiver.Some?
    ensures k.format.synced(Run(k, Initial(k), moves).custody.c)
    ensures Run(k, Initial(k), moves).receiver.Some? ==>
      var w := Run(k, Initial(k), moves);
      var c, s := w.custody.c, w.receiver.value.pos.state;
      && k.format.boundary(s)
      && IsSuffix(k.format.reach(c), k.format.history(s))
      && ((forall i :: 0 <= i < |moves| ==> !moves[i].ResetToPlain?) ==> k.format.reach(c) == k.format.history(s))
      && (k.senderResets ==> k.format.reach(c) == [] && k.format.history(s) == [])
  {
    InitialInv(k);
    RunKeepsInv(k, Initial(k), moves);
    PlainIsRemembered(k, Initial(k), moves);
  }

  // ---- The wire.

  /** A streamed message as the encoder produced it: `cs` are the compressor states between chunks. */
  ghost predicate StreamOf<C(!new), H(!new)>(d: Deflater<C, H>, cs: seq<C>, payloads: seq<bytes>, wires: seq<bytes>) {
    && |payloads| == |wires| > 0 && |cs| == |wires| + 1
    && (forall i :: 0 <= i < |wires| - 1 ==> PreparesNonFinal(d, cs[i], payloads[i], cs[i+1], wires[i]))
    && PreparesFinal(d, cs[|wires|-1], payloads[|wires|-1], cs[|wires|], wires[|wires|-1])
  }

  lemma StrippedLast(before: seq<bytes>, payload: bytes, out: bytes, wire: bytes)
    requires StripOrSynthesize(payload, out) == Ok(wire)
    ensures Concat(before + [wire]) + TRAILER == Concat(before + [out]) + (if out == [] then EMPTY_BLOCK else [])
  {
    StrippedExactly(payload, out, wire);
    ConcatAppend(before, [wire]);
    ConcatAppend(before, [out]);
    ConcatOne(wire);
    ConcatOne(out);
    Regroup(Concat(before), wire, TRAILER);
    Regroup(Concat(before), out, if out == [] then EMPTY_BLOCK else []);
    assert wire + TRAILER == out + (if out == [] then EMPTY_BLOCK else []);
  }

  /**
   * Every fragment before the last is empty or keeps its trailer, and the fragments
   * with one trailer behind them are the outputs of steps 1 and 2 in order, plus
   * one empty stored block exactly when the last chunk produced nothing.
   */
  lemma WireShape<C(!new), H(!new)>(d: Deflater<C, H>, cs: seq<C>, payloads: seq<bytes>, wires: seq<bytes>)
    returns (outs: seq<bytes>)
    requires StreamOf(d, cs, payloads, wires)
    ensures |outs| == |wires|
    ensures forall i :: 0 <= i < |wires| ==> Aligned(d, cs[i], payloads[i], cs[i+1], outs[i])
    ensures forall i :: 0 <= i < |wires| - 1 ==> wires[i] == outs[i] && (wires[i] == [] || EndsWith(wires[i], TRAILER))
    ensures Concat(wires) + TRAILER == Concat(outs) + (if outs[|outs|-1] == [] then EMPTY_BLOCK else [])
  {
    var n := |wires| - 1;
    var out: bytes :|
      Aligned(d, cs[n], payloads[n], cs[n+1], out) && StripOrSynthesize(payloads[n], out) == Ok(wires[n]);
    outs := wires[..n] + [out];
    assert wires == wires[..n] + [wires[n]];
    StrippedLast(wires[..n], payloads[n], out, wires[n]);
    forall i | 0 <= i < |wires| ensures Aligned(d, cs[i], payloads[i], cs[i+1], outs[i]) {
      if i < n { assert PreparesNonFinal(d, cs[i], payloads[i], cs[i+1], wires[i]); }
    }
    forall i | 0 <= i < n ensures wires[i] == outs[i] && (wires[i] == [] || EndsWith(wires[i], TRAILER)) {
      assert PreparesNonFinal(d, cs[i], payloads[i], cs[i+1], wires[i]);
    }
  }

  /**
   * Step 3 takes exactly the four tail octets or stands one octet for nothing: no earlier copy of the
   * tail is touched, and what does not end in it is refused unless it is nothing for nothing.
   */
  lemma StrippedExactly(payload: bytes, out: bytes, wire: bytes)
    ensures StripOrSynthesize(payload, out) == Ok(wire) <==>
      if out == [] then payload == [] && wire == [0x00] else out == wire + [0x00, 0x00, 0xff, 0xff]
    ensures StripOrSynthesize(payload, out).Err? ==> StripOrSynthesize(payload, out).error == CompressionFailed
  {
    if out != [] && out == wire + TRAILER { assert out[|out| - 4..] == TRAILER; }
    if EndsWith(out, TRAILER) { assert out == out[..|out| - 4] + TRAILER; }
  }

  /** A fragment before the last is held to the same, and keeps its tail. */
  lemma AlignedExactly(payload: bytes, out: bytes)
    ensures EndsAligned(payload, out) <==>
      if out == [] then payload == [] else exists front: bytes :: out == front + [0x00, 0x00, 0xff, 0xff]
    ensures EndsAligned(payload, out) <==> StripOrSynthesize(payload, out).Ok?
  {
    if EndsWith(out, TRAILER) { assert out == out[..|out| - 4] + [0x00, 0x00, 0xff, 0xff]; }
    if front: bytes :| out == front + [0x00, 0x00, 0xff, 0xff] {
      assert out[|out| - 4..] == TRAILER;
    }
  }

  // ---- The same, for the moves of a run.

  /** The chunks a host prepared in the course of some moves, in order. */
  function Chunks<C>(moves: seq<Move<C>>): seq<bytes> {
    if moves == [] then []
    else (if moves[0].PrepareFragment? then [moves[0].payload] else []) + Chunks(moves[1..])
  }

  /** And the fragments they became. */
  function Wires<C>(moves: seq<Move<C>>): seq<bytes> {
    if moves == [] then []
    else (if moves[0].PrepareFragment? then [moves[0].wire] else []) + Wires(moves[1..])
  }

  lemma StreamOne<C(!new), H(!new)>(d: Deflater<C, H>, c: C, payload: bytes, c': C, wire: bytes)
    requires PreparesFinal(d, c, payload, c', wire)
    ensures StreamOf(d, [c, c'], [payload], [wire])
  {
  }

  lemma StreamCons<C(!new), H(!new)>(d: Deflater<C, H>, c: C, payload: bytes, wire: bytes, cs: seq<C>,
                                     payloads: seq<bytes>, wires: seq<bytes>)
    requires StreamOf(d, cs, payloads, wires) && PreparesNonFinal(d, c, payload, cs[0], wire)
    ensures StreamOf(d, [c] + cs, [payload] + payloads, [wire] + wires)
  {
    var ds, ps, ws := [c] + cs, [payload] + payloads, [wire] + wires;
    forall i | 0 <= i < |ws| - 1 ensures PreparesNonFinal(d, ds[i], ps[i], ds[i+1], ws[i]) {
      if i > 0 { assert PreparesNonFinal(d, cs[i-1], payloads[i-1], cs[i], wires[i-1]); }
    }
  }

  /** The moves lead to the first world in which the encoder has its compressor back. */
  predicate Resumes<S, C, H>(k: Link<S, C, H>, w: World<S, C>, moves: seq<Move<C>>)
    decreases |moves|
  {
    if moves == [] then w.custody.Held? else !w.custody.Held? && Resumes(k, Apply(k, w, moves[0]), moves[1..])
  }

  /** Any run that gets there gets there a first time. */
  lemma {:induction false} FirstResumes<S(!new), C(!new), H(!new)>(k: Link<S, C, H>, w: World<S, C>,
                                                                   moves: seq<Move<C>>)
    returns (n: nat)
    requires Legal(k, w, moves) && Run(k, w, moves).custody.Held?
    ensures n <= |moves| && Legal(k, w, moves[..n]) && Resumes(k, w, moves[..n])
    decreases |moves|
  {
    if w.custody.Held? { return 0; }
    var rest := FirstResumes(k, Apply(k, w, moves[0]), moves[1..]);
    n := rest + 1;
    assert moves[..n][0] == moves[0] && moves[..n][1..] == moves[1..][..rest];
  }

  lemma LegalFirst<S(!new), C(!new), H(!new)>(k: Link<S, C, H>, w: World<S, C>, moves: seq<Move<C>>)
    requires moves != [] && Legal(k, w, moves)
    ensures Enabled(k, w, moves[0]) && Legal(k, Apply(k, w, moves[0]), moves[1..])
    ensures Run(k, w, moves) == Run(k, Apply(k, w, moves[0]), moves[1..])
  {
  }

  lemma ResumesFirst<S(!new), C(!new), H(!new)>(k: Link<S, C, H>, w: World<S, C>, moves: seq<Move<C>>)
    requires !w.custody.Held? && Legal(k, w, moves) && Resumes(k, w, moves)
    ensures moves != [] && Enabled(k, w, moves[0]) && Legal(k, Apply(k, w, moves[0]), moves[1..])
    ensures Resumes(k, Apply(k, w, moves[0]), moves[1..])
    ensures Run(k, w, moves) == Run(k, Apply(k, w, moves[0]), moves[1..])
    ensures !moves[0].Forget?
  {
    LegalFirst(k, w, moves);
    if moves[0].Forget? { LostNeverResumes(k, Apply(k, w, moves[0]), moves[1..]); }
  }

  /** A lost compressor never comes back. */
  lemma {:induction false} LostNeverResumes<S(!new), C(!new), H(!new)>(
    k: Link<S, C, H>, w: World<S, C>, moves: seq<Move<C>>)
    requires w.custody.Lost? && Legal(k, w, moves)
    ensures !Resumes(k, w, moves)
    decreases |moves|
  {
    if moves != [] {
      LegalFirst(k, w, moves);
      LostNeverResumes(k, Apply(k, w, moves[0]), moves[1..]);
    }
  }

  /** On the way there a streaming host's first two moves are a prepare and its commit. */
  lemma FirstPair<S(!new), C(!new), H(!new)>(k: Link<S, C, H>, w: World<S, C>, moves: seq<Move<C>>)
    requires w.custody.Streaming? && Legal(k, w, moves) && Resumes(k, w, moves)
    ensures |moves| >= 2 && moves[0].PrepareFragment? && moves[1].CommitFragment?
    ensures Enabled(k, w, moves[0]) && Enabled(k, Apply(k, w, moves[0]), moves[1])
    ensures Legal(k, Apply(k, Apply(k, w, moves[0]), moves[1]), moves[2..])
    ensures Resumes(k, Apply(k, Apply(k, w, moves[0]), moves[1]), moves[2..])
    ensures Run(k, w, moves) == Run(k, Apply(k, Apply(k, w, moves[0]), moves[1]), moves[2..])
    ensures Chunks(moves) == [moves[0].payload] + Chunks(moves[2..])
    ensures Wires(moves) == [moves[0].wire] + Wires(moves[2..])
  {
    ResumesFirst(k, w, moves);
    var mid := Apply(k, w, moves[0]);
    ResumesFirst(k, mid, moves[1..]);
    assert moves[1..][0] == moves[1] && moves[1..][1..] == moves[2..];
    PairFragments(moves);
  }

  lemma PairFragments<C>(moves: seq<Move<C>>)
    requires |moves| >= 2 && moves[0].PrepareFragment? && !moves[1].PrepareFragment?
    ensures Chunks(moves) == [moves[0].payload] + Chunks(moves[2..])
    ensures Wires(moves) == [moves[0].wire] + Wires(moves[2..])
  {
    assert moves[1..][0] == moves[1] && moves[1..][1..] == moves[2..];
    NoFragment(moves[1..]);
  }

  lemma NoFragment<C>(moves: seq<Move<C>>)
    requires moves != [] && !moves[0].PrepareFragment?
    ensures Chunks(moves) == Chunks(moves[1..]) && Wires(moves) == Wires(moves[1..])
  {
    assert [] + Chunks(moves[1..]) == Chunks(moves[1..]);
    assert [] + Wires(moves[1..]) == Wires(moves[1..]);
  }

  /** What such a pair amounts to. */
  lemma PairMeans<S(!new), C(!new), H(!new)>(k: Link<S, C, H>, w: World<S, C>, p: Move<C>, commit: Move<C>)
    returns (next: World<S, C>)
    requires w.custody.Streaming? && p.PrepareFragment? && commit.CommitFragment?
    requires Enabled(k, w, p) && Enabled(k, Apply(k, w, p), commit)
    ensures next == Apply(k, Apply(k, w, p), commit)
    ensures p.last ==>
      && PreparesFinal(k.format.deflater, w.custody.c, p.payload, p.c', p.wire)
      && next.custody.Held? && next.sent == w.sent + [w.partSent + p.payload]
    ensures !p.last ==>
      && PreparesNonFinal(k.format.deflater, w.custody.c, p.payload, p.c', p.wire)
      && next.custody == Streaming(p.c') && next.sent == w.sent && next.partSent == w.partSent + p.payload
  {
    next := Apply(k, Apply(k, w, p), commit);
  }

  /** The moves that take a begun stream to the commit of its last fragment are such a stream. */
  lemma {:induction false} StreamOfRun<S(!new), C(!new), H(!new)>(k: Link<S, C, H>, w: World<S, C>, moves: seq<Move<C>>)
    returns (cs: seq<C>)
    requires w.custody.Streaming? && Legal(k, w, moves) && Resumes(k, w, moves)
    ensures StreamOf(k.format.deflater, cs, Chunks(moves), Wires(moves)) && cs[0] == w.custody.c
    ensures Run(k, w, moves).sent == w.sent + [w.partSent + Concat(Chunks(moves))]
    decreases |moves|
  {
    FirstPair(k, w, moves);
    var c', payload, wire := moves[0].c', moves[0].payload, moves[0].wire;
    var next := PairMeans(k, w, moves[0], moves[1]);
    if moves[0].last {
      cs := [w.custody.c, c'];
      StreamOne(k.format.deflater, w.custody.c, payload, c', wire);
      assert moves[2..] == [] && Chunks(moves) == [payload] && Wires(moves) == [wire];
      ConcatOne(payload);
    } else {
      var rest := StreamOfRun(k, next, moves[2..]);
      cs := [w.custody.c] + rest;
      StreamCons(k.format.deflater, w.custody.c, payload, wire, rest, Chunks(moves[2..]), Wires(moves[2..]));
      assert ([payload] + Chunks(moves[2..]))[1..] == Chunks(moves[2..]);
      Regroup(w.partSent, payload, Concat(Chunks(moves[2..])));
    }
  }

  /** So any run that gets past a begun stream sent it in that shape, and in full. */
  lemma StreamedShape<S(!new), C(!new), H(!new)>(k: Link<S, C, H>, w: World<S, C>, moves: seq<Move<C>>)
    returns (n: nat, cs: seq<C>, outs: seq<bytes>)
    requires w.custody.Streaming? && Legal(k, w, moves) && Run(k, w, moves).custody.Held?
    ensures n <= |moves| && Resumes(k, w, moves[..n])
    ensures Run(k, w, moves[..n]).sent == w.sent + [w.partSent + Concat(Chunks(moves[..n]))]
    ensures var chunks, wires := Chunks(moves[..n]), Wires(moves[..n]);
      && |outs| == |wires| == |chunks| > 0 && |cs| == |wires| + 1
      && (forall i :: 0 <= i < |wires| ==> Aligned(k.format.deflater, cs[i], chunks[i], cs[i+1], outs[i]))
      && (forall i :: 0 <= i < |wires| - 1 ==> wires[i] == outs[i] && (wires[i] == [] || EndsWith(wires[i], TRAILER)))
      && Concat(wires) + TRAILER == Concat(outs) + (if outs[|outs|-1] == [] then EMPTY_BLOCK else [])
  {
    n := FirstResumes(k, w, moves);
    cs := StreamOfRun(k, w, moves[..n]);
    outs := WireShape(k.format.deflater, cs, Chunks(moves[..n]), Wires(moves[..n]));
  }
}
