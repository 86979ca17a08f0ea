/**
  The firmware-to-client direction: unacknowledged DATA_M2C frames, numbered modulo 65536, any of
  which may be dropped from the rings or lost on the UART. The bridge writes a frame's bytes to TCP
  only if its number is the expected one and ends the session otherwise.
*/
module M2c {
  import opened Bytes
  import opened LinkCodec
  import opened LinkSession

  // ----- leaving the server's ring -----

  /**
    The link takes bytes from the server's transmit ring only together with a complete data frame
    that holds exactly them; otherwise nothing changes.
  */
  lemma ServerBytesAreFramed(s: Session, serverTx: seq<byte>)
    requires s.Valid()
    ensures var r := QueueServerTx(s, serverTx);
            var taken := serverTx[..|serverTx| - |r.serverTx|];
            && |r.serverTx| <= |serverTx| && taken + r.serverTx == serverTx
            && if taken == [] then r.session == s
               else && |taken| <= s.negotiated && r.ok
                    && r.session == s.(txSeq := Succ(s.txSeq),
                                       mux := s.mux.(data := s.mux.data + Wire(DATA_M2C, s.txSeq, s.rxSeq, taken)))
  {
    hide Wire;
  }

  // ----- the session -----

  /** `accept_m2c_sequence`: the next expected number, or a mismatch. */
  function AcceptSequence(expected: u16, f: Frame): Option<u16> {
    if f.seqNo != expected then None else Some(Succ(expected))
  }

  datatype World = World(
    serverTx: seq<byte>,
    txSeq: u16,
    rxSeq: u16,
    negotiated: nat,
    taken: seq<byte>,     // every byte that left the server's ring inside a frame
    sent: seq<Frame>,     // every data frame queued in this epoch
    coming: seq<nat>,     // which of them are still queued or on the wire
    expected: u16,
    tcp: seq<byte>,       // every byte written to the client
    accepted: nat,        // frames written to the client
    failed: bool)

  datatype Step =
    | Produce(data: seq<byte>)
    | Empty               // a client's handshake empties the server's own ring
    | Queue(fits: bool)
    | Lose(i: nat)        // dropped from the ring or lost on the UART
    | Take

  function Next(w: World, step: Step): World {
    match step
    case Produce(data) => w.(serverTx := w.serverTx + data)
    case Empty => w.(serverTx := [])
    case Queue(fits) =>
      var n := Min(|w.serverTx|, w.negotiated);
      if !fits || n <= 0 then w
      else w.(serverTx := w.serverTx[n..], txSeq := Succ(w.txSeq), taken := w.taken + w.serverTx[..n],
              sent := w.sent + [Frame(DATA_M2C, 0, w.txSeq, w.rxSeq, w.serverTx[..n])],
              coming := w.coming + [|w.sent|])
    case Lose(i) => if i < |w.coming| then w.(coming := w.coming[..i] + w.coming[i + 1..]) else w
    case Take =>
      if w.failed || w.coming == [] || w.coming[0] >= |w.sent| then w
      else
        var f := w.sent[w.coming[0]];
        match AcceptSequence(w.expected, f)
        case None => w.(coming := w.coming[1..], failed := true)
        case Some(next) =>
          w.(coming := w.coming[1..], expected := next, tcp := w.tcp + f.payload, accepted := w.accepted + 1)
  }

  function Payloads(frames: seq<Frame>): seq<byte> {
    if frames == [] then [] else Payloads(frames[..|frames| - 1]) + frames[|frames| - 1].payload
  }

  ghost predicate Increasing(s: seq<nat>) {
    forall i, j :: 0 <= i < j < |s| ==> s[i] < s[j]
  }

  ghost predicate Inv(w: World) {
    && w.taken == Payloads(w.sent)
    && w.txSeq == |w.sent| % 0x1_0000
    && (forall i :: 0 <= i < |w.sent| ==> w.sent[i].seqNo == i % 0x1_0000)
    && Increasing(w.coming)
    && (forall i :: 0 <= i < |w.coming| ==> w.accepted <= w.coming[i] < |w.sent|)
    && w.accepted <= |w.sent|
    && w.expected == w.accepted % 0x1_0000
    && w.tcp == Payloads(w.sent[..w.accepted])
  }

  /** While the session lives, fewer than 65536 frames in a row are missing ahead of the next to arrive. */
  predicate NoLongGap(w: World) {
    !w.failed && w.coming != [] ==> w.coming[0] - w.accepted < 0x1_0000
  }

  lemma SuccMod(n: nat)
    ensures Succ(n % 0x1_0000) == (n + 1) % 0x1_0000
  {
  }

  lemma SameModulus(a: nat, b: nat)
    requires b <= a < b + 0x1_0000
    ensures a % 0x1_0000 == b % 0x1_0000 <==> a == b
  {
  }

  lemma PayloadsSnoc(frames: seq<Frame>, f: Frame)
    ensures Payloads(frames + [f]) == Payloads(frames) + f.payload
  {
    assert (frames + [f])[..|frames|] == frames;
  }

  lemma QueueKeeps(w: World, fits: bool)
    requires Inv(w)
    ensures Inv(Next(w, Queue(fits)))
  {
    hide Payloads;
    var n := Min(|w.serverTx|, w.negotiated);
    if fits && n > 0 {
      SuccMod(|w.sent|);
      var f := Frame(DATA_M2C, 0, w.txSeq, w.rxSeq, w.serverTx[..n]);
      PayloadsSnoc(w.sent, f);
      assert (w.sent + [f])[..w.accepted] == w.sent[..w.accepted];
    }
  }

  lemma TakeKeeps(w: World)
    requires Inv(w) && NoLongGap(w)
    ensures Inv(Next(w, Take))
  {
    hide Payloads;
    if !w.failed && w.coming != [] {
      SameModulus(w.coming[0], w.accepted);
      SuccMod(w.accepted);
      if w.coming[0] == w.accepted {
        TakeSnoc(w.sent, w.accepted);
        PayloadsSnoc(w.sent[..w.accepted], w.sent[w.accepted]);
      }
    }
  }

  lemma NextKeeps(w: World, step: Step)
    requires Inv(w)
    requires step == Take ==> NoLongGap(w)
    ensures Inv(Next(w, step))
  {
    hide Payloads;
    match step
    case Produce(_) =>
    case Empty =>
    case Queue(fits) => QueueKeeps(w, fits);
    case Lose(_) =>
    case Take => TakeKeeps(w);
  }

  // ----- whole epochs -----

  function Run(w: World, steps: seq<Step>): World
    decreases |steps|
  {
    if steps == [] then w else Run(Next(w, steps[0]), steps[1..])
  }

  /** At no point of the run are 65536 consecutive frames missing. */
  ghost predicate GapsBounded(w: World, steps: seq<Step>)
    decreases |steps|
  {
    steps == [] || (NoLongGap(w) && GapsBounded(Next(w, steps[0]), steps[1..]))
  }

  function Start(negotiated: nat): World {
    World([], 0, 0, negotiated, [], [], [], 0, [], 0, false)
  }

  lemma {:induction false} RunKeeps(w: World, steps: seq<Step>)
    requires Inv(w) && GapsBounded(w, steps)
    ensures Inv(Run(w, steps))
    decreases |steps|
  {
    hide Inv, Next;
    if steps == [] {
    } else {
      NextKeeps(w, steps[0]);
      RunKeeps(Next(w, steps[0]), steps[1..]);
    }
  }

  lemma {:induction false} PayloadsPrefix(frames: seq<Frame>, n: nat)
    requires n <= |frames|
    ensures Payloads(frames[..n]) <= Payloads(frames)
    decreases |frames|
  {
    if n == |frames| {
      assert frames[..n] == frames;
    } else {
      var front := frames[..|frames| - 1];
      assert frames[..n] == front[..n];
      PayloadsPrefix(front, n);
    }
  }

  /**
    The client sees a prefix of what the server sent: exactly the payloads of the first `accepted`
    frames, whatever was dropped or lost, as long as no gap spans the whole number space.
  */
  lemma ClientSeesPrefix(negotiated: nat, steps: seq<Step>)
    requires GapsBounded(Start(negotiated), steps)
    ensures var w := Run(Start(negotiated), steps);
            && w.accepted <= |w.sent|
            && w.tcp == Payloads(w.sent[..w.accepted])
            && w.tcp <= w.taken
  {
    RunKeeps(Start(negotiated), steps);
    hide Run;
    var w := Run(Start(negotiated), steps);
    PayloadsPrefix(w.sent, w.accepted);
  }

  /** Exactly which frames pass: the session survives a frame iff the number of missing ones is a multiple of 65536. */
  lemma GapDetected(w: World)
    requires Inv(w) && !w.failed && w.coming != []
    ensures Next(w, Take).failed <==> (w.coming[0] - w.accepted) % 0x1_0000 != 0
  {
    CongruentIff(w.coming[0], w.accepted);
  }

  lemma CongruentIff(a: nat, b: nat)
    requires b <= a
    ensures a % 0x1_0000 == b % 0x1_0000 <==> (a - b) % 0x1_0000 == 0
  {
    var q, r := b / 0x1_0000, b % 0x1_0000;
    assert b == q * 0x1_0000 + r;
    var d, e := (a - b) / 0x1_0000, (a - b) % 0x1_0000;
    assert a == (q + d) * 0x1_0000 + (r + e);
  }

  /**
    Without the bound the promise fails: 65536 lost frames in a row go unnoticed, and the client is
    given bytes that do not continue what it has seen.
  */
  lemma LongGapUnnoticed(w: World)
    requires Inv(w) && !w.failed && w.coming != []
    requires w.coming[0] == w.accepted + 0x1_0000
    ensures !Next(w, Take).failed
    ensures Next(w, Take).tcp == w.tcp + w.sent[w.accepted + 0x1_0000].payload
  {
    GapDetected(w);
  }

  // ----- a run in which that happens -----

  function Times(step: Step, n: nat): seq<Step> {
    if n == 0 then [] else [step] + Times(step, n - 1)
  }

  lemma {:induction false} RunAppend(w: World, a: seq<Step>, b: seq<Step>)
    ensures Run(w, a + b) == Run(Run(w, a), b)
    decreases |a|
  {
    hide Next;
    if a == [] {
      assert a + b == b;
    } else {
      assert (a + b)[1..] == a[1..] + b;
      RunAppend(Next(w, a[0]), a[1..], b);
    }
  }

  /** The first k bytes of data have been queued, a byte a frame, and nothing has arrived. */
  ghost predicate QueuedUpto(w: World, data: seq<byte>, k: nat)
    requires k <= |data|
  {
    && Inv(w) && w.negotiated == 1 && w.serverTx == data[k..] && w.taken == data[..k]
    && |w.sent| == k && (forall i :: 0 <= i < k ==> w.sent[i].payload == [data[i]])
    && |w.coming| == k && (forall i :: 0 <= i < k ==> w.coming[i] == i)
    && w.tcp == [] && w.expected == 0 && w.accepted == 0 && !w.failed
  }

  lemma QueueOneMore(w: World, data: seq<byte>, k: nat)
    requires k < |data| && QueuedUpto(w, data, k)
    ensures QueuedUpto(Next(w, Queue(true)), data, k + 1)
  {
    QueueKeeps(w, true);
    hide Inv, Payloads;
    TakeSnoc(data, k);
    assert data[k..][..1] == [data[k]] && data[k..][1..] == data[k + 1..];
  }

  lemma {:induction false} QueueMany(w: World, data: seq<byte>, k: nat, n: nat)
    requires k + n <= |data| && QueuedUpto(w, data, k)
    ensures QueuedUpto(Run(w, Times(Queue(true), n)), data, k + n)
    decreases n
  {
    hide QueuedUpto, Next;
    if n > 0 {
      QueueOneMore(w, data, k);
      QueueMany(Next(w, Queue(true)), data, k + 1, n - 1);
      assert Times(Queue(true), n)[1..] == Times(Queue(true), n - 1);
    }
  }

  lemma {:induction false} LoseMany(w: World, n: nat)
    requires n <= |w.coming|
    ensures Run(w, Times(Lose(0), n)) == w.(coming := w.coming[n..])
    decreases n
  {
    if n > 0 {
      var next := Next(w, Lose(0));
      assert next == w.(coming := w.coming[1..]);
      LoseMany(next, n - 1);
      assert Times(Lose(0), n)[1..] == Times(Lose(0), n - 1);
    }
  }

  function Ones(n: nat): (r: seq<byte>)
    ensures |r| == n
  {
    seq(n, i => 1)
  }

  /**
    A run that breaks the promise: the server sends 65536 ones and a two, a byte a frame; all frames
    but the last are lost; the client is given the two first, and the session goes on.
  */
  lemma LongGapBreaksPrefix() returns (steps: seq<Step>)
    ensures var t := Run(Start(1), steps);
            !t.failed && t.tcp == [2] && t.taken == Ones(0x1_0000) + [2] && !(t.tcp <= t.taken)
  {
    hide Run, Times, Ones, QueuedUpto, Next;
    var data := Ones(0x1_0000) + [2];
    var produce, queue, lose := [Produce(data)], Times(Queue(true), 0x1_0001), Times(Lose(0), 0x1_0000);
    steps := produce + queue + lose + [Take];
    RunAppend(Start(1), produce, queue);
    RunAppend(Start(1), produce + queue, lose);
    RunAppend(Start(1), produce + queue + lose, [Take]);
    Produced(data);
    QueueMany(Run(Start(1), produce), data, 0, 0x1_0001);
    LastTaken(Run(Start(1), produce + queue), data);
  }

  lemma Produced(data: seq<byte>)
    ensures QueuedUpto(Run(Start(1), [Produce(data)]), data, 0)
  {
    assert [Produce(data)][1..] == [] && [] + data == data && data[0..] == data && data[..0] == [];
    assert Run(Start(1), [Produce(data)]) == Start(1).(serverTx := data);
  }

  lemma LastTaken(w: World, data: seq<byte>)
    requires data == Ones(0x1_0000) + [2] && QueuedUpto(w, data, 0x1_0001)
    ensures var t := Run(Run(w, Times(Lose(0), 0x1_0000)), [Take]);
            !t.failed && t.tcp == [2] && t.taken == data && !(t.tcp <= t.taken)
  {
    hide Times, Payloads;
    LoseMany(w, 0x1_0000);
    var c := w.(coming := w.coming[0x1_0000..]);
    assert [Take][1..] == [];
    assert c.coming[0] == 0x1_0000 && w.sent[0x1_0000].seqNo == 0 && w.sent[0x1_0000].payload == [2];
    assert data[..0x1_0001] == data && data[0] == 1;
    assert Run(c, [Take]) == Next(c, Take);
  }
}
