/**
  Chunking does not matter: whatever pieces a client's byte stream arrives in, if every receive call
  succeeds then the outcome is that of handling the complete frames of the stream one by one.
*/
module ServerFolds {
  import opened Bytes
  import opened Packet
  import opened Server
  import VarInt

  /** Handling complete frames in order, up to the first failure. */
  function HandleAll(c: Config, s: Session, bodies: seq<seq<byte>>): Outcome
    decreases |bodies|
  {
    if bodies == [] then Outcome(true, s)
    else
      var o := HandleFrame(c, s, bodies[0]);
      if o.ok then HandleAll(c, o.s, bodies[1..]) else o
  }

  lemma {:induction false} HandleAllAppend(c: Config, s: Session, a: seq<seq<byte>>, b: seq<seq<byte>>)
    ensures HandleAll(c, s, a + b)
         == var o := HandleAll(c, s, a); if o.ok then HandleAll(c, o.s, b) else o
    decreases |a|
  {
    hide HandleFrame;
    if a == [] {
      assert a + b == b;
    } else {
      assert (a + b)[1..] == a[1..] + b;
      var o := HandleFrame(c, s, a[0]);
      if o.ok {
        HandleAllAppend(c, o.s, a[1..], b);
      }
    }
  }

  /** Exactly when a call succeeds, and what it then leaves behind. */
  lemma {:induction false} DrainIsFold(c: Config, s: Session, rx: seq<byte>)
    ensures var cut := CutFrames(rx);
            var o := HandleAll(c, s, cut.bodies);
            var r := DrainRx(c, s, rx);
            && (r.ok <==> o.ok && !cut.bad && !PartialBad(o.s.srv.compressed, cut.rest))
            && (r.ok ==> r.s == o.s && r.rx == cut.rest)
            && (!r.ok ==> r.rx == [])
    decreases |rx|
  {
    hide HandleFrame, PartialBad, Classify, TryRead;
    match Classify(rx)
    case NeedMore =>
    case Invalid =>
    case Ready(n) =>
      ReadyReads(rx, n);
      var body := TryRead(rx).value.body;
      var o := HandleFrame(c, s, body);
      var t := CutFrames(rx[n..]);
      assert ([body] + t.bodies)[1..] == t.bodies;
      if o.ok {
        DrainIsFold(c, o.s, rx[n..]);
      }
  }

  /** A sequence of receive calls, ending with the first that fails. */
  function ReceiveAll(c: Config, s: Session, rx: seq<byte>, chunks: seq<seq<byte>>): Received
    decreases |chunks|
  {
    if chunks == [] then Received(true, s, rx)
    else
      var r := ReceiveAll(c, s, rx, chunks[..|chunks| - 1]);
      if r.ok then Receive(c, r.s, r.rx, chunks[|chunks| - 1]) else r
  }

  /**
    What the stream must be like up to the end of chunk k: it cuts into frames, all of them are
    handled, the incomplete tail is not refused, and what was left over leaves room for the chunk.
  */
  ghost predicate Admitted(c: Config, s: Session, rx: seq<byte>, chunks: seq<seq<byte>>, k: nat)
    requires 1 <= k <= |chunks|
  {
    var before, cut := CutFrames(rx + Flatten(chunks[..k - 1])), CutFrames(rx + Flatten(chunks[..k]));
    var o := HandleAll(c, s, cut.bodies);
    && |before.rest| + |chunks[k - 1]| <= MAX_ACCUM
    && !cut.bad && o.ok && !PartialBad(o.s.srv.compressed, cut.rest)
  }

  /** The whole stream by itself: cut into frames and handled one by one. */
  ghost predicate Folded(c: Config, s: Session, stream: seq<byte>, r: Received) {
    var cut := CutFrames(stream);
    var o := HandleAll(c, s, cut.bodies);
    !cut.bad && o.ok && r == Received(true, o.s, cut.rest)
  }

  /** One more call on top of calls that all succeeded. */
  lemma ReceiveMore(c: Config, s: Session, stream: seq<byte>, r: Received, bytes: seq<byte>)
    requires Folded(c, s, stream, r)
    ensures var cut := CutFrames(stream + bytes);
            var o := HandleAll(c, s, cut.bodies);
            var t := Receive(c, r.s, r.rx, bytes);
            && (t.ok <==> |r.rx| + |bytes| <= MAX_ACCUM && !cut.bad && o.ok
                          && !PartialBad(o.s.srv.compressed, cut.rest))
            && (t.ok ==> Folded(c, s, stream + bytes, t))
  {
    hide DrainRx, HandleAll, PartialBad, Classify, CutFrames;
    CutContinues(stream, bytes);
    DrainIsFold(c, r.s, r.rx + bytes);
    HandleAllAppend(c, s, CutFrames(stream).bodies, CutFrames(r.rx + bytes).bodies);
  }

  lemma NothingReceived(c: Config, s: Session, rx: seq<byte>)
    requires Classify(rx).NeedMore?
    ensures Folded(c, s, rx + Flatten([]), Received(true, s, rx))
  {
    hide Classify, HandleFrame;
    assert rx + Flatten([]) == rx;
  }

  /** The conditions on earlier chunks do not depend on the last. */
  lemma AdmittedFront(c: Config, s: Session, rx: seq<byte>, chunks: seq<seq<byte>>, n: nat)
    requires n < |chunks|
    ensures forall k :: 1 <= k <= n ==> Admitted(c, s, rx, chunks, k) == Admitted(c, s, rx, chunks[..n], k)
  {
    hide CutFrames, HandleAll, PartialBad, Flatten;
    forall k | 1 <= k <= n
      ensures Admitted(c, s, rx, chunks, k) == Admitted(c, s, rx, chunks[..n], k)
    {
      assert chunks[..n][..k] == chunks[..k] && chunks[..n][..k - 1] == chunks[..k - 1];
    }
  }

  /** The last call succeeds exactly if the last condition holds. */
  lemma LastCall(c: Config, s: Session, rx: seq<byte>, chunks: seq<seq<byte>>, r: Received)
    requires chunks != [] && Folded(c, s, rx + Flatten(chunks[..|chunks| - 1]), r)
    ensures var t := Receive(c, r.s, r.rx, chunks[|chunks| - 1]);
            && (t.ok <==> Admitted(c, s, rx, chunks, |chunks|))
            && (t.ok ==> Folded(c, s, rx + Flatten(chunks), t))
  {
    hide CutFrames, HandleAll, PartialBad, Flatten, Receive;
    var n := |chunks| - 1;
    FlattenLast(chunks);
    Regroup(rx, Flatten(chunks[..n]), chunks[n]);
    assert chunks[..n + 1] == chunks;
    ReceiveMore(c, s, rx + Flatten(chunks[..n]), r, chunks[n]);
  }

  /**
    Receiving a stream in chunks. Exactly when every call succeeds, in terms of the stream alone; and
    the outcome is then that of handling the stream's complete frames one by one.
  */
  lemma {:induction false} ReceiveAllIsFold(c: Config, s: Session, rx: seq<byte>, chunks: seq<seq<byte>>)
    requires Classify(rx).NeedMore?
    ensures ReceiveAll(c, s, rx, chunks).ok <==> forall k :: 1 <= k <= |chunks| ==> Admitted(c, s, rx, chunks, k)
    ensures ReceiveAll(c, s, rx, chunks).ok ==> Folded(c, s, rx + Flatten(chunks), ReceiveAll(c, s, rx, chunks))
    decreases |chunks|
  {
    hide Receive, HandleAll, Classify, CutFrames, Flatten, Admitted, Folded;
    if chunks == [] {
      NothingReceived(c, s, rx);
    } else {
      var n := |chunks| - 1;
      ReceiveAllIsFold(c, s, rx, chunks[..n]);
      AdmittedFront(c, s, rx, chunks, n);
      var r := ReceiveAll(c, s, rx, chunks[..n]);
      if r.ok {
        LastCall(c, s, rx, chunks, r);
      }
    }
  }

  /**
    Two ways of cutting the same stream into chunks, both without a failed call, end in the same
    session state, the same output and the same leftover.
  */
  lemma Confluence(c: Config, s: Session, rx: seq<byte>, a: seq<seq<byte>>, b: seq<seq<byte>>)
    requires Classify(rx).NeedMore? && Flatten(a) == Flatten(b)
    requires ReceiveAll(c, s, rx, a).ok && ReceiveAll(c, s, rx, b).ok
    ensures ReceiveAll(c, s, rx, a) == ReceiveAll(c, s, rx, b)
  {
    hide Receive, CutFrames, Admitted;
    ReceiveAllIsFold(c, s, rx, a);
    ReceiveAllIsFold(c, s, rx, b);
  }

  /** Whole frames in one call are never turned away for their packet id. */
  lemma WholeFramesNotFiltered(c: Config, s: Session, bodies: seq<seq<byte>>)
    requires forall i :: 0 <= i < |bodies| ==> |bodies[i]| <= MAX_BODY
    requires |FrameAll(bodies)| <= MAX_ACCUM
    ensures Receive(c, s, [], FrameAll(bodies)).ok <==> HandleAll(c, s, bodies).ok
  {
    hide HandleAll, DrainRx;
    CutFrameAll(bodies);
    DrainIsFold(c, s, FrameAll(bodies));
    assert [] + FrameAll(bodies) == FrameAll(bodies);
    NothingPartial(HandleAll(c, s, bodies).s.srv.compressed);
  }

  lemma NothingPartial(compressed: bool)
    ensures !PartialBad(compressed, []) && Classify([]) == NeedMore
  {
  }

  /** The same frame split in two can be turned away: a packet with id 0x80 and one byte behind it. */
  lemma SplitFiltered(c: Config)
    ensures var s := Session(BOOTED, [], []);
            && Receive(c, s, [], [3, 0x80, 0x01, 0]) == Received(true, s, [])
            && Receive(c, s, [], [3, 0x80, 0x01]) == Received(false, s, [])
  {
    hide HandleFrame, Classify, TryRead, PartialBad, ReadVarInt, DrainRx;
    SmallFrame();
    UnknownIgnored(c);
    NothingPartial(false);
    var s := Session(BOOTED, [], []);
    var whole, part: seq<byte> := [3, 0x80, 0x01, 0], [3, 0x80, 0x01];
    assert [] + whole == whole && [] + part == part && whole[4..] == [];
    DrainSteps(c, s, whole, 4, s);
    DrainSteps(c, s, part, 0, s);
    DrainSteps(c, s, [], 0, s);
  }

  /** One turn of the receive loop. */
  lemma DrainSteps(c: Config, s: Session, rx: seq<byte>, n: nat, next: Session)
    ensures Classify(rx) == NeedMore ==>
      DrainRx(c, s, rx) == if PartialBad(s.srv.compressed, rx) then Received(false, s, []) else Received(true, s, rx)
    ensures n <= |rx| && Classify(rx) == Ready(n) && TryRead(rx).Some?
            && HandleFrame(c, s, TryRead(rx).value.body) == Outcome(true, next)
        ==> DrainRx(c, s, rx) == DrainRx(c, next, rx[n..])
  {
    hide HandleFrame, Classify, TryRead, PartialBad;
  }

  lemma UnknownIgnored(c: Config)
    ensures var s := Session(BOOTED, [], []); HandleFrame(c, s, [0x80, 0x01, 0]) == Outcome(true, s)
  {
    SmallFrame();
    hide ReadVarInt, Classify, TryRead, PartialBad;
  }

  lemma SmallFrame()
    ensures TryRead([3, 0x80, 0x01, 0]) == Some(Packet([0x80, 0x01, 0], 4)) && Classify([3, 0x80, 0x01, 0]) == Ready(4)
    ensures Classify([3, 0x80, 0x01]) == NeedMore && PartialBad(false, [3, 0x80, 0x01])
    ensures ReadVarInt([0x80, 0x01, 0], 0) == Some(Field(0x80, 2))
  {
    var whole, part: seq<byte> := [3, 0x80, 0x01, 0], [3, 0x80, 0x01];
    assert whole[1..4] == [0x80, 0x01, 0] && part[1..] == [0x80, 0x01];
    var id, padded: seq<byte> := [0x80, 0x01], [0x80, 0x01, 0];
    assert id[1..] == [0x01] && padded[1..] == [0x01, 0] && padded[0..] == padded;
    assert VarInt.Groups(id[1..], 4) == Some(VarInt.Decoded(1, 1));
    assert VarInt.Groups(padded[1..], 4) == Some(VarInt.Decoded(1, 1));
  }
}
