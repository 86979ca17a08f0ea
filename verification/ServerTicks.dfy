/**
  What a tick does get done: with room for it the next bootstrap packet goes out, a keepalive goes out
  exactly when one is due, and a client that goes on reading gets the whole bootstrap.
*/
module ServerTicks {
  import opened Bytes
  import opened Packet
  import opened Commands
  import opened Server
  import opened ServerRuns
  import ClientView
  import VarInt

  /** Room in the output for any of the six fixed packets. */
  const STAGE_ROOM := 64

  /** There is a next bootstrap packet, and the output has room for it. */
  ghost predicate NextFits(c: Config, s: Session) {
    var step := Progress(s.srv);
    if step < STAGE_CHUNKS then c.cap - |s.tx| >= STAGE_ROOM
    else step < Total(c) && ChunkFits(c, c.chunks[step - STAGE_CHUNKS], c.cap - |s.tx|)
  }

  ghost predicate ChunkFits(c: Config, chunk: Chunk, room: int) {
    && ChunkValid(chunk)
    && |Frame(Deflated(chunk.rawLen), chunk.payload)| <= room
  }

  // ----- the bootstrap -----

  lemma StageItemFits(c: Config, s: Session)
    requires Booting(c, s) && s.srv.stage < STAGE_DONE && NextFits(c, s)
    ensures StageItem(c, s.srv).Some?
    ensures var item := StageItem(c, s.srv).value;
            && Sendable(item.format, item.body) && |FrameOf(item)| <= c.cap - |s.tx|
  {
    hide PlayLog, Wire, IsEnd, StageBody;
    if s.srv.stage < STAGE_CHUNKS {
      FixedSize(s.srv);
      VarInt.EncodeLength(1 + |StageBody(s.srv)|);
    }
  }

  lemma FixedSize(srv: Server)
    requires srv.stage < STAGE_CHUNKS
    ensures |StageBody(srv)| <= 34
  {
    hide BytesOf, Be;
    assert |VarInt.Encode(4)| == 1;
  }

  /** One step with room for it: the next packet, and the count goes up. */
  lemma StepSent(c: Config, s: Session)
    requires Booting(c, s) && s.srv.stage < STAGE_DONE && NextFits(c, s)
    ensures var o := StageStep(c, s);
            && o.ok && |o.s.log| == |s.log| + 1 && s.log <= o.s.log
            && o.s.log[|s.log|].origin == Bootstrap(Progress(s.srv)) && StepPacket(c, o.s.log[|s.log|])
            && Progress(o.s.srv) == Progress(s.srv) + 1
  {
    StageItemFits(c, s);
    StageSendable(c, s.srv);
    StageStepKeeps(c, s);
    hide Booting, StageItem, Advance, Progress, FrameOf, StepPacket, Sendable, Wire;
  }

  /** The rest of the loop only adds. */
  lemma {:induction false} LoopAdds(c: Config, s: Session)
    requires Booting(c, s)
    ensures var t := StageLoop(c, s).s; s.log <= t.log && Progress(t.srv) >= Progress(s.srv)
    decreases STAGE_DONE - s.srv.stage
  {
    hide StageStep, Booting, Progress;
    if s.srv.stage < STAGE_DONE {
      StepAdds(c, s);
      StageStepKeeps(c, s);
      var o := StageStep(c, s);
      if o.ok && o.s.srv.stage != STAGE_CHUNKS {
        StageGrows(c, s);
        LoopAdds(c, o.s);
      }
    }
  }

  lemma StepAdds(c: Config, s: Session)
    requires s.srv.stage < STAGE_DONE
    ensures s.log <= StageStep(c, s).s.log
  {
    hide StageItem, FrameOf, Wire, Advance, Sendable;
  }

  /** What comes behind the loop changes neither the log so far nor the count. */
  lemma TickAdds(c: Config, s: Session, now: u32)
    requires s.srv.phase == Play && !s.srv.bootstrapSent
    ensures var t, u := StageLoop(c, s).s, Tick(c, s, now).s;
            t.log <= u.log && Progress(u.srv) == Progress(t.srv) && u.srv.phase == t.srv.phase
  {
    hide StageLoop, FrameOf, Wire, KeepAliveBody, Sendable;
  }

  /**
    A tick in play, before the bootstrap is complete, with room for it: the first packet it queues is
    the next one of the bootstrap, and the count of packets sent goes up.
  */
  lemma NextStepSent(c: Config, s: Session, now: u32)
    requires Valid(c, s) && s.srv.phase == Play && !s.srv.bootstrapSent && NextFits(c, s)
    ensures var t := Tick(c, s, now).s;
            && s.log <= t.log && |t.log| > |s.log|
            && t.log[|s.log|].origin == Bootstrap(Progress(s.srv)) && StepPacket(c, t.log[|s.log|])
            && Progress(t.srv) > Progress(s.srv) && t.srv.phase == Play
  {
    IsBooting(c, s);
    hide Valid, Booting, StageStep, Tick, Progress, StepPacket, NextFits, StageLoop;
    StepSent(c, s);
    StageStepKeeps(c, s);
    var o := StageStep(c, s);
    LoopFirst(c, s);
    if o.s.srv.stage != STAGE_CHUNKS {
      LoopAdds(c, o.s);
    }
    StageLoopKeeps(c, s);
    InPlayStill(c, StageLoop(c, s).s);
    TickAdds(c, s, now);
  }

  lemma IsBooting(c: Config, s: Session)
    requires Valid(c, s) && s.srv.phase == Play && !s.srv.bootstrapSent
    ensures Booting(c, s) && s.srv.stage < STAGE_DONE && Progress(s.srv) <= Total(c)
    ensures |c.chunks| > 0 ==> Progress(s.srv) < Total(c)
  {
    hide PlayLog, IsEnd, Wire;
  }

  lemma InPlayStill(c: Config, s: Session)
    requires Booting(c, s)
    ensures s.srv.phase == Play
  {
  }

  lemma LoopFirst(c: Config, s: Session)
    requires s.srv.stage < STAGE_DONE && StageStep(c, s).ok
    ensures var o := StageStep(c, s);
            StageLoop(c, s) == if o.s.srv.stage == STAGE_CHUNKS then o else StageLoop(c, o.s)
  {
    hide StageStep;
  }

  /** Behind the fixed packets: without a usable chunk to send, a tick fails and changes nothing. */
  lemma NoChunkNoTick(c: Config, s: Session, now: u32)
    requires Valid(c, s) && s.srv.phase == Play && !s.srv.bootstrapSent && Progress(s.srv) >= STAGE_CHUNKS
    requires Progress(s.srv) == Total(c) || !ChunkValid(c.chunks[Progress(s.srv) - STAGE_CHUNKS])
    ensures Tick(c, s, now) == Outcome(false, s)
  {
    hide Valid, Booting, TickKeepalive, StageItem, Queue, ChunkValid, Total, Progress, Advance;
    IsBooting(c, s);
    NoItem(c, s.srv);
  }

  lemma NoItem(c: Config, srv: Server)
    requires srv.stage < STAGE_DONE && STAGE_CHUNKS <= Progress(srv) <= Total(c)
    requires Progress(srv) == Total(c) || !ChunkValid(c.chunks[Progress(srv) - STAGE_CHUNKS])
    ensures StageItem(c, srv) == None
  {
    hide ChunkValid, StageBody;
  }

  // ----- the whole bootstrap -----

  /** Every chunk of the map is usable, there is one, and each packet fits an empty output. */
  ghost predicate Usable(c: Config) {
    && |c.chunks| > 0 && c.cap >= STAGE_ROOM
    && forall i :: 0 <= i < |c.chunks| ==> ChunkFits(c, c.chunks[i], c.cap)
  }

  /** The output is taken out, and a tick comes. */
  function Round(now: u32, count: nat): seq<Op> {
    [TakeOut(count), TickAt(now)]
  }

  lemma RoundIs(c: Config, ops: seq<Op>, now: u32)
    ensures var s := Run(c, ops).s;
            Run(c, ops + Round(now, |s.tx|)).s == Tick(c, s.(tx := []), now).s
  {
    hide Tick;
    var n := |Run(c, ops).s.tx|;
    var one := ops + [TakeOut(n)];
    assert one[..|ops|] == ops;
    assert ops + Round(now, n) == one + [TickAt(now)];
    assert (one + [TickAt(now)])[..|one|] == one;
    assert Run(c, ops).s.tx[n..] == [];
  }

  lemma RoundAdvances(c: Config, ops: seq<Op>, now: u32)
    requires Usable(c) && Run(c, ops).s.srv.phase == Play && !Run(c, ops).s.srv.bootstrapSent
    ensures var s, t := Run(c, ops).s, Run(c, ops + Round(now, |Run(c, ops).s.tx|)).s;
            t.srv.phase == Play && Progress(s.srv) < Progress(t.srv) && Progress(s.srv) < Total(c)
  {
    hide Run, Valid, Tick, Progress;
    var s := Run(c, ops).s;
    RunKeeps(c, ops);
    TakeOutKeeps(c, s, |s.tx|);
    assert s.tx[|s.tx|..] == [];
    RoundIs(c, ops, now);
    IsBooting(c, s);
    RoomForNext(c, s.(tx := []));
    NextStepSent(c, s.(tx := []), now);
    SameProgress(s);
  }

  lemma SameProgress(s: Session)
    ensures Progress(s.(tx := []).srv) == Progress(s.srv)
  {
  }

  lemma RoomForNext(c: Config, s: Session)
    requires Usable(c) && s.tx == [] && Progress(s.srv) < Total(c)
    ensures NextFits(c, s)
  {
    hide ChunkFits;
  }

  /**
    The bootstrap completes. From every reachable play session over a usable map, a client that takes
    the output out before every tick has the whole bootstrap after at most as many ticks as packets
    were missing.
  */
  lemma {:induction false} BootstrapCompletes(c: Config, ops: seq<Op>, now: u32) returns (more: seq<Op>)
    requires Usable(c) && Run(c, ops).s.srv.phase == Play
    ensures Run(c, ops + more).s.srv.phase == Play && Run(c, ops + more).s.srv.bootstrapSent
    ensures forall i :: 0 <= i < |more| ==> more[i].TakeOut? || more[i] == TickAt(now)
    ensures |more| <= 2 * Max(0, Total(c) - Progress(Run(c, ops).s.srv))
    decreases Total(c) - Progress(Run(c, ops).s.srv)
  {
    hide Run, Progress, Round;
    if Run(c, ops).s.srv.bootstrapSent {
      more := [];
      assert ops + [] == ops;
    } else {
      var round := Round(now, |Run(c, ops).s.tx|);
      RoundAdvances(c, ops, now);
      TwoOps(now, |Run(c, ops).s.tx|);
      ProgressBounded(c, ops + round);
      var rest := BootstrapCompletes(c, ops + round, now);
      more := round + rest;
      Regroup(ops, round, rest);
    }
  }

  function Max(a: int, b: int): int {
    if a >= b then a else b
  }

  lemma TwoOps(now: u32, count: nat)
    ensures |Round(now, count)| == 2 && Round(now, count)[0].TakeOut? && Round(now, count)[1] == TickAt(now)
  {
  }

  lemma ProgressBounded(c: Config, ops: seq<Op>)
    requires Run(c, ops).s.srv.phase == Play
    ensures Progress(Run(c, ops).s.srv) <= Total(c)
  {
    hide Run;
    BootstrapOnce(c, ops);
  }

  // ----- keepalives -----

  /** Ticks from one reading of a 32-bit counter to a later one, which may have wrapped once. */
  function Elapsed(before: u32, now: u32): nat {
    if now >= before then now - before else now + (0x1_0000_0000 - before)
  }

  /** None was sent yet, or the last one is at least an interval ago; a last one at tick 0 counts as none. */
  predicate Due(srv: Server, now: u32) {
    srv.lastKeepalive == 0 || Elapsed(srv.lastKeepalive, now) >= KEEPALIVE_INTERVAL
  }

  const KEEPALIVE_ROOM := 16

  /**
    A tick of a session whose bootstrap is complete. If no keepalive is due it does nothing. If one is,
    and there is room, the client gets exactly one keepalive more, with the next id, and the clock for
    the next one starts now; without room the tick fails and changes nothing.
  */
  lemma KeepaliveExactly(c: Config, s: Session, now: u32)
    requires Valid(c, s) && s.srv.phase == Play && s.srv.bootstrapSent
    ensures var o, id := Tick(c, s, now), NextId(s.srv.keepaliveId);
            && (!Due(s.srv, now) ==> o == Outcome(true, s))
            && (Due(s.srv, now) && c.cap - |s.tx| >= KEEPALIVE_ROOM ==> o.ok)
            && (Due(s.srv, now) && !o.ok ==> o.s == s)
            && (Due(s.srv, now) && o.ok ==>
                  && |o.s.log| == |s.log| + 1 && s.log <= o.s.log
                  && ClientView.See(o.s.log[|s.log|].body) == Some(ClientView.Alive(id))
                  && o.s.log[|s.log|].origin == KeepAlive(id) && o.s.log[|s.log|].format == Uncompressed
                  && o.s.tx == s.tx + FrameOf(o.s.log[|s.log|])
                  && o.s.srv == s.srv.(keepaliveId := id, keepalivePending := true, lastKeepalive := now))
  {
    var id := NextId(s.srv.keepaliveId);
    InPlayCompressed(c, s);
    KeepaliveFrame(id);
    ClientView.KeepAliveSeen(id);
    OneQueued(c, s, Item(KeepAlive(id), Uncompressed, KeepAliveBody(id)));
    TickWhenDone(c, s, now);
    hide Valid, ClientView.See, Queue, KeepAliveBody, FrameOf, Sendable, Due, NextId, Tick;
  }

  lemma TickWhenDone(c: Config, s: Session, now: u32)
    requires s.srv.phase == Play && s.srv.bootstrapSent && s.srv.compressed
    ensures var id := NextId(s.srv.keepaliveId);
            var o := Queue(c, s, Item(KeepAlive(id), Uncompressed, KeepAliveBody(id)));
            var srv := s.srv.(keepaliveId := id, keepalivePending := true, lastKeepalive := now);
            Tick(c, s, now)
            == if !Due(s.srv, now) then Outcome(true, s) else if !o.ok then o else Outcome(true, o.s.(srv := srv))
  {
    WrapOnce(s.srv.lastKeepalive, now);
    hide Queue, KeepAliveBody, NextId, StageLoop, Elapsed;
  }

  lemma WrapOnce(before: u32, now: u32)
    ensures (now - before) % 0x1_0000_0000 == Elapsed(before, now)
  {
  }

  lemma KeepaliveFrame(id: nat)
    requires id <= INT32_MAX
    ensures Sendable(Uncompressed, KeepAliveBody(id))
    ensures |FrameOf(Item(KeepAlive(id), Uncompressed, KeepAliveBody(id)))| <= KEEPALIVE_ROOM
  {
    VarInt.EncodeLength(id);
    VarInt.EncodeLength(1 + |KeepAliveBody(id)|);
    hide VarInt.Encode;
  }

  lemma InPlayCompressed(c: Config, s: Session)
    requires Valid(c, s) && s.srv.phase == Play
    ensures s.srv.compressed
  {
    hide PlayLog;
  }
}
