/**
  `mc_link_session_t` as an object updated in place. Ring contents are sequence fields (the ring
  itself is `RingBuffer`). Every method performs the transition of the same name in `LinkSession`.
*/
module LinkSessionLoops {
  import opened Bytes
  import opened LinkCodec
  import opened LinkParser
  import opened LinkSession
  import opened TxMux
  import Cobs
  import LinkParserLoops

  class Link {
    const parser: LinkParserLoops.FirmwareParser
    var controlTx: seq<byte>
    var dataTx: seq<byte>
    var active: Active
    var remaining: nat
    var rx: seq<byte>
    var rxSeq: u16
    var txSeq: u16
    var negotiated: u16
    var creditCap: u16
    var rateMask: u16
    var ready: bool
    var resetRequested: bool

    ghost function State(): Session
      reads this
    {
      Session(Mux(controlTx, dataTx, active, remaining), rx, rxSeq, txSeq, negotiated, creditCap, rateMask,
              ready, resetRequested)
    }

    ghost predicate Valid()
      reads this, parser, parser.buf
    {
      State().Valid() && parser.Valid()
    }

    /** Nothing buffered: how `mc_link_parser_init` leaves the parser. */
    ghost predicate ParserClean()
      reads this, parser
    {
      parser.len == 0 && !parser.discarding
    }

    constructor ()
      ensures Valid() && State() == BOOTED
      ensures fresh(parser) && fresh(parser.buf) && fresh(parser.scratch)
      ensures ParserClean()
    {
      parser := new LinkParserLoops.FirmwareParser();
      controlTx, dataTx, active, remaining := [], [], Idle, 0;
      rx, rxSeq, txSeq := [], 0, 0;
      negotiated, creditCap, rateMask := MAX_PAYLOAD, INITIAL_CREDIT, RATE_MASK;
      ready, resetRequested := true, false;
    }

    /** `queue_frame`: encode into a stack buffer, then append if the ring has room for all of it. */
    method Queue(q: Queue, kind: byte, seqNo: u16, ack: u16, payload: seq<byte>) returns (ok: bool)
      modifies this`controlTx, this`dataTx
      ensures Handled(State(), ok) == QueueFrame(old(State()), q, kind, seqNo, ack, payload)
    {
      hide Wire;
      var frame := new byte[MAX_ENCODED_LEN];
      var encoded, length := EncodeInto(kind, seqNo, ack, payload, frame);
      if |payload| <= MAX_PAYLOAD {
        WireShape(kind, seqNo, ack, payload);
      }
      if !encoded {
        return false;
      }
      var ring := if q.Control? then controlTx else dataTx;
      if TX_CAP - |ring| < length {
        return false;
      }
      if q.Control? {
        controlTx := controlTx + frame[..length];
      } else {
        dataTx := dataTx + frame[..length];
      }
      return true;
    }

    method SendReady() returns (ok: bool)
      modifies this`controlTx, this`dataTx
      ensures Handled(State(), ok) == QueueReady(old(State()))
    {
      hide QueueFrame;
      var payload := Le(negotiated) + Le(creditCap) + Le(creditCap) + Le(rateMask) + [0] + Le(0);
      ok := Queue(Control, READY, 0, 0, payload);
    }

    method SendAck(ack: u16) returns (ok: bool)
      requires State().Valid()
      modifies this`controlTx, this`dataTx
      ensures Handled(State(), ok) == QueueAck(old(State()), ack)
    {
      hide QueueFrame;
      var free := RX_CAP - |rx|;
      var credit: u16 := Min(free, 0xffff);
      ok := Queue(Control, ACK_C2M, 0, ack, Le(credit));
    }

    method SendError(code: byte, detail: byte) returns (ok: bool)
      modifies this`controlTx, this`dataTx
      ensures Handled(State(), ok) == QueueError(old(State()), code, detail)
    {
      hide QueueFrame;
      ok := Queue(Control, ERROR, 0, 0, [code, detail]);
    }

    method InitParser()
      requires parser.Valid()
      modifies parser
      ensures parser.Valid() && ParserClean()
    {
      parser.len := 0;
      parser.discarding := false;
    }

    /** `reset_link_state_preserving_control_tx` */
    method ResetPreservingControl()
      requires Valid()
      modifies this, parser
      ensures Valid() && State() == ResetKeepingControl(old(State()))
      ensures ParserClean()
    {
      hide DropQueued;
      rxSeq, txSeq, ready := 0, 0, true;
      InitParser();
      DropDataRing();
      rx := [];
    }

    /** Keep only the unsent part of a data frame already begun. */
    method DropDataRing()
      modifies this`dataTx
      ensures Mux(controlTx, dataTx, active, remaining) == DropQueued(old(State()).mux, Data)
    {
      if active == Sending(Data) {
        if remaining < |dataTx| {
          dataTx := dataTx[..remaining];
        }
      } else {
        dataTx := [];
      }
    }

    /** `reset_link_state` */
    method ResetEverything()
      requires Valid()
      modifies this, parser
      ensures Valid() && State() == ResetLink(old(State()))
      ensures ParserClean()
    {
      ResetPreservingControl();
      if active == Sending(Control) {
        if remaining < |controlTx| {
          controlTx := controlTx[..remaining];
        }
      } else {
        controlTx := [];
        if active != Sending(Data) {
          active, remaining := Idle, 0;
        }
      }
    }

    /** `handle_hello` */
    method OnHello(f: Frame) returns (ok: bool)
      requires Valid()
      modifies this, parser
      ensures Valid()
      ensures Handled(State(), ok) == HandleHello(old(State()), f)
      ensures if ValidHello(f) then ParserClean()
              else parser.len == old(parser.len) && parser.discarding == old(parser.discarding)
    {
      hide QueueFrame, HelloSession, ReadyPayload;
      if |f.payload| != 6 {
        ok := SendError(ERR_BAD_LENGTH, 0);
        return;
      }
      if WordAt(f.payload, 0) == 0 || WordAt(f.payload, 2) == 0 {
        ok := SendError(ERR_BAD_LENGTH, 0);
        return;
      }
      Negotiate(f);
      ok := SendReady();
    }

    /** What a valid HELLO resets and sets. */
    method Negotiate(f: Frame)
      requires Valid() && ValidHello(f)
      modifies this, parser
      ensures Valid() && ParserClean() && Some(State()) == HelloSession(old(State()), f)
    {
      hide ResetLink;
      var payload, credit, rates := WordAt(f.payload, 0), WordAt(f.payload, 2), WordAt(f.payload, 4);
      var offered := rates % 0x400;
      ResetEverything();
      negotiated := Min(payload, MAX_PAYLOAD);
      creditCap := Min(credit, INITIAL_CREDIT);
      rateMask := if offered % 2 == 1 then offered else offered + 1;
    }

    method OnReset(f: Frame) returns (ok: bool)
      requires Valid()
      modifies this, parser
      ensures Valid()
      ensures Handled(State(), ok) == HandleReset(old(State()), f)
      ensures ParserClean()
    {
      hide QueueFrame;
      ResetEverything();
      resetRequested := true;
      ok := Queue(Control, RESET_ACK, f.seqNo, f.ack, []);
      if !ok {
        return;
      }
      ok := SendReady();
    }

    /** `handle_data_c2m` */
    method OnData(f: Frame) returns (ok: bool)
      requires Valid()
      modifies this
      ensures Valid()
      ensures Handled(State(), ok) == HandleData(old(State()), f)
    {
      hide QueueFrame;
      if !ready {
        ok := SendError(ERR_PROTOCOL_STATE, f.kind);
        return;
      }
      if f.seqNo == Pred(rxSeq) {
        ok := SendAck(rxSeq);
        return;
      }
      if f.seqNo != rxSeq {
        var _ := SendError(ERR_SEQUENCE, Lo(f.seqNo));
        return false;
      }
      if |f.payload| == 0 || |f.payload| > negotiated {
        ok := SendError(ERR_BAD_LENGTH, |f.payload| % 0x100);
        return;
      }
      if RX_CAP - |rx| < |f.payload| {
        var _ := SendError(ERR_RX_OVERFLOW, |f.payload| % 0x100);
        return false;
      }
      rx := rx + f.payload;
      rxSeq := Succ(rxSeq);
      ok := SendAck(rxSeq);
    }

    /** `handle_frame` */
    method OnFrame(f: Frame) returns (ok: bool)
      requires Valid()
      modifies this, parser
      ensures Valid()
      ensures Handled(State(), ok) == HandleFrame(old(State()), f)
      ensures if Clears(f) then ParserClean()
              else parser.len == old(parser.len) && parser.discarding == old(parser.discarding)
    {
      hide QueueFrame, HandleHello, HandleReset, HandleData;
      if f.kind == HELLO {
        ok := OnHello(f);
      } else if f.kind == RESET {
        ok := OnReset(f);
      } else if f.kind == DATA_C2M {
        ok := OnData(f);
      } else if f.kind == RATE_PROBE {
        ok := Echo(RATE_PROBE_ACK, f);
      } else if f.kind == PING {
        ok := Echo(PONG, f);
      } else {
        ok := Refuse(f);
      }
    }

    method Echo(kind: byte, f: Frame) returns (ok: bool)
      requires Valid()
      modifies this`controlTx, this`dataTx
      ensures Valid()
      ensures Handled(State(), ok) == QueueControl(old(State()), kind, f.seqNo, f.ack, f.payload)
    {
      ok := Queue(Control, kind, f.seqNo, f.ack, f.payload);
    }

    method Refuse(f: Frame) returns (ok: bool)
      requires Valid()
      modifies this`controlTx, this`dataTx
      ensures Valid()
      ensures Handled(State(), ok) == QueueError(old(State()), ERR_UNEXPECTED_TYPE, f.kind)
    {
      hide QueueFrame;
      ok := SendError(ERR_UNEXPECTED_TYPE, f.kind);
    }

    /** `mc_link_session_credit_consumed` */
    method OnConsumed()
      requires Valid()
      modifies this`controlTx, this`dataTx
      ensures State() == CreditConsumed(old(State()))
    {
      var _ := SendAck(0);
    }

    /** `mc_link_session_reset_after_error` */
    method OnServerError(code: byte, detail: byte) returns (ok: bool)
      requires Valid()
      modifies this, parser
      ensures Valid()
      ensures Handled(State(), ok) == ResetAfterError(old(State()), code, detail)
      ensures if QueueError(old(State()), code, detail).ok then ParserClean()
              else parser.len == old(parser.len) && parser.discarding == old(parser.discarding)
    {
      hide QueueFrame, DropQueued;
      ok := SendError(code, detail);
      if !ok {
        return;
      }
      ResetPreservingControl();
      ok := SendReady();
    }

    /** `mc_link_session_queue_server_tx`; `serverTx` is the server's ring and the result what is left of it. */
    method TakeServerTx(serverTx: seq<byte>) returns (ok: bool, rest: seq<byte>)
      requires Valid()
      modifies this
      ensures Served(State(), rest, ok) == QueueServerTx(old(State()), serverTx)
    {
      hide Wire, Enqueue;
      rest := serverTx;
      if !ready {
        return false, rest;
      }
      var max := if negotiated == 0 || negotiated > MAX_PAYLOAD then MAX_PAYLOAD else negotiated;
      var n := |serverTx|;
      if n > max {
        n := max;
      }
      if n == 0 {
        return true, rest;
      }
      ok := Queue(Data, DATA_M2C, txSeq, rxSeq, serverTx[..n]);
      if !ok {
        return false, rest;
      }
      rest := serverTx[n..];
      txSeq := Succ(txSeq);
    }

    /** `next_frame_len`: scan a ring for its first delimiter. */
    static method FrameLength(ring: seq<byte>) returns (length: nat)
      ensures length == NextFrameLen(ring)
    {
      var i := 0;
      while i < |ring|
        invariant 0 <= i <= |ring|
        invariant Cobs.NoZero(ring[..i])
      {
        if ring[i] == DELIMITER {
          LinkParserLoops.FirstZeroIs(ring, i);
          return i + 1;
        }
        i := i + 1;
      }
      LinkParserLoops.FirstZeroIs(ring, i);
      return 0;
    }

    /** The choice of the next frame in `mc_link_session_read_tx`. */
    method Choose()
      modifies this`active, this`remaining
      ensures Mux(controlTx, dataTx, active, remaining) == Select(old(State()).mux)
    {
      hide NextFrameLen;
      if active == Idle {
        var length := FrameLength(controlTx);
        if length > 0 {
          active, remaining := Sending(Control), length;
        } else {
          length := FrameLength(dataTx);
          if length > 0 {
            active, remaining := Sending(Data), length;
          }
        }
      }
    }

    /** `mc_link_session_read_tx` */
    method ReadTx(max: nat) returns (bytes: seq<byte>)
      modifies this`controlTx, this`dataTx, this`active, this`remaining
      ensures ReadResult(Mux(controlTx, dataTx, active, remaining), bytes) == Read(old(State()).mux, max)
    {
      hide Select;
      bytes := [];
      if max == 0 {
        return;
      }
      Choose();
      if active == Idle {
        return;
      }
      var ring := if active.queue.Control? then controlTx else dataTx;
      if remaining == 0 || |ring| == 0 {
        active, remaining := Idle, 0;
        return;
      }
      var n := remaining;
      if n > max {
        n := max;
      }
      if n > |ring| {
        active, remaining := Idle, 0;
        return;
      }
      bytes := ring[..n];
      if active.queue.Control? {
        controlTx := ring[n..];
      } else {
        dataTx := ring[n..];
      }
      remaining := remaining - n;
      if remaining == 0 {
        active := Idle;
      }
    }

    /** `mc_link_session_drop_queued_data` */
    method DropQueuedData()
      modifies this`dataTx, this`active, this`remaining
      ensures Mux(controlTx, dataTx, active, remaining) == DropData(old(State()).mux)
    {
      if active == Sending(Data) {
        if remaining < |dataTx| {
          dataTx := dataTx[..remaining];
        }
        return;
      }
      dataTx := [];
      if active != Sending(Control) {
        active, remaining := Idle, 0;
      }
    }

    /**
      `mc_link_session_receive_bytes` on one UART read. The frames of the chunk are handled in order,
      up to the first failure or the first HELLO or RESET that empties the parser's buffer.
    */
    method ReceiveBytes(chunk: seq<byte>) returns (ok: bool)
      requires Valid() && parser.Drained()
      requires |chunk| <= MAX_ENCODED_LEN
      modifies this, parser, parser.buf, parser.scratch
      ensures Valid()
      ensures var o := ScanAll(old(parser.Meaning()).scan, chunk);
              && Handled(State(), ok) == HandleChunk(old(State()), FramesIn(o.events))
              && (ok ==> parser.Drained())
              && (ok ==> parser.Meaning().scan
                         == (if ChunkClears(old(State()), FramesIn(o.events)) then Open([]) else o.scan))
    {
      hide ScanAll, HandleFrame, HandleChunk, ChunkClears;
      ghost var start := parser.Meaning().scan;
      ghost var o := ScanAll(start, chunk);
      ghost var before := State();
      LinkParserLoops.DrainedMeaning(parser.Start(), parser.Buffered());
      var frame, used := parser.Feed(chunk);
      LinkParserLoops.SplitFrames(start, chunk, used);
      ChunkStep(State(), frame, FramesIn(parser.Meaning().events));
      ghost var cleared := false;
      while frame.Some?
        invariant Valid()
        invariant frame.Some? ==> !cleared
        invariant frame.Some? ==> SameChunk(before, FramesIn(o.events), State(), Rest(frame, parser.Meaning()))
        invariant !cleared ==> parser.Meaning().scan == o.scan
        invariant frame.None? ==> parser.Drained() && HandleChunk(before, FramesIn(o.events)) == Handled(State(), true)
        invariant frame.None? ==> ChunkClears(before, FramesIn(o.events)) == cleared
        invariant cleared ==> parser.Meaning().scan == Open([])
        decreases frame.Some?, if frame.Some? then |FramesIn(parser.Meaning().events)| else 0
      {
        ChunkStep(State(), frame, FramesIn(parser.Meaning().events));
        cleared := Clears(frame.value);
        ok, frame := OnFrameThenNext(frame.value);
        if !ok {
          return;
        }
        ChunkStep(State(), frame, FramesIn(parser.Meaning().events));
      }
      ok := true;
    }

    /** One turn of the receive loop: handle a frame, then ask the parser for the next one. */
    method OnFrameThenNext(f: Frame) returns (ok: bool, next: Option<Frame>)
      requires Valid()
      modifies this, parser, parser.buf, parser.scratch
      ensures Valid()
      ensures Handled(State(), ok) == HandleFrame(old(State()), f)
      ensures ok && next.None? ==> parser.Drained()
      ensures ok && Clears(f) ==> next == None && parser.Meaning().scan == Open([])
      ensures ok && !Clears(f) ==>
        && parser.Meaning().scan == old(parser.Meaning()).scan
        && FramesIn(old(parser.Meaning()).events)
           == (if next.Some? then [next.value] + FramesIn(parser.Meaning().events) else [])
    {
      hide ScanAll, HandleFrame, Clears;
      next := None;
      ghost var buffered := parser.Buffered();
      ok := OnFrame(f);
      if !ok {
        return;
      }
      assert !Clears(f) ==> parser.Buffered() == buffered;
      if Clears(f) {
        LinkParserLoops.DrainedMeaning(parser.Start(), parser.Buffered());
      }
      var nothing: seq<byte> := [];
      LinkParserLoops.ScanNothing(parser.Meaning().scan);
      ghost var used;
      next, used := parser.Feed(nothing);
      assert nothing[..used] == nothing;
      if next.None? {
        LinkParserLoops.DrainedMeaning(parser.Start(), parser.Buffered());
      }
    }
  }

  /** The frame in hand and the ones still buffered. */
  ghost function Rest(frame: Option<Frame>, meaning: Outcome): seq<Frame> {
    (if frame.Some? then [frame.value] else []) + FramesIn(meaning.events)
  }

  /** Handling the rest from here is handling the whole chunk from the start. */
  ghost predicate SameChunk(before: Session, all: seq<Frame>, now: Session, rest: seq<Frame>)
    requires before.Valid() && now.Valid()
  {
    HandleChunk(before, all) == HandleChunk(now, rest) && ChunkClears(before, all) == ChunkClears(now, rest)
  }

  lemma ChunkStep(s: Session, frame: Option<Frame>, left: seq<Frame>)
    requires s.Valid()
    ensures HandleChunk(s, []) == Handled(s, true) && !ChunkClears(s, [])
    ensures frame.Some? ==>
      var h := HandleFrame(s, frame.value);
      && h.session.Valid()
      && HandleChunk(s, [frame.value] + left)
         == (if !h.ok || Clears(frame.value) then h else HandleChunk(h.session, left))
      && ChunkClears(s, [frame.value] + left)
         == (h.ok && (Clears(frame.value) || ChunkClears(h.session, left)))
  {
    hide HandleFrame, Clears;
    if frame.Some? {
      HandleKeepsValid(s, frame.value);
      assert ([frame.value] + left)[1..] == left;
    }
  }
}
