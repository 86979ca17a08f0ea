/**
  The firmware's transmit multiplexer: two byte rings, control before data, read out in pieces of
  any size. A frame whose transmission has begun is finished before anything else is sent, even
  across resets that empty the rings.

  The byte-level operations are proved to refine a log of whole frames: over every run the output
  is whole frames, in queueing order per ring, plus at most a proper prefix of one more.
*/
module TxMux {
  import opened Bytes
  import opened LinkCodec
  import LinkParser

  const TX_CAP := 2048

  datatype Queue = Control | Data

  datatype Active = Idle | Sending(queue: Queue)

  /** The two rings of `mc_link_session_t` and how much of the active frame is still to be read. */
  datatype Mux = Mux(control: seq<byte>, data: seq<byte>, active: Active, remaining: nat) {
    function Ring(q: Queue): seq<byte> {
      if q.Control? then control else data
    }

    function SetRing(q: Queue, bytes: seq<byte>): Mux {
      if q.Control? then this.(control := bytes) else this.(data := bytes)
    }
  }

  const INITIAL := Mux([], [], Idle, 0)

  // ----- the operations -----

  /** `queue_frame`: all of an encoded frame or nothing. */
  function Enqueue(m: Mux, q: Queue, frame: seq<byte>): Option<Mux> {
    if TX_CAP - |m.Ring(q)| < |frame| then None
    else Some(m.SetRing(q, m.Ring(q) + frame))
  }

  function Clear(m: Mux): Mux {
    m.(active := Idle, remaining := 0)
  }

  function NextFrameLen(ring: seq<byte>): (n: nat)
    ensures n <= |ring|
  {
    var i := LinkParser.FirstZero(ring);
    if i < |ring| then i + 1 else 0
  }

  /** The choice `mc_link_session_read_tx` makes when no frame is being sent. */
  function Select(m: Mux): Mux {
    if m.active != Idle then m
    else if NextFrameLen(m.control) > 0 then m.(active := Sending(Control), remaining := NextFrameLen(m.control))
    else if NextFrameLen(m.data) > 0 then m.(active := Sending(Data), remaining := NextFrameLen(m.data))
    else m
  }

  datatype ReadResult = ReadResult(mux: Mux, bytes: seq<byte>)

  /** `mc_link_session_read_tx`. */
  function Read(m: Mux, max: nat): (r: ReadResult)
    ensures |r.bytes| <= max
  {
    if max == 0 then ReadResult(m, [])
    else
      var s := Select(m);
      if s.active == Idle then ReadResult(s, [])
      else
        var ring := s.Ring(s.active.queue);
        var n := Min(s.remaining, max);
        if s.remaining == 0 || |ring| == 0 || n > |ring| then ReadResult(Clear(s), [])
        else
          var rest := s.SetRing(s.active.queue, ring[n..]);
          ReadResult(if n == s.remaining then Clear(rest) else rest.(remaining := s.remaining - n), ring[..n])
  }

  /** Empty a ring, except for the unsent part of a frame already begun. */
  function DropQueued(m: Mux, q: Queue): Mux {
    m.SetRing(q, if m.active == Sending(q) then m.Ring(q)[..Min(m.remaining, |m.Ring(q)|)] else [])
  }

  /** `mc_link_session_drop_queued_data`. */
  function DropData(m: Mux): Mux {
    if m.active == Sending(Data) then DropQueued(m, Data)
    else if m.active == Sending(Control) then DropQueued(m, Data)
    else Clear(DropQueued(m, Data))
  }

  /** The rings part of `reset_link_state`: the control ring goes too. */
  function ResetAll(m: Mux): Mux {
    var kept := DropQueued(DropQueued(m, Data), Control);
    if m.active == Idle then Clear(kept) else kept
  }

  // ----- the frame log it refines -----

  datatype Sent = Sent(queue: Queue, bytes: seq<byte>)

  ghost predicate AllDelimited(frames: seq<seq<byte>>) {
    forall i :: 0 <= i < |frames| ==> Delimited(frames[i])
  }

  /**
    Frames waiting in each ring, frames completely sent, and the frame being sent, cut into the
    bytes that are out and the bytes that are not. No frame is being sent when both are empty.
  */
  datatype Log = Log(control: seq<seq<byte>>, data: seq<seq<byte>>, finished: seq<Sent>,
                     from: Queue, out: seq<byte>, unsent: seq<byte>) {
    ghost predicate Valid() {
      && AllDelimited(control)
      && AllDelimited(data)
      && (unsent == [] ==> out == [])
      && (unsent != [] ==> Delimited(out + unsent))
    }

    function Waiting(q: Queue): seq<seq<byte>> {
      if q.Control? then control else data
    }

    function SetWaiting(q: Queue, frames: seq<seq<byte>>): Log {
      if q.Control? then this.(control := frames) else this.(data := frames)
    }

    function Emitted(): seq<byte> {
      FrameBytes(finished) + out
    }

    function Serving(): Active {
      if unsent == [] then Idle else Sending(from)
    }

    /** What a ring must hold: the unsent tail if that frame came from it, then the waiting frames. */
    function RingBytes(q: Queue): seq<byte> {
      (if Serving() == Sending(q) then unsent else []) + Flatten(Waiting(q))
    }
  }

  const EMPTY_LOG := Log([], [], [], Control, [], [])

  function FrameBytes(sent: seq<Sent>): seq<byte> {
    if sent == [] then []
    else FrameBytes(sent[..|sent| - 1]) + sent[|sent| - 1].bytes
  }

  ghost predicate Refines(m: Mux, log: Log) {
    && log.Valid()
    && m.active == log.Serving()
    && m.remaining == |log.unsent|
    && m.control == log.RingBytes(Control)
    && m.data == log.RingBytes(Data)
  }

  // ----- one step -----

  function LogEnqueue(log: Log, q: Queue, frame: seq<byte>): Log {
    log.SetWaiting(q, log.Waiting(q) + [frame])
  }

  /** A frame is queued whole exactly if ring and frame together fit the ring's 2048 bytes. */
  lemma EnqueueExactly(m: Mux, q: Queue, frame: seq<byte>)
    ensures Enqueue(m, q, frame).Some? <==> |m.Ring(q) + frame| <= 2048
    ensures Enqueue(m, q, frame).Some? ==>
      var t, other := Enqueue(m, q, frame).value, if q.Control? then Data else Control;
      && t.Ring(q) == m.Ring(q) + frame && t.Ring(other) == m.Ring(other)
      && t.active == m.active && t.remaining == m.remaining
  {
  }

  lemma EnqueueRefines(m: Mux, log: Log, q: Queue, frame: seq<byte>)
    requires Refines(m, log) && Delimited(frame)
    requires Enqueue(m, q, frame).Some?
    ensures Refines(Enqueue(m, q, frame).value, LogEnqueue(log, q, frame))
    ensures LogEnqueue(log, q, frame).Emitted() == log.Emitted()
  {
    var head := if log.Serving() == Sending(q) then log.unsent else [];
    var next := LogEnqueue(log, q, frame);
    AllDelimitedSnoc(log.Waiting(q), frame);
    assert next.RingBytes(q) == log.RingBytes(q) + frame by {
      FlattenSnoc(head, log.Waiting(q), frame);
    }
  }

  lemma AllDelimitedSnoc(frames: seq<seq<byte>>, frame: seq<byte>)
    requires AllDelimited(frames) && Delimited(frame)
    ensures AllDelimited(frames + [frame])
  {
  }

  lemma FlattenSnoc(head: seq<byte>, frames: seq<seq<byte>>, frame: seq<byte>)
    ensures head + Flatten(frames + [frame]) == head + Flatten(frames) + frame
  {
    FlattenAppend(frames, [frame]);
    FlattenSingle(frame);
  }

  lemma DropRefines(m: Mux, log: Log, q: Queue)
    requires Refines(m, log)
    ensures Refines(DropQueued(m, q), log.SetWaiting(q, []))
    ensures log.SetWaiting(q, []).Emitted() == log.Emitted()
  {
    hide Delimited, FrameBytes;
    TakePrefix(log.unsent, Flatten(log.Waiting(q)));
  }

  lemma TakePrefix(head: seq<byte>, tail: seq<byte>)
    ensures (head + tail)[..|head|] == head + Flatten<byte>([])
  {
  }

  /** The first waiting frame is what the delimiter scan finds. */
  lemma ScanFindsFrame(frames: seq<seq<byte>>)
    requires AllDelimited(frames)
    ensures NextFrameLen(Flatten(frames)) == if frames == [] then 0 else |frames[0]|
  {
    if frames != [] {
      var ring, f := Flatten(frames), frames[0];
      assert ring[..|f|] == f;
      assert ring[|f| - 1] == 0;
      assert forall k :: 0 <= k < |f| - 1 ==> ring[k] == f[..|f| - 1][k];
    }
  }

  /** Take the first waiting frame of a ring into transmission. */
  function LogStart(log: Log, q: Queue): Log
    requires log.Waiting(q) != []
  {
    log.SetWaiting(q, log.Waiting(q)[1..]).(from := q, out := [], unsent := log.Waiting(q)[0])
  }

  function LogSelect(log: Log): Log {
    if log.unsent != [] then log
    else if log.control != [] then LogStart(log, Control)
    else if log.data != [] then LogStart(log, Data)
    else log
  }

  lemma StartRefines(m: Mux, log: Log, q: Queue)
    requires Refines(m, log)
    requires log.unsent == [] && log.Waiting(q) != []
    ensures Refines(m.(active := Sending(q), remaining := |log.Waiting(q)[0]|), LogStart(log, q))
    ensures LogStart(log, q).Emitted() == log.Emitted()
  {
    assert Delimited(log.Waiting(q)[0]);
    assert [] + log.Waiting(q)[0] == log.Waiting(q)[0];
    assert [] + Flatten(log.Waiting(q)) == log.Waiting(q)[0] + Flatten(log.Waiting(q)[1..]);
  }

  lemma SelectRefines(m: Mux, log: Log)
    requires Refines(m, log)
    ensures Refines(Select(m), LogSelect(log))
    ensures LogSelect(log).Emitted() == log.Emitted()
  {
    if log.unsent == [] {
      assert m.control == Flatten(log.control) && m.data == Flatten(log.data);
      ScanFindsFrame(log.control);
      ScanFindsFrame(log.data);
      if log.control != [] {
        StartRefines(m, log, Control);
      } else if log.data != [] {
        StartRefines(m, log, Data);
      }
    }
  }

  /** Send n bytes of the frame in progress; a frame whose last byte goes out is finished. */
  function LogAdvance(log: Log, n: nat): Log
    requires n <= |log.unsent|
  {
    if n < |log.unsent| then log.(out := log.out + log.unsent[..n], unsent := log.unsent[n..])
    else log.(finished := log.finished + [Sent(log.from, log.out + log.unsent)], out := [], unsent := [])
  }

  function LogRead(log: Log, max: nat): Log {
    var s := LogSelect(log);
    if max == 0 then log
    else if s.unsent == [] then s
    else LogAdvance(s, Min(|s.unsent|, max))
  }

  lemma AdvanceRefines(m: Mux, log: Log, n: nat)
    requires Refines(m, log)
    requires 0 < n <= |log.unsent|
    ensures var ring := m.Ring(log.from);
            var rest := m.SetRing(log.from, ring[n..]);
            && n <= |ring|
            && Refines(if n == m.remaining then Clear(rest) else rest.(remaining := m.remaining - n),
                       LogAdvance(log, n))
            && LogAdvance(log, n).Emitted() == log.Emitted() + ring[..n]
  {
    hide Delimited, FrameBytes, Flatten;
    CutHead(log.unsent, Flatten(log.Waiting(log.from)), n);
    if n < |log.unsent| {
      AdvancePart(log, n);
    } else {
      AdvanceWhole(log);
    }
  }

  lemma AdvancePart(log: Log, n: nat)
    requires log.Valid() && 0 < n < |log.unsent|
    ensures var next := LogAdvance(log, n);
            && next.Valid()
            && next.Emitted() == log.Emitted() + log.unsent[..n]
            && next.RingBytes(log.from) == log.unsent[n..] + Flatten(log.Waiting(log.from))
  {
    assert log.out + log.unsent[..n] + log.unsent[n..] == log.out + log.unsent;
    EmitMore(FrameBytes(log.finished), log.out, log.unsent[..n]);
  }

  lemma AdvanceWhole(log: Log)
    requires log.Valid() && log.unsent != []
    ensures var next := LogAdvance(log, |log.unsent|);
            && next.Valid()
            && next.Emitted() == log.Emitted() + log.unsent
            && next.RingBytes(log.from) == [] + Flatten(log.Waiting(log.from))
  {
    var f := Sent(log.from, log.out + log.unsent);
    assert (log.finished + [f])[..|log.finished|] == log.finished;
    EmitMore(FrameBytes(log.finished), log.out, log.unsent);
  }

  lemma CutHead(head: seq<byte>, tail: seq<byte>, n: nat)
    requires n <= |head|
    ensures (head + tail)[n..] == head[n..] + tail
    ensures (head + tail)[..n] == head[..n]
    ensures n == |head| ==> head[..n] == head && head[n..] == []
  {
  }

  lemma EmitMore(done: seq<byte>, out: seq<byte>, more: seq<byte>)
    ensures done + (out + more) == done + out + more
    ensures done + (out + more) + [] == done + out + more
  {
  }

  /** Bytes read out continue the emitted stream, and never reach past the frame being sent. */
  lemma ReadRefines(m: Mux, log: Log, max: nat)
    requires Refines(m, log)
    ensures Refines(Read(m, max).mux, LogRead(log, max))
    ensures LogRead(log, max).Emitted() == log.Emitted() + Read(m, max).bytes
  {
    hide Delimited, FrameBytes, Flatten, NextFrameLen;
    if max > 0 {
      SelectRefines(m, log);
      var s := LogSelect(log);
      if s.unsent != [] {
        AdvanceRefines(Select(m), s, Min(|s.unsent|, max));
      }
    }
  }
}
