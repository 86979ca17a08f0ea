/**
  Cutting a byte stream into link frames. The bridge folds over single bytes; the firmware keeps
  a 512-byte buffer, hands back one frame per call and copies the unread rest of the chunk in.
  Both are proved to yield the frames of one specification: split at the zero bytes, drop
  segments of 512 bytes or more, decode the rest.
*/
module LinkParser {
  import opened Bytes
  import opened LinkCodec
  import Cobs

  // ----- the specification -----

  datatype Event = Got(frame: Frame) | Bad

  function FramesIn(events: seq<Event>): seq<Frame> {
    if events == [] then []
    else (if events[0].Got? then [events[0].frame] else []) + FramesIn(events[1..])
  }

  /** The events of one complete segment, its delimiter removed; an empty one is silent. */
  function SegmentEvents(segment: seq<byte>): seq<Event> {
    if segment == [] then []
    else if |segment| >= MAX_ENCODED_LEN then [Bad]
    else match Unwire(segment + [DELIMITER])
      case Some(f) => [Got(f)]
      case None => [Bad]
  }

  function FirstZero(stream: seq<byte>): (i: nat)
    ensures i <= |stream|
    ensures Cobs.NoZero(stream[..i])
    ensures i < |stream| ==> stream[i] == 0
  {
    if stream == [] || stream[0] == 0 then 0
    else
      var i := 1 + FirstZero(stream[1..]);
      assert forall k :: 0 < k < i ==> stream[k] == stream[1..][k - 1];
      i
  }

  /** Split at the delimiters and decode every complete segment. */
  function EventsOf(stream: seq<byte>): seq<Event>
    decreases |stream|
  {
    var i := FirstZero(stream);
    if i == |stream| then [] else SegmentEvents(stream[..i]) + EventsOf(stream[i + 1..])
  }

  // ----- the per-byte automaton -----

  /** The open segment, or that it is too long and everything up to the next zero is skipped. */
  datatype Scan = Open(segment: seq<byte>) | Skipping {
    predicate Valid() {
      Open? ==> |segment| < MAX_ENCODED_LEN && Cobs.NoZero(segment)
    }
  }

  datatype Outcome = Outcome(scan: Scan, events: seq<Event>)

  function ScanByte(s: Scan, b: byte): (o: Outcome)
    requires s.Valid()
    ensures o.scan.Valid()
  {
    match s
    case Skipping => if b == DELIMITER then Outcome(Open([]), [Bad]) else Outcome(Skipping, [])
    case Open(segment) =>
      if b == DELIMITER then Outcome(Open([]), SegmentEvents(segment))
      else if |segment| + 1 >= MAX_ENCODED_LEN then Outcome(Skipping, [])
      else Outcome(Open(segment + [b]), [])
  }

  function ScanAll(s: Scan, data: seq<byte>): (o: Outcome)
    requires s.Valid()
    ensures o.scan.Valid()
    decreases |data|
  {
    if data == [] then Outcome(s, [])
    else
      var first := ScanByte(s, data[0]);
      var rest := ScanAll(first.scan, data[1..]);
      Outcome(rest.scan, first.events + rest.events)
  }

  lemma {:induction false} ScanAppend(s: Scan, a: seq<byte>, b: seq<byte>)
    requires s.Valid()
    ensures var left := ScanAll(s, a);
            var right := ScanAll(left.scan, b);
            ScanAll(s, a + b) == Outcome(right.scan, left.events + right.events)
    decreases |a|
  {
    hide ScanByte;
    if a == [] {
      assert a + b == b;
    } else {
      assert (a + b)[1..] == a[1..] + b;
      ScanAppend(ScanByte(s, a[0]).scan, a[1..], b);
    }
  }

  lemma {:induction false} ScanNonzero(s: Scan, data: seq<byte>)
    requires s.Valid() && Cobs.NoZero(data)
    ensures ScanAll(s, data)
         == Outcome(if s.Open? && |s.segment| + |data| < MAX_ENCODED_LEN then Open(s.segment + data) else Skipping, [])
    decreases |data|
  {
    hide Unwire;
    if data == [] {
      if s.Open? {
        assert s.segment + data == s.segment;
      }
    } else {
      var next := ScanByte(s, data[0]).scan;
      ScanNonzero(next, data[1..]);
      if next.Open? {
        MoveHead(s.segment, data);
      }
    }
  }

  lemma MoveHead<T>(a: seq<T>, b: seq<T>)
    requires b != []
    ensures a + [b[0]] + b[1..] == a + b
  {
  }

  /** A whole segment with its delimiter, met at a segment boundary. */
  lemma ScanSegment(segment: seq<byte>)
    requires Cobs.NoZero(segment)
    ensures ScanAll(Open([]), segment + [DELIMITER]) == Outcome(Open([]), SegmentEvents(segment))
  {
    hide ScanAll, Unwire;
    ScanNonzero(Open([]), segment);
    assert [] + segment == segment;
    ScanAppend(Open([]), segment, [DELIMITER]);
    ScanSingle(ScanAll(Open([]), segment).scan, DELIMITER);
  }

  lemma ScanSingle(s: Scan, b: byte)
    requires s.Valid()
    ensures ScanAll(s, [b]) == ScanByte(s, b)
  {
    hide SegmentEvents;
    var rest := ScanAll(ScanByte(s, b).scan, []);
    assert rest.events == [];
    assert ScanByte(s, b).events + [] == ScanByte(s, b).events;
  }

  /** The automaton started at a boundary finds exactly the segments of the split. */
  lemma {:induction false} ScanIsSplit(stream: seq<byte>)
    ensures ScanAll(Open([]), stream).events == EventsOf(stream)
    decreases |stream|
  {
    hide ScanAll, SegmentEvents;
    var i := FirstZero(stream);
    if i == |stream| {
      assert stream[..i] == stream;
      ScanNonzero(Open([]), stream);
    } else {
      assert stream == (stream[..i] + [DELIMITER]) + stream[i + 1..];
      ScanSegment(stream[..i]);
      ScanAppend(Open([]), stream[..i] + [DELIMITER], stream[i + 1..]);
      ScanIsSplit(stream[i + 1..]);
    }
  }

  lemma {:induction false} FramesInAppend(a: seq<Event>, b: seq<Event>)
    ensures FramesIn(a + b) == FramesIn(a) + FramesIn(b)
    decreases |a|
  {
    if a == [] {
      assert a + b == b;
    } else {
      FramesInAppend(a[1..], b);
      FramesInHead(a[0], a[1..] + b);
      FramesInHead(a[0], a[1..]);
      assert a + b == [a[0]] + (a[1..] + b) && a == [a[0]] + a[1..];
      hide FramesIn;
      assert FramesIn(a + b) == FramesIn([a[0]]) + (FramesIn(a[1..]) + FramesIn(b));
    }
  }

  lemma FramesInHead(e: Event, rest: seq<Event>)
    ensures FramesIn([e] + rest) == FramesIn([e]) + FramesIn(rest)
  {
    assert ([e] + rest)[1..] == rest;
  }

  /**
    Resynchronisation: whatever a parser has seen before, a delimiter followed by a valid frame
    always yields that frame, as the last one.
  */
  lemma Resynchronises(s: Scan, kind: byte, seqNo: u16, ack: u16, payload: seq<byte>)
    requires s.Valid() && |payload| <= MAX_PAYLOAD
    ensures var o := ScanAll(s, [DELIMITER] + Wire(kind, seqNo, ack, payload));
            && o.scan == Open([])
            && o.events != []
            && o.events[|o.events| - 1] == Got(Frame(kind, 0, seqNo, ack, payload))
  {
    hide ScanAll, Unwire, Wire;
    var w := Wire(kind, seqNo, ack, payload);
    WireShape(kind, seqNo, ack, payload);
    UnwireWire(kind, seqNo, ack, payload);
    ScanAppend(s, [DELIMITER], w);
    ScanSingle(s, DELIMITER);
    assert w == w[..|w| - 1] + [DELIMITER];
    ScanSegment(w[..|w| - 1]);
  }

  /** Back-to-back frames are found one by one, whatever they carry. */
  lemma WireScans(kind: byte, seqNo: u16, ack: u16, payload: seq<byte>)
    requires |payload| <= MAX_PAYLOAD
    ensures ScanAll(Open([]), Wire(kind, seqNo, ack, payload))
         == Outcome(Open([]), [Got(Frame(kind, 0, seqNo, ack, payload))])
  {
    hide ScanAll, Unwire, Wire;
    var w := Wire(kind, seqNo, ack, payload);
    WireShape(kind, seqNo, ack, payload);
    UnwireWire(kind, seqNo, ack, payload);
    assert w == w[..|w| - 1] + [DELIMITER];
    ScanSegment(w[..|w| - 1]);
  }
}
