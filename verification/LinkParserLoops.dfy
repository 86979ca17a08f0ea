/**
  The two incremental parsers as they are written, proved against `LinkParser`.
*/
module LinkParserLoops {
  import opened Bytes
  import opened LinkCodec
  import opened LinkParser
  import Cobs

  /** The bridge's `Decoder`. */
  class BridgeDecoder {
    var buffer: seq<byte>
    var discarding: bool

    ghost predicate Valid()
      reads this
    {
      && (discarding ==> buffer == [])
      && State().Valid()
    }

    ghost function State(): Scan
      reads this
    {
      if discarding then Skipping else Open(buffer)
    }

    constructor ()
      ensures Valid() && State() == Open([])
    {
      buffer, discarding := [], false;
    }

    /** `Decoder::feed`. */
    method Feed(data: seq<byte>) returns (events: seq<Event>)
      requires Valid()
      modifies this
      ensures Valid()
      ensures Outcome(State(), events) == ScanAll(old(State()), data)
    {
      hide Unwire;
      events := [];
      var i := 0;
      assert data[0..] == data;
      while i < |data|
        invariant 0 <= i <= |data|
        invariant Valid()
        invariant var rest := ScanAll(State(), data[i..]);
                  ScanAll(old(State()), data) == Outcome(rest.scan, events + rest.events)
      {
        ghost var before, rest := State(), data[i..];
        ghost var done := events;
        assert rest[0] == data[i] && rest[1..] == data[i + 1..];
        var b := data[i];
        if discarding {
          if b == DELIMITER {
            discarding := false;
            events := events + [Bad];
          }
        } else if b == DELIMITER {
          if buffer != [] {
            var encoded := buffer + [DELIMITER];
            buffer := [];
            var decoded := DecodeOne(encoded);
            match decoded {
              case Ok(frame) => events := events + [Got(frame)];
              case Err(_) => events := events + [Bad];
            }
          }
        } else {
          buffer := buffer + [b];
          if |buffer| >= MAX_ENCODED_LEN {
            buffer := [];
            discarding := true;
          }
        }
        i := i + 1;
        assert State() == ScanByte(before, b).scan;
        assert events == done + ScanByte(before, b).events;
        Regroup(done, ScanByte(before, b).events, ScanAll(State(), data[i..]).events);
      }
      assert data[i..] == [];
      assert events + [] == events;
    }
  }

  /** The firmware's `mc_link_parser_t`, without its diagnostic counters. */
  class FirmwareParser {
    const buf: array<byte>
    const scratch: array<byte>
    var len: nat
    var discarding: bool

    ghost predicate Valid()
      reads this, buf
    {
      && buf.Length == MAX_ENCODED_LEN
      && scratch.Length == MAX_BODY_LEN
      && buf != scratch
      && len <= buf.Length
      && (discarding ==> len == 0)
    }

    ghost function Buffered(): seq<byte>
      requires Valid()
      reads this, buf
    {
      buf[..len]
    }

    /** Where the automaton stands before the buffered bytes. */
    ghost function Start(): Scan
      reads this
    {
      if discarding then Skipping else Open([])
    }

    /** What the buffered bytes still hold. */
    ghost function Meaning(): Outcome
      requires Valid()
      reads this, buf
    {
      ScanAll(Start(), Buffered())
    }

    /** No complete segment is buffered: the state in which a new chunk may be fed. */
    ghost predicate Drained()
      requires Valid()
      reads this, buf
    {
      len < buf.Length && Cobs.NoZero(Buffered())
    }

    /** `mc_link_parser_init`. */
    constructor ()
      ensures Valid() && fresh(buf) && fresh(scratch)
      ensures len == 0 && !discarding
      ensures Drained() && Meaning() == Outcome(Open([]), [])
    {
      buf := new byte[MAX_ENCODED_LEN];
      scratch := new byte[MAX_BODY_LEN];
      len, discarding := 0, false;
    }

    /** `parser_drop`: move the unread bytes to the front. */
    method Drop(count: nat)
      requires Valid() && count <= len && !discarding
      modifies this`len, buf
      ensures Valid() && Buffered() == old(Buffered())[count..]
    {
      if count >= len {
        len := 0;
        return;
      }
      ghost var before := Buffered();
      var moved := len - count;
      forall i | 0 <= i < moved {
        buf[i] := buf[count + i];
      }
      len := moved;
      assert Buffered() == before[count..];
    }

    /** `parser_try_one`: take the first complete segment off the buffer. */
    method TryOne() returns (frame: Option<Frame>)
      requires Valid() && !discarding
      modifies this, buf, scratch
      ensures Valid()
      ensures var p := old(Buffered());
              var i := FirstZero(p);
              if i < |p|
              then !discarding && Buffered() == p[i + 1..] && frame == Unwire(p[..i + 1])
              else if |p| == MAX_ENCODED_LEN
              then discarding && len == 0 && frame == None
              else !discarding && Buffered() == p && frame == None
    {
      hide Unwire;
      ghost var p := Buffered();
      var i := FindDelimiter();
      if i < len {
        frame := TakeFrame(i + 1);
        return;
      }
      if len == MAX_ENCODED_LEN {
        len := 0;
        discarding := true;
      }
      return None;
    }

    /** Decode the first `frameLen` buffered bytes and drop them. */
    method TakeFrame(frameLen: nat) returns (frame: Option<Frame>)
      requires Valid() && !discarding && frameLen <= len
      modifies this`len, buf, scratch
      ensures Valid() && Buffered() == old(Buffered())[frameLen..]
      ensures frame == Unwire(old(Buffered())[..frameLen])
    {
      hide Unwire;
      ghost var p := Buffered();
      var segment := buf[..frameLen];
      assert segment == p[..frameLen];
      frame := DecodeWithScratch(segment, scratch);
      assert Buffered() == p;
      Drop(frameLen);
    }

    method FindDelimiter() returns (i: nat)
      requires Valid()
      ensures i == FirstZero(Buffered())
    {
      ghost var p := Buffered();
      i := 0;
      while i < len
        invariant i <= len
        invariant Cobs.NoZero(p[..i])
      {
        if buf[i] == DELIMITER {
          break;
        }
        i := i + 1;
      }
      FirstZeroIs(p, i);
    }

    /** The `for (;;)` at the top of `mc_link_parser_feed`: try buffered segments until one is a frame. */
    method DrainBuffered() returns (frame: Option<Frame>)
      requires Valid() && !discarding
      modifies this, buf, scratch
      ensures Valid()
      ensures frame.None? ==> Drained() && Meaning().scan == old(Meaning()).scan
      ensures FramesIn(old(Meaning()).events)
           == (if frame.Some? then [frame.value] + FramesIn(Meaning().events) else [])
      ensures frame.Some? ==> Meaning().scan == old(Meaning()).scan && !discarding
    {
      hide Unwire, ScanAll;
      while true
        invariant Valid() && !discarding
        invariant Meaning().scan == old(Meaning()).scan
        invariant FramesIn(Meaning().events) == FramesIn(old(Meaning()).events)
        decreases len
      {
        ghost var p := Buffered();
        TakeSegment(p);
        var beforeLen := len;
        frame := TryOne();
        if frame.Some? {
          return;
        }
        if len == beforeLen {
          FirstZeroNone(p);
          return None;
        }
        if discarding {
          DrainedMeaning(Start(), Buffered());
          return None;
        }
      }
    }

    /** One byte of the chunk, at a point where no complete segment is buffered. */
    method PushByte(b: byte) returns (frame: Option<Frame>)
      requires Valid() && Drained()
      modifies this, buf, scratch
      ensures Valid() && Drained()
      ensures var o := ScanByte(old(Meaning()).scan, b);
              Meaning().scan == o.scan && FramesIn(o.events) == (if frame.Some? then [frame.value] else [])
      ensures frame.Some? ==> !discarding && len == 0
    {
      hide Unwire, ScanAll, SegmentEvents;
      DrainedMeaning(Start(), Buffered());
      if discarding {
        if b == DELIMITER {
          discarding := false;
        }
        DrainedMeaning(Start(), Buffered());
        return None;
      }
      if b == DELIMITER {
        frame := PushDelimiter();
      } else {
        PushNonzero(b);
        frame := None;
      }
      DrainedMeaning(Start(), Buffered());
    }

    method PushDelimiter() returns (frame: Option<Frame>)
      requires Valid() && Drained() && !discarding
      modifies this, buf, scratch
      ensures Valid() && !discarding && len == 0
      ensures FramesIn(SegmentEvents(old(Buffered()))) == (if frame.Some? then [frame.value] else [])
    {
      hide Unwire, SegmentEvents, FramesIn;
      ghost var p := Buffered();
      buf[len] := DELIMITER;
      len := len + 1;
      assert Buffered() == p + [DELIMITER];
      SnocParts(p, DELIMITER);
      FirstZeroIs(p + [DELIMITER], |p|);
      frame := TryOne();
      SegmentFrames(p);
    }

    method PushNonzero(b: byte)
      requires Valid() && Drained() && !discarding && b != DELIMITER
      modifies this, buf
      ensures Valid() && Drained()
      ensures var p := old(Buffered());
              if |p| + 1 == MAX_ENCODED_LEN then discarding else !discarding && Buffered() == p + [b]
    {
      ghost var p := Buffered();
      buf[len] := b;
      len := len + 1;
      assert Buffered() == p + [b];
      if len == MAX_ENCODED_LEN {
        len := 0;
        discarding := true;
      }
    }

    /** Keep the part of the chunk behind a frame; a rest longer than the buffer is given up. */
    method Stash(rest: seq<byte>)
      requires Valid() && !discarding && len == 0
      modifies this, buf
      ensures Valid()
      ensures |rest| <= MAX_ENCODED_LEN ==> Meaning() == ScanAll(Open([]), rest)
      ensures |rest| > MAX_ENCODED_LEN ==> discarding && len == 0
    {
      var capacity := buf.Length - len;
      if |rest| > capacity {
        len := 0;
        discarding := true;
        return;
      }
      forall i | 0 <= i < |rest| {
        buf[i] := rest[i];
      }
      len := |rest|;
      assert Buffered() == rest;
      if |rest| == capacity && DELIMITER !in rest {
        len := 0;
        discarding := true;
        ScanNonzero(Open([]), rest);
        assert Buffered() == [];
      }
    }

    /**
      `mc_link_parser_feed`. Buffered frames come first, and then the new chunk is not looked at;
      otherwise the chunk is read up to the end of its first frame and the rest is kept.
    */
    method Feed(src: seq<byte>) returns (frame: Option<Frame>, ghost used: nat)
      requires Valid()
      modifies this, buf, scratch
      ensures Valid() && used <= |src|
      ensures frame.None? ==> Drained()
      ensures var was := old(Meaning());
              var o := ScanAll(was.scan, src[..used]);
              if FramesIn(was.events) != []
              then && frame.Some? && FramesIn(was.events) == [frame.value] + FramesIn(Meaning().events)
                   && Meaning().scan == was.scan
              else if frame.None?
              then used == |src| && FramesIn(o.events) == [] && Meaning().scan == o.scan
              else && FramesIn(o.events) == [frame.value] && o.scan == Open([])
                   && (|src| - used <= MAX_ENCODED_LEN ==> Meaning() == ScanAll(Open([]), src[used..]))
                   && (|src| - used > MAX_ENCODED_LEN ==> discarding && len == 0)
    {
      hide Unwire, ScanAll;
      used := 0;
      if discarding {
        len := 0;
        DrainedMeaning(Start(), Buffered());
      } else {
        frame := DrainBuffered();
        if frame.Some? {
          return;
        }
      }
      frame, used := FeedChunk(src);
    }

    /** The byte loop of `mc_link_parser_feed`. */
    method FeedChunk(src: seq<byte>) returns (frame: Option<Frame>, ghost used: nat)
      requires Valid() && Drained()
      modifies this, buf, scratch
      ensures Valid() && used <= |src|
      ensures var o := ScanAll(old(Meaning()).scan, src[..used]);
              if frame.None?
              then Drained() && used == |src| && FramesIn(o.events) == [] && Meaning().scan == o.scan
              else && FramesIn(o.events) == [frame.value] && o.scan == Open([])
                   && (|src| - used <= MAX_ENCODED_LEN ==> Meaning() == ScanAll(Open([]), src[used..]))
                   && (|src| - used > MAX_ENCODED_LEN ==> discarding && len == 0)
    {
      hide Unwire, ScanByte;
      ghost var start := Meaning().scan;
      var i := 0;
      while i < |src|
        invariant 0 <= i <= |src|
        invariant Valid() && Drained()
        invariant Meaning().scan == ScanAll(start, src[..i]).scan
        invariant FramesIn(ScanAll(start, src[..i]).events) == []
      {
        ScanStep(start, src, i);
        frame := PushByte(src[i]);
        if frame.Some? {
          Stash(src[i + 1..]);
          used := i + 1;
          return;
        }
        i := i + 1;
      }
      used := |src|;
      frame := None;
    }

    /**
      The receive loop of `mc_link_session_receive_bytes`: feed a chunk, then feed nothing until no
      frame comes back. Every frame of the chunk is delivered, in order, and nothing else.
    */
    method Receive(chunk: seq<byte>) returns (frames: seq<Frame>)
      requires Valid() && Drained()
      requires |chunk| <= MAX_ENCODED_LEN
      modifies this, buf, scratch
      ensures Valid() && Drained()
      ensures var o := ScanAll(old(Meaning()).scan, chunk);
              Meaning().scan == o.scan && frames == FramesIn(o.events)
    {
      hide Unwire, ScanAll;
      frames := [];
      ghost var start := Meaning().scan;
      ghost var total := ScanAll(start, chunk);
      DrainedMeaning(Start(), Buffered());
      var frame, used := Feed(chunk);
      SplitFrames(start, chunk, used);
      hide FramesIn;
      while frame.Some?
        invariant Valid()
        invariant frame.None? ==> Drained()
        invariant Meaning().scan == total.scan
        invariant FramesIn(total.events)
               == frames + (if frame.Some? then [frame.value] + FramesIn(Meaning().events) else [])
        decreases frame.Some?, if frame.Some? then |FramesIn(Meaning().events)| else 0
      {
        Regroup(frames, [frame.value], FramesIn(Meaning().events));
        frames := frames + [frame.value];
        var nothing: seq<byte> := [];
        ScanNothing(Meaning().scan);
        frame, used := Feed(nothing);
        assert nothing[..used] == nothing;
      }
    }
  }

  lemma SplitFrames(start: Scan, chunk: seq<byte>, used: nat)
    requires start.Valid() && used <= |chunk|
    ensures var o := ScanAll(start, chunk[..used]);
            && ScanAll(start, chunk).scan == ScanAll(o.scan, chunk[used..]).scan
            && FramesIn(ScanAll(start, chunk).events)
               == FramesIn(o.events) + FramesIn(ScanAll(o.scan, chunk[used..]).events)
    ensures used == |chunk| ==> chunk[..used] == chunk
  {
    hide ScanAll, FramesIn;
    assert chunk == chunk[..used] + chunk[used..];
    ScanAppend(start, chunk[..used], chunk[used..]);
    var o := ScanAll(start, chunk[..used]);
    FramesInAppend(o.events, ScanAll(o.scan, chunk[used..]).events);
  }

  lemma SnocParts(p: seq<byte>, b: byte)
    ensures var q := p + [b];
            q[..|p|] == p && q[|p|] == b && q[..|p| + 1] == q && q[|p| + 1..] == []
  {
  }

  lemma DrainedMeaning(start: Scan, p: seq<byte>)
    requires start == Open([]) || (start == Skipping && p == [])
    requires |p| < MAX_ENCODED_LEN && Cobs.NoZero(p)
    ensures ScanAll(start, p) == Outcome(if start.Skipping? then Skipping else Open(p), [])
  {
    ScanNonzero(start, p);
    assert [] + p == p;
  }

  lemma ScanNothing(s: Scan)
    requires s.Valid()
    ensures ScanAll(s, []) == Outcome(s, [])
  {
  }

  lemma ScanStep(start: Scan, src: seq<byte>, i: nat)
    requires start.Valid() && i < |src|
    ensures var before := ScanAll(start, src[..i]);
            var step := ScanByte(before.scan, src[i]);
            var after := ScanAll(start, src[..i + 1]);
            after.scan == step.scan && FramesIn(after.events) == FramesIn(before.events) + FramesIn(step.events)
  {
    hide Unwire, ScanAll, ScanByte, FramesIn;
    var before := ScanAll(start, src[..i]);
    TakeSnoc(src, i);
    ScanAppend(start, src[..i], [src[i]]);
    ScanSingle(before.scan, src[i]);
    FramesInAppend(before.events, ScanByte(before.scan, src[i]).events);
  }

  lemma SegmentFrames(segment: seq<byte>)
    requires |segment| < MAX_ENCODED_LEN
    ensures FramesIn(SegmentEvents(segment))
         == (if Unwire(segment + [DELIMITER]).Some? then [Unwire(segment + [DELIMITER]).value] else [])
  {
    hide Cobs.Decode, Unseal;
  }

  lemma CutAt(p: seq<byte>, i: nat)
    requires i < |p| && p[i] == DELIMITER
    ensures p[..i + 1] == p[..i] + [DELIMITER]
    ensures p == p[..i + 1] + p[i + 1..]
  {
  }

  /** What is left to scan once the first segment has been taken off. */
  lemma {:induction false} TakeSegment(p: seq<byte>)
    requires |p| <= MAX_ENCODED_LEN
    ensures var i := FirstZero(p);
            var o := ScanAll(Open([]), p);
            if i < |p| then
              var rest := ScanAll(Open([]), p[i + 1..]);
              && o.scan == rest.scan
              && FramesIn(o.events)
                 == (if Unwire(p[..i + 1]).Some? then [Unwire(p[..i + 1]).value] else []) + FramesIn(rest.events)
            else
              o == Outcome(if |p| < MAX_ENCODED_LEN then Open(p) else Skipping, [])
  {
    hide Unwire, ScanAll;
    var i := FirstZero(p);
    if i < |p| {
      CutAt(p, i);
      ScanSegment(p[..i]);
      ScanAppend(Open([]), p[..i + 1], p[i + 1..]);
      FramesInAppend(SegmentEvents(p[..i]), ScanAll(Open([]), p[i + 1..]).events);
      SegmentFrames(p[..i]);
    } else {
      assert p[..i] == p;
      ScanNonzero(Open([]), p);
      assert [] + p == p;
    }
  }

  lemma FirstZeroNone(p: seq<byte>)
    requires FirstZero(p) == |p|
    ensures Cobs.NoZero(p)
  {
    assert p[..|p|] == p;
  }

  lemma FirstZeroIs(p: seq<byte>, i: nat)
    requires i <= |p| && Cobs.NoZero(p[..i])
    requires i < |p| ==> p[i] == 0
    ensures FirstZero(p) == i
  {
    hide FirstZero;
    assert forall k :: 0 <= k < i ==> p[k] == p[..i][k];
    assert forall k :: 0 <= k < FirstZero(p) ==> p[k] == p[..FirstZero(p)][k];
  }

  /** Reading a stream in pieces: what each further piece adds. */
  lemma ScanPieces(chunks: seq<seq<byte>>, i: nat)
    requires i < |chunks|
    ensures var before := ScanAll(Open([]), Flatten(chunks[..i]));
            var step := ScanAll(before.scan, chunks[i]);
            ScanAll(Open([]), Flatten(chunks[..i + 1])) == Outcome(step.scan, before.events + step.events)
  {
    hide ScanAll;
    assert chunks[..i + 1] == chunks[..i] + [chunks[i]];
    FlattenAppend(chunks[..i], [chunks[i]]);
    assert Flatten([chunks[i]]) == chunks[i];
    ScanAppend(Open([]), Flatten(chunks[..i]), chunks[i]);
  }

  /**
    The firmware over a whole stream: for every way of cutting it into chunks of at most 512 bytes,
    the frames are those of the split at the delimiters.
  */
  method FirmwareFrames(chunks: seq<seq<byte>>) returns (frames: seq<Frame>)
    requires forall i :: 0 <= i < |chunks| ==> |chunks[i]| <= MAX_ENCODED_LEN
    ensures frames == FramesIn(EventsOf(Flatten(chunks)))
  {
    frames := [];
    var parser := new FirmwareParser();
    var i := 0;
    while i < |chunks|
      invariant 0 <= i <= |chunks|
      invariant fresh(parser) && fresh(parser.buf) && fresh(parser.scratch)
      invariant parser.Valid() && parser.Drained()
      invariant parser.Meaning().scan == ScanAll(Open([]), Flatten(chunks[..i])).scan
      invariant frames == FramesIn(ScanAll(Open([]), Flatten(chunks[..i])).events)
    {
      ScanPieces(chunks, i);
      ghost var before := ScanAll(Open([]), Flatten(chunks[..i]));
      FramesInAppend(before.events, ScanAll(before.scan, chunks[i]).events);
      var more := parser.Receive(chunks[i]);
      frames := frames + more;
      i := i + 1;
    }
    assert chunks[..i] == chunks;
    ScanIsSplit(Flatten(chunks));
  }

  /** The bridge over a whole stream: the same frames, for chunks of any size. */
  method BridgeFrames(chunks: seq<seq<byte>>) returns (frames: seq<Frame>)
    ensures frames == FramesIn(EventsOf(Flatten(chunks)))
  {
    var decoder := new BridgeDecoder();
    var events: seq<Event> := [];
    var i := 0;
    while i < |chunks|
      invariant 0 <= i <= |chunks|
      invariant fresh(decoder) && decoder.Valid()
      invariant Outcome(decoder.State(), events) == ScanAll(Open([]), Flatten(chunks[..i]))
    {
      ScanPieces(chunks, i);
      var more := decoder.Feed(chunks[i]);
      events := events + more;
      i := i + 1;
    }
    assert chunks[..i] == chunks;
    ScanIsSplit(Flatten(chunks));
    frames := FramesIn(events);
  }
}
