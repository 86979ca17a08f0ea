/**
  The bridge's movement filter: TCP bytes are collected until a length-prefixed Minecraft frame is
  complete, and frames that look like compressed-format packets 0x03..0x06 are left out of what is
  sent to the firmware.
*/
module MovementFilter {
  import opened Bytes
  import opened VarInt

  const FRAME_LIMIT := 8192

  // ----- reading one frame -----

  datatype Read = Complete(value: nat, width: nat) | Incomplete | Invalid

  /** `read_minecraft_varint` */
  function ReadVarInt(bytes: seq<byte>): Read {
    match Groups(bytes, 5)
    case Some(d) => Complete(d.value, d.used)
    case None => if |bytes| < 5 then Incomplete else Invalid
  }

  method ReadVarIntLoop(bytes: seq<byte>) returns (r: Read)
    ensures r == ReadVarInt(bytes)
  {
    hide Groups, Shift, Group;
    var value: nat, scale: nat := 0, 1;
    var i := 0;
    assert bytes[0..] == bytes;
    ShiftNone(Groups(bytes, 5));
    while i < |bytes| && i < 5
      invariant 0 <= i <= |bytes| && i <= 5
      invariant Groups(bytes, 5) == Shift(value, scale, i, Groups(bytes[i..], 5 - i))
    {
      GroupsAt(bytes, i, 5);
      ShiftStep(value, scale, i, bytes[i], Groups(bytes[i + 1..], 5 - (i + 1)));
      if bytes[i] < 0x80 {
        return Complete(value + scale * bytes[i], i + 1);
      }
      value := value + scale * (bytes[i] - 0x80);
      scale := scale * 0x80;
      i := i + 1;
    }
    GroupsOver(bytes, i, 5);
    ShiftStep(value, scale, i, 0, None);
    return if |bytes| < 5 then Incomplete else Invalid;
  }

  /** Length of the frame at the front of the buffer: known and complete, not there yet, or nonsense. */
  datatype Front = Frame(length: nat) | Wait | Nonsense

  function FrontOf(buffer: seq<byte>): (f: Front)
    ensures f.Frame? ==> 1 <= f.length <= |buffer|
  {
    match ReadVarInt(buffer)
    case Incomplete => Wait
    case Invalid => Nonsense
    case Complete(value, width) =>
      if value > FRAME_LIMIT then Nonsense
      else if |buffer| < width + value then Wait
      else Frame(width + value)
  }

  /** `should_forward_minecraft_frame` */
  predicate Forward(frame: seq<byte>) {
    match ReadVarInt(frame)
    case Incomplete => true
    case Invalid => true
    case Complete(length, width) =>
      if |frame| != width + length then true
      else
        var body := frame[width..];
        match ReadVarInt(body)
        case Incomplete => true
        case Invalid => true
        case Complete(dataLength, dataWidth) =>
          if dataLength != 0 then true
          else match ReadVarInt(body[dataWidth..])
            case Incomplete => true
            case Invalid => true
            case Complete(id, _) => !(3 <= id <= 6)
  }

  // ----- a stream as frames -----

  /** Complete frames from the front, and what is left; `bad` if that is not the start of a frame. */
  datatype Cut = Cut(frames: seq<seq<byte>>, tail: seq<byte>, bad: bool)

  function CutStream(stream: seq<byte>): Cut
    decreases |stream|
  {
    match FrontOf(stream)
    case Wait => Cut([], stream, false)
    case Nonsense => Cut([], stream, true)
    case Frame(n) =>
      var rest := CutStream(stream[n..]);
      Cut([stream[..n]] + rest.frames, rest.tail, rest.bad)
  }

  function Kept(frames: seq<seq<byte>>): seq<byte> {
    if frames == [] then [] else (if Forward(frames[0]) then frames[0] else []) + Kept(frames[1..])
  }

  function Dropped(frames: seq<seq<byte>>): seq<byte> {
    if frames == [] then [] else (if Forward(frames[0]) then [] else frames[0]) + Dropped(frames[1..])
  }

  /** What one call adds to the send queue, and the buffer it leaves; nonsense is passed on unfiltered. */
  datatype Drained = Drained(forwarded: seq<byte>, buffer: seq<byte>)

  function Drain(buffer: seq<byte>): Drained {
    var c := CutStream(buffer);
    if c.bad then Drained(Kept(c.frames) + c.tail, []) else Drained(Kept(c.frames), c.tail)
  }

  // ----- the loop -----

  class Filter {
    var pendingTcp: seq<byte>
    var frameBuffer: seq<byte>
    var dropped: nat

    constructor ()
      ensures pendingTcp == [] && frameBuffer == [] && dropped == 0
    {
      pendingTcp, frameBuffer, dropped := [], [], 0;
    }

    /** `push_filtered_tcp_bytes`; `dropped` counts the bytes left out. */
    method PushFiltered(data: seq<byte>)
      modifies this
      ensures var d := Drain(old(frameBuffer) + data);
              && pendingTcp == old(pendingTcp) + d.forwarded
              && frameBuffer == d.buffer
              && dropped == old(dropped) + |Dropped(CutStream(old(frameBuffer) + data).frames)|
    {
      hide FrontOf, Forward, CutStream, Kept, Dropped;
      frameBuffer := frameBuffer + data;
      ghost var all := frameBuffer;
      ghost var was, lost := pendingTcp, dropped;
      ghost var forwarded: seq<byte> := [];
      ghost var gone: nat := 0;
      assert [] + Kept(CutStream(all).frames) == Kept(CutStream(all).frames);
      while true
        invariant pendingTcp == was + forwarded && dropped == lost + gone
        invariant CutStream(frameBuffer).tail == CutStream(all).tail && CutStream(frameBuffer).bad == CutStream(all).bad
        invariant forwarded + Kept(CutStream(frameBuffer).frames) == Kept(CutStream(all).frames)
        invariant gone + |Dropped(CutStream(frameBuffer).frames)| == |Dropped(CutStream(all).frames)|
        decreases |frameBuffer|
      {
        var front := Front();
        StopOfCut(frameBuffer);
        if front.Wait? {
          assert forwarded + [] == forwarded;
          return;
        }
        if front.Nonsense? {
          assert was + forwarded + frameBuffer == was + (forwarded + frameBuffer);
          assert forwarded + [] == forwarded;
          pendingTcp := pendingTcp + frameBuffer;
          frameBuffer := [];
          return;
        }
        var frame := frameBuffer[..front.length];
        HeadOfCut(frameBuffer, front.length);
        var forward := Forward(frame);
        if forward {
          Regroup(was, forwarded, frame);
          Regroup(forwarded, frame, Kept(CutStream(frameBuffer[front.length..]).frames));
          pendingTcp := pendingTcp + frame;
          forwarded := forwarded + frame;
        } else {
          dropped := dropped + |frame|;
          gone := gone + |frame|;
        }
        frameBuffer := frameBuffer[front.length..];
      }
    }

    method Front() returns (f: Front)
      ensures f == FrontOf(frameBuffer)
    {
      var r := ReadVarIntLoop(frameBuffer);
      match r
      case Incomplete => return Wait;
      case Invalid => return Nonsense;
      case Complete(value, width) =>
        if value > FRAME_LIMIT {
          return Nonsense;
        }
        if |frameBuffer| < width + value {
          return Wait;
        }
        return Frame(width + value);
    }
  }

  lemma StopOfCut(buffer: seq<byte>)
    ensures FrontOf(buffer).Wait? ==> CutStream(buffer) == Cut([], buffer, false)
    ensures FrontOf(buffer).Nonsense? ==> CutStream(buffer) == Cut([], buffer, true)
    ensures Kept([]) == [] && Dropped([]) == []
  {
  }

  lemma HeadOfCut(buffer: seq<byte>, n: nat)
    requires FrontOf(buffer) == Frame(n)
    ensures var rest := CutStream(buffer[n..]);
            && CutStream(buffer) == Cut([buffer[..n]] + rest.frames, rest.tail, rest.bad)
            && Kept(CutStream(buffer).frames) == (if Forward(buffer[..n]) then buffer[..n] else []) + Kept(rest.frames)
            && Dropped(CutStream(buffer).frames)
               == (if Forward(buffer[..n]) then [] else buffer[..n]) + Dropped(rest.frames)
  {
    hide FrontOf, Forward;
    var rest := CutStream(buffer[n..]);
    assert ([buffer[..n]] + rest.frames)[1..] == rest.frames;
  }

  // ----- chunking does not matter -----

  /** A complete frame or a nonsensical length at the front stays what it is when more bytes arrive. */
  lemma FrontExtend(buffer: seq<byte>, more: seq<byte>)
    requires !FrontOf(buffer).Wait?
    ensures FrontOf(buffer + more) == FrontOf(buffer)
  {
    if Groups(buffer, 5).Some? {
      GroupsExtend(buffer, more, 5);
    } else {
      GroupsNone(buffer, 5);
      GroupsStuck(buffer + more, 5);
    }
  }

  /** Cutting a longer stream continues from the incomplete tail of the shorter one. */
  lemma {:induction false} CutAppend(a: seq<byte>, b: seq<byte>)
    ensures var c := CutStream(a);
            if c.bad then CutStream(a + b) == Cut(c.frames, c.tail + b, true)
            else var d := CutStream(c.tail + b);
                 CutStream(a + b) == Cut(c.frames + d.frames, d.tail, d.bad)
    decreases |a|
  {
    hide FrontOf;
    StopOfCut(a);
    StopOfCut(a + b);
    if FrontOf(a).Wait? {
      hide CutStream;
      var d := CutStream(a + b);
      assert [] + d.frames == d.frames;
    } else if FrontOf(a).Nonsense? {
      FrontExtend(a, b);
      hide CutStream;
    } else {
      FrontExtend(a, b);
      FrontLength(a);
      CutAppend(a[FrontOf(a).length..], b);
      hide CutStream;
      CutAppendFrame(a, b, FrontOf(a).length);
    }
  }

  lemma CutAppendFrame(a: seq<byte>, b: seq<byte>, n: nat)
    requires FrontOf(a) == Frame(n) && FrontOf(a + b) == Frame(n) && n <= |a|
    requires var c := CutStream(a[n..]);
             if c.bad then CutStream(a[n..] + b) == Cut(c.frames, c.tail + b, true)
             else var d := CutStream(c.tail + b);
                  CutStream(a[n..] + b) == Cut(c.frames + d.frames, d.tail, d.bad)
    ensures var c := CutStream(a);
            if c.bad then CutStream(a + b) == Cut(c.frames, c.tail + b, true)
            else var d := CutStream(c.tail + b);
                 CutStream(a + b) == Cut(c.frames + d.frames, d.tail, d.bad)
  {
    hide FrontOf, CutStream;
    HeadOfCut(a, n);
    HeadOfCut(a + b, n);
    SliceAppend(a, b, n);
    var c := CutStream(a[n..]);
    Regroup([a[..n]], c.frames, CutStream(c.tail + b).frames);
  }

  lemma FrontLength(buffer: seq<byte>)
    ensures FrontOf(buffer).Frame? ==> 1 <= FrontOf(buffer).length <= |buffer|
  {
  }

  lemma SliceAppend<T>(a: seq<T>, b: seq<T>, n: nat)
    requires n <= |a|
    ensures (a + b)[..n] == a[..n] && (a + b)[n..] == a[n..] + b
  {
  }

  lemma {:induction false} KeptAppend(a: seq<seq<byte>>, b: seq<seq<byte>>)
    ensures Kept(a + b) == Kept(a) + Kept(b)
    decreases |a|
  {
    hide Forward;
    if a == [] {
      assert a + b == b;
    } else {
      assert (a + b)[1..] == a[1..] + b;
      KeptAppend(a[1..], b);
    }
  }

  /** The send queue and buffer after a series of calls. */
  function DrainAll(buffer: seq<byte>, chunks: seq<seq<byte>>): Drained
    decreases |chunks|
  {
    if chunks == [] then Drained([], buffer)
    else
      var d := Drain(buffer + chunks[0]);
      var rest := DrainAll(d.buffer, chunks[1..]);
      Drained(d.forwarded + rest.forwarded, rest.buffer)
  }

  lemma {:induction false} DrainContinues(buffer: seq<byte>, chunks: seq<seq<byte>>)
    requires CutStream(buffer).frames == []
    requires !CutStream(buffer + Flatten(chunks)).bad
    ensures var c := CutStream(buffer + Flatten(chunks));
            DrainAll(buffer, chunks) == Drained(Kept(c.frames), if chunks == [] then buffer else c.tail)
    ensures CutStream(buffer).tail == buffer
    decreases |chunks|
  {
    CutWhole(buffer);
    hide CutStream;
    if chunks == [] {
      assert buffer + [] == buffer;
    } else {
      var first, rest := buffer + chunks[0], Flatten(chunks[1..]);
      assert buffer + Flatten(chunks) == first + rest;
      CutAppend(first, rest);
      var c := CutStream(first);
      CutTail(first);
      DrainContinues(c.tail, chunks[1..]);
      var d := CutStream(c.tail + rest);
      KeptAppend(c.frames, d.frames);
      if chunks[1..] == [] {
        assert c.tail + rest == c.tail;
      }
    }
  }

  /** What is left over is itself cut into no frames. */
  lemma {:induction false} CutTail(stream: seq<byte>)
    ensures CutStream(CutStream(stream).tail) == Cut([], CutStream(stream).tail, CutStream(stream).bad)
    decreases |stream|
  {
    hide FrontOf;
    StopOfCut(stream);
    if FrontOf(stream).Frame? {
      FrontLength(stream);
      HeadOfCut(stream, FrontOf(stream).length);
      CutTail(stream[FrontOf(stream).length..]);
    }
  }

  /** Nothing is lost or reordered by the cutting itself. */
  lemma {:induction false} CutWhole(stream: seq<byte>)
    ensures Flatten(CutStream(stream).frames) + CutStream(stream).tail == stream
    decreases |stream|
  {
    hide FrontOf;
    StopOfCut(stream);
    if FrontOf(stream).Frame? {
      FrontLength(stream);
      var n := FrontOf(stream).length;
      HeadOfCut(stream, n);
      CutWhole(stream[n..]);
      hide CutStream;
      JoinFrame(stream, n, CutStream(stream[n..]));
    } else {
      assert [] + stream == stream;
    }
  }

  lemma JoinFrame(stream: seq<byte>, n: nat, rest: Cut)
    requires n <= |stream| && Flatten(rest.frames) + rest.tail == stream[n..]
    ensures Flatten([stream[..n]] + rest.frames) + rest.tail == stream
  {
    assert ([stream[..n]] + rest.frames)[1..] == rest.frames;
    Regroup(stream[..n], Flatten(rest.frames), rest.tail);
  }

  lemma {:induction false} Partition(frames: seq<seq<byte>>)
    ensures |Kept(frames)| + |Dropped(frames)| == |Flatten(frames)|
    decreases |frames|
  {
    hide Forward;
    if frames != [] {
      Partition(frames[1..]);
    }
  }

  /** The incomplete tail of a well-formed stream is shorter than the longest frame. */
  lemma {:induction false} TailBound(stream: seq<byte>)
    requires !CutStream(stream).bad
    ensures |CutStream(stream).tail| <= FRAME_LIMIT + 4
    decreases |stream|
  {
    if FrontOf(stream).Frame? {
      TailBound(stream[FrontOf(stream).length..]);
    }
  }

  /**
    The filter, for every way a stream of frames arrives in pieces: what is queued for the firmware
    is the concatenation of the complete frames that are not movement, the buffer is the incomplete
    tail, at most 8196 bytes, and every byte is accounted for.
  */
  lemma FilterIsFramewise(chunks: seq<seq<byte>>)
    requires !CutStream(Flatten(chunks)).bad
    ensures var c := CutStream(Flatten(chunks));
            && DrainAll([], chunks) == Drained(Kept(c.frames), c.tail)
            && Flatten(c.frames) + c.tail == Flatten(chunks)
            && |Kept(c.frames)| + |Dropped(c.frames)| + |c.tail| == |Flatten(chunks)|
            && |c.tail| <= FRAME_LIMIT + 4
  {
    var stream := Flatten(chunks);
    CutWhole(stream);
    Partition(CutStream(stream).frames);
    TailBound(stream);
    StopOfCut([]);
    assert [] + stream == stream;
    DrainContinues([], chunks);
  }

  // ----- where frames end, and nonsense -----

  /** A length of up to 8192 makes a frame as soon as that many bytes are there; a longer one is nonsense. */
  lemma FrontExactly(n: u32, rest: seq<byte>)
    ensures FrontOf(Encode(n) + rest)
         == if n > 8192 then Nonsense else if |rest| < n then Wait else Frame(|Encode(n)| + n)
  {
    hide Encode;
    ReadsEncoded(n, rest);
  }

  /** A length of which only continuation bytes are there is waited for up to the fourth byte. */
  lemma EndlessLength(bytes: seq<byte>)
    requires forall i :: 0 <= i < |bytes| && i < 5 ==> bytes[i] >= 0x80
    ensures FrontOf(bytes) == if |bytes| < 5 then Wait else Nonsense
  {
    NeverEnds(bytes);
  }

  /** Once the stream is no sequence of frames, everything from there on is passed on and nothing is kept. */
  lemma NonsensePassedOn(buffer: seq<byte>)
    requires CutStream(buffer).bad
    ensures var c, d := CutStream(buffer), Drain(buffer);
            && d.buffer == [] && |c.tail| <= |d.forwarded|
            && d.forwarded[|d.forwarded| - |c.tail|..] == c.tail
            && d.forwarded[..|d.forwarded| - |c.tail|] == Kept(c.frames)
            && |d.forwarded| + |Dropped(c.frames)| == |buffer|
  {
    hide Kept, Dropped;
    CutWhole(buffer);
    Partition(CutStream(buffer).frames);
    hide CutStream;
  }

  // ----- what is dropped -----

  /** A frame: its length, and what it holds. */
  function FrameWith(inner: seq<byte>): (f: seq<byte>)
    requires |inner| < 0x8000_0000
  {
    Encode(|inner|) + inner
  }

  /** The bridge's reader finds an encoded number, whatever follows. */
  lemma ReadsEncoded(v: u32, rest: seq<byte>)
    ensures ReadVarInt(Encode(v) + rest) == Complete(v, |Encode(v)|)
    ensures (Encode(v) + rest)[|Encode(v)|..] == rest
  {
    EncodeLength(v);
    GroupsEncode(v, rest, 5);
  }

  /** The filter looks at what the frame holds. */
  lemma ForwardInner(inner: seq<byte>)
    requires |inner| < 0x8000_0000
    ensures Forward(FrameWith(inner))
       <==> !(ReadVarInt(inner).Complete? && ReadVarInt(inner).value == 0 && ReadVarInt(inner).width <= |inner|
              && var id := ReadVarInt(inner[ReadVarInt(inner).width..]);
              && id.Complete? && 3 <= id.value <= 6)
  {
    ReadsEncoded(|inner|, inner);
    hide Encode;
  }

  /**
    For frames laid out by data length, packet id and the rest: dropped are exactly those with data
    length 0 and a packet id of a movement packet, whatever the rest is.
  */
  lemma DroppedExactly(dataLength: u32, id: u32, rest: seq<byte>)
    requires |Encode(dataLength) + Encode(id) + rest| < 0x8000_0000
    ensures Forward(FrameWith(Encode(dataLength) + Encode(id) + rest)) <==> !(dataLength == 0 && 3 <= id <= 6)
  {
    hide Encode, Forward;
    Regroup(Encode(dataLength), Encode(id), rest);
    ReadsEncoded(dataLength, Encode(id) + rest);
    ReadsEncoded(id, rest);
    ForwardInner(Encode(dataLength) + Encode(id) + rest);
  }

  /** Frames that end before a packet id, or whose first number never ends, are passed on. */
  lemma ShortForwarded(dataLength: u32, endless: seq<byte>)
    requires |endless| < 0x8000_0000 && forall i :: 0 <= i < |endless| && i < 5 ==> endless[i] >= 0x80
    ensures |Encode(dataLength)| <= 5
    ensures Forward(FrameWith(Encode(dataLength))) && Forward(FrameWith(endless))
    ensures |Encode(dataLength) + endless| < 0x8000_0000 ==> Forward(FrameWith(Encode(dataLength) + endless))
  {
    EncodeLength(dataLength);
    NeverEnds(endless);
    NeverEnds([]);
    hide Encode, Forward;
    ReadsEncoded(dataLength, []);
    assert Encode(dataLength) + [] == Encode(dataLength);
    ForwardInner(Encode(dataLength));
    ForwardInner(endless);
    ReadsEncoded(dataLength, endless);
    if |Encode(dataLength) + endless| < 0x8000_0000 {
      ForwardInner(Encode(dataLength) + endless);
    }
  }

  lemma NeverEnds(bytes: seq<byte>)
    requires forall i :: 0 <= i < |bytes| && i < 5 ==> bytes[i] >= 0x80
    ensures !ReadVarInt(bytes).Complete?
  {
    if Groups(bytes, 5).Some? {
      GroupsBound(bytes, 5);
    }
  }

  /** So before compression a status request and a status ping get through. */
  lemma StatusForwarded(payload: seq<byte>)
    requires |payload| == 8
    ensures Forward([1, 0]) && Forward([9, 1] + payload)
  {
    assert Groups([1, 0], 5) == Some(Decoded(1, 1)) && [1, 0][1..] == [0];
    assert Groups([0], 5) == Some(Decoded(0, 1));
    var ping := [9, 1] + payload;
    assert ping[0] == 9 && ping[1..][0] == 1;
    assert Groups(ping, 5) == Some(Decoded(9, 1)) && Groups(ping[1..], 5) == Some(Decoded(1, 1));
  }

  // ----- a frame the filter mistakes for movement -----

  /** An uncompressed Login Start: length, packet id 0, the name with its length. */
  function LoginStart(name: seq<byte>): seq<byte>
    requires |name| <= 16
  {
    [|name| + 2, 0, |name|] + name
  }

  /**
    The filter reads every frame as compressed-format, also before compression is agreed: the packet
    id of a Login Start passes for the data length and the name's length for the packet id. Exactly
    the names of three to six bytes are lost.
  */
  lemma LoginStartForwarded(name: seq<byte>)
    requires |name| <= 16
    ensures FrontOf(LoginStart(name)) == Frame(|LoginStart(name)|)
    ensures Forward(LoginStart(name)) <==> !(3 <= |name| <= 6)
  {
    var f := LoginStart(name);
    assert f[0] == |name| + 2;
    var body := f[1..];
    assert body[0] == 0 && body[1..][0] == |name|;
    assert Groups(f, 5) == Some(Decoded(|name| + 2, 1));
    assert Groups(body, 5) == Some(Decoded(0, 1));
    assert Groups(body[1..], 5) == Some(Decoded(|name|, 1));
  }
}
