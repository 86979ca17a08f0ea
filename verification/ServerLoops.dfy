/**
  The server as an object: `mc_server_t` with its accumulator, writing whole frames into the output
  ring. Every method performs the transition of the same name in `Server`, on the ring itself.
*/
module ServerLoops {
  import opened Bytes
  import opened Packet
  import opened Commands
  import opened Fixed2
  import opened Server
  import opened ServerRuns
  import Div64
  import RingBuffer
  import VarInt

  /** `size_t` has 32 bits on the firmware's processor. */
  const SIZE_MAX := 0xffff_ffff

  method VarIntBytes(v: u32) returns (bytes: seq<byte>)
    ensures bytes == VarInt.Encode(v)
  {
    var buf := new byte[5];
    VarInt.EncodeLength(v);
    var n := VarInt.EncodeInto(v, buf);
    bytes := buf[..n];
  }

  lemma WirePrefix(items: seq<Item>, i: nat)
    requires i < |items|
    ensures Wire(items[..i + 1]) == Wire(items[..i]) + FrameOf(items[i])
    ensures |Wire(items[..i + 1])| <= |Wire(items)|
  {
    hide FrameOf;
    TakeSnoc(items, i);
    WireAppend(items[..i], [items[i]]);
    assert [items[i]][1..] == [] && FrameOf(items[i]) + [] == FrameOf(items[i]);
    assert items == items[..i + 1] + items[i + 1..];
    WireAppend(items[..i + 1], items[i + 1..]);
  }

  class Connection {
    const c: Config
    const tx: RingBuffer.Ring
    const accum: array<byte>
    var accumLen: nat
    var phase: Phase
    var compressed: bool
    var username: seq<byte>
    var lastKeepalive: u32
    var keepaliveId: nat
    var keepalivePending: bool
    var at: Position
    var onGround: bool
    var time: nat
    var weather: Weather
    var bootstrapSent: bool
    var stage: nat
    var chunkIndex: nat
    var txReset: bool
    ghost var log: seq<Item>

    ghost function Srv(): Server
      reads this
    {
      Server(phase, compressed, username, lastKeepalive, keepaliveId, keepalivePending, at, onGround, time, weather,
             bootstrapSent, stage, chunkIndex, txReset)
    }

    ghost predicate Ok()
      reads this, tx
    {
      && tx.Valid() && tx.data.Length == c.cap <= SIZE_MAX
      && accum.Length == MAX_ACCUM && accumLen <= MAX_ACCUM && accum != tx.data
    }

    ghost function Now(): Session
      requires Ok()
      reads this, tx, tx.data
    {
      Session(Srv(), tx.Contents(), log)
    }

    ghost function Rx(): seq<byte>
      requires Ok()
      reads this, tx, accum
    {
      accum[..accumLen]
    }

    /** `mc_server_init`, on an empty ring. */
    constructor (config: Config, ring: RingBuffer.Ring)
      requires ring.Valid() && ring.data.Length == config.cap <= SIZE_MAX && ring.Contents() == []
      ensures Ok() && c == config && tx == ring && fresh(accum)
      ensures Now() == Session(BOOTED, [], []) && Rx() == []
    {
      c, tx := config, ring;
      accum := new byte[MAX_ACCUM];
      accumLen := 0;
      phase, compressed, username := Handshake, false, [];
      lastKeepalive, keepaliveId, keepalivePending := 0, 0, false;
      at, onGround, time, weather := SPAWN, false, 6000, Clear;
      bootstrapSent, stage, chunkIndex, txReset := false, 0, 0, false;
      log := [];
    }

    // ----- queueing -----

    method WriteAll(bytes: seq<byte>)
      requires Ok() && |bytes| <= c.cap - |tx.Contents()|
      modifies tx`head, tx`len, tx.data
      ensures Ok() && tx.Contents() == old(tx.Contents()) + bytes
    {
      hide RingBuffer.Ring.Contents;
      var n := tx.Write(bytes);
      assert bytes[..n] == bytes;
    }

    /** Length, second length if there is one, and body, once there is room for all three. */
    method WriteParts(head: seq<byte>, body: seq<byte>) returns (ok: bool)
      requires Ok() && |head| + |body| < 0x8000_0000
      modifies tx`head, tx`len, tx.data
      ensures Ok()
      ensures ok <==> |Framed(head + body)| <= c.cap - |old(tx.Contents())|
      ensures ok ==> tx.Contents() == old(tx.Contents()) + Framed(head + body)
      ensures !ok ==> tx.Contents() == old(tx.Contents())
    {
      hide VarInt.Encode, RingBuffer.Ring.Contents;
      var prefix := VarIntBytes(|head| + |body|);
      var free := tx.Free();
      ghost var start := tx.Contents();
      if free < |prefix| + |head| + |body| {
        return false;
      }
      WriteAll(prefix);
      WriteAll(head);
      WriteAll(body);
      Regroup4(start, prefix, head, body);
      return true;
    }

    /** `mc_server_queue_packet`, `queue_packet_compressed_plain`, `mc_world_queue_compressed_spawn_chunk` */
    method Enqueue(item: Item) returns (ok: bool)
      requires Ok()
      modifies tx`head, tx`len, tx.data, this`log
      ensures Ok() && Outcome(ok, Now()) == Queue(c, old(Now()), item)
    {
      WireOne(item);
      hide Wire, Framed;
      if |item.body| > MAX_BODY {
        return false;
      }
      match item.format {
        case Plain =>
          assert [] + item.body == item.body;
          ok := WriteParts([], item.body);
        case Uncompressed =>
          ok := WriteParts([0], item.body);
        case Deflated(rawLen) =>
          if rawLen == 0 || rawLen > MAX_BODY {
            return false;
          }
          VarInt.EncodeLength(rawLen);
          var dataLen := VarIntBytes(rawLen);
          ok := WriteParts(dataLen, item.body);
      }
      log := if ok then log + [item] else log;
    }

    /** Frame after frame; the first that does not fit takes the ring back to where it was. */
    method AppendAll(items: seq<Item>) returns (ok: bool)
      requires Ok()
      modifies tx`head, tx`tail, tx`len, tx.data, this`log
      ensures Ok() && Outcome(ok, Now()) == QueueBatch(c, old(Now()), items)
    {
      hide RingBuffer.Ring.Contents, Wire, FrameOf, Sendable;
      var checkpoint := tx.Save();
      ghost var start, before := tx.Contents(), log;
      ghost var kept := Srv();
      var i := 0;
      WireNone(start, items);
      while i < |items|
        invariant 0 <= i <= |items| && Ok() && Srv() == kept && tx.Reaches(checkpoint)
        invariant checkpoint.len == |start|
        invariant tx.Contents() == start + Wire(items[..i]) && log == before + items[..i]
        invariant AllSendable(items[..i])
      {
        WirePrefix(items, i);
        TakeSnoc(items, i);
        Regroup(start, Wire(items[..i]), FrameOf(items[i]));
        WireOne(items[i]);
        ok := Enqueue(items[i]);
        if !ok {
          tx.Restore(checkpoint);
          log := before;
          StartOf(start, Wire(items[..i]));
          return;
        }
        i := i + 1;
      }
      assert items[..i] == items;
      ok := true;
    }

    /** What the frames of a batch will take, or nothing if one is too long or the sum overflows `size_t`. */
    method Needed(items: seq<Item>) returns (needed: Option<nat>)
      requires forall i :: 0 <= i < |items| ==> !items[i].format.Deflated?
      ensures needed.Some? <==> AllSendable(items) && |Wire(items)| <= SIZE_MAX
      ensures needed.Some? ==> needed.value == |Wire(items)|
    {
      hide Wire, FrameOf, Sendable, FrameLen;
      var sum := 0;
      var i := 0;
      WireNone([], items);
      while i < |items|
        invariant 0 <= i <= |items| && AllSendable(items[..i]) && sum == |Wire(items[..i])| <= SIZE_MAX
      {
        WirePrefix(items, i);
        TakeSnoc(items, i);
        FrameLenIs(items[i]);
        var length := FrameLen(items[i].format, |items[i].body|);
        if length == 0 || length > SIZE_MAX - sum {
          return None;
        }
        sum := sum + length;
        i := i + 1;
      }
      assert items[..i] == items;
      return Some(sum);
    }

    /**
      `queue_packet_batch`. All of the frames or none; once the length check has passed, no frame of
      the batch can be refused.
    */
    method EnqueueBatch(items: seq<Item>) returns (ok: bool)
      requires Ok() && forall i :: 0 <= i < |items| ==> !items[i].format.Deflated?
      modifies tx`head, tx`tail, tx`len, tx.data, this`log
      ensures Ok() && Outcome(ok, Now()) == QueueBatch(c, old(Now()), items)
      ensures ok <==> AllSendable(items) && |Wire(items)| <= c.cap - |old(tx.Contents())|
    {
      hide RingBuffer.Ring.Contents, Wire, AllSendable;
      var needed := Needed(items);
      if needed.None? {
        return false;
      }
      var free := tx.Free();
      if free < needed.value {
        return false;
      }
      ok := AppendAll(items);
    }

    // ----- packets -----

    /** `reset_play_runtime_state` */
    method ResetPlay()
      modifies this`lastKeepalive, this`keepaliveId, this`keepalivePending
      modifies this`at, this`onGround, this`time, this`weather
      ensures lastKeepalive == 0 && keepaliveId == 0 && !keepalivePending
      ensures at == SPAWN && !onGround && time == BOOTED.time && weather == Clear
    {
      lastKeepalive, keepaliveId, keepalivePending := 0, 0, false;
      at, onGround, time, weather := SPAWN, false, 6000, Clear;
    }

    /** `reset_logical_session` */
    method ResetLogical()
      modifies this
      ensures Srv() == RESET && log == old(log) && accumLen == old(accumLen)
    {
      username, phase, compressed := [], Handshake, false;
      bootstrapSent, stage, chunkIndex, txReset := false, 0, 0, true;
      ResetPlay();
    }

    /** `try_handle_handshake` */
    method Greet(body: seq<byte>, pos: nat) returns (greeting: Greeting)
      modifies this
      ensures (greeting, Srv()) == TryHandshake(old(Srv()), NextState(body, pos))
      ensures log == old(log) && accumLen == old(accumLen)
    {
      hide NextState;
      var next := NextState(body, pos);
      if next.None? {
        return Rejected;
      }
      ResetLogical();
      if next.value == 1 {
        phase := Status;
      } else if next.value == 2 {
        phase := Login;
      } else {
        return Rejected;
      }
      return Accepted;
    }

    /** Login Start */
    method OnLogin(body: seq<byte>, pos: nat) returns (ok: bool)
      requires Ok()
      modifies tx`head, tx`tail, tx`len, tx.data, this`log, this`phase, this`compressed, this`username
      ensures Ok() && Outcome(ok, Now()) == HandleLogin(c, old(Now()), LoginName(body, pos))
    {
      hide QueueBatch, ReadString, CString, StringAt, RingBuffer.Ring.Contents, SetCompressionBody, LoginSuccessBody;
      var f := ReadString(body, pos, MAX_USERNAME + 1);
      if f.None? {
        return false;
      }
      var user := CString(StringAt(body, f.value));
      if user == [] {
        return false;
      }
      ok := EnqueueBatch(LoginItems(user));
      if ok {
        compressed, username, phase := true, user, Play;
      }
    }

    /** `execute_command_result` */
    method Carry(reply: Reply) returns (ok: bool)
      requires Ok() && |reply.text| < TEXT_CAP
      modifies tx`head, tx`tail, tx`len, tx.data, this`log, this`at, this`time, this`weather
      ensures Ok() && Outcome(ok, Now()) == Execute(c, old(Now()), reply)
      ensures !ok ==> tx.Contents() == old(tx.Contents())
      ensures !ok ==> at == old(at) && time == old(time) && weather == old(weather)
    {
      var format := if compressed then Uncompressed else Plain;
      ReplySendable(format, reply);
      hide QueueBatch, ReplyItems, RingBuffer.Ring.Contents, AllSendable, Wire, Changed;
      ok := EnqueueBatch(ReplyItems(format, reply));
      if ok {
        Apply(reply.action);
      }
    }

    method Apply(action: Action)
      modifies this`at, this`time, this`weather
      ensures Srv() == Changed(old(Srv()), action)
    {
      match action {
        case Chat =>
        case Teleport(to) => at := to;
        case SetTime(ticks) => time := ticks;
        case SetWeather(w) => weather := w;
      }
    }

    method OnChat(body: seq<byte>, pos: nat) returns (ok: bool)
      requires Ok() && phase == Play
      modifies tx`head, tx`tail, tx`len, tx.data, this`log, this`at, this`time, this`weather
      ensures Ok() && Outcome(ok, Now()) == Perform(c, old(Now()), ReadPlay(1, body, pos))
    {
      hide Execute, ReadString, StringAt, RingBuffer.Ring.Contents, Answer;
      var f := ReadString(body, pos, TEXT_CAP);
      if f.None? {
        return false;
      }
      var message := StringAt(body, f.value);
      var control := ControlIn(message);
      if control || f.value.pos != |body| {
        return false;
      }
      var user, text := TextOf(username), TextOf(message);
      Answered(user, text, at);
      var reply := Answer(user, text, at);
      if reply.None? {
        return false;
      }
      ok := Carry(reply.value);
    }

    method OnPlay(id: nat, body: seq<byte>, pos: nat) returns (ok: bool)
      requires Ok() && phase == Play
      modifies tx`head, tx`tail, tx`len, tx.data, this`log, this`at, this`onGround, this`time, this`weather
      modifies this`keepalivePending
      ensures Ok() && Outcome(ok, Now()) == Perform(c, old(Now()), ReadPlay(id, body, pos))
    {
      hide HandleChat, ReadVarInt, ReadString, StringAt, HasControl, RingBuffer.Ring.Contents, Movement;
      if id == 0 {
        var f := ReadVarInt(body, pos);
        if f.None? || f.value.pos != |body| {
          return false;
        }
        if keepalivePending {
          keepalivePending := false;
        }
        return true;
      }
      if id == 1 {
        ok := OnChat(body, pos);
        return;
      }
      if 3 <= id <= 6 && pos <= |body| {
        ok := Move(id, body[pos..]);
        return;
      }
      return true;
    }

    /** `handle_play_movement`: nothing is stored unless the whole packet reads. */
    method Move(id: nat, m: seq<byte>) returns (ok: bool)
      requires 3 <= id <= 6
      modifies this`at, this`onGround
      ensures ok <==> Movement(old(Srv()), id, m).Some?
      ensures Srv() == if ok then Movement(old(Srv()), id, m).value else old(Srv())
    {
      hide U64, U32;
      if |m| != (if id == 3 then 1 else if id == 4 then 25 else if id == 5 then 9 else 33) {
        return false;
      }
      var p := at;
      if id == 4 || id == 6 {
        p := p.(x := U64(m[0..8]), y := U64(m[8..16]), z := U64(m[16..24]));
      }
      if id == 5 {
        p := p.(yaw := U32(m[0..4]), pitch := U32(m[4..8]));
      } else if id == 6 {
        p := p.(yaw := U32(m[24..28]), pitch := U32(m[28..32]));
      }
      at, onGround := p, m[|m| - 1] != 0;
      return true;
    }

    /** Packet id 0 outside play. */
    method OnGreeting(body: seq<byte>, pos: nat) returns (ok: bool)
      requires Ok()
      modifies this, tx, tx.data
      ensures Ok() && accumLen == old(accumLen)
      ensures Outcome(ok, Now()) == HandleGreeting(c, old(Now()), NextState(body, pos), LoginName(body, pos))
    {
      hide TryHandshake, HandleLogin, NextState, LoginName, StatusBody, RingBuffer.Ring.Contents;
      ghost var before := Srv();
      GreetingResult(before, NextState(body, pos));
      var greeting := Greet(body, pos);
      if greeting.Accepted? {
        var n := tx.Len();
        tx.Drop(n);
        log := [];
        return true;
      }
      if phase == Status {
        ok := Enqueue(Item(FromStatus, Plain, StatusBody()));
      } else if phase == Login {
        ok := OnLogin(body, pos);
      } else {
        ok := false;
      }
    }

    /** `handle_packet` */
    method OnPacket(body: seq<byte>) returns (ok: bool)
      requires Ok()
      modifies this, tx, tx.data
      ensures Ok() && Outcome(ok, Now()) == HandlePacket(c, old(Now()), body)
      ensures accumLen == old(accumLen)
    {
      hide HandleGreeting, ReadPlay, NextState, LoginName, Queue, ReadVarInt, RingBuffer.Ring.Contents;
      var f := ReadVarInt(body, 0);
      if f.None? {
        return false;
      }
      var id, pos := f.value.value, f.value.pos;
      if phase == Play {
        ok := OnPlay(id, body, pos);
      } else if id == 0 {
        ok := OnGreeting(body, pos);
      } else if phase == Status && id == 1 && |body| >= pos + 8 {
        ok := Enqueue(Item(FromStatus, Plain, [0x01] + body[pos..pos + 8]));
      } else {
        ok := true;
      }
    }

    method OnFrame(body: seq<byte>) returns (ok: bool)
      requires Ok()
      modifies this, tx, tx.data
      ensures Ok() && Outcome(ok, Now()) == HandleFrame(c, old(Now()), body)
      ensures accumLen == old(accumLen)
    {
      hide HandlePacket, CompressedBody, RingBuffer.Ring.Contents;
      if !compressed {
        ok := OnPacket(body);
        return;
      }
      var inner := CompressedBody(body);
      if inner.None? || inner.value.dataLen != 0 {
        return false;
      }
      ok := OnPacket(inner.value.body);
    }

    // ----- receiving -----

    method Accumulate(bytes: seq<byte>) returns (ok: bool)
      requires Ok()
      modifies this`accumLen, accum
      ensures Ok()
      ensures ok <==> |old(Rx())| + |bytes| <= MAX_ACCUM
      ensures Rx() == if ok then old(Rx()) + bytes else []
    {
      ghost var start := Rx();
      var i := 0;
      while i < |bytes|
        invariant 0 <= i <= |bytes| && Ok()
        invariant Rx() == start + bytes[..i]
      {
        if accumLen == accum.Length {
          accumLen := 0;
          return false;
        }
        TakeSnoc(bytes, i);
        accum[accumLen] := bytes[i];
        accumLen := accumLen + 1;
        i := i + 1;
      }
      return true;
    }

    method Discard(n: nat)
      requires Ok() && n <= accumLen
      modifies this`accumLen, accum
      ensures Ok() && Rx() == old(Rx())[n..]
    {
      Div64.Move(accum, 0, n, accumLen - n);
      accumLen := accumLen - n;
      assert accum[..accumLen] == accum[0..0 + accumLen];
    }

    /** `mc_server_receive`; the loop ends because every frame it handles shortens the accumulator. */
    method ReceiveBytes(bytes: seq<byte>) returns (ok: bool)
      requires Ok()
      modifies this, tx, tx.data, accum
      ensures Ok() && Received(ok, Now(), Rx()) == Receive(c, old(Now()), old(Rx()), bytes)
    {
      hide HandleFrame, PartialBad, Classify, TryRead, RingBuffer.Ring.Contents;
      ghost var s0 := Now();
      ok := Accumulate(bytes);
      if !ok {
        return;
      }
      ghost var all := Rx();
      while true
        invariant Ok()
        invariant DrainRx(c, Now(), Rx()) == DrainRx(c, s0, all)
        decreases accumLen
      {
        var src := accum[..accumLen];
        var status := ClassifyFrame(src);
        if status.NeedMore? {
          if PartialBad(compressed, src) {
            accumLen := 0;
            return false;
          }
          return true;
        }
        if status.Invalid? {
          accumLen := 0;
          return false;
        }
        var packet := TryRead(src).value;
        ok := OnFrame(packet.body);
        if !ok {
          accumLen := 0;
          return;
        }
        Discard(packet.frameLen);
      }
    }

    // ----- ticking -----

    method NextStage() returns (ok: bool)
      requires Ok() && stage < STAGE_DONE
      modifies tx`head, tx`len, tx.data, this`log, this`stage, this`chunkIndex
      ensures Ok() && Outcome(ok, Now()) == StageStep(c, old(Now()))
    {
      hide Queue, StageItem, RingBuffer.Ring.Contents, Advance;
      QueueKeepsServer(c, Now());
      var item := StageItem(c, Server(phase, compressed, username, lastKeepalive, keepaliveId, keepalivePending, at,
                                      onGround, time, weather, bootstrapSent, stage, chunkIndex, txReset));
      if item.None? {
        return false;
      }
      ok := Enqueue(item.value);
      if ok {
        AdvanceStage();
      }
    }

    method AdvanceStage()
      requires stage < STAGE_DONE
      modifies this`stage, this`chunkIndex
      ensures Srv() == Advance(c, old(Srv()))
    {
      if stage < STAGE_CHUNKS {
        stage := stage + 1;
      } else {
        chunkIndex := chunkIndex + 1;
        if chunkIndex >= |c.chunks| {
          stage := STAGE_DONE;
        }
      }
    }

    method Stages() returns (ok: bool)
      requires Ok()
      modifies tx`head, tx`len, tx.data, this`log, this`stage, this`chunkIndex
      ensures Ok() && Outcome(ok, Now()) == StageLoop(c, old(Now()))
    {
      hide StageStep, RingBuffer.Ring.Contents;
      ghost var s0 := Now();
      while stage < STAGE_DONE
        invariant Ok()
        invariant StageLoop(c, Now()) == StageLoop(c, s0)
        decreases STAGE_DONE - stage
      {
        ghost var before := Now();
        ok := NextStage();
        if !ok {
          return;
        }
        if stage == STAGE_CHUNKS {
          return;
        }
        StageGrows(c, before);
      }
      ok := true;
    }

    /** `tick_keepalive` */
    method KeepAliveTick(now: u32) returns (ok: bool)
      requires Ok()
      modifies tx`head, tx`len, tx.data, this`log, this`keepaliveId, this`keepalivePending, this`lastKeepalive
      ensures Ok() && Outcome(ok, Now()) == TickKeepalive(c, old(Now()), now)
    {
      hide Queue, RingBuffer.Ring.Contents, KeepAliveBody;
      QueueKeepsServer(c, Now());
      if phase != Play || !bootstrapSent {
        return true;
      }
      if lastKeepalive != 0 && (now - lastKeepalive) % 0x1_0000_0000 < KEEPALIVE_INTERVAL {
        return true;
      }
      var id := NextId(keepaliveId);
      ok := Enqueue(Item(KeepAlive(id), if compressed then Uncompressed else Plain, KeepAliveBody(id)));
      if ok {
        keepaliveId, keepalivePending, lastKeepalive := id, true, now;
      }
    }

    /** `mc_server_tick_at` */
    method TickAt(now: u32) returns (ok: bool)
      requires Ok()
      modifies tx`head, tx`len, tx.data, this
      ensures Ok() && Outcome(ok, Now()) == Tick(c, old(Now()), now)
      ensures accumLen == old(accumLen)
    {
      hide StageLoop, TickKeepalive, RingBuffer.Ring.Contents;
      if phase == Play && !bootstrapSent {
        ok := Stages();
        if !ok {
          return;
        }
        if stage >= STAGE_DONE {
          bootstrapSent := true;
        }
      }
      ok := KeepAliveTick(now);
    }
  }

  lemma QueueKeepsServer(c: Config, s: Session)
    ensures forall item :: Queue(c, s, item).s.srv == s.srv
  {
    hide FrameOf, Sendable, Wire;
  }

  /** `bytes_have_c0_control` */
  method ControlIn(bytes: seq<byte>) returns (found: bool)
    ensures found <==> HasControl(bytes)
  {
    var i := 0;
    while i < |bytes|
      invariant 0 <= i <= |bytes| && forall k :: 0 <= k < i ==> bytes[k] >= 0x20
    {
      if bytes[i] < 0x20 {
        return true;
      }
      i := i + 1;
    }
    return false;
  }

  /** A rejected greeting that left the phase alone left everything alone. */
  lemma GreetingResult(srv: Server, next: Option<nat>)
    ensures var (greeting, after) := TryHandshake(srv, next);
            greeting.Rejected? && (after.phase == Status || after.phase == Login) ==> after == srv
  {
  }

  lemma WireNone(start: seq<byte>, items: seq<Item>)
    ensures items[..0] == [] && Wire(items[..0]) == [] && start + Wire(items[..0]) == start
    ensures AllSendable(items[..0])
  {
  }

  lemma StartOf(start: seq<byte>, more: seq<byte>)
    ensures (start + more)[..|start|] == start
  {
  }

  /** The length helpers agree with the frame; 0 means that it cannot be sent. */
  lemma FrameLenIs(item: Item)
    requires !item.format.Deflated?
    ensures FrameLen(item.format, |item.body|) == 0 <==> !Sendable(item.format, item.body)
    ensures Sendable(item.format, item.body) ==> FrameLen(item.format, |item.body|) == |FrameOf(item)|
  {
    FrameLenExact(item.format, item.body);
  }
}
