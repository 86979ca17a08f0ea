/**
  The Minecraft server core as a state machine: handshake, status, login and play, the switch to
  compressed framing, the staged bootstrap, keepalives and command replies. `log` is a history of
  the packets queued since the output was last emptied for a new session.
*/
module Server {
  import opened Bytes
  import opened Packet
  import opened Text
  import opened Commands
  import opened Fixed2
  import VarInt

  const MAX_ACCUM := MAX_BODY + 8
  const MAX_USERNAME := 16
  const COMPRESSION_THRESHOLD := 8192
  const KEEPALIVE_INTERVAL := 720_000_000
  const INT32_MAX := 0x7fff_ffff
  const STAGE_CHUNKS := 6
  const STAGE_DONE := 7

  // ----- state -----

  datatype Phase = Handshake | Status | Login | Play

  /** A deflated map chunk as the flash image holds it. */
  datatype Chunk = Chunk(rawLen: nat, payload: seq<byte>)

  datatype Config = Config(cap: nat, chunks: seq<Chunk>)

  datatype Server = Server(
    phase: Phase,
    compressed: bool,
    username: seq<byte>,
    lastKeepalive: u32,
    keepaliveId: nat,
    keepalivePending: bool,
    at: Position,
    onGround: bool,
    time: nat,
    weather: Weather,
    bootstrapSent: bool,
    stage: nat,
    chunkIndex: nat,
    txReset: bool)

  const BOOTED := Server(Handshake, false, [], 0, 0, false, SPAWN, false, 6000, Clear, false, 0, 0, false)

  /** Why a packet was queued; the bootstrap numbers its packets from 0. */
  datatype Origin = FromStatus | FromLogin | Bootstrap(step: nat) | KeepAlive(id: nat) | Response

  datatype Item = Item(origin: Origin, format: Format, body: seq<byte>)

  datatype Session = Session(srv: Server, tx: seq<byte>, log: seq<Item>)

  datatype Outcome = Outcome(ok: bool, s: Session)

  // ----- the bytes of an item -----

  function FrameOf(item: Item): seq<byte> {
    if Sendable(item.format, item.body) then Frame(item.format, item.body) else []
  }

  function Wire(items: seq<Item>): seq<byte> {
    if items == [] then [] else FrameOf(items[0]) + Wire(items[1..])
  }

  predicate AllSendable(items: seq<Item>) {
    forall i :: 0 <= i < |items| ==> Sendable(items[i].format, items[i].body)
  }

  function Put(s: Session, items: seq<Item>): Session {
    s.(tx := s.tx + Wire(items), log := s.log + items)
  }

  /** `queue_packet_auto` and its relatives: a whole frame or nothing. */
  function Queue(c: Config, s: Session, item: Item): Outcome {
    if !Sendable(item.format, item.body) || c.cap - |s.tx| < |FrameOf(item)| then Outcome(false, s)
    else Outcome(true, Put(s, [item]))
  }

  /** `queue_packet_batch`: all of the frames or none. */
  function QueueBatch(c: Config, s: Session, items: seq<Item>): Outcome {
    if !AllSendable(items) || c.cap - |s.tx| < |Wire(items)| then Outcome(false, s)
    else Outcome(true, Put(s, items))
  }

  function FormatNow(srv: Server): Format {
    if srv.compressed then Uncompressed else Plain
  }

  // ----- packet bodies -----

  function Be(n: nat, v: nat): (r: seq<byte>)
    ensures |r| == n
  {
    if n == 0 then [] else Be(n - 1, v / 0x100) + [v % 0x100]
  }

  function BytesOf(s: string): (r: seq<byte>)
    ensures |r| == |s|
  {
    seq(|s|, i requires 0 <= i < |s| => s[i] as int % 0x100)
  }

  function TextOf(b: seq<byte>): (r: string)
    ensures |r| == |b|
  {
    seq(|b|, i requires 0 <= i < |b| => b[i] as char)
  }

  /** `mc_write_string` */
  function Str(b: seq<byte>): (r: seq<byte>)
    requires |b| < 0x8000
    ensures |r| <= |b| + 3
  {
    VarInt.EncodeLength(|b|);
    VarInt.Encode(|b|) + b
  }

  const STATUS_JSON :=
    "{\"version\":{\"name\":\"1.8.x\",\"protocol\":47},\"players\":{\"max\":1,\"online\":0},"
    + "\"description\":{\"text\":\"MC UART\"}}"

  function StatusBody(): seq<byte> {
    [0x00] + Str(BytesOf(STATUS_JSON))
  }

  function SetCompressionBody(): seq<byte> {
    [0x03] + VarInt.Encode(COMPRESSION_THRESHOLD)
  }

  function LoginSuccessBody(user: Name): seq<byte> {
    [0x02] + Str(BytesOf("00000000-0000-0000-0000-000000000001")) + Str(user)
  }

  function JoinGameBody(): seq<byte> {
    [0x01] + Be(4, 1) + [1, 0, 0, 1] + Str(BytesOf("flat")) + [0]
  }

  function SpawnPositionBody(): seq<byte> {
    [0x05] + Be(8, 0)
  }

  function TimeBody(time: nat): seq<byte> {
    [0x03] + Be(8, 0) + Be(8, time)
  }

  /** 20.0f, 20 and 5.0f. */
  function HealthBody(): seq<byte> {
    [0x06] + Be(4, 0x41a0_0000) + [20] + Be(4, 0x40a0_0000)
  }

  /** 0.05f and 0.1f. */
  function AbilitiesBody(): seq<byte> {
    [0x39, 0x0f] + Be(4, 0x3d4c_cccd) + Be(4, 0x3dcc_cccd)
  }

  function PositionBody(p: Position): seq<byte> {
    [0x08] + Be(8, p.x) + Be(8, p.y) + Be(8, p.z) + Be(4, p.yaw) + Be(4, p.pitch) + [0]
  }

  function GameStateBody(reason: byte, value: u32): seq<byte> {
    [0x2b, reason] + Be(4, value)
  }

  function KeepAliveBody(id: nat): seq<byte>
    requires id <= INT32_MAX
  {
    [0x00] + VarInt.Encode(id)
  }

  function ChatBody(text: string): seq<byte>
    requires |text| < TEXT_CAP
  {
    EscapeLength(text);
    [0x02] + Str(BytesOf(ChatJson(text))) + [0]
  }

  // ----- reading fields -----

  datatype Field = Field(value: nat, pos: nat)

  function ReadVarInt(body: seq<byte>, pos: nat): (f: Option<Field>)
    ensures f.Some? ==> pos < f.value.pos <= |body|
  {
    if pos >= |body| then None
    else match VarInt.Decode(body[pos..])
      case None => None
      case Some(d) => Some(Field(d.value, pos + d.used))
  }

  /** `read_string_body`; the field's value is its length. */
  function ReadString(body: seq<byte>, pos: nat, cap: nat): (f: Option<Field>)
    ensures f.Some? ==> f.value.value < cap && f.value.value <= f.value.pos <= |body|
  {
    match ReadVarInt(body, pos)
    case None => None
    case Some(f) =>
      if f.value >= cap || f.pos + f.value > |body| then None else Some(Field(f.value, f.pos + f.value))
  }

  function StringAt(body: seq<byte>, f: Field): (r: seq<byte>)
    requires f.value <= f.pos <= |body|
    ensures |r| == f.value
  {
    body[f.pos - f.value..f.pos]
  }

  /** A C string ends at the first NUL. */
  function CString(b: seq<byte>): (r: seq<byte>)
    ensures |r| <= |b|
  {
    if b == [] || b[0] == 0 then [] else [b[0]] + CString(b[1..])
  }

  // ----- what a packet asks for -----

  type Name = s: seq<byte> | |s| <= MAX_USERNAME
  type ChatBytes = s: seq<byte> | |s| < TEXT_CAP
  type PingBytes = s: seq<byte> | |s| == 8 witness [0, 0, 0, 0, 0, 0, 0, 0]

  /** A packet by its fields. Id 0 outside play can be a handshake, a status request or a Login Start. */
  datatype Request =
    | Malformed
    | Hello(next: Option<nat>, name: Option<Name>)
    | Ping(payload: PingBytes)
    | KeepAliveAnswer
    | ChatLine(message: ChatBytes)
    | Moved(id: nat, fields: seq<byte>)
    | Ignored

  predicate HasControl(b: seq<byte>) {
    exists i :: 0 <= i < |b| && b[i] < 0x20
  }

  /** The next-state field of a well-formed handshake packet. */
  function NextState(body: seq<byte>, pos: nat): Option<nat> {
    match ReadVarInt(body, pos)
    case None => None
    case Some(proto) =>
      match ReadString(body, proto.pos, 256)
      case None => None
      case Some(host) =>
        match ReadVarInt(body, host.pos + 2)
        case None => None
        case Some(next) => if next.pos != |body| then None else Some(next.value)
  }

  /** The name field of a Login Start. */
  function LoginName(body: seq<byte>, pos: nat): Option<Name> {
    match ReadString(body, pos, MAX_USERNAME + 1)
    case None => None
    case Some(f) => Some(CString(StringAt(body, f)))
  }

  function ReadPlay(id: nat, body: seq<byte>, pos: nat): (r: Request)
    ensures Proper(Play, r)
  {
    if id == 0 then
      var f := ReadVarInt(body, pos);
      if f.None? || f.value.pos != |body| then Malformed else KeepAliveAnswer
    else if id == 1 then
      var f := ReadString(body, pos, TEXT_CAP);
      if f.None? || HasControl(StringAt(body, f.value)) || f.value.pos != |body| then Malformed
      else ChatLine(StringAt(body, f.value))
    else if 3 <= id <= 6 && pos <= |body| then Moved(id, body[pos..])
    else Ignored
  }

  function ReadRequest(phase: Phase, body: seq<byte>): (r: Request)
    ensures Proper(phase, r)
  {
    match ReadVarInt(body, 0)
    case None => Malformed
    case Some(f) =>
      if phase == Play then ReadPlay(f.value, body, f.pos)
      else if f.value == 0 then Hello(NextState(body, f.pos), LoginName(body, f.pos))
      else if phase == Status && f.value == 1 && |body| >= f.pos + 8 then Ping(body[f.pos..f.pos + 8])
      else Ignored
  }

  /** Which requests a phase knows. */
  predicate Proper(phase: Phase, r: Request) {
    match r
    case Hello(_, _) => phase != Play
    case Ping(_) => phase == Status
    case KeepAliveAnswer => phase == Play
    case ChatLine(_) => phase == Play
    case Moved(id, _) => phase == Play && 3 <= id <= 6
    case _ => true
  }

  // ----- handshake -----

  /** `reset_logical_session` */
  const RESET := BOOTED.(txReset := true)

  datatype Greeting = Accepted | Rejected

  /** `try_handle_handshake`. An unknown next state still resets the session before it is rejected. */
  function TryHandshake(srv: Server, next: Option<nat>): (Greeting, Server) {
    match next
    case None => (Rejected, srv)
    case Some(n) =>
      if n == 1 then (Accepted, RESET.(phase := Status))
      else if n == 2 then (Accepted, RESET.(phase := Login))
      else (Rejected, RESET)
  }

  /** An accepted handshake starts over with an empty output. */
  function NewSession(srv: Server): Session {
    Session(srv, [], [])
  }

  // ----- play -----

  function U64(b: seq<byte>): u64
    requires |b| == 8
  {
    0x1_0000_0000 * U32(b[..4]) + U32(b[4..])
  }

  function U32(b: seq<byte>): u32
    requires |b| == 4
  {
    0x100_0000 * b[0] as int + 0x1_0000 * b[1] as int + 0x100 * b[2] as int + b[3]
  }

  /** `handle_play_movement`: each packet has exactly one legal length. */
  function Movement(srv: Server, id: nat, m: seq<byte>): Option<Server>
    requires 3 <= id <= 6
  {
    if |m| != (if id == 3 then 1 else if id == 4 then 25 else if id == 5 then 9 else 33) then None
    else
      var p := srv.at;
      var moved := if id == 4 || id == 6 then p.(x := U64(m[0..8]), y := U64(m[8..16]), z := U64(m[16..24])) else p;
      var turned :=
        if id == 5 then moved.(yaw := U32(m[0..4]), pitch := U32(m[4..8]))
        else if id == 6 then moved.(yaw := U32(m[24..28]), pitch := U32(m[28..32]))
        else moved;
      Some(srv.(at := turned, onGround := m[|m| - 1] != 0))
  }

  function GameStates(weather: Weather): seq<seq<byte>> {
    var one := 0x3f80_0000;
    match weather
    case Clear => [GameStateBody(1, 0), GameStateBody(7, 0), GameStateBody(8, 0)]
    case Rain => [GameStateBody(2, 0), GameStateBody(7, one), GameStateBody(8, 0)]
    case Thunder => [GameStateBody(2, 0), GameStateBody(7, one), GameStateBody(8, one)]
  }

  /** The packets a reply is made of: the change, if any, and then the chat line. */
  function ReplyItems(format: Format, reply: Reply): seq<Item>
    requires |reply.text| < TEXT_CAP
  {
    var chat := Item(Response, format, ChatBody(reply.text));
    match reply.action
    case Chat => [chat]
    case Teleport(to) => [Item(Response, format, PositionBody(to)), chat]
    case SetTime(ticks) => [Item(Response, format, TimeBody(ticks)), chat]
    case SetWeather(weather) =>
      var g := GameStates(weather);
      [Item(Response, format, g[0]), Item(Response, format, g[1]), Item(Response, format, g[2]), chat]
  }

  function Changed(srv: Server, action: Action): Server {
    match action
    case Chat => srv
    case Teleport(to) => srv.(at := to)
    case SetTime(ticks) => srv.(time := ticks)
    case SetWeather(weather) => srv.(weather := weather)
  }

  /** `execute_command_result` */
  function Execute(c: Config, s: Session, reply: Reply): Outcome
    requires |reply.text| < TEXT_CAP
  {
    var o := QueueBatch(c, s, ReplyItems(FormatNow(s.srv), reply));
    if o.ok then Outcome(true, o.s.(srv := Changed(o.s.srv, reply.action))) else o
  }

  /** A serverbound chat packet. */
  function HandleChat(c: Config, s: Session, message: ChatBytes): Outcome {
    var user, text := TextOf(s.srv.username), TextOf(message);
    Answered(user, text, s.srv.at);
    match Answer(user, text, s.srv.at)
    case None => Outcome(false, s)
    case Some(reply) => Execute(c, s, reply)
  }

  function HandleMovement(s: Session, id: nat, fields: seq<byte>): Outcome
    requires 3 <= id <= 6
  {
    match Movement(s.srv, id, fields)
    case None => Outcome(false, s)
    case Some(srv) => Outcome(true, s.(srv := srv))
  }

  // ----- status and login -----

  function LoginItems(user: Name): seq<Item> {
    [Item(FromLogin, Plain, SetCompressionBody()), Item(FromLogin, Uncompressed, LoginSuccessBody(user))]
  }

  /** Login Start: Set Compression and Login Success are queued together or not at all. */
  function HandleLogin(c: Config, s: Session, name: Option<Name>): Outcome {
    if name.None? || name.value == [] then Outcome(false, s)
    else
      var o := QueueBatch(c, s, LoginItems(name.value));
      if o.ok then Outcome(true, o.s.(srv := s.srv.(phase := Play, compressed := true, username := name.value)))
      else o
  }

  /** Packet id 0 outside play: a handshake if it reads as one, else the phase's own packet. */
  function HandleGreeting(c: Config, s: Session, next: Option<nat>, name: Option<Name>): Outcome {
    var (greeting, srv) := TryHandshake(s.srv, next);
    if greeting.Accepted? then Outcome(true, NewSession(srv))
    else if srv.phase == Status then Queue(c, s, Item(FromStatus, Plain, StatusBody()))
    else if srv.phase == Login then HandleLogin(c, s, name)
    else Outcome(false, s.(srv := srv))
  }

  /** What the server does about a request. */
  function Perform(c: Config, s: Session, r: Request): Outcome
    requires Proper(s.srv.phase, r)
  {
    match r
    case Malformed => Outcome(false, s)
    case Hello(next, name) => HandleGreeting(c, s, next, name)
    case Ping(payload) => Queue(c, s, Item(FromStatus, Plain, [0x01] + payload))
    case KeepAliveAnswer => Outcome(true, s.(srv := s.srv.(keepalivePending := false)))
    case ChatLine(message) => HandleChat(c, s, message)
    case Moved(id, fields) => HandleMovement(s, id, fields)
    case Ignored => Outcome(true, s)
  }

  /** `handle_packet` */
  function HandlePacket(c: Config, s: Session, body: seq<byte>): Outcome {
    Perform(c, s, ReadRequest(s.srv.phase, body))
  }

  /** One complete frame: once compression is on, packets must come uncompressed inside it. */
  function HandleFrame(c: Config, s: Session, body: seq<byte>): Outcome {
    if !s.srv.compressed then HandlePacket(c, s, body)
    else match CompressedBody(body)
      case None => Outcome(false, s)
      case Some(inner) => if inner.dataLen != 0 then Outcome(false, s) else HandlePacket(c, s, inner.body)
  }

  // ----- receiving -----

  predicate BadId(b: seq<byte>) {
    match VarInt.Decode(b)
    case None => |b| >= 5
    case Some(d) => d.value > 0x7f
  }

  /** `partial_frame_has_invalid_packet_id` */
  predicate PartialBad(compressed: bool, rx: seq<byte>) {
    match VarInt.Decode(rx)
    case None => false
    case Some(d) =>
      if d.value > MAX_BODY then true
      else if |rx| <= d.used then false
      else if !compressed then BadId(rx[d.used..])
      else match VarInt.Decode(rx[d.used..])
        case None => |rx| - d.used >= 5
        case Some(e) =>
          if e.value != 0 then true
          else if |rx| - d.used <= e.used then false
          else BadId(rx[d.used + e.used..])
  }

  datatype Received = Received(ok: bool, s: Session, rx: seq<byte>)

  /** The loop of `mc_server_receive` over its accumulator. */
  function DrainRx(c: Config, s: Session, rx: seq<byte>): Received
    decreases |rx|
  {
    match Classify(rx)
    case NeedMore => if PartialBad(s.srv.compressed, rx) then Received(false, s, []) else Received(true, s, rx)
    case Invalid => Received(false, s, [])
    case Ready(n) =>
      ReadyReads(rx, n);
      var o := HandleFrame(c, s, TryRead(rx).value.body);
      if o.ok then DrainRx(c, o.s, rx[n..]) else Received(false, o.s, [])
  }

  /** `mc_server_receive` */
  function Receive(c: Config, s: Session, rx: seq<byte>, bytes: seq<byte>): Received {
    if |rx| + |bytes| > MAX_ACCUM then Received(false, s, []) else DrainRx(c, s, rx + bytes)
  }

  // ----- ticking -----

  predicate ChunkValid(chunk: Chunk) {
    && 0 < chunk.rawLen <= MAX_BODY
    && 0 < |chunk.payload|
    && |VarInt.Encode(chunk.rawLen)| + |chunk.payload| <= MAX_BODY
  }

  function StageBody(srv: Server): seq<byte>
    requires srv.stage < STAGE_CHUNKS
  {
    match srv.stage
    case 0 => JoinGameBody()
    case 1 => SpawnPositionBody()
    case 2 => TimeBody(srv.time)
    case 3 => HealthBody()
    case 4 => AbilitiesBody()
    case _ => PositionBody(srv.at)
  }

  /** The packet the current stage wants to send. Chunks go out in compressed format only. */
  function StageItem(c: Config, srv: Server): Option<Item>
    requires srv.stage < STAGE_DONE
  {
    if srv.stage < STAGE_CHUNKS then Some(Item(Bootstrap(srv.stage), FormatNow(srv), StageBody(srv)))
    else if srv.compressed && srv.chunkIndex < |c.chunks| && ChunkValid(c.chunks[srv.chunkIndex]) then
      var chunk := c.chunks[srv.chunkIndex];
      Some(Item(Bootstrap(STAGE_CHUNKS + srv.chunkIndex), Deflated(chunk.rawLen), chunk.payload))
    else None
  }

  function Advance(c: Config, srv: Server): Server
    requires srv.stage < STAGE_DONE
  {
    if srv.stage < STAGE_CHUNKS then srv.(stage := srv.stage + 1)
    else if srv.chunkIndex + 1 < |c.chunks| then srv.(chunkIndex := srv.chunkIndex + 1)
    else srv.(chunkIndex := srv.chunkIndex + 1, stage := STAGE_DONE)
  }

  function StageStep(c: Config, s: Session): Outcome
    requires s.srv.stage < STAGE_DONE
  {
    match StageItem(c, s.srv)
    case None => Outcome(false, s)
    case Some(item) =>
      var o := Queue(c, s, item);
      if o.ok then Outcome(true, o.s.(srv := Advance(c, s.srv))) else o
  }

  /** The bootstrap loop of `mc_server_tick_at`: it stops in front of, and after, every chunk. */
  function StageLoop(c: Config, s: Session): Outcome
    decreases STAGE_DONE - s.srv.stage
  {
    if s.srv.stage >= STAGE_DONE then Outcome(true, s)
    else
      var o := StageStep(c, s);
      if !o.ok || o.s.srv.stage == STAGE_CHUNKS then o else StageLoop(c, o.s)
  }

  function NextId(id: nat): (r: nat)
    ensures 1 <= r <= INT32_MAX
  {
    if id >= INT32_MAX then 1 else id + 1
  }

  /** `tick_keepalive` */
  function TickKeepalive(c: Config, s: Session, now: u32): Outcome {
    var srv := s.srv;
    if srv.phase != Play || !srv.bootstrapSent then Outcome(true, s)
    else if srv.lastKeepalive != 0 && (now - srv.lastKeepalive) % 0x1_0000_0000 < KEEPALIVE_INTERVAL
    then Outcome(true, s)
    else
      var id := NextId(srv.keepaliveId);
      var o := Queue(c, s, Item(KeepAlive(id), FormatNow(srv), KeepAliveBody(id)));
      if o.ok then Outcome(true, o.s.(srv := srv.(keepaliveId := id, keepalivePending := true, lastKeepalive := now)))
      else o
  }

  /** `mc_server_tick_at` */
  function Tick(c: Config, s: Session, now: u32): Outcome {
    if s.srv.phase == Play && !s.srv.bootstrapSent then
      var o := StageLoop(c, s);
      if !o.ok then o
      else if o.s.srv.stage >= STAGE_DONE then TickKeepalive(c, o.s.(srv := o.s.srv.(bootstrapSent := true)), now)
      else TickKeepalive(c, o.s, now)
    else TickKeepalive(c, s, now)
  }
}
