/**
  What arrives on the byte stream. In play every packet comes inside a compressed-format frame with
  data length 0; outside play it comes as it is. Each packet of a client that follows the protocol is
  given by its fields, and what a receive call makes of its bytes is stated.
*/
module ServerStream {
  import opened Bytes
  import opened Packet
  import opened Commands
  import opened Fixed2
  import opened Server
  import DecimalLoops
  import opened ServerReads
  import opened ClientView
  import opened Decimal
  import opened Text
  import ServerFolds
  import ServerRuns
  import VarInt

  // ----- one frame -----

  /** A complete frame is handled and taken off the stream; if it fails, so does the call. */
  lemma FrameTaken(c: Config, s: Session, inner: seq<byte>, rest: seq<byte>)
    requires |inner| <= MAX_BODY
    ensures var o := HandleFrame(c, s, inner);
            DrainRx(c, s, Framed(inner) + rest) == if o.ok then DrainRx(c, o.s, rest) else Received(false, o.s, [])
  {
    hide HandleFrame, Classify, TryRead, PartialBad;
    ReadFramed(inner, rest);
    assert (Framed(inner) + rest)[|Framed(inner)|..] == rest;
  }

  lemma ZeroFirst(body: seq<byte>)
    requires |body| < MAX_BODY
    ensures Frame(Uncompressed, body) == Framed([0] + body)
    ensures CompressedBody([0] + body) == Some(Compressed(0, body))
  {
    CompressedReads(Uncompressed, body);
  }

  /** With compression on, a data length of 0 is read off and the packet behind it is handled. */
  lemma UncompressedTaken(c: Config, s: Session, body: seq<byte>, rest: seq<byte>)
    requires s.srv.compressed && |body| < MAX_BODY
    ensures var o := HandlePacket(c, s, body);
            DrainRx(c, s, Frame(Uncompressed, body) + rest)
            == if o.ok then DrainRx(c, o.s, rest) else Received(false, o.s, [])
  {
    hide HandlePacket, CompressedBody, DrainRx, Frame, Framed;
    ZeroFirst(body);
    FrameTaken(c, s, [0] + body, rest);
  }

  /** With compression on, any other data length is refused, and nothing else happens. */
  lemma DeflatedRefused(c: Config, s: Session, dataLength: u32, body: seq<byte>, rest: seq<byte>)
    requires s.srv.compressed && dataLength != 0 && |VarInt.Encode(dataLength) + body| <= MAX_BODY
    ensures DrainRx(c, s, Framed(VarInt.Encode(dataLength) + body) + rest) == Received(false, s, [])
  {
    VarInt.DecodeEncode(dataLength, body);
    hide HandlePacket, DrainRx, VarInt.Encode, VarInt.Decode, Framed;
    FrameTaken(c, s, VarInt.Encode(dataLength) + body, rest);
  }

  /** And so is a frame whose data length is missing or cannot be read. */
  lemma NoDataLengthRefused(c: Config, s: Session, inner: seq<byte>, rest: seq<byte>)
    requires s.srv.compressed && |inner| <= MAX_BODY
    requires forall i :: 0 <= i < |inner| && i < 5 ==> inner[i] >= 0x80
    ensures DrainRx(c, s, Framed(inner) + rest) == Received(false, s, [])
  {
    NoEnd(inner);
    hide HandlePacket, DrainRx, VarInt.Groups, Framed;
    FrameTaken(c, s, inner, rest);
  }

  /** With compression off, the frame is the packet. */
  lemma PlainTaken(c: Config, s: Session, body: seq<byte>, rest: seq<byte>)
    requires !s.srv.compressed && |body| <= MAX_BODY
    ensures var o := HandlePacket(c, s, body);
            DrainRx(c, s, Frame(Plain, body) + rest)
            == if o.ok then DrainRx(c, o.s, rest) else Received(false, o.s, [])
  {
    hide HandlePacket, CompressedBody, DrainRx;
    FrameTaken(c, s, body, rest);
  }

  /** The call that brings exactly one packet, in the format of the phase. */
  function Arrival(c: Config, s: Session, body: seq<byte>): Received
    requires |body| < MAX_BODY
  {
    Receive(c, s, [], Frame(FormatNow(s.srv), body))
  }

  lemma OnePacket(c: Config, s: Session, body: seq<byte>)
    requires |body| < MAX_BODY
    ensures var o := HandlePacket(c, s, body); Arrival(c, s, body) == Received(o.ok, o.s, [])
  {
    hide HandlePacket, CompressedBody, PartialBad, Classify, TryRead, HandleFrame;
    var frame := Frame(FormatNow(s.srv), body);
    VarInt.EncodeLength(|Inner(FormatNow(s.srv), body)|);
    assert [] + frame == frame && frame + [] == frame;
    UncompressedOrPlain(c, s, body);
    var o := HandlePacket(c, s, body);
    ServerFolds.NothingPartial(o.s.srv.compressed);
  }

  lemma UncompressedOrPlain(c: Config, s: Session, body: seq<byte>)
    requires |body| < MAX_BODY
    ensures var o := HandlePacket(c, s, body);
            DrainRx(c, s, Frame(FormatNow(s.srv), body) + [])
            == if o.ok then DrainRx(c, o.s, []) else Received(false, o.s, [])
  {
    hide HandlePacket, DrainRx, Frame;
    if s.srv.compressed {
      UncompressedTaken(c, s, body, []);
    } else {
      PlainTaken(c, s, body, []);
    }
  }

  // ----- in play -----

  ghost predicate InPlay(s: Session) {
    s.srv.phase == Play && s.srv.compressed
  }

  /** The packet id is read off the front, whatever its size. */
  lemma IdRead(id: u32, rest: seq<byte>)
    ensures var body, e := VarInt.Encode(id) + rest, VarInt.Encode(id);
            ReadVarInt(body, 0) == Some(Field(id, |e|)) && |e| <= |body| && body[|e|..] == rest
  {
    hide ReadVarInt, VarInt.Encode;
    ReadAt([], id, rest);
    assert [] + VarInt.Encode(id) + rest == VarInt.Encode(id) + rest && [] + VarInt.Encode(id) == VarInt.Encode(id);
  }

  /** The answer to a keepalive clears the pending one; a byte too many, and it is refused. */
  lemma KeepAliveArrives(c: Config, s: Session, id: u32)
    requires InPlay(s)
    ensures |[0x00] + VarInt.Encode(id)| <= 6
    ensures Arrival(c, s, [0x00] + VarInt.Encode(id))
         == Received(true, s.(srv := s.srv.(keepalivePending := false)), [])
    ensures forall b: byte :: Arrival(c, s, [0x00] + VarInt.Encode(id) + [b]) == Received(false, s, [])
  {
    VarInt.EncodeLength(id);
    var e := VarInt.Encode(id);
    hide VarInt.Encode, Arrival, ReadVarInt;
    KeepAliveParts(id, []);
    assert [0x00] + e + [] == [0x00] + e;
    OnePacket(c, s, [0x00] + e);
    forall b: byte ensures Arrival(c, s, [0x00] + e + [b]) == Received(false, s, []) {
      KeepAliveParts(id, [b]);
      OnePacket(c, s, [0x00] + e + [b]);
    }
  }

  lemma KeepAliveParts(id: u32, rest: seq<byte>)
    ensures ReadRequest(Play, [0x00] + VarInt.Encode(id) + rest) == if rest == [] then KeepAliveAnswer else Malformed
  {
    OneByte(0);
    hide ReadVarInt, VarInt.Encode;
    var e := VarInt.Encode(id);
    assert [0x00] + e + rest == [0x00] + (e + rest);
    IdRead(0, e + rest);
    ReadAt([0x00], id, rest);
  }

  /** Ids the server has no use for are passed over, whatever comes with them. */
  lemma OthersIgnored(c: Config, s: Session, id: u32, fields: seq<byte>)
    requires InPlay(s) && |VarInt.Encode(id)| + |fields| < MAX_BODY
    requires id !in {0x00, 0x01, 0x03, 0x04, 0x05, 0x06}
    ensures Arrival(c, s, VarInt.Encode(id) + fields) == Received(true, s, [])
  {
    hide VarInt.Encode, Arrival, ReadVarInt;
    IdRead(id, fields);
    OnePacket(c, s, VarInt.Encode(id) + fields);
  }

  lemma MovedParts(id: byte, fields: seq<byte>)
    requires 3 <= id <= 6
    ensures ReadRequest(Play, [id] + fields) == Moved(id, fields)
  {
    OneByte(id);
    hide ReadVarInt, VarInt.Encode;
    IdRead(id, fields);
  }

  /** The movement a packet asks for, or a refusal. */
  lemma MovementArrives(c: Config, s: Session, id: byte, fields: seq<byte>)
    requires InPlay(s) && 3 <= id <= 6 && |fields| < MAX_BODY - 1
    ensures Arrival(c, s, [id] + fields)
         == match Movement(s.srv, id, fields)
            case None => Received(false, s, [])
            case Some(srv) => Received(true, s.(srv := srv), [])
  {
    hide Movement, Arrival, ReadRequest;
    MovedParts(id, fields);
    OnePacket(c, s, [id] + fields);
  }

  /**
    Each movement packet, laid out by its fields, stores exactly the fields it carries and keeps the
    others.
  */
  lemma MovementsStored(c: Config, s: Session, p: Position, ground: bool)
    requires InPlay(s)
    ensures var at, f := s.srv.at, Flag(ground);
            var moved, turned := at.(x := p.x, y := p.y, z := p.z), at.(yaw := p.yaw, pitch := p.pitch);
            && Arrival(c, s, [0x03] + f) == Received(true, s.(srv := s.srv.(onGround := ground)), [])
            && Arrival(c, s, [0x04] + (PointBytes(p) + f))
               == Received(true, s.(srv := s.srv.(at := moved, onGround := ground)), [])
            && Arrival(c, s, [0x05] + (AngleBytes(p) + f))
               == Received(true, s.(srv := s.srv.(at := turned, onGround := ground)), [])
            && Arrival(c, s, [0x06] + (PointBytes(p) + AngleBytes(p) + f))
               == Received(true, s.(srv := s.srv.(at := p, onGround := ground)), [])
  {
    hide Movement, Arrival, Be, Flag;
    MovementUnderstood(s.srv, p, ground);
    var f := Flag(ground);
    assert |f| == 1 by { FlagLength(ground); }
    MovementArrives(c, s, 0x03, f);
    MovementArrives(c, s, 0x04, PointBytes(p) + f);
    MovementArrives(c, s, 0x05, AngleBytes(p) + f);
    MovementArrives(c, s, 0x06, PointBytes(p) + AngleBytes(p) + f);
  }

  lemma FlagLength(ground: bool)
    ensures |Flag(ground)| == 1
  {
  }

  /** A movement packet of any other length changes nothing and fails the call. */
  lemma MovementsRefused(c: Config, s: Session, id: byte, fields: seq<byte>)
    requires InPlay(s) && 3 <= id <= 6 && |fields| < MAX_BODY - 1
    requires |fields| != map[3 := 1, 4 := 25, 5 := 9, 6 := 33][id]
    ensures Arrival(c, s, [id] + fields) == Received(false, s, [])
  {
    hide Arrival;
    MovementArrives(c, s, id, fields);
  }

  // ----- chat and commands -----

  function ChatPacket(message: ChatBytes): seq<byte> {
    [0x01] + Str(message)
  }

  lemma ChatArrives(c: Config, s: Session, message: ChatBytes)
    requires InPlay(s) && !HasControl(message)
    ensures |ChatPacket(message)| < MAX_BODY
    ensures var reply := Answer(TextOf(s.srv.username), TextOf(message), s.srv.at);
            var r := Arrival(c, s, ChatPacket(message));
            && (reply.None? ==> r == Received(false, s, []))
            && (reply.Some? ==>
                  && |reply.value.text| < TEXT_CAP
                  && var o := Execute(c, s, reply.value); r == Received(o.ok, o.s, []))
  {
    VarInt.EncodeLength(|message|);
    hide Answer, Execute, HandlePacket, Str, HasControl, Arrival;
    ChatUnderstood(c, s, message);
    OnePacket(c, s, ChatPacket(message));
  }

  /**
    Chat the server does not accept: with control bytes, of 160 bytes or more, or with bytes behind it.
    It fails the call and changes nothing.
  */
  lemma ChatRefused(c: Config, s: Session, text: seq<byte>, more: seq<byte>)
    requires InPlay(s) && |text| + |more| < MAX_BODY - 4
    requires HasControl(text) || |text| >= TEXT_CAP || more != []
    ensures |[0x01] + Str(text) + more| < MAX_BODY
    ensures Arrival(c, s, [0x01] + Str(text) + more) == Received(false, s, [])
  {
    StrRoom(text);
    hide Arrival, ReadRequest, Str, HasControl;
    BadChat(text, more);
    OnePacket(c, s, [0x01] + Str(text) + more);
  }

  lemma StrRoom(text: seq<byte>)
    requires |text| < 0x8000
    ensures |Str(text)| <= |text| + 3
  {
  }

  lemma BadChat(text: seq<byte>, more: seq<byte>)
    requires |text| < 0x8000 && (HasControl(text) || |text| >= TEXT_CAP || more != [])
    ensures ReadRequest(Play, [0x01] + Str(text) + more) == Malformed
  {
    OneByte(1);
    hide VarInt.Encode, HasControl, ReadVarInt;
    assert [0x01] + Str(text) + more == [0x01] + (Str(text) + more);
    IdRead(1, Str(text) + more);
    if |text| < TEXT_CAP {
      ReadStringAt([0x01], text, more, TEXT_CAP);
      hide ReadString, StringAt, Str;
    } else {
      ReadAt([0x01], |text|, text + more);
      assert [0x01] + Str(text) + more == [0x01] + VarInt.Encode(|text|) + (text + more);
      hide Str;
    }
  }

  /** Room in the output that is enough for any reply. */
  const REPLY_ROOM := 1200

  lemma FrameRoom(body: seq<byte>)
    requires |body| < MAX_BODY
    ensures |FrameOf(Item(Response, Uncompressed, body))| <= |body| + 6
  {
    VarInt.EncodeLength(1 + |body|);
  }

  lemma WireTwo(a: Item, b: Item)
    ensures Wire([a, b]) == FrameOf(a) + FrameOf(b)
  {
    hide FrameOf;
    ServerRuns.WireOne(b);
    assert [a, b][1..] == [b];
  }

  lemma WireFour(a: Item, b: Item, d: Item, e: Item)
    ensures |Wire([a, b, d, e])| == |FrameOf(a)| + |FrameOf(b)| + |FrameOf(d)| + |FrameOf(e)|
  {
    hide FrameOf;
    WireTwo(d, e);
    assert [a, b, d, e][1..] == [b, d, e] && [b, d, e][1..] == [d, e];
    assert Wire([b, d, e]) == FrameOf(b) + Wire([d, e]);
  }

  lemma ReplyRoom(reply: Reply)
    requires |reply.text| < TEXT_CAP
    ensures |Wire(ReplyItems(Uncompressed, reply))| <= REPLY_ROOM
  {
    ServerRuns.ChatFits(reply.text);
    hide Wire, FrameOf, ChatBody, Be;
    var chat := Item(Response, Uncompressed, ChatBody(reply.text));
    FrameRoom(chat.body);
    match reply.action
    case Chat => ServerRuns.WireOne(chat);
    case Teleport(to) =>
      FrameRoom(PositionBody(to));
      WireTwo(Item(Response, Uncompressed, PositionBody(to)), chat);
    case SetTime(ticks) =>
      FrameRoom(TimeBody(ticks));
      WireTwo(Item(Response, Uncompressed, TimeBody(ticks)), chat);
    case SetWeather(weather) =>
      var g := GameStates(weather);
      GameStateRoom(weather);
      FrameRoom(g[0]);
      FrameRoom(g[1]);
      FrameRoom(g[2]);
      WireFour(Item(Response, Uncompressed, g[0]), Item(Response, Uncompressed, g[1]),
               Item(Response, Uncompressed, g[2]), chat);
  }

  lemma GameStateRoom(weather: Weather)
    ensures var g := GameStates(weather); |g| == 3 && |g[0]| == 6 && |g[1]| == 6 && |g[2]| == 6
  {
    hide Be;
  }

  /** What the client sees of some queued packets. */
  function Watched(items: seq<Item>): seq<Option<Seen>> {
    seq(|items|, i requires 0 <= i < |items| => See(items[i].body))
  }

  /** What the client should see of a reply: the change, as its packets, and then the text. */
  ghost predicate ShowsReply(seen: seq<Option<Seen>>, action: Action, text: string) {
    match action
    case Chat => seen == [Some(Said(text))]
    case Teleport(to) => seen == [Some(Placed(to)), Some(Said(text))]
    case SetTime(ticks) => ticks < 0x1_0000_0000 && seen == [Some(TimeIs(0, ticks)), Some(Said(text))]
    case SetWeather(weather) =>
      && |seen| == 4 && seen[0].Some? && seen[1].Some? && seen[2].Some? && seen[3] == Some(Said(text))
      && forall sky ::
           Weathered(Weathered(Weathered(sky, seen[0].value), seen[1].value), seen[2].value) == SkyOf(weather)
  }

  lemma ReplyShown(reply: Reply)
    requires |reply.text| < TEXT_CAP && forall i :: 0 <= i < |reply.text| ==> reply.text[i] as int < 0x100
    requires reply.action.SetTime? ==> reply.action.ticks < 0x1_0000_0000
    ensures ShowsReply(Watched(ReplyItems(Uncompressed, reply)), reply.action, reply.text)
  {
    hide See, ChatBody, PositionBody, TimeBody, GameStates, Weathered, SkyOf;
    ChatSeen(reply.text);
    match reply.action
    case Chat =>
    case Teleport(to) => PositionSeen(to);
    case SetTime(ticks) => TimeSeen(ticks);
    case SetWeather(weather) =>
      forall sky: Sky
        ensures var g := GameStates(weather);
                && |g| == 3 && See(g[0]).Some? && See(g[1]).Some? && See(g[2]).Some?
                && Weathered(Weathered(Weathered(sky, See(g[0]).value), See(g[1]).value), See(g[2]).value)
                   == SkyOf(weather)
      {
        SkySeen(sky, weather);
      }
      SkySeen(Sky(false, 0, 0), weather);
  }

  ghost predicate Narrow(s: string) {
    forall i :: 0 <= i < |s| ==> s[i] as int < 0x100
  }

  /** The server after a change: only what the change is about is different. */
  ghost predicate Became(before: Server, after: Server, action: Action) {
    match action
    case Chat => after == before
    case Teleport(to) => after == before.(at := to)
    case SetTime(ticks) => after == before.(time := ticks)
    case SetWeather(weather) => after == before.(weather := weather)
  }

  /**
    A request carried out whole, or not at all and then only for lack of room: the server has changed,
    the output has grown by compressed-format packets, and in them the client sees the change and text.
  */
  ghost predicate Carried(c: Config, s: Session, r: Received, action: Action, text: string) {
    && r.rx == []
    && (c.cap - |s.tx| >= REPLY_ROOM ==> r.ok)
    && (!r.ok ==> r.s == s)
    && (r.ok ==>
          && Became(s.srv, r.s.srv, action)
          && s.log <= r.s.log
          && var items := r.s.log[|s.log|..];
          && (forall i :: 0 <= i < |items| ==> items[i].format == Uncompressed)
          && r.s.tx == s.tx + Wire(items)
          && ShowsReply(Watched(items), action, text))
  }

  lemma ReplyCarried(c: Config, s: Session, reply: Reply)
    requires InPlay(s) && |reply.text| < TEXT_CAP && Narrow(reply.text)
    requires reply.action.SetTime? ==> reply.action.ticks < 0x1_0000_0000
    ensures var o := Execute(c, s, reply); Carried(c, s, Received(o.ok, o.s, []), reply.action, reply.text)
  {
    ReplyRoom(reply);
    ReplyShown(reply);
    ServerRuns.ReplySendable(Uncompressed, reply);
    ServerRuns.ReplyAllOrNothing(c, s, reply);
    hide ReplyItems, ShowsReply, Watched, Wire, AllSendable;
    var items := ReplyItems(Uncompressed, reply);
    assert (s.log + items)[|s.log|..] == items;
  }

  /** What a chat packet's text asks for is carried out. */
  lemma Obeyed(c: Config, s: Session, message: ChatBytes, reply: Reply)
    requires InPlay(s) && !HasControl(message)
    requires Answer(TextOf(s.srv.username), TextOf(message), s.srv.at) == Some(reply) && Narrow(reply.text)
    requires reply.action.SetTime? ==> reply.action.ticks < 0x1_0000_0000
    ensures |ChatPacket(message)| < MAX_BODY
    ensures Carried(c, s, Arrival(c, s, ChatPacket(message)), reply.action, reply.text)
  {
    hide Answer, Execute, Carried, Arrival, ChatPacket, Narrow, HasControl;
    ChatArrives(c, s, message);
    ReplyCarried(c, s, reply);
  }

  /** A chat packet that is answered with a line and no change, whatever the line. */
  lemma OnlyAnswered(c: Config, s: Session, message: ChatBytes, reply: Reply)
    requires InPlay(s) && !HasControl(message)
    requires Answer(TextOf(s.srv.username), TextOf(message), s.srv.at) == Some(reply) && reply.action == Chat
    ensures |ChatPacket(message)| < MAX_BODY
    ensures Arrival(c, s, ChatPacket(message)).s.srv == s.srv
  {
    hide Answer, Arrival, ChatPacket, HasControl, ReplyItems, QueueBatch;
    ChatArrives(c, s, message);
    SameServer(c, s, reply);
  }

  lemma SameServer(c: Config, s: Session, reply: Reply)
    requires reply.action == Chat && |reply.text| < TEXT_CAP
    ensures Execute(c, s, reply).s.srv == s.srv
  {
    hide ReplyItems, Wire, AllSendable;
  }

  /** The words of a command typed into the chat. */
  ghost predicate IsCommand(message: ChatBytes, words: seq<string>) {
    !HasControl(message) && message != [] && message[0] == '/' as int && Words(TextOf(message)) == words
  }

  lemma CommandText(message: ChatBytes, words: seq<string>)
    requires IsCommand(message, words)
    ensures TextOf(message) != [] && TextOf(message)[0] == '/'
  {
  }

  /**
    `/tp` from the wire to the player's position. If all three words are numbers of magnitude at most
    30000000, the player stands within 2^-27 of them afterwards, x, y, z in the order typed, and the
    client is told that very position; otherwise nothing about the player changes.
  */
  lemma TeleportArrives(c: Config, s: Session, message: ChatBytes, x: string, y: string, z: string)
    requires InPlay(s) && IsCommand(message, ["/tp", x, y, z])
    ensures |ChatPacket(message)| < MAX_BODY
    ensures var r := Arrival(c, s, ChatPacket(message));
            if Acceptable(x) && Acceptable(y) && Acceptable(z) then
              exists to: Position :: Represents(to.x, x) && Represents(to.y, y) && Represents(to.z, z)
                && to.yaw == s.srv.at.yaw && to.pitch == s.srv.at.pitch
                && Carried(c, s, r, Teleport(to), "Teleported.")
            else r.s.srv == s.srv
  {
    hide Answer, Carried, Arrival, ChatPacket, HasControl, Acceptable, Represents, Words;
    CommandText(message, ["/tp", x, y, z]);
    var user, text := TextOf(s.srv.username), TextOf(message);
    TeleportUnderstood(user, text, s.srv.at, x, y, z);
    TeleportText(user, text, s.srv.at, x, y, z);
    var reply := Answer(user, text, s.srv.at).value;
    NarrowTexts();
    if reply.action.Teleport? {
      Obeyed(c, s, message, reply);
    } else {
      OnlyAnswered(c, s, message, reply);
    }
  }

  lemma NarrowTexts()
    ensures Narrow("Teleported.") && Narrow("Time set to ") && Narrow(".") && Narrow("Weather set to ")
    ensures Narrow("clear.") && Narrow("rain.") && Narrow("thunder.") && Narrow("<") && Narrow("> ")
  {
  }

  lemma NarrowJoin(a: string, b: string)
    requires Narrow(a) && Narrow(b)
    ensures Narrow(a + b)
  {
  }

  lemma NarrowNumeral(n: nat)
    ensures Narrow(Numeral(n))
  {
    hide Numeral;
    assert forall i :: 0 <= i < |Numeral(n)| ==> IsDigit(Numeral(n)[i]);
  }

  lemma TeleportText(user: string, message: string, here: Position, a: string, b: string, c: string)
    requires message != [] && message[0] == '/' && Words(message) == ["/tp", a, b, c]
    ensures var reply := Answer(user, message, here);
            reply.Some? && reply.value.action.Teleport? ==> reply.value.text == "Teleported."
  {
    hide Words, DecimalLoops.Meaning, TellPosition, ChangeTime, ChangeWeather;
    assert Words(message)[0] == "/tp";
  }

  /** `/time` from the wire to the clock: the named or numbered time is set and the client is told it. */
  lemma TimeArrives(c: Config, s: Session, message: ChatBytes, word: string)
    requires InPlay(s) && IsCommand(message, ["/time", word])
    ensures |ChatPacket(message)| < MAX_BODY
    ensures var r := Arrival(c, s, ChatPacket(message));
            if word in NAMED_TIMES then Carried(c, s, r, SetTime(NAMED_TIMES[word]), TimeText(NAMED_TIMES[word]))
            else if word != [] && AllDigits(word) && NatOf(word) <= MAX_TICKS
            then Carried(c, s, r, SetTime(NatOf(word)), TimeText(NatOf(word)))
            else r.s.srv == s.srv
  {
    hide Answer, Carried, Arrival, ChatPacket, HasControl, Words, TimeText;
    CommandText(message, ["/time", word]);
    var user, text := TextOf(s.srv.username), TextOf(message);
    TimeUnderstood(user, text, s.srv.at, word);
    TimeSaid(user, text, s.srv.at, word);
    var reply := Answer(user, text, s.srv.at).value;
    if reply.action.SetTime? {
      NarrowTime(reply.action.ticks);
      Obeyed(c, s, message, reply);
    } else {
      OnlyAnswered(c, s, message, reply);
    }
  }

  function TimeText(ticks: nat): string {
    "Time set to " + Numeral(ticks) + "."
  }

  lemma NarrowTime(ticks: nat)
    ensures Narrow(TimeText(ticks))
  {
    hide Narrow, Numeral;
    NarrowTexts();
    NarrowNumeral(ticks);
    NarrowJoin("Time set to ", Numeral(ticks));
    NarrowJoin("Time set to " + Numeral(ticks), ".");
  }

  lemma TimeSaid(user: string, message: string, here: Position, word: string)
    requires message != [] && message[0] == '/' && Words(message) == ["/time", word]
    ensures var reply := Answer(user, message, here);
            reply.Some? && reply.value.action.SetTime? ==>
              reply.value.text == TimeText(reply.value.action.ticks) && reply.value.action.ticks <= MAX_TICKS
  {
    TimeAnswered(["/time", word]);
    hide Words, TeleportTo, TellPosition, ChangeWeather, NatOf, AllDigits, Numeral;
    assert Words(message)[0] == "/time";
  }

  /** `/weather` from the wire to the sky over the client. */
  lemma WeatherArrives(c: Config, s: Session, message: ChatBytes, word: string)
    requires InPlay(s) && IsCommand(message, ["/weather", word])
    ensures |ChatPacket(message)| < MAX_BODY
    ensures var r := Arrival(c, s, ChatPacket(message));
            if word == "clear" then Carried(c, s, r, SetWeather(Clear), "Weather set to clear.")
            else if word == "rain" then Carried(c, s, r, SetWeather(Rain), "Weather set to rain.")
            else if word == "thunder" then Carried(c, s, r, SetWeather(Thunder), "Weather set to thunder.")
            else r.s.srv == s.srv
  {
    hide Answer, Carried, Arrival, ChatPacket, HasControl, Words;
    CommandText(message, ["/weather", word]);
    var user, text := TextOf(s.srv.username), TextOf(message);
    WeatherUnderstood(user, text, s.srv.at, word);
    WeatherSaid(user, text, s.srv.at, word);
    var reply := Answer(user, text, s.srv.at).value;
    if reply.action.SetWeather? {
      NarrowWeather();
      Obeyed(c, s, message, reply);
    } else {
      OnlyAnswered(c, s, message, reply);
    }
  }

  lemma NarrowWeather()
    ensures Narrow("Weather set to clear.") && Narrow("Weather set to rain.") && Narrow("Weather set to thunder.")
  {
  }

  lemma WeatherSaid(user: string, message: string, here: Position, word: string)
    requires message != [] && message[0] == '/' && Words(message) == ["/weather", word]
    ensures var reply := Answer(user, message, here);
            && reply.Some?
            && (word == "clear" ==> reply.value.text == "Weather set to clear.")
            && (word == "rain" ==> reply.value.text == "Weather set to rain.")
            && (word == "thunder" ==> reply.value.text == "Weather set to thunder.")
  {
    WeatherUnderstood(user, message, here, word);
    WeatherTexts();
    hide Words, TeleportTo, TellPosition, ChangeTime;
    assert Words(message)[0] == "/weather" && Words(message)[1] == word;
  }

  lemma WeatherTexts()
    ensures "Weather set to " + "clear" + "." == "Weather set to clear."
    ensures "Weather set to " + "rain" + "." == "Weather set to rain."
    ensures "Weather set to " + "thunder" + "." == "Weather set to thunder."
  {
  }

  /** Chat that is no command: the client reads the author's name and the message, and nothing changes. */
  lemma SaidArrives(c: Config, s: Session, message: ChatBytes)
    requires InPlay(s) && !HasControl(message) && (message == [] || message[0] != '/' as int)
    ensures |ChatPacket(message)| < MAX_BODY
    ensures var r, user := Arrival(c, s, ChatPacket(message)), s.srv.username;
            if |user| + |message| + 3 < TEXT_CAP
            then Carried(c, s, r, Chat, "<" + TextOf(user) + "> " + TextOf(message))
            else r == Received(false, s, [])
  {
    hide Carried, Arrival, ChatPacket, HasControl, Narrow;
    var user, text := TextOf(s.srv.username), TextOf(message);
    ChatArrives(c, s, message);
    assert message != [] ==> text[0] == message[0] as char;
    if |user| + |text| + 3 < TEXT_CAP {
      NarrowTexts();
      NarrowText(s.srv.username);
      NarrowText(message);
      NarrowJoin("<", user);
      NarrowJoin("<" + user, "> ");
      NarrowJoin("<" + user + "> ", text);
      Obeyed(c, s, message, Reply(Chat, "<" + user + "> " + text));
    }
  }

  lemma NarrowText(b: seq<byte>)
    ensures Narrow(TextOf(b))
  {
  }

  // ----- outside play -----

  /** A status request is answered with the status, if there is room for it. */
  lemma StatusArrives(c: Config, s: Session)
    requires s.srv.phase == Status && !s.srv.compressed
    ensures Sendable(Plain, StatusBody())
    ensures var r, reply := Arrival(c, s, [0x00]), Frame(Plain, StatusBody());
            && r.rx == [] && r.s.srv == s.srv
            && (r.ok <==> |s.tx| + |reply| <= c.cap)
            && (r.ok ==> r.s.tx == s.tx + reply) && (!r.ok ==> r.s == s)
  {
    StatusParts();
    hide Arrival, StatusBody, Frame;
    OnePacket(c, s, [0x00]);
    ServerRuns.OneQueued(c, s, Item(FromStatus, Plain, StatusBody()));
  }

  lemma StatusParts()
    ensures ReadRequest(Status, [0x00]).Hello? && ReadRequest(Status, [0x00]).next == None
    ensures Sendable(Plain, StatusBody())
  {
    OneByte(0);
    IdRead(0, []);
    assert VarInt.Encode(0) + [] == [0x00];
    hide ReadVarInt, BytesOf;
    VarInt.EncodeLength(|BytesOf(STATUS_JSON)|);
    NothingBehind();
  }

  lemma NothingBehind()
    ensures ReadVarInt([0x00], 1) == None
  {
  }

  /** A ping comes back as it was, if there is room for it; bytes behind the eight are ignored. */
  lemma PingArrives(c: Config, s: Session, payload: PingBytes, more: seq<byte>)
    requires s.srv.phase == Status && !s.srv.compressed && |more| < MAX_BODY - 9
    ensures var r, echo := Arrival(c, s, [0x01] + payload + more), Frame(Plain, [0x01] + payload);
            && r.rx == [] && r.s.srv == s.srv
            && (r.ok <==> |s.tx| + |echo| <= c.cap)
            && (r.ok ==> r.s.tx == s.tx + echo) && (!r.ok ==> r.s == s)
  {
    PingParts(payload, more);
    hide Arrival, Frame, ReadRequest;
    OnePacket(c, s, [0x01] + payload + more);
    ServerRuns.OneQueued(c, s, Item(FromStatus, Plain, [0x01] + payload));
  }

  lemma PingParts(payload: PingBytes, more: seq<byte>)
    ensures ReadRequest(Status, [0x01] + payload + more) == Ping(payload)
  {
    OneByte(1);
    IdRead(1, payload + more);
    hide ReadVarInt;
    var body := [0x01] + payload + more;
    assert body == [0x01] + (payload + more) && body[1..9] == payload;
  }

  /** How every session starts: at the spawn point, at noon under a clear sky. */
  function Fresh(phase: Phase): Server {
    Server(phase, false, [], 0, 0, false, SPAWN, false, 6000, Clear, false, 0, 0, true)
  }

  /**
    A handshake, on the bytes that arrive. It starts a fresh session of the phase it asks for with an
    empty output, and the main loop is asked to drop what it has of the old output.
  */
  lemma HandshakeArrives(c: Config, s: Session, proto: u32, host: seq<byte>, port: seq<byte>, next: u32)
    requires |host| < 256 && |port| == 2 && s.srv.phase != Play && !s.srv.compressed
    ensures |HandshakeBody(proto, host, port, next)| < MAX_BODY
    ensures var r := Arrival(c, s, HandshakeBody(proto, host, port, next));
            && (next == 1 ==> r == Received(true, Session(Fresh(Status), [], []), []))
            && (next == 2 ==> r == Received(true, Session(Fresh(Login), [], []), []))
            && (next != 1 && next != 2 ==> r == Received(false, s.(srv := Fresh(Handshake)), []))
  {
    HandshakeRoom(proto, host, port, next);
    hide Arrival, HandshakeBody, HandlePacket;
    HandshakeUnderstood(c, s, proto, host, port, next);
    OnePacket(c, s, HandshakeBody(proto, host, port, next));
  }

  lemma HandshakeRoom(proto: u32, host: seq<byte>, port: seq<byte>, next: u32)
    requires |host| < 256 && |port| == 2
    ensures |HandshakeBody(proto, host, port, next)| < MAX_BODY
  {
    VarInt.EncodeLength(proto);
    VarInt.EncodeLength(next);
    VarInt.EncodeLength(|host|);
    hide VarInt.Encode;
  }

  /**
    A Login Start, on the bytes that arrive, for every name without control bytes: with room for both
    answers the player is in play under that name, with compression on from the second answer on.
  */
  lemma LoginArrives(c: Config, s: Session, name: seq<byte>)
    requires s.srv.phase == Login && !s.srv.compressed && 0 < |name| <= MAX_USERNAME && !HasControl(name)
    ensures |LoginBody(name)| < MAX_BODY
    ensures Sendable(Plain, SetCompressionBody()) && Sendable(Uncompressed, LoginSuccessBody(name))
    ensures var r := Arrival(c, s, LoginBody(name));
            var answers := Frame(Plain, SetCompressionBody()) + Frame(Uncompressed, LoginSuccessBody(name));
            && r.rx == [] && (r.ok <==> |s.tx| + |answers| <= c.cap) && (!r.ok ==> r.s == s)
            && (r.ok ==> r.s.tx == s.tx + answers
                         && r.s.srv == s.srv.(phase := Play, compressed := true, username := name))
  {
    LoginRoom(name);
    ServerRuns.LoginSendable(name);
    hide Arrival, HandlePacket, LoginBody, HasControl, SetCompressionBody, LoginSuccessBody, Frame, Wire, CString,
         FrameOf;
    NamesLogIn(c, s, name);
    OnePacket(c, s, LoginBody(name));
    LoginWire(name);
  }

  lemma LoginRoom(name: seq<byte>)
    requires |name| <= MAX_USERNAME
    ensures |LoginBody(name)| < MAX_BODY
  {
    VarInt.EncodeLength(|name|);
    hide VarInt.Encode;
  }

  lemma LoginWire(name: Name)
    ensures AllSendable(LoginItems(name))
    ensures Sendable(Plain, SetCompressionBody()) && Sendable(Uncompressed, LoginSuccessBody(name))
    ensures Wire(LoginItems(name))
         == Frame(Plain, SetCompressionBody()) + Frame(Uncompressed, LoginSuccessBody(name))
  {
    ServerRuns.LoginSendable(name);
    hide SetCompressionBody, LoginSuccessBody, Frame, Wire;
    var items := LoginItems(name);
    assert Sendable(items[0].format, items[0].body) && Sendable(items[1].format, items[1].body);
    WireTwo(items[0], items[1]);
  }
}
