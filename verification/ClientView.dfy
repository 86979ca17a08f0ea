/**
  What a client sees. A reader for the clientbound play packets that carry the session's state gives
  back exactly what the server put into them.
*/
module ClientView {
  import opened Bytes
  import opened Commands
  import opened Fixed2
  import opened Text
  import opened Server
  import opened ServerReads
  import Arith
  import VarInt

  datatype Seen =
    | Placed(at: Position)
    | TimeIs(age: u64, time: u64)
    | Said(text: string)
    | GameState(reason: byte, value: u32)
    | Alive(id: nat)
    | Joined(entity: u32, mode: byte, dimension: byte, difficulty: byte, players: byte, level: string)
    | SpawnAt(point: u64)
    | Vitals(health: u32, food: nat, saturation: u32)
    | Able(flags: byte, flying: u32, walking: u32)

  /** A JSON object whose only member is a text. */
  function JsonText(json: string): Option<string> {
    var opening := "{\"text\":\"";
    if |json| < |opening| || json[..|opening|] != opening then None
    else match ReadQuoted(json[|opening|..])
      case None => None
      case Some(q) => if q.rest == "}" then Some(q.value) else None
  }

  /** A packet by its id, with the length and the fixed fields the protocol asks for. */
  function See(body: seq<byte>): Option<Seen> {
    if body == [] then None
    else if body[0] == 0x00 then
      match ReadVarInt(body, 1)
      case None => None
      case Some(f) => if f.pos == |body| then Some(Alive(f.value)) else None
    else if body[0] == 0x01 then
      match ReadString(body, 9, 17)
      case None => None
      case Some(f) =>
        if f.pos + 1 != |body| || f.pos - f.value < 10 || body[f.pos] != 0 then None
        else Some(Joined(U32(body[1..5]), body[5], body[6], body[7], body[8], TextOf(StringAt(body, f))))
    else if body[0] == 0x02 then
      match ReadString(body, 1, 0x8000)
      case None => None
      case Some(f) =>
        if f.pos + 1 != |body| || body[f.pos] != 0 then None
        else match JsonText(TextOf(StringAt(body, f)))
          case None => None
          case Some(text) => Some(Said(text))
    else if body[0] == 0x03 && |body| == 17 then Some(TimeIs(U64(body[1..9]), U64(body[9..17])))
    else if body[0] == 0x05 && |body| == 9 then Some(SpawnAt(U64(body[1..9])))
    else if body[0] == 0x06 && |body| > 5 then
      match ReadVarInt(body, 5)
      case None => None
      case Some(f) => if f.pos + 4 != |body| then None else Some(Vitals(U32(body[1..5]), f.value, U32(body[f.pos..])))
    else if body[0] == 0x39 && |body| == 10 then Some(Able(body[1], U32(body[2..6]), U32(body[6..10])))
    else if body[0] == 0x08 && |body| == 34 && body[33] == 0 then
      Some(Placed(Position(U64(body[1..9]), U64(body[9..17]), U64(body[17..25]), U32(body[25..29]), U32(body[29..33]))))
    else if body[0] == 0x2b && |body| == 6 then Some(GameState(body[1], U32(body[2..6])))
    else None
  }

  // ----- reading back -----

  lemma PositionSeen(p: Position)
    ensures See(PositionBody(p)) == Some(Placed(p))
  {
    hide Be, U64, U32;
    var b := PositionBody(p);
    assert b == [0x08] + PointBytes(p) + AngleBytes(p) + [0];
    assert b[1..] == PointBytes(p) + (AngleBytes(p) + [0]);
    assert b == ([0x08] + PointBytes(p)) + AngleBytes(p) + [0];
    PointReads(p, AngleBytes(p) + [0]);
    AngleReads([0x08] + PointBytes(p), p, [0]);
    assert b[1..9] == b[1..][0..8] && b[9..17] == b[1..][8..16] && b[17..25] == b[1..][16..24];
  }

  lemma TimeSeen(time: u64)
    ensures See(TimeBody(time)) == Some(TimeIs(0, time))
  {
    hide Be, U64;
    var b := TimeBody(time);
    assert b[1..9] == Be(8, 0) && b[9..17] == Be(8, time);
    BeReads64(0);
    BeReads64(time);
  }

  lemma GameStateSeen(reason: byte, value: u32)
    ensures See(GameStateBody(reason, value)) == Some(GameState(reason, value))
  {
    hide Be, U32;
    var b := GameStateBody(reason, value);
    assert b[2..6] == Be(4, value);
    BeReads32(value);
  }

  lemma KeepAliveSeen(id: nat)
    requires id <= INT32_MAX
    ensures See(KeepAliveBody(id)) == Some(Alive(id))
  {
    hide ReadVarInt, VarInt.Encode;
    ReadAt([0x00], id, []);
    assert [0x00] + VarInt.Encode(id) + [] == KeepAliveBody(id);
  }

  lemma JoinSeen()
    ensures See(JoinGameBody()) == Some(Joined(1, 1, 0, 0, 1, "flat"))
  {
    hide Be, U32, ReadString, StringAt, Str, BytesOf, TextOf;
    var front, level := [0x01] + Be(4, 1) + [1, 0, 0, 1], BytesOf("flat");
    assert JoinGameBody() == front + Str(level) + [0];
    ReadStringAt(front, level, [0], 17);
    StrLonger(level);
    TextOfBytes("flat");
    BeReads32(1);
    assert JoinGameBody()[1..5] == Be(4, 1);
  }

  lemma StrLonger(b: seq<byte>)
    requires |b| < 0x8000
    ensures |Str(b)| > |b|
  {
  }

  lemma SpawnSeen()
    ensures See(SpawnPositionBody()) == Some(SpawnAt(0))
  {
    hide Be, U64;
    BeReads64(0);
    assert SpawnPositionBody()[1..9] == Be(8, 0);
  }

  lemma VitalsSeen()
    ensures See(HealthBody()) == Some(Vitals(0x41a0_0000, 20, 0x40a0_0000))
  {
    OneByte(20);
    hide Be, U32, ReadVarInt, VarInt.Encode;
    var b := HealthBody();
    ReadAt([0x06] + Be(4, 0x41a0_0000), 20, Be(4, 0x40a0_0000));
    BeReads32(0x41a0_0000);
    BeReads32(0x40a0_0000);
    assert b[1..5] == Be(4, 0x41a0_0000) && b[6..] == Be(4, 0x40a0_0000);
  }

  lemma AbleSeen()
    ensures See(AbilitiesBody()) == Some(Able(0x0f, 0x3d4c_cccd, 0x3dcc_cccd))
  {
    hide Be, U32;
    var b := AbilitiesBody();
    BeReads32(0x3d4c_cccd);
    BeReads32(0x3dcc_cccd);
    assert b[2..6] == Be(4, 0x3d4c_cccd) && b[6..10] == Be(4, 0x3dcc_cccd);
  }

  /** The float constants are 20, 5 and 1 exactly. */
  lemma FloatConstants()
    ensures !FloatNegative(0x41a0_0000) && FloatMagnitude(0x41a0_0000) == Ratio(20 * Arith.Pow2(19), Arith.Pow2(19))
    ensures !FloatNegative(0x40a0_0000) && FloatMagnitude(0x40a0_0000) == Ratio(5 * Arith.Pow2(21), Arith.Pow2(21))
    ensures !FloatNegative(FULL) && FloatMagnitude(FULL) == Ratio(Arith.Pow2(23), Arith.Pow2(23))
  {
    hide Arith.Pow2;
    FloatPowers();
  }

  lemma FloatPowers()
    ensures Arith.Pow2(19) == 0x8_0000 && Arith.Pow2(21) == 0x20_0000 && Arith.Pow2(23) == 0x80_0000
  {
    hide Arith.Pow2;
    SmallPowers();
    Arith.Pow2Values();
    Arith.Pow2Add(16, 3);
    Arith.Pow2Add(16, 5);
    Arith.Pow2Add(16, 7);
  }

  lemma SmallPowers()
    ensures Arith.Pow2(3) == 8 && Arith.Pow2(5) == 32
  {
  }

  /** The six fixed packets of the bootstrap, as the client reads them. */
  lemma BootstrapSeen(srv: Server)
    requires srv.stage < STAGE_CHUNKS && srv.time < 0x1_0000_0000
    ensures See(StageBody(srv)) == Some([
      Joined(1, 1, 0, 0, 1, "flat"), SpawnAt(0), TimeIs(0, srv.time),
      Vitals(0x41a0_0000, 20, 0x40a0_0000), Able(0x0f, 0x3d4c_cccd, 0x3dcc_cccd), Placed(srv.at)][srv.stage])
  {
    hide See, JoinGameBody, SpawnPositionBody, TimeBody, HealthBody, AbilitiesBody, PositionBody;
    JoinSeen();
    SpawnSeen();
    TimeSeen(srv.time);
    VitalsSeen();
    AbleSeen();
    PositionSeen(srv.at);
  }

  // ----- login and status, read back -----

  /** Set Compression carries the threshold, and Login Success the fixed identifier and the player's name. */
  lemma LoginAnswersRead(user: Name)
    ensures var b := SetCompressionBody(); b[0] == 0x03 && ReadVarInt(b, 1) == Some(Field(8192, |b|))
    ensures var b := LoginSuccessBody(user);
            && b[0] == 0x02
            && var id := ReadString(b, 1, 0x8000);
            && id.Some? && TextOf(StringAt(b, id.value)) == "00000000-0000-0000-0000-000000000001"
            && var name := ReadString(b, id.value.pos, 0x8000);
            && name.Some? && StringAt(b, name.value) == user && name.value.pos == |b|
  {
    hide ReadVarInt, ReadString, StringAt, Str, BytesOf, TextOf, VarInt.Encode;
    var id := BytesOf("00000000-0000-0000-0000-000000000001");
    ReadAt([0x03], 8192, []);
    assert [0x03] + VarInt.Encode(8192) + [] == SetCompressionBody();
    ReadStringAt([0x02], id, Str(user), 0x8000);
    ReadStringAt([0x02] + Str(id), user, [], 0x8000);
    assert [0x02] + Str(id) + Str(user) + [] == LoginSuccessBody(user);
    IdentifierFits();
  }

  lemma IdentifierFits()
    ensures TextOf(BytesOf("00000000-0000-0000-0000-000000000001")) == "00000000-0000-0000-0000-000000000001"
  {
    TextOfBytes("00000000-0000-0000-0000-000000000001");
  }

  lemma JsonRead(text: string)
    ensures JsonText(ChatJson(text)) == Some(text)
  {
    hide ReadQuoted, Escape;
    EscapeReads(text, "}");
    var opening := "{\"text\":\"";
    var rest := Escape(text) + "\"" + "}";
    assert ChatJson(text) == opening + rest;
    assert (opening + rest)[|opening|..] == rest;
  }

  /** Characters that fit a byte survive being sent. */
  lemma TextOfBytes(s: string)
    requires forall i :: 0 <= i < |s| ==> s[i] as int < 0x100
    ensures TextOf(BytesOf(s)) == s
  {
  }

  lemma {:induction false} EscapeFits(text: string)
    requires forall i :: 0 <= i < |text| ==> text[i] as int < 0x100
    ensures forall i :: 0 <= i < |Escape(text)| ==> Escape(text)[i] as int < 0x100
    decreases |text|
  {
    if text != [] {
      EscapeFits(text[1..]);
    }
  }

  lemma JsonFits(text: string)
    requires forall i :: 0 <= i < |text| ==> text[i] as int < 0x100
    ensures forall i :: 0 <= i < |ChatJson(text)| ==> ChatJson(text)[i] as int < 0x100
  {
    EscapeFits(text);
    hide Escape;
  }

  /** Whatever its characters, the client reads the text that was meant. */
  lemma ChatSeen(text: string)
    requires |text| < TEXT_CAP && forall i :: 0 <= i < |text| ==> text[i] as int < 0x100
    ensures See(ChatBody(text)) == Some(Said(text))
  {
    EscapeLength(text);
    JsonRead(text);
    JsonFits(text);
    hide ChatJson, Escape, JsonText, BytesOf, TextOf, Str, ReadString, StringAt;
    TextOfBytes(ChatJson(text));
    var json := BytesOf(ChatJson(text));
    ReadStringAt([0x02], json, [0], 0x8000);
  }

  // ----- the sky -----

  /** What the client shows: whether it rains, and how far rain and thunder have faded in. */
  datatype Sky = Sky(raining: bool, rain: u32, thunder: u32)

  const FULL: u32 := 0x3f80_0000  // 1.0f

  /** Reasons 1 and 2 end and begin the rain, 7 and 8 set how strong rain and thunder are. */
  function Weathered(sky: Sky, seen: Seen): Sky {
    if !seen.GameState? then sky
    else if seen.reason == 1 then sky.(raining := false)
    else if seen.reason == 2 then sky.(raining := true)
    else if seen.reason == 7 then sky.(rain := seen.value)
    else if seen.reason == 8 then sky.(thunder := seen.value)
    else sky
  }

  function SkyOf(weather: Weather): Sky {
    Sky(weather != Clear, if weather == Clear then 0 else FULL, if weather == Thunder then FULL else 0)
  }

  /** From whatever sky, the three packets of a weather change lead to that weather's sky. */
  lemma SkySeen(sky: Sky, weather: Weather)
    ensures var g := GameStates(weather);
            && |g| == 3 && See(g[0]).Some? && See(g[1]).Some? && See(g[2]).Some?
            && Weathered(Weathered(Weathered(sky, See(g[0]).value), See(g[1]).value), See(g[2]).value) == SkyOf(weather)
  {
    hide See, GameStateBody;
    GameStateSeen(1, 0);
    GameStateSeen(2, 0);
    GameStateSeen(7, 0);
    GameStateSeen(7, FULL);
    GameStateSeen(8, 0);
    GameStateSeen(8, FULL);
  }
}
