/**
  Chat and commands. A message is answered with a chat line and, for a command that changes
  something, with the change itself; the server carries it out.
*/
module Commands {
  import opened Bytes
  import opened Arith
  import opened Fixed2
  import opened Decimal
  import opened DecimalLoops
  import opened Text

  const TEXT_CAP := 160
  const MAX_TICKS := 24_000

  /** Coordinates are bit patterns: 64 bits for a position, 32 for an angle. */
  datatype Position = Position(x: u64, y: u64, z: u64, yaw: u32, pitch: u32)

  const SPAWN := Position(0x3fe0_0000_0000_0000, 0x4040_0000_0000_0000, 0x3fe0_0000_0000_0000, 0, 0)

  datatype Weather = Clear | Rain | Thunder

  datatype Action = Chat | Teleport(to: Position) | SetTime(ticks: nat) | SetWeather(weather: Weather)

  datatype Reply = Reply(action: Action, text: string)

  // ----- splitting -----

  function WordLen(s: string): (n: nat)
    ensures n <= |s| && forall i :: 0 <= i < n ==> s[i] != ' '
    ensures s != [] && s[0] != ' ' ==> n > 0
    ensures n < |s| ==> s[n] == ' '
  {
    if s == [] || s[0] == ' ' then 0 else 1 + WordLen(s[1..])
  }

  function Words(s: string): seq<string>
    decreases |s|
  {
    if s == [] then []
    else if s[0] == ' ' then Words(s[1..])
    else [s[..WordLen(s)]] + Words(s[WordLen(s)..])
  }

  function Spaces(n: nat): string {
    if n == 0 then [] else " " + Spaces(n - 1)
  }

  /** Words joined with any number of spaces between them are found again. */
  lemma {:induction false} WordsAfter(w: string, gap: nat, rest: string)
    requires w != [] && forall i :: 0 <= i < |w| ==> w[i] != ' '
    requires gap > 0 || rest == []
    ensures Words(w + Spaces(gap) + rest) == [w] + Words(rest)
  {
    var tail := Spaces(gap) + rest;
    var s := w + tail;
    assert w + Spaces(gap) + rest == s;
    assert gap > 0 ==> Spaces(gap)[0] == ' ';
    assert gap == 0 ==> tail == [];
    WordLenIs(w, tail);
    assert s[..|w|] == w && s[|w|..] == tail;
    SkipSpaces(gap, rest);
  }

  lemma {:induction false} WordLenIs(w: string, tail: string)
    requires forall i :: 0 <= i < |w| ==> w[i] != ' '
    requires tail == [] || tail[0] == ' '
    ensures WordLen(w + tail) == |w|
    decreases |w|
  {
    if w != [] {
      assert (w + tail)[1..] == w[1..] + tail;
      WordLenIs(w[1..], tail);
    } else {
      assert w + tail == tail;
    }
  }

  lemma {:induction false} SkipSpaces(gap: nat, rest: string)
    ensures Words(Spaces(gap) + rest) == Words(rest)
    decreases gap
  {
    if gap > 0 {
      assert (Spaces(gap) + rest)[1..] == Spaces(gap - 1) + rest;
      SkipSpaces(gap - 1, rest);
    } else {
      assert Spaces(0) + rest == rest;
    }
  }

  // ----- replies -----

  /** The text buffer keeps one place for the terminator; what does not fit is refused. */
  function Fit(action: Action, text: string): (r: Option<Reply>)
    ensures r.Some? ==> r.value == Reply(action, text) && |text| < TEXT_CAP
  {
    if |text| < TEXT_CAP then Some(Reply(action, text)) else None
  }

  function Say(text: string): (r: Option<Reply>)
    ensures r.Some? ==> |r.value.text| < TEXT_CAP
  {
    Fit(Chat, text)
  }

  /** `/tp` */
  function TeleportTo(words: seq<string>, here: Position): Option<Reply> {
    if |words| != 4 then Say("Usage: /tp <x> <y> <z>")
    else
      var x, y, z := Meaning(words[1]), Meaning(words[2]), Meaning(words[3]);
      if x.Invalid? || y.Invalid? || z.Invalid? then Say("Invalid number.")
      else if x.OutOfRange? || y.OutOfRange? || z.OutOfRange? then Say("Coordinate out of range.")
      else if x.bits > U64_MAX || y.bits > U64_MAX || z.bits > U64_MAX then None
      else Fit(Teleport(Position(x.bits, y.bits, z.bits, here.yaw, here.pitch)), "Teleported.")
  }

  function PositionText(x: Fixed, y: Fixed, z: Fixed, yaw: Fixed, pitch: Fixed): string
    requires x.Fixed? && y.Fixed? && z.Fixed? && yaw.Fixed? && pitch.Fixed?
  {
    "Known position: x=" + FixedText(x.negative, x.scaled)
    + (" y=" + FixedText(y.negative, y.scaled)
       + (" z=" + FixedText(z.negative, z.scaled)
          + (" yaw=" + FixedText(yaw.negative, yaw.scaled)
             + (" pitch=" + FixedText(pitch.negative, pitch.scaled)))))
  }

  /** `/pos` */
  function TellPosition(p: Position): Option<Reply> {
    var x, y, z := DoubleToFixed2(p.x), DoubleToFixed2(p.y), DoubleToFixed2(p.z);
    var yaw, pitch := FloatToFixed2(p.yaw), FloatToFixed2(p.pitch);
    if x.Refused? || y.Refused? || z.Refused? || yaw.Refused? || pitch.Refused?
    then Say("Known position unavailable.")
    else Say(PositionText(x, y, z, yaw, pitch))
  }

  /** `mc_parse_time_ticks` */
  function Ticks(word: string): Option<nat> {
    if word == [] || !AllDigits(word) then None else Some(NatOf(word))
  }

  function TimeReply(ticks: nat): Option<Reply> {
    Fit(SetTime(ticks), "Time set to " + Numeral(ticks) + ".")
  }

  /** `/time` */
  function ChangeTime(words: seq<string>): Option<Reply> {
    if |words| != 2 then Say("Usage: /time <day|noon|night|midnight|ticks>")
    else if words[1] == "day" then TimeReply(1000)
    else if words[1] == "noon" then TimeReply(6000)
    else if words[1] == "night" then TimeReply(13000)
    else if words[1] == "midnight" then TimeReply(18000)
    else
      match Ticks(words[1])
      case None => Say("Invalid number.")
      case Some(ticks) => if ticks > MAX_TICKS then Say("Time must be 0..24000.") else TimeReply(ticks)
  }

  function WeatherReply(weather: Weather, name: string): Option<Reply> {
    Fit(SetWeather(weather), "Weather set to " + name + ".")
  }

  /** `/weather` */
  function ChangeWeather(words: seq<string>): Option<Reply> {
    if |words| == 2 && words[1] == "clear" then WeatherReply(Clear, "clear")
    else if |words| == 2 && words[1] == "rain" then WeatherReply(Rain, "rain")
    else if |words| == 2 && words[1] == "thunder" then WeatherReply(Thunder, "thunder")
    else Say("Usage: /weather <clear|rain|thunder>")
  }

  const HELP :=
    "Commands: /help, /spawn, /tp <x> <y> <z>, /pos, "
    + "/time <day|noon|night|midnight|ticks>, /weather <clear|rain|thunder>"
  const UNKNOWN := "Unknown command. Use /help."

  /** `mc_commands_handle_chat` */
  function Answer(user: string, message: string, here: Position): Option<Reply> {
    if message == [] || message[0] != '/' then Say("<" + user + "> " + message)
    else
      var words := Words(message);
      if words == [] || |words| > 5 then Say(UNKNOWN)
      else match words[0]
        case "/help" => if |words| == 1 then Say(HELP) else Say(UNKNOWN)
        case "/spawn" => if |words| == 1 then Fit(Teleport(SPAWN), "Teleported to spawn.") else Say(UNKNOWN)
        case "/tp" => TeleportTo(words, here)
        case "/pos" => if |words| == 1 then TellPosition(here) else Say(UNKNOWN)
        case "/time" => ChangeTime(words)
        case "/weather" => ChangeWeather(words)
        case _ => Say(UNKNOWN)
  }

  // ----- what holds of every answer -----

  lemma FixedTextLength(negative: bool, scaled: nat)
    requires scaled <= MAX_SCALED
    ensures |FixedText(negative, scaled)| <= 12
  {
    assert Pow10(8) == 100_000_000 by {
      assert Pow10(4) == 10_000;
      Pow10Add(4, 4);
    }
    hide Pow10, Numeral;
    NumeralLength(scaled / 100, 8);
  }

  /** A printable value is at most 30000000.00, so its text is short. */
  lemma PrintedBounded(p: Position)
    ensures DoubleToFixed2(p.x).Fixed? ==> DoubleToFixed2(p.x).scaled <= MAX_SCALED
    ensures DoubleToFixed2(p.y).Fixed? ==> DoubleToFixed2(p.y).scaled <= MAX_SCALED
    ensures DoubleToFixed2(p.z).Fixed? ==> DoubleToFixed2(p.z).scaled <= MAX_SCALED
    ensures FloatToFixed2(p.yaw).Fixed? ==> FloatToFixed2(p.yaw).scaled <= MAX_SCALED
    ensures FloatToFixed2(p.pitch).Fixed? ==> FloatToFixed2(p.pitch).scaled <= MAX_SCALED
  {
    hide DoubleToFixed2, FloatToFixed2, DoubleMagnitude, FloatMagnitude;
    DoubleShownExactly(p.x);
    DoubleShownExactly(p.y);
    DoubleShownExactly(p.z);
    FloatShownExactly(p.yaw);
    FloatShownExactly(p.pitch);
  }

  /** `/pos` always has an answer, and it is the position exactly when all of it can be printed. */
  lemma PositionTold(p: Position)
    ensures TellPosition(p) == Some(PositionReply(p))
  {
    PrintedBounded(p);
    hide DoubleToFixed2, FloatToFixed2, FixedText;
    var x, y, z := DoubleToFixed2(p.x), DoubleToFixed2(p.y), DoubleToFixed2(p.z);
    var yaw, pitch := FloatToFixed2(p.yaw), FloatToFixed2(p.pitch);
    if x.Fixed? && y.Fixed? && z.Fixed? && yaw.Fixed? && pitch.Fixed? {
      FixedTextLength(x.negative, x.scaled);
      FixedTextLength(y.negative, y.scaled);
      FixedTextLength(z.negative, z.scaled);
      FixedTextLength(yaw.negative, yaw.scaled);
      FixedTextLength(pitch.negative, pitch.scaled);
    }
  }

  /** What a coordinate word is stored as fits 64 bits and can be printed again. */
  lemma CoordinatePrintable(word: string)
    requires Meaning(word).Coordinate?
    ensures Meaning(word).bits <= U64_MAX && DoubleToFixed2(Meaning(word).bits).Fixed?
  {
    hide DoubleToFixed2, Stored, ReadToken;
    TeleportedIsPrintable(ReadToken(word).value);
  }

  lemma TeleportAnswered(words: seq<string>, here: Position)
    ensures TeleportTo(words, here).Some?
    ensures TeleportTo(words, here).value.action.Teleport? ==>
      var to := TeleportTo(words, here).value.action.to;
      && DoubleToFixed2(to.x).Fixed? && DoubleToFixed2(to.y).Fixed? && DoubleToFixed2(to.z).Fixed?
      && to.yaw == here.yaw && to.pitch == here.pitch
  {
    hide Meaning, DoubleToFixed2;
    if |words| == 4 {
      if Meaning(words[1]).Coordinate? {
        CoordinatePrintable(words[1]);
      }
      if Meaning(words[2]).Coordinate? {
        CoordinatePrintable(words[2]);
      }
      if Meaning(words[3]).Coordinate? {
        CoordinatePrintable(words[3]);
      }
    }
  }

  lemma TimeAnswered(words: seq<string>)
    ensures ChangeTime(words).Some?
    ensures ChangeTime(words).value.action.SetTime? ==> ChangeTime(words).value.action.ticks <= MAX_TICKS
  {
    hide Numeral, NatOf, AllDigits;
    TimeFits(1000);
    TimeFits(6000);
    TimeFits(13000);
    TimeFits(18000);
    if |words| == 2 && Ticks(words[1]).Some? && Ticks(words[1]).value <= MAX_TICKS {
      TimeFits(Ticks(words[1]).value);
    }
  }

  lemma TimeFits(ticks: nat)
    requires ticks <= MAX_TICKS
    ensures TimeReply(ticks) == Some(Reply(SetTime(ticks), "Time set to " + Numeral(ticks) + "."))
  {
    assert Pow10(5) == 100_000;
    NumeralLength(ticks, 5);
  }

  /** Every command is answered; only a chat line that does not fit with its author's name is not. */
  lemma Answered(user: string, message: string, here: Position)
    ensures Answer(user, message, here).None?
       <==> (message == [] || message[0] != '/') && |user| + |message| + 3 >= TEXT_CAP
    ensures Answer(user, message, here).Some? ==> |Answer(user, message, here).value.text| < TEXT_CAP
  {
    hide TeleportTo, TellPosition, ChangeTime, PositionReply, Words;
    if message != [] && message[0] == '/' {
      var words := Words(message);
      TeleportAnswered(words, here);
      PositionTold(here);
      TimeAnswered(words);
      TextsFit(words, here);
    }
  }

  lemma TextsFit(words: seq<string>, here: Position)
    ensures TeleportTo(words, here).Some? ==> |TeleportTo(words, here).value.text| < TEXT_CAP
    ensures TellPosition(here).Some? ==> |TellPosition(here).value.text| < TEXT_CAP
    ensures ChangeTime(words).Some? ==> |ChangeTime(words).value.text| < TEXT_CAP
  {
    hide Meaning, DoubleToFixed2, FloatToFixed2, PositionText, Numeral, NatOf;
  }

  lemma SpawnPrintable()
    ensures DoubleToFixed2(SPAWN.x).Fixed? && DoubleToFixed2(SPAWN.y).Fixed? && DoubleToFixed2(SPAWN.z).Fixed?
  {
    Pow2Values();
    Pow2Add(47, 5);
    assert Pow2(5) == 32;
    hide DoubleToFixed2, Pow2;
    PowerPrintable(SPAWN.x, 1022);
    PowerPrintable(SPAWN.y, 1028);
  }

  lemma PowerPrintable(bits: u64, e: nat)
    requires bits == e * HIDDEN_DOUBLE && 0 < e < 1075 && HIDDEN_DOUBLE <= LIMIT * Pow2(1075 - e)
    ensures DoubleToFixed2(bits).Fixed?
  {
    Fields(false, e, 0);
    hide DoubleToFixed2, Pow2, Shown, DoubleExponent, DoubleFraction, DoubleNegative;
    DoubleShownExactly(bits);
    InRangePrintable(false, DoubleMagnitude(bits));
  }

  lemma TimeNeverTeleports(words: seq<string>)
    ensures ChangeTime(words).Some? ==> !ChangeTime(words).value.action.Teleport?
    ensures ChangeWeather(words).Some? ==> !ChangeWeather(words).value.action.Teleport?
  {
    hide Numeral, NatOf, AllDigits;
  }

  lemma PositionIsChat(p: Position)
    ensures TellPosition(p).Some? ==> TellPosition(p).value.action == Chat
  {
    hide DoubleToFixed2, FloatToFixed2, PositionText;
  }

  /** What `/pos` has to say about a position. */
  function PositionReply(p: Position): Reply {
    var x, y, z := DoubleToFixed2(p.x), DoubleToFixed2(p.y), DoubleToFixed2(p.z);
    var yaw, pitch := FloatToFixed2(p.yaw), FloatToFixed2(p.pitch);
    if x.Fixed? && y.Fixed? && z.Fixed? && yaw.Fixed? && pitch.Fixed?
    then Reply(Chat, PositionText(x, y, z, yaw, pitch))
    else Reply(Chat, "Known position unavailable.")
  }

  /**
    After any teleport the coordinates are printable, so `/pos` tells the position it went to, unless
    the angles the client last reported cannot be printed; `/spawn` sets printable ones.
  */
  lemma TeleportThenPos(user: string, message: string, here: Position)
    requires Answer(user, message, here).Some? && Answer(user, message, here).value.action.Teleport?
    ensures var to := Answer(user, message, here).value.action.to;
            && DoubleToFixed2(to.x).Fixed? && DoubleToFixed2(to.y).Fixed? && DoubleToFixed2(to.z).Fixed?
            && (to == SPAWN || (to.yaw == here.yaw && to.pitch == here.pitch))
            && Answer(user, "/pos", to) == Some(PositionReply(to))
            && (to == SPAWN ==> PositionReply(to).text != "Known position unavailable.")
  {
    hide DoubleToFixed2, FloatToFixed2, TeleportTo, TellPosition, PositionText, ChangeTime, ChangeWeather;
    var words := Words(message);
    TimeNeverTeleports(words);
    PositionIsChat(here);
    TeleportAnswered(words, here);
    SpawnPrintable();
    ZeroAngle();
    PosWords();
    assert Answer(user, message, here) == TeleportTo(words, here)
        || Answer(user, message, here).value.action == Teleport(SPAWN);
    var to := Answer(user, message, here).value.action.to;
    PositionTold(to);
    SpawnTold();
  }

  lemma SpawnTold()
    requires DoubleToFixed2(SPAWN.x).Fixed? && DoubleToFixed2(SPAWN.y).Fixed? && DoubleToFixed2(SPAWN.z).Fixed?
    ensures PositionReply(SPAWN).text != "Known position unavailable."
  {
    hide DoubleToFixed2, FloatToFixed2, FixedText;
    ZeroAngle();
    var text := PositionReply(SPAWN).text;
    assert text[16..18] == "x=";
  }

  lemma ZeroAngle()
    ensures FloatToFixed2(0) == Fixed(false, 0)
  {
    hide BinaryToFixed2;
  }

  // ----- what the words mean -----

  /** A coordinate that `/tp` takes: a number of magnitude at most 30000000. */
  ghost predicate Acceptable(word: string) {
    var t := ReadToken(word);
    t.Some? && t.value.Magnitude().num <= LIMIT * t.value.Magnitude().den
  }

  /** A finite double within 2^-27 of the number that was typed, with its sign. */
  ghost predicate Represents(bits: u64, word: string) {
    var t := ReadToken(word);
    && t.Some? && DoubleExponent(bits) != 0x7ff
    && DoubleNegative(bits) == (t.value.negative && bits != 0)
    && Close(DoubleMagnitude(bits), t.value.Magnitude())
  }

  lemma CoordinateMeans(word: string)
    ensures Meaning(word).Coordinate? <==> Acceptable(word)
    ensures Meaning(word).Invalid? <==> ReadToken(word).None?
    ensures Meaning(word).Coordinate? ==> Meaning(word).bits <= U64_MAX && Represents(Meaning(word).bits, word)
  {
    hide ReadToken, InRange, Stored, Close, DoubleMagnitude, DoubleExponent, DoubleNegative;
    var t := ReadToken(word);
    if t.Some? {
      InRangeMeans(t.value);
      if InRange(t.value) {
        StoredAccurately(t.value);
      }
    }
  }

  /**
    `/tp` goes where it was told. It teleports exactly if all three words are numbers of magnitude at
    most 30000000; then x, y and z are, in this order, within 2^-27 of the first, second and third,
    and the player keeps looking the same way. Otherwise nothing but a chat line comes of it.
  */
  lemma TeleportUnderstood(user: string, message: string, here: Position, a: string, b: string, c: string)
    requires message != [] && message[0] == '/' && Words(message) == ["/tp", a, b, c]
    ensures Answer(user, message, here).Some?
    ensures var action := Answer(user, message, here).value.action;
            && (action.Teleport? <==> Acceptable(a) && Acceptable(b) && Acceptable(c))
            && (action.Teleport? ==>
                  && Represents(action.to.x, a) && Represents(action.to.y, b) && Represents(action.to.z, c)
                  && action.to.yaw == here.yaw && action.to.pitch == here.pitch)
            && (!action.Teleport? ==> Answer(user, message, here).value == Reply(Chat,
                  if ReadToken(a).None? || ReadToken(b).None? || ReadToken(c).None? then "Invalid number."
                  else "Coordinate out of range."))
  {
    hide Words, Meaning, Acceptable, Represents, TellPosition, ChangeTime, ChangeWeather;
    var words := Words(message);
    CoordinateMeans(a);
    CoordinateMeans(b);
    CoordinateMeans(c);
    assert words[0] == "/tp" && words[1] == a && words[2] == b && words[3] == c;
  }

  /** The times of day that have a name. */
  const NAMED_TIMES := map["day" := 1000, "noon" := 6000, "night" := 13000, "midnight" := 18000]

  /** `/time` sets the time that its word names or numbers, if that is at most 24000, and else nothing. */
  lemma TimeUnderstood(user: string, message: string, here: Position, word: string)
    requires message != [] && message[0] == '/' && Words(message) == ["/time", word]
    ensures Answer(user, message, here).Some?
    ensures var Reply(action, text) := Answer(user, message, here).value;
            if word in NAMED_TIMES then action == SetTime(NAMED_TIMES[word])
            else if word == [] || !AllDigits(word) then action == Chat && text == "Invalid number."
            else if NatOf(word) <= MAX_TICKS then action == SetTime(NatOf(word))
            else action == Chat && text == "Time must be 0..24000."
  {
    TimeAnswered(["/time", word]);
    hide Words, TeleportTo, TellPosition, ChangeWeather, NatOf, AllDigits, Numeral;
    var words := Words(message);
    assert words[0] == "/time" && words[1] == word;
  }

  /** `/weather` sets the weather that its word names, and else nothing. */
  lemma WeatherUnderstood(user: string, message: string, here: Position, word: string)
    requires message != [] && message[0] == '/' && Words(message) == ["/weather", word]
    ensures Answer(user, message, here).Some?
    ensures var names := map["clear" := Clear, "rain" := Rain, "thunder" := Thunder];
            Answer(user, message, here).value.action == if word in names then SetWeather(names[word]) else Chat
  {
    hide Words, TeleportTo, TellPosition, ChangeTime;
    var words := Words(message);
    assert words[0] == "/weather" && words[1] == word;
  }

  /** Half a block from the corner of the map on both axes, at height 32, looking along the z axis. */
  lemma SpawnIs()
    ensures var x, y := DoubleMagnitude(SPAWN.x), DoubleMagnitude(SPAWN.y);
            && 2 * x.num == x.den && y.num == 32 * y.den && SPAWN.z == SPAWN.x
            && !DoubleNegative(SPAWN.x) && !DoubleNegative(SPAWN.y)
            && FloatMagnitude(SPAWN.yaw).num == 0 && FloatMagnitude(SPAWN.pitch).num == 0
  {
    hide Pow2;
    SpawnPowers();
  }

  lemma SpawnPowers()
    ensures Pow2(53) == 2 * HIDDEN_DOUBLE && HIDDEN_DOUBLE == 32 * Pow2(47)
  {
    Pow2Values();
    Pow2Add(47, 5);
    assert Pow2(5) == 32;
  }

  /** A command, by its words, that changes something. */
  ghost predicate IsChange(words: seq<string>) {
    || words == ["/spawn"]
    || (|words| == 4 && words[0] == "/tp" && Acceptable(words[1]) && Acceptable(words[2]) && Acceptable(words[3]))
    || (|words| == 2 && words[0] == "/time"
        && (words[1] in NAMED_TIMES || (words[1] != [] && AllDigits(words[1]) && NatOf(words[1]) <= MAX_TICKS)))
    || (|words| == 2 && words[0] == "/weather" && words[1] in ["clear", "rain", "thunder"])
  }

  /** These commands change something, and no other message does. */
  lemma ChangesExactly(user: string, message: string, here: Position)
    ensures Answer(user, message, here).Some? ==>
      (Answer(user, message, here).value.action != Chat
       <==> message != [] && message[0] == '/' && IsChange(Words(message)))
  {
    hide Words, Acceptable, NatOf, AllDigits, TellPosition, TeleportTo, ChangeTime, ChangeWeather;
    if message != [] && message[0] == '/' {
      var words := Words(message);
      PositionIsChat(here);
      TeleportsExactly(words, here);
      TimesExactly(words);
      WeathersExactly(words);
    }
  }

  lemma TeleportsExactly(words: seq<string>, here: Position)
    ensures TeleportTo(words, here).Some?
    ensures TeleportTo(words, here).value.action != Chat
       <==> |words| == 4 && Acceptable(words[1]) && Acceptable(words[2]) && Acceptable(words[3])
  {
    hide Meaning, Acceptable, Represents;
    if |words| == 4 {
      CoordinateMeans(words[1]);
      CoordinateMeans(words[2]);
      CoordinateMeans(words[3]);
    }
  }

  lemma TimesExactly(words: seq<string>)
    ensures ChangeTime(words).Some?
    ensures ChangeTime(words).value.action != Chat
       <==> |words| == 2
            && (words[1] in NAMED_TIMES || (words[1] != [] && AllDigits(words[1]) && NatOf(words[1]) <= MAX_TICKS))
  {
    hide NatOf, AllDigits, Numeral;
    TimeAnswered(words);
  }

  lemma WeathersExactly(words: seq<string>)
    ensures ChangeWeather(words).Some?
    ensures ChangeWeather(words).value.action != Chat
       <==> |words| == 2 && words[1] in ["clear", "rain", "thunder"]
  {
  }

  /** Alone, these say what they are for; with more words, or for any other first word, the command is unknown. */
  lemma OthersAnswered(user: string, message: string, here: Position)
    requires message != [] && message[0] == '/'
    ensures var words, answer := Words(message), Answer(user, message, here);
            && answer.Some?
            && (words == ["/spawn"] ==> answer.value == Reply(Teleport(SPAWN), "Teleported to spawn."))
            && (words == ["/pos"] ==> answer.value == PositionReply(here))
            && (words == ["/help"] ==> answer.value == Reply(Chat, HELP))
            && (words == [] || |words| > 5 || words[0] !in ["/spawn", "/pos", "/help", "/tp", "/time", "/weather"]
                || (|words| > 1 && words[0] in ["/spawn", "/pos", "/help"])
                ==> answer.value == Reply(Chat, UNKNOWN))
            && (|words| in [1, 2, 3, 5] && words[0] == "/tp" ==> answer.value == Reply(Chat, "Usage: /tp <x> <y> <z>"))
            && (|words| in [1, 3, 4, 5] && words[0] == "/time" ==>
                  answer.value == Reply(Chat, "Usage: /time <day|noon|night|midnight|ticks>"))
            && (1 <= |words| <= 5 && words[0] == "/weather"
                && !(|words| == 2 && words[1] in ["clear", "rain", "thunder"]) ==>
                  answer.value == Reply(Chat, "Usage: /weather <clear|rain|thunder>"))
  {
    Answered(user, message, here);
    hide Words, TellPosition, PositionReply, Meaning, NatOf, AllDigits, Numeral;
    PositionTold(here);
  }

  /** A word that reads: label, then the number shown, to the hundredth. */
  ghost predicate Tells(word: string, name: string, shown: Fixed) {
    && shown.Fixed? && |name| <= |word| && word[..|name|] == name
    && var t := ReadToken(word[|name|..]);
    && t.Some? && t.value.negative == shown.negative && t.value.Magnitude() == Ratio(shown.scaled, 100)
  }

  lemma FixedTextTells(name: string, shown: Fixed)
    requires shown.Fixed? && (shown.scaled == 0 ==> !shown.negative)
    ensures Tells(name + FixedText(shown.negative, shown.scaled), name, shown)
  {
    FixedTextDenotes(shown.negative, shown.scaled);
    hide FixedText, ReadToken, Numeral;
    var text := FixedText(shown.negative, shown.scaled);
    assert (name + text)[..|name|] == name && (name + text)[|name|..] == text;
  }

  predicate NoSpace(s: string) {
    forall i :: 0 <= i < |s| ==> s[i] != ' '
  }

  lemma FixedTextOneWord(negative: bool, scaled: nat)
    ensures NoSpace(FixedText(negative, scaled))
  {
    hide Numeral;
    assert forall i :: 0 <= i < |Numeral(scaled / 100)| ==> IsDigit(Numeral(scaled / 100)[i]);
  }

  /** A word, and a blank in front of whatever follows. */
  lemma OneMoreWord(name: string, value: string, tail: string, rest: string)
    requires NoSpace(name) && NoSpace(value) && name != [] && tail == " " + rest
    ensures Words(name + value + tail) == [name + value] + Words(rest)
  {
    hide Words;
    assert Spaces(1) == " ";
    assert name + value + tail == (name + value) + Spaces(1) + rest;
    WordsAfter(name + value, 1, rest);
  }

  lemma Blank(spaced: string, name: string, value: string, tail: string)
    requires spaced == " " + name
    ensures spaced + value + tail == " " + (name + value + tail)
  {
  }

  lemma LastWord(word: string)
    requires NoSpace(word) && word != []
    ensures Words(word) == [word]
  {
    assert word + Spaces(0) + [] == word;
    WordsAfter(word, 0, []);
    NoWords();
  }

  lemma Opening(x: string, tail: string)
    ensures "Known position: x=" + x + tail == "Known" + [] + (" " + ("position:" + [] + (" " + ("x=" + x + tail))))
  {
    assert "Known position: x=" == "Known" + " " + ("position:" + " " + "x=");
  }

  lemma TextWords(x: string, y: string, z: string, yaw: string, pitch: string)
    requires NoSpace(x) && NoSpace(y) && NoSpace(z) && NoSpace(yaw) && NoSpace(pitch)
    ensures Words("Known position: x=" + x + (" y=" + y + (" z=" + z + (" yaw=" + yaw + (" pitch=" + pitch)))))
         == ["Known", "position:", "x=" + x, "y=" + y, "z=" + z, "yaw=" + yaw, "pitch=" + pitch]
  {
    hide Words;
    var t5 := " pitch=" + pitch;
    var t4 := " yaw=" + yaw + t5;
    var t3 := " z=" + z + t4;
    var t2 := " y=" + y + t3;
    Blank(" pitch=", "pitch=", pitch, []);
    assert t5 + [] == t5 && "pitch=" + pitch + [] == "pitch=" + pitch;
    Blank(" yaw=", "yaw=", yaw, t5);
    Blank(" z=", "z=", z, t4);
    Blank(" y=", "y=", y, t3);
    LastWord("pitch=" + pitch);
    OneMoreWord("yaw=", yaw, t5, "pitch=" + pitch);
    OneMoreWord("z=", z, t4, "yaw=" + yaw + t5);
    OneMoreWord("y=", y, t3, "z=" + z + t4);
    Opening(x, t2);
    LeadWords(x, t2, "y=" + y + t3);
    Seven("Known", "position:", "x=" + x, "y=" + y, "z=" + z, "yaw=" + yaw, "pitch=" + pitch);
  }

  lemma Seven<T>(a: T, b: T, c: T, d: T, e: T, f: T, g: T)
    ensures [a, b, c] + ([d] + ([e] + ([f] + [g]))) == [a, b, c, d, e, f, g]
  {
  }

  lemma LeadWords(x: string, tail: string, rest: string)
    requires NoSpace(x) && tail == " " + rest
    ensures Words("Known" + [] + (" " + ("position:" + [] + (" " + ("x=" + x + tail)))))
         == ["Known", "position:", "x=" + x] + Words(rest)
  {
    hide Words;
    OneMoreWord("x=", x, tail, rest);
    OneMoreWord("position:", [], " " + ("x=" + x + tail), "x=" + x + tail);
    OneMoreWord("Known", [], " " + ("position:" + [] + (" " + ("x=" + x + tail))),
                "position:" + [] + (" " + ("x=" + x + tail)));
    assert "Known" + [] == "Known" && "position:" + [] == "position:";
  }

  lemma NoWords()
    ensures Words([]) == []
  {
  }

  /** What `/pos` says, read word by word: every label is followed by its own coordinate, rounded. */
  lemma PositionUnderstood(p: Position)
    requires DoubleToFixed2(p.x).Fixed? && DoubleToFixed2(p.y).Fixed? && DoubleToFixed2(p.z).Fixed?
    requires FloatToFixed2(p.yaw).Fixed? && FloatToFixed2(p.pitch).Fixed?
    ensures var words := Words(PositionReply(p).text);
            && |words| == 7 && words[0] == "Known" && words[1] == "position:"
            && Tells(words[2], "x=", Shown(DoubleNegative(p.x), DoubleMagnitude(p.x)))
            && Tells(words[3], "y=", Shown(DoubleNegative(p.y), DoubleMagnitude(p.y)))
            && Tells(words[4], "z=", Shown(DoubleNegative(p.z), DoubleMagnitude(p.z)))
            && Tells(words[5], "yaw=", Shown(FloatNegative(p.yaw), FloatMagnitude(p.yaw)))
            && Tells(words[6], "pitch=", Shown(FloatNegative(p.pitch), FloatMagnitude(p.pitch)))
  {
    hide DoubleToFixed2, FloatToFixed2, DoubleMagnitude, FloatMagnitude, DoubleNegative, FloatNegative, FixedText,
         Words, Tells, NoSpace, Hundredths;
    DoubleShownExactly(p.x);
    DoubleShownExactly(p.y);
    DoubleShownExactly(p.z);
    FloatShownExactly(p.yaw);
    FloatShownExactly(p.pitch);
    var x, y, z := DoubleToFixed2(p.x), DoubleToFixed2(p.y), DoubleToFixed2(p.z);
    var yaw, pitch := FloatToFixed2(p.yaw), FloatToFixed2(p.pitch);
    EveryLabel(x, y, z, yaw, pitch);
    TextWords(FixedText(x.negative, x.scaled), FixedText(y.negative, y.scaled), FixedText(z.negative, z.scaled),
              FixedText(yaw.negative, yaw.scaled), FixedText(pitch.negative, pitch.scaled));
  }

  lemma EveryLabel(x: Fixed, y: Fixed, z: Fixed, yaw: Fixed, pitch: Fixed)
    requires x.Fixed? && y.Fixed? && z.Fixed? && yaw.Fixed? && pitch.Fixed?
    requires (x.scaled == 0 ==> !x.negative) && (y.scaled == 0 ==> !y.negative) && (z.scaled == 0 ==> !z.negative)
    requires (yaw.scaled == 0 ==> !yaw.negative) && (pitch.scaled == 0 ==> !pitch.negative)
    ensures Tells("x=" + FixedText(x.negative, x.scaled), "x=", x) && NoSpace(FixedText(x.negative, x.scaled))
    ensures Tells("y=" + FixedText(y.negative, y.scaled), "y=", y) && NoSpace(FixedText(y.negative, y.scaled))
    ensures Tells("z=" + FixedText(z.negative, z.scaled), "z=", z) && NoSpace(FixedText(z.negative, z.scaled))
    ensures Tells("yaw=" + FixedText(yaw.negative, yaw.scaled), "yaw=", yaw)
    ensures NoSpace(FixedText(yaw.negative, yaw.scaled))
    ensures Tells("pitch=" + FixedText(pitch.negative, pitch.scaled), "pitch=", pitch)
    ensures NoSpace(FixedText(pitch.negative, pitch.scaled))
  {
    hide FixedText, Tells;
    FixedTextTells("x=", x);
    FixedTextTells("y=", y);
    FixedTextTells("z=", z);
    FixedTextTells("yaw=", yaw);
    FixedTextTells("pitch=", pitch);
    FixedTextOneWord(x.negative, x.scaled);
    FixedTextOneWord(y.negative, y.scaled);
    FixedTextOneWord(z.negative, z.scaled);
    FixedTextOneWord(yaw.negative, yaw.scaled);
    FixedTextOneWord(pitch.negative, pitch.scaled);
  }

  lemma PosWords()
    ensures Words("/pos") == ["/pos"]
  {
    WordsAfter("/pos", 0, []);
    assert "/pos" + Spaces(0) + [] == "/pos";
  }
}
