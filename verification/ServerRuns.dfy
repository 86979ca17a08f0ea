/**
  What every run of the server keeps, whatever arrives, however the output is drained and whichever
  calls fail: the framing mode, the order of the bootstrap, the keepalive numbering, and that a
  client which follows the protocol reads exactly the packets that were queued.
*/
module ServerRuns {
  import opened Bytes
  import opened Packet
  import opened Commands
  import opened Fixed2
  import opened Server
  import VarInt

  // ----- what the log shows -----

  /** The bootstrap steps in the log, in order. */
  function Steps(log: seq<Item>): seq<nat> {
    if log == [] then []
    else
      var last := log[|log| - 1].origin;
      Steps(log[..|log| - 1]) + (if last.Bootstrap? then [last.step] else [])
  }

  /** The keepalive ids in the log, in order. */
  function Ids(log: seq<Item>): seq<nat> {
    if log == [] then []
    else
      var last := log[|log| - 1].origin;
      Ids(log[..|log| - 1]) + (if last.KeepAlive? then [last.id] else [])
  }

  function Upto(n: nat): seq<nat> {
    seq(n, i => i)
  }

  function LastId(ids: seq<nat>): nat {
    if ids == [] then 0 else ids[|ids| - 1]
  }

  /** 1, 2, 3, ... and after the largest positive 32-bit number 1 again. */
  ghost predicate Consecutive(ids: seq<nat>) {
    && (ids != [] ==> ids[0] == 1)
    && (forall i, j :: 0 <= i < j < |ids| && j == i + 1 ==> ids[j] == if ids[i] == 0x7fff_ffff then 1 else ids[i] + 1)
    && (forall i :: 0 <= i < |ids| ==> 1 <= ids[i] <= 0x7fff_ffff)
  }

  function Total(c: Config): nat {
    STAGE_CHUNKS + |c.chunks|
  }

  /** How many bootstrap packets the session's own counters say were sent. */
  function Progress(srv: Server): nat {
    if srv.stage < STAGE_CHUNKS then srv.stage else STAGE_CHUNKS + srv.chunkIndex
  }

  /** No keepalive before the whole bootstrap. */
  ghost predicate KeepalivesLate(c: Config, log: seq<Item>) {
    forall i :: 0 <= i < |log| && log[i].origin.KeepAlive? ==> Steps(log[..i]) == Upto(Total(c))
  }

  /** The packet that belongs to a bootstrap step: six fixed kinds, then the chunks in map order. */
  ghost predicate StepPacket(c: Config, item: Item) {
    item.origin.Bootstrap? ==>
      var step := item.origin.step;
      if step < STAGE_CHUNKS then
        item.format.Uncompressed? && item.body != []
        && item.body[0] == [0x01, 0x05, 0x03, 0x06, 0x39, 0x08][step]
      else
        && step < Total(c)
        && item.format == Deflated(c.chunks[step - STAGE_CHUNKS].rawLen)
        && item.body == c.chunks[step - STAGE_CHUNKS].payload
  }

  ghost predicate PlayLog(c: Config, log: seq<Item>, user: seq<byte>, progress: nat, id: nat)
  {
    && |user| <= MAX_USERNAME
    && |log| >= 2
    && log[..2] == LoginItems(user)
    && AllSendable(log)
    && (forall i :: 2 <= i < |log| ==> !log[i].format.Plain? && !log[i].origin.FromStatus? && !log[i].origin.FromLogin?)
    && (forall i :: 2 <= i < |log| ==> StepPacket(c, log[i]))
    && Steps(log) == Upto(progress)
    && Consecutive(Ids(log))
    && id == LastId(Ids(log))
    && KeepalivesLate(c, log)
  }

  /** Before play only status answers are queued, and they never switch compression on. */
  ghost predicate StatusItem(item: Item) {
    && item.origin.FromStatus?
    && item.format.Plain?
    && Sendable(item.format, item.body)
    && item.body != [] && item.body[0] != 0x03
  }

  ghost predicate EarlyLog(log: seq<Item>) {
    forall i :: 0 <= i < |log| ==> StatusItem(log[i])
  }

  // ----- the invariant -----

  ghost predicate StageValid(c: Config, srv: Server) {
    && srv.stage <= STAGE_DONE
    && (srv.stage < STAGE_CHUNKS ==> srv.chunkIndex == 0)
    && (srv.stage == STAGE_CHUNKS ==> srv.chunkIndex < |c.chunks| || srv.chunkIndex == 0)
    && (srv.stage == STAGE_DONE ==> srv.chunkIndex == |c.chunks| > 0)
  }

  ghost predicate Untouched(srv: Server) {
    && srv.stage == 0 && srv.chunkIndex == 0 && srv.keepaliveId == 0 && srv.lastKeepalive == 0
    && !srv.bootstrapSent && !srv.keepalivePending
  }

  /** The output ring holds the end of what was queued; the rest has been taken out. */
  ghost predicate IsEnd(part: seq<byte>, whole: seq<byte>) {
    |part| <= |whole| && part == whole[|whole| - |part|..]
  }

  ghost predicate PlayValid(c: Config, s: Session) {
    && s.srv.compressed
    && StageValid(c, s.srv)
    && PlayLog(c, s.log, s.srv.username, Progress(s.srv), s.srv.keepaliveId)
  }

  ghost predicate EarlyValid(s: Session) {
    && !s.srv.compressed
    && Untouched(s.srv)
    && EarlyLog(s.log)
    && (s.srv.phase == Login ==> s.log == [])
  }

  ghost predicate Valid(c: Config, s: Session) {
    && IsEnd(s.tx, Wire(s.log))
    && (s.srv.phase == Play ==> PlayValid(c, s))
    && (s.srv.phase == Play ==> (s.srv.bootstrapSent <==> s.srv.stage == STAGE_DONE))
    && (s.srv.phase != Play ==> EarlyValid(s))
  }

  // ----- lists -----

  lemma {:induction false} WireAppend(a: seq<Item>, b: seq<Item>)
    ensures Wire(a + b) == Wire(a) + Wire(b)
    decreases |a|
  {
    hide FrameOf;
    if a == [] {
      assert a + b == b;
    } else {
      assert (a + b)[1..] == a[1..] + b;
      WireAppend(a[1..], b);
    }
  }

  lemma WireOne(item: Item)
    ensures Wire([item]) == FrameOf(item)
  {
    hide FrameOf;
    assert [item][1..] == [] && FrameOf(item) + [] == FrameOf(item);
  }

  /** A packet queued by itself: whole if it fits, else not at all. */
  lemma OneQueued(c: Config, s: Session, item: Item)
    requires Sendable(item.format, item.body)
    ensures var o, frame := Queue(c, s, item), FrameOf(item);
            && o.s.srv == s.srv
            && (o.ok <==> |s.tx| + |frame| <= c.cap)
            && (o.ok ==> o.s.tx == s.tx + frame && o.s.log == s.log + [item]) && (!o.ok ==> o.s == s)
  {
    WireOne(item);
    hide Wire, FrameOf;
  }

  lemma IsEndAppend(part: seq<byte>, whole: seq<byte>, more: seq<byte>)
    requires IsEnd(part, whole)
    ensures IsEnd(part + more, whole + more)
  {
  }

  lemma PutKeepsEnd(s: Session, items: seq<Item>)
    requires IsEnd(s.tx, Wire(s.log))
    ensures IsEnd(Put(s, items).tx, Wire(Put(s, items).log))
  {
    hide Wire;
    WireAppend(s.log, items);
    IsEndAppend(s.tx, Wire(s.log), Wire(items));
  }

  lemma SnocLists(log: seq<Item>, item: Item)
    ensures Steps(log + [item]) == Steps(log) + (if item.origin.Bootstrap? then [item.origin.step] else [])
    ensures Ids(log + [item]) == Ids(log) + (if item.origin.KeepAlive? then [item.origin.id] else [])
  {
    assert (log + [item])[..|log|] == log;
  }

  lemma UptoNext(n: nat)
    ensures Upto(n + 1) == Upto(n) + [n]
  {
  }

  lemma LateSnoc(c: Config, log: seq<Item>, item: Item)
    requires KeepalivesLate(c, log)
    requires item.origin.KeepAlive? ==> Steps(log) == Upto(Total(c))
    ensures KeepalivesLate(c, log + [item])
  {
    hide Steps, Upto;
    var all := log + [item];
    forall i | 0 <= i < |all| && all[i].origin.KeepAlive?
      ensures Steps(all[..i]) == Upto(Total(c))
    {
      assert all[..i] == log[..i];
      assert log[..|log|] == log;
    }
  }

  /** One more packet in play: a reply, the next bootstrap step, or the next keepalive. */
  ghost predicate Follows(c: Config, item: Item, progress: nat, id: nat) {
    && !item.format.Plain?
    && Sendable(item.format, item.body)
    && StepPacket(c, item)
    && match item.origin
       case Response => true
       case Bootstrap(step) => step == progress
       case KeepAlive(k) => k == NextId(id) && progress == Total(c)
       case _ => false
  }

  lemma PlaySnoc(c: Config, log: seq<Item>, user: seq<byte>, progress: nat, id: nat, item: Item)
    requires PlayLog(c, log, user, progress, id) && Follows(c, item, progress, id)
    ensures PlayLog(c, log + [item], user, if item.origin.Bootstrap? then progress + 1 else progress,
                    if item.origin.KeepAlive? then NextId(id) else id)
  {
    SnocLists(log, item);
    LateSnoc(c, log, item);
    UptoNext(progress);
    hide Steps, Ids, KeepalivesLate, LoginItems, Upto, NextId, Sendable, StepPacket;
    assert (log + [item])[..2] == log[..2];
    ConsecutiveSnoc(Ids(log));
    assert Ids(log) + [] == Ids(log) && Steps(log) + [] == Steps(log);
  }

  lemma ConsecutiveSnoc(ids: seq<nat>)
    requires Consecutive(ids)
    ensures Consecutive(ids + [NextId(LastId(ids))])
    ensures LastId(ids + [NextId(LastId(ids))]) == NextId(LastId(ids))
  {
  }

  lemma {:induction false} PlayAppend(
    c: Config, log: seq<Item>, user: seq<byte>, progress: nat, id: nat, items: seq<Item>)
    requires PlayLog(c, log, user, progress, id) && AllSendable(items)
    requires forall i :: 0 <= i < |items| ==> items[i].origin == Response && !items[i].format.Plain?
    ensures PlayLog(c, log + items, user, progress, id)
    decreases |items|
  {
    hide PlayLog, Sendable;
    if items == [] {
      assert log + items == log;
    } else {
      PlaySnoc(c, log, user, progress, id, items[0]);
      PlayAppend(c, log + [items[0]], user, progress, id, items[1..]);
      assert log + items == log + [items[0]] + items[1..];
    }
  }

  // ----- every packet the server builds can be sent -----

  lemma ChatFits(text: string)
    requires |text| < TEXT_CAP
    ensures |Text.Escape(text)| < 6 * TEXT_CAP && |Text.ChatJson(text)| < 6 * TEXT_CAP + 16
    ensures |ChatBody(text)| <= 6 * TEXT_CAP + 32
  {
    Text.EscapeLength(text);
    hide Text.Escape, BytesOf;
  }

  lemma ReplySendable(format: Format, reply: Reply)
    requires |reply.text| < TEXT_CAP && !format.Deflated?
    ensures var items := ReplyItems(format, reply);
            && AllSendable(items)
            && forall i :: 0 <= i < |items| ==> items[i].origin == Response && items[i].format == format
  {
    ChatFits(reply.text);
    hide ChatBody, Be;
  }

  lemma LoginSendable(user: seq<byte>)
    requires |user| <= MAX_USERNAME
    ensures AllSendable(LoginItems(user)) && |LoginItems(user)| == 2
  {
    VarInt.EncodeLength(COMPRESSION_THRESHOLD);
    hide VarInt.Encode, BytesOf;
  }

  lemma StatusItems(pong: seq<byte>)
    requires |pong| == 8
    ensures StatusItem(Item(FromStatus, Plain, StatusBody()))
    ensures StatusItem(Item(FromStatus, Plain, [0x01] + pong))
  {
    hide BytesOf, VarInt.Encode;
  }

  lemma StageSendable(c: Config, srv: Server)
    requires srv.stage < STAGE_DONE && srv.compressed && StageItem(c, srv).Some?
    ensures var item := StageItem(c, srv).value;
            && Sendable(item.format, item.body) && !item.format.Plain? && item.origin == Bootstrap(Progress(srv))
            && StepPacket(c, item)
  {
    hide BytesOf, Be, VarInt.Encode;
  }

  lemma KeepAliveSendable(id: nat)
    requires id <= INT32_MAX
    ensures Sendable(Uncompressed, KeepAliveBody(id))
  {
    VarInt.EncodeLength(id);
  }

  // ----- packets -----

  lemma ExecuteKeeps(c: Config, s: Session, reply: Reply)
    requires Valid(c, s) && s.srv.phase == Play && |reply.text| < TEXT_CAP
    ensures Valid(c, Execute(c, s, reply).s) && Execute(c, s, reply).s.srv.phase == Play
  {
    ReplySendable(Uncompressed, reply);
    hide ReplyItems, PlayLog, Wire, AllSendable, IsEnd, Changed, StageValid, Progress;
    ChangedKeeps(c, s.srv, reply.action);
    var items := ReplyItems(Uncompressed, reply);
    PutKeepsEnd(s, items);
    PlayAppend(c, s.log, s.srv.username, Progress(s.srv), s.srv.keepaliveId, items);
  }

  /** A command changes position, time or weather and nothing the invariant speaks of. */
  lemma ChangedKeeps(c: Config, srv: Server, action: Action)
    ensures var next := Changed(srv, action);
            && next.phase == srv.phase && next.compressed == srv.compressed && next.username == srv.username
            && next.keepaliveId == srv.keepaliveId && next.bootstrapSent == srv.bootstrapSent
            && next.stage == srv.stage && Progress(next) == Progress(srv)
            && (StageValid(c, srv) ==> StageValid(c, next))
  {
  }

  lemma HandleChatKeeps(c: Config, s: Session, message: ChatBytes)
    requires Valid(c, s) && s.srv.phase == Play
    ensures Valid(c, HandleChat(c, s, message).s)
  {
    hide Valid, Execute, Answer;
    var user, text := TextOf(s.srv.username), TextOf(message);
    Answered(user, text, s.srv.at);
    var reply := Answer(user, text, s.srv.at);
    if reply.Some? {
      ExecuteKeeps(c, s, reply.value);
    }
  }

  /** Position and the keepalive flag are nothing the invariant speaks of. */
  lemma MovementKeeps(c: Config, s: Session, id: nat, fields: seq<byte>)
    requires Valid(c, s) && s.srv.phase == Play && 3 <= id <= 6
    ensures Valid(c, HandleMovement(s, id, fields).s)
    ensures Valid(c, s.(srv := s.srv.(keepalivePending := false)))
  {
    hide PlayLog, Wire, U64, U32;
  }

  lemma StatusPutKeeps(c: Config, s: Session, pong: PingBytes)
    requires Valid(c, s) && s.srv.phase == Status
    ensures Valid(c, Put(s, [Item(FromStatus, Plain, StatusBody())]))
    ensures Valid(c, Put(s, [Item(FromStatus, Plain, [0x01] + pong)]))
  {
    hide StatusItem, StatusBody, Put, Valid;
    StatusItems(pong);
    EarlyPutKeeps(c, s, Item(FromStatus, Plain, StatusBody()));
    EarlyPutKeeps(c, s, Item(FromStatus, Plain, [0x01] + pong));
  }

  lemma EarlyPutKeeps(c: Config, s: Session, item: Item)
    requires Valid(c, s) && s.srv.phase == Status && StatusItem(item)
    ensures Valid(c, Put(s, [item]))
  {
    hide StatusItem, Wire, IsEnd, PlayLog;
    PutKeepsEnd(s, [item]);
  }

  lemma HandleLoginKeeps(c: Config, s: Session, name: Option<Name>)
    requires Valid(c, s) && s.srv.phase == Login
    ensures Valid(c, HandleLogin(c, s, name).s)
  {
    hide Wire, AllSendable, LoginItems, PlayLog, IsEnd, StatusItem;
    if name.Some? {
      PutKeepsEnd(s, LoginItems(name.value));
      LoginStartsPlay(c, name.value);
      assert [] + LoginItems(name.value) == LoginItems(name.value);
    }
  }

  lemma LoginStartsPlay(c: Config, user: seq<byte>)
    requires |user| <= MAX_USERNAME
    ensures PlayLog(c, LoginItems(user), user, 0, 0)
  {
    LoginSendable(user);
    var a := Item(FromLogin, Plain, SetCompressionBody());
    var b := Item(FromLogin, Uncompressed, LoginSuccessBody(user));
    hide SetCompressionBody, LoginSuccessBody;
    SnocLists([], a);
    SnocLists([a], b);
    assert LoginItems(user) == [a] + [b] && LoginItems(user)[..2] == LoginItems(user) && [] + [a] == [a];
  }

  /** A greeting outside play: a fresh session, or the old state, or a reset one with the old output. */
  lemma GreetingKeeps(s: Session, next: Option<nat>)
    requires EarlyValid(s) && s.srv.phase != Play
    ensures var (greeting, srv) := TryHandshake(s.srv, next);
            && srv.phase != Play
            && (greeting.Accepted? ==> EarlyValid(NewSession(srv)) && (srv.phase == Status || srv.phase == Login))
            && (greeting.Rejected? ==> (srv == s.srv || srv == RESET) && EarlyValid(s.(srv := srv)))
  {
    hide StatusItem;
  }

  lemma FreshIsValid(c: Config, srv: Server)
    requires EarlyValid(NewSession(srv)) && srv.phase != Play
    ensures Valid(c, NewSession(srv))
  {
    hide EarlyValid, PlayValid;
  }

  lemma RejectedIsValid(c: Config, s: Session, srv: Server)
    requires Valid(c, s) && EarlyValid(s.(srv := srv)) && srv.phase != Play
    ensures Valid(c, s.(srv := srv))
  {
    hide EarlyValid, PlayValid, Wire, IsEnd;
  }

  lemma EarlyFromValid(c: Config, s: Session)
    requires Valid(c, s) && s.srv.phase != Play
    ensures EarlyValid(s)
  {
    hide EarlyValid, PlayValid, Wire, IsEnd;
  }

  lemma HandleGreetingKeeps(c: Config, s: Session, next: Option<nat>, name: Option<Name>)
    requires Valid(c, s) && s.srv.phase != Play
    ensures Valid(c, HandleGreeting(c, s, next, name).s)
  {
    hide HandleLogin, TryHandshake, EarlyValid, StatusBody, Put, FrameOf, Valid, NewSession, Sendable;
    EarlyFromValid(c, s);
    GreetingKeeps(s, next);
    var (greeting, srv) := TryHandshake(s.srv, next);
    if greeting.Accepted? {
      FreshIsValid(c, srv);
    } else {
      RejectedIsValid(c, s, srv);
    }
    if s.srv.phase == Status {
      StatusPutKeeps(c, s, [0, 0, 0, 0, 0, 0, 0, 0]);
    } else if s.srv.phase == Login {
      HandleLoginKeeps(c, s, name);
    }
  }

  /** Every request, carried out or refused, keeps the session invariant. */
  lemma PerformKeeps(c: Config, s: Session, r: Request)
    requires Valid(c, s) && Proper(s.srv.phase, r)
    ensures Valid(c, Perform(c, s, r).s)
  {
    hide HandleGreeting, HandleChat, HandleMovement, Valid, Put, FrameOf;
    match r
    case Malformed =>
    case Hello(next, name) => HandleGreetingKeeps(c, s, next, name);
    case Ping(payload) => StatusPutKeeps(c, s, payload);
    case KeepAliveAnswer => MovementKeeps(c, s, 3, []);
    case ChatLine(message) => HandleChatKeeps(c, s, message);
    case Moved(id, fields) => MovementKeeps(c, s, id, fields);
    case Ignored =>
  }

  lemma HandleFrameKeeps(c: Config, s: Session, body: seq<byte>)
    requires Valid(c, s)
    ensures Valid(c, HandleFrame(c, s, body).s)
  {
    hide Valid, Perform, ReadRequest;
    PerformKeeps(c, s, ReadRequest(s.srv.phase, body));
    if CompressedBody(body).Some? {
      PerformKeeps(c, s, ReadRequest(s.srv.phase, CompressedBody(body).value.body));
    }
  }

  lemma {:induction false} DrainKeeps(c: Config, s: Session, rx: seq<byte>)
    requires Valid(c, s)
    ensures Valid(c, DrainRx(c, s, rx).s)
    decreases |rx|
  {
    hide Valid, HandleFrame, Classify, TryRead, PartialBad;
    if Classify(rx).Ready? {
      var n := Classify(rx).frameLen;
      ReadyReads(rx, n);
      var body := TryRead(rx).value.body;
      HandleFrameKeeps(c, s, body);
      DrainKeeps(c, HandleFrame(c, s, body).s, rx[n..]);
    }
  }

  // ----- ticks -----

  /** The invariant while a tick is sending the bootstrap. */
  ghost predicate Booting(c: Config, s: Session) {
    && s.srv.phase == Play && !s.srv.bootstrapSent
    && IsEnd(s.tx, Wire(s.log))
    && PlayValid(c, s)
  }

  lemma AdvanceKeeps(c: Config, srv: Server)
    requires StageValid(c, srv) && srv.stage < STAGE_DONE && StageItem(c, srv).Some?
    ensures var next := Advance(c, srv);
            && StageValid(c, next) && Progress(next) == Progress(srv) + 1
            && next.phase == srv.phase && next.compressed == srv.compressed && next.username == srv.username
            && next.keepaliveId == srv.keepaliveId && next.bootstrapSent == srv.bootstrapSent
  {
    hide StageBody, ChunkValid;
  }

  lemma StageStepKeeps(c: Config, s: Session)
    requires Booting(c, s) && s.srv.stage < STAGE_DONE
    ensures Booting(c, StageStep(c, s).s)
    ensures StageStep(c, s).ok ==> Progress(StageStep(c, s).s.srv) == Progress(s.srv) + 1
    ensures !StageStep(c, s).ok ==> StageStep(c, s).s == s
  {
    hide StageItem, Advance, Progress, Booting, Put, Sendable, FrameOf;
    if StageItem(c, s.srv).Some? {
      PutStageKeeps(c, s);
    }
  }

  lemma PutStageKeeps(c: Config, s: Session)
    requires Booting(c, s) && s.srv.stage < STAGE_DONE && StageItem(c, s.srv).Some?
    ensures var next := Put(s, [StageItem(c, s.srv).value]).(srv := Advance(c, s.srv));
            Booting(c, next) && Progress(next.srv) == Progress(s.srv) + 1
  {
    hide Wire, PlayLog, StageItem, IsEnd, Sendable, StepPacket, Advance, StageValid, Progress;
    var item := StageItem(c, s.srv).value;
    StageSendable(c, s.srv);
    AdvanceKeeps(c, s.srv);
    PutKeepsEnd(s, [item]);
    PlaySnoc(c, s.log, s.srv.username, Progress(s.srv), s.srv.keepaliveId, item);
  }

  lemma {:induction false} StageLoopKeeps(c: Config, s: Session)
    requires Booting(c, s)
    ensures Booting(c, StageLoop(c, s).s)
    ensures !StageLoop(c, s).ok ==> StageLoop(c, s).s.srv.stage < STAGE_DONE
    decreases STAGE_DONE - s.srv.stage
  {
    hide StageStep, PlayLog, Wire;
    if s.srv.stage < STAGE_DONE {
      StageStepKeeps(c, s);
      var o := StageStep(c, s);
      if o.ok && o.s.srv.stage != STAGE_CHUNKS {
        StageGrows(c, s);
        StageLoopKeeps(c, o.s);
      }
    }
  }

  lemma StageGrows(c: Config, s: Session)
    requires s.srv.stage < STAGE_DONE && StageStep(c, s).ok && StageStep(c, s).s.srv.stage != STAGE_CHUNKS
    ensures StageStep(c, s).s.srv.stage > s.srv.stage
  {
    hide Queue, StageItem;
  }

  lemma KeepaliveKeeps(c: Config, s: Session, now: u32)
    requires Valid(c, s)
    ensures Valid(c, TickKeepalive(c, s, now).s)
    ensures !TickKeepalive(c, s, now).ok ==> TickKeepalive(c, s, now).s == s
  {
    var srv := s.srv;
    hide Wire, PlayLog, FrameOf, KeepAliveBody, Sendable;
    if srv.phase == Play && srv.bootstrapSent {
      var id := NextId(srv.keepaliveId);
      var item := Item(KeepAlive(id), Uncompressed, KeepAliveBody(id));
      KeepAliveSendable(id);
      PutKeepsEnd(s, [item]);
      PlaySnoc(c, s.log, srv.username, Progress(srv), srv.keepaliveId, item);
    }
  }

  lemma TickKeeps(c: Config, s: Session, now: u32)
    requires Valid(c, s)
    ensures Valid(c, Tick(c, s, now).s)
  {
    hide StageLoop, TickKeepalive, PlayLog, Wire;
    if s.srv.phase == Play && !s.srv.bootstrapSent {
      StageLoopKeeps(c, s);
      var o := StageLoop(c, s);
      if o.ok {
        var s' := if o.s.srv.stage >= STAGE_DONE then o.s.(srv := o.s.srv.(bootstrapSent := true)) else o.s;
        KeepaliveKeeps(c, s', now);
      }
    } else {
      KeepaliveKeeps(c, s, now);
    }
  }

  // ----- runs -----

  datatype Op = Feed(bytes: seq<byte>) | TickAt(now: u32) | TakeOut(count: nat) | TakeReset | Restart

  datatype World = World(s: Session, rx: seq<byte>)

  const START := World(Session(BOOTED, [], []), [])

  function Step(c: Config, w: World, op: Op): World {
    match op
    case Feed(bytes) => var r := Receive(c, w.s, w.rx, bytes); World(r.s, r.rx)
    case TickAt(now) => w.(s := Tick(c, w.s, now).s)
    case TakeOut(count) => w.(s := w.s.(tx := w.s.tx[Min(count, |w.s.tx|)..]))
    case TakeReset => w.(s := w.s.(srv := w.s.srv.(txReset := false)))
    case Restart => START
  }

  function Run(c: Config, ops: seq<Op>): World {
    if ops == [] then START else Step(c, Run(c, ops[..|ops| - 1]), ops[|ops| - 1])
  }

  lemma TakeOutKeeps(c: Config, s: Session, n: nat)
    requires Valid(c, s) && n <= |s.tx|
    ensures Valid(c, s.(tx := s.tx[n..]))
  {
    hide Wire, PlayLog, StatusItem, StageValid;
  }

  lemma StepKeeps(c: Config, w: World, op: Op)
    requires Valid(c, w.s)
    ensures Valid(c, Step(c, w, op).s)
  {
    hide DrainRx, Tick, Valid;
    match op
    case Feed(bytes) => DrainKeeps(c, w.s, w.rx + bytes);
    case TickAt(now) => TickKeeps(c, w.s, now);
    case TakeOut(count) => TakeOutKeeps(c, w.s, Min(count, |w.s.tx|));
    case TakeReset => TakeResetKeeps(c, w.s);
    case Restart => StartValid(c);
  }

  lemma TakeResetKeeps(c: Config, s: Session)
    requires Valid(c, s)
    ensures Valid(c, s.(srv := s.srv.(txReset := false)))
  {
    hide Wire, PlayLog, StatusItem, IsEnd;
  }

  lemma StartValid(c: Config)
    ensures Valid(c, START.s)
  {
    hide PlayLog;
  }

  lemma {:induction false} RunKeeps(c: Config, ops: seq<Op>)
    ensures Valid(c, Run(c, ops).s)
    decreases |ops|
  {
    hide Step, Valid;
    if ops == [] {
      StartValid(c);
    } else {
      RunKeeps(c, ops[..|ops| - 1]);
      StepKeeps(c, Run(c, ops[..|ops| - 1]), ops[|ops| - 1]);
    }
  }

  // ----- a client that follows the protocol -----

  datatype Seen = Seen(format: Format, body: seq<byte>)

  /** Cut off one frame by its length; read a second length once Set Compression has gone by. */
  function ClientReads(bytes: seq<byte>, compressed: bool): Option<seq<Seen>>
    decreases |bytes|
  {
    if bytes == [] then Some([])
    else match VarInt.Decode(bytes)
      case None => None
      case Some(d) =>
        if |bytes| < d.used + d.value then None
        else
          var inner, rest := bytes[d.used..d.used + d.value], bytes[d.used + d.value..];
          match ReadInner(inner, compressed)
          case None => None
          case Some(seen) =>
            Prepend(seen, ClientReads(rest, compressed || (inner != [] && inner[0] == 0x03)))
  }

  function Prepend(seen: Seen, more: Option<seq<Seen>>): Option<seq<Seen>> {
    if more.None? then None else Some([seen] + more.value)
  }

  function ReadInner(inner: seq<byte>, compressed: bool): Option<Seen> {
    if !compressed then Some(Seen(Plain, inner))
    else match VarInt.Decode(inner)
      case None => None
      case Some(e) => Some(Seen(if e.value == 0 then Uncompressed else Deflated(e.value), inner[e.used..]))
  }

  function View(log: seq<Item>): seq<Seen> {
    if log == [] then [] else [Seen(log[0].format, log[0].body)] + View(log[1..])
  }

  lemma ClientStep(item: Item, rest: seq<byte>, compressed: bool)
    requires Sendable(item.format, item.body) && compressed == !item.format.Plain?
    ensures var inner := Inner(item.format, item.body);
            ClientReads(FrameOf(item) + rest, compressed)
            == Prepend(Seen(item.format, item.body),
                       ClientReads(rest, compressed || (inner != [] && inner[0] == 0x03)))
  {
    var inner := Inner(item.format, item.body);
    FramedParts(inner, rest);
    if compressed {
      CompressedReads(item.format, item.body);
    }
    hide Sendable, VarInt.Decode, VarInt.Encode, Inner;
  }

  lemma FramedParts(inner: seq<byte>, rest: seq<byte>)
    requires Announced(inner)
    ensures var bytes := Framed(inner) + rest;
            && bytes != []
            && VarInt.Decode(bytes).Some?
            && var d := VarInt.Decode(bytes).value;
            && d.used + d.value <= |bytes|
            && bytes[d.used..d.used + d.value] == inner && bytes[d.used + d.value..] == rest
  {
    var prefix := VarInt.Encode(|inner|);
    Regroup(prefix, inner, rest);
    VarInt.DecodeEncode(|inner|, inner + rest);
    MiddleOf(prefix, inner, rest);
  }

  lemma {:induction false} ClientReadsCompressed(items: seq<Item>)
    requires AllSendable(items) && forall i :: 0 <= i < |items| ==> !items[i].format.Plain?
    ensures ClientReads(Wire(items), true) == Some(View(items))
    decreases |items|
  {
    if items != [] {
      hide ClientReads, FrameOf, Sendable, Inner;
      ClientStep(items[0], Wire(items[1..]), true);
      ClientReadsCompressed(items[1..]);
    }
  }

  lemma {:induction false} ClientReadsStatus(items: seq<Item>)
    requires EarlyLog(items)
    ensures ClientReads(Wire(items), false) == Some(View(items))
    decreases |items|
  {
    if items != [] {
      assert StatusItem(items[0]);
      ClientStep(items[0], Wire(items[1..]), false);
      assert Inner(items[0].format, items[0].body) == items[0].body;
      hide ClientReads, FrameOf, Sendable, Inner;
      ClientReadsStatus(items[1..]);
    }
  }

  lemma ClientReadsPlay(c: Config, log: seq<Item>, user: seq<byte>, progress: nat, id: nat)
    requires PlayLog(c, log, user, progress, id)
    ensures ClientReads(Wire(log), false) == Some(View(log))
  {
    LoginSendable(user);
    assert log[0] == log[..2][0] && log[1] == log[..2][1];
    hide ClientReads, FrameOf, Sendable, Steps, Ids, KeepalivesLate, StepPacket, LoginSuccessBody;
    ClientStep(log[0], Wire(log[1..]), false);
    SwitchByte();
    ClientReadsCompressed(log[1..]);
  }

  lemma SwitchByte()
    ensures Sendable(Plain, SetCompressionBody())
    ensures Inner(Plain, SetCompressionBody()) != [] && Inner(Plain, SetCompressionBody())[0] == 0x03
  {
    VarInt.EncodeLength(COMPRESSION_THRESHOLD);
  }

  // ----- what holds in every reachable state -----

  /**
    Framing mode. Compression is on exactly in play; the session's output is plain up to and
    including Set Compression and in compressed format from Login Success on; a client reads back
    every packet; and the ring holds the part of that output not yet taken out.
  */
  lemma FramingMode(c: Config, ops: seq<Op>)
    ensures var s := Run(c, ops).s;
            && (s.srv.compressed <==> s.srv.phase == Play)
            && (s.srv.phase == Play ==>
                  && |s.srv.username| <= MAX_USERNAME && |s.log| >= 2 && s.log[..2] == LoginItems(s.srv.username)
                  && forall i :: 0 <= i < |s.log| ==> (s.log[i].format.Plain? <==> i == 0))
            && (s.srv.phase != Play ==> forall i :: 0 <= i < |s.log| ==> s.log[i].format.Plain?)
            && ClientReads(Wire(s.log), false) == Some(View(s.log))
            && IsEnd(s.tx, Wire(s.log))
  {
    RunKeeps(c, ops);
    var s := Run(c, ops).s;
    hide Run, ClientReads, Wire, View, IsEnd, Steps, Ids, KeepalivesLate, StepPacket, SetCompressionBody,
      LoginSuccessBody;
    if s.srv.phase == Play {
      ClientReadsPlay(c, s.log, s.srv.username, Progress(s.srv), s.srv.keepaliveId);
      assert s.log[0] == s.log[..2][0] && s.log[1] == s.log[..2][1];
    } else {
      ClientReadsStatus(s.log);
      assert forall i :: 0 <= i < |s.log| ==> StatusItem(s.log[i]);
    }
  }

  /**
    Bootstrap and keepalives. Under any backpressure the bootstrap packets of a play session are a
    prefix of the fixed sequence, each sent once; no keepalive is sent before the last of them; and
    keepalive ids count up from 1.
  */
  lemma BootstrapOnce(c: Config, ops: seq<Op>)
    requires Run(c, ops).s.srv.phase == Play
    ensures var s := Run(c, ops).s;
            && Steps(s.log) == Upto(Progress(s.srv)) && Progress(s.srv) <= Total(c)
            && (forall i :: 2 <= i < |s.log| ==> StepPacket(c, s.log[i]))
            && (s.srv.bootstrapSent ==> Progress(s.srv) == Total(c))
            && KeepalivesLate(c, s.log)
            && Consecutive(Ids(s.log)) && s.srv.keepaliveId == LastId(Ids(s.log))
  {
    RunKeeps(c, ops);
    hide Run, Steps, Ids, KeepalivesLate, StepPacket, LoginItems, Consecutive, Upto;
  }

  /** A reply is queued whole, with its change, exactly when all of its frames fit; else nothing happens. */
  lemma ReplyAllOrNothing(c: Config, s: Session, reply: Reply)
    requires |reply.text| < TEXT_CAP
    ensures var items := ReplyItems(FormatNow(s.srv), reply);
            var o := Execute(c, s, reply);
            && (o.ok <==> |Wire(items)| <= c.cap - |s.tx|)
            && (o.ok ==> o.s.tx == s.tx + Wire(items) && o.s.log == s.log + items)
            && (!o.ok ==> o.s == s)
  {
    ReplySendable(FormatNow(s.srv), reply);
    hide ReplyItems, Wire, AllSendable;
  }
}
