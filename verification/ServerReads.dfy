/**
  The serverbound packets of a client that follows the protocol are understood: each packet, laid out
  by its fields, is parsed back to those fields and has the effect it stands for.
*/
module ServerReads {
  import opened Bytes
  import opened Packet
  import opened Commands
  import opened Fixed2
  import opened Server
  import Arith
  import VarInt

  // ----- fields -----

  lemma ReadAt(before: seq<byte>, v: u32, rest: seq<byte>)
    ensures ReadVarInt(before + VarInt.Encode(v) + rest, |before|)
         == Some(Field(v, |before + VarInt.Encode(v)|))
  {
    var e := VarInt.Encode(v);
    var body := before + e + rest;
    assert body[|before|..] == e + rest;
    VarInt.DecodeEncode(v, rest);
  }

  lemma ReadStringAt(before: seq<byte>, s: seq<byte>, rest: seq<byte>, cap: nat)
    requires |s| < cap <= 0x8000
    ensures var body, end := before + Str(s) + rest, |before + Str(s)|;
            && ReadString(body, |before|, cap) == Some(Field(|s|, end))
            && StringAt(body, Field(|s|, end)) == s
  {
    var e := VarInt.Encode(|s|);
    var body := before + Str(s) + rest;
    assert body == before + e + (s + rest);
    ReadAt(before, |s|, s + rest);
    assert body[|before + e|..|before + e| + |s|] == s;
  }

  // ----- handshake -----

  /** Packet id 0, protocol version, server address, port and next state. */
  function HandshakeBody(proto: u32, host: seq<byte>, port: seq<byte>, next: u32): seq<byte>
    requires |host| < 256 && |port| == 2
  {
    [0x00] + VarInt.Encode(proto) + Str(host) + port + VarInt.Encode(next)
  }

  lemma HandshakeParts(proto: u32, host: seq<byte>, port: seq<byte>, next: u32)
    requires |host| < 256 && |port| == 2
    ensures var body := HandshakeBody(proto, host, port, next);
            ReadVarInt(body, 0) == Some(Field(0, 1)) && NextState(body, 1) == Some(next)
  {
    hide HandshakeBody, NextState;
    HandshakeAndMore(proto, host, port, next, []);
    assert HandshakeBody(proto, host, port, next) + [] == HandshakeBody(proto, host, port, next);
  }

  /** With anything behind its last field, it is no handshake. */
  lemma HandshakeAndMore(proto: u32, host: seq<byte>, port: seq<byte>, next: u32, more: seq<byte>)
    requires |host| < 256 && |port| == 2
    ensures var body := HandshakeBody(proto, host, port, next) + more;
            && ReadVarInt(body, 0) == Some(Field(0, 1))
            && NextState(body, 1) == if more == [] then Some(next) else None
  {
    hide VarInt.Encode, Str;
    var p, h, n := VarInt.Encode(proto), Str(host), VarInt.Encode(next);
    ZeroByte();
    Six([0x00], p, h, port, n, more);
    ReadAt([], 0, p + h + port + n + more);
    ReadAt([0x00], proto, h + port + n + more);
    ReadStringAt([0x00] + p, host, port + n + more, 256);
    ReadAt([0x00] + p + h + port, next, more);
    assert [] + [0x00] == [0x00];
    hide ReadVarInt, ReadString;
  }

  lemma ZeroByte()
    ensures VarInt.Encode(0) == [0x00] && VarInt.Encode(1) == [0x01]
  {
  }

  lemma Six(a: seq<byte>, b: seq<byte>, c: seq<byte>, d: seq<byte>, e: seq<byte>, f: seq<byte>)
    ensures a + b + c + d + e + f == [] + a + (b + c + d + e + f)
    ensures a + b + c + d + e + f == a + b + (c + d + e + f)
    ensures a + b + c + d + e + f == (a + b) + c + (d + e + f)
    ensures a + b + c + d + e + f == (a + b + c + d) + e + f
  {
  }

  /** Outside play a well-formed handshake always starts a fresh status or login session. */
  lemma HandshakeUnderstood(
    c: Config, s: Session, proto: u32, host: seq<byte>, port: seq<byte>, next: u32)
    requires |host| < 256 && |port| == 2 && s.srv.phase != Play
    ensures var o := HandlePacket(c, s, HandshakeBody(proto, host, port, next));
            && (next == 1 ==> o == Outcome(true, NewSession(RESET.(phase := Status))))
            && (next == 2 ==> o == Outcome(true, NewSession(RESET.(phase := Login))))
            && (next != 1 && next != 2 ==> o == Outcome(false, s.(srv := RESET)))
  {
    hide HandshakeBody, ReadVarInt, NextState, LoginName, HandleLogin, NewSession;
    HandshakeParts(proto, host, port, next);
  }

  // ----- login -----

  /** A C string is what comes before the first NUL. */
  lemma {:induction false} CStringEnds(b: seq<byte>)
    ensures var n := |CString(b)|;
            && CString(b) == b[..n] && (n < |b| ==> b[n] == 0)
            && forall i :: 0 <= i < n ==> b[i] != 0
    decreases |b|
  {
    if b != [] && b[0] != 0 {
      CStringEnds(b[1..]);
      assert b[..|CString(b)|] == [b[0]] + b[1..][..|CString(b[1..])|];
      assert forall i :: 0 < i < |CString(b)| ==> b[i] == b[1..][i - 1];
    }
  }

  /** Packet id 0 and a name. */
  function LoginBody(name: seq<byte>): seq<byte>
    requires |name| < 0x8000
  {
    [0x00] + Str(name)
  }

  lemma LoginParts(name: seq<byte>)
    requires |name| < 0x8000
    ensures ReadVarInt(LoginBody(name), 0) == Some(Field(0, 1))
    ensures LoginName(LoginBody(name), 1) == if |name| <= MAX_USERNAME then Some(CString(name)) else None
  {
    hide VarInt.Encode, CString, Str, ReadVarInt;
    IdAndString(0, name);
    ReadStringAt([0x00], name, [], 0x8000);
    hide StringAt;
  }

  /** A packet id of one byte, and a string that fills the rest of the packet. */
  lemma IdAndString(id: u32, text: seq<byte>)
    requires id < 0x80 && |text| < 0x8000
    ensures ReadVarInt([id] + Str(text), 0) == Some(Field(id, 1))
    ensures [id] + Str(text) == [id] + Str(text) + []
  {
    hide Str, ReadVarInt;
    OneByte(id);
    assert [] + [id] + Str(text) == [id] + Str(text);
    ReadAt([], id, Str(text));
  }

  lemma OneByte(id: u32)
    requires id < 0x80
    ensures VarInt.Encode(id) == [id]
  {
  }

  /** A length made of bytes from 0x20 on is at least 0x20. */
  lemma {:induction false} GroupsAtLeast(src: seq<byte>, max: nat)
    requires VarInt.Groups(src, max).Some? && !HasControl(src)
    ensures VarInt.Groups(src, max).value.value >= 0x20
    decreases max
  {
    if src[0] >= 0x80 {
      GroupsAtLeast(src[1..], max - 1);
    }
  }

  /** A Login Start whose name has no control bytes is never mistaken for a handshake. */
  lemma LoginIsNoHandshake(name: seq<byte>)
    requires 0 < |name| <= MAX_USERNAME && !HasControl(name)
    ensures NextState(LoginBody(name), 1) == None
  {
    var body, e := LoginBody(name), VarInt.Encode(|name|);
    assert e == [|name|];
    assert body == [0x00] + e + name && body[2..] == name;
    ReadAt([0x00], |name|, name);
    if VarInt.Groups(name, 5).Some? {
      GroupsAtLeast(name, 5);
    }
    assert ReadString(body, 2, 256) == None;
    hide ReadVarInt, ReadString, VarInt.Encode;
  }

  /** What a Login Start with this name does, unless it also reads as a handshake. */
  function Entered(c: Config, s: Session, name: seq<byte>): Outcome {
    if |name| > MAX_USERNAME || CString(name) == [] then Outcome(false, s)
    else
      var user: Name := CString(name);
      var o := QueueBatch(c, s, LoginItems(user));
      if o.ok then Outcome(true, o.s.(srv := s.srv.(phase := Play, compressed := true, username := user))) else o
  }

  /**
    Login Start, for every name: it enters play under that name, up to a NUL, exactly if the name is
    neither empty nor too long and both answers fit, except that a name whose bytes happen to complete
    a handshake packet is taken for one.
  */
  lemma LoginUnderstood(c: Config, s: Session, name: seq<byte>)
    requires s.srv.phase == Login && |name| < 0x8000
    ensures var o, next := HandlePacket(c, s, LoginBody(name)), NextState(LoginBody(name), 1);
            && (next == None ==> o == Entered(c, s, name))
            && (next == Some(1) ==> o == Outcome(true, NewSession(RESET.(phase := Status))))
            && (next == Some(2) ==> o == Outcome(true, NewSession(RESET.(phase := Login))))
            && (next != None && next != Some(1) && next != Some(2) ==> o == Outcome(false, s.(srv := RESET)))
  {
    hide Entered, ReadVarInt, NextState, LoginName, LoginBody, NewSession, HandleLogin;
    LoginParts(name);
    LoginEnters(c, s, name);
  }

  lemma LoginEnters(c: Config, s: Session, name: seq<byte>)
    ensures Entered(c, s, name)
         == HandleLogin(c, s, if |name| <= MAX_USERNAME then Some(CString(name)) else None)
  {
    hide QueueBatch, LoginItems, CString;
  }

  /** Names without control bytes, non-ASCII ones included, always log in under exactly that name. */
  lemma NamesLogIn(c: Config, s: Session, name: seq<byte>)
    requires s.srv.phase == Login && 0 < |name| <= MAX_USERNAME && !HasControl(name)
    ensures CString(name) == name && HandlePacket(c, s, LoginBody(name)) == Entered(c, s, name)
  {
    hide Entered, HandlePacket, LoginBody, NextState;
    NoControlIsCString(name);
    LoginIsNoHandshake(name);
    LoginUnderstood(c, s, name);
  }

  lemma {:induction false} NoControlIsCString(name: seq<byte>)
    requires !HasControl(name)
    ensures CString(name) == name
    decreases |name|
  {
    if name != [] {
      assert name[0] >= 0x20;
      NoControlIsCString(name[1..]);
    }
  }

  /** A name that is taken for a handshake: two bytes of an empty address, a port and next state 2. */
  lemma MistakenLogin()
    ensures NextState(LoginBody([0, 7, 7, 2]), 1) == Some(2)
  {
    var name: seq<byte> := [0, 7, 7, 2];
    var body := LoginBody(name);
    ZeroByte();
    assert VarInt.Encode(4) == [4] && VarInt.Encode(2) == [2];
    assert body == [0x00] + [4] + name && body == [0x00, 4] + [0] + [7, 7, 2] && body == [0x00, 4, 0, 7, 7] + [2] + [];
    ReadAt([0x00], 4, name);
    ReadAt([0x00, 4], 0, [7, 7, 2]);
    ReadAt([0x00, 4, 0, 7, 7], 2, []);
    hide ReadVarInt;
  }

  // ----- movement -----

  lemma BeReads32(v: u32)
    ensures U32(Be(4, v)) == v
  {
    var a := v / 0x100;
    var b := a / 0x100;
    var d := b / 0x100;
    BeFour(v, a, b, d);
  }

  lemma BeFour(v: u32, a: nat, b: nat, d: nat)
    requires a == v / 0x100 && b == a / 0x100 && d == b / 0x100
    ensures Be(4, v) == [d % 0x100, b % 0x100, a % 0x100, v % 0x100] && d < 0x100
  {
    assert Be(1, d) == [d % 0x100];
    assert Be(2, b) == [d % 0x100, b % 0x100];
    assert Be(3, a) == [d % 0x100, b % 0x100, a % 0x100];
  }

  lemma {:induction false} BeSplit(n: nat, k: nat, a: nat, b: nat)
    requires b < Pow256(k)
    ensures Be(n + k, a * Pow256(k) + b) == Be(n, a) + Be(k, b)
    decreases k
  {
    if k == 0 {
      assert Be(n, a) + [] == Be(n, a);
    } else {
      hide Be, Pow256;
      var q := Pow256(k - 1);
      Pow256Step(k);
      Shifted(a, q, b);
      BeSplit(n, k - 1, a, b / 0x100);
      BeStep(n + k, a * Pow256(k) + b);
      BeStep(k, b);
      Regroup(Be(n, a), Be(k - 1, b / 0x100), [b % 0x100]);
    }
  }

  lemma Shifted(a: nat, q: nat, b: nat)
    requires q > 0 && b < 0x100 * q
    ensures b / 0x100 < q
    ensures (a * (0x100 * q) + b) / 0x100 == a * q + b / 0x100
    ensures (a * (0x100 * q) + b) % 0x100 == b % 0x100
  {
    Arith.MulAssoc(a, 0x100, q);
    var x := a * q;
    assert a * (0x100 * q) == 0x100 * x;
  }

  lemma Pow256Step(k: nat)
    requires k > 0
    ensures Pow256(k) == 0x100 * Pow256(k - 1)
  {
  }

  lemma BeStep(k: nat, v: nat)
    requires k > 0
    ensures Be(k, v) == Be(k - 1, v / 0x100) + [v % 0x100]
  {
  }

  function Pow256(k: nat): (p: nat)
    ensures p > 0
  {
    if k == 0 then 1 else 0x100 * Pow256(k - 1)
  }

  lemma BeReads64(v: u64)
    ensures U64(Be(8, v)) == v
  {
    assert Pow256(1) == 0x100 && Pow256(2) == 0x1_0000 && Pow256(3) == 0x100_0000 && Pow256(4) == 0x1_0000_0000;
    var hi, lo := v / 0x1_0000_0000, v % 0x1_0000_0000;
    BeSplit(4, 4, hi, lo);
    BeReads32(hi);
    BeReads32(lo);
    hide Be, U32;
    assert (Be(4, hi) + Be(4, lo))[..4] == Be(4, hi) && (Be(4, hi) + Be(4, lo))[4..] == Be(4, lo);
  }

  function Flag(b: bool): seq<byte> {
    if b then [1] else [0]
  }

  function PointBytes(p: Position): seq<byte> {
    Be(8, p.x) + Be(8, p.y) + Be(8, p.z)
  }

  function AngleBytes(p: Position): seq<byte> {
    Be(4, p.yaw) + Be(4, p.pitch)
  }

  lemma PointReads(p: Position, rest: seq<byte>)
    ensures var m := PointBytes(p) + rest;
            U64(m[0..8]) == p.x && U64(m[8..16]) == p.y && U64(m[16..24]) == p.z
  {
    hide Be, U64;
    var m := PointBytes(p) + rest;
    assert m[0..8] == Be(8, p.x) && m[8..16] == Be(8, p.y) && m[16..24] == Be(8, p.z);
    BeReads64(p.x);
    BeReads64(p.y);
    BeReads64(p.z);
  }

  lemma AngleReads(before: seq<byte>, p: Position, rest: seq<byte>)
    ensures var m, n := before + AngleBytes(p) + rest, |before|;
            U32(m[n..n + 4]) == p.yaw && U32(m[n + 4..n + 8]) == p.pitch
  {
    hide Be, U32;
    var m, n := before + AngleBytes(p) + rest, |before|;
    assert m[n..n + 4] == Be(4, p.yaw) && m[n + 4..n + 8] == Be(4, p.pitch);
    BeReads32(p.yaw);
    BeReads32(p.pitch);
  }

  /** Each of the four movement packets stores exactly the fields it carries and keeps the others. */
  lemma MovementUnderstood(srv: Server, p: Position, ground: bool)
    ensures Movement(srv, 3, Flag(ground)) == Some(srv.(onGround := ground))
    ensures Movement(srv, 4, PointBytes(p) + Flag(ground))
         == Some(srv.(at := srv.at.(x := p.x, y := p.y, z := p.z), onGround := ground))
    ensures Movement(srv, 5, AngleBytes(p) + Flag(ground))
         == Some(srv.(at := srv.at.(yaw := p.yaw, pitch := p.pitch), onGround := ground))
    ensures Movement(srv, 6, PointBytes(p) + AngleBytes(p) + Flag(ground)) == Some(srv.(at := p, onGround := ground))
  {
    hide U32, U64, Be;
    var f := Flag(ground);
    PointReads(p, f);
    AngleReads([], p, f);
    PointReads(p, AngleBytes(p) + f);
    AngleReads(PointBytes(p), p, f);
    assert [] + AngleBytes(p) + f == AngleBytes(p) + f;
    assert PointBytes(p) + AngleBytes(p) + f == PointBytes(p) + (AngleBytes(p) + f);
    MovementOnly(srv, p, ground);
  }

  lemma MovementOnly(srv: Server, p: Position, ground: bool)
    requires var m := PointBytes(p) + AngleBytes(p) + Flag(ground);
             && U64(m[0..8]) == p.x && U64(m[8..16]) == p.y && U64(m[16..24]) == p.z
             && U32(m[24..28]) == p.yaw && U32(m[28..32]) == p.pitch
    ensures Movement(srv, 6, PointBytes(p) + AngleBytes(p) + Flag(ground)) == Some(srv.(at := p, onGround := ground))
  {
    hide U32, U64, Be;
  }

  // ----- chat -----

  /** A chat packet is carried out as the command model answers it. */
  lemma ChatUnderstood(c: Config, s: Session, message: ChatBytes)
    requires s.srv.phase == Play && !HasControl(message)
    ensures var reply := Answer(TextOf(s.srv.username), TextOf(message), s.srv.at);
            && (reply.None? ==> HandlePacket(c, s, [0x01] + Str(message)) == Outcome(false, s))
            && (reply.Some? ==> |reply.value.text| < TEXT_CAP)
            && (reply.Some? ==> HandlePacket(c, s, [0x01] + Str(message)) == Execute(c, s, reply.value))
  {
    ChatParts(message);
    hide Answer, Execute, ReadRequest, Str;
    Answered(TextOf(s.srv.username), TextOf(message), s.srv.at);
  }

  lemma ChatParts(message: ChatBytes)
    requires !HasControl(message)
    ensures ReadRequest(Play, [0x01] + Str(message)) == ChatLine(message)
  {
    hide Str, ReadVarInt, HasControl;
    IdAndString(1, message);
    ReadStringAt([0x01], message, [], TEXT_CAP);
    hide StringAt, ReadString;
  }
}
