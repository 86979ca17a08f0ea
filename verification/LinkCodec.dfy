/**
  UART link v2 frames: header, payload and checksum, COBS-encoded and ended by a zero byte.
  One definition of the wire format, and the firmware's and the bridge's encoders and decoders
  proved to compute it.
*/
module LinkCodec {
  import opened Bytes
  import Cobs
  import CobsLoops
  import Crc

  const VERSION: byte := 2
  const DELIMITER: byte := 0
  const HEADER_LEN := 9
  const CRC_LEN := 2
  const MAX_ENCODED_LEN := 512
  const MAX_PAYLOAD := 497
  const MAX_BODY_LEN := HEADER_LEN + MAX_PAYLOAD + CRC_LEN

  const HELLO: byte := 0x01
  const READY: byte := 0x02
  const DATA_C2M: byte := 0x03
  const ACK_C2M: byte := 0x04
  const DATA_M2C: byte := 0x05
  const RATE_PROBE: byte := 0x06
  const RATE_PROBE_ACK: byte := 0x07
  const RESET: byte := 0x08
  const RESET_ACK: byte := 0x09
  const ERROR: byte := 0x0a
  const PING: byte := 0x0b
  const PONG: byte := 0x0c

  datatype Frame = Frame(kind: byte, flags: byte, seqNo: u16, ack: u16, payload: seq<byte>)

  /** The bridge refuses to encode a type outside its enumeration. */
  predicate Known(kind: byte) {
    HELLO <= kind <= PONG
  }

  // ----- the format -----

  function Header(kind: byte, seqNo: u16, ack: u16, length: u16): (h: seq<byte>)
    ensures |h| == HEADER_LEN
  {
    [VERSION, kind, 0, Lo(seqNo), Hi(seqNo), Lo(ack), Hi(ack), Lo(length), Hi(length)]
  }

  function Content(kind: byte, seqNo: u16, ack: u16, payload: seq<byte>): seq<byte>
    requires |payload| <= MAX_PAYLOAD
  {
    Header(kind, seqNo, ack, |payload|) + payload
  }

  function Seal(content: seq<byte>): seq<byte> {
    var crc := Crc.Crc16(content);
    content + [Lo(crc), Hi(crc)]
  }

  /** The bytes that go on the UART for one frame. */
  function Wire(kind: byte, seqNo: u16, ack: u16, payload: seq<byte>): (w: seq<byte>)
    requires |payload| <= MAX_PAYLOAD
    ensures w != [] && w[|w| - 1] == DELIMITER
  {
    Cobs.Encode(Seal(Content(kind, seqNo, ack, payload))) + [DELIMITER]
  }

  /** A terminated byte string with its only zero at the end: what a parser cuts out of a stream. */
  predicate Delimited(s: seq<byte>) {
    s != [] && s[|s| - 1] == DELIMITER && Cobs.NoZero(s[..|s| - 1])
  }

  function Unwire(src: seq<byte>): (f: Option<Frame>)
    ensures f.Some? ==> |f.value.payload| <= MAX_PAYLOAD
  {
    if !(2 <= |src| <= MAX_ENCODED_LEN && Delimited(src)) then None
    else match Cobs.Decode(src[..|src| - 1])
      case None => None
      case Some(body) => Unseal(body)
  }

  function Unseal(body: seq<byte>): (f: Option<Frame>)
    ensures f.Some? ==> |body| == HEADER_LEN + |f.value.payload| + CRC_LEN <= MAX_BODY_LEN
  {
    if |body| < HEADER_LEN + CRC_LEN || body[0] != VERSION then None
    else
      var length := Word(body[7], body[8]);
      var end := HEADER_LEN + length;
      if length > MAX_PAYLOAD || |body| != end + CRC_LEN then None
      else if Crc.Crc16(body[..end]) != Word(body[end], body[end + 1]) then None
      else Some(Frame(body[1], body[2], Word(body[3], body[4]), Word(body[5], body[6]), body[HEADER_LEN..end]))
  }

  // ----- what holds of the format -----

  lemma WordSplit(w: u16)
    ensures Word(Lo(w), Hi(w)) == w
  {
  }

  lemma UnsealSeal(kind: byte, seqNo: u16, ack: u16, payload: seq<byte>)
    requires |payload| <= MAX_PAYLOAD
    ensures Unseal(Seal(Content(kind, seqNo, ack, payload))) == Some(Frame(kind, 0, seqNo, ack, payload))
  {
    hide Crc.Crc16;
    var content := Content(kind, seqNo, ack, payload);
    var body := Seal(content);
    assert body[..|content|] == content;
    assert body[HEADER_LEN..|content|] == payload;
    WordSplit(seqNo);
    WordSplit(ack);
    WordSplit(|payload|);
    WordSplit(Crc.Crc16(content));
  }

  /** Every encodable frame fits the 512-byte limit, and its only zero byte is the last one. */
  lemma WireShape(kind: byte, seqNo: u16, ack: u16, payload: seq<byte>)
    requires |payload| <= MAX_PAYLOAD
    ensures var w := Wire(kind, seqNo, ack, payload);
            && Delimited(w) && |w| <= MAX_ENCODED_LEN
            && |payload| + HEADER_LEN + CRC_LEN + 2 <= |w| <= |payload| + HEADER_LEN + CRC_LEN + 4
  {
    var body := Seal(Content(kind, seqNo, ack, payload));
    var w := Wire(kind, seqNo, ack, payload);
    assert w[..|w| - 1] == Cobs.Encode(body);
    Cobs.EncodeHasNoZero(body);
    Cobs.EncodeLength(body);
    if |payload| == MAX_PAYLOAD {
      assert |body| == 508;
    }
  }

  /** Round trip: what was encoded is what is decoded. */
  lemma UnwireWire(kind: byte, seqNo: u16, ack: u16, payload: seq<byte>)
    requires |payload| <= MAX_PAYLOAD
    ensures Unwire(Wire(kind, seqNo, ack, payload)) == Some(Frame(kind, 0, seqNo, ack, payload))
  {
    hide Cobs.Encode, Cobs.Decode, Seal, Unseal;
    var body := Seal(Content(kind, seqNo, ack, payload));
    var w := Wire(kind, seqNo, ack, payload);
    WireShape(kind, seqNo, ack, payload);
    assert w[..|w| - 1] == Cobs.Encode(body);
    Cobs.DecodeEncode(body);
    UnsealSeal(kind, seqNo, ack, payload);
  }

  /** Distinct frames have distinct encodings. */
  lemma WireInjective(k1: byte, s1: u16, a1: u16, p1: seq<byte>, k2: byte, s2: u16, a2: u16, p2: seq<byte>)
    requires |p1| <= MAX_PAYLOAD && |p2| <= MAX_PAYLOAD
    requires Wire(k1, s1, a1, p1) == Wire(k2, s2, a2, p2)
    ensures k1 == k2 && s1 == s2 && a1 == a2 && p1 == p2
  {
    hide Wire, Unwire;
    UnwireWire(k1, s1, a1, p1);
    UnwireWire(k2, s2, a2, p2);
  }

  /**
    A frame whose header or payload was hit by one burst of at most sixteen bits, its checksum
    bytes intact, is rejected whatever the burst did to the length field or the version.
  */
  lemma BurstRejected(content: seq<byte>, damaged: seq<byte>, start: nat)
    requires |damaged| == |content|
    requires damaged != content
    requires Crc.DifferInsideWindow(Crc.Bits(content), Crc.Bits(damaged), start)
    ensures var crc := Crc.Crc16(content);
            Unwire(Cobs.Encode(damaged + [Lo(crc), Hi(crc)]) + [DELIMITER]) == None
  {
    var crc := Crc.Crc16(content);
    var body := damaged + [Lo(crc), Hi(crc)];
    var w := Cobs.Encode(body) + [DELIMITER];
    assert w[..|w| - 1] == Cobs.Encode(body);
    Cobs.DecodeEncode(body);
    Crc.BurstDetected(content, damaged, start);
    WordSplit(crc);
    assert body[..|damaged|] == damaged;
  }

  // ----- the firmware's encoder and decoder -----

  /** `mc_link_encode`: streams header, payload and checksum into the caller's buffer. */
  method EncodeInto(kind: byte, seqNo: u16, ack: u16, payload: seq<byte>, out: array<byte>)
    returns (ok: bool, length: int)
    modifies out
    ensures ok == (|payload| <= MAX_PAYLOAD && |Wire(kind, seqNo, ack, payload)| <= out.Length)
    ensures ok ==> 0 <= length <= out.Length && out[..length] == Wire(kind, seqNo, ack, payload)
    ensures !ok ==> length == 0
  {
    hide Cobs.Encode, Crc.AddByte, Crc.ToWord;
    length := 0;
    if |payload| > MAX_PAYLOAD {
      return false, 0;
    }
    WireShape(kind, seqNo, ack, payload);
    if out.Length == 0 {
      return false, 0;
    }
    var header := Header(kind, seqNo, ack, |payload|);
    var crc := Crc.UpdateLoop(Crc.INIT, header);
    if |payload| > 0 {
      crc := Crc.UpdateLoop(crc, payload);
    }
    Crc.UpdateAppend(Crc.INITIAL, header, payload);
    var crcBytes := [Lo(crc), Hi(crc)];
    ok, length := StreamPieces(header, payload, crcBytes, out);
    if !ok {
      return false, 0;
    }
    if length > MAX_ENCODED_LEN - 1 || length + 1 > out.Length {
      return false, 0;
    }
    out[length] := DELIMITER;
    length := length + 1;
    assert out[..length] == Wire(kind, seqNo, ack, payload);
  }

  method StreamPieces(a: seq<byte>, b: seq<byte>, c: seq<byte>, out: array<byte>) returns (ok: bool, length: nat)
    requires out.Length > 0
    modifies out
    ensures ok == (|Cobs.Encode(a + b + c)| <= out.Length - 1)
    ensures ok ==> length <= out.Length - 1 && out[..length] == Cobs.Encode(a + b + c)
  {
    Cobs.StreamIsEncode(a + b + c);
    Cobs.FeedAppend(Cobs.EMPTY, a + b, c);
    Cobs.FeedAppend(Cobs.EMPTY, a, b);
    length := 0;
    var encoder := new CobsLoops.StreamEncoder(out, out.Length - 1);
    ok := encoder.Write(a);
    if ok {
      ok := encoder.Write(b);
      if ok {
        ok := encoder.Write(c);
        if ok {
          ok, length := encoder.FinishBlock();
        }
      }
    }
  }

  /** `decode_frame_with_scratch`: COBS-decodes into a 508-byte scratch buffer, then checks the body. */
  method DecodeWithScratch(src: seq<byte>, scratch: array<byte>) returns (frame: Option<Frame>)
    requires scratch.Length == MAX_BODY_LEN
    modifies scratch
    ensures frame == Unwire(src)
  {
    hide Unseal, Cobs.Decode;
    if |src| == 0 {
      return None;
    }
    if |src| > MAX_ENCODED_LEN || src[|src| - 1] != DELIMITER {
      return None;
    }
    var encoded := src[..|src| - 1];
    if |encoded| == 0 || |encoded| > MAX_ENCODED_LEN - 1 {
      return None;
    }
    for i := 0 to |encoded|
      invariant Cobs.NoZero(encoded[..i])
    {
      if encoded[i] == DELIMITER {
        return None;
      }
    }
    assert encoded[..|encoded|] == encoded;
    var ok, bodyLen := CobsLoops.DecodeInto(encoded, scratch);
    if !ok {
      LongBodyRejected(encoded);
      return None;
    }
    frame := VerifyBody(scratch[..bodyLen]);
  }

  /** A body too long for the scratch buffer would fail the length check anyway. */
  lemma LongBodyRejected(encoded: seq<byte>)
    ensures Cobs.Decode(encoded).Some? && |Cobs.Decode(encoded).value| > MAX_BODY_LEN
        ==> Unseal(Cobs.Decode(encoded).value) == None
  {
    hide Cobs.Decode, Crc.Crc16;
  }

  /** The checks `decode_frame_with_scratch` makes on the decoded body. */
  method VerifyBody(body: seq<byte>) returns (frame: Option<Frame>)
    ensures frame == Unseal(body)
  {
    hide Crc.Update, Crc.ToWord;
    if |body| < HEADER_LEN + CRC_LEN {
      return None;
    }
    if body[0] != VERSION {
      return None;
    }
    var length := Word(body[7], body[8]);
    if length > MAX_PAYLOAD {
      return None;
    }
    if |body| != HEADER_LEN + length + CRC_LEN {
      return None;
    }
    var expected := Word(body[HEADER_LEN + length], body[HEADER_LEN + length + 1]);
    var crc := Crc.UpdateLoop(Crc.INIT, body[..HEADER_LEN + length]);
    if crc != expected {
      return None;
    }
    return Some(Frame(body[1], body[2], Word(body[3], body[4]), Word(body[5], body[6]),
                      body[HEADER_LEN..HEADER_LEN + length]));
  }

  // ----- the bridge's encoder and decoder -----

  /** `link::encode`. */
  method EncodeVector(kind: byte, seqNo: u16, ack: u16, payload: seq<byte>) returns (encoded: Option<seq<byte>>)
    ensures encoded.Some? <==> |payload| <= MAX_PAYLOAD && Known(kind)
    ensures encoded.Some? ==> encoded.value == Wire(kind, seqNo, ack, payload)
  {
    if |payload| > MAX_PAYLOAD {
      return None;
    }
    if !Known(kind) {
      return None;
    }
    WireShape(kind, seqNo, ack, payload);
    var body := Header(kind, seqNo, ack, |payload|) + payload;
    var crc := Crc.UpdateLoop(Crc.INIT, body);
    body := body + [Lo(crc), Hi(crc)];
    var stuffed := CobsLoops.EncodeVector(body);
    stuffed := stuffed + [DELIMITER];
    if |stuffed| > MAX_ENCODED_LEN {
      return None;
    }
    return Some(stuffed);
  }

  datatype DecodeError = BadCobs | BadCrc | BadVersion(found: byte) | BadLength | PayloadTooLarge

  datatype DecodeResult = Ok(frame: Frame) | Err(error: DecodeError)

  /** `link::decode_one`: the same strings are accepted as by the firmware. */
  method DecodeOne(src: seq<byte>) returns (r: DecodeResult)
    ensures r.Ok? <==> Unwire(src).Some?
    ensures r.Ok? ==> Unwire(src) == Some(r.frame)
    ensures r == Err(BadCrc) ==> Delimited(src) && Cobs.Decode(src[..|src| - 1]).Some?
  {
    hide Unseal, Cobs.Decode;
    if |src| > MAX_ENCODED_LEN || |src| == 0 || src[|src| - 1] != DELIMITER {
      return Err(BadLength);
    }
    var encoded := src[..|src| - 1];
    if encoded == [] {
      return Err(BadLength);
    }
    if DELIMITER in encoded {
      return Err(BadCobs);
    }
    var decoded := CobsLoops.DecodeVector(encoded);
    if decoded.None? {
      return Err(BadCobs);
    }
    r := CheckBody(decoded.value);
  }

  /** The second half of `link::decode_one`, on the COBS-decoded body. */
  method CheckBody(body: seq<byte>) returns (r: DecodeResult)
    ensures r.Ok? <==> Unseal(body).Some?
    ensures r.Ok? ==> Unseal(body) == Some(r.frame)
  {
    hide Crc.Update, Crc.ToWord;
    if |body| < HEADER_LEN + CRC_LEN {
      return Err(BadLength);
    }
    if body[0] != VERSION {
      return Err(BadVersion(body[0]));
    }
    var length := Word(body[7], body[8]);
    if length > MAX_PAYLOAD {
      return Err(PayloadTooLarge);
    }
    if |body| != HEADER_LEN + length + CRC_LEN {
      return Err(BadLength);
    }
    var crcOffset := HEADER_LEN + length;
    var crc := Crc.UpdateLoop(Crc.INIT, body[..crcOffset]);
    if crc != Word(body[crcOffset], body[crcOffset + 1]) {
      return Err(BadCrc);
    }
    return Ok(Frame(body[1], body[2], Word(body[3], body[4]), Word(body[5], body[6]),
                    body[HEADER_LEN..crcOffset]));
  }
}
