/**
  The encoders and decoders as they are written: the firmware's works in place on a caller's
  buffer and can run out of room, the bridge's grows a vector. All are proved against `Cobs`.
*/
module CobsLoops {
  import opened Bytes
  import opened Cobs

  /** `cobs_stream_encoder_t`: writes into the first `cap` bytes of `dst`. */
  class StreamEncoder {
    const dst: array<byte>
    const cap: nat
    var writeIndex: nat
    var codeIndex: nat
    var code: int
    var blockOpen: bool
    var trailingZeroPending: bool

    ghost predicate Valid()
      reads this, dst
    {
      && cap <= dst.Length
      && writeIndex <= cap
      && (blockOpen ==> codeIndex < writeIndex && code == writeIndex - codeIndex < 255)
      && State().Valid()
    }

    /** The stream state the buffer holds; the reserved code byte of an open block is not part of it. */
    ghost function State(): Stream
      requires writeIndex <= dst.Length
      requires blockOpen ==> codeIndex < writeIndex
      reads this, dst
    {
      if blockOpen
      then Stream(dst[..codeIndex], dst[codeIndex + 1..writeIndex], true, false)
      else Stream(dst[..writeIndex], [], false, trailingZeroPending)
    }

    constructor (dst: array<byte>, cap: nat)
      requires cap <= dst.Length
      ensures Valid() && this.dst == dst && this.cap == cap
      ensures State() == EMPTY
    {
      this.dst, this.cap := dst, cap;
      writeIndex, codeIndex, code := 0, 0, 1;
      blockOpen, trailingZeroPending := false, false;
    }

    /** `cobs_stream_open_block`: reserve the code byte of a new block. */
    method OpenBlock() returns (ok: bool)
      requires Valid() && !blockOpen
      modifies this
      ensures Valid()
      ensures ok == (old(writeIndex) < cap)
      ensures ok ==> State() == old(State()).(open := true, pendingZero := false)
      ensures !ok ==> State() == old(State())
    {
      if writeIndex >= cap {
        return false;
      }
      codeIndex, writeIndex := writeIndex, writeIndex + 1;
      code, blockOpen, trailingZeroPending := 1, true, false;
      return true;
    }

    /** Patch the code byte of the open block, which is what closes it. */
    method CloseBlock(zeroEnded: bool)
      requires blockOpen && codeIndex < writeIndex <= cap <= dst.Length
      requires code == writeIndex - codeIndex <= 255
      modifies this`blockOpen, this`trailingZeroPending, dst
      ensures !blockOpen && trailingZeroPending == zeroEnded
      ensures dst[..writeIndex] == old(dst[..codeIndex]) + [code] + old(dst[codeIndex + 1..writeIndex])
      ensures forall i :: cap <= i < dst.Length ==> dst[i] == old(dst[i])
    {
      dst[codeIndex] := code;
      blockOpen, trailingZeroPending := false, zeroEnded;
    }

    /** `cobs_stream_write_byte`. Fails exactly when the byte does not fit. */
    method WriteByte(b: byte) returns (ok: bool)
      requires Valid()
      modifies this, dst
      ensures Valid()
      ensures ok == (Step(old(State()), b).Size() <= cap)
      ensures ok ==> State() == Step(old(State()), b)
      ensures forall i :: cap <= i < dst.Length ==> dst[i] == old(dst[i])
    {
      if !blockOpen {
        var room := OpenBlock();
        if !room {
          return false;
        }
      }
      if b == 0 {
        CloseBlock(true);
        return true;
      }
      if writeIndex >= cap {
        return false;
      }
      PutByte(b);
      return true;
    }

    /** A nonzero byte joins the open block; the 254th closes it. */
    method PutByte(b: byte)
      requires Valid() && blockOpen && b != 0 && writeIndex < cap
      modifies this, dst
      ensures Valid() && State() == Step(old(State()), b)
      ensures forall i :: cap <= i < dst.Length ==> dst[i] == old(dst[i])
    {
      ghost var before := State();
      dst[writeIndex] := b;
      writeIndex, code := writeIndex + 1, code + 1;
      assert dst[..codeIndex] == before.out;
      assert dst[codeIndex + 1..writeIndex] == before.block + [b];
      if code == 0xff {
        CloseBlock(false);
      }
    }

    /** `cobs_stream_write`. */
    method Write(src: seq<byte>) returns (ok: bool)
      requires Valid()
      modifies this, dst
      ensures Valid()
      ensures ok == (Feed(old(State()), src).Size() <= cap)
      ensures ok ==> State() == Feed(old(State()), src)
      ensures forall i :: cap <= i < dst.Length ==> dst[i] == old(dst[i])
    {
      ghost var before := State();
      var i := 0;
      while i < |src|
        invariant 0 <= i <= |src|
        invariant Valid()
        invariant Feed(State(), src[i..]) == Feed(before, src)
        invariant forall k :: cap <= k < dst.Length ==> dst[k] == old(dst[k])
      {
        assert src[i..][0] == src[i] && src[i..][1..] == src[i + 1..];
        var written := WriteByte(src[i]);
        if !written {
          return false;
        }
        i := i + 1;
      }
      assert src[i..] == [];
      return true;
    }

    /** `cobs_stream_finish`: close the last block; the result is the used part of the buffer. */
    method FinishBlock() returns (ok: bool, length: nat)
      requires Valid()
      modifies this, dst
      ensures Valid()
      ensures ok == (|Finish(old(State()))| <= cap)
      ensures ok ==> length <= cap && dst[..length] == Finish(old(State()))
      ensures forall i :: cap <= i < dst.Length ==> dst[i] == old(dst[i])
    {
      ghost var before := State();
      length := 0;
      if blockOpen {
        dst[codeIndex] := code;
        assert dst[..writeIndex] == before.out + [|before.block| + 1] + before.block;
      } else if writeIndex == 0 || trailingZeroPending {
        var room := OpenBlock();
        if !room {
          return false, 0;
        }
        dst[codeIndex] := code;
        assert dst[..writeIndex] == before.out + [1];
      }
      return true, writeIndex;
    }
  }

  lemma Patch(out: seq<byte>, block: seq<byte>, code: byte)
    ensures (out + [0] + block)[|out| := code] == out + [code] + block
  {
  }

  /** A vector with a zero placeholder where the open block's code byte will go. */
  ghost predicate Holds(st: Stream, encoded: seq<byte>, codeIndex: nat, code: int, blockOpen: bool) {
    && st.Valid() && st.open == blockOpen
    && (if blockOpen
        then encoded == st.out + [0] + st.block && codeIndex == |st.out| && code == |st.block| + 1
        else encoded == st.out && encoded != [])
  }

  method PushByte(encoded0: seq<byte>, codeIndex0: nat, code0: int, blockOpen0: bool, b: byte, ghost st: Stream)
    returns (encoded: seq<byte>, codeIndex: nat, code: int, blockOpen: bool)
    requires Holds(st, encoded0, codeIndex0, code0, blockOpen0)
    ensures Holds(Step(st, b), encoded, codeIndex, code, blockOpen)
  {
    encoded, codeIndex, code, blockOpen := encoded0, codeIndex0, code0, blockOpen0;
    if !blockOpen {
      codeIndex := |encoded|;
      encoded := encoded + [0];
      code, blockOpen := 1, true;
    }
    assert encoded == st.out + [0] + st.block;
    if b == 0 {
      Patch(st.out, st.block, code);
      encoded := encoded[codeIndex := code];
      blockOpen := false;
      return;
    }
    encoded := encoded + [b];
    code := code + 1;
    assert encoded == st.out + [0] + (st.block + [b]);
    if code == 0xff {
      Patch(st.out, st.block + [b], code);
      encoded := encoded[codeIndex := code];
      blockOpen := false;
    }
  }

  /** The bridge's `cobs_encode`: a growing vector whose code bytes are patched in later. */
  method EncodeVector(input: seq<byte>) returns (encoded: seq<byte>)
    ensures encoded == Encode(input)
  {
    hide Encode;
    encoded := [0];
    var codeIndex: nat, code, blockOpen := 0, 1, true;
    var i := 0;
    ghost var st := Stream([], [], true, false);
    StreamOwes(st, input);
    assert [] + input == input;
    while i < |input|
      invariant 0 <= i <= |input|
      invariant Holds(st, encoded, codeIndex, code, blockOpen)
      invariant !blockOpen ==> i > 0 && st.pendingZero == (input[i - 1] == 0)
      invariant Finish(Feed(st, input[i..])) == Encode(input)
    {
      assert input[i..][0] == input[i] && input[i..][1..] == input[i + 1..];
      encoded, codeIndex, code, blockOpen := PushByte(encoded, codeIndex, code, blockOpen, input[i], st);
      st := Step(st, input[i]);
      i := i + 1;
    }
    assert input[i..] == [];
    if blockOpen {
      Patch(st.out, st.block, code);
      encoded := encoded[codeIndex := code];
    } else if encoded == [] || (input != [] && input[|input| - 1] == 0) {
      encoded := encoded + [1];
    }
  }

  /** The bridge's `cobs_decode`. */
  method DecodeVector(input: seq<byte>) returns (decoded: Option<seq<byte>>)
    ensures decoded == Decode(input)
  {
    hide Decode;
    DecodeStops([]);
    var out: seq<byte> := [];
    var readIndex: nat := 0;
    PrependNothing(Decode(input));
    assert input[0..] == input;
    while readIndex < |input|
      invariant readIndex <= |input|
      invariant Decode(input) == Prepend(out, Decode(input[readIndex..]))
    {
      ghost var rest := input[readIndex..];
      var code := input[readIndex];
      DecodeStops(rest);
      readIndex := readIndex + 1;
      if code == 0 {
        return None;
      }
      if code - 1 > |input| - readIndex {
        return None;
      }
      ghost var before, copied := out, input[readIndex..readIndex + code - 1];
      BlockOf(input, readIndex - 1, code);
      out := out + input[readIndex..readIndex + code - 1];
      readIndex := readIndex + code - 1;
      if code != 0xff && readIndex < |input| {
        out := out + [0];
      }
      DecodeOneBlock(before, rest, input[readIndex..]);
      ghost var zero: seq<byte> := if code != 0xff && readIndex < |input| then [0] else [];
      assert out == before + (copied + zero);
    }
    assert input[readIndex..] == [];
    assert out + [] == out;
    return Some(out);
  }

  ghost function Prepend(done: seq<byte>, rest: Option<seq<byte>>): Option<seq<byte>> {
    if rest.None? then None else Some(done + rest.value)
  }

  /** Where decoding ends, and the two ways in which it fails. */
  lemma DecodeStops(src: seq<byte>)
    ensures src == [] ==> Decode(src) == Some([])
    ensures src != [] && (src[0] == 0 || src[0] > |src|) ==> Decode(src) == None
  {
  }

  /** A block seen from its code byte and from the start of the input. */
  lemma BlockOf(s: seq<byte>, i: nat, code: nat)
    requires 0 < code && i + code <= |s|
    ensures s[i..][1..code] == s[i + 1..i + code]
    ensures s[i..][code..] == s[i + code..]
  {
  }

  lemma PrependNothing(rest: Option<seq<byte>>)
    ensures Prepend([], rest) == rest
  {
    if rest.Some? {
      assert [] + rest.value == rest.value;
    }
  }

  lemma DecodeOneBlock(done: seq<byte>, rest: seq<byte>, tail: seq<byte>)
    requires rest != [] && 0 < rest[0] <= |rest|
    requires tail == rest[rest[0]..]
    ensures var block := rest[1..rest[0]] + (if rest[0] != 0xff && tail != [] then [0] else []);
            Prepend(done, Decode(rest)) == Prepend(done + block, Decode(tail))
  {
    var block := rest[1..rest[0]];
    if tail == [] {
      assert block == rest[1..];
      assert done + (block + []) + [] == done + block;
    } else if Decode(tail).Some? {
      var zero := if rest[0] == 0xff then [] else [0];
      Regroup4(done, block, zero, Decode(tail).value);
      assert done + block + zero == done + (block + zero);
    }
  }

  /** `memcpy` of a block to `dst[at..]`. */
  method CopyTo(dst: array<byte>, at: nat, block: seq<byte>)
    requires at + |block| <= dst.Length
    modifies dst
    ensures dst[..at + |block|] == old(dst[..at]) + block
  {
    forall i | 0 <= i < |block| {
      dst[at + i] := block[i];
    }
  }

  ghost function BlockBytes(block: seq<byte>, zero: bool): seq<byte> {
    block + if zero then [0] else []
  }

  /** Append one decoded block and the zero it stands for, unless the buffer is too short. */
  method AppendBlock(dst: array<byte>, length: nat, block: seq<byte>, zero: bool) returns (ok: bool, next: nat)
    requires length <= dst.Length
    modifies dst
    ensures ok == (length + |BlockBytes(block, zero)| <= dst.Length)
    ensures ok ==> next <= dst.Length && dst[..next] == old(dst[..length]) + BlockBytes(block, zero)
  {
    next := length;
    if length + |block| > dst.Length {
      return false, 0;
    }
    CopyTo(dst, length, block);
    next := length + |block|;
    if zero {
      if next == dst.Length {
        return false, 0;
      }
      dst[next] := 0;
      next := next + 1;
    }
    ok := true;
  }

  /** The firmware's `cobs_decode`: succeeds exactly on well-formed input whose result fits. */
  method DecodeInto(src: seq<byte>, dst: array<byte>) returns (ok: bool, length: nat)
    modifies dst
    ensures ok == (Decode(src).Some? && |Decode(src).value| <= dst.Length)
    ensures ok ==> length <= dst.Length && Decode(src) == Some(dst[..length])
  {
    hide Decode;
    DecodeStops([]);
    length := 0;
    var readIndex: nat := 0;
    PrependNothing(Decode(src));
    assert src[0..] == src && dst[..0] == [];
    while readIndex < |src|
      invariant readIndex <= |src| && length <= dst.Length
      invariant Decode(src) == Prepend(dst[..length], Decode(src[readIndex..]))
    {
      ghost var rest := src[readIndex..];
      var code := src[readIndex];
      DecodeStops(rest);
      readIndex := readIndex + 1;
      if code == 0 {
        return false, 0;
      }
      if code - 1 > |src| - readIndex {
        return false, 0;
      }
      var block := src[readIndex..readIndex + code - 1];
      readIndex := readIndex + code - 1;
      BlockOf(src, readIndex - code, code);
      DecodeOneBlock(dst[..length], rest, src[readIndex..]);
      ok, length := AppendBlock(dst, length, block, code != 0xff && readIndex < |src|);
      if !ok {
        return false, 0;
      }
    }
    assert src[readIndex..] == [] && dst[..length] + [] == dst[..length];
    return true, length;
  }
}
