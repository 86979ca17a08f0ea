/**
  Consistent overhead byte stuffing (Cheshire and Baker), in the three forms the repository
  has: the firmware's streaming encoder that patches code bytes into a caller's buffer, the
  bridge's encoder that grows a vector, and the two block decoders.

  `Encode` and `Decode` are the block-recursive definitions every one of them is proved
  against.
*/
module Cobs {
  import opened Bytes

  const MAX_RUN := 254

  predicate NoZero(s: seq<byte>) {
    forall i :: 0 <= i < |s| ==> s[i] != 0
  }

  // ----- the transformation -----

  /** Length of the first run of nonzero bytes, at most 254. */
  function Run(data: seq<byte>): (n: nat)
    ensures n <= |data| && n <= MAX_RUN
    ensures NoZero(data[..n])
    ensures n < |data| && n < MAX_RUN ==> data[n] == 0
  {
    RunFrom(data, 0)
  }

  function RunFrom(data: seq<byte>, k: nat): (n: nat)
    requires k <= |data| && k <= MAX_RUN && NoZero(data[..k])
    ensures k <= n <= |data| && n <= MAX_RUN
    ensures NoZero(data[..n])
    ensures n < |data| && n < MAX_RUN ==> data[n] == 0
    decreases |data| - k
  {
    if k == |data| || k == MAX_RUN || data[k] == 0 then k else RunFrom(data, k + 1)
  }

  function Encode(data: seq<byte>): (e: seq<byte>)
    ensures e != []
    decreases |data|
  {
    var n := Run(data);
    var block := [n + 1] + data[..n];
    if n == |data| then block
    else if n == MAX_RUN then block + Encode(data[n..])
    else block + Encode(data[n + 1..])
  }

  function Decode(src: seq<byte>): Option<seq<byte>>
    decreases |src|
  {
    if src == [] then Some([])
    else if src[0] == 0 || src[0] > |src| then None
    else
      var n := src[0];
      if n == |src| then Some(src[1..])
      else match Decode(src[n..])
        case None => None
        case Some(rest) => Some(src[1..n] + (if n == 255 then [] else [0]) + rest)
  }

  lemma {:induction false} DecodeBlock(block: seq<byte>, e: seq<byte>, rest: seq<byte>)
    requires |block| <= MAX_RUN && e != []
    requires Decode(e) == Some(rest)
    ensures Decode([|block| + 1] + block + e)
         == Some(block + (if |block| == MAX_RUN then [] else [0]) + rest)
  {
    BlockParts(|block| + 1, block, e);
  }

  lemma BlockParts(code: byte, block: seq<byte>, e: seq<byte>)
    ensures var src := [code] + block + e;
            && |src| == 1 + |block| + |e| && src[0] == code
            && src[1..|block| + 1] == block && src[|block| + 1..] == e
  {
  }

  /** Decoding undoes encoding. */
  lemma {:induction false} DecodeEncode(data: seq<byte>)
    ensures Decode(Encode(data)) == Some(data)
    decreases |data|
  {
    var n := Run(data);
    EncodeUnfold(data);
    hide Encode;
    if n == |data| {
      WholeSlice(data);
    } else {
      var next := if n == MAX_RUN then data[n..] else data[n + 1..];
      DecodeEncode(next);
      DecodeRest(data, n, next);
    }
  }

  lemma DecodeRest(data: seq<byte>, n: nat, next: seq<byte>)
    requires n == Run(data) < |data|
    requires next == if n == MAX_RUN then data[n..] else data[n + 1..]
    requires Decode(Encode(next)) == Some(next)
    ensures Decode([n + 1] + data[..n] + Encode(next)) == Some(data)
  {
    hide Encode, Decode;
    DecodeBlock(data[..n], Encode(next), next);
    if n == MAX_RUN {
      assert data == data[..n] + [] + data[n..];
    } else {
      assert data == data[..n] + [0] + data[n + 1..];
    }
  }

  lemma EncodeUnfold(data: seq<byte>)
    ensures var n := Run(data);
            Encode(data) == if n == |data| then [n + 1] + data[..n]
                            else [n + 1] + data[..n] + Encode(if n == MAX_RUN then data[n..] else data[n + 1..])
  {
  }

  lemma {:induction false} EncodeHasNoZero(data: seq<byte>)
    ensures NoZero(Encode(data))
    decreases |data|
  {
    var n := Run(data);
    if n < |data| {
      EncodeHasNoZero(if n == MAX_RUN then data[n..] else data[n + 1..]);
    }
  }

  lemma {:induction false} EncodeLength(data: seq<byte>)
    ensures |data| < |Encode(data)| <= |data| + 1 + |data| / MAX_RUN
    decreases |data|
  {
    var n := Run(data);
    if n < |data| {
      EncodeLength(if n == MAX_RUN then data[n..] else data[n + 1..]);
    }
  }

  // ----- the streaming form -----

  /** Finished output, and the block still collecting bytes if there is one. */
  datatype Stream = Stream(out: seq<byte>, block: seq<byte>, open: bool, pendingZero: bool) {
    predicate Valid() {
      && |block| < MAX_RUN
      && NoZero(block)
      && (!open ==> block == [])
    }

    /** Bytes of buffer in use, counting the code byte reserved for an open block. */
    function Size(): nat {
      |out| + (if open then 1 + |block| else 0)
    }
  }

  const EMPTY := Stream([], [], false, false)

  function Step(st: Stream, b: byte): (next: Stream)
    requires st.Valid()
    ensures next.Valid()
    ensures st.Size() <= next.Size()
  {
    if b == 0 then Stream(st.out + [|st.block| + 1] + st.block, [], false, true)
    else if |st.block| + 1 == MAX_RUN then Stream(st.out + [255] + (st.block + [b]), [], false, false)
    else Stream(st.out, st.block + [b], true, false)
  }

  function Feed(st: Stream, data: seq<byte>): (next: Stream)
    requires st.Valid()
    ensures next.Valid()
    ensures st.Size() <= next.Size()
    decreases |data|
  {
    if data == [] then st else Feed(Step(st, data[0]), data[1..])
  }

  function Finish(st: Stream): seq<byte>
    requires st.Valid()
  {
    if st.open then st.out + [|st.block| + 1] + st.block
    else if st.out == [] || st.pendingZero then st.out + [1]
    else st.out
  }

  /** What a stream state still owes the output when `rest` is the remaining input. */
  function Owed(st: Stream, rest: seq<byte>): seq<byte>
    requires st.Valid()
  {
    if st.open || rest != [] then Encode(st.block + rest)
    else if st.out == [] || st.pendingZero then Encode([])
    else []
  }

  lemma EncodeZeroAfter(block: seq<byte>, rest: seq<byte>)
    requires |block| < MAX_RUN && NoZero(block)
    ensures Encode(block + [0] + rest) == [|block| + 1] + block + Encode(rest)
  {
    var data := block + [0] + rest;
    ZeroParts(block, rest);
    RunIs(data, |block|);
  }

  lemma ZeroParts(block: seq<byte>, rest: seq<byte>)
    ensures var data := block + [0] + rest;
            && |data| == |block| + 1 + |rest| && data[|block|] == 0
            && data[..|block|] == block && data[|block| + 1..] == rest
  {
  }

  lemma RunIs(data: seq<byte>, n: nat)
    requires n <= |data| && n <= MAX_RUN && NoZero(data[..n])
    requires n < |data| && n < MAX_RUN ==> data[n] == 0
    ensures Run(data) == n
  {
  }

  lemma EncodeFullBlock(block: seq<byte>, rest: seq<byte>)
    requires |block| == MAX_RUN && NoZero(block)
    ensures Encode(block + rest) == [255] + block + (if rest == [] then [] else Encode(rest))
  {
    var data := block + rest;
    assert data[..|block|] == block && data[|block|..] == rest;
    RunIs(data, |block|);
  }

  lemma WholeSlice<T>(s: seq<T>)
    ensures s[..|s|] == s
  {
  }

  lemma EncodeShort(block: seq<byte>)
    requires |block| < MAX_RUN && NoZero(block)
    ensures Encode(block) == [|block| + 1] + block
  {
    WholeSlice(block);
    RunIs(block, |block|);
    assert Encode(block) == [|block| + 1] + block[..|block|];
  }

  lemma OwedBeforeZero(st: Stream, tail: seq<byte>)
    requires st.Valid()
    ensures Owed(st, [0] + tail) == [|st.block| + 1] + st.block + Encode(tail)
  {
    assert st.block + ([0] + tail) == st.block + [0] + tail;
    EncodeZeroAfter(st.block, tail);
  }

  lemma OwedAfterZero(st: Stream, tail: seq<byte>)
    requires st.Valid()
    ensures Owed(Step(st, 0), tail) == Encode(tail)
  {
    assert [] + tail == tail;
  }

  lemma StepZeroOwes(st: Stream, tail: seq<byte>)
    requires st.Valid()
    ensures st.out + Owed(st, [0] + tail) == Step(st, 0).out + Owed(Step(st, 0), tail)
  {
    hide Encode, Owed;
    OwedBeforeZero(st, tail);
    OwedAfterZero(st, tail);
    Regroup4(st.out, [|st.block| + 1], st.block, Encode(tail));
  }

  lemma StepNonzeroOwes(st: Stream, b: byte, tail: seq<byte>)
    requires st.Valid() && b != 0
    ensures st.out + Owed(st, [b] + tail) == Step(st, b).out + Owed(Step(st, b), tail)
  {
    var grown := st.block + [b];
    assert st.block + ([b] + tail) == grown + tail;
    var next := Step(st, b);
    if |grown| == MAX_RUN {
      EncodeFullBlock(grown, tail);
      assert Owed(next, tail) == if tail == [] then [] else Encode(tail) by {
        assert [] + tail == tail;
      }
      Regroup4(st.out, [255], grown, Owed(next, tail));
    }
  }

  lemma {:induction false} StreamOwes(st: Stream, rest: seq<byte>)
    requires st.Valid()
    ensures Finish(Feed(st, rest)) == st.out + Owed(st, rest)
    decreases |rest|
  {
    if rest == [] {
      assert st.block + rest == st.block;
      EncodeShort(st.block);
      EncodeShort([]);
    } else {
      assert rest == [rest[0]] + rest[1..];
      StreamOwes(Step(st, rest[0]), rest[1..]);
      if rest[0] == 0 {
        StepZeroOwes(st, rest[1..]);
      } else {
        StepNonzeroOwes(st, rest[0], rest[1..]);
      }
    }
  }

  /** Streaming a string byte by byte and finishing is encoding it. */
  lemma StreamIsEncode(data: seq<byte>)
    ensures Finish(Feed(EMPTY, data)) == Encode(data)
  {
    StreamOwes(EMPTY, data);
    assert [] + data == data;
  }

  lemma {:induction false} FeedAppend(st: Stream, a: seq<byte>, b: seq<byte>)
    requires st.Valid()
    ensures Feed(st, a + b) == Feed(Feed(st, a), b)
    decreases |a|
  {
    if a == [] {
      assert a + b == b;
    } else {
      assert (a + b)[1..] == a[1..] + b;
      FeedAppend(Step(st, a[0]), a[1..], b);
    }
  }
}
