/**
  `mc_ringbuf_t`: a byte queue over a fixed storage array. `Contents` is the queue as a sequence;
  every operation is specified by what it does to that sequence.
*/
module RingBuffer {
  import opened Bytes
  import Arith

  datatype Checkpoint = Checkpoint(head: nat, tail: nat, len: nat)

  lemma ModWrap(x: nat, cap: nat)
    requires 0 < cap && x < 2 * cap
    ensures x % cap == if x < cap then x else x - cap
  {
    if x < cap {
      Arith.DivUnique(x, cap, 0, x);
    } else {
      Arith.DivUnique(x, cap, 1, x - cap);
    }
  }

  lemma AppendOne<T>(before: seq<T>, src: seq<T>, i: nat)
    requires i < |src|
    ensures before + src[..i] + [src[i]] == before + src[..i + 1]
  {
  }

  class Ring {
    const data: array<byte>
    var head: nat
    var tail: nat
    var len: nat

    function Wrap(x: nat): nat {
      if x < data.Length then x else x - data.Length
    }

    ghost predicate Valid()
      reads this
    {
      && len <= data.Length
      && tail < data.Length
      && head == Wrap(tail + len)
    }

    ghost function Contents(): (s: seq<byte>)
      requires Valid()
      reads this, data
      ensures |s| == len
    {
      if tail + len <= data.Length then data[tail..tail + len]
      else data[tail..] + data[..tail + len - data.Length]
    }

    /** Element i of the queue lives at the wrapped index. */
    lemma At(i: nat)
      requires Valid() && i < len
      ensures Wrap(tail + i) < data.Length
      ensures Contents()[i] == data[Wrap(tail + i)]
    {
    }

    /** `mc_ringbuf_init`. */
    constructor (storage: array<byte>)
      requires storage.Length > 0
      ensures Valid() && data == storage && Contents() == []
    {
      data := storage;
      head, tail, len := 0, 0, 0;
    }

    method Free() returns (n: nat)
      requires Valid()
      ensures n == data.Length - |Contents()|
    {
      n := data.Length - len;
    }

    method Len() returns (n: nat)
      requires Valid()
      ensures n == |Contents()|
    {
      n := len;
    }

    method Push(b: byte) returns (ok: bool)
      requires Valid()
      modifies this`head, this`len, data
      ensures Valid()
      ensures ok == (old(len) < data.Length)
      ensures Contents() == if ok then old(Contents()) + [b] else old(Contents())
    {
      if len == data.Length {
        return false;
      }
      ghost var before := Contents();
      data[head] := b;
      ModWrap(head + 1, data.Length);
      head := (head + 1) % data.Length;
      len := len + 1;
      if tail + len <= data.Length {
        assert data[tail..tail + len] == before + [b];
      } else {
        assert data[tail..] + data[..tail + len - data.Length] == before + [b];
      }
      return true;
    }

    method Pop() returns (b: Option<byte>)
      requires Valid()
      modifies this`tail, this`len
      ensures Valid()
      ensures b.Some? <==> old(Contents()) != []
      ensures b.Some? ==> old(Contents()) == [b.value] + Contents()
      ensures b.None? ==> Contents() == old(Contents())
    {
      if len == 0 {
        return None;
      }
      b := Some(data[tail]);
      ModWrap(tail + 1, data.Length);
      tail := (tail + 1) % data.Length;
      len := len - 1;
    }

    /** `mc_ringbuf_write`: as much of `src` as fits. */
    method Write(src: seq<byte>) returns (written: nat)
      requires Valid()
      modifies this`head, this`len, data
      ensures Valid()
      ensures written == Min(|src|, data.Length - |old(Contents())|)
      ensures Contents() == old(Contents()) + src[..written]
    {
      written := 0;
      ghost var before := Contents();
      assert src[..0] == [];
      while written < |src|
        invariant written <= |src|
        invariant Valid()
        invariant Contents() == before + src[..written]
      {
        AppendOne(before, src, written);
        var ok := Push(src[written]);
        if !ok {
          return;
        }
        written := written + 1;
      }
    }

    /** `mc_ringbuf_read`. */
    method Read(max: nat) returns (bytes: seq<byte>)
      requires Valid()
      modifies this`tail, this`len
      ensures Valid()
      ensures |bytes| == Min(max, |old(Contents())|)
      ensures bytes + Contents() == old(Contents())
    {
      bytes := [];
      ghost var before := Contents();
      while |bytes| < max
        invariant |bytes| <= max
        invariant Valid()
        invariant bytes + Contents() == before
        decreases max - |bytes|
      {
        var b := Pop();
        if b.None? {
          return;
        }
        Regroup(bytes, [b.value], Contents());
        bytes := bytes + [b.value];
      }
    }

    method Peek(offset: nat) returns (b: Option<byte>)
      requires Valid()
      ensures b == if offset < |Contents()| then Some(Contents()[offset]) else None
    {
      if offset >= len {
        return None;
      }
      At(offset);
      ModWrap(tail + offset, data.Length);
      return Some(data[(tail + offset) % data.Length]);
    }

    /** `mc_ringbuf_drop`: forget the oldest bytes. */
    method Drop(count: nat)
      requires Valid()
      modifies this`tail, this`len
      ensures Valid()
      ensures Contents() == old(Contents())[Min(count, |old(Contents())|)..]
    {
      var n := if count > len then len else count;
      ModWrap(tail + n, data.Length);
      tail := (tail + n) % data.Length;
      len := len - n;
    }

    /** `truncate_ringbuf` of the link session: forget the newest bytes. */
    method Truncate(keep: nat)
      requires Valid()
      modifies this`head, this`len
      ensures Valid()
      ensures Contents() == old(Contents())[..Min(keep, |old(Contents())|)]
    {
      if keep >= len {
        return;
      }
      ModWrap(tail + keep, data.Length);
      head := (tail + keep) % data.Length;
      len := keep;
    }

    /** `tx_checkpoint_save`. */
    method Save() returns (c: Checkpoint)
      ensures c == Checkpoint(head, tail, len)
    {
      c := Checkpoint(head, tail, len);
    }

    /** A checkpoint nothing has been read past: writes since then only appended. */
    ghost predicate Reaches(c: Checkpoint)
      reads this
    {
      c.tail == tail && c.len <= len && c.tail < data.Length && c.head == Wrap(c.tail + c.len)
    }

    /** `tx_checkpoint_restore`: after append-only writes this gives back exactly the saved queue. */
    method Restore(c: Checkpoint)
      requires Valid() && Reaches(c)
      modifies this`head, this`tail, this`len
      ensures Valid()
      ensures Contents() == old(Contents())[..c.len]
    {
      head, tail, len := c.head, c.tail, c.len;
    }
  }
}
