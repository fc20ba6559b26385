/** A reader over a document's chunks, filling the caller's buffer. */
module ChunkReader {
  import opened Wrappers
  import opened MachineInts

  type Byte = b: int | 0 <= b < 256

  function Concat(chunks: seq<seq<Byte>>): seq<Byte> {
    if chunks == [] then [] else chunks[0] + Concat(chunks[1..])
  }

  class DocumentReader {
    const chunks: seq<seq<Byte>>
    var next: nat
    var current: Option<seq<Byte>>
    var offset: nat

    ghost predicate Valid() reads this {
      next <= |chunks| && (current.Some? ==> offset <= |current.value|)
    }

    /** The bytes still to be read. */
    ghost function Remaining(): seq<Byte>
      requires Valid()
      reads this
    {
      (if current.Some? then current.value[offset..] else []) + Concat(chunks[next..])
    }

    constructor (chunks: seq<seq<Byte>>)
      ensures Valid() && Remaining() == Concat(chunks)
    {
      this.chunks, next, current, offset := chunks, 0, None, 0;
      new;
      assert this.chunks[0..] == chunks;
    }

    /** Delivers exactly the bytes that fit, and nothing past them is touched. */
    method Read(buf: array<Byte>) returns (written: nat)
      requires Valid()
      modifies this, buf
      ensures Valid()
      ensures written == Min(buf.Length, |old(Remaining())|)
      ensures buf[..written] == old(Remaining())[..written]
      ensures buf[written..] == old(buf[..])[written..]
      ensures Remaining() == old(Remaining())[written..]
    {
      written := 0;
      if buf.Length == 0 {
        return;
      }
      ghost var rest, was := Remaining(), buf[..];
      var more := true;
      while written < buf.Length && more
        invariant Valid() && written <= buf.Length && written <= |rest|
        invariant buf[..written] == rest[..written] && buf[written..] == was[written..]
        invariant Remaining() == rest[written..]
        invariant !more ==> written == |rest|
        decreases more, |chunks| - next, current.Some?, buf.Length - written
      {
        var len;
        more, len := Deliver(buf, written);
        SlicesJoin(rest, was, written, len);
        written := written + len;
      }
    }

    /** One round of the loop: progress is a chunk taken, a chunk finished, or a full buffer. */
    method Deliver(buf: array<Byte>, written: nat) returns (more: bool, len: nat)
      requires Valid() && written < buf.Length
      modifies this, buf
      ensures Valid()
      ensures len <= buf.Length - written && len <= |old(Remaining())|
      ensures buf[..written + len] == old(buf[..written]) + old(Remaining())[..len]
      ensures buf[written + len..] == old(buf[written..])[len..]
      ensures Remaining() == old(Remaining())[len..]
      ensures !more ==> old(Remaining()) == []
      ensures more ==> old(next) <= next
      ensures more && old(next) == next ==> old(current).Some? && (current.None? || written + len == buf.Length)
    {
      len := 0;
      more := NextChunk();
      if more {
        len := CopyFrom(buf, written);
      }
    }

    /** Takes the next chunk when none is current; what remains is unchanged. False at the end of the text. */
    method NextChunk() returns (more: bool)
      requires Valid()
      modifies this
      ensures Valid() && Remaining() == old(Remaining())
      ensures more == current.Some?
      ensures !more ==> Remaining() == []
      ensures old(next) < next || (old(next) == next && old(current) == current)
    {
      if current.None? {
        if next == |chunks| {
          return false;
        }
        assert chunks[next..][1..] == chunks[next + 1..];
        current, offset, next := Some(chunks[next]), 0, next + 1;
      }
      more := true;
    }

    /** Copies as much of the current chunk as fits; an exhausted chunk, empty ones included, is dropped. */
    method CopyFrom(buf: array<Byte>, written: nat) returns (len: nat)
      requires Valid() && current.Some? && written < buf.Length
      modifies this, buf
      ensures Valid() && next == old(next)
      ensures current.None? || written + len == buf.Length
      ensures len <= buf.Length - written && len <= |old(Remaining())|
      ensures buf[..written + len] == old(buf[..written]) + old(Remaining())[..len]
      ensures buf[written + len..] == old(buf[written..])[len..]
      ensures Remaining() == old(Remaining())[len..]
    {
      ghost var left, before, after := Remaining(), buf[..written], buf[written..];
      var chunk := current.value;
      len := Min(|chunk| - offset, buf.Length - written);
      forall i | 0 <= i < len {
        buf[written + i] := chunk[offset + i];
      }
      assert forall i :: 0 <= i < len ==> left[i] == chunk[offset + i];
      assert buf[..written + len] == before + left[..len];
      assert buf[written + len..] == after[len..];
      offset := offset + len;
      if offset == |chunk| {
        current, offset := None, 0;
      }
    }
  }

  lemma SlicesJoin(rest: seq<Byte>, was: seq<Byte>, written: nat, len: nat)
    requires written + len <= |rest| && written + len <= |was|
    ensures rest[..written] + rest[written..][..len] == rest[..written + len]
    ensures rest[written..][len..] == rest[written + len..]
    ensures was[written..][len..] == was[written + len..]
  {
  }

  /** What reads of the given sizes deliver from `rest`, one after the other. */
  function Reads(rest: seq<Byte>, sizes: seq<nat>): seq<seq<Byte>> {
    if sizes == [] then []
    else
      var n := Min(sizes[0], |rest|);
      [rest[..n]] + Reads(rest[n..], sizes[1..])
  }

  function Sum(sizes: seq<nat>): nat { if sizes == [] then 0 else sizes[0] + Sum(sizes[1..]) }

  /** Reads of any sizes concatenate to the text's prefix of their total size. */
  lemma {:induction false} ReadsArePrefix(rest: seq<Byte>, sizes: seq<nat>)
    ensures |Reads(rest, sizes)| == |sizes|
    ensures Concat(Reads(rest, sizes)) == rest[..Min(Sum(sizes), |rest|)]
  {
    if sizes != [] {
      var n := Min(sizes[0], |rest|);
      ReadsArePrefix(rest[n..], sizes[1..]);
      ConcatCons(rest[..n], Reads(rest[n..], sizes[1..]));
      PrefixJoins(rest, n, Min(Sum(sizes[1..]), |rest| - n));
    }
  }

  lemma ConcatCons(chunk: seq<Byte>, chunks: seq<seq<Byte>>)
    ensures Concat([chunk] + chunks) == chunk + Concat(chunks)
  {
    assert ([chunk] + chunks)[1..] == chunks;
  }

  lemma PrefixJoins(rest: seq<Byte>, n: nat, m: nat)
    requires n + m <= |rest|
    ensures rest[..n] + rest[n..][..m] == rest[..n + m]
  {
  }

  /** An empty read into a non-empty buffer means, and only means, that everything was delivered before it. */
  lemma {:induction false} EmptyReadMeansEnd(rest: seq<Byte>, sizes: seq<nat>, k: nat)
    requires k < |sizes| && sizes[k] > 0
    ensures |Reads(rest, sizes)| == |sizes|
    ensures Reads(rest, sizes)[k] == [] <==> Concat(Reads(rest, sizes[..k])) == rest
  {
    ReadsArePrefix(rest, sizes);
    ReadsArePrefix(rest, sizes[..k]);
    if k > 0 {
      var n := Min(sizes[0], |rest|);
      EmptyReadMeansEnd(rest[n..], sizes[1..], k - 1);
      ReadsArePrefix(rest[n..], sizes[1..][..k - 1]);
      assert sizes[..k][1..] == sizes[1..][..k - 1];
    }
  }

  /** Drains the reader with buffers of the given sizes. */
  method ReadAll(reader: DocumentReader, sizes: seq<nat>) returns (got: seq<seq<Byte>>)
    requires reader.Valid()
    modifies reader
    ensures reader.Valid()
    ensures got == Reads(old(reader.Remaining()), sizes)
  {
    got := [];
    ghost var all := reader.Remaining();
    for i := 0 to |sizes|
      invariant reader.Valid()
      invariant got + Reads(reader.Remaining(), sizes[i..]) == Reads(all, sizes)
    {
      ghost var rest := reader.Remaining();
      var buf := new Byte[sizes[i]];
      var n := reader.Read(buf);
      assert sizes[i..][1..] == sizes[i + 1..];
      got := got + [buf[..n]];
    }
  }
}
