/** The fixed-capacity read/write byte buffer of the QUIC library (`aioquic.buffer.Buffer`),
    reduced to what the capsule reassembly uses: one store of fixed capacity and one
    position shared by writes and reads. Its implementation is not part of this model;
    these methods state the behaviour the capsule code relies on. */
module QuicBuffer {
  import opened Bytes
  import Varint

  class Buffer {
    /** The backing store; its length is the capacity given at construction. */
    const data: array<byte>
    /** The read/write position (`tell()`). */
    var pos: nat

    ghost predicate Valid()
      reads this
    {
      pos <= data.Length
    }

    constructor (capacity: nat)
      ensures Valid() && fresh(data)
      ensures data.Length == capacity && pos == 0
    {
      data := new byte[capacity];
      pos := 0;
    }

    /** `push_bytes`: a chunk that does not fit raises BufferWriteError (ok == false)
        before anything is written. */
    method PushBytes(chunk: seq<byte>) returns (ok: bool)
      requires Valid()
      modifies this, data
      ensures Valid()
      ensures ok == (old(pos) + |chunk| <= data.Length)
      ensures ok ==> data[..] == Overwrite(old(data[..]), old(pos), chunk) && pos == old(pos) + |chunk|
      ensures !ok ==> data[..] == old(data[..]) && pos == old(pos)
    {
      if pos + |chunk| > data.Length {
        return false;
      }
      forall i | pos <= i < pos + |chunk| {
        data[i] := chunk[i - pos];
      }
      assert data[..] == Overwrite(old(data[..]), pos, chunk);
      pos := pos + |chunk|;
      ok := true;
    }

    /** `seek(p)`. */
    method Seek(p: nat)
      requires p <= data.Length
      modifies this
      ensures Valid() && pos == p
    {
      pos := p;
    }

    /** `pull_uint_var`: None is BufferReadError, raised before the position moves. */
    method PullUintVar() returns (r: Option<nat>)
      requires Valid()
      modifies this
      ensures Valid()
      ensures r.Some? ==> Varint.Pull(data[..], old(pos)) == Varint.Pulled(r.value, pos)
      ensures r.None? ==> Varint.Pull(data[..], old(pos)).ReadError? && pos == old(pos)
    {
      if pos + 1 > data.Length {
        return None;
      }
      var first := data[pos];
      var width := Varint.WidthOf(first);
      if pos + width > data.Length {
        return None;
      }
      r := Some(Varint.MaskedAt(data[..], pos, width));
      pos := pos + width;
    }

    /** `pull_bytes(n)`, called here only where the n bytes lie inside the store. */
    method PullBytes(n: nat) returns (bs: seq<byte>)
      requires Valid() && pos + n <= data.Length
      modifies this
      ensures Valid()
      ensures bs == data[old(pos)..old(pos) + n] && pos == old(pos) + n
    {
      bs := data[pos..pos + n];
      pos := pos + n;
    }
  }
}
