/** Capsules (section 3.2 of RFC 9297) and the reassembly buffer that recovers them from
    an HTTP/3 request stream delivered in arbitrary chunks (src/aioquic/masque/capsule.py). */
module Capsule {
  import opened Bytes
  import Varint
  import QuicBuffer

  /** `MAX_CAPSULE_SIZE`: the capacity of the reassembly store. */
  const MaxCapsuleSize: nat := 0xFFFF

  /** `UINT_VAR_MAX_SIZE`: the widest variable-length integer, in bytes. */
  const UintVarMaxSize: nat := 8

  /** `CapsuleType`: the one capsule type the code knows, DATAGRAM (section 3.5 of RFC 9297). */
  datatype CapsuleType = DATAGRAM
  {
    function Value(): nat
    {
      0x00
    }
  }

  /** What the reassembly returns: a DATAGRAM capsule with its payload, or the payload-less
      marker standing for a capsule of any other type. */
  datatype Capsule = DatagramCapsule(data: seq<byte>) | PlainCapsule

  /** A capsule as it travels: a type code and a payload. */
  datatype Frame = Frame(typeCode: nat, payload: seq<byte>)

  predicate Encodable(f: Frame)
  {
    f.typeCode <= Varint.MaxValue && |f.payload| <= Varint.MaxValue
  }

  /** Bytes taken by the type and length fields. */
  function HeaderLength(f: Frame): nat
    requires Encodable(f)
  {
    Varint.Length(f.typeCode) + Varint.Length(|f.payload|)
  }

  /** Wire form of a capsule: varint(type) ‖ varint(length) ‖ payload. */
  function FrameBytes(f: Frame): (r: seq<byte>)
    requires Encodable(f)
    ensures |r| == HeaderLength(f) + |f.payload|
  {
    Varint.Encode(f.typeCode) + Varint.Encode(|f.payload|) + f.payload
  }

  /** The three fields of the wire form, where a reader finds them. */
  lemma FrameBytesParts(f: Frame)
    requires Encodable(f)
    ensures var fb := FrameBytes(f);
      var n1 := Varint.Length(f.typeCode);
      var n2 := Varint.Length(|f.payload|);
      && fb[0..n1] == Varint.Encode(f.typeCode)
      && fb[n1..n1 + n2] == Varint.Encode(|f.payload|)
      && fb[n1 + n2..|fb|] == f.payload
  {
    var a, b := Varint.Encode(f.typeCode), Varint.Encode(|f.payload|);
    assert FrameBytes(f) == a + b + f.payload;
    assert (a + b + f.payload)[|a|..|a| + |b|] == b;
  }

  /** A store holding at least the header of a capsule from p reads back its type and
      its payload length there, and stops at the end of the header. */
  lemma HeaderAt(s: seq<byte>, p: nat, q: nat, f: Frame)
    requires Encodable(f) && p + HeaderLength(f) <= q <= |s| && s[p..q] <= FrameBytes(f)
    ensures Varint.Pull(s, p) == Varint.Pulled(f.typeCode, p + Varint.Length(f.typeCode))
    ensures Varint.Pull(s, p + Varint.Length(f.typeCode)) == Varint.Pulled(|f.payload|, p + HeaderLength(f))
  {
    var fb := FrameBytes(f);
    var n1 := Varint.Length(f.typeCode);
    var n2 := Varint.Length(|f.payload|);
    FrameBytesParts(f);
    SliceOfPrefix(s, p, q, fb, 0, n1);
    Varint.PullEncoded(s, p, f.typeCode);
    SliceOfPrefix(s, p, q, fb, n1, n1 + n2);
    Varint.PullEncoded(s, p + n1, |f.payload|);
  }

  /** What the reassembly returns for a frame: type 0 keeps its payload, any other type
      becomes the marker. */
  function Decoded(f: Frame): (c: Capsule)
    ensures c.DatagramCapsule? <==> f.typeCode == 0x00
    ensures c.DatagramCapsule? ==> c.data == f.payload
  {
    if f.typeCode == CapsuleType.DATAGRAM.Value() then DatagramCapsule(f.payload) else PlainCapsule
  }

  /** `_encode_capsule`. None is the ValueError `push_uint_var` raises for a payload
      longer than the largest varint. The result reads back as the type, the payload
      length and the payload. */
  function EncodeCapsule(t: CapsuleType, payload: seq<byte>): (r: Option<seq<byte>>)
    ensures r.None? <==> |payload| > Varint.MaxValue
    ensures r.Some? ==>
      var lengthEnd := 1 + Varint.Length(|payload|);
      && |r.value| == lengthEnd + |payload|
      && Varint.Pull(r.value, 0) == Varint.Pulled(t.Value(), 1)
      && Varint.Pull(r.value, 1) == Varint.Pulled(|payload|, lengthEnd)
      && r.value[lengthEnd..] == payload
  {
    if |payload| > Varint.MaxValue then None
    else
      var e := FrameBytes(Frame(t.Value(), payload));
      var lengthEnd := 1 + Varint.Length(|payload|);
      assert e[0..1] == Varint.Encode(t.Value());
      Varint.PullEncoded(e, 0, t.Value());
      assert e[1..lengthEnd] == Varint.Encode(|payload|);
      Varint.PullEncoded(e, 1, |payload|);
      Some(e)
  }

  /** `encode_datagram_capsule`. */
  function EncodeDatagramCapsule(data: seq<byte>): (r: Option<seq<byte>>)
    ensures r.None? <==> |data| > Varint.MaxValue
    ensures r.Some? ==> r.value == FrameBytes(Frame(0x00, data))
  {
    EncodeCapsule(DATAGRAM, data)
  }

  /** A DATAGRAM capsule with a payload shorter than 64 bytes is the type byte 0, a
      length byte whose two width bits are clear, then the payload: two bytes longer than
      the payload. */
  lemma EncodeDatagramShort(data: seq<byte>)
    requires |data| < 64
    ensures EncodeDatagramCapsule(data) == Some([0x00, |data|] + data)
  {
    Varint.EncodeSmall(0);
    Varint.EncodeSmall(|data|);
    var e := EncodeDatagramCapsule(data);
    assert e.Some?;
    assert e.value == Varint.Encode(0) + Varint.Encode(|data|) + data;
    assert e.value == [0x00, |data|] + data;
  }

  /** The persistent part of a reassembly buffer: the store, the committed cursor
      `_start` and the buffer position. */
  datatype BufferState = BufferState(store: seq<byte>, start: nat, pos: nat)

  /** The invariant between calls: 0 <= _start <= position <= capacity. */
  predicate ValidState(b: BufferState)
  {
    |b.store| == MaxCapsuleSize && b.start <= b.pos <= MaxCapsuleSize
  }

  datatype ScanResult = ScanResult(capsules: seq<Capsule>, start: nat, pos: nat)

  function Prepend(cs: seq<Capsule>, r: ScanResult): ScanResult
  {
    r.(capsules := cs + r.capsules)
  }

  /** The outcome of one round of the decoding loop: a capsule and the position after
      its payload, or the loop's exit with the committed cursor and the position. */
  datatype StepResult = Next(capsule: Capsule, next: nat) | Stop(start: nat, pos: nat)

  /** One round of the decoding loop of `read_capsule_data` at position p, with the write
      position `end`. Reads are bounded by the store's capacity, not by `end`: a header
      that straddles `end` is read from stale bytes and then rejected by the
      `tell() + length > end` test, which moves the position to `end`. A read past
      capacity (BufferReadError) stops with the position where the failing read left it. */
  function Step(s: seq<byte>, p: nat, end: nat): (r: StepResult)
    requires p < end <= |s|
    ensures r.Next? ==> p < r.next <= end
    ensures r.Stop? ==> r.start == p <= r.pos <= |s|
  {
    match Varint.Pull(s, p)
    case ReadError => Stop(p, p)
    case Pulled(capsuleType, p1) =>
      match Varint.Pull(s, p1)
      case ReadError => Stop(p, p1)
      case Pulled(length, p2) =>
        if p2 + length > end then Stop(p, end)
        else Next(Decoded(Frame(capsuleType, s[p2..p2 + length])), p2 + length)
  }

  lemma StepPulled(s: seq<byte>, p: nat, end: nat, t: nat, p1: nat, length: nat, p2: nat)
    requires p < end <= |s|
    requires Varint.Pull(s, p) == Varint.Pulled(t, p1) && Varint.Pull(s, p1) == Varint.Pulled(length, p2)
    ensures Step(s, p, end) ==
      if p2 + length > end then Stop(p, end) else Next(Decoded(Frame(t, s[p2..p2 + length])), p2 + length)
  {
  }

  /** The decoding loop run from the committed position p: the capsules it returns and
      the cursors it leaves. Consuming everything resets both cursors to 0. */
  function Scan(s: seq<byte>, p: nat, end: nat): (r: ScanResult)
    requires p <= end <= |s|
    ensures r.start <= r.pos <= |s|
    ensures r.start <= end
    decreases end - p
  {
    if p >= end then ScanResult([], 0, 0)
    else match Step(s, p, end)
      case Stop(start, pos) => ScanResult([], start, pos)
      case Next(c, q) => Prepend([c], Scan(s, q, end))
  }

  /** One round of the decoding loop that yields a capsule: the loop continues after it. */
  lemma ScanNext(s: seq<byte>, p: nat, end: nat, c: Capsule, q: nat)
    requires p < end <= |s| && Step(s, p, end) == Next(c, q)
    ensures Scan(s, p, end) == Prepend([c], Scan(s, q, end))
  {
  }

  datatype IngestResult = IngestResult(state: BufferState, capsules: seq<Capsule>)

  /** One call of `read_capsule_data`: append the chunk at the position, then decode from
      the committed cursor. A chunk that does not fit is refused: nothing is returned,
      the store is untouched and the position falls back to `_start`, which discards the
      undecoded tail together with the chunk. */
  function Ingest(b: BufferState, chunk: seq<byte>): (r: IngestResult)
    requires ValidState(b)
    ensures ValidState(r.state)
    ensures b.pos + |chunk| > MaxCapsuleSize ==>
      r == IngestResult(BufferState(b.store, b.start, b.start), [])
    ensures b.pos + |chunk| <= MaxCapsuleSize ==> r.state.store == Overwrite(b.store, b.pos, chunk)
  {
    if b.pos + |chunk| > MaxCapsuleSize then IngestResult(BufferState(b.store, b.start, b.start), [])
    else
      var s := Overwrite(b.store, b.pos, chunk);
      var sc := Scan(s, b.start, b.pos + |chunk|);
      IngestResult(BufferState(s, sc.start, sc.pos), sc.capsules)
  }

  /** Unfolds Ingest for a chunk that fits. */
  lemma IngestInPlace(b: BufferState, chunk: seq<byte>, s: seq<byte>, end: nat, total: ScanResult)
    requires ValidState(b) && end == b.pos + |chunk| <= MaxCapsuleSize
    requires s == Overwrite(b.store, b.pos, chunk)
    requires total == Scan(s, b.start, end)
    ensures Ingest(b, chunk) == IngestResult(BufferState(s, total.start, total.pos), total.capsules)
  {
  }

  /** `CapsuleBuffer`: a QUIC buffer of capacity MaxCapsuleSize plus the committed cursor. */
  class CapsuleBuffer {
    const buf: QuicBuffer.Buffer
    var start: nat

    ghost predicate Valid()
      reads this, buf
    {
      buf.data.Length == MaxCapsuleSize && start <= buf.pos <= MaxCapsuleSize
    }

    ghost function State(): (b: BufferState)
      reads this, buf, buf.data
      requires Valid()
      ensures ValidState(b)
    {
      BufferState(buf.data[..], start, buf.pos)
    }

    constructor ()
      ensures Valid() && fresh(buf) && fresh(buf.data)
      ensures start == 0 && buf.pos == 0
    {
      buf := new QuicBuffer.Buffer(MaxCapsuleSize);
      start := 0;
    }

    /** One round of the decoding loop (the `try` block): a capsule whose payload lies
        before `end`, or None when the loop returns instead (a read past capacity, or a
        capsule that is not complete yet, which moves the position to `end`). */
    method PullCapsule(end: nat) returns (c: Option<Capsule>)
      requires Valid() && buf.pos < end <= MaxCapsuleSize
      modifies buf
      ensures Valid() && unchanged(buf.data)
      ensures Step(buf.data[..], old(buf.pos), end) ==
        if c.Some? then Next(c.value, buf.pos) else Stop(old(buf.pos), buf.pos)
    {
      var capsuleType := buf.PullUintVar();
      if capsuleType.None? {
        return None;
      }
      var length := buf.PullUintVar();
      if length.None? {
        return None;
      }
      if buf.pos + length.value > end {
        buf.Seek(end);
        return None;
      }
      var data := buf.PullBytes(length.value);
      if capsuleType.value == CapsuleType.DATAGRAM.Value() {
        c := Some(DatagramCapsule(data));
      } else {
        c := Some(PlainCapsule);
      }
    }

    /** The decoding loop of `read_capsule_data`, from the committed cursor to `end`:
        it returns Scan's capsules and leaves Scan's cursors. */
    method DecodeUntil(end: nat) returns (capsules: seq<Capsule>)
      requires Valid() && start == buf.pos <= end <= MaxCapsuleSize
      modifies this, buf
      ensures Valid() && unchanged(buf.data)
      ensures var r := Scan(buf.data[..], old(start), end);
        capsules == r.capsules && start == r.start && buf.pos == r.pos
    {
      ghost var s := buf.data[..];
      ghost var total := Scan(s, start, end);
      capsules := [];
      while buf.pos < end
        invariant Valid() && buf.data[..] == s
        invariant start == buf.pos <= end
        invariant total == Prepend(capsules, Scan(s, start, end))
        decreases end - buf.pos
      {
        var c := PullCapsule(end);
        if c.None? {
          return;
        }
        ScanNext(s, start, end, c.value, buf.pos);
        assert (capsules + [c.value]) + Scan(s, buf.pos, end).capsules
          == capsules + ([c.value] + Scan(s, buf.pos, end).capsules);
        capsules := capsules + [c.value];
        start := buf.pos;
      }
      start := 0;
      buf.Seek(start);
    }

    /** `read_capsule_data`: one step of Ingest, computed in place on the store. */
    method ReadCapsuleData(chunk: seq<byte>) returns (capsules: seq<Capsule>)
      requires Valid()
      modifies this, buf, buf.data
      ensures Valid()
      ensures var r := Ingest(old(State()), chunk);
        buf.data[..] == r.state.store && start == r.state.start && buf.pos == r.state.pos && capsules == r.capsules
    {
      ghost var before := State();
      assert before == old(State());
      var ok := buf.PushBytes(chunk);
      if !ok {
        buf.Seek(start);
        return [];
      }
      var end := buf.pos;
      buf.Seek(start);
      IngestInPlace(before, chunk, buf.data[..], end, Scan(buf.data[..], start, end));
      capsules := DecodeUntil(end);
    }
  }
}
