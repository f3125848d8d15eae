/** What the reassembly buffer of src/aioquic/masque/capsule.py delivers for a stream of
    well-formed capsules, however the stream is cut into chunks. */
module CapsuleStream {
  import opened Bytes
  import Varint
  import opened Capsule

  predicate AllEncodable(fs: seq<Frame>)
  {
    forall i :: 0 <= i < |fs| ==> Encodable(fs[i])
  }

  /** The wire form of a sequence of capsules, back to back. */
  function Stream(fs: seq<Frame>): seq<byte>
    requires AllEncodable(fs)
  {
    if fs == [] then [] else FrameBytes(fs[0]) + Stream(fs[1..])
  }

  /** What the reassembly returns for a sequence of capsules, in wire order. */
  function DecodedAll(fs: seq<Frame>): seq<Capsule>
  {
    if fs == [] then [] else [Decoded(fs[0])] + DecodedAll(fs[1..])
  }

  lemma StreamCons(f: Frame, fs: seq<Frame>)
    requires Encodable(f) && AllEncodable(fs)
    ensures AllEncodable([f] + fs) && Stream([f] + fs) == FrameBytes(f) + Stream(fs)
  {
    assert ([f] + fs)[0] == f && ([f] + fs)[1..] == fs;
  }

  lemma StreamUncons(fs: seq<Frame>)
    requires AllEncodable(fs) && fs != []
    ensures AllEncodable(fs[1..]) && Stream(fs) == FrameBytes(fs[0]) + Stream(fs[1..])
  {
  }

  lemma {:induction false} DecodedAllAppend(a: seq<Frame>, b: seq<Frame>)
    ensures DecodedAll(a + b) == DecodedAll(a) + DecodedAll(b)
  {
    if a == [] {
      assert a + b == b;
    } else {
      assert (a + b)[0] == a[0] && (a + b)[1..] == a[1..] + b;
      DecodedAllAppend(a[1..], b);
    }
  }

  /** A prefix w of a stream splits into the capsules lying whole within it (`done`) and
      a proper prefix r of the first remaining capsule, empty when none remains. */
  lemma {:induction false} WindowFrames(fs: seq<Frame>, w: seq<byte>) returns (done: seq<Frame>, todo: seq<Frame>, r: seq<byte>)
    requires AllEncodable(fs) && w <= Stream(fs)
    ensures fs == done + todo && AllEncodable(done) && AllEncodable(todo)
    ensures w == Stream(done) + r && Stream(fs) == Stream(done) + Stream(todo)
    ensures r <= Stream(todo)
    ensures todo == [] ==> r == []
    ensures todo != [] ==> |r| < |FrameBytes(todo[0])|
    decreases |fs|
  {
    if fs == [] {
      done, todo, r := [], [], w;
    } else if |w| < |FrameBytes(fs[0])| {
      done, todo, r := [], fs, w;
      assert Stream(done) + r == r;
      assert Stream(done) + Stream(todo) == Stream(fs);
    } else {
      var rest := fs[1..];
      assert fs == [fs[0]] + rest;
      assert AllEncodable(rest);
      StreamCons(fs[0], rest);
      var w' := PrefixDrop(w, FrameBytes(fs[0]), Stream(rest));
      var d';
      d', todo, r := WindowFrames(rest, w');
      done := [fs[0]] + d';
      WindowCons(fs[0], rest, w, w', d', todo, r);
    }
  }

  /** The window step: one more whole capsule in front of a split window. */
  lemma WindowCons(f: Frame, rest: seq<Frame>, w: seq<byte>, w': seq<byte>, d: seq<Frame>, todo: seq<Frame>, r: seq<byte>)
    requires Encodable(f) && w == FrameBytes(f) + w'
    requires rest == d + todo && AllEncodable(d) && AllEncodable(todo) && AllEncodable(rest)
    requires w' == Stream(d) + r && Stream(rest) == Stream(d) + Stream(todo)
    ensures AllEncodable([f] + d) && AllEncodable([f] + rest) && [f] + rest == ([f] + d) + todo
    ensures w == Stream([f] + d) + r && Stream([f] + rest) == Stream([f] + d) + Stream(todo)
  {
    StreamCons(f, d);
    StreamCons(f, rest);
    Reassociate(w, FrameBytes(f), w', Stream(d), r);
    Reassociate(Stream([f] + rest), FrameBytes(f), Stream(rest), Stream(d), Stream(todo));
    Reassociate([f] + rest, [f], rest, d, todo);
  }

  lemma Reassociate<T>(w: seq<T>, a: seq<T>, w': seq<T>, b: seq<T>, c: seq<T>)
    requires w == a + w' && w' == b + c
    ensures w == (a + b) + c
  {
  }

  /** A prefix of a + b that covers a is a followed by a prefix of b. */
  lemma PrefixDrop(w: seq<byte>, a: seq<byte>, b: seq<byte>) returns (w': seq<byte>)
    requires w <= a + b && |a| <= |w|
    ensures w == a + w' && w' <= b
  {
    w' := w[|a|..];
    assert w[..|a|] == (a + b)[..|a|] == a;
    assert w == w[..|a|] + w';
    assert (a + b)[|a|..] == b;
  }

  /** A whole capsule at p, before `end`, is decoded and the loop goes on right after it. */
  lemma StepFrame(s: seq<byte>, p: nat, q: nat, end: nat, f: Frame)
    requires Encodable(f) && q == p + |FrameBytes(f)| && q <= end <= |s|
    requires s[p..q] == FrameBytes(f)
    ensures Step(s, p, end) == Next(Decoded(f), q)
  {
    var fb := FrameBytes(f);
    HeaderAt(s, p, q, f);
    FrameBytesParts(f);
    SliceOfPrefix(s, p, q, fb, HeaderLength(f), |fb|);
    StepPulled(s, p, end, f.typeCode, p + Varint.Length(f.typeCode), |f.payload|, p + HeaderLength(f));
  }

  /** A proper prefix of a capsule before `end` stops the loop at its first byte, with the
      position at `end`: either its header is complete and announces a payload that goes
      past `end`, or the header runs past `end`. In the second case the header is read
      from stale bytes, which only stays inside the store when there are two maximal
      varints of room after p. */
  lemma StepPartial(s: seq<byte>, p: nat, end: nat, g: Frame)
    requires Encodable(g) && p < end <= |s|
    requires s[p..end] < FrameBytes(g)
    requires HeaderLength(g) <= end - p || p + 2 * UintVarMaxSize <= |s|
    ensures Step(s, p, end) == Stop(p, end)
  {
    var n1 := Varint.Length(g.typeCode);
    if HeaderLength(g) <= end - p {
      HeaderAt(s, p, end, g);
      StepPulled(s, p, end, g.typeCode, p + n1, |g.payload|, p + HeaderLength(g));
    } else {
      var fb := FrameBytes(g);
      FrameBytesParts(g);
      SliceOfPrefix(s, p, end, fb, 0, 1);
      assert s[p] == Varint.Encode(g.typeCode)[0];
      var p1 := p + n1;
      if p1 < end {
        SliceOfPrefix(s, p, end, fb, n1, n1 + 1);
        assert s[p1] == Varint.Encode(|g.payload|)[0];
      }
      var r1 := Varint.Pull(s, p);
      var r2 := Varint.Pull(s, p1);
      StepPulled(s, p, end, r1.value, p1, r2.value, r2.next);
    }
  }

  /** A whole capsule in front of what the loop returns from after it is returned first. */
  lemma ScanCons(s: seq<byte>, p: nat, q: nat, end: nat, f: Frame, cs: seq<Capsule>, x: ScanResult)
    requires Encodable(f) && q == p + |FrameBytes(f)| && q <= end <= |s|
    requires s[p..q] == FrameBytes(f)
    requires Scan(s, q, end) == Prepend(cs, x)
    ensures Scan(s, p, end) == Prepend([Decoded(f)] + cs, x)
  {
    StepFrame(s, p, q, end, f);
    ScanNext(s, p, end, Decoded(f), q);
    assert [Decoded(f)] + (cs + x.capsules) == ([Decoded(f)] + cs) + x.capsules;
  }

  /** The decoding loop over whole capsules (from p to e) returns them in wire order and
      carries on right after them. */
  lemma {:induction false} ScanFrames(s: seq<byte>, p: nat, e: nat, end: nat, fs: seq<Frame>)
    requires AllEncodable(fs) && e == p + |Stream(fs)| && e <= end <= |s|
    requires s[p..e] == Stream(fs)
    ensures Scan(s, p, end) == Prepend(DecodedAll(fs), Scan(s, e, end))
    decreases |fs|
  {
    if fs == [] {
      assert [] + Scan(s, e, end).capsules == Scan(s, e, end).capsules;
    } else {
      var q := SplitFirst(s, p, e, fs);
      ScanFrames(s, q, e, end, fs[1..]);
      ScanCons(s, p, q, end, fs[0], DecodedAll(fs[1..]), Scan(s, e, end));
    }
  }

  /** The store from p holds the first capsule of a stream, then the others. */
  lemma SplitFirst(s: seq<byte>, p: nat, e: nat, fs: seq<Frame>) returns (q: nat)
    requires AllEncodable(fs) && fs != [] && e == p + |Stream(fs)| && e <= |s|
    requires s[p..e] == Stream(fs)
    ensures Encodable(fs[0]) && AllEncodable(fs[1..])
    ensures q == p + |FrameBytes(fs[0])| && e == q + |Stream(fs[1..])|
    ensures s[p..q] == FrameBytes(fs[0]) && s[q..e] == Stream(fs[1..])
  {
    q := p + |FrameBytes(fs[0])|;
    StreamUncons(fs);
    SliceSplit(s, p, e, FrameBytes(fs[0]), Stream(fs[1..]));
  }

  /** What the loop leaves after the whole capsules: a drained buffer when nothing
      follows them, or, before a proper prefix of one more capsule, the cursor committed
      to the start of that prefix and the position at `end`. */
  lemma ScanTail(s: seq<byte>, e: nat, end: nat, rest: seq<byte>, g: Frame)
    requires Encodable(g) && e <= end <= |s| && s[e..end] == rest
    requires rest == [] ||
      (rest < FrameBytes(g) && (HeaderLength(g) <= |rest| || e + 2 * UintVarMaxSize <= |s|))
    ensures Scan(s, e, end) == if rest == [] then ScanResult([], 0, 0) else ScanResult([], e, end)
  {
    if rest != [] {
      StepPartial(s, e, end, g);
    }
  }

  /** The capsule that a proper prefix r of a stream begins (any capsule when r is empty). */
  lemma PendingFrame(todo: seq<Frame>, r: seq<byte>) returns (g: Frame)
    requires AllEncodable(todo) && r <= Stream(todo)
    requires todo == [] ==> r == []
    requires todo != [] ==> |r| < |FrameBytes(todo[0])|
    ensures Encodable(g) && (r == [] || r < FrameBytes(g))
  {
    g := Frame(0, []);
    if todo != [] {
      g := todo[0];
      assert Stream(todo) == FrameBytes(g) + Stream(todo[1..]);
    }
  }

  /** The decoding loop over whole capsules followed by a proper prefix of one more:
      the whole capsules are returned and the loop stops at the prefix, or drains the
      buffer when there is none. */
  lemma ScanWindow(s: seq<byte>, p: nat, end: nat, done: seq<Frame>, r: seq<byte>, g: Frame)
    requires AllEncodable(done) && Encodable(g) && p <= end <= |s|
    requires s[p..end] == Stream(done) + r
    requires r == [] ||
      (r < FrameBytes(g) && (HeaderLength(g) <= |r| || p + |Stream(done)| + 2 * UintVarMaxSize <= |s|))
    ensures s[p + |Stream(done)|..end] == r
    ensures Scan(s, p, end) == ScanResult(DecodedAll(done),
      if r == [] then 0 else p + |Stream(done)|, if r == [] then 0 else end)
  {
    var e := p + |Stream(done)|;
    SliceSplit(s, p, end, Stream(done), r);
    ScanFrames(s, p, e, end, done);
    ScanTail(s, e, end, r, g);
  }

  /** One call of `read_capsule_data` whose chunk continues a stream of capsules: it
      returns the capsules that the chunk completes, in wire order, and keeps exactly the
      bytes of the capsule left incomplete, committed at their start. A buffer that is
      left with nothing pending is drained. The chunk must leave two maximal varints of
      room in the store, so that a header cut by the end of the chunk is read back
      inside the store. */
  lemma IngestWindow(b: BufferState, chunk: seq<byte>, fs: seq<Frame>) returns (done: seq<Frame>, todo: seq<Frame>, r: seq<byte>)
    requires ValidState(b) && AllEncodable(fs)
    requires b.store[b.start..b.pos] + chunk <= Stream(fs)
    requires b.pos + |chunk| + 2 * UintVarMaxSize <= MaxCapsuleSize
    ensures fs == done + todo && AllEncodable(done) && AllEncodable(todo)
    ensures b.store[b.start..b.pos] + chunk == Stream(done) + r && Stream(fs) == Stream(done) + Stream(todo)
    ensures todo == [] ==> r == []
    ensures todo != [] ==> |r| < |FrameBytes(todo[0])|
    ensures var res := Ingest(b, chunk);
      && res.capsules == DecodedAll(done)
      && res.state.store[res.state.start..res.state.pos] == r
      && res.state.pos <= b.pos + |chunk|
      && (r == [] ==> res.state.start == 0 && res.state.pos == 0)
  {
    done, todo, r := WindowFrames(fs, b.store[b.start..b.pos] + chunk);
    var g := PendingFrame(todo, r);
    assert |Stream(done)| <= b.pos - b.start + |chunk|;
    IngestFrames(b, chunk, done, r, g);
  }

  /** One call of `read_capsule_data` whose held-back bytes and chunk are whole capsules
      followed by a proper prefix r of one more capsule. The prefix must either hold the
      whole header of that capsule or start two maximal varints before the end of the
      store, so that reading its header cannot pass the store's capacity. */
  lemma IngestFrames(b: BufferState, chunk: seq<byte>, done: seq<Frame>, r: seq<byte>, g: Frame)
    requires ValidState(b) && AllEncodable(done) && Encodable(g)
    requires b.pos + |chunk| <= MaxCapsuleSize
    requires b.store[b.start..b.pos] + chunk == Stream(done) + r
    requires r == [] || (r < FrameBytes(g) &&
      (HeaderLength(g) <= |r| || b.start + |Stream(done)| + 2 * UintVarMaxSize <= MaxCapsuleSize))
    ensures var res := Ingest(b, chunk);
      && res.capsules == DecodedAll(done)
      && res.state.store[res.state.start..res.state.pos] == r
      && res.state.pos <= b.pos + |chunk|
      && (r == [] ==> res.state.start == 0 && res.state.pos == 0)
  {
    var end := b.pos + |chunk|;
    var s := Overwrite(b.store, b.pos, chunk);
    OverwriteSlice(b.store, b.pos, chunk, b.start);
    ScanWindow(s, b.start, end, done, r, g);
    IngestInPlace(b, chunk, s, end, Scan(s, b.start, end));
  }

  /** The bytes a buffer holds back: read but not yet returned as capsules. */
  function Pending(b: BufferState): seq<byte>
    requires ValidState(b)
  {
    b.store[b.start..b.pos]
  }

  /** A sequence of sequences back to back: the bytes of a run of chunks, or the capsules
      of a run of streams. */
  function Concat<T>(xs: seq<seq<T>>): seq<T>
  {
    if xs == [] then [] else xs[0] + Concat(xs[1..])
  }

  /** Successive calls of `read_capsule_data`, one per chunk: the final state and every
      capsule returned, in call order. */
  function Feed(b: BufferState, chunks: seq<seq<byte>>): (r: IngestResult)
    requires ValidState(b)
    ensures ValidState(r.state)
    decreases |chunks|
  {
    if chunks == [] then IngestResult(b, [])
    else
      var first := Ingest(b, chunks[0]);
      var rest := Feed(first.state, chunks[1..]);
      IngestResult(rest.state, first.capsules + rest.capsules)
  }

  /** The bytes left over once a window of the stream is consumed: with p + c the
      window, m what follows it and sd the part of the window that was decoded. */
  lemma WindowRest(p: seq<byte>, c: seq<byte>, m: seq<byte>, sd: seq<byte>, r: seq<byte>, st: seq<byte>)
    requires p + c == sd + r && (p + c) + m == sd + st
    ensures r + m == st
  {
    assert sd + (r + m) == sd + st;
    assert r + m == (sd + (r + m))[|sd|..];
  }

  lemma FeedCons(b: BufferState, chunks: seq<seq<byte>>)
    requires ValidState(b) && chunks != []
    ensures var first := Ingest(b, chunks[0]);
      var rest := Feed(first.state, chunks[1..]);
      Feed(b, chunks) == IngestResult(rest.state, first.capsules + rest.capsules)
  {
  }

  /** Feeding a stream of capsules, cut into chunks anywhere, to a buffer that holds back
      at most a proper prefix of the first capsule returns every capsule once, in wire
      order, and leaves nothing held back; after at least one call the buffer is drained
      to position 0. Every chunk must leave two maximal varints of room in the store. */
  lemma {:induction false} FeedStream(b: BufferState, chunks: seq<seq<byte>>, fs: seq<Frame>)
    requires ValidState(b) && AllEncodable(fs)
    requires Pending(b) + Concat(chunks) == Stream(fs)
    requires fs == [] || |Pending(b)| < |FrameBytes(fs[0])|
    requires b.pos + |Concat(chunks)| + 2 * UintVarMaxSize <= MaxCapsuleSize
    ensures Feed(b, chunks).capsules == DecodedAll(fs)
    ensures Pending(Feed(b, chunks).state) == []
    ensures chunks != [] ==> Feed(b, chunks).state.start == 0 && Feed(b, chunks).state.pos == 0
    decreases |chunks|
  {
    if chunks != [] {
      var c := chunks[0];
      var more := chunks[1..];
      var m := Concat(more);
      assert Concat(chunks) == c + m;
      Reassociate(Stream(fs), Pending(b), c + m, c, m);
      var done, todo, r := IngestWindow(b, c, fs);
      WindowRest(Pending(b), c, m, Stream(done), r, Stream(todo));
      var first := Ingest(b, c);
      FeedStream(first.state, more, todo);
      FeedCons(b, chunks);
      DecodedAllAppend(done, todo);
    }
  }

  /** Feeding two runs of chunks one after the other. */
  lemma {:induction false} FeedAppend(b: BufferState, c1: seq<seq<byte>>, c2: seq<seq<byte>>)
    requires ValidState(b)
    ensures var f1 := Feed(b, c1);
      var f2 := Feed(f1.state, c2);
      Feed(b, c1 + c2) == IngestResult(f2.state, f1.capsules + f2.capsules)
    decreases |c1|
  {
    if c1 == [] {
      assert c1 + c2 == c2;
    } else {
      assert (c1 + c2)[0] == c1[0] && (c1 + c2)[1..] == c1[1..] + c2;
      var first := Ingest(b, c1[0]);
      FeedAppend(first.state, c1[1..], c2);
      var f1 := Feed(first.state, c1[1..]);
      var f2 := Feed(f1.state, c2);
      assert first.capsules + (f1.capsules + f2.capsules) == (first.capsules + f1.capsules) + f2.capsules;
    }
  }

  /** A stream of any length, delivered in runs of calls that each carry whole capsules:
      since each run drains the buffer back to position 0, each run only needs to fit the
      store on its own (with two maximal varints of room). Every capsule is returned once,
      in wire order, and the buffer ends drained. */
  lemma {:induction false} FeedRuns(b: BufferState, runs: seq<seq<seq<byte>>>, fss: seq<seq<Frame>>)
    requires ValidState(b) && b.start == 0 && b.pos == 0 && |runs| == |fss|
    requires forall i :: 0 <= i < |runs| ==>
      && runs[i] != [] && AllEncodable(fss[i]) && Concat(runs[i]) == Stream(fss[i])
      && |Stream(fss[i])| + 2 * UintVarMaxSize <= MaxCapsuleSize
    ensures var r := Feed(b, Concat(runs));
      r.capsules == DecodedAll(Concat(fss)) && r.state.start == 0 && r.state.pos == 0
    decreases |runs|
  {
    if runs == [] {
      assert Concat(runs) == [] && Concat(fss) == [];
    } else {
      var run, fs := runs[0], fss[0];
      assert Concat(runs) == run + Concat(runs[1..]);
      assert Concat(fss) == fs + Concat(fss[1..]);
      assert Pending(b) == [];
      assert fs != [] ==> |FrameBytes(fs[0])| > 0;
      FeedStream(b, run, fs);
      var first := Feed(b, run);
      FeedRuns(first.state, runs[1..], fss[1..]);
      FeedAppend(b, run, Concat(runs[1..]));
      DecodedAllAppend(fs, Concat(fss[1..]));
    }
  }

  /** How the stream is cut into chunks does not change what the buffer returns. */
  lemma ChunkingInvariance(b: BufferState, chunks: seq<seq<byte>>, other: seq<seq<byte>>, fs: seq<Frame>)
    requires ValidState(b) && b.start == b.pos && AllEncodable(fs)
    requires Concat(chunks) == Concat(other) == Stream(fs)
    requires b.pos + |Stream(fs)| + 2 * UintVarMaxSize <= MaxCapsuleSize
    ensures Feed(b, chunks).capsules == Feed(b, other).capsules == DecodedAll(fs)
  {
    assert Pending(b) == [];
    FeedStream(b, chunks, fs);
    FeedStream(b, other, fs);
  }

  /** Several whole capsules in one chunk, given to a buffer holding nothing back, are all
      returned by that one call, in wire order, and the buffer is drained. */
  lemma IngestWhole(b: BufferState, fs: seq<Frame>)
    requires ValidState(b) && b.start == b.pos && AllEncodable(fs)
    requires b.pos + |Stream(fs)| <= MaxCapsuleSize
    ensures Ingest(b, Stream(fs)) ==
      IngestResult(BufferState(Overwrite(b.store, b.pos, Stream(fs)), 0, 0), DecodedAll(fs))
  {
    var c := Stream(fs);
    var end := b.pos + |c|;
    var s := Overwrite(b.store, b.pos, c);
    assert s[b.start..end] == c;
    ScanFrames(s, b.start, end, end, fs);
    assert DecodedAll(fs) + [] == DecodedAll(fs);
    IngestInPlace(b, c, s, end, Scan(s, b.start, end));
  }

  /** The DATAGRAM round trip: the encoding of a payload, given to a fresh buffer, comes
      back as exactly that payload and drains the buffer, or is refused whole when it
      does not fit the store. */
  lemma DatagramRoundTrip(b: BufferState, data: seq<byte>)
    requires ValidState(b) && b.start == 0 && b.pos == 0
    ensures var e := EncodeDatagramCapsule(data);
      e.Some? ==>
        var r := Ingest(b, e.value);
        if |e.value| <= MaxCapsuleSize then
          r.capsules == [DatagramCapsule(data)] && r.state.start == 0 && r.state.pos == 0
        else
          r.capsules == [] && r.state == b
  {
    var e := EncodeDatagramCapsule(data);
    if e.Some? && |e.value| <= MaxCapsuleSize {
      var f := Frame(0x00, data);
      var fs := [f];
      assert fs[1..] == [];
      assert Stream(fs) == e.value;
      assert AllEncodable(fs);
      IngestWhole(b, fs);
      assert DecodedAll(fs) == [DatagramCapsule(data)];
    }
  }

  /** A capsule whose first chunk holds its header but not all its payload: the first
      call returns nothing, commits the cursor at the header and moves the position to
      the end of the chunk; the call with the rest returns the capsule once, with the
      payload put back together, and drains the buffer. */
  lemma SplitCapsule(b: BufferState, f: Frame, k: nat)
    requires ValidState(b) && b.start == b.pos && Encodable(f)
    requires HeaderLength(f) <= k < |FrameBytes(f)|
    requires b.pos + |FrameBytes(f)| <= MaxCapsuleSize
    ensures var first := Ingest(b, FrameBytes(f)[..k]);
      && first.capsules == []
      && first.state.start == b.pos && first.state.pos == b.pos + k
      && var second := Ingest(first.state, FrameBytes(f)[k..]);
        && second.capsules == [Decoded(f)]
        && second.state.start == 0 && second.state.pos == 0
  {
    var fb := FrameBytes(f);
    var s1 := SplitFirstCall(b, f, k);
    SplitSecondCall(BufferState(s1, b.pos, b.pos + k), f, k);
  }

  /** The first call of SplitCapsule: the header and part of the payload are held back. */
  lemma SplitFirstCall(b: BufferState, f: Frame, k: nat) returns (s1: seq<byte>)
    requires ValidState(b) && b.start == b.pos && Encodable(f)
    requires HeaderLength(f) <= k < |FrameBytes(f)|
    requires b.pos + |FrameBytes(f)| <= MaxCapsuleSize
    ensures Ingest(b, FrameBytes(f)[..k]) == IngestResult(BufferState(s1, b.pos, b.pos + k), [])
    ensures |s1| == MaxCapsuleSize && s1[b.pos..b.pos + k] == FrameBytes(f)[..k]
  {
    var fb := FrameBytes(f);
    var c1 := fb[..k];
    var mid := b.pos + k;
    s1 := Overwrite(b.store, b.pos, c1);
    assert s1[b.pos..mid] == c1 < fb;
    ScanTail(s1, b.pos, mid, c1, f);
    IngestInPlace(b, c1, s1, mid, Scan(s1, b.start, mid));
  }

  /** The second call of SplitCapsule: the rest of the payload completes the capsule. */
  lemma SplitSecondCall(b1: BufferState, f: Frame, k: nat)
    requires ValidState(b1) && Encodable(f) && k < |FrameBytes(f)| && b1.pos == b1.start + k
    requires b1.start + |FrameBytes(f)| <= MaxCapsuleSize
    requires b1.store[b1.start..b1.pos] == FrameBytes(f)[..k]
    ensures var second := Ingest(b1, FrameBytes(f)[k..]);
      && second.capsules == [Decoded(f)]
      && second.state.start == 0 && second.state.pos == 0
  {
    var fb := FrameBytes(f);
    var c2 := fb[k..];
    var end := b1.start + |fb|;
    var s2 := Overwrite(b1.store, b1.pos, c2);
    OverwriteSlice(b1.store, b1.pos, c2, b1.start);
    assert fb[..k] + c2 == fb;
    StepFrame(s2, b1.start, end, end, f);
    ScanNext(s2, b1.start, end, Decoded(f), end);
    IngestInPlace(b1, c2, s2, end, Scan(s2, b1.start, end));
  }

  /** Near the end of the store, a first byte that announces a varint wider than the
      room left makes `pull_uint_var` raise BufferReadError. The call returns nothing and
      leaves the position at the committed cursor, not at `end`. So the next chunk is
      written over the byte the buffer was holding back. */
  lemma ReadErrorOverwrites(b: BufferState, x: byte, c: seq<byte>)
    requires ValidState(b) && b.start == b.pos < MaxCapsuleSize < b.pos + Varint.WidthOf(x)
    requires c != [] && b.pos + |c| <= MaxCapsuleSize
    ensures var first := Ingest(b, [x]);
      && first == IngestResult(BufferState(Overwrite(b.store, b.pos, [x]), b.pos, b.pos), [])
      && Ingest(first.state, c).state.store[b.pos] == c[0]
  {
    var s := Overwrite(b.store, b.pos, [x]);
    assert s[b.pos] == s[b.pos..b.pos + 1][0] == x;
    assert Varint.Pull(s, b.pos) == Varint.ReadError;
    assert Step(s, b.pos, b.pos + 1) == Stop(b.pos, b.pos);
    IngestInPlace(b, [x], s, b.pos + 1, Scan(s, b.start, b.pos + 1));
    var s2 := Overwrite(s, b.pos, c);
    assert s2[b.pos] == s2[b.pos..b.pos + |c|][0];
  }

  /** When the type read succeeds but the length read raises, the position is left
      right after the type, which can lie past `end`. Five bytes before the end of the
      store, a one-byte chunk that announces a two-byte type makes the call read a stale
      byte as the type's second byte, and a stale first byte of the length that announces
      eight bytes raises. The call returns nothing with the position one past `end`, so
      the next chunk is appended after the stale byte: the held-back bytes become the
      chunk, the stale byte and the next chunk. */
  lemma LengthReadErrorSplices(b: BufferState, x: byte, y: byte)
    requires ValidState(b) && b.start == b.pos == MaxCapsuleSize - 5
    requires Varint.WidthOf(x) == 2 && Varint.WidthOf(b.store[b.pos + 2]) == 8
    ensures var first := Ingest(b, [x]);
      && first.capsules == []
      && first.state.start == b.pos && first.state.pos == b.pos + 2
      && var second := Ingest(first.state, [y]);
        second.state.store[b.pos..b.pos + 3] == [x, b.store[b.pos + 1], y]
  {
    var p := b.pos;
    var s := Overwrite(b.store, p, [x]);
    assert s[p] == s[p..p + 1][0] == x;
    OverwriteSlice(b.store, p, [x], p);
    assert s[p + 1] == b.store[p + 1] && s[p + 2] == b.store[p + 2];
    assert Varint.Pull(s, p + 2) == Varint.ReadError;
    assert Step(s, p, p + 1) == Stop(p, p + 2);
    IngestInPlace(b, [x], s, p + 1, Scan(s, b.start, p + 1));
    var s2 := Overwrite(s, p + 2, [y]);
    assert s2[p] == x && s2[p + 1] == b.store[p + 1] && s2[p + 2] == s2[p + 2..p + 3][0] == y;
  }

  /** An empty chunk on a buffer holding nothing back returns nothing and drains it. */
  lemma EmptyChunkOnDrained(b: BufferState)
    requires ValidState(b) && b.start == b.pos
    ensures Ingest(b, []) == IngestResult(BufferState(b.store, 0, 0), [])
  {
    assert Overwrite(b.store, b.pos, []) == b.store;
    IngestInPlace(b, [], b.store, b.pos, Scan(b.store, b.start, b.pos));
  }
}
