/** The two stream handlers of main.go: streamCameraFromCache (lines 202-265) and
    streamCameraDirect (lines 288-374), reduced to what they do with bytes. The HTTP client
    they write to is a Sink whose writes may fail; the response headers, the Flusher check,
    the sleeps and the logging are left out. The request context is modelled by the number of
    iterations that start before it is done. */
module Stream {
  import opened Bytes
  import opened Wrappers
  import opened Model
  import opened Multipart
  import opened Fetch
  import Ring
  import FrameCache

  /** The client connection as a value: the bytes it has accepted, how many of them have been
      flushed, how many more writes it will accept, and how many bytes of the write that fails
      still reach it (io.Writer lets a failing Write have written part of its buffer). A
      handler stops at its first failed write, so these describe every failure it can
      observe. */
  datatype SinkState = SinkState(out: seq<byte>, flushed: nat, budget: nat, torn: nat)

  predicate SinkValid(s: SinkState) {
    s.flushed <= |s.out|
  }

  function Min(a: nat, b: nat): nat {
    if a < b then a else b
  }

  /** One checked write: it succeeds having appended all of b, or fails having appended only a
      prefix of b (none of it, some, or all), after which the connection is spent. */
  function Put(s: SinkState, b: seq<byte>): (res: (SinkState, bool))
    requires SinkValid(s)
    ensures SinkValid(res.0) && res.0.flushed == s.flushed && res.0.torn == s.torn
    ensures res.1 <==> s.budget > 0
    ensures res.1 ==> res.0.out == s.out + b && res.0.budget == s.budget - 1
    ensures !res.1 ==> res.0.out == s.out + b[..Min(s.torn, |b|)] && res.0.budget == 0
  {
    if s.budget == 0 then (s.(out := s.out + b[..Min(s.torn, |b|)]), false)
    else (s.(out := s.out + b, budget := s.budget - 1), true)
  }

  /** What one emitted frame does: the header write, the payload write and the separator
      write, each checked, the first failure ending it; a flush only after all three. It
      succeeds exactly when the connection takes three more writes, never disturbs what was
      already sent, and leaves the flush mark alone when it fails. */
  function Emit(s: SinkState, data: seq<byte>): (res: (SinkState, bool))
    requires SinkValid(s)
    ensures SinkValid(res.0)
    ensures res.1 <==> s.budget >= 3
    ensures |s.out| <= |res.0.out| && res.0.out[..|s.out|] == s.out
    ensures !res.1 ==> res.0.flushed == s.flushed && res.0.budget == 0
  {
    var (s1, ok1) := Put(s, Header(|data|));
    if !ok1 then (s1, false)
    else
      var (s2, ok2) := Put(s1, data);
      if !ok2 then (s2, false)
      else
        var (s3, ok3) := Put(s2, CRLF);
        if !ok3 then (s3, false)
        else (s3.(flushed := |s3.out|), true)
  }

  /** The writes of one emitted frame, case by case on how many the connection accepts: the
      pieces written before the failing write, then what reached the wire of that write. */
  lemma EmitCases(s: SinkState, data: seq<byte>)
    requires SinkValid(s)
    ensures var (s', ok) := Emit(s, data);
      var h := Header(|data|);
      && s'.flushed == (if ok then |s'.out| else s.flushed)
      && s'.budget == (if ok then s.budget - 3 else 0)
      && s'.out == (if s.budget == 0 then s.out + h[..Min(s.torn, |h|)]
                    else if s.budget == 1 then s.out + h + data[..Min(s.torn, |data|)]
                    else if s.budget == 2 then s.out + h + data + CRLF[..Min(s.torn, 2)]
                    else s.out + h + data + CRLF)
  {
  }

  /** Emitting a frame either delivers the whole part and flushes it, or, when the connection
      fails, delivers a prefix of the part, unflushed: the client never sees a part's bytes
      out of order or a flush of a torn part. */
  lemma EmitEffect(s: SinkState, data: seq<byte>)
    requires SinkValid(s)
    ensures var (s', ok) := Emit(s, data);
      && (ok <==> s.budget >= 3)
      && (ok ==> s'.out == s.out + Part(data) && s'.flushed == |s'.out| && s'.budget == s.budget - 3)
      && (!ok ==> s'.flushed == s.flushed && s'.budget == 0)
      && (!ok ==> |s'.out| <= |s.out| + |Part(data)| && s'.out == (s.out + Part(data))[..|s'.out|])
  {
    EmitCases(s, data);
    if s.budget < 3 {
      EmitTorn(s, data);
    } else {
      assert Part(data) == Header(|data|) + data + CRLF;
    }
  }

  /** A failed emission leaves a prefix of the part on the wire: the header, payload and
      separator writes before the failing one, then the torn front of that write. */
  lemma EmitTorn(s: SinkState, data: seq<byte>)
    requires SinkValid(s) && s.budget < 3
    ensures var out := Emit(s, data).0.out;
      |out| <= |s.out| + |Part(data)| && out == (s.out + Part(data))[..|out|]
  {
    EmitCases(s, data);
    var h := Header(|data|);
    var part := Part(data);
    assert part == h + (data + CRLF);
    var p: seq<byte>;
    if s.budget == 0 {
      var m := Min(s.torn, |h|);
      p := h[..m];
      TakeFront(h, data + CRLF, m);
    } else if s.budget == 1 {
      var m := Min(s.torn, |data|);
      p := h + data[..m];
      TakeFront(data, CRLF, m);
      TornPrefix(h, data + CRLF, m);
    } else {
      var m := Min(s.torn, 2);
      p := h + data + CRLF[..m];
      assert part == (h + data) + CRLF;
      TornPrefix(h + data, CRLF, m);
    }
    assert Emit(s, data).0.out == s.out + p;
    TornPrefix(s.out, part, |p|);
  }

  /** Taking m bytes of x + y, with m within x, takes them from x. */
  lemma TakeFront(x: seq<byte>, y: seq<byte>, m: nat)
    requires m <= |x|
    ensures (x + y)[..m] == x[..m]
  {
  }

  /** The first |x| + m bytes of x + y are x and the first m bytes of y. */
  lemma TornPrefix(x: seq<byte>, y: seq<byte>, m: nat)
    requires m <= |y|
    ensures (x + y)[..|x| + m] == x + y[..m]
  {
  }

  /** How an iteration ends: the handler returns, sleeps and retries without writing, or sent
      a frame and sleeps before the next one. */
  datatype Step = Stop | Retry | Sent

  /** The rest of an iteration once the handler has its frame (or knows it has none). */
  function Serve(frame: Option<seq<byte>>, s: SinkState): (res: (Step, SinkState))
    requires SinkValid(s)
    ensures SinkValid(res.1)
    ensures frame.None? ==> res == (Retry, s)
    ensures frame.Some? ==> res.0 != Retry
  {
    match frame
    case None => (Retry, s)
    case Some(data) =>
      var (s', ok) := Emit(s, data);
      (if ok then Sent else Stop, s')
  }

  /** The payload of a cached frame. */
  function DataOf(frame: Option<Frame>): Option<seq<byte>> {
    if frame.Some? then Some(frame.value.data) else None
  }

  /** The payload a direct fetch yields, stated on the raw answer: a 200 response whose body
      passes the JPEG check, and then that body. The empty-body check of the handler is
      subsumed by the JPEG check, which needs at least 1000 bytes. */
  function Fetched(res: FetchResult): (d: Option<seq<byte>>)
    ensures d.Some? <==> res.Response? && res.status == StatusOK && Jpeg.IsValidJPEG(res.body)
    ensures d.Some? ==> d.value == res.body && |d.value| >= Jpeg.MinFrameSize
  {
    if Gate(res).Accepted? then Some(res.body) else None
  }

  /** Cached mode for as long as the context lasts (`iterations` of them) and no fetch
      interleaves: the final ring, the final sink, and the payloads sent whole. The handler
      only reads the ring (its slots and write cursor stay as they were), sends at most one
      frame per iteration, each of them a payload held in some slot, and never disturbs what
      the connection had already carried. */
  function CachedRun(r: Ring.RingState, s: SinkState, iterations: nat)
    : (res: (Ring.RingState, SinkState, seq<seq<byte>>))
    requires Ring.Valid(r) && SinkValid(s)
    ensures Ring.Valid(res.0) && SinkValid(res.1)
    ensures res.0.slots == r.slots && res.0.writeIndex == r.writeIndex
    ensures |res.2| <= iterations
    ensures forall d :: d in res.2 ==> exists i :: 0 <= i < |r.slots| && r.slots[i].Some? && r.slots[i].value.data == d
    ensures |s.out| <= |res.1.out| && res.1.out[..|s.out|] == s.out
    decreases iterations
  {
    if iterations == 0 then (r, s, [])
    else
      var (frame, r1) := Ring.Next(r);
      var (step, s1) := Serve(DataOf(frame), s);
      if step == Stop then (r1, s1, [])
      else
        var (r2, s2, sent) := CachedRun(r1, s1, iterations - 1);
        assert s2.out[..|s.out|] == s2.out[..|s1.out|][..|s.out|];
        (r2, s2, if step == Sent then [frame.value.data] + sent else sent)
  }

  /** Direct mode with one client answer per iteration until the context is done. At most
      one frame is sent per answer, every payload sent passed the JPEG check, and what the
      connection had already carried is never disturbed. */
  function DirectRun(s: SinkState, answers: seq<FetchResult>): (res: (SinkState, seq<seq<byte>>))
    requires SinkValid(s)
    ensures SinkValid(res.0)
    ensures |res.1| <= |answers|
    ensures forall d :: d in res.1 ==> Jpeg.IsValidJPEG(d)
    ensures |s.out| <= |res.0.out| && res.0.out[..|s.out|] == s.out
    decreases |answers|
  {
    if answers == [] then (s, [])
    else
      var (step, s1) := Serve(Fetched(answers[0]), s);
      if step == Stop then (s1, [])
      else
        var (s2, sent) := DirectRun(s1, answers[1..]);
        assert s2.out[..|s.out|] == s2.out[..|s1.out|][..|s.out|];
        (s2, if step == Sent then [answers[0].body] + sent else sent)
  }

  /** The concatenated parts of the payloads sent. */
  function Parts(ds: seq<seq<byte>>): seq<byte>
    decreases |ds|
  {
    if ds == [] then [] else Part(ds[0]) + Parts(ds[1..])
  }

  /** o is the front of the part for the payload d: the bytes a failed emission of d leaves. */
  predicate TornPart(o: seq<byte>, d: seq<byte>) {
    |o| <= |Part(d)| && o == Part(d)[..|o|]
  }

  /** What a stream leaves on the wire: the new bytes begin with whole parts for the payloads
      sent, the flush mark is at the end of the last of them, and anything after them is the
      front of one more part, left only when a write failed (the connection is then spent). */
  ghost predicate WellFramed(s: SinkState, s': SinkState, sent: seq<seq<byte>>) {
    var whole := s.out + Parts(sent);
    && |whole| <= |s'.out| && s'.out[..|whole|] == whole
    && s'.flushed == (if sent == [] then s.flushed else |whole|)
    && (|s'.out| > |whole| ==> s'.budget == 0 && exists d :: TornPart(s'.out[|whole|..], d))
  }

  /** A whole, flushed part in front of a well-framed rest is well framed, and what follows the
      whole parts is the same bytes as before. */
  lemma {:induction false} WellFramedStep(s: SinkState, s1: SinkState, data: seq<byte>, s2: SinkState,
                                          sent: seq<seq<byte>>)
    requires s1.out == s.out + Part(data) && s1.flushed == |s1.out|
    requires WellFramed(s1, s2, sent)
    ensures s.out + Parts([data] + sent) == s1.out + Parts(sent)
    ensures WellFramed(s, s2, [data] + sent)
  {
    assert Parts([data] + sent) == Part(data) + Parts(sent) by {
      assert ([data] + sent)[1..] == sent;
    }
    var whole := s.out + Parts([data] + sent);
    var w1 := s1.out + Parts(sent);
    Associative(s.out, Part(data), Parts(sent));
    if sent == [] {
      assert Parts(sent) == [];
    }
    if |s2.out| > |w1| {
      var d :| TornPart(s2.out[|w1|..], d);
      assert TornPart(s2.out[|whole|..], d);
    }
  }

  /** A failed emission of data leaves whole parts for nothing and then the front of the part
      for data. */
  lemma EmitFailFramed(s: SinkState, data: seq<byte>)
    requires SinkValid(s) && !Emit(s, data).1
    ensures WellFramed(s, Emit(s, data).0, [])
    ensures var o := Emit(s, data).0.out;
      |s.out| <= |o| && TornPart(o[|s.out|..], data)
  {
    EmitEffect(s, data);
    var o := Emit(s, data).0.out;
    assert s.out + Parts([]) == s.out;
    PrefixTail(s.out, Part(data), o);
    assert TornPart(o[|s.out|..], data);
  }

  /** Concatenation of byte strings is associative. */
  lemma Associative(a: seq<byte>, b: seq<byte>, c: seq<byte>)
    ensures a + (b + c) == (a + b) + c
  {
  }

  /** The bytes after x in a prefix o of x + y are a prefix of y. */
  lemma PrefixTail(x: seq<byte>, y: seq<byte>, o: seq<byte>)
    requires |x| <= |o| <= |x| + |y| && o == (x + y)[..|o|]
    ensures o[|x|..] == y[..|o| - |x|]
  {
  }

  /** Every cached-mode run is well framed, and a torn part at the end is the front of the part
      for a payload held in the ring. */
  lemma {:induction false} CachedRunFramed(r: Ring.RingState, s: SinkState, iterations: nat)
    requires Ring.Valid(r) && SinkValid(s)
    ensures var (_, s', sent) := CachedRun(r, s, iterations);
      && WellFramed(s, s', sent)
      && var whole := s.out + Parts(sent);
        |s'.out| > |whole| ==>
          exists i :: 0 <= i < |r.slots| && r.slots[i].Some? && TornPart(s'.out[|whole|..], r.slots[i].value.data)
    decreases iterations
  {
    if iterations > 0 {
      var (frame, r1) := Ring.Next(r);
      var (step, s1) := Serve(DataOf(frame), s);
      if step == Stop {
        var data := frame.value.data;
        assert Emit(s, data) == (s1, false);
        EmitFailFramed(s, data);
        var i := if r.readIndex == r.writeIndex then Ring.LatestIndex(r) else r.readIndex;
        assert r.slots[i] == frame;
        assert CachedRun(r, s, iterations) == (r1, s1, []);
        assert s.out + Parts([]) == s.out;
      } else {
        var (r2, s2, sent) := CachedRun(r1, s1, iterations - 1);
        CachedRunFramed(r1, s1, iterations - 1);
        if step == Sent {
          var data := frame.value.data;
          assert Emit(s, data) == (s1, true);
          EmitEffect(s, data);
          WellFramedStep(s, s1, data, s2, sent);
          assert CachedRun(r, s, iterations) == (r2, s2, [data] + sent);
        } else {
          assert CachedRun(r, s, iterations) == (r2, s2, sent);
        }
      }
    }
  }

  /** Every direct-mode run is well framed, the payloads sent are bodies that passed the gate,
      and a torn part at the end is the front of the part for such a body. */
  lemma {:induction false} DirectRunFramed(s: SinkState, answers: seq<FetchResult>)
    requires SinkValid(s)
    ensures var (s', sent) := DirectRun(s, answers);
      && WellFramed(s, s', sent)
      && (forall d :: d in sent ==> Jpeg.IsValidJPEG(d))
      && var whole := s.out + Parts(sent);
        |s'.out| > |whole| ==> exists d :: Jpeg.IsValidJPEG(d) && TornPart(s'.out[|whole|..], d)
    decreases |answers|
  {
    if answers != [] {
      var (step, s1) := Serve(Fetched(answers[0]), s);
      if step == Stop {
        EmitFailFramed(s, answers[0].body);
        assert Parts([]) == [];
      } else {
        DirectRunFramed(s1, answers[1..]);
        if step == Sent {
          EmitEffect(s, answers[0].body);
          WellFramedStep(s, s1, answers[0].body, DirectRun(s1, answers[1..]).0,
                         DirectRun(s1, answers[1..]).1);
        }
      }
    }
  }

  /** A camera whose cache was never written produces no output at all: every iteration finds
      no frame and retries, so nothing, in particular no stray boundary, reaches the client. */
  lemma {:induction false} NeverWrittenSendsNothing(size: nat, s: SinkState, iterations: nat)
    requires size > 0 && SinkValid(s)
    ensures CachedRun(Ring.Fresh(size), s, iterations).1 == s
    decreases iterations
  {
    if iterations > 0 {
      NeverWrittenSendsNothing(size, s, iterations - 1);
    }
  }

  /** The client connection. */
  class Sink {
    var out: seq<byte>
    var flushed: nat
    var budget: nat
    var torn: nat

    ghost function State(): (s: SinkState)
      reads this
    {
      SinkState(out, flushed, budget, torn)
    }

    /** ResponseWriter.Write: all of b when it succeeds; when it fails, only a prefix of b may
        have reached the client, as io.Writer permits. */
    method Write(b: seq<byte>) returns (ok: bool)
      requires SinkValid(State())
      modifies this
      ensures (State(), ok) == Put(old(State()), b)
    {
      if budget == 0 {
        out := out + b[..Min(torn, |b|)];
        return false;
      }
      out := out + b;
      budget := budget - 1;
      ok := true;
    }

    /** Flusher.Flush. */
    method Flush()
      requires SinkValid(State())
      modifies this
      ensures State() == old(State()).(flushed := |old(out)|)
    {
      flushed := |out|;
    }
  }

  /** Lines 239-260 (and 348-369): build the header, then write header, payload and separator,
      returning at the first failure, and flush. */
  method EmitFrame(sink: Sink, data: seq<byte>) returns (ok: bool)
    requires SinkValid(sink.State())
    modifies sink
    ensures (sink.State(), ok) == Emit(old(sink.State()), data)
  {
    var headerBuf := HeaderPrefix() + Decimal.Digits(|data|) + BlankLine;
    ok := sink.Write(headerBuf);
    if !ok {
      return;
    }
    ok := sink.Write(data);
    if !ok {
      return;
    }
    ok := sink.Write(CRLF);
    if !ok {
      return;
    }
    sink.Flush();
  }

  /** One iteration of streamCameraFromCache (lines 222-263): the disconnect check comes first,
      then the streaming read, then the frame is sent unless there is none. */
  method CachedIteration(fm: FrameCache.FrameManager, name: string, sink: Sink, cancelled: bool)
    returns (step: Step)
    requires fm.Valid() && SinkValid(sink.State())
    modifies sink, if name in fm.caches then {fm.caches[name]} else {}
    ensures fm.Valid() && fm.caches == old(fm.caches)
    ensures name in fm.caches ==> fm.caches[name].frames == old(fm.caches[name].frames)
    ensures forall c :: c in fm.caches && c != name ==>
      fm.caches[c].State() == old(fm.caches[c].State())
    ensures cancelled ==>
      && step == Stop && sink.State() == old(sink.State())
      && (name in fm.caches ==> fm.caches[name].State() == old(fm.caches[name].State()))
    ensures !cancelled && name !in fm.caches ==> step == Retry && sink.State() == old(sink.State())
    ensures !cancelled && name in fm.caches ==>
      var (frame, r') := Ring.Next(old(fm.caches[name].State()));
      && fm.caches[name].State() == r'
      && (step, sink.State()) == Serve(DataOf(frame), old(sink.State()))
  {
    if cancelled {
      return Stop;
    }
    var frame := fm.GetNextFrame(name);
    if frame.None? {
      return Retry;
    }
    var ok := EmitFrame(sink, frame.value.data);
    step := if ok then Sent else Stop;
  }

  /** One iteration of streamCameraDirect (lines 308-372) given the client's answer. */
  method DirectIteration(sink: Sink, cancelled: bool, answer: FetchResult) returns (step: Step)
    requires SinkValid(sink.State())
    modifies sink
    ensures cancelled ==> step == Stop && sink.State() == old(sink.State())
    ensures !cancelled ==> (step, sink.State()) == Serve(Fetched(answer), old(sink.State()))
  {
    if cancelled {
      return Stop;
    }
    var verdict := Gate(answer);
    if !verdict.Accepted? {
      return Retry;
    }
    var ok := EmitFrame(sink, verdict.data);
    step := if ok then Sent else Stop;
  }

  /** streamCameraFromCache with a context that is done from iteration `cancelAt` on and no
      fetch in between (the interleaving with the fetcher is Ring.Replay's subject). */
  method StreamFromCache(fm: FrameCache.FrameManager, name: string, sink: Sink, cancelAt: nat)
    requires fm.Valid() && SinkValid(sink.State()) && name in fm.caches
    modifies sink, fm.caches[name]
    ensures fm.Valid() && fm.caches == old(fm.caches)
    ensures var (r', s', _) := CachedRun(old(fm.caches[name].State()), old(sink.State()), cancelAt);
      fm.caches[name].State() == r' && sink.State() == s'
  {
    var i := 0;
    while true
      invariant 0 <= i <= cancelAt
      invariant fm.Valid() && fm.caches == old(fm.caches) && SinkValid(sink.State())
      invariant fm.caches[name].frames == old(fm.caches[name].frames)
      invariant CachedRun(fm.caches[name].State(), sink.State(), cancelAt - i).0 ==
        CachedRun(old(fm.caches[name].State()), old(sink.State()), cancelAt).0
      invariant CachedRun(fm.caches[name].State(), sink.State(), cancelAt - i).1 ==
        CachedRun(old(fm.caches[name].State()), old(sink.State()), cancelAt).1
      decreases cancelAt - i
    {
      var step := CachedIteration(fm, name, sink, i >= cancelAt);
      if step == Stop {
        return;
      }
      i := i + 1;
    }
  }

  /** streamCameraDirect with the client's answers for the iterations that start before the
      context is done. */
  method StreamDirect(sink: Sink, answers: seq<FetchResult>)
    requires SinkValid(sink.State())
    modifies sink
    ensures sink.State() == DirectRun(old(sink.State()), answers).0
  {
    var i := 0;
    while true
      invariant 0 <= i <= |answers| && SinkValid(sink.State())
      invariant DirectRun(sink.State(), answers[i..]).0 == DirectRun(old(sink.State()), answers).0
      decreases |answers| - i
    {
      var answer := if i < |answers| then answers[i] else Failed;
      var step := DirectIteration(sink, i >= |answers|, answer);
      if step == Stop {
        return;
      }
      assert answers[i..][1..] == answers[i + 1..];
      i := i + 1;
    }
  }
}
