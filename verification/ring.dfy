/** The camera ring buffer of internal/frame/frame.go as a value: a fixed number of optional
    frames and the two cursors. The class in framecache.dfy changes its array and fields in
    place and is proved to move between exactly these values. */
module Ring {
  import opened Wrappers
  import opened Model

  datatype RingState = RingState(slots: seq<Option<Frame>>, writeIndex: nat, readIndex: nat)

  /** At least one slot, and both cursors inside the ring. */
  predicate Valid(r: RingState) {
    |r.slots| > 0 && r.writeIndex < |r.slots| && r.readIndex < |r.slots|
  }

  /** The successor of a cursor position: one step on, back to 0 after the last slot. */
  function Succ(i: nat, n: nat): (j: nat)
    requires i < n
    ensures j < n
    ensures j == (i + 1) % n
  {
    if i + 1 == n then
      assert (i + 1) / n == 1;
      0
    else
      assert (i + 1) / n == 0;
      i + 1
  }

  /** A cache that has never been written: every slot empty, both cursors at 0. */
  function Fresh(size: nat): (r: RingState)
    requires size > 0
    ensures Valid(r) && |r.slots| == size
    ensures forall i :: 0 <= i < size ==> r.slots[i] == None
    ensures r.writeIndex == 0 && r.readIndex == 0
  {
    RingState(seq(size, _ => None), 0, 0)
  }

  /** Store a frame at the write cursor and advance the write cursor modulo the size; the read
      cursor is not consulted, so an unread frame in that slot is overwritten. */
  function Write(r: RingState, f: Frame): (r': RingState)
    requires Valid(r)
    ensures Valid(r') && |r'.slots| == |r.slots|
    ensures r'.slots[r.writeIndex] == Some(f)
    ensures forall i :: 0 <= i < |r.slots| && i != r.writeIndex ==> r'.slots[i] == r.slots[i]
    ensures r'.writeIndex == Succ(r.writeIndex, |r.slots|)
    ensures r'.readIndex == r.readIndex
  {
    RingState(r.slots[r.writeIndex := Some(f)], (r.writeIndex + 1) % |r.slots|, r.readIndex)
  }

  /** The slot the last write went to: the one just behind the write cursor. */
  function LatestIndex(r: RingState): (i: nat)
    requires Valid(r)
    ensures i < |r.slots|
    ensures Succ(i, |r.slots|) == r.writeIndex
  {
    (r.writeIndex - 1 + |r.slots|) % |r.slots|
  }

  /** The slot of the latest write: the one before the write cursor, wrapping to the last
      slot when the cursor is at 0. */
  function Latest(r: RingState): (o: Option<Frame>)
    requires Valid(r)
    ensures o == r.slots[if r.writeIndex == 0 then |r.slots| - 1 else r.writeIndex - 1]
  {
    r.slots[LatestIndex(r)]
  }

  /** A streaming read: when the reader has caught up with the writer it gets the latest slot
      again and stays put; otherwise it gets the slot under its cursor and moves on. */
  function Next(r: RingState): (res: (Option<Frame>, RingState))
    requires Valid(r)
    ensures Valid(res.1)
    ensures res.1.slots == r.slots && res.1.writeIndex == r.writeIndex
    ensures r.readIndex == r.writeIndex ==> res.0 == Latest(r) && res.1 == r
    ensures r.readIndex != r.writeIndex ==>
      res.0 == r.slots[r.readIndex] && res.1.readIndex == Succ(r.readIndex, |r.slots|)
  {
    if r.readIndex == r.writeIndex then (Latest(r), r)
    else (r.slots[r.readIndex], r.(readIndex := (r.readIndex + 1) % |r.slots|))
  }

  /** The state after the frames fs have been written in order. */
  function WriteAll(r: RingState, fs: seq<Frame>): (r': RingState)
    requires Valid(r)
    ensures Valid(r') && |r'.slots| == |r.slots| && r'.readIndex == r.readIndex
    decreases |fs|
  {
    if fs == [] then r else Write(WriteAll(r, fs[..|fs| - 1]), fs[|fs| - 1])
  }

  /** Writing one more frame after a sequence is one more ring write. */
  lemma WriteAllSnoc(r: RingState, fs: seq<Frame>, f: Frame)
    requires Valid(r)
    ensures WriteAll(r, fs + [f]) == Write(WriteAll(r, fs), f)
  {
    assert (fs + [f])[..|fs|] == fs;
  }

  /** The frames and the state after k streaming reads with no write in between. */
  function ReadN(r: RingState, k: nat): (res: (seq<Option<Frame>>, RingState))
    requires Valid(r)
    ensures Valid(res.1) && |res.0| == k
    ensures res.1.slots == r.slots && res.1.writeIndex == r.writeIndex
    decreases k
  {
    if k == 0 then ([], r)
    else
      var (f, r1) := Next(r);
      var (fs, r2) := ReadN(r1, k - 1);
      ([f] + fs, r2)
  }

  /** The cursor position k steps after i. */
  function Adv(i: nat, k: nat, n: nat): (j: nat)
    requires i < n
    ensures j < n
    decreases k
  {
    if k == 0 then i else Succ(Adv(i, k - 1, n), n)
  }

  /** The slot k writes behind the write cursor w, for k < n. */
  function Back(w: nat, k: nat, n: nat): (i: nat)
    requires w < n && k < n
    ensures i < n
  {
    if w >= k + 1 then w - k - 1 else w + n - k - 1
  }

  /** Up to one lap, stepping the cursor is adding with one wrap. */
  lemma {:induction false} AdvWrapsOnce(i: nat, k: nat, n: nat)
    requires i < n && k <= n
    ensures Adv(i, k, n) == if i + k < n then i + k else i + k - n
    decreases k
  {
    if k > 0 {
      AdvWrapsOnce(i, k - 1, n);
    }
  }

  /** What a sequence of writes leaves behind: the write cursor has stepped once per frame, and
      each of the last n frames written (all of them, if fewer) sits in its slot behind the
      write cursor, the newest just behind it. */
  lemma {:induction false} WriteAllEffect(r: RingState, fs: seq<Frame>)
    requires Valid(r)
    ensures var n, r' := |r.slots|, WriteAll(r, fs);
      && r'.writeIndex == Adv(r.writeIndex, |fs|, n)
      && forall k :: 0 <= k < |fs| && k < n ==>
           r'.slots[Back(r'.writeIndex, k, n)] == Some(fs[|fs| - 1 - k])
    decreases |fs|
  {
    if fs != [] {
      var n, m := |r.slots|, |fs| - 1;
      var ps := fs[..m];
      var prev := WriteAll(r, ps);
      WriteAllEffect(r, ps);
      var r' := WriteAll(r, fs);
      assert r' == Write(prev, fs[m]);
      forall k | 0 <= k < |fs| && k < n
        ensures r'.slots[Back(r'.writeIndex, k, n)] == Some(fs[|fs| - 1 - k])
      {
        if k > 0 {
          assert Back(r'.writeIndex, k, n) == Back(prev.writeIndex, k - 1, n);
          assert ps[m - 1 - (k - 1)] == fs[|fs| - 1 - k];
        }
      }
    }
  }

  /** The latest frame is always the one written last, however often the ring has wrapped. */
  lemma LatestIsLastWritten(r: RingState, fs: seq<Frame>)
    requires Valid(r) && |fs| >= 1
    ensures Latest(WriteAll(r, fs)) == Some(fs[|fs| - 1])
  {
    WriteAllEffect(r, fs);
    var r' := WriteAll(r, fs);
    assert LatestIndex(r') == Back(r'.writeIndex, 0, |r.slots|);
  }

  /** On a cache that was never written there is no latest frame. */
  lemma FreshHasNoLatest(size: nat)
    requires size > 0
    ensures Latest(Fresh(size)) == None
  {
  }

  /** After k <= size writes to a fresh cache the slots hold the k frames in order from slot 0
      and nothing else, and the write cursor is k, or 0 once the ring is full. */
  lemma {:induction false} WritesToFresh(size: nat, fs: seq<Frame>)
    requires size > 0 && |fs| <= size
    ensures var r := WriteAll(Fresh(size), fs);
      && r.writeIndex == (if |fs| == size then 0 else |fs|)
      && (forall i :: 0 <= i < |fs| ==> r.slots[i] == Some(fs[i]))
      && (forall i :: |fs| <= i < size ==> r.slots[i] == None)
    decreases |fs|
  {
    if fs != [] {
      var m := |fs| - 1;
      WritesToFresh(size, fs[..m]);
      assert WriteAll(Fresh(size), fs) == Write(WriteAll(Fresh(size), fs[..m]), fs[m]);
      forall i | 0 <= i < m ensures fs[..m][i] == fs[i] {}
    }
  }

  /** After k writes to a fresh cache, 1 <= k <= size, the latest frame is the k-th. */
  lemma LatestAfterFewWrites(size: nat, fs: seq<Frame>)
    requires size > 0 && 1 <= |fs| <= size
    ensures Latest(WriteAll(Fresh(size), fs)) == Some(fs[|fs| - 1])
  {
    WritesToFresh(size, fs);
  }

  /** Wrap-around: after size + 1 writes to a fresh cache the first frame is held in no slot
      (the other frames are told apart from the first one, for instance by their timestamps). */
  lemma FirstFrameOverwritten(size: nat, fs: seq<Frame>)
    requires size > 0 && |fs| == size + 1
    requires forall j :: 1 <= j < |fs| ==> fs[j] != fs[0]
    ensures Some(fs[0]) !in WriteAll(Fresh(size), fs).slots
  {
    var full := WriteAll(Fresh(size), fs[..size]);
    WritesToFresh(size, fs[..size]);
    var r := WriteAll(Fresh(size), fs);
    assert r == Write(full, fs[size]);
    forall i | 0 <= i < size ensures r.slots[i] != Some(fs[0]) {
      if i > 0 {
        assert full.slots[i] == Some(fs[..size][i]);
      }
    }
  }

  /** Reads without writes stay caught up: each returns the latest frame and nothing moves. */
  lemma {:induction false} CaughtUpRepeatsLatest(r: RingState, k: nat)
    requires Valid(r) && r.readIndex == r.writeIndex
    ensures ReadN(r, k).1 == r
    ensures forall p :: 0 <= p < k ==> ReadN(r, k).0[p] == Latest(r)
    decreases k
  {
    if k > 0 {
      CaughtUpRepeatsLatest(r, k - 1);
      assert Next(r) == (Latest(r), r);
      var fs := ReadN(r, k).0;
      assert fs == [Latest(r)] + ReadN(r, k - 1).0;
      forall p | 0 <= p < k ensures fs[p] == Latest(r) {
        if p > 0 {
          assert fs[p] == ReadN(r, k - 1).0[p - 1];
        }
      }
    }
  }

  /** The number of slots the reader has yet to read before it catches up with the writer. */
  function Unread(r: RingState): (d: nat)
    requires Valid(r)
    ensures d < |r.slots|
    ensures d == 0 <==> r.readIndex == r.writeIndex
  {
    if r.writeIndex >= r.readIndex then r.writeIndex - r.readIndex
    else r.writeIndex + |r.slots| - r.readIndex
  }

  /** Position p steps after i, for p below n, wrapped once. */
  function Ahead(i: nat, p: nat, n: nat): (j: nat)
    requires i < n && p < n
    ensures j < n
  {
    if i + p < n then i + p else i + p - n
  }

  /** Draining: Unread(r) reads with no write in between return the unread slots in ring order
      from the read cursor and leave the reader caught up with the writer. */
  lemma {:induction false} DrainCatchesUp(r: RingState)
    requires Valid(r)
    ensures var (fs, r') := ReadN(r, Unread(r));
      && r'.readIndex == r'.writeIndex
      && forall p :: 0 <= p < |fs| ==> fs[p] == r.slots[Ahead(r.readIndex, p, |r.slots|)]
    decreases Unread(r)
  {
    var n := |r.slots|;
    if r.readIndex != r.writeIndex {
      var (f, r1) := Next(r);
      assert Unread(r1) == Unread(r) - 1;
      DrainCatchesUp(r1);
      var (fs, r') := ReadN(r, Unread(r));
      var (gs, r2) := ReadN(r1, Unread(r1));
      assert fs == [f] + gs && r' == r2;
      forall p | 0 <= p < |fs| ensures fs[p] == r.slots[Ahead(r.readIndex, p, n)] {
        if p > 0 {
          assert fs[p] == gs[p - 1];
        }
      }
    }
  }

  /** A lap: n writes bring the write cursor back to where it was, so a reader that had caught
      up still counts as caught up and its next read yields only the newest of those n frames;
      the other n - 1 are never delivered to it. */
  lemma LapSkipsUnread(r: RingState, fs: seq<Frame>)
    requires Valid(r) && r.readIndex == r.writeIndex && |fs| == |r.slots|
    ensures var r' := WriteAll(r, fs);
      && r'.readIndex == r'.writeIndex
      && Next(r') == (Some(fs[|fs| - 1]), r')
  {
    WriteAllEffect(r, fs);
    AdvWrapsOnce(r.writeIndex, |fs|, |r.slots|);
    LatestIsLastWritten(r, fs);
  }

  /** Any lap: whatever the reader's position and however many writes, when they bring the
      write cursor onto the read cursor (the writer has lapped the reader by a multiple of
      the size, counting from where the reader stood), the reader counts as caught up. Its
      next read yields only the newest frame, and every frame it had not yet read is skipped;
      CaughtUpRepeatsLatest shows it then keeps getting that frame. */
  lemma CursorsMeetSkipsUnread(r: RingState, fs: seq<Frame>)
    requires Valid(r) && |fs| >= 1 && WriteAll(r, fs).writeIndex == r.readIndex
    ensures var r' := WriteAll(r, fs);
      && r'.readIndex == r'.writeIndex
      && Next(r') == (Some(fs[|fs| - 1]), r')
  {
    LatestIsLastWritten(r, fs);
  }

  /** The timestamp of a slot's content, -1 for an empty slot. */
  function Stamp(o: Option<Frame>): int {
    if o.Some? then o.value.timestamp else -1
  }

  /** The ordering invariant of a ring whose frames were written in timestamp order, seen from
      a reader whose last delivered frame had timestamp `last` (-1 before the first): the
      latest frame is the newest in the ring and no older than `last`, and the unread slots,
      from the read cursor up to the write cursor, hold frames no older than `last`, oldest
      first. */
  predicate InOrder(r: RingState, last: int)
    requires Valid(r)
  {
    var n, u := |r.slots|, Unread(r);
    && (forall i :: 0 <= i < n ==> Stamp(r.slots[i]) <= Stamp(Latest(r)))
    && last <= Stamp(Latest(r))
    && (forall p :: 0 <= p < u ==>
          r.slots[Ahead(r.readIndex, p, n)].Some? && last <= Stamp(r.slots[Ahead(r.readIndex, p, n)]))
    && (forall p, q :: 0 <= p < q < u ==>
          Stamp(r.slots[Ahead(r.readIndex, p, n)]) <= Stamp(r.slots[Ahead(r.readIndex, q, n)]))
  }

  lemma FreshInOrder(size: nat)
    requires size > 0
    ensures InOrder(Fresh(size), -1)
  {
  }

  /** Storing a frame no older than the latest keeps the ring in order: the new frame joins the
      unread run as its newest member, or, when the write cursor lands on the read cursor (a
      lap), the run empties. */
  lemma WriteKeepsOrder(r: RingState, last: int, f: Frame)
    requires Valid(r) && InOrder(r, last)
    requires Stamp(Latest(r)) <= f.timestamp
    ensures InOrder(Write(r, f), last)
  {
    var n, r' := |r.slots|, Write(r, f);
    assert LatestIndex(r') == r.writeIndex;
    var u, u' := Unread(r), Unread(r');
    if u' != 0 {
      assert u' == u + 1;
      forall p | 0 <= p < u' ensures Ahead(r.readIndex, p, n) == (if p < u then Ahead(r.readIndex, p, n) else r.writeIndex) {}
      forall p | 0 <= p < u ensures Ahead(r.readIndex, p, n) != r.writeIndex {}
    }
  }

  /** A read keeps the ring in order and delivers a frame no older than the previous one; the
      delivered frame's timestamp becomes the reader's new `last`. */
  lemma NextKeepsOrder(r: RingState, last: int)
    requires Valid(r) && InOrder(r, last)
    ensures var (o, r') := Next(r);
      && (o.Some? ==> last <= o.value.timestamp)
      && InOrder(r', if o.Some? then o.value.timestamp else last)
  {
    var n := |r.slots|;
    var (o, r') := Next(r);
    if r.readIndex != r.writeIndex {
      var u := Unread(r);
      assert Unread(r') == u - 1;
      assert Ahead(r.readIndex, u - 1, n) == LatestIndex(r);
      forall p | 0 <= p < u - 1 ensures Ahead(r'.readIndex, p, n) == Ahead(r.readIndex, p + 1, n) {}
      assert o == r.slots[Ahead(r.readIndex, 0, n)];
    }
  }

  /** One step of the pipeline as seen by a camera cache: the fetcher stores a frame, or a
      stream handler reads the next one. */
  datatype Event = Store(frame: Frame) | Read

  /** The stores come in timestamp order, none older than `clock`. */
  predicate StoresInTimeOrder(evs: seq<Event>, clock: int)
    decreases |evs|
  {
    evs == [] ||
    (if evs[0].Store? then clock <= evs[0].frame.timestamp && StoresInTimeOrder(evs[1..], evs[0].frame.timestamp)
     else StoresInTimeOrder(evs[1..], clock))
  }

  /** The frames the reads deliver when the events happen in order (absent frames are not
      delivered), and the final state. */
  function Replay(r: RingState, evs: seq<Event>): (res: (seq<Frame>, RingState))
    requires Valid(r)
    ensures Valid(res.1) && |res.1.slots| == |r.slots|
    ensures |res.0| <= |evs|
    ensures forall f :: f in res.0 ==> Some(f) in r.slots || Store(f) in evs
    decreases |evs|
  {
    if evs == [] then ([], r)
    else if evs[0].Store? then
      var r1 := Write(r, evs[0].frame);
      var res := Replay(r1, evs[1..]);
      assert forall f :: Some(f) in r1.slots ==> Some(f) in r.slots || f == evs[0].frame by {
        forall f | Some(f) in r1.slots
          ensures Some(f) in r.slots || f == evs[0].frame
        {
          var i :| 0 <= i < |r1.slots| && r1.slots[i] == Some(f);
          if i != r.writeIndex {
            assert r.slots[i] == Some(f);
          }
        }
      }
      assert evs == [evs[0]] + evs[1..];
      res
    else
      var (o, r1) := Next(r);
      var (fs, r2) := Replay(r1, evs[1..]);
      assert evs == [evs[0]] + evs[1..];
      (if o.Some? then [o.value] + fs else fs, r2)
  }

  /** Frames delivered in order, none older than `last`. */
  predicate SortedFrom(fs: seq<Frame>, last: int) {
    (forall p :: 0 <= p < |fs| ==> last <= fs[p].timestamp) &&
    (forall p, q :: 0 <= p < q < |fs| ==> fs[p].timestamp <= fs[q].timestamp)
  }

  lemma {:induction false} ReplayInOrder(r: RingState, evs: seq<Event>, last: int, clock: int)
    requires Valid(r) && InOrder(r, last)
    requires Stamp(Latest(r)) <= clock && StoresInTimeOrder(evs, clock)
    ensures SortedFrom(Replay(r, evs).0, last)
    decreases |evs|
  {
    if evs != [] {
      if evs[0].Store? {
        var f := evs[0].frame;
        WriteKeepsOrder(r, last, f);
        assert LatestIndex(Write(r, f)) == r.writeIndex;
        ReplayInOrder(Write(r, f), evs[1..], last, f.timestamp);
      } else {
        var (o, r1) := Next(r);
        NextKeepsOrder(r, last);
        var last1 := if o.Some? then o.value.timestamp else last;
        ReplayInOrder(r1, evs[1..], last1, clock);
        var fs := Replay(r1, evs[1..]).0;
        var all := Replay(r, evs).0;
        assert all == (if o.Some? then [o.value] + fs else fs);
        if o.Some? {
          forall p | 0 <= p < |all| ensures last <= all[p].timestamp {
            if p > 0 { assert all[p] == fs[p - 1]; }
          }
          forall p, q | 0 <= p < q < |all| ensures all[p].timestamp <= all[q].timestamp {
            assert all[q] == fs[q - 1];
            if p > 0 { assert all[p] == fs[p - 1]; }
          }
        }
      }
    }
  }

  /** Frame order as a stream sees it: when the fetcher stores frames in timestamp order, the
      frames the reads of one cache deliver, however the stores and reads interleave, never go
      back in time. Lapped frames are skipped, never delivered late. */
  lemma DeliveredInTimeOrder(size: nat, evs: seq<Event>)
    requires size > 0 && StoresInTimeOrder(evs, 0)
    ensures SortedFrom(Replay(Fresh(size), evs).0, 0)
  {
    FreshInOrder(size);
    ReplayInOrder(Fresh(size), evs, -1, 0);
    var fs := Replay(Fresh(size), evs).0;
    assert forall p :: 0 <= p < |fs| ==> 0 <= fs[p].timestamp;
  }
}
