/** The per-camera ring buffer and the camera registry of internal/frame/frame.go (main.go
    declares the same two types and the same three operations at lines 22-44 and 122-199). The
    locks are left out: every operation below is one atomic step. */
module FrameCache {
  import opened Wrappers
  import opened Model
  import opened Fetch
  import Ring

  /** One camera's ring: `size` slots, each empty (nil) or holding a frame, and the write and
      read cursors. */
  class CameraCache {
    var frames: array<Option<Frame>>
    var writeIndex: nat
    var readIndex: nat
    var size: nat

    ghost predicate Valid()
      reads this
    {
      frames.Length == size && size > 0 && writeIndex < size && readIndex < size
    }

    /** The ring as a value. */
    ghost function State(): (r: Ring.RingState)
      requires Valid()
      reads this, frames
      ensures Ring.Valid(r) && |r.slots| == size
    {
      Ring.RingState(frames[..], writeIndex, readIndex)
    }

    /** NewCameraCache: `size` empty slots, both cursors at 0. Every later `%` divides by
        `size`, so a ring without slots is not admitted. */
    constructor (size: nat)
      requires size > 0
      ensures Valid() && fresh(frames)
      ensures State() == Ring.Fresh(size)
    {
      frames := new Option<Frame>[size](_ => None);
      this.size := size;
      writeIndex, readIndex := 0, 0;
    }
  }

  /** The frames a run of fetcher ticks stores: one per answer that passes the gate, holding
      that answer's body and the clock reading of its tick. */
  function StoredFrames(answers: seq<FetchResult>, clock: seq<nat>): (fs: seq<Frame>)
    requires |clock| == |answers|
    ensures |fs| <= |answers|
    ensures forall f :: f in fs ==> Jpeg.IsValidJPEG(f.data)
    decreases |answers|
  {
    if answers == [] then []
    else
      var k := |answers| - 1;
      var v := Gate(answers[k]);
      StoredFrames(answers[..k], clock[..k]) + (if v.Accepted? then [Frame(clock[k], v.data)] else [])
  }

  /** One more tick stores one more frame exactly when its answer passes the gate. */
  lemma StoredFramesSnoc(answers: seq<FetchResult>, clock: seq<nat>, i: nat)
    requires |clock| == |answers| && i < |answers|
    ensures StoredFrames(answers[..i + 1], clock[..i + 1]) ==
      StoredFrames(answers[..i], clock[..i]) +
      (if Gate(answers[i]).Accepted? then [Frame(clock[i], answers[i].body)] else [])
  {
    assert answers[..i + 1][..i] == answers[..i] && clock[..i + 1][..i] == clock[..i];
  }

  /** The registry from camera name to that camera's cache. */
  class FrameManager {
    var caches: map<string, CameraCache>

    /** Every cache is well formed, and no two cameras share a cache or a slot array, so each
        operation on one camera leaves every other camera as it was. */
    ghost predicate Valid()
      reads this, caches.Values
    {
      && (forall c :: c in caches ==> caches[c].Valid())
      && (forall a, b :: a in caches && b in caches && a != b ==>
            caches[a] != caches[b] && caches[a].frames != caches[b].frames)
    }

    constructor ()
      ensures Valid() && caches == map[]
    {
      caches := map[];
    }

    /** Register a camera with a new cache (done once per camera at start-up, main.go:76). */
    method AddCamera(name: string, size: nat)
      requires Valid() && size > 0 && name !in caches
      modifies this
      ensures Valid() && caches.Keys == old(caches.Keys) + {name}
      ensures forall c :: c in old(caches) ==> caches[c] == old(caches[c])
      ensures fresh(caches[name]) && caches[name].State() == Ring.Fresh(size)
    {
      var cache := new CameraCache(size);
      caches := caches[name := cache];
    }

    /** FetchFrame with the client's answer `res` and the clock reading `now` as inputs. The
        cache is written only when the answer passes the gate, and then with a frame holding
        the body bytes (a copy: sequences are values). The registry lookup is unchecked in the
        source and is reached only after the gate, so only then must the camera be known. */
    method FetchFrame(name: string, res: FetchResult, now: nat)
      requires Valid()
      requires Gate(res).Accepted? ==> name in caches
      modifies if name in caches then {caches[name], caches[name].frames} else {}
      ensures Valid() && caches == old(caches)
      ensures name in caches ==> caches[name].frames == old(caches[name].frames)
      ensures Gate(res).Accepted? ==>
        caches[name].State() == Ring.Write(old(caches[name].State()), Frame(now, res.body))
      ensures !Gate(res).Accepted? && name in caches ==>
        caches[name].State() == old(caches[name].State())
      ensures forall c :: c in caches && c != name ==> caches[c].State() == old(caches[c].State())
    {
      var verdict := Gate(res);
      if !verdict.Accepted? {
        return;
      }
      var cache := caches[name];
      var newFrame := Frame(now, verdict.data);
      cache.frames[cache.writeIndex] := Some(newFrame);
      cache.writeIndex := (cache.writeIndex + 1) % cache.size;
    }

    /** StartFetcher: one FetchFrame per tick until the context is cancelled. The ticks that
        happen before cancellation are given as the client's answers and the clock readings. */
    method StartFetcher(name: string, answers: seq<FetchResult>, clock: seq<nat>)
      requires Valid() && name in caches && |clock| == |answers|
      modifies caches[name], caches[name].frames
      ensures Valid() && caches == old(caches)
      ensures caches[name].State() ==
        Ring.WriteAll(old(caches[name].State()), StoredFrames(answers, clock))
      ensures forall c :: c in caches && c != name ==> caches[c].State() == old(caches[c].State())
    {
      var i := 0;
      while i < |answers|
        invariant 0 <= i <= |answers|
        invariant Valid() && caches == old(caches)
        invariant caches[name].frames == old(caches[name].frames)
        invariant caches[name].State() ==
          Ring.WriteAll(old(caches[name].State()), StoredFrames(answers[..i], clock[..i]))
        invariant forall c :: c in caches && c != name ==> caches[c].State() == old(caches[c].State())
      {
        ghost var before := StoredFrames(answers[..i], clock[..i]);
        FetchFrame(name, answers[i], clock[i]);
        StoredFramesSnoc(answers, clock, i);
        if Gate(answers[i]).Accepted? {
          Ring.WriteAllSnoc(old(caches[name].State()), before, Frame(clock[i], answers[i].body));
        } else {
          assert StoredFrames(answers[..i + 1], clock[..i + 1]) == before + [];
          assert before + [] == before;
        }
        i := i + 1;
      }
      assert answers[..i] == answers && clock[..i] == clock;
    }

    /** GetLatestFrame: nothing for an unknown camera, otherwise the slot behind the write
        cursor; nothing changes. */
    method GetLatestFrame(name: string) returns (frame: Option<Frame>)
      requires Valid()
      ensures name !in caches ==> frame == None
      ensures name in caches ==> frame == Ring.Latest(caches[name].State())
    {
      if name !in caches {
        return None;
      }
      var cache := caches[name];
      var latestIndex := (cache.writeIndex - 1 + cache.size) % cache.size;
      frame := cache.frames[latestIndex];
    }

    /** GetNextFrame: nothing for an unknown camera, otherwise one streaming read of that
        camera's ring, which moves only its read cursor. */
    method GetNextFrame(name: string) returns (frame: Option<Frame>)
      requires Valid()
      modifies if name in caches then {caches[name]} else {}
      ensures Valid() && caches == old(caches)
      ensures name in caches ==> caches[name].frames == old(caches[name].frames)
      ensures name !in caches ==> frame == None
      ensures name in caches ==>
        (frame, caches[name].State()) == Ring.Next(old(caches[name].State()))
      ensures forall c :: c in caches && c != name ==> caches[c].State() == old(caches[c].State())
    {
      if name !in caches {
        return None;
      }
      var cache := caches[name];
      if cache.readIndex == cache.writeIndex {
        var latestIndex := (cache.writeIndex - 1 + cache.size) % cache.size;
        return cache.frames[latestIndex];
      }
      frame := cache.frames[cache.readIndex];
      cache.readIndex := (cache.readIndex + 1) % cache.size;
    }
  }
}
