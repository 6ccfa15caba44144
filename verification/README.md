# snapshot2stream frame pipeline in Dafny

snapshot2stream polls IP cameras for JPEG snapshots and re-serves them to HTTP clients as
MJPEG streams (`multipart/x-mixed-replace` with the boundary `frame`). This project models the
sequential logic of that pipeline and proves what it promises:

- **JPEG sanity filter** (`Jpeg`): the accept/reject decision on a fetched body.
- **Fetch gate** (`Fetch`): transport error, status 200, non-empty body, JPEG sanity, in that
  order; only a body that passes every check is stored.
- **Per-camera ring buffer** (`Ring`, `FrameCache`): `CameraCache` is a class over an
  `array<Option<Frame>>` with a write and a read cursor, and `FrameManager` holds the map from
  camera name to cache. Each method is proved to move the cache between the values that the
  pure functions in `Ring` describe. The lemmas in `Ring` state wrap-around, latest-frame,
  catch-up, lap and time-order behaviour.
- **Multipart part and stream loops** (`Decimal`, `Multipart`, `Stream`): the bytes of one
  emitted part, the Content-Length rendering and its parse-back, and the cached and direct
  stream handlers. The handlers are modelled as loops over a client connection whose writes
  may fail.
- **Credentials** (`Client`): `parseCookie`, and the choice of which Authorization header and
  cookie go on each camera request.

main.go declares its own copies of the frame cache types, the fetch, the ring accessors and
the JPEG check (main.go:22-44, 122-199, 268-285). They are the same code as
internal/frame/frame.go and internal/utils/validation.go, so one member models both copies, and
its row in the table names the main.go lines as well.

The read cursor belongs to the cache, not to a client. Streams to several clients of one
camera do not each get their own cursor: the code keeps a single `readIndex` per camera, and
all of them share it. The model follows the code. `Ring.DeliveredInTimeOrder` is
therefore stated for all reads of one cache together. Because each client's frames are a
subsequence of those reads, it holds for every client as well.

Time, the network and the client connection are inputs:
- a frame's timestamp is a `nat` clock reading passed in;
- a camera request's outcome is a `Fetch.FetchResult` value;
- the connection is a `Stream.Sink` that accepts a given number of further writes;
- the request context is the number of loop iterations that begin before it is done.

## Model

| member | source | states |
|---|---|---|
| Jpeg.IsValidJPEG | internal/utils/validation.go:4-21 | accepts exactly when the buffer has at least 1000 bytes, starts with FF D8 and ends with FF D9; each early rejection (under 10 bytes, no SOI, no EOI) rejects; every index is in bounds; main.go:268-285 is the same function |
| Jpeg.InteriorIrrelevant | internal/utils/validation.go:9-15 | buffers of equal length that agree on the first two and last two bytes get the same verdict |
| Jpeg.SizeThreshold | internal/utils/validation.go:17-19 | a correctly marked buffer is rejected below 1000 bytes (e.g. 500) and accepted from 1000 on |
| Decimal.Digits | main.go:241 | `%d` of a length is at least one digit, no leading zero, and begins with '0' only for 0 |
| Decimal.ValueOfDigits | main.go:241 | reading the Content-Length digits back gives exactly the payload length |
| Decimal.DigitsOfValue | main.go:241 | every canonical digit string is the rendering of the number it denotes |
| Multipart.ParsePart | main.go:239-255 | any byte string the reader accepts is exactly the part emitted for the payload it returns |
| Multipart.PartLayout | main.go:239-255 | a part is the boundary, Content-Type and Content-Length prefix, then the length digits, CRLF CRLF, the payload and CRLF, at those offsets |
| Multipart.ParsePartOfPart | main.go:239-255 | the reader recovers the payload of every emitted part, so the declared Content-Length matches the payload |
| Ring.Succ | internal/frame/frame.go:100 | the advanced cursor is (i+1) mod size and stays inside the ring |
| Ring.Fresh | internal/frame/frame.go:25-30 | a new cache has `size` empty slots and both cursors at 0 |
| Ring.Write | internal/frame/frame.go:99-100 | the frame lands in the old write slot; the write cursor advances mod size; the read cursor and every other slot are unchanged |
| Ring.LatestIndex | internal/frame/frame.go:115 | the latest slot is the one whose successor is the write cursor |
| Ring.Latest | internal/frame/frame.go:115-116 | the latest frame is the slot before the write cursor, the last slot when the cursor is at 0 |
| Ring.Next | internal/frame/frame.go:129-138 | caught up: returns the latest slot and changes nothing; otherwise returns the slot under the read cursor and advances only that cursor |
| Ring.WriteAll | internal/frame/frame.go:99-100 | any sequence of writes keeps both cursors inside the ring and leaves the read cursor alone |
| Ring.ReadN | internal/frame/frame.go:129-138 | reads with no writes in between keep the cursors in range and change no slot and not the write cursor |
| Ring.WriteAllEffect | internal/frame/frame.go:99-100 | after any writes, the last min(size, count) frames sit in the slots just behind the write cursor, newest first |
| Ring.LatestIsLastWritten | internal/frame/frame.go:115-116 | after at least one write the latest frame is the one written last, whatever the wrap-around |
| Ring.FreshHasNoLatest | internal/frame/frame.go:115-116 | a cache never written has no latest frame |
| Ring.WritesToFresh | internal/frame/frame.go:99-100 | k <= size writes to a new cache fill slots 0..k-1 in order, leave the rest empty, and put the write cursor at k (0 when full) |
| Ring.LatestAfterFewWrites | internal/frame/frame.go:115-116 | after k writes to a new cache, 1 <= k <= size, the latest frame is the k-th |
| Ring.FirstFrameOverwritten | internal/frame/frame.go:99-100 | after size+1 writes to a new cache the first frame is held in no slot |
| Ring.CaughtUpRepeatsLatest | internal/frame/frame.go:130-133 | a caught-up reader keeps getting the latest frame and nothing moves |
| Ring.CursorsMeetSkipsUnread | internal/frame/frame.go:130-133 | whenever writes bring the write cursor onto the read cursor (any whole number of laps), the reader counts as caught up and its next read returns only the last frame written, skipping the unread ones |
| Ring.Unread | internal/frame/frame.go:130 | the unread count is below size and is 0 exactly when the cursors coincide |
| Ring.DrainCatchesUp | internal/frame/frame.go:129-138 | as many reads as there are unread slots return those slots in ring order and leave the reader caught up |
| Ring.LapSkipsUnread | internal/frame/frame.go:130-133 | after a full lap of writes a caught-up reader is still caught up and gets only the newest frame; the other size-1 are skipped |
| Ring.WriteKeepsOrder | internal/frame/frame.go:92-100 | storing a frame no older than the latest keeps the ring's unread frames in time order |
| Ring.NextKeepsOrder | internal/frame/frame.go:129-138 | a read of an ordered ring delivers a frame no older than the previous delivery and keeps the ring ordered |
| Ring.Replay | internal/frame/frame.go:92-138 | an interleaving of stores and reads delivers at most one frame per event, each either held in the ring beforehand or stored by one of the events |
| Ring.ReplayInOrder | internal/frame/frame.go:92-138 | under any interleaving of time-ordered stores and reads, the delivered frames are in time order |
| Ring.DeliveredInTimeOrder | internal/frame/frame.go:92-138 | from a new cache, the frames the reads deliver never go back in time, however stores and reads interleave |
| Fetch.Gate | internal/frame/frame.go:62-87 | a body is accepted iff there is no transport error, the status is 200, the body is non-empty and it passes the JPEG check; the accepted data is the body; each rejection reason (transport error, status, empty body, invalid JPEG) is given exactly when the earlier checks pass and its own check fails; the direct handler (main.go:316-345) applies the same checks |
| FrameCache.StoredFrames | internal/frame/frame.go:51-58 | the frames a run of ticks stores are at most one per tick and all pass the JPEG check |
| FrameCache.CameraCache.constructor | internal/frame/frame.go:25-30 | a new cache is well formed and equals the fresh ring of that size |
| FrameCache.FrameManager.constructor | internal/frame/frame.go:38-43 | the registry starts empty |
| FrameCache.FrameManager.AddCamera | main.go:75-81 | registering a camera adds a fresh cache under its name and keeps every other camera's cache |
| FrameCache.FrameManager.FetchFrame | internal/frame/frame.go:62-102 | the cache changes only when the gate accepts, and then by exactly one ring write of (now, body); other cameras are untouched; main.go:122-162 is the same code |
| FrameCache.FrameManager.StartFetcher | internal/frame/frame.go:46-59 | after the ticks before cancellation the ring is the old ring with the accepted frames written in tick order |
| FrameCache.FrameManager.GetLatestFrame | internal/frame/frame.go:105-117 | nothing for an unknown camera, otherwise the latest slot of its ring; no state changes |
| FrameCache.FrameManager.GetNextFrame | internal/frame/frame.go:120-139 | nothing for an unknown camera, otherwise one streaming read of its ring; other cameras are untouched; main.go:180-199 is the same code |
| Stream.Put | main.go:245-258 | a checked write succeeds exactly while the connection still takes writes and then appends the whole buffer; a failed write may leave a prefix of the buffer on the wire (as io.Writer allows) and spends the connection; the flush mark is untouched |
| Stream.Emit | main.go:238-260 | the three writes succeed exactly when the connection takes three more; what was already sent is never disturbed; on failure there is no flush and the connection is spent |
| Stream.EmitCases | main.go:245-260 | for each number of writes the connection accepts, the writes before the failing one are whole and the failing one leaves a prefix of its buffer; the flush happens only after all three |
| Stream.EmitEffect | main.go:245-260 | an emitted frame is either the whole part, flushed, or a prefix of it, unflushed, with the connection spent |
| Stream.EmitTorn | main.go:245-258 | a failed emission leaves a prefix of the part on the wire, never bytes out of order |
| Stream.Serve | main.go:231-236 | without a frame the iteration writes nothing and retries; with one it sends or stops |
| Stream.Fetched | main.go:316-345 | the direct handler has a payload exactly when the answer is a response with status 200 whose body passes the JPEG check; the payload is then that body, at least 1000 bytes long |
| Stream.CachedRun | main.go:221-264 | a cached-mode run only reads the ring (slots and write cursor unchanged), sends at most one frame per iteration, each a payload held in some slot, and never disturbs what was already sent |
| Stream.DirectRun | main.go:307-373 | a direct-mode run sends at most one frame per answer, each passing the JPEG check, and never disturbs what was already sent |
| Stream.CachedRunFramed | main.go:221-264 | every cached-mode run leaves whole parts of the frames sent, flushed; any bytes after them are the front of the part for one payload held in the ring, left only after a failed write, with the connection spent |
| Stream.NeverWrittenSendsNothing | main.go:231-236 | a camera whose cache was never written sends no bytes at all |
| Stream.DirectRunFramed | main.go:307-373 | every direct-mode run leaves whole, flushed parts of bodies that pass the JPEG check; any bytes after them are the front of the part for one more such body, left only after a failed write |
| Stream.Sink.Write | main.go:245 | the connection's write is the checked write `Put`: the whole buffer on success, possibly a prefix of it on failure |
| Stream.Sink.Flush | main.go:260 | a flush marks everything written so far as flushed |
| Stream.EmitFrame | main.go:238-260 | builds the header and performs the three checked writes and the flush exactly as `Emit` describes |
| Stream.CachedIteration | main.go:222-263 | after a disconnect nothing is written or read; otherwise one streaming read, then nothing written on an absent frame or the frame emitted |
| Stream.DirectIteration | main.go:308-372 | after a disconnect nothing is written; otherwise the answer is gated and an accepted body is emitted |
| Stream.StreamFromCache | main.go:202-265 | the handler's final ring and connection are those of the cached run up to cancellation |
| Stream.StreamDirect | main.go:288-374 | the handler's final connection is that of the direct run over the answers before cancellation |
| Client.TrimSpace | internal/client/client.go:72 | the result neither begins nor ends with white space |
| Client.TrimSpaceOfPadded | internal/client/client.go:72 | trimming removes exactly the white space around the text |
| Client.IndexOf | internal/client/client.go:71 | the split point is the first '=' |
| Client.ParseCookie | internal/client/client.go:66-75 | empty gives an empty name and value; no '=' gives the default name "SessaoId" and the string untrimmed; otherwise both parts are trimmed |
| Client.SplitsAtFirstEquals | internal/client/client.go:70-72 | the name is the trimmed text before the first '=' and the value the trimmed text after it, which may contain '=' |
| Client.ParseCookieInverse | internal/client/client.go:66-75 | a trimmed name without '=' and a trimmed value are read back exactly from "name=value" |
| Client.NewCredentials | internal/client/client.go:39-46 | the client keeps the token verbatim; an empty cookie setting gives no cookie; one without '=' is the value of the cookie "SessaoId"; one with '=' gives a trimmed name and value |
| Client.Attach | internal/client/client.go:52-61 | Authorization is attached iff the token is non-empty, with the token as its value; the cookie iff its value is non-empty |
| Client.CookieSentIff | internal/client/client.go:56-61 | a cookie goes out for "name=value" iff the trimmed value is non-empty, so "name=" sends none |
| Client.BareValueUsesDefaultName | internal/client/client.go:74 | a non-empty string without '=' is sent as the value of the cookie "SessaoId" |

## Left out

- Locks and goroutines: `sync.RWMutex`, the fetcher goroutine and concurrent handlers are not modelled. Each cache operation is one atomic step. Interleavings of stores and reads on one cache are covered by `Ring.Replay` and `Ring.DeliveredInTimeOrder`.
- Time: `time.Now`, `time.Sleep`, the ticker and the `1000/FPS` intervals are not modelled. Timestamps are `nat` clock readings given as inputs, and StartFetcher's ticks are the answers it is given.
- The HTTP server wiring in `main` is not modelled: handler registration, `ListenAndServe`, the response headers and the `http.Flusher` type assertion.
- The resty client's construction, headers, timeouts, retries and transport, and the network request itself, are not modelled. A request's outcome is an input.
- internal/config/config.go is not part of this model. `FrameManager` does not hold the client or the context, and `NewFrameManager`'s arguments are dropped.
- Logging and `Body.Close` are not modelled.
- Byte strings vs characters: Go strings are UTF-8 byte strings, while the `Client` model works on Dafny characters (code points). Invalid UTF-8 in a configured cookie is not modelled.
- FrameCache.CameraCache.constructor: requires a positive size. The source only ever uses 10, and a size of 0 would panic: with an index out of range on the first write, and with a division by zero on the first read.
- Stream.StreamFromCache: no fetch interleaves with the handler's own loop. The fetcher's interleaving is modelled by `Ring.Replay`, not inside this method.
- Stream.StreamFromCache: requires a registered camera, since handlers exist only for registered cameras. A single iteration on an unknown camera is modelled by `Stream.CachedIteration`.
- Stream.Put: a connection that has failed once fails for every later write. A handler returns at its first failed write, so this loses nothing it can observe. How much of a failing write reaches the wire is a fixed property of the connection (`torn`), not chosen per write.
