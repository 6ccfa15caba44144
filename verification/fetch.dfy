/** The decision FetchFrame (internal/frame/frame.go:62-102) and the direct stream handler
    (main.go:316-345) take on one answer of the HTTP client. The client call itself is outside
    the model; its answer is a value. */
module Fetch {
  import opened Bytes
  import opened Jpeg

  const StatusOK: int := 200

  /** What the client call yields: a transport error, or a status code and a body. */
  datatype FetchResult = Failed | Response(status: int, body: seq<byte>)

  /** Why an answer is dropped, in the order the checks are made, or the frame bytes to keep. */
  datatype Verdict = RequestError | BadStatus | EmptyBody | InvalidFrame | Accepted(data: seq<byte>)

  /** The checks in the source's order: transport error, status, empty body, JPEG sanity. */
  function Gate(res: FetchResult): (v: Verdict)
    ensures v.Accepted? <==>
      res.Response? && res.status == StatusOK && |res.body| > 0 && IsValidJPEG(res.body)
    ensures v.Accepted? ==> v.data == res.body && |v.data| >= MinFrameSize
    ensures v == RequestError <==> res.Failed?
    ensures v == BadStatus <==> res.Response? && res.status != StatusOK
    ensures v == EmptyBody <==> res.Response? && res.status == StatusOK && res.body == []
    ensures v == InvalidFrame <==>
      res.Response? && res.status == StatusOK && |res.body| > 0 && !IsValidJPEG(res.body)
  {
    match res
    case Failed => RequestError
    case Response(status, body) =>
      if status != StatusOK then BadStatus
      else if |body| == 0 then EmptyBody
      else if !IsValidJPEG(body) then InvalidFrame
      else Accepted(body)
  }
}
