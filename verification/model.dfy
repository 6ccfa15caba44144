/** The frame record of internal/model/frame.go (main.go declares the same record). */
module Model {
  import opened Bytes

  /** A fetched camera frame. The timestamp is the clock reading taken when the frame was
      stored; the clock itself is outside the model, so it is a plain counter. */
  datatype Frame = Frame(timestamp: nat, data: seq<byte>)
}
