/** api/protocol/protocol.go's message, and the operation code of a ready-made body. */
module Protos {
  import opened Basics

  /** A nil and an empty body are not told apart: both are written as no bytes. */
  datatype Proto = Proto(ver: int32, op: int32, sequence: int32, body: seq<byte>)

  const OP_RAW := 9

  const EMPTY := Proto(0, 0, 0, [])

  /** What travels through a connection's signal queue: the two markers, or a pushed message. */
  datatype Signal = Ready | Finish | Message(p: Proto)
}
