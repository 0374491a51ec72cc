/** A deflate stream as what matters of it: the same history on both sides. */
module Zlib {
  import opened Bits

  /** The blocks a stream has carried since it started, oldest first. */
  type History = seq<seq<byte>>

  /** What a deflater makes of a block after a history, at a level, and what an
      inflater with a history makes of that. Every block ends with a sync flush. */
  datatype Codec = Codec(deflate: (nat, History, seq<byte>) -> seq<byte>, inflate: (History, seq<byte>) -> Read)

  /** A block inflated, or bytes no deflater with this history wrote. */
  datatype Read = Inflated(bytes: seq<byte>) | Garbled

  /** An inflater that has seen the same blocks gives back each block deflated. */
  ghost predicate Lossless(z: Codec) {
    forall level: nat, h: History, b: seq<byte> :: z.inflate(h, z.deflate(level, h, b)) == Inflated(b)
  }

  /** A deflated block is not much larger than the block. */
  ghost predicate Modest(z: Codec) {
    forall level: nat, h: History, b: seq<byte> :: |z.deflate(level, h, b)| <= 2 * |b| + 64
  }
}
