/** Small shared vocabulary: an optional value and the byte type. */
module Basics {

  datatype Option<+T> = None | Some(value: T)

  /** A byte of a file or of a raw digest. */
  type byte = x: int | 0 <= x < 256

  /** An MD5 digest: always sixteen bytes. */
  type Digest = s: seq<byte> | |s| == 16
    witness [0, 0, 0, 0, 0, 0, 0, 0, 0, 0, 0, 0, 0, 0, 0, 0]
}
