/**
  Shared vocabulary of the generic list: the payload every node stores and
  the optional value that stands for a pointer that may be NULL.
 */
module Buffers {

  /** The bytes of one payload, as the caller passes them (pointer plus size). */
  type Buffer = seq<bv8>

  /** A caller-supplied pointer that may be NULL (None). */
  datatype Option<+T> = None | Some(value: T)

  /** A three-way comparator over payloads: negative, zero or positive. */
  type Comparator = (Buffer, Buffer) -> int
}
