/** Value types shared by every part of the codec. */
module Types {

  /** A byte value as the codec's `char` carries it, read as 0..255. */
  type Byte = x: int | 0 <= x < 256

  /** One symbol of a bit string: 0 stands for the character '0', 1 for '1'. */
  type Bit = x: int | 0 <= x < 2

  /** A code table: the bit string assigned to each byte value. */
  type CodeTable = map<Byte, seq<Bit>>

  /** The ways compression or decompression can go wrong. The codec itself
      checks none of them. `Truncated`, `EmptyTable` and `NullChild` stand for
      places where it goes on with stale or unspecified values or crashes, and
      the model stops there instead; `Malformed` exists only because the
      model's fields are typed. */
  datatype Error =
    | Truncated   // a field the reader asks for lies past the end of the container
    | Malformed   // a field of the other kind (never written by the compressor)
    | EmptyTable  // an empty table: the tree builder would take the top of an empty queue
    | NullChild   // the walk steps below a root that is itself a leaf

  datatype Option<+T> = None | Some(value: T)

  datatype Result<+T> = Ok(value: T) | Err(error: Error) {
    predicate IsFailure() { Err? }

    function PropagateFailure<U>(): Result<U>
      requires Err?
    {
      Err(error)
    }

    function Extract(): T
      requires Ok?
    {
      value
    }
  }
}
