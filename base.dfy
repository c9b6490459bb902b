/** Values shared by every part of the hex viewer model. */
module Base {

  /** One element of a Uint8Array. */
  type Byte = b: int | 0 <= b < 256

  /** An optional value: a missing option or argument is `None`. */
  datatype Option<+T> = None | Some(value: T) {
    /** The value, or `default` when there is none (JavaScript's `??`). */
    function GetOr(default: T): T {
      match this
      case Some(v) => v
      case None => default
    }
  }

  function Min(a: int, b: int): int { if a <= b then a else b }

  function Max(a: int, b: int): int { if a <= b then b else a }
}
