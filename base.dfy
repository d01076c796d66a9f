/** Small shared vocabulary: optional values and bytes. */
module Base {

  /** The conventional optional value. */
  datatype Option<T> = None | Some(value: T)

  /** An octet on the wire. */
  type byte = x: int | 0 <= x < 0x100

  /** The elements of an optional value, as a sequence of length zero or one. */
  function AsSeq<T>(o: Option<T>): seq<T> {
    match o
    case None => []
    case Some(v) => [v]
  }
}
