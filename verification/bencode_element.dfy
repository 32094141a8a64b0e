/**
 * The decoded tree (`BencodeElement` in src/bencoding.rs) and the three
 * ways a decoding step can end.
 */
module BencodeElement {
  import opened Numbers
  import opened OrderedMap

  /**
   * One decoded node. `startIndex` is the offset of the node's first
   * byte and `endIndex` the offset of its LAST byte (inclusive), both
   * counted from the start of the input. A string's payload is kept as
   * bytes: the source pushes every byte as one `char`, so its `String`
   * holds exactly one char per input byte.
   */
  datatype Element =
    | Int(value: int, startIndex: nat, endIndex: nat)
    | Str(bytes: seq<byte>, startIndex: nat, endIndex: nat)
    | List(items: seq<Element>, startIndex: nat, endIndex: nat)
    | Dict(entries: seq<Entry<Element>>, startIndex: nat, endIndex: nat)

  /** The errors the decoder returns through `Result::Err`. */
  datatype DecodeError =
    | InvalidTag      // `fmt::Error` from the dispatch on an unknown leading byte
    | InvalidInteger  // `ParseIntError` from `parse::<i64>()?` on an integer body

  /** The ways the decoder panics instead of returning. */
  datatype PanicReason =
    | UnexpectedEof   // `get_byte().unwrap()` or `read_and_get_byte().unwrap()` on `None`
    | InvalidLength   // `parse::<i32>().unwrap()` on the text before a string's ':'

  /** How a decoding step ends: a value, an `Err` passed up by `?`, or a panic. */
  datatype Outcome<+T> = Ok(value: T) | Err(error: DecodeError) | Panic(reason: PanicReason) {
    /** The same failure, for a caller whose success type differs. */
    function Propagate<U>(): (r: Outcome<U>)
      requires !Ok?
      ensures Err? ==> r == Err(error)
      ensures Panic? ==> r == Panic(reason)
    {
      match this
      case Err(e) => Err(e)
      case Panic(p) => Panic(p)
    }
  }
}
