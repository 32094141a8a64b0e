/**
 * The recursive-descent decoder of src/bencoding.rs as functions over
 * reader states. Each function follows one `decode_*` function (or one
 * of its loops) branch for branch and returns the outcome together with
 * the reader state it leaves behind; the imperative decoder in module
 * Decoder is proved to compute exactly these values.
 *
 * `Mode` selects between the code as written and the corrected code
 * (see the README's findings). Here the correction is that `decode_int`
 * steps past its closing 'e' like the other productions do; in the info
 * hash (module TorrentFile) it is that the hashed slice keeps the info
 * dictionary's closing 'e'.
 */
module DecodeSpec {
  import opened Numbers
  import opened OrderedMap
  import opened BencodeElement
  import opened Reader

  datatype Mode = AsWritten | Corrected

  /** The result of one production and the reader state after it. */
  datatype Step<+T> = Step(result: Outcome<T>, after: Cursor)

  // Tag bytes
  const DictTag: byte := 100  // 'd'
  const IntTag: byte := 105   // 'i'
  const ListTag: byte := 108  // 'l'
  const EndTag: byte := 101   // 'e'

  /** `decode_element`: dispatch on the current byte. */
  function ElementSpec(mode: Mode, input: seq<byte>, c: Cursor): (s: Step<Element>)
    requires ValidCursor(input, c)
    ensures ValidCursor(input, s.after) && s.after.pos >= c.pos
    ensures s.result.Ok? ==> Remaining(input, s.after) < Remaining(input, c)
    decreases Remaining(input, c), 2
  {
    match CurrentByte(c)
    case None => Step(Panic(UnexpectedEof), c)
    case Some(b) =>
      if IsDigit(b) then StrSpec(input, c)
      else if b == DictTag then DictEntries(mode, input, StepCursor(input, c), CurrentIndex(c), [])
      else if b == ListTag then ListItems(mode, input, StepCursor(input, c), CurrentIndex(c), [])
      else if b == IntTag then IntSpec(mode, input, c)
      else Step(Err(InvalidTag), c)
  }

  /** `decode_str`, called with the reader on the first byte of the length. */
  function StrSpec(input: seq<byte>, c: Cursor): (s: Step<Element>)
    requires ValidCursor(input, c) && c.pos >= 1
    ensures ValidCursor(input, s.after) && s.after.pos >= c.pos
    ensures s.result.Ok? ==> s.result.value.Str? && Remaining(input, s.after) < Remaining(input, c)
  {
    LengthText(input, c, CurrentIndex(c), [])
  }

  /**
   * The first loop of `decode_str` and what follows it: collect bytes
   * until the current one is ':', parse them as an `i32`, then read the
   * payload and step past its last byte.
   */
  function LengthText(input: seq<byte>, c: Cursor, startIndex: nat, text: seq<byte>): (s: Step<Element>)
    requires ValidCursor(input, c) && c.pos >= 1
    ensures ValidCursor(input, s.after) && s.after.pos >= c.pos
    ensures s.result.Ok? ==> s.result.value.Str? && Remaining(input, s.after) < Remaining(input, c)
    decreases Remaining(input, c)
  {
    match CurrentByte(c)
    case None => Step(Panic(UnexpectedEof), c)
    case Some(b) =>
      if b != Colon then LengthText(input, StepCursor(input, c), startIndex, text + [b])
      else
        match ParseI32(text)
        case None => Step(Panic(InvalidLength), c)
        case Some(length) =>
          var payload := Payload(input, c, if length < 0 then 0 else length, []);
          if !payload.result.Ok? then Step(payload.result.Propagate(), payload.after)
          else Step(Ok(Str(payload.result.value, startIndex, CurrentIndex(payload.after))), StepCursor(input, payload.after))
  }

  /** The second loop of `decode_str`: `n` more calls of `read_and_get_byte().unwrap()`. */
  function Payload(input: seq<byte>, c: Cursor, n: nat, bytes: seq<byte>): (s: Step<seq<byte>>)
    requires ValidCursor(input, c)
    ensures ValidCursor(input, s.after)
    ensures s.result.Ok? ==> s.after.pos == c.pos + n && (n > 0 ==> !s.after.eof) && (n == 0 ==> s.after == c)
    ensures !s.result.Ok? ==> s.after.pos >= c.pos
    decreases n
  {
    if n == 0 then Step(Ok(bytes), c)
    else
      var c' := StepCursor(input, c);
      match CurrentByte(c')
      case None => Step(Panic(UnexpectedEof), c')
      case Some(b) => Payload(input, c', n - 1, bytes + [b])
  }

  /** `decode_int`, called with the reader on the 'i'. */
  function IntSpec(mode: Mode, input: seq<byte>, c: Cursor): (s: Step<Element>)
    requires ValidCursor(input, c) && c.pos >= 1
    ensures ValidCursor(input, s.after) && s.after.pos >= c.pos
    ensures s.result.Ok? ==> s.result.value.Int? && Remaining(input, s.after) < Remaining(input, c)
  {
    IntBody(mode, input, c, CurrentIndex(c), [])
  }

  /**
   * The loop of `decode_int` and what follows it: `read_and_get_byte`
   * until it yields 'e', then parse the bytes before it as an `i64`. As
   * written the reader stays on that 'e'; corrected, it steps past it.
   */
  function IntBody(mode: Mode, input: seq<byte>, c: Cursor, startIndex: nat, text: seq<byte>): (s: Step<Element>)
    requires ValidCursor(input, c)
    ensures ValidCursor(input, s.after) && s.after.pos >= c.pos
    ensures s.result.Ok? ==> s.result.value.Int? && Remaining(input, s.after) < Remaining(input, c)
    decreases Remaining(input, c)
  {
    var c' := StepCursor(input, c);
    match CurrentByte(c')
    case None => Step(Panic(UnexpectedEof), c')
    case Some(b) =>
      if b != EndTag then IntBody(mode, input, c', startIndex, text + [b])
      else
        match ParseI64(text)
        case None => Step(Err(InvalidInteger), c')
        case Some(v) => Step(Ok(Int(v, startIndex, CurrentIndex(c'))), if mode == Corrected then StepCursor(input, c') else c')
  }

  /**
   * `decode_list` from the byte after the 'l': its loop, elements until
   * the current byte is 'e', and what follows it.
   */
  function ListItems(mode: Mode, input: seq<byte>, c: Cursor, startIndex: nat, items: seq<Element>): (s: Step<Element>)
    requires ValidCursor(input, c)
    ensures ValidCursor(input, s.after) && s.after.pos >= c.pos
    ensures s.result.Ok? ==> s.result.value.List? && Remaining(input, s.after) < Remaining(input, c)
    decreases Remaining(input, c), if c.eof then 0 else 3
  {
    match CurrentByte(c)
    case None => Step(Panic(UnexpectedEof), c)
    case Some(b) =>
      if b == EndTag then Step(Ok(List(items, startIndex, CurrentIndex(c))), StepCursor(input, c))
      else
        var item := ElementSpec(mode, input, c);
        if !item.result.Ok? then item
        else ListItems(mode, input, item.after, startIndex, items + [item.result.value])
  }

  /**
   * `decode_dict` from the byte after the 'd': its loop, a key read by
   * `decode_str` (whatever its first byte), a value, and `insert` into the
   * map, until the current byte is 'e'.
   */
  function DictEntries(mode: Mode, input: seq<byte>, c: Cursor, startIndex: nat, entries: seq<Entry<Element>>): (s: Step<Element>)
    requires ValidCursor(input, c) && c.pos >= 1
    ensures ValidCursor(input, s.after) && s.after.pos >= c.pos
    ensures s.result.Ok? ==> s.result.value.Dict? && Remaining(input, s.after) < Remaining(input, c)
    decreases Remaining(input, c), if c.eof then 0 else 3
  {
    match CurrentByte(c)
    case None => Step(Panic(UnexpectedEof), c)
    case Some(b) =>
      if b == EndTag then Step(Ok(Dict(entries, startIndex, CurrentIndex(c))), StepCursor(input, c))
      else
        var key := StrSpec(input, c);
        if !key.result.Ok? then key
        else
          var value := ElementSpec(mode, input, key.after);
          if !value.result.Ok? then value
          else DictEntries(mode, input, value.after, startIndex, Insert(entries, key.result.value.bytes, value.result.value))
  }

  /** `decode_from_file` after the bytes are in memory: one `read_byte`, then `decode_element`. */
  function Decode(mode: Mode, input: seq<byte>): Step<Element> {
    ElementSpec(mode, input, StepCursor(input, Fresh))
  }
}
