/**
 * `BinFileReader` (src/bencoding.rs): a one-byte window over a byte
 * stream. The stream is an in-memory sequence here; reading from it
 * cannot fail, so the `expect("Error reading file")` branch is not
 * modelled.
 *
 * `Cursor` is the reader's observable state as a value, and the
 * functions over it are the specification the class's methods are
 * proved against; the decoder's specification in module DecodeSpec is
 * written over the same values.
 */
module Reader {
  import opened Numbers

  /** `no_of_bytes_read`, `reached_eof` and `buffer[0]` of a reader. */
  datatype Cursor = Cursor(pos: nat, eof: bool, cur: byte)

  /** The state `BinFileReader::new` creates: nothing read, buffer `[0]`. */
  const Fresh: Cursor := Cursor(0, false, 0)

  /**
   * A state a reader over `input` can be in: at most all bytes read,
   * the end flag raised only once every byte is read, and the buffer
   * holding the last byte read (a read that returns 0 bytes leaves the
   * buffer alone).
   */
  predicate ValidCursor(input: seq<byte>, c: Cursor) {
    && c.pos <= |input|
    && (c.eof ==> c.pos == |input|)
    && (if c.pos == 0 then c.cur == 0 else c.cur == input[c.pos - 1])
  }

  /** `read_byte`: one more byte if there is one, else the end flag. */
  function StepCursor(input: seq<byte>, c: Cursor): (r: Cursor)
    ensures r.pos == c.pos + (if c.pos < |input| then 1 else 0)
    ensures r.eof <==> r.pos == c.pos
    ensures ValidCursor(input, c) ==> ValidCursor(input, r)
  {
    if c.pos < |input| then Cursor(c.pos + 1, false, input[c.pos]) else Cursor(c.pos, true, c.cur)
  }

  /** `get_byte`. */
  function CurrentByte(c: Cursor): (b: Option<byte>)
    ensures b.None? <==> c.eof
  {
    if c.eof then None else Some(c.cur)
  }

  /** `get_current_index`: the offset of the last byte read. */
  function CurrentIndex(c: Cursor): nat
    requires c.pos >= 1
  {
    c.pos - 1
  }

  /** The cursor of a reader whose current byte is `input[k]`. */
  function On(input: seq<byte>, k: nat): (c: Cursor)
    requires k < |input|
    ensures ValidCursor(input, c) && !c.eof && c.cur == input[k]
  {
    Cursor(k + 1, false, input[k])
  }

  /**
   * The bytes from the current one to the end: every read that returns a
   * byte lowers it, and it is never negative for a valid cursor.
   */
  function Remaining(input: seq<byte>, c: Cursor): int {
    |input| - c.pos + (if c.eof then 0 else 1)
  }

  class BinFileReader {
    /** The bytes behind the `BufReader`. */
    const input: seq<byte>
    var buffer: byte
    var reachedEof: bool
    var noOfBytesRead: nat

    function State(): Cursor
      reads this
    {
      Cursor(noOfBytesRead, reachedEof, buffer)
    }

    ghost predicate Valid()
      reads this
    {
      ValidCursor(input, State())
    }

    /** `BinFileReader::new`: the stream is untouched until the first `read_byte`. */
    constructor (input: seq<byte>)
      ensures this.input == input
      ensures State() == Fresh && Valid()
    {
      this.input := input;
      buffer := 0;
      reachedEof := false;
      noOfBytesRead := 0;
    }

    /**
     * `read_byte`: reads at most one byte into the buffer, adds the number
     * of bytes read (0 or 1) to `noOfBytesRead`, raises the end flag exactly
     * when nothing was read, and returns that flag.
     */
    method ReadByte() returns (eof: bool)
      requires Valid()
      modifies this
      ensures Valid()
      ensures State() == StepCursor(input, old(State()))
      ensures noOfBytesRead == old(noOfBytesRead) + (if eof then 0 else 1)
      ensures eof == reachedEof && (eof <==> old(noOfBytesRead) == |input|)
    {
      // `Read::read` into the one-byte buffer: 1 while bytes remain, else 0
      var n: nat := 0;
      if noOfBytesRead < |input| {
        buffer := input[noOfBytesRead];
        n := 1;
      }
      noOfBytesRead := noOfBytesRead + n;
      reachedEof := n == 0;
      eof := reachedEof;
    }

    /** `get_byte`: the last byte read, or `None` once the end flag is up. */
    function GetByte(): (b: Option<byte>)
      reads this
      ensures b == CurrentByte(State())
      ensures b.None? <==> reachedEof
      ensures Valid() && b.Some? && noOfBytesRead >= 1 ==> b.value == input[noOfBytesRead - 1]
    {
      if reachedEof then None else Some(buffer)
    }

    /** `read_and_get_byte`. */
    method ReadAndGetByte() returns (b: Option<byte>)
      requires Valid()
      modifies this
      ensures Valid()
      ensures State() == StepCursor(input, old(State()))
      ensures b.Some? <==> old(noOfBytesRead) < |input|
      ensures b.Some? ==> b.value == input[old(noOfBytesRead)]
    {
      var _ := ReadByte();
      b := GetByte();
    }

    /**
     * `get_current_index`: `no_of_bytes_read - 1` (a `usize` subtraction, so
     * at least one byte must have been read). It names the last byte read,
     * also once the end flag is up.
     */
    function GetCurrentIndex(): (i: nat)
      reads this
      requires noOfBytesRead >= 1
      ensures i + 1 == noOfBytesRead
      ensures Valid() ==> i < |input| && input[i] == buffer
      ensures Valid() && reachedEof ==> i == |input| - 1
    {
      noOfBytesRead - 1
    }
  }
}
