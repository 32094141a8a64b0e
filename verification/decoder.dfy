/**
 * The decoder of src/bencoding.rs: methods that advance one shared
 * `BinFileReader` and grow a string, a list or a map in their loops. Each
 * is proved to produce the outcome and the reader state that its
 * counterpart in module DecodeSpec describes, in the same `mode`: as
 * written, or with `decode_int` corrected to step past its closing 'e'.
 */
module Decoder {
  import opened Numbers
  import opened OrderedMap
  import opened BencodeElement
  import opened Reader
  import opened DecodeSpec

  /** `decode_element`. */
  method DecodeElement(mode: Mode, reader: BinFileReader) returns (r: Outcome<Element>)
    requires reader.Valid()
    modifies reader
    ensures reader.Valid()
    ensures Step(r, reader.State()) == ElementSpec(mode, reader.input, old(reader.State()))
    decreases Remaining(reader.input, reader.State()), 2
  {
    var b := reader.GetByte();
    if b.None? {
      return Panic(UnexpectedEof);
    }
    if IsDigit(b.value) {
      r := DecodeStr(reader);
    } else if b.value == DictTag {
      r := DecodeDict(mode, reader);
    } else if b.value == ListTag {
      r := DecodeList(mode, reader);
    } else if b.value == IntTag {
      r := DecodeInt(mode, reader);
    } else {
      r := Err(InvalidTag);
    }
  }

  /** `decode_dict`. */
  method DecodeDict(mode: Mode, reader: BinFileReader) returns (r: Outcome<Element>)
    requires reader.Valid() && reader.noOfBytesRead >= 1
    modifies reader
    ensures reader.Valid()
    ensures Step(r, reader.State()) == DictEntries(mode, reader.input, StepCursor(reader.input, old(reader.State())), old(reader.noOfBytesRead) - 1, [])
    decreases Remaining(reader.input, reader.State()), 1
  {
    var dict: seq<Entry<Element>> := [];
    var startIndex := reader.GetCurrentIndex();
    var _ := reader.ReadByte();
    ghost var spec := DictEntries(mode, reader.input, reader.State(), startIndex, []);
    assert spec == DictEntries(mode, reader.input, StepCursor(reader.input, old(reader.State())), old(reader.noOfBytesRead) - 1, []);
    while true
      invariant reader.Valid() && reader.noOfBytesRead >= 1
      invariant !reader.reachedEof ==> Remaining(reader.input, reader.State()) < Remaining(reader.input, old(reader.State()))
      invariant spec == DictEntries(mode, reader.input, reader.State(), startIndex, dict)
      decreases Remaining(reader.input, reader.State())
    {
      ghost var before := reader.State();
      var b := reader.GetByte();
      if b.None? {
        assert spec == Step(Panic(UnexpectedEof), before);
        return Panic(UnexpectedEof);
      }
      if b.value == EndTag {
        break;
      }
      var entry := DecodeEntry(mode, reader, startIndex, dict);
      if !entry.Ok? {
        return entry.Propagate();
      }
      dict := entry.value;
    }
    var endIndex := reader.GetCurrentIndex();
    ghost var closing := reader.State();
    var _ := reader.ReadByte();
    r := Ok(Dict(dict, startIndex, endIndex));
    DictEntriesClose(mode, reader.input, closing, startIndex, dict);
  }

  /**
   * One pass of the loop of `decode_dict`: a key read by `decode_str`, a
   * value, and `insert` into the map; a failure of either is passed up.
   */
  method DecodeEntry(mode: Mode, reader: BinFileReader, ghost startIndex: nat, dict: seq<Entry<Element>>)
    returns (r: Outcome<seq<Entry<Element>>>)
    requires reader.Valid() && reader.noOfBytesRead >= 1
    requires !reader.reachedEof && reader.buffer != EndTag
    modifies reader
    ensures reader.Valid() && reader.noOfBytesRead >= 1
    ensures !r.Ok? ==> DictEntries(mode, reader.input, old(reader.State()), startIndex, dict) == Step(r.Propagate(), reader.State())
    ensures r.Ok? ==>
      && Remaining(reader.input, reader.State()) < Remaining(reader.input, old(reader.State()))
      && DictEntries(mode, reader.input, old(reader.State()), startIndex, dict)
         == DictEntries(mode, reader.input, reader.State(), startIndex, r.value)
    decreases Remaining(reader.input, reader.State()), 0
  {
    DictEntriesStep(mode, reader.input, reader.State(), startIndex, dict);
    var key := DecodeStr(reader);
    if !key.Ok? {
      return key.Propagate();
    }
    var value := DecodeElement(mode, reader);
    if !value.Ok? {
      return value.Propagate();
    }
    r := Ok(Insert(dict, key.value.bytes, value.value));
  }

  /** One pass of the loop of `decode_dict`: a key, a value, and the insert, or the failure of either. */
  lemma DictEntriesStep(mode: Mode, input: seq<byte>, c: Cursor, startIndex: nat, entries: seq<Entry<Element>>)
    requires ValidCursor(input, c) && c.pos >= 1
    requires !c.eof && c.cur != EndTag
    ensures var key := StrSpec(input, c);
      && (!key.result.Ok? ==> DictEntries(mode, input, c, startIndex, entries) == key)
      && (key.result.Ok? ==>
            var value := ElementSpec(mode, input, key.after);
            && (!value.result.Ok? ==> DictEntries(mode, input, c, startIndex, entries) == value)
            && (value.result.Ok? ==>
                  DictEntries(mode, input, c, startIndex, entries)
                  == DictEntries(mode, input, value.after, startIndex, Insert(entries, key.result.value.bytes, value.result.value))))
  {
  }

  /** The closing 'e' of `decode_dict`. */
  lemma DictEntriesClose(mode: Mode, input: seq<byte>, c: Cursor, startIndex: nat, entries: seq<Entry<Element>>)
    requires ValidCursor(input, c) && c.pos >= 1
    requires !c.eof && c.cur == EndTag
    ensures DictEntries(mode, input, c, startIndex, entries)
         == Step(Ok(Dict(entries, startIndex, c.pos - 1)), StepCursor(input, c))
  {
  }

  /** `decode_list`. */
  method DecodeList(mode: Mode, reader: BinFileReader) returns (r: Outcome<Element>)
    requires reader.Valid() && reader.noOfBytesRead >= 1
    modifies reader
    ensures reader.Valid()
    ensures Step(r, reader.State()) == ListItems(mode, reader.input, StepCursor(reader.input, old(reader.State())), old(reader.noOfBytesRead) - 1, [])
    decreases Remaining(reader.input, reader.State()), 1
  {
    var list: seq<Element> := [];
    var startIndex := reader.GetCurrentIndex();
    var _ := reader.ReadByte();
    ghost var spec := ListItems(mode, reader.input, reader.State(), startIndex, []);
    assert spec == ListItems(mode, reader.input, StepCursor(reader.input, old(reader.State())), old(reader.noOfBytesRead) - 1, []);
    while true
      invariant reader.Valid()
      invariant !reader.reachedEof ==> Remaining(reader.input, reader.State()) < Remaining(reader.input, old(reader.State()))
      invariant spec == ListItems(mode, reader.input, reader.State(), startIndex, list)
      decreases Remaining(reader.input, reader.State())
    {
      var b := reader.GetByte();
      if b.None? {
        return Panic(UnexpectedEof);
      }
      if b.value == EndTag {
        break;
      }
      var item := DecodeElement(mode, reader);
      if !item.Ok? {
        return item;
      }
      list := list + [item.value];
    }
    var endIndex := reader.GetCurrentIndex();
    var _ := reader.ReadByte();
    r := Ok(List(list, startIndex, endIndex));
  }

  /** `decode_str`. */
  method DecodeStr(reader: BinFileReader) returns (r: Outcome<Element>)
    requires reader.Valid() && reader.noOfBytesRead >= 1
    modifies reader
    ensures reader.Valid()
    ensures Step(r, reader.State()) == StrSpec(reader.input, old(reader.State()))
  {
    var lengthStr: seq<byte> := [];
    var startIndex := reader.GetCurrentIndex();
    ghost var entry := reader.State();
    while true
      invariant reader.Valid() && reader.noOfBytesRead >= 1
      invariant LengthText(reader.input, entry, startIndex, []) == LengthText(reader.input, reader.State(), startIndex, lengthStr)
      decreases Remaining(reader.input, reader.State())
    {
      var b := reader.GetByte();
      if b.None? {
        return Panic(UnexpectedEof);
      }
      if b.value == Colon {
        break;
      }
      lengthStr := lengthStr + [b.value];
      var _ := reader.ReadByte();
    }
    ghost var colon := reader.State();
    assert StrSpec(reader.input, old(reader.State())) == LengthText(reader.input, colon, startIndex, lengthStr);
    var length := ParseI32(lengthStr);
    if length.None? {
      return Panic(InvalidLength);
    }
    var str := ReadPayload(reader, length.value);
    if !str.Ok? {
      return str.Propagate();
    }
    var endIndex := reader.GetCurrentIndex();
    var _ := reader.ReadByte();
    r := Ok(Str(str.value, startIndex, endIndex));
  }

  /** The second loop of `decode_str`: `for _ in 0..length`, one `read_and_get_byte().unwrap()` each. */
  method ReadPayload(reader: BinFileReader, length: int) returns (r: Outcome<seq<byte>>)
    requires reader.Valid()
    modifies reader
    ensures reader.Valid()
    ensures Step(r, reader.State()) == Payload(reader.input, old(reader.State()), if length < 0 then 0 else length, [])
  {
    var str: seq<byte> := [];
    var n: nat := if length < 0 then 0 else length;
    var i := 0;
    while i < length
      invariant reader.Valid()
      invariant 0 <= i <= n
      invariant Payload(reader.input, old(reader.State()), n, []) == Payload(reader.input, reader.State(), n - i, str)
    {
      var b := reader.ReadAndGetByte();
      if b.None? {
        return Panic(UnexpectedEof);
      }
      str := str + [b.value];
      i := i + 1;
    }
    r := Ok(str);
  }

  /**
   * `decode_int`: as written, the reader is left on the closing 'e';
   * corrected, one more `read_byte` steps past it.
   */
  method DecodeInt(mode: Mode, reader: BinFileReader) returns (r: Outcome<Element>)
    requires reader.Valid() && reader.noOfBytesRead >= 1
    modifies reader
    ensures reader.Valid()
    ensures Step(r, reader.State()) == IntSpec(mode, reader.input, old(reader.State()))
  {
    var startIndex := reader.GetCurrentIndex();
    var intAsStr: seq<byte> := [];
    ghost var spec := IntSpec(mode, reader.input, reader.State());
    while true
      invariant reader.Valid() && reader.noOfBytesRead >= 1
      invariant spec == IntBody(mode, reader.input, reader.State(), startIndex, intAsStr)
      decreases Remaining(reader.input, reader.State())
    {
      var b := reader.ReadAndGetByte();
      if b == Some(EndTag) {
        break;
      }
      // `get_byte().unwrap()`
      if b.None? {
        return Panic(UnexpectedEof);
      }
      intAsStr := intAsStr + [b.value];
    }
    var value := ParseI64(intAsStr);
    if value.None? {
      return Err(InvalidInteger);
    }
    r := Ok(Int(value.value, startIndex, reader.GetCurrentIndex()));
    if mode == Corrected {
      var _ := reader.ReadByte();
    }
  }

  /**
   * `decode_from_file` / `decode_from_url` once the bytes are in memory:
   * a fresh reader, the first `read_byte`, then `decode_element`.
   */
  method DecodeBytes(mode: Mode, input: seq<byte>) returns (r: Outcome<Element>)
    ensures r == Decode(mode, input).result
  {
    var reader := new BinFileReader(input);
    var _ := reader.ReadByte();
    r := DecodeElement(mode, reader);
  }
}
