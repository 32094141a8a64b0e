/**
 * The other direction of the decoder's properties: from bytes laid out as
 * a string or an integer to the outcome the decoder computes for them.
 */
module DecodeRuns {
  import opened Numbers
  import opened OrderedMap
  import opened BencodeElement
  import opened Reader
  import opened DecodeSpec
  import opened DecodeProperties

  /**
   * The first loop of `decode_str` collects every byte from the current one
   * up to the first ':' and stops on it.
   */
  lemma {:induction false} LengthTextAt(input: seq<byte>, c: Cursor, start: nat, text: seq<byte>, colon: nat)
    requires ValidCursor(input, c) && c.pos >= 1 && !c.eof
    requires c.pos - 1 <= colon < |input| && input[colon] == Colon
    requires Colon !in input[c.pos - 1..colon]
    ensures LengthText(input, c, start, text) == LengthText(input, On(input, colon), start, text + input[c.pos - 1..colon])
    decreases colon - c.pos
  {
    if c.pos - 1 == colon {
      assert c == On(input, colon);
      assert input[c.pos - 1..colon] == [];
      assert text + [] == text;
    } else {
      var c' := StepCursor(input, c);
      assert c.cur == input[c.pos - 1] && c'.pos == c.pos + 1;
      LengthTextAt(input, c', start, text + [c.cur], colon);
      assert (text + [c.cur]) + input[c.pos..colon] == text + input[c.pos - 1..colon];
    }
  }

  /**
   * The loop of `decode_int` collects every byte after the current one up
   * to the first 'e' and then parses them.
   */
  lemma {:induction false} IntBodyAt(mode: Mode, input: seq<byte>, c: Cursor, start: nat, text: seq<byte>, close: nat)
    requires ValidCursor(input, c) && !c.eof
    requires c.pos <= close < |input| && input[close] == EndTag
    requires EndTag !in input[c.pos..close]
    ensures var s := IntBody(mode, input, c, start, text);
      match ParseI64(text + input[c.pos..close])
      case None => s == Step(Err(InvalidInteger), On(input, close))
      case Some(v) => s == Step(Ok(Int(v, start, close)), if mode == Corrected then StepCursor(input, On(input, close)) else On(input, close))
    decreases close - c.pos
  {
    var c' := StepCursor(input, c);
    assert c' == On(input, c.pos);
    if c.pos == close {
      assert text + input[c.pos..close] == text;
    } else {
      assert input[c.pos] == input[c.pos..close][0] && input[c'.pos..close] == input[c.pos..close][1..];
      IntBodyAt(mode, input, c', start, text + [input[c.pos]], close);
      assert (text + [input[c.pos]]) + input[c'.pos..close] == text + input[c.pos..close];
    }
  }

  /** A string whose length text ends at `colon` and whose payload fits decodes to that payload. */
  lemma StrSpecAt(input: seq<byte>, k: nat, colon: nat, n: int)
    requires k <= colon < |input| && input[colon] == Colon
    requires Colon !in input[k..colon]
    requires ParseI32(input[k..colon]) == Some(n)
    requires colon + (if n < 0 then 0 else n) < |input|
    ensures var count := if n < 0 then 0 else n;
      StrSpec(input, On(input, k))
      == Step(Ok(Str(input[colon + 1..colon + 1 + count], k, colon + count)), StepCursor(input, On(input, colon + count)))
  {
    var count: nat := if n < 0 then 0 else n;
    LengthTextAt(input, On(input, k), k, [], colon);
    assert [] + input[k..colon] == input[k..colon];
    PayloadRun(input, On(input, colon), count);
  }

  /** An integer whose body ends at the first 'e' after the 'i' and parses decodes to that value. */
  lemma IntSpecAt(mode: Mode, input: seq<byte>, k: nat, close: nat, v: int)
    requires k < close < |input| && input[close] == EndTag
    requires EndTag !in input[k + 1..close]
    requires ParseI64(input[k + 1..close]) == Some(v)
    ensures IntSpec(mode, input, On(input, k))
         == Step(Ok(Int(v, k, close)), if mode == Corrected then StepCursor(input, On(input, close)) else On(input, close))
  {
    IntBodyAt(mode, input, On(input, k), k, [], close);
    assert [] + input[k + 1..close] == input[k + 1..close];
  }

  /** `decode_element` hands a digit to `decode_str`. */
  lemma ElementOnDigit(mode: Mode, input: seq<byte>, k: nat)
    requires k < |input| && IsDigit(input[k])
    ensures ElementSpec(mode, input, On(input, k)) == StrSpec(input, On(input, k))
  {
  }

  /** `decode_element` hands an 'i' to `decode_int`. */
  lemma ElementOnInt(mode: Mode, input: seq<byte>, k: nat)
    requires k < |input| && input[k] == IntTag
    ensures ElementSpec(mode, input, On(input, k)) == IntSpec(mode, input, On(input, k))
  {
  }

  /** `decode_element` hands an 'l' to `decode_list`, which steps past it. */
  lemma ElementOnList(mode: Mode, input: seq<byte>, k: nat)
    requires k < |input| && input[k] == ListTag
    ensures ElementSpec(mode, input, On(input, k)) == ListItems(mode, input, StepCursor(input, On(input, k)), k, [])
  {
  }

  /** `decode_element` hands a 'd' to `decode_dict`, which steps past it. */
  lemma ElementOnDict(mode: Mode, input: seq<byte>, k: nat)
    requires k < |input| && input[k] == DictTag
    ensures ElementSpec(mode, input, On(input, k)) == DictEntries(mode, input, StepCursor(input, On(input, k)), k, [])
  {
  }

  /** One pass of the loop of `decode_list` that decodes an item. */
  lemma ListItemsNext(mode: Mode, input: seq<byte>, k: nat, start: nat, items: seq<Element>)
    requires k < |input| && input[k] != EndTag
    requires ElementSpec(mode, input, On(input, k)).result.Ok?
    ensures var item := ElementSpec(mode, input, On(input, k));
      ListItems(mode, input, On(input, k), start, items) == ListItems(mode, input, item.after, start, items + [item.result.value])
  {
  }

  /** The closing 'e' of `decode_list`. */
  lemma ListItemsEnd(mode: Mode, input: seq<byte>, k: nat, start: nat, items: seq<Element>)
    requires k < |input| && input[k] == EndTag
    ensures ListItems(mode, input, On(input, k), start, items) == Step(Ok(List(items, start, k)), StepCursor(input, On(input, k)))
  {
  }

  /** One pass of the loop of `decode_dict` that decodes a key and a value. */
  lemma DictEntriesNext(mode: Mode, input: seq<byte>, k: nat, start: nat, entries: seq<Entry<Element>>)
    requires k < |input| && input[k] != EndTag
    requires StrSpec(input, On(input, k)).result.Ok?
    requires ElementSpec(mode, input, StrSpec(input, On(input, k)).after).result.Ok?
    ensures var key := StrSpec(input, On(input, k));
      var value := ElementSpec(mode, input, key.after);
      DictEntries(mode, input, On(input, k), start, entries)
      == DictEntries(mode, input, value.after, start, Insert(entries, key.result.value.bytes, value.result.value))
  {
  }

  /** The closing 'e' of `decode_dict`. */
  lemma DictEntriesEnd(mode: Mode, input: seq<byte>, k: nat, start: nat, entries: seq<Entry<Element>>)
    requires k < |input| && input[k] == EndTag
    ensures DictEntries(mode, input, On(input, k), start, entries) == Step(Ok(Dict(entries, start, k)), StepCursor(input, On(input, k)))
  {
  }
}
