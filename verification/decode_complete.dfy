/**
 * The converse of what `DecodeProperties` proves: decoding from the first
 * byte of a well-formed element gives that element back. Together with
 * `ElementShape`, a tree is what `decode_element` returns for an input
 * exactly when it is well formed in that input and starts at offset 0.
 */
module DecodeComplete {
  import opened Numbers
  import opened OrderedMap
  import opened BencodeElement
  import opened Reader
  import opened DecodeSpec
  import opened DecodeProperties
  import opened DecodeRuns

  /** No well-formed element starts with the 'e' that closes a container. */
  lemma FirstByte(mode: Mode, input: seq<byte>, e: Element)
    requires WellFormed(mode, input, e)
    ensures input[e.startIndex] != EndTag
  {
  }

  /** A key's length text parses, so it does not start with 'e'. */
  lemma KeyFirstByte(input: seq<byte>, key: Element)
    requires StrPlaced(input, key, key.startIndex)
    ensures input[key.startIndex] != EndTag
  {
    var text := input[key.startIndex..key.endIndex - |key.bytes|];
    ParsedBytes(text, MinI32, MaxI32, EndTag);
    assert text[0] == input[key.startIndex];
  }

  /** A well-formed string is placed at its first byte. */
  lemma StrWellFormedPlaced(mode: Mode, input: seq<byte>, e: Element)
    requires WellFormed(mode, input, e) && e.Str?
    ensures StrPlaced(input, e, e.startIndex)
  {
    ParsedBytes(input[e.startIndex..e.endIndex - |e.bytes|], MinI32, MaxI32, Colon);
  }

  /** `decode_str` called on the first byte of a placed string reads exactly that string. */
  lemma StrFromPlaced(input: seq<byte>, e: Element)
    requires StrPlaced(input, e, e.startIndex)
    ensures StrSpec(input, On(input, e.startIndex)) == Step(Ok(e), StepCursor(input, On(input, e.endIndex)))
  {
    var colon := e.endIndex - |e.bytes|;
    StrSpecAt(input, e.startIndex, colon, ParseI32(input[e.startIndex..colon]).value);
  }

  /** An integer decodes from its 'i' to its first 'e'. */
  lemma IntFrom(mode: Mode, input: seq<byte>, e: Element)
    requires WellFormed(mode, input, e) && e.Int?
    ensures ElementSpec(mode, input, On(input, e.startIndex)) == Step(Ok(e), AfterElement(mode, input, e))
  {
    ElementOnInt(mode, input, e.startIndex);
    ParsedBytes(input[e.startIndex + 1..e.endIndex], MinI64, MaxI64, EndTag);
    IntSpecAt(mode, input, e.startIndex, e.endIndex, e.value);
  }

  /** A string decodes from its first digit to the end of its payload. */
  lemma StrFrom(mode: Mode, input: seq<byte>, e: Element)
    requires WellFormed(mode, input, e) && e.Str?
    ensures ElementSpec(mode, input, On(input, e.startIndex)) == Step(Ok(e), AfterElement(mode, input, e))
  {
    ElementOnDigit(mode, input, e.startIndex);
    StrWellFormedPlaced(mode, input, e);
    StrFromPlaced(input, e);
  }

  /**
   * Decoding from the first byte of a well-formed element gives the element
   * back and leaves the reader where `ElementShape` says it does.
   */
  lemma {:induction false} ElementFrom(mode: Mode, input: seq<byte>, e: Element)
    requires WellFormed(mode, input, e)
    ensures ElementSpec(mode, input, On(input, e.startIndex)) == Step(Ok(e), AfterElement(mode, input, e))
    decreases Span(e), 2, 0, 1
  {
    if e.Int? {
      IntFrom(mode, input, e);
    } else if e.Str? {
      StrFrom(mode, input, e);
    } else if e.List? {
      ListFrom(mode, input, e);
    } else {
      DictFrom(mode, input, e);
    }
  }

  /** A well-formed list decodes from its 'l' through its 'e'. */
  lemma ListFrom(mode: Mode, input: seq<byte>, e: Element)
    requires WellFormed(mode, input, e) && e.List?
    ensures ElementSpec(mode, input, On(input, e.startIndex)) == Step(Ok(e), AfterElement(mode, input, e))
    decreases Span(e), 2, 0, 0
  {
    var k := e.startIndex;
    ElementOnList(mode, input, k);
    assert StepCursor(input, On(input, k)) == On(input, k + 1);
    assert e.items[..0] == [];
    ItemsFrom(mode, input, e, 0);
  }

  /** A well-formed dictionary decodes from its 'd' through its 'e'. */
  lemma DictFrom(mode: Mode, input: seq<byte>, e: Element)
    requires WellFormed(mode, input, e) && e.Dict?
    ensures ElementSpec(mode, input, On(input, e.startIndex)) == Step(Ok(e), AfterElement(mode, input, e))
    decreases Span(e), 2, 0, 0
  {
    var k := e.startIndex;
    ElementOnDict(mode, input, k);
    assert StepCursor(input, On(input, k)) == On(input, k + 1);
    var pairs: seq<Pair> :| PairsTiled(mode, input, k, pairs, e.endIndex) && e.entries == Inserted(pairs);
    assert pairs[..0] == [];
    PairsFrom(mode, input, e, pairs, 0);
  }

  /** Where the decoder looks after a list's first `i` items. */
  function ItemAt(e: Element, i: nat): nat
    requires e.List?
  {
    if i < |e.items| then e.items[i].startIndex else e.endIndex
  }

  /** The loop of `decode_list`, from its `i`-th item on, rebuilds the list. */
  lemma {:induction false} ItemsFrom(mode: Mode, input: seq<byte>, e: Element, i: nat)
    requires e.List? && WellFormed(mode, input, e) && i <= |e.items|
    ensures ItemAt(e, i) < |input|
    ensures ListItems(mode, input, On(input, ItemAt(e, i)), e.startIndex, e.items[..i])
         == Step(Ok(e), StepCursor(input, On(input, e.endIndex)))
    decreases Span(e), 1, |e.items| - i, 1
  {
    if i == |e.items| {
      assert e.items[..i] == e.items;
      ListItemsEnd(mode, input, e.endIndex, e.startIndex, e.items);
    } else {
      ItemStep(mode, input, e, i);
      ItemsFrom(mode, input, e, i + 1);
    }
  }

  /** One item of a well-formed list, decoded where it lies. */
  lemma ItemStep(mode: Mode, input: seq<byte>, e: Element, i: nat)
    requires e.List? && WellFormed(mode, input, e) && i < |e.items|
    ensures ItemAt(e, i) < |input| && ItemAt(e, i + 1) < |input|
    ensures ListItems(mode, input, On(input, ItemAt(e, i)), e.startIndex, e.items[..i])
         == ListItems(mode, input, On(input, ItemAt(e, i + 1)), e.startIndex, e.items[..i + 1])
    decreases Span(e), 1, |e.items| - i, 0
  {
    var item := e.items[i];
    assert e.startIndex < item.startIndex < item.endIndex && NextFree(mode, item) <= e.endIndex;
    assert e.items[..i] + [item] == e.items[..i + 1];
    assert ItemAt(e, i + 1) == NextFree(mode, item);
    ItemFrom(mode, input, e.startIndex, e.endIndex, item, e.items[..i]);
  }

  /** An item placed in a list decodes where it lies and is appended. */
  lemma ItemFrom(mode: Mode, input: seq<byte>, s: nat, t: nat, item: Element, items: seq<Element>)
    requires t < |input| && s < item.startIndex < item.endIndex && NextFree(mode, item) <= t
    requires WellFormed(mode, input, item)
    ensures item.startIndex < |input| && NextFree(mode, item) < |input|
    ensures ListItems(mode, input, On(input, item.startIndex), s, items)
         == ListItems(mode, input, On(input, NextFree(mode, item)), s, items + [item])
    decreases t - s, 0, 0, 0
  {
    ElementFrom(mode, input, item);
    FirstByte(mode, input, item);
    ListItemsNext(mode, input, item.startIndex, s, items);
    AfterIsNext(mode, input, item);
  }

  /** Where the decoder looks after a dictionary's first `i` pairs. */
  function PairAt(e: Element, pairs: seq<Pair>, i: nat): nat {
    if i < |pairs| then pairs[i].keyStart else e.endIndex
  }

  /** The loop of `decode_dict`, from its `i`-th pair on, rebuilds the dictionary. */
  lemma {:induction false} PairsFrom(mode: Mode, input: seq<byte>, e: Element, pairs: seq<Pair>, i: nat)
    requires e.Dict? && e.startIndex < e.endIndex < |input| && input[e.endIndex] == EndTag
    requires PairsTiled(mode, input, e.startIndex, pairs, e.endIndex) && e.entries == Inserted(pairs)
    requires i <= |pairs|
    ensures PairAt(e, pairs, i) < |input|
    ensures DictEntries(mode, input, On(input, PairAt(e, pairs, i)), e.startIndex, Inserted(pairs[..i]))
         == Step(Ok(e), StepCursor(input, On(input, e.endIndex)))
    decreases Span(e), 1, |pairs| - i, 1
  {
    if i == |pairs| {
      assert pairs[..i] == pairs;
      DictEntriesEnd(mode, input, e.endIndex, e.startIndex, e.entries);
    } else {
      PairStep(mode, input, e, pairs, i);
      PairsFrom(mode, input, e, pairs, i + 1);
    }
  }

  /** One key and its value of a well-formed dictionary, decoded where they lie. */
  lemma PairStep(mode: Mode, input: seq<byte>, e: Element, pairs: seq<Pair>, i: nat)
    requires e.Dict? && e.startIndex < e.endIndex < |input|
    requires PairsTiled(mode, input, e.startIndex, pairs, e.endIndex)
    requires i < |pairs|
    ensures PairAt(e, pairs, i) < |input| && PairAt(e, pairs, i + 1) < |input|
    ensures DictEntries(mode, input, On(input, PairAt(e, pairs, i)), e.startIndex, Inserted(pairs[..i]))
         == DictEntries(mode, input, On(input, PairAt(e, pairs, i + 1)), e.startIndex, Inserted(pairs[..i + 1]))
    decreases Span(e), 1, |pairs| - i, 0
  {
    var p := pairs[i];
    assert PairPlaced(mode, input, e.startIndex, p, e.endIndex);
    assert PairAt(e, pairs, i + 1) == NextFree(mode, p.value);
    assert pairs[..i + 1][..i] == pairs[..i];
    PairFrom(mode, input, e.startIndex, e.endIndex, p, Inserted(pairs[..i]));
  }

  /** A key and its value, placed in a dictionary, decode where they lie into one insertion. */
  lemma PairFrom(mode: Mode, input: seq<byte>, s: nat, t: nat, p: Pair, entries: seq<Entry<Element>>)
    requires t < |input| && PairPlaced(mode, input, s, p, t)
    ensures p.keyStart < |input| && NextFree(mode, p.value) < |input|
    ensures DictEntries(mode, input, On(input, p.keyStart), s, entries)
         == DictEntries(mode, input, On(input, NextFree(mode, p.value)), s, Insert(entries, p.key, p.value))
    decreases t - s, 0, 0, 0
  {
    var key := KeyElement(p);
    StrFromPlaced(input, key);
    KeyFirstByte(input, key);
    assert StepCursor(input, On(input, p.keyEnd)) == On(input, p.value.startIndex);
    ElementFrom(mode, input, p.value);
    DictEntriesNext(mode, input, p.keyStart, s, entries);
    AfterIsNext(mode, input, p.value);
  }

  /** A decoded element leaves the reader on the byte it frees the input from. */
  lemma AfterIsNext(mode: Mode, input: seq<byte>, e: Element)
    requires NextFree(mode, e) < |input|
    ensures AfterElement(mode, input, e) == On(input, NextFree(mode, e))
  {
  }

  /**
   * `decode` returns a tree exactly when the tree is well formed in the
   * input and starts at its first byte; bytes after the tree are not read.
   */
  lemma DecodeExactly(mode: Mode, input: seq<byte>, e: Element)
    ensures Decode(mode, input).result == Ok(e) <==> WellFormed(mode, input, e) && e.startIndex == 0
  {
    ElementShape(mode, input, StepCursor(input, Fresh));
    if WellFormed(mode, input, e) && e.startIndex == 0 {
      assert StepCursor(input, Fresh) == On(input, 0);
      ElementFrom(mode, input, e);
    }
  }
}
