/**
 * What every successful decoding step guarantees about the tree it
 * builds and where it leaves the reader, for the code as written and for
 * the corrected `decode_int`.
 *
 * Offsets are inclusive: `endIndex` is the offset of an element's last
 * byte. An element "frees" the input from `NextFree` on: the byte after
 * its last one, except that an integer decoded as written leaves its own
 * closing 'e' as the next byte its container looks at.
 */
module DecodeProperties {
  import opened Numbers
  import opened OrderedMap
  import opened BencodeElement
  import opened Reader
  import opened DecodeSpec

  /** The offset of the current byte, or the input length once the end flag is up. */
  function Here(c: Cursor): int {
    if c.eof then c.pos else c.pos - 1
  }

  /** The first offset the enclosing production looks at after `e`. */
  function NextFree(mode: Mode, e: Element): nat {
    if mode == AsWritten && e.Int? then e.endIndex else e.endIndex + 1
  }

  /** Where a decoded element leaves the reader. */
  function AfterElement(mode: Mode, input: seq<byte>, e: Element): Cursor
    requires e.endIndex < |input|
  {
    if mode == AsWritten && e.Int? then On(input, e.endIndex) else StepCursor(input, On(input, e.endIndex))
  }

  /** `child`'s bytes lie inside `parent`'s, after its tag byte and up to its closing byte. */
  predicate Within(mode: Mode, child: Element, parent: Element) {
    parent.startIndex < child.startIndex && NextFree(mode, child) <= parent.endIndex
  }

  /** How many bytes past its first one an element's last byte lies (0 for a degenerate element). */
  function Span(e: Element): nat {
    if e.startIndex < e.endIndex then e.endIndex - e.startIndex else 0
  }

  /**
   * A key and its value as they follow each other in a dictionary's
   * encoding: the key is the string spanning `keyStart..keyEnd` and the
   * value starts on the next byte.
   */
  datatype Pair = Pair(key: seq<byte>, keyStart: nat, keyEnd: nat, value: Element)

  /** The key of a pair as the string element `decode_str` reads. */
  function KeyElement(p: Pair): Element {
    Str(p.key, p.keyStart, p.keyEnd)
  }

  /** The map `decode_dict` builds: every pair inserted in input order into an empty map. */
  function Inserted(pairs: seq<Pair>): seq<Entry<Element>> {
    if |pairs| == 0 then []
    else
      var last := pairs[|pairs| - 1];
      Insert(Inserted(pairs[..|pairs| - 1]), last.key, last.value)
  }

  /** The value of the last pair with key `k`: a reference for what a lookup in a dictionary gives. */
  function LastValue(pairs: seq<Pair>, k: seq<byte>): Option<Element> {
    if |pairs| == 0 then None
    else if pairs[|pairs| - 1].key == k then Some(pairs[|pairs| - 1].value)
    else LastValue(pairs[..|pairs| - 1], k)
  }

  /**
   * The facts a decoded element carries about the input: its first and
   * last byte, the text an integer or a string length was parsed from, a
   * string's payload, the children of a list lying back to back in input
   * order, and the key/value pairs of a dictionary lying back to back in
   * input order, its map holding them as inserted one after the other.
   */
  ghost predicate WellFormed(mode: Mode, input: seq<byte>, e: Element)
    decreases Span(e), 2
  {
    && e.startIndex < |input| && e.endIndex < |input|
    && match e
       case Int(v, s, t) =>
         && s < t && input[s] == IntTag && input[t] == EndTag
         && ParseI64(input[s + 1..t]) == Some(v)
       case Str(bytes, s, t) =>
         && s + |bytes| < t
         && IsDigit(input[s]) && input[t - |bytes|] == Colon
         && ParseI32(input[s..t - |bytes|]) == Some(|bytes|)
         && bytes == input[t - |bytes| + 1..t + 1]
       case List(items, s, t) =>
         && s < t && input[s] == ListTag && input[t] == EndTag
         && Tiled(mode, input, s, items, t)
       case Dict(entries, s, t) =>
         && s < t && input[s] == DictTag && input[t] == EndTag
         && exists pairs :: PairsTiled(mode, input, s, pairs, t) && entries == Inserted(pairs)
  }

  /**
   * Well-formed `items` lie back to back from the byte after offset
   * `start`, each beginning where the previous one frees the input, and
   * the last one frees it at `next`.
   */
  ghost predicate Tiled(mode: Mode, input: seq<byte>, start: nat, items: seq<Element>, next: int)
    decreases if start < next then next - start else 0, 0
  {
    && (forall i :: 0 <= i < |items| ==>
          && start < items[i].startIndex < items[i].endIndex && NextFree(mode, items[i]) <= next
          && WellFormed(mode, input, items[i]))
    && (if |items| == 0 then next == start + 1
        else items[0].startIndex == start + 1 && NextFree(mode, items[|items| - 1]) == next)
    && (forall i :: 0 < i < |items| ==> items[i].startIndex == NextFree(mode, items[i - 1]))
  }

  /**
   * Key/value `pairs` lie back to back from the byte after offset `start`,
   * each key where the previous value frees the input, and the last value
   * frees it at `next`.
   */
  ghost predicate PairsTiled(mode: Mode, input: seq<byte>, start: nat, pairs: seq<Pair>, next: int)
    decreases if start < next then next - start else 0, 1
  {
    && (forall i :: 0 <= i < |pairs| ==> PairPlaced(mode, input, start, pairs[i], next))
    && (if |pairs| == 0 then next == start + 1
        else pairs[0].keyStart == start + 1 && NextFree(mode, pairs[|pairs| - 1].value) == next)
    && (forall i :: 0 < i < |pairs| ==> pairs[i].keyStart == NextFree(mode, pairs[i - 1].value))
  }

  /**
   * One pair of a dictionary between offsets `start` and `next`: its key is
   * a string and its value is well formed from the byte after the key.
   */
  ghost predicate PairPlaced(mode: Mode, input: seq<byte>, start: nat, p: Pair, next: int)
    decreases if start < next then next - start else 0, 0
  {
    && start < p.keyStart
    && StrPlaced(input, KeyElement(p), p.keyStart)
    && p.value.startIndex == p.keyEnd + 1
    && p.value.startIndex < p.value.endIndex && NextFree(mode, p.value) <= next
    && WellFormed(mode, input, p.value)
  }

  lemma RemainingHere(input: seq<byte>, c: Cursor)
    requires ValidCursor(input, c) && (c.eof || c.pos >= 1)
    ensures Remaining(input, c) == |input| - Here(c)
  {
  }

  lemma HereAfter(mode: Mode, input: seq<byte>, e: Element)
    requires e.endIndex < |input|
    ensures Here(AfterElement(mode, input, e)) == NextFree(mode, e)
    ensures ValidCursor(input, AfterElement(mode, input, e))
    ensures AfterElement(mode, input, e).pos >= 1
  {
  }

  /**
   * A successful `decode_element` starts its element at the byte it was
   * called on, produces a well-formed element, and leaves the reader one
   * byte past that element's last byte (on the last byte itself for an
   * integer decoded as written).
   */
  lemma {:induction false} ElementShape(mode: Mode, input: seq<byte>, c: Cursor)
    requires ValidCursor(input, c)
    ensures var s := ElementSpec(mode, input, c);
      s.result.Ok? ==>
        && !c.eof && c.pos >= 1
        && s.result.value.startIndex == c.pos - 1
        && WellFormed(mode, input, s.result.value)
        && s.after == AfterElement(mode, input, s.result.value)
    decreases Remaining(input, c), 2
  {
    if !c.eof {
      var b := c.cur;
      if IsDigit(b) {
        StrShape(input, c);
        var s := StrSpec(input, c);
        if s.result.Ok? {
          StrPlacedWellFormed(mode, input, s.result.value);
        }
      } else if b == DictTag {
        DictEntriesShape(mode, input, StepCursor(input, c), c.pos - 1, []);
      } else if b == ListTag {
        ListItemsShape(mode, input, StepCursor(input, c), c.pos - 1, []);
      } else if b == IntTag {
        IntShape(mode, input, c);
      }
    }
  }

  /**
   * A string element starting at offset `start`: its length text runs up to
   * the first ':', parses as an `i32`, and the payload is the next
   * `max(length, 0)` bytes, the last of which is at `endIndex`.
   */
  predicate StrPlaced(input: seq<byte>, e: Element, start: nat) {
    && e.Str? && e.startIndex == start
    && start + |e.bytes| < e.endIndex < |input|
    && var colon := e.endIndex - |e.bytes|;
       && input[colon] == Colon
       && Colon !in input[start..colon]
       && ParseI32(input[start..colon]).Some?
       && |e.bytes| == (if ParseI32(input[start..colon]).value < 0 then 0 else ParseI32(input[start..colon]).value)
       && e.bytes == input[colon + 1..e.endIndex + 1]
  }

  /**
   * `decode_str`, also where it reads a dictionary key: the length text runs
   * from the current byte to the first ':', and the payload is exactly the
   * declared number of bytes after it.
   */
  lemma StrShape(input: seq<byte>, c: Cursor)
    requires ValidCursor(input, c) && c.pos >= 1
    ensures var s := StrSpec(input, c);
      s.result.Ok? ==> !c.eof && StrPlaced(input, s.result.value, c.pos - 1) && s.after == StepCursor(input, On(input, s.result.value.endIndex))
  {
    LengthTextShape(input, c, c.pos - 1, []);
  }

  /** A string whose length text starts with a digit has exactly that many payload bytes. */
  lemma StrPlacedWellFormed(mode: Mode, input: seq<byte>, e: Element)
    requires e.Str? && e.startIndex < |input| && StrPlaced(input, e, e.startIndex) && IsDigit(input[e.startIndex])
    ensures WellFormed(mode, input, e)
  {
    var colon := e.endIndex - |e.bytes|;
    var text := input[e.startIndex..colon];
    assert text[0] == input[e.startIndex];
  }

  /** The loop of `decode_str` over the length text, with `text` the bytes collected so far. */
  lemma {:induction false} LengthTextShape(input: seq<byte>, c: Cursor, start: nat, text: seq<byte>)
    requires ValidCursor(input, c) && c.pos >= 1
    requires start <= c.pos - 1 && text == input[start..c.pos - 1]
    requires Colon !in text
    ensures var s := LengthText(input, c, start, text);
      s.result.Ok? ==> !c.eof && StrPlaced(input, s.result.value, start) && s.after == StepCursor(input, On(input, s.result.value.endIndex))
    decreases Remaining(input, c)
  {
    if !c.eof {
      var c' := StepCursor(input, c);
      if c.cur != Colon {
        if !c'.eof {
          assert c'.pos == c.pos + 1 && c.cur == input[c.pos - 1];
          assert text + [c.cur] == input[start..c'.pos - 1];
          LengthTextShape(input, c', start, text + [c.cur]);
        }
      } else {
        LengthTextColon(input, c, start, text);
      }
    }
  }

  /** The ':' that ends the length text: parse it, then read the payload. */
  lemma LengthTextColon(input: seq<byte>, c: Cursor, start: nat, text: seq<byte>)
    requires ValidCursor(input, c) && c.pos >= 1 && !c.eof && c.cur == Colon
    requires start <= c.pos - 1 && text == input[start..c.pos - 1]
    requires Colon !in text
    ensures var s := LengthText(input, c, start, text);
      s.result.Ok? ==> StrPlaced(input, s.result.value, start) && s.after == StepCursor(input, On(input, s.result.value.endIndex))
  {
    LengthTextColonParts(input, c, start, text);
    var s := LengthText(input, c, start, text);
    if s.result.Ok? {
      var n := ParseI32(text).value;
      var payload := Payload(input, c, if n < 0 then 0 else n, []);
      StrFromPayload(input, c, start, n);
      var e := Str(payload.result.value, start, c.pos - 1 + (if n < 0 then 0 else n));
      assert s.result.value == e && StrPlaced(input, e, start);
    }
  }

  /** The payload after the ':' completes a string element that starts at `start`. */
  lemma StrFromPayload(input: seq<byte>, c: Cursor, start: nat, n: int)
    requires ValidCursor(input, c) && c.pos >= 1 && !c.eof && c.cur == Colon
    requires start <= c.pos - 1 && ParseI32(input[start..c.pos - 1]) == Some(n)
    requires Colon !in input[start..c.pos - 1]
    ensures var count := if n < 0 then 0 else n;
      var payload := Payload(input, c, count, []);
      payload.result.Ok? ==>
        && StrPlaced(input, Str(payload.result.value, start, c.pos - 1 + count), start)
        && payload.after == On(input, c.pos - 1 + count)
  {
    var count: nat := if n < 0 then 0 else n;
    PayloadRun(input, c, count);
    var payload := Payload(input, c, count, []);
    if payload.result.Ok? {
      var bytes := payload.result.value;
      assert |bytes| == count && bytes == input[c.pos..c.pos + count];
      var e := Str(bytes, start, c.pos - 1 + count);
      assert e.endIndex - |e.bytes| == c.pos - 1;
    }
  }

  /** One unfolding of the length text at its ':', on success. */
  lemma LengthTextColonParts(input: seq<byte>, c: Cursor, start: nat, text: seq<byte>)
    requires ValidCursor(input, c) && c.pos >= 1 && !c.eof && c.cur == Colon
    ensures var s := LengthText(input, c, start, text);
      s.result.Ok? ==>
        && ParseI32(text).Some?
        && var count := if ParseI32(text).value < 0 then 0 else ParseI32(text).value;
           var payload := Payload(input, c, count, []);
           && payload.result.Ok?
           && s == Step(Ok(Str(payload.result.value, start, c.pos - 1 + count)), StepCursor(input, payload.after))
  {
  }

  /** The payload of a string: the `n` bytes after the current one, if there are that many. */
  lemma PayloadRun(input: seq<byte>, c: Cursor, n: nat)
    requires ValidCursor(input, c) && !c.eof && c.pos >= 1
    ensures var s := Payload(input, c, n, []);
      && (s.result.Ok? <==> c.pos + n <= |input|)
      && (s.result.Ok? ==> s.result.value == input[c.pos..c.pos + n] && s.after == On(input, c.pos - 1 + n))
      && (!s.result.Ok? ==> s.result == Panic(UnexpectedEof))
  {
    PayloadShape(input, c, n, []);
    if c.pos + n <= |input| {
      assert [] + input[c.pos..c.pos + n] == input[c.pos..c.pos + n];
    }
  }

  lemma {:induction false} PayloadShape(input: seq<byte>, c: Cursor, n: nat, bytes: seq<byte>)
    requires ValidCursor(input, c) && !c.eof && c.pos >= 1
    ensures var s := Payload(input, c, n, bytes);
      && (s.result.Ok? <==> c.pos + n <= |input|)
      && (s.result.Ok? ==> s.result.value == bytes + input[c.pos..c.pos + n] && s.after == On(input, c.pos - 1 + n))
      && (!s.result.Ok? ==> s.result == Panic(UnexpectedEof))
    decreases n
  {
    if n > 0 {
      var c' := StepCursor(input, c);
      if !c'.eof {
        PayloadShape(input, c', n - 1, bytes + [c'.cur]);
        var s := Payload(input, c', n - 1, bytes + [c'.cur]);
        if s.result.Ok? {
          assert input[c.pos..c.pos + n] == [c'.cur] + input[c'.pos..c'.pos + (n - 1)];
        }
      }
    }
  }

  /** `decode_int`: the integer runs from its 'i' to the first 'e' after it. */
  lemma IntShape(mode: Mode, input: seq<byte>, c: Cursor)
    requires ValidCursor(input, c) && c.pos >= 1 && !c.eof && c.cur == IntTag
    ensures var s := IntSpec(mode, input, c);
      s.result.Ok? ==>
        && s.result.value.startIndex == c.pos - 1
        && WellFormed(mode, input, s.result.value)
        && s.after == AfterElement(mode, input, s.result.value)
  {
    IntBodyShape(mode, input, c, c.pos - 1, []);
  }

  /** The loop of `decode_int`, with `text` the bytes read since the 'i'. */
  lemma {:induction false} IntBodyShape(mode: Mode, input: seq<byte>, c: Cursor, start: nat, text: seq<byte>)
    requires ValidCursor(input, c)
    requires start < c.pos && input[start] == IntTag && text == input[start + 1..c.pos]
    ensures var s := IntBody(mode, input, c, start, text);
      s.result.Ok? ==>
        && s.result.value.startIndex == start
        && WellFormed(mode, input, s.result.value)
        && s.after == AfterElement(mode, input, s.result.value)
    decreases Remaining(input, c)
  {
    var c' := StepCursor(input, c);
    if !c'.eof {
      assert c'.pos == c.pos + 1 && c'.cur == input[c.pos];
      if c'.cur != EndTag {
        assert text + [c'.cur] == input[start + 1..c'.pos];
        IntBodyShape(mode, input, c', start, text + [c'.cur]);
      } else {
        assert c' == On(input, c.pos);
      }
    }
  }

  lemma {:induction false} ListItemsShape(mode: Mode, input: seq<byte>, c: Cursor, start: nat, items: seq<Element>)
    requires ValidCursor(input, c) && c.pos >= 1
    requires start < |input| && input[start] == ListTag && start < Here(c)
    requires Tiled(mode, input, start, items, Here(c))
    ensures var s := ListItems(mode, input, c, start, items);
      s.result.Ok? ==>
        && s.result.value.startIndex == start
        && WellFormed(mode, input, s.result.value)
        && s.after == StepCursor(input, On(input, s.result.value.endIndex))
    decreases Remaining(input, c), if c.eof then 0 else 3
  {
    if c.eof {
    } else if c.cur == EndTag {
      ListClose(mode, input, c, start, items);
    } else {
      ElementShape(mode, input, c);
      var item := ElementSpec(mode, input, c);
      if item.result.Ok? {
        var e := item.result.value;
        HereAfter(mode, input, e);
        ListTiling(mode, input, start, items, e);
        ListItemsShape(mode, input, item.after, start, items + [e]);
      }
    }
  }

  /** Appending an element that starts where the previous ones end keeps a list's items back to back. */
  lemma ListTiling(mode: Mode, input: seq<byte>, start: nat, items: seq<Element>, e: Element)
    requires Tiled(mode, input, start, items, e.startIndex) && start < e.startIndex && WellFormed(mode, input, e)
    ensures Tiled(mode, input, start, items + [e], NextFree(mode, e))
  {
    WellFormedSpan(mode, input, e);
    var items' := items + [e];
    assert forall i :: 0 <= i < |items| ==> items'[i] == items[i];
  }

  /** A well-formed element spans at least two bytes. */
  lemma WellFormedSpan(mode: Mode, input: seq<byte>, e: Element)
    requires WellFormed(mode, input, e)
    ensures e.startIndex < e.endIndex
  {
  }

  /** The closing 'e' of a list whose items are laid out back to back. */
  lemma ListClose(mode: Mode, input: seq<byte>, c: Cursor, start: nat, items: seq<Element>)
    requires ValidCursor(input, c) && c.pos >= 1 && !c.eof && c.cur == EndTag
    requires start < |input| && input[start] == ListTag && start < Here(c)
    requires Tiled(mode, input, start, items, Here(c))
    ensures var s := ListItems(mode, input, c, start, items);
      && s.result == Ok(List(items, start, c.pos - 1))
      && WellFormed(mode, input, s.result.value)
      && s.after == StepCursor(input, On(input, c.pos - 1))
  {
    assert c == On(input, c.pos - 1);
  }

  /**
   * The loop of `decode_dict`, with `pairs` the keys and values read so
   * far and `Inserted(pairs)` the map built from them.
   */
  lemma {:induction false} DictEntriesShape(mode: Mode, input: seq<byte>, c: Cursor, start: nat, pairs: seq<Pair>)
    requires ValidCursor(input, c) && c.pos >= 1
    requires start < |input| && input[start] == DictTag && start < Here(c)
    requires PairsTiled(mode, input, start, pairs, Here(c))
    ensures var s := DictEntries(mode, input, c, start, Inserted(pairs));
      s.result.Ok? ==>
        && s.result.value.startIndex == start
        && WellFormed(mode, input, s.result.value)
        && s.after == StepCursor(input, On(input, s.result.value.endIndex))
    decreases Remaining(input, c), if c.eof then 0 else 3
  {
    if c.eof {
    } else if c.cur == EndTag {
      DictClose(mode, input, c, start, pairs);
    } else {
      var key := StrSpec(input, c);
      if key.result.Ok? && ElementSpec(mode, input, key.after).result.Ok? {
        var p := DictPairShape(mode, input, c, start, pairs);
        var next := ElementSpec(mode, input, key.after).after;
        assert DictEntries(mode, input, c, start, Inserted(pairs)) == DictEntries(mode, input, next, start, Inserted(pairs + [p]));
        DictEntriesShape(mode, input, next, start, pairs + [p]);
      }
    }
  }

  /** The closing 'e' of a dictionary whose pairs are laid out back to back. */
  lemma DictClose(mode: Mode, input: seq<byte>, c: Cursor, start: nat, pairs: seq<Pair>)
    requires ValidCursor(input, c) && c.pos >= 1 && !c.eof && c.cur == EndTag
    requires start < |input| && input[start] == DictTag && start < Here(c)
    requires PairsTiled(mode, input, start, pairs, Here(c))
    ensures var s := DictEntries(mode, input, c, start, Inserted(pairs));
      && s.result == Ok(Dict(Inserted(pairs), start, c.pos - 1))
      && WellFormed(mode, input, s.result.value)
      && s.after == StepCursor(input, On(input, c.pos - 1))
  {
    assert c == On(input, c.pos - 1);
    assert PairsTiled(mode, input, start, pairs, c.pos - 1);
  }

  /**
   * One key and its value read by `decode_dict`: they extend the pairs
   * read so far, and the map becomes the old one with the pair inserted.
   */
  lemma DictPairShape(mode: Mode, input: seq<byte>, c: Cursor, start: nat, pairs: seq<Pair>) returns (p: Pair)
    requires ValidCursor(input, c) && c.pos >= 1 && !c.eof
    requires start < Here(c)
    requires PairsTiled(mode, input, start, pairs, Here(c))
    requires StrSpec(input, c).result.Ok?
    requires ElementSpec(mode, input, StrSpec(input, c).after).result.Ok?
    ensures var key := StrSpec(input, c).result.value;
      var value := ElementSpec(mode, input, StrSpec(input, c).after);
      && p == Pair(key.bytes, key.startIndex, key.endIndex, value.result.value)
      && ValidCursor(input, value.after) && value.after.pos >= 1
      && Remaining(input, value.after) < Remaining(input, c)
      && start < Here(value.after)
      && PairsTiled(mode, input, start, pairs + [p], Here(value.after))
      && Inserted(pairs + [p]) == Insert(Inserted(pairs), key.bytes, value.result.value)
    decreases Remaining(input, c), 1
  {
    var key := StrSpec(input, c);
    StrShape(input, c);
    RemainingHere(input, c);
    RemainingHere(input, key.after);
    ElementShape(mode, input, key.after);
    var value := ElementSpec(mode, input, key.after);
    var k := key.result.value;
    var v := value.result.value;
    HereAfter(mode, input, v);
    RemainingHere(input, value.after);
    p := Pair(k.bytes, k.startIndex, k.endIndex, v);
    assert KeyElement(p) == k;
    PairTiling(mode, input, start, pairs, p);
    assert (pairs + [p])[..|pairs|] == pairs;
  }

  /** Appending a key and its value where the previous pairs end keeps a dictionary's pairs back to back. */
  lemma PairTiling(mode: Mode, input: seq<byte>, start: nat, pairs: seq<Pair>, p: Pair)
    requires PairsTiled(mode, input, start, pairs, p.keyStart) && start < p.keyStart
    requires StrPlaced(input, KeyElement(p), p.keyStart) && p.value.startIndex == p.keyEnd + 1
    requires WellFormed(mode, input, p.value)
    ensures PairsTiled(mode, input, start, pairs + [p], NextFree(mode, p.value))
  {
    WellFormedSpan(mode, input, p.value);
    var next := NextFree(mode, p.value);
    assert PairPlaced(mode, input, start, p, next);
    PairsPlacedSnoc(mode, input, start, pairs, p, next);
    PairsChainSnoc(mode, pairs, p);
  }

  lemma PairsPlacedSnoc(mode: Mode, input: seq<byte>, start: nat, pairs: seq<Pair>, p: Pair, next: int)
    requires forall i :: 0 <= i < |pairs| ==> PairPlaced(mode, input, start, pairs[i], p.keyStart)
    requires PairPlaced(mode, input, start, p, next) && p.keyStart <= next
    ensures forall i :: 0 <= i < |pairs + [p]| ==> PairPlaced(mode, input, start, (pairs + [p])[i], next)
  {
    forall i | 0 <= i < |pairs|
      ensures PairPlaced(mode, input, start, (pairs + [p])[i], next)
    {
      assert (pairs + [p])[i] == pairs[i];
      PairPlacedWider(mode, input, start, pairs[i], p.keyStart, next);
    }
  }

  lemma PairsChainSnoc(mode: Mode, pairs: seq<Pair>, p: Pair)
    requires forall i :: 0 < i < |pairs| ==> pairs[i].keyStart == NextFree(mode, pairs[i - 1].value)
    requires |pairs| > 0 ==> p.keyStart == NextFree(mode, pairs[|pairs| - 1].value)
    ensures forall i :: 0 < i < |pairs + [p]| ==> (pairs + [p])[i].keyStart == NextFree(mode, (pairs + [p])[i - 1].value)
  {
  }

  lemma PairPlacedWider(mode: Mode, input: seq<byte>, start: nat, p: Pair, next: int, next': int)
    requires PairPlaced(mode, input, start, p, next) && next <= next'
    ensures PairPlaced(mode, input, start, p, next')
  {
  }

  /** Every entry of the map built from `pairs` is one of the pairs, and its keys ascend. */
  lemma {:induction false} InsertedEntries(pairs: seq<Pair>)
    ensures Sorted(Inserted(pairs))
    ensures forall en :: en in Inserted(pairs) ==>
      exists i :: 0 <= i < |pairs| && en == Entry(pairs[i].key, pairs[i].value)
    decreases |pairs|
  {
    if |pairs| > 0 {
      var init := pairs[..|pairs| - 1];
      var last := pairs[|pairs| - 1];
      InsertedEntries(init);
      InsertSpec(Inserted(init), last.key, last.value);
      forall en | en in Inserted(pairs)
        ensures exists i :: 0 <= i < |pairs| && en == Entry(pairs[i].key, pairs[i].value)
      {
        if en != Entry(last.key, last.value) {
          var i :| 0 <= i < |init| && en == Entry(init[i].key, init[i].value);
          assert pairs[i] == init[i];
        }
      }
    }
  }

  /** Looking a key up in the map built from `pairs` gives the value of the last pair with that key. */
  lemma {:induction false} GetInserted(pairs: seq<Pair>, k: seq<byte>)
    ensures Get(Inserted(pairs), k) == LastValue(pairs, k)
    decreases |pairs|
  {
    if |pairs| > 0 {
      var init := pairs[..|pairs| - 1];
      var last := pairs[|pairs| - 1];
      InsertedEntries(init);
      GetInserted(init, k);
      if last.key == k {
        GetInsertSame(Inserted(init), k, last.value);
      } else {
        GetInsertOther(Inserted(init), last.key, last.value, k);
      }
    }
  }

  /**
   * The values of a well-formed dictionary are well formed and lie inside
   * it, and its keys ascend.
   */
  lemma DictEntriesWithin(mode: Mode, input: seq<byte>, e: Element)
    requires WellFormed(mode, input, e) && e.Dict?
    ensures Sorted(e.entries)
    ensures forall en :: en in e.entries ==> WellFormed(mode, input, en.value) && Within(mode, en.value, e)
  {
    var pairs: seq<Pair> :| PairsTiled(mode, input, e.startIndex, pairs, e.endIndex) && e.entries == Inserted(pairs);
    InsertedEntries(pairs);
    forall en | en in e.entries
      ensures WellFormed(mode, input, en.value) && Within(mode, en.value, e)
    {
      var i: nat :| i < |pairs| && en == Entry(pairs[i].key, pairs[i].value);
      assert PairPlaced(mode, input, e.startIndex, pairs[i], e.endIndex);
    }
  }

  /**
   * What a well-formed dictionary holds: its encoding is a run of key/value
   * pairs, and each key maps to the value of the last pair with that key,
   * so a repeated key keeps the value written last.
   */
  lemma DictContents(mode: Mode, input: seq<byte>, e: Element)
    requires WellFormed(mode, input, e) && e.Dict?
    ensures exists pairs ::
      && PairsTiled(mode, input, e.startIndex, pairs, e.endIndex)
      && (forall k :: Get(e.entries, k) == LastValue(pairs, k))
  {
    var pairs: seq<Pair> :| PairsTiled(mode, input, e.startIndex, pairs, e.endIndex) && e.entries == Inserted(pairs);
    forall k
      ensures Get(e.entries, k) == LastValue(pairs, k)
    {
      GetInserted(pairs, k);
    }
  }
}
