/**
 * The two tree printers: `Display` for `BencodeElement`
 * (src/bencoding.rs:180-231) and `pretty_print` (src/bencoding_helper.rs:6-53).
 * Both walk the tree with the same `fmt_with_indent(indent, attached)`
 * recursion; they differ in where they start (indent 0 attached, against
 * indent 2 not attached) and in that `pretty_print` shortens string values
 * with `ellipsize(value, 120)`.
 *
 * The output is modelled as its lines, without the newline each `writeln!`
 * or `println!` adds. A dictionary entry's `print!` of `pad  "key": ` has no
 * newline, so the entry's value, printed attached, continues that line.
 */
module Render {
  import opened Numbers
  import opened OrderedMap
  import opened BencodeElement

  /** How string values are shown: whole (`Display`) or through `ellipsize(…, 120)` (`pretty_print`). */
  datatype Style = Whole | Shortened

  /** The `max_len` `pretty_print` passes to `ellipsize`. */
  const MaxShown: nat := 120

  /**
   * `ellipsize`: a string of more than `maxLen` chars keeps its first
   * `maxLen - 3` chars followed by "...". The `usize` subtraction
   * `max_len - 3` is only reached, and only defined, for such strings.
   */
  function Ellipsize(s: seq<char>, maxLen: nat): (r: seq<char>)
    requires |s| <= maxLen || maxLen >= 3
    ensures |s| <= maxLen ==> r == s
    ensures |s| > maxLen ==> |r| == maxLen && r[..maxLen - 3] == s[..maxLen - 3] && r[maxLen - 3..] == "..."
  {
    if |s| > maxLen then s[..maxLen - 3] + "..." else s
  }

  /** Shortening a string that `ellipsize` has already shortened changes nothing. */
  lemma EllipsizeIdempotent(s: seq<char>, maxLen: nat)
    requires maxLen >= 3
    ensures Ellipsize(Ellipsize(s, maxLen), maxLen) == Ellipsize(s, maxLen)
  {
  }

  /** The `char`s the decoder pushed for the bytes of a string: one per byte. */
  function Chars(bytes: seq<byte>): (cs: seq<char>)
    ensures |cs| == |bytes|
    ensures forall i :: 0 <= i < |bytes| ==> cs[i] as int == bytes[i]
  {
    seq(|bytes|, i requires 0 <= i < |bytes| => bytes[i] as char)
  }

  /** `" ".repeat(n)`. */
  function Pad(n: nat): (p: seq<char>)
    ensures |p| == n && forall i :: 0 <= i < n ==> p[i] == ' '
  {
    seq(n, _ => ' ')
  }

  /** What a node's first line starts with: nothing when attached, else the pad. */
  function Lead(indent: nat, attached: bool): seq<char> {
    if attached then [] else Pad(indent)
  }

  /** A string value as printed between its quotes. */
  function Shown(style: Style, bytes: seq<byte>): (r: seq<char>)
    ensures style == Whole || |bytes| <= MaxShown ==> r == Chars(bytes)
    ensures |r| <= |bytes| && |r| <= (if style == Whole then |bytes| else MaxShown)
  {
    if style == Whole then Chars(bytes) else Ellipsize(Chars(bytes), MaxShown)
  }

  /** The number of lines a tree takes, whatever the indent and the style. */
  function LineCount(e: Element): (n: nat)
    ensures n >= 1
    decreases e
  {
    match e
    case Int(_, _, _) => 1
    case Str(_, _, _) => 1
    case List(items, _, _) => 2 + ItemsLineCount(items)
    case Dict(entries, _, _) => 2 + EntriesLineCount(entries)
  }

  function ItemsLineCount(items: seq<Element>): nat
    decreases items
  {
    if |items| == 0 then 0 else LineCount(items[0]) + ItemsLineCount(items[1..])
  }

  function EntriesLineCount(entries: seq<Entry<Element>>): nat
    decreases entries
  {
    if |entries| == 0 then 0 else LineCount(entries[0].value) + EntriesLineCount(entries[1..])
  }

  /**
   * What a node prints on its first line after the pad: an integer's
   * decimal text, a string in double quotes, or the opening bracket of a
   * list or dictionary.
   */
  function Head(style: Style, e: Element): seq<char> {
    match e
    case Int(v, _, _) => Chars(Decimal(v))
    case Str(bytes, _, _) => ['"'] + Shown(style, bytes) + ['"']
    case List(_, _, _) => "["
    case Dict(_, _, _) => "{"
  }

  /**
   * `fmt_with_indent(element, indent, attached)`: the lines printed for a
   * node, its head first, after the pad unless the node is attached.
   */
  function Lines(style: Style, e: Element, indent: nat, attached: bool): (r: seq<seq<char>>)
    ensures |r| == LineCount(e)
    decreases e, 1
  {
    [Lead(indent, attached) + Head(style, e)] + Body(style, e, indent)
  }

  /**
   * The lines after a node's head. A list prints its items at
   * `indent + 2`, not attached, then "]" at its own pad; a dictionary
   * prints one entry per key in the map's order, then "}" at its own pad.
   */
  function Body(style: Style, e: Element, indent: nat): (r: seq<seq<char>>)
    ensures |r| == LineCount(e) - 1
    decreases e, 0
  {
    match e
    case Int(_, _, _) => []
    case Str(_, _, _) => []
    case List(items, _, _) => ItemLines(style, items, indent + 2) + [Pad(indent) + "]"]
    case Dict(entries, _, _) => EntryLines(style, entries, indent) + [Pad(indent) + "}"]
  }

  /** The loop over a list's items, each at `indent` and not attached. */
  function ItemLines(style: Style, items: seq<Element>, indent: nat): (r: seq<seq<char>>)
    ensures |r| == ItemsLineCount(items)
    decreases items
  {
    if |items| == 0 then []
    else Lines(style, items[0], indent, false) + ItemLines(style, items[1..], indent)
  }

  /**
   * The loop over a dictionary's entries: `pad  "key": ` continued on the
   * same line by the value printed at `indent + 4`, attached (its head),
   * then the rest of the value's lines.
   */
  function EntryLines(style: Style, entries: seq<Entry<Element>>, indent: nat): (r: seq<seq<char>>)
    ensures |r| == EntriesLineCount(entries)
    decreases entries
  {
    if |entries| == 0 then []
    else
      var value := entries[0].value;
      [EntryHead(entries[0].key, indent) + Head(style, value)] + Body(style, value, indent + 4)
        + EntryLines(style, entries[1..], indent)
  }

  /** The text `print!` writes before an entry's value. */
  function EntryHead(key: seq<byte>, indent: nat): seq<char> {
    Pad(indent) + "  \"" + Chars(key) + "\": "
  }

  /** `Display::fmt`: the tree at indent 0, attached. */
  function DisplayLines(e: Element): (r: seq<seq<char>>)
    ensures |r| == LineCount(e)
  {
    Lines(Whole, e, 0, true)
  }

  /** `pretty_print`: the tree at indent 2, not attached, strings shortened. */
  function PrettyPrintLines(e: Element): (r: seq<seq<char>>)
    ensures |r| == LineCount(e)
  {
    Lines(Shortened, e, 2, false)
  }

  /** `line` starts with at least `n` spaces. */
  predicate Indented(line: seq<char>, n: nat) {
    n <= |line| && forall i :: 0 <= i < n ==> line[i] == ' '
  }

  /** Every line in `lines` with `k` more spaces in front. */
  function Shifted(lines: seq<seq<char>>, k: nat): (r: seq<seq<char>>)
    ensures |r| == |lines|
    ensures forall j :: 0 <= j < |lines| ==> r[j] == Pad(k) + lines[j]
  {
    seq(|lines|, j requires 0 <= j < |lines| => Pad(k) + lines[j])
  }

  /** Every string value in the tree has at most `MaxShown` bytes. */
  predicate ShortStrings(e: Element)
    decreases e
  {
    match e
    case Int(_, _, _) => true
    case Str(bytes, _, _) => |bytes| <= MaxShown
    case List(items, _, _) => forall i :: 0 <= i < |items| ==> ShortStrings(items[i])
    case Dict(entries, _, _) => forall i :: 0 <= i < |entries| ==> ShortStrings(entries[i].value)
  }

  /** `Pad(i + k)` is `k` spaces followed by `i` spaces. */
  lemma PadAdd(i: nat, k: nat)
    ensures Pad(i + k) == Pad(k) + Pad(i)
  {
  }

  lemma ShiftedConcat(a: seq<seq<char>>, b: seq<seq<char>>, k: nat)
    ensures Shifted(a + b, k) == Shifted(a, k) + Shifted(b, k)
  {
  }

  lemma ShiftedOne(line: seq<char>, k: nat)
    ensures Shifted([line], k) == [Pad(k) + line]
  {
  }

  lemma EntryHeadShifted(key: seq<byte>, head: seq<char>, indent: nat, k: nat)
    ensures EntryHead(key, indent + k) + head == Pad(k) + (EntryHead(key, indent) + head)
  {
    PadAdd(indent, k);
  }

  /**
   * Printing a node attached only drops the pad in front of its first
   * line; at indent 0 the two are the same.
   */
  lemma AttachDropsPad(style: Style, e: Element, indent: nat)
    ensures Lines(style, e, indent, false)
         == [Pad(indent) + Lines(style, e, indent, true)[0]] + Lines(style, e, indent, true)[1..]
    ensures Lines(style, e, 0, false) == Lines(style, e, 0, true)
  {
    var h := Head(style, e);
    assert [] + h == h;
    assert Pad(0) == [];
  }

  /**
   * Nesting: every line of a node printed at `indent` starts with `indent`
   * spaces, except the first line of an attached node, which continues a
   * dictionary entry's line.
   */
  lemma {:induction false} LinesIndented(style: Style, e: Element, indent: nat, attached: bool)
    ensures forall j :: 0 <= j < |Lines(style, e, indent, attached)| && (j > 0 || !attached) ==>
      Indented(Lines(style, e, indent, attached)[j], indent)
    decreases e, 1
  {
    BodyIndented(style, e, indent);
    var r := Lines(style, e, indent, attached);
    forall j | 0 < j < |r| ensures Indented(r[j], indent) {
      assert r[j] == Body(style, e, indent)[j - 1];
    }
  }

  lemma {:induction false} BodyIndented(style: Style, e: Element, indent: nat)
    ensures forall j :: 0 <= j < |Body(style, e, indent)| ==> Indented(Body(style, e, indent)[j], indent)
    decreases e, 0
  {
    var r := Body(style, e, indent);
    match e
    case Int(_, _, _) =>
    case Str(_, _, _) =>
    case List(items, _, _) =>
      var inner := ItemLines(style, items, indent + 2);
      ItemLinesIndented(style, items, indent + 2);
      forall j | 0 <= j < |inner| ensures Indented(r[j], indent) {
        assert r[j] == inner[j];
      }
    case Dict(entries, _, _) =>
      var inner := EntryLines(style, entries, indent);
      EntryLinesIndented(style, entries, indent);
      forall j | 0 <= j < |inner| ensures Indented(r[j], indent) {
        assert r[j] == inner[j];
      }
  }

  lemma {:induction false} ItemLinesIndented(style: Style, items: seq<Element>, indent: nat)
    ensures forall j :: 0 <= j < |ItemLines(style, items, indent)| ==> Indented(ItemLines(style, items, indent)[j], indent)
    decreases items
  {
    if |items| > 0 {
      var first := Lines(style, items[0], indent, false);
      var rest := ItemLines(style, items[1..], indent);
      LinesIndented(style, items[0], indent, false);
      ItemLinesIndented(style, items[1..], indent);
      forall j | 0 <= j < |first| + |rest| ensures Indented((first + rest)[j], indent) {
        if j >= |first| {
          assert (first + rest)[j] == rest[j - |first|];
        }
      }
    }
  }

  lemma {:induction false} EntryLinesIndented(style: Style, entries: seq<Entry<Element>>, indent: nat)
    ensures forall j :: 0 <= j < |EntryLines(style, entries, indent)| ==> Indented(EntryLines(style, entries, indent)[j], indent)
    decreases entries
  {
    if |entries| > 0 {
      var value := entries[0].value;
      var first := [EntryHead(entries[0].key, indent) + Head(style, value)];
      var body := Body(style, value, indent + 4);
      var rest := EntryLines(style, entries[1..], indent);
      BodyIndented(style, value, indent + 4);
      EntryLinesIndented(style, entries[1..], indent);
      forall j | 0 <= j < 1 + |body| + |rest| ensures Indented((first + body + rest)[j], indent) {
        if j == 0 {
        } else if j <= |body| {
          assert (first + body + rest)[j] == body[j - 1];
        } else {
          assert (first + body + rest)[j] == rest[j - 1 - |body|];
        }
      }
    }
  }

  /** Printing a node `k` columns further in puts `k` more spaces in front of every line. */
  lemma {:induction false} LinesShifted(style: Style, e: Element, indent: nat, k: nat)
    ensures Lines(style, e, indent + k, false) == Shifted(Lines(style, e, indent, false), k)
    decreases e, 1
  {
    var h := Head(style, e);
    PadAdd(indent, k);
    assert Pad(indent + k) + h == Pad(k) + (Pad(indent) + h);
    ShiftedOne(Pad(indent) + h, k);
    BodyShifted(style, e, indent, k);
    ShiftedConcat([Pad(indent) + h], Body(style, e, indent), k);
  }

  lemma {:induction false} BodyShifted(style: Style, e: Element, indent: nat, k: nat)
    ensures Body(style, e, indent + k) == Shifted(Body(style, e, indent), k)
    decreases e, 0
  {
    match e
    case Int(_, _, _) =>
    case Str(_, _, _) =>
    case List(items, _, _) =>
      ItemLinesShifted(style, items, indent + 2, k);
      assert indent + k + 2 == indent + 2 + k;
      ClosedShifted(ItemLines(style, items, indent + 2), "]", indent, k);
    case Dict(entries, _, _) =>
      EntryLinesShifted(style, entries, indent, k);
      ClosedShifted(EntryLines(style, entries, indent), "}", indent, k);
  }

  /** Shifting lines closed by a bracket at `indent` moves the bracket to `indent + k`. */
  lemma ClosedShifted(lines: seq<seq<char>>, close: seq<char>, indent: nat, k: nat)
    ensures Shifted(lines + [Pad(indent) + close], k) == Shifted(lines, k) + [Pad(indent + k) + close]
  {
    PadAdd(indent, k);
    assert Pad(indent + k) + close == Pad(k) + (Pad(indent) + close);
    ShiftedOne(Pad(indent) + close, k);
    ShiftedConcat(lines, [Pad(indent) + close], k);
  }

  lemma {:induction false} ItemLinesShifted(style: Style, items: seq<Element>, indent: nat, k: nat)
    ensures ItemLines(style, items, indent + k) == Shifted(ItemLines(style, items, indent), k)
    decreases items
  {
    if |items| > 0 {
      LinesShifted(style, items[0], indent, k);
      ItemLinesShifted(style, items[1..], indent, k);
      ShiftedConcat(Lines(style, items[0], indent, false), ItemLines(style, items[1..], indent), k);
    }
  }

  lemma {:induction false} EntryLinesShifted(style: Style, entries: seq<Entry<Element>>, indent: nat, k: nat)
    ensures EntryLines(style, entries, indent + k) == Shifted(EntryLines(style, entries, indent), k)
    decreases entries
  {
    if |entries| > 0 {
      var value := entries[0].value;
      var first := [EntryHead(entries[0].key, indent) + Head(style, value)];
      var body := Body(style, value, indent + 4);
      var rest := EntryLines(style, entries[1..], indent);
      EntryHeadShifted(entries[0].key, Head(style, value), indent, k);
      ShiftedOne(EntryHead(entries[0].key, indent) + Head(style, value), k);
      BodyShifted(style, value, indent + 4, k);
      assert indent + k + 4 == indent + 4 + k;
      EntryLinesShifted(style, entries[1..], indent, k);
      ShiftedConcat(first, body, k);
      ShiftedConcat(first + body, rest, k);
    }
  }

  /** With no string longer than `MaxShown`, shortening strings changes nothing. */
  lemma {:induction false} ShortStringsShownWhole(e: Element, indent: nat, attached: bool)
    requires ShortStrings(e)
    ensures Lines(Shortened, e, indent, attached) == Lines(Whole, e, indent, attached)
    decreases e, 1
  {
    BodyShownWhole(e, indent);
  }

  lemma {:induction false} BodyShownWhole(e: Element, indent: nat)
    requires ShortStrings(e)
    ensures Head(Shortened, e) == Head(Whole, e)
    ensures Body(Shortened, e, indent) == Body(Whole, e, indent)
    decreases e, 0
  {
    match e
    case Int(_, _, _) =>
    case Str(_, _, _) =>
    case List(items, _, _) =>
      ItemsShownWhole(items, indent + 2);
    case Dict(entries, _, _) =>
      EntriesShownWhole(entries, indent);
  }

  lemma {:induction false} ItemsShownWhole(items: seq<Element>, indent: nat)
    requires forall i :: 0 <= i < |items| ==> ShortStrings(items[i])
    ensures ItemLines(Shortened, items, indent) == ItemLines(Whole, items, indent)
    decreases items
  {
    if |items| > 0 {
      ShortStringsShownWhole(items[0], indent, false);
      ItemsShownWhole(items[1..], indent);
    }
  }

  lemma {:induction false} EntriesShownWhole(entries: seq<Entry<Element>>, indent: nat)
    requires forall i :: 0 <= i < |entries| ==> ShortStrings(entries[i].value)
    ensures EntryLines(Shortened, entries, indent) == EntryLines(Whole, entries, indent)
    decreases entries
  {
    if |entries| > 0 {
      BodyShownWhole(entries[0].value, indent + 4);
      EntriesShownWhole(entries[1..], indent);
    }
  }

  /**
   * The two printers agree: when no string needs shortening,
   * `pretty_print` prints the lines of `Display`, each two spaces further in.
   */
  lemma PrettyPrintShiftsDisplay(e: Element)
    requires ShortStrings(e)
    ensures PrettyPrintLines(e) == Shifted(DisplayLines(e), 2)
  {
    ShortStringsShownWhole(e, 2, false);
    LinesShifted(Whole, e, 0, 2);
    AttachDropsPad(Whole, e, 0);
  }

  /**
   * `pretty_print` of a string value: one line, two spaces and a quote,
   * then the string itself if it fits in `MaxShown` chars, else its first
   * 117 chars and "..." before the closing quote.
   */
  lemma PrettyPrintStr(bytes: seq<byte>, start: nat, end: nat)
    ensures var r := PrettyPrintLines(Str(bytes, start, end));
      && |r| == 1 && |r[0]| <= MaxShown + 4 && r[0][..3] == "  \""
      && (|bytes| <= MaxShown ==> r[0] == "  \"" + Chars(bytes) + "\"")
      && (|bytes| > MaxShown ==>
            && r[0][3..MaxShown] == Chars(bytes)[..MaxShown - 3]
            && r[0][MaxShown..] == "...\"")
  {
    var e := Str(bytes, start, end);
    var line := "  \"" + Shown(Shortened, bytes) + "\"";
    assert Pad(2) == "  ";
    assert Lead(2, false) + Head(Shortened, e) == line;
    assert Body(Shortened, e, 2) == [];
    assert PrettyPrintLines(e) == [line];
    QuotedShortened(line, bytes);
  }

  lemma QuotedShortened(line: seq<char>, bytes: seq<byte>)
    requires line == "  \"" + Shown(Shortened, bytes) + "\""
    ensures |line| <= MaxShown + 4 && line[..3] == "  \""
    ensures |bytes| <= MaxShown ==> line == "  \"" + Chars(bytes) + "\""
    ensures |bytes| > MaxShown ==>
      line[3..MaxShown] == Chars(bytes)[..MaxShown - 3] && line[MaxShown..] == "...\""
  {
    var shown := Shown(Shortened, bytes);
    if |bytes| > MaxShown {
      assert line[3..MaxShown] == shown[..MaxShown - 3];
      assert line[MaxShown..] == shown[MaxShown - 3..] + "\"";
    }
  }

  /**
   * `Display` of an integer: one line holding its decimal text, which
   * Rust's `i64` parser reads back as the same value.
   */
  lemma DisplayInt(v: int, start: nat, end: nat)
    requires MinI64 <= v <= MaxI64
    ensures DisplayLines(Int(v, start, end)) == [Chars(Decimal(v))]
    ensures ParseI64(Decimal(v)) == Some(v)
  {
    var h := Chars(Decimal(v));
    assert [] + h == h;
    ParseDecimal(v, MinI64, MaxI64);
  }

  /** A list prints its items in order: the lines of `a + b` are those of `a`, then those of `b`. */
  lemma {:induction false} ItemLinesConcat(style: Style, a: seq<Element>, b: seq<Element>, indent: nat)
    ensures ItemLines(style, a + b, indent) == ItemLines(style, a, indent) + ItemLines(style, b, indent)
    decreases a
  {
    if |a| > 0 {
      assert (a + b)[0] == a[0];
      assert (a + b)[1..] == a[1..] + b;
      ItemLinesConcat(style, a[1..], b, indent);
    } else {
      assert a + b == b;
    }
  }

  /**
   * A dictionary prints its entries in the map's order (ascending keys for
   * every decoded dictionary): the lines of `a + b` are those of `a`, then
   * those of `b`.
   */
  lemma {:induction false} EntryLinesConcat(style: Style, a: seq<Entry<Element>>, b: seq<Entry<Element>>, indent: nat)
    ensures EntryLines(style, a + b, indent) == EntryLines(style, a, indent) + EntryLines(style, b, indent)
    decreases a
  {
    if |a| > 0 {
      assert (a + b)[0] == a[0];
      assert (a + b)[1..] == a[1..] + b;
      EntryLinesConcat(style, a[1..], b, indent);
    } else {
      assert a + b == b;
    }
  }

  /**
   * One entry prints `pad  "key": ` continued by its value's head, then
   * the rest of its value's lines at `indent + 4`.
   */
  lemma EntryLinesOne(style: Style, en: Entry<Element>, indent: nat)
    ensures EntryLines(style, [en], indent)
         == [Pad(indent) + "  \"" + Chars(en.key) + "\": " + Lines(style, en.value, indent + 4, true)[0]]
            + Lines(style, en.value, indent + 4, false)[1..]
  {
    var h := Head(style, en.value);
    assert [] + h == h;
    assert [en][1..] == [];
  }
}
