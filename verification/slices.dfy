/**
 * The bytes of a decoded element, cut out of the input, decode on their
 * own to the same tree with its offsets counted from the cut. This is what
 * makes the info-hash bytes of a torrent stand for its info dictionary.
 */
module Slices {
  import opened Numbers
  import opened OrderedMap
  import opened BencodeElement
  import opened DecodeSpec
  import opened Reader
  import opened DecodeProperties
  import opened DecodeComplete

  /** An offset counted from `d` instead of from the start (0 for one before `d`). */
  function Back(x: nat, d: nat): nat {
    if d <= x then x - d else 0
  }

  /** `e` with every offset in it counted from `d`. */
  function Moved(e: Element, d: nat): (r: Element)
    ensures r.startIndex == Back(e.startIndex, d) && r.endIndex == Back(e.endIndex, d)
    ensures r.Int? == e.Int? && r.Str? == e.Str? && r.List? == e.List? && r.Dict? == e.Dict?
    decreases e
  {
    match e
    case Int(v, s, t) => Int(v, Back(s, d), Back(t, d))
    case Str(bytes, s, t) => Str(bytes, Back(s, d), Back(t, d))
    case List(items, s, t) => List(MovedItems(items, d), Back(s, d), Back(t, d))
    case Dict(entries, s, t) => Dict(MovedEntries(entries, d), Back(s, d), Back(t, d))
  }

  function MovedItems(items: seq<Element>, d: nat): (r: seq<Element>)
    ensures |r| == |items|
    decreases items
  {
    if |items| == 0 then [] else [Moved(items[0], d)] + MovedItems(items[1..], d)
  }

  function MovedEntries(entries: seq<Entry<Element>>, d: nat): (r: seq<Entry<Element>>)
    ensures |r| == |entries|
    decreases entries
  {
    if |entries| == 0 then []
    else [Entry(entries[0].key, Moved(entries[0].value, d))] + MovedEntries(entries[1..], d)
  }

  lemma {:induction false} MovedItemsAt(items: seq<Element>, d: nat)
    ensures forall i :: 0 <= i < |items| ==> MovedItems(items, d)[i] == Moved(items[i], d)
    decreases |items|
  {
    if |items| > 0 {
      MovedItemsAt(items[1..], d);
      assert forall i :: 1 <= i < |items| ==> items[1..][i - 1] == items[i];
    }
  }

  function MovedPair(p: Pair, d: nat): Pair {
    Pair(p.key, Back(p.keyStart, d), Back(p.keyEnd, d), Moved(p.value, d))
  }

  function MovedPairs(pairs: seq<Pair>, d: nat): (r: seq<Pair>)
    ensures |r| == |pairs| && forall i :: 0 <= i < |pairs| ==> r[i] == MovedPair(pairs[i], d)
  {
    seq(|pairs|, i requires 0 <= i < |pairs| => MovedPair(pairs[i], d))
  }

  /** Moving offsets does not touch keys, so inserting commutes with it. */
  lemma {:induction false} InsertMoved(es: seq<Entry<Element>>, k: seq<byte>, v: Element, d: nat)
    ensures Insert(MovedEntries(es, d), k, Moved(v, d)) == MovedEntries(Insert(es, k, v), d)
    decreases |es|
  {
    if |es| > 0 {
      var m := MovedEntries(es, d);
      assert m[0].key == es[0].key && m[1..] == MovedEntries(es[1..], d);
      if es[0].key != k && !Less(k, es[0].key) {
        InsertMoved(es[1..], k, v, d);
      }
    }
  }

  lemma {:induction false} InsertedMoved(pairs: seq<Pair>, d: nat)
    ensures Inserted(MovedPairs(pairs, d)) == MovedEntries(Inserted(pairs), d)
    decreases |pairs|
  {
    if |pairs| > 0 {
      var n := |pairs| - 1;
      assert MovedPairs(pairs, d)[..n] == MovedPairs(pairs[..n], d);
      InsertedMoved(pairs[..n], d);
      InsertMoved(Inserted(pairs[..n]), pairs[n].key, pairs[n].value, d);
    }
  }

  /** A run of bytes inside the window `input[lo..hi]`, counted from `lo`. */
  lemma Window(input: seq<byte>, lo: nat, hi: nat, a: nat, b: nat)
    requires lo <= a <= b <= hi <= |input|
    ensures input[lo..hi][a - lo..b - lo] == input[a..b]
  {
    assert forall i :: 0 <= i < b - a ==> input[lo..hi][a - lo..b - lo][i] == input[a..b][i];
  }

  /** A byte inside the window `input[lo..hi]`, counted from `lo`. */
  lemma WindowAt(input: seq<byte>, lo: nat, hi: nat, k: nat)
    requires lo <= k < hi <= |input|
    ensures k - lo < |input[lo..hi]| && input[lo..hi][k - lo] == input[k]
  {
  }

  /** A string placed in `input` is placed in any window of it that holds its bytes. */
  lemma StrPlacedMoved(input: seq<byte>, e: Element, lo: nat, hi: nat)
    requires StrPlaced(input, e, e.startIndex) && lo <= e.startIndex && e.endIndex < hi <= |input|
    ensures StrPlaced(input[lo..hi], Moved(e, lo), e.startIndex - lo)
  {
    var w := input[lo..hi];
    var colon := e.endIndex - |e.bytes|;
    Window(input, lo, hi, e.startIndex, colon);
    Window(input, lo, hi, colon + 1, e.endIndex + 1);
  }

  lemma IntMoved(mode: Mode, input: seq<byte>, e: Element, lo: nat, hi: nat)
    requires WellFormed(mode, input, e) && e.Int? && lo <= e.startIndex && e.endIndex < hi <= |input|
    ensures WellFormed(mode, input[lo..hi], Moved(e, lo))
  {
    Window(input, lo, hi, e.startIndex + 1, e.endIndex);
  }

  lemma StrMoved(mode: Mode, input: seq<byte>, e: Element, lo: nat, hi: nat)
    requires WellFormed(mode, input, e) && e.Str? && lo <= e.startIndex && e.endIndex < hi <= |input|
    ensures WellFormed(mode, input[lo..hi], Moved(e, lo))
  {
    StrWellFormedPlaced(mode, input, e);
    StrPlacedMoved(input, e, lo, hi);
    StrPlacedWellFormed(mode, input[lo..hi], Moved(e, lo));
  }

  /**
   * A well-formed element that lies between `lo` and `hi` is well formed,
   * with its offsets counted from `lo`, in the bytes `input[lo..hi]`.
   */
  lemma {:induction false} WellFormedMoved(mode: Mode, input: seq<byte>, e: Element, lo: nat, hi: nat)
    requires WellFormed(mode, input, e) && lo <= e.startIndex && e.endIndex < hi <= |input|
    ensures WellFormed(mode, input[lo..hi], Moved(e, lo))
    decreases Span(e), 5
  {
    if e.Int? {
      IntMoved(mode, input, e, lo, hi);
    } else if e.Str? {
      StrMoved(mode, input, e, lo, hi);
    } else if e.List? {
      ListMoved(mode, input, e.startIndex, e.items, e.endIndex, lo, hi);
    } else {
      DictTiledMoved(mode, input, e, lo, hi);
    }
  }

  lemma DictTiledMoved(mode: Mode, input: seq<byte>, e: Element, lo: nat, hi: nat)
    requires e.Dict? && WellFormed(mode, input, e) && lo <= e.startIndex && e.endIndex < hi <= |input|
    ensures WellFormed(mode, input[lo..hi], Moved(e, lo))
    decreases Span(e), 4
  {
    var pairs: seq<Pair> :| PairsTiled(mode, input, e.startIndex, pairs, e.endIndex) && e.entries == Inserted(pairs);
    PairsMoved(mode, input, e.startIndex, pairs, e.endIndex, lo, hi);
    DictWindow(mode, input, lo, hi, e, pairs);
  }

  /** A dictionary whose moved pairs are laid out in the window is well formed there. */
  lemma DictWindow(mode: Mode, input: seq<byte>, lo: nat, hi: nat, e: Element, pairs: seq<Pair>)
    requires e.Dict? && lo <= e.startIndex < e.endIndex < hi <= |input|
    requires input[e.startIndex] == DictTag && input[e.endIndex] == EndTag && e.entries == Inserted(pairs)
    requires PairsTiled(mode, input[lo..hi], e.startIndex - lo, MovedPairs(pairs, lo), e.endIndex - lo)
    ensures WellFormed(mode, input[lo..hi], Moved(e, lo))
  {
    MovedDict(e, pairs, lo);
    DictMoved(mode, input, lo, hi, Moved(e, lo), e.startIndex, MovedPairs(pairs, lo), e.endIndex);
  }

  /** Moving a dictionary moves the pairs it was built from. */
  lemma MovedDict(e: Element, pairs: seq<Pair>, lo: nat)
    requires e.Dict? && e.entries == Inserted(pairs) && lo <= e.startIndex <= e.endIndex
    ensures Moved(e, lo) == Dict(Inserted(MovedPairs(pairs, lo)), e.startIndex - lo, e.endIndex - lo)
  {
    InsertedMoved(pairs, lo);
  }

  /** Where a moved element lies and frees the input, when it lies after `d`. */
  lemma MovedAt(mode: Mode, x: Element, d: nat)
    requires d <= x.startIndex <= x.endIndex
    ensures Moved(x, d).startIndex == x.startIndex - d && Moved(x, d).endIndex == x.endIndex - d
    ensures NextFree(mode, Moved(x, d)) == NextFree(mode, x) - d
  {
  }

  lemma ListMoved(mode: Mode, input: seq<byte>, s: nat, items: seq<Element>, t: nat, lo: nat, hi: nat)
    requires lo <= s < t < hi <= |input|
    requires input[s] == ListTag && input[t] == EndTag && Tiled(mode, input, s, items, t)
    ensures WellFormed(mode, input[lo..hi], Moved(List(items, s, t), lo))
    decreases t - s, 2
  {
    ItemsMoved(mode, input, s, items, t, lo, hi);
  }

  /** The items of a list, moved together with the window they lie in. */
  lemma ItemsMoved(mode: Mode, input: seq<byte>, s: nat, items: seq<Element>, t: nat, lo: nat, hi: nat)
    requires Tiled(mode, input, s, items, t) && lo <= s && t < hi <= |input|
    ensures Tiled(mode, input[lo..hi], s - lo, MovedItems(items, lo), t - lo)
    decreases t - s, 1
  {
    var m := MovedItems(items, lo);
    MovedItemsAt(items, lo);
    forall i | 0 <= i < |items|
      ensures s - lo < m[i].startIndex < m[i].endIndex && NextFree(mode, m[i]) <= t - lo
      ensures WellFormed(mode, input[lo..hi], m[i])
    {
      ItemMoved(mode, input, s, items[i], t, lo, hi);
    }
    ItemsChainMoved(mode, input, s, items, t, lo);
  }

  lemma ItemMoved(mode: Mode, input: seq<byte>, s: nat, x: Element, t: nat, lo: nat, hi: nat)
    requires s < x.startIndex < x.endIndex && NextFree(mode, x) <= t && WellFormed(mode, input, x)
    requires lo <= s && t < hi <= |input|
    ensures s - lo < Moved(x, lo).startIndex < Moved(x, lo).endIndex && NextFree(mode, Moved(x, lo)) <= t - lo
    ensures WellFormed(mode, input[lo..hi], Moved(x, lo))
    decreases t - s, 0
  {
    MovedAt(mode, x, lo);
    WellFormedMoved(mode, input, x, lo, hi);
  }

  lemma ItemsChainMoved(mode: Mode, input: seq<byte>, s: nat, items: seq<Element>, t: nat, lo: nat)
    requires Tiled(mode, input, s, items, t) && lo <= s
    ensures var m := MovedItems(items, lo);
      && (if |m| == 0 then t - lo == s - lo + 1
          else m[0].startIndex == s - lo + 1 && NextFree(mode, m[|m| - 1]) == t - lo)
      && (forall i :: 0 < i < |m| ==> m[i].startIndex == NextFree(mode, m[i - 1]))
  {
    MovedItemsAt(items, lo);
    forall i | 0 <= i < |items|
      ensures MovedItems(items, lo)[i].startIndex == items[i].startIndex - lo
      ensures NextFree(mode, MovedItems(items, lo)[i]) == NextFree(mode, items[i]) - lo
    {
      MovedAt(mode, items[i], lo);
    }
  }

  /** Pairs laid out in a window between a 'd' and an 'e' make a well-formed dictionary there. */
  lemma DictMoved(mode: Mode, input: seq<byte>, lo: nat, hi: nat, x: Element, s: nat, pairs: seq<Pair>, t: nat)
    requires lo <= s < t < hi <= |input| && input[s] == DictTag && input[t] == EndTag
    requires PairsTiled(mode, input[lo..hi], s - lo, pairs, t - lo) && x == Dict(Inserted(pairs), s - lo, t - lo)
    ensures WellFormed(mode, input[lo..hi], x)
  {
    WindowAt(input, lo, hi, s);
    WindowAt(input, lo, hi, t);
  }

  /** The pairs of a dictionary, moved together with the window they lie in. */
  lemma PairsMoved(mode: Mode, input: seq<byte>, s: nat, pairs: seq<Pair>, t: nat, lo: nat, hi: nat)
    requires PairsTiled(mode, input, s, pairs, t) && lo <= s < t < hi <= |input|
    ensures PairsTiled(mode, input[lo..hi], s - lo, MovedPairs(pairs, lo), t - lo)
    decreases t - s, 2
  {
    PairsComponentsMoved(mode, input, s, pairs, t, lo, hi);
    PairsTiledFrom(mode, input[lo..hi], s - lo, MovedPairs(pairs, lo), t - lo);
  }

  lemma PairsTiledFrom(mode: Mode, w: seq<byte>, s: nat, pairs: seq<Pair>, t: nat)
    requires forall i :: 0 <= i < |pairs| ==> PairPlaced(mode, w, s, pairs[i], t)
    requires if |pairs| == 0 then t == s + 1
             else pairs[0].keyStart == s + 1 && NextFree(mode, pairs[|pairs| - 1].value) == t
    requires forall i :: 0 < i < |pairs| ==> pairs[i].keyStart == NextFree(mode, pairs[i - 1].value)
    ensures PairsTiled(mode, w, s, pairs, t)
  {
  }

  lemma PairsComponentsMoved(mode: Mode, input: seq<byte>, s: nat, pairs: seq<Pair>, t: nat, lo: nat, hi: nat)
    requires PairsTiled(mode, input, s, pairs, t) && lo <= s < t < hi <= |input|
    ensures var m := MovedPairs(pairs, lo);
      && (forall i :: 0 <= i < |m| ==> PairPlaced(mode, input[lo..hi], s - lo, m[i], t - lo))
      && (if |m| == 0 then t - lo == s - lo + 1
          else m[0].keyStart == s - lo + 1 && NextFree(mode, m[|m| - 1].value) == t - lo)
      && (forall i :: 0 < i < |m| ==> m[i].keyStart == NextFree(mode, m[i - 1].value))
    decreases t - s, 1
  {
    var m := MovedPairs(pairs, lo);
    forall i | 0 <= i < |pairs|
      ensures PairPlaced(mode, input[lo..hi], s - lo, m[i], t - lo)
    {
      PairMoved(mode, input, s, pairs[i], t, lo, hi);
    }
    forall i | 0 <= i < |pairs|
      ensures s < pairs[i].keyStart < pairs[i].value.startIndex < pairs[i].value.endIndex
    {
      PairSpan(mode, input, s, pairs[i], t);
    }
    PairsChainMoved(mode, s, pairs, t, lo);
  }

  lemma PairsChainMoved(mode: Mode, s: nat, pairs: seq<Pair>, t: nat, lo: nat)
    requires lo <= s
    requires forall i :: 0 <= i < |pairs| ==> s < pairs[i].keyStart < pairs[i].value.startIndex < pairs[i].value.endIndex
    requires if |pairs| == 0 then t == s + 1
             else pairs[0].keyStart == s + 1 && NextFree(mode, pairs[|pairs| - 1].value) == t
    requires forall i :: 0 < i < |pairs| ==> pairs[i].keyStart == NextFree(mode, pairs[i - 1].value)
    ensures var m := MovedPairs(pairs, lo);
      && (if |m| == 0 then t - lo == s - lo + 1
          else m[0].keyStart == s - lo + 1 && NextFree(mode, m[|m| - 1].value) == t - lo)
      && (forall i :: 0 < i < |m| ==> m[i].keyStart == NextFree(mode, m[i - 1].value))
  {
    forall i | 0 <= i < |pairs|
      ensures MovedPairs(pairs, lo)[i].keyStart == pairs[i].keyStart - lo
      ensures NextFree(mode, MovedPairs(pairs, lo)[i].value) == NextFree(mode, pairs[i].value) - lo
    {
      MovedAt(mode, pairs[i].value, lo);
    }
  }

  lemma PairSpan(mode: Mode, input: seq<byte>, s: nat, p: Pair, t: nat)
    requires PairPlaced(mode, input, s, p, t)
    ensures s < p.keyStart < p.value.startIndex < p.value.endIndex
  {
  }

  lemma PairMoved(mode: Mode, input: seq<byte>, s: nat, p: Pair, t: nat, lo: nat, hi: nat)
    requires lo <= s && t < hi <= |input|
    requires PairPlaced(mode, input, s, p, t)
    ensures PairPlaced(mode, input[lo..hi], s - lo, MovedPair(p, lo), t - lo)
    decreases t - s, 0
  {
    StrPlacedMoved(input, KeyElement(p), lo, hi);
    assert Moved(KeyElement(p), lo) == KeyElement(MovedPair(p, lo));
    MovedAt(mode, p.value, lo);
    WellFormedMoved(mode, input, p.value, lo, hi);
  }

  /**
   * The bytes of a well-formed element, cut out of the input, decode on
   * their own to the same element with its offsets counted from its first
   * byte.
   */
  lemma SliceDecodes(mode: Mode, input: seq<byte>, e: Element)
    requires WellFormed(mode, input, e)
    ensures Decode(mode, input[e.startIndex..e.endIndex + 1]).result == Ok(Moved(e, e.startIndex))
  {
    WellFormedMoved(mode, input, e, e.startIndex, e.endIndex + 1);
    DecodeExactly(mode, input[e.startIndex..e.endIndex + 1], Moved(e, e.startIndex));
  }

  /**
   * Whatever `decode_element` decodes at offset `k` lies in the input, and
   * its bytes alone decode to it, shifted by `k`.
   */
  lemma ElementSliceDecodes(mode: Mode, input: seq<byte>, k: nat)
    requires k < |input| && ElementSpec(mode, input, On(input, k)).result.Ok?
    ensures var e := ElementSpec(mode, input, On(input, k)).result.value;
      && e.startIndex == k && k < e.endIndex < |input|
      && Decode(mode, input[k..e.endIndex + 1]).result == Ok(Moved(e, k))
  {
    ElementShape(mode, input, On(input, k));
    var e := ElementSpec(mode, input, On(input, k)).result.value;
    WellFormedSpan(mode, input, e);
    SliceDecodes(mode, input, e);
  }
}
