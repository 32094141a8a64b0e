/**
 * `decode_int` does not step past its closing 'e' (src/bencoding.rs:314-327),
 * unlike `decode_str`, `decode_list` and `decode_dict`. Inside a list or a
 * dictionary, the container's loop then reads that 'e' as its own end.
 *
 * As written (mode AsWritten), "li1ee" yields a list whose integer ends on
 * the list's own last byte, and "li1ei2ee" and "d1:ai1e1:ai2ee" lose
 * everything after their first integer. With the corrected `decode_int`
 * (mode Corrected) every child of a decoded list or dictionary lies
 * strictly inside its parent, and the same inputs decode completely.
 */
module Findings {
  import opened Numbers
  import opened OrderedMap
  import opened BencodeElement
  import opened Reader
  import opened DecodeSpec
  import opened DecodeProperties
  import opened DecodeRuns

  /** Every child of a well-formed list or dictionary lies inside it, in either mode. */
  lemma ChildrenWithin(mode: Mode, input: seq<byte>, e: Element)
    requires WellFormed(mode, input, e)
    ensures e.List? ==> forall i :: 0 <= i < |e.items| ==> Within(mode, e.items[i], e)
    ensures e.Dict? ==> forall en :: en in e.entries ==> Within(mode, en.value, e)
  {
    if e.Dict? {
      DictEntriesWithin(mode, input, e);
    }
  }

  /**
   * With the corrected `decode_int`, every child of a decoded list or
   * dictionary starts after its parent's first byte and ends before its
   * parent's last byte.
   */
  lemma DecodedChildrenInside(input: seq<byte>)
    ensures var r := Decode(Corrected, input).result;
      && (r.Ok? && r.value.List? ==>
            forall i :: 0 <= i < |r.value.items| ==>
              r.value.startIndex < r.value.items[i].startIndex && r.value.items[i].endIndex < r.value.endIndex)
      && (r.Ok? && r.value.Dict? ==>
            forall en :: en in r.value.entries ==>
              r.value.startIndex < en.value.startIndex && en.value.endIndex < r.value.endIndex)
  {
    ElementShape(Corrected, input, StepCursor(input, Fresh));
    var r := Decode(Corrected, input).result;
    if r.Ok? {
      ChildrenWithin(Corrected, input, r.value);
    }
  }

  // "li1ee"
  const OneIntList: seq<byte> := [108, 105, 49, 101, 101]

  /** As written, the integer in "li1ee" ends on the list's own closing byte. */
  lemma OneIntListAsWritten()
    ensures Decode(AsWritten, OneIntList).result == Ok(List([Int(1, 1, 3)], 0, 3))
    ensures var e := Decode(AsWritten, OneIntList).result.value; e.items[0].endIndex == e.endIndex
  {
    var s := OneIntList;
    assert StepCursor(s, Fresh) == On(s, 0);
    ElementOnList(AsWritten, s, 0);
    assert StepCursor(s, On(s, 0)) == On(s, 1);
    assert s[2..3] == [49] == Decimal(1);
    ParseDecimal(1, MinI64, MaxI64);
    ElementOnInt(AsWritten, s, 1);
    IntSpecAt(AsWritten, s, 1, 3, 1);
    ListItemsNext(AsWritten, s, 1, 0, []);
    assert [] + [Int(1, 1, 3)] == [Int(1, 1, 3)];
    ListItemsEnd(AsWritten, s, 3, 0, [Int(1, 1, 3)]);
  }

  /** Corrected, "li1ee" is a list from offset 0 to 4 holding the integer at 1..3. */
  lemma OneIntListCorrected()
    ensures Decode(Corrected, OneIntList).result == Ok(List([Int(1, 1, 3)], 0, 4))
  {
    var s := OneIntList;
    assert StepCursor(s, Fresh) == On(s, 0);
    ElementOnList(Corrected, s, 0);
    assert StepCursor(s, On(s, 0)) == On(s, 1);
    assert s[2..3] == [49] == Decimal(1);
    ParseDecimal(1, MinI64, MaxI64);
    ElementOnInt(Corrected, s, 1);
    IntSpecAt(Corrected, s, 1, 3, 1);
    assert StepCursor(s, On(s, 3)) == On(s, 4);
    ListItemsNext(Corrected, s, 1, 0, []);
    assert [] + [Int(1, 1, 3)] == [Int(1, 1, 3)];
    ListItemsEnd(Corrected, s, 4, 0, [Int(1, 1, 3)]);
  }

  // "li1ei2ee"
  const TwoIntList: seq<byte> := [108, 105, 49, 101, 105, 50, 101, 101]

  /** As written, "li1ei2ee" decodes to a list holding only its first integer, ending at offset 3. */
  lemma TwoIntListAsWritten()
    ensures Decode(AsWritten, TwoIntList).result == Ok(List([Int(1, 1, 3)], 0, 3))
  {
    var s := TwoIntList;
    assert StepCursor(s, Fresh) == On(s, 0);
    ElementOnList(AsWritten, s, 0);
    assert StepCursor(s, On(s, 0)) == On(s, 1);
    assert s[2..3] == [49] == Decimal(1);
    ParseDecimal(1, MinI64, MaxI64);
    ElementOnInt(AsWritten, s, 1);
    IntSpecAt(AsWritten, s, 1, 3, 1);
    ListItemsNext(AsWritten, s, 1, 0, []);
    assert [] + [Int(1, 1, 3)] == [Int(1, 1, 3)];
    ListItemsEnd(AsWritten, s, 3, 0, [Int(1, 1, 3)]);
  }

  /** Corrected, "li1ei2ee" is the list of both integers. */
  lemma TwoIntListCorrected()
    ensures Decode(Corrected, TwoIntList).result == Ok(List([Int(1, 1, 3), Int(2, 4, 6)], 0, 7))
  {
    var s := TwoIntList;
    TwoIntItemsCorrected();
    assert StepCursor(s, Fresh) == On(s, 0);
    ElementOnList(Corrected, s, 0);
    assert StepCursor(s, On(s, 0)) == On(s, 1);
    ListItemsNext(Corrected, s, 1, 0, []);
    ListItemsNext(Corrected, s, 4, 0, [Int(1, 1, 3)]);
    assert [] + [Int(1, 1, 3)] == [Int(1, 1, 3)];
    assert [Int(1, 1, 3)] + [Int(2, 4, 6)] == [Int(1, 1, 3), Int(2, 4, 6)];
    ListItemsEnd(Corrected, s, 7, 0, [Int(1, 1, 3), Int(2, 4, 6)]);
  }

  /** The two integers of "li1ei2ee", each followed by the next byte when corrected. */
  lemma TwoIntItemsCorrected()
    ensures var s := TwoIntList;
      && ElementSpec(Corrected, s, On(s, 1)) == Step(Ok(Int(1, 1, 3)), On(s, 4))
      && ElementSpec(Corrected, s, On(s, 4)) == Step(Ok(Int(2, 4, 6)), On(s, 7))
  {
    var s := TwoIntList;
    assert s[2..3] == [49] == Decimal(1);
    assert s[5..6] == [50] == Decimal(2);
    ParseDecimal(1, MinI64, MaxI64);
    ParseDecimal(2, MinI64, MaxI64);
    ElementOnInt(Corrected, s, 1);
    IntSpecAt(Corrected, s, 1, 3, 1);
    assert StepCursor(s, On(s, 3)) == On(s, 4);
    ElementOnInt(Corrected, s, 4);
    IntSpecAt(Corrected, s, 4, 6, 2);
    assert StepCursor(s, On(s, 6)) == On(s, 7);
  }

  // "d1:ai1e1:ai2ee"
  const RepeatedKeyDict: seq<byte> := [100, 49, 58, 97, 105, 49, 101, 49, 58, 97, 105, 50, 101, 101]

  /** The key "a" of "d1:ai1e1:ai2ee" at `k`, for both of its occurrences. */
  lemma RepeatedKeyKey(k: nat)
    requires k == 1 || k == 7
    ensures var s := RepeatedKeyDict;
      StrSpec(s, On(s, k)) == Step(Ok(Str([97], k, k + 2)), On(s, k + 3))
  {
    var s := RepeatedKeyDict;
    assert s[k..k + 1] == [49] == Decimal(1);
    assert s[k + 2..k + 3] == [97];
    ParseDecimal(1, MinI32, MaxI32);
    StrSpecAt(s, k, k + 1, 1);
    assert StepCursor(s, On(s, k + 2)) == On(s, k + 3);
  }

  /** The first value of "d1:ai1e1:ai2ee" in both modes. */
  lemma RepeatedKeyFirstValue()
    ensures var s := RepeatedKeyDict;
      && ElementSpec(AsWritten, s, On(s, 4)) == Step(Ok(Int(1, 4, 6)), On(s, 6))
      && ElementSpec(Corrected, s, On(s, 4)) == Step(Ok(Int(1, 4, 6)), On(s, 7))
  {
    var s := RepeatedKeyDict;
    assert s[5..6] == [49] == Decimal(1);
    ParseDecimal(1, MinI64, MaxI64);
    ElementOnInt(AsWritten, s, 4);
    IntSpecAt(AsWritten, s, 4, 6, 1);
    ElementOnInt(Corrected, s, 4);
    IntSpecAt(Corrected, s, 4, 6, 1);
    assert StepCursor(s, On(s, 6)) == On(s, 7);
  }

  /** The second value of "d1:ai1e1:ai2ee", corrected. */
  lemma RepeatedKeySecondValue()
    ensures var s := RepeatedKeyDict;
      ElementSpec(Corrected, s, On(s, 10)) == Step(Ok(Int(2, 10, 12)), On(s, 13))
  {
    var s := RepeatedKeyDict;
    assert s[11..12] == [50] == Decimal(2);
    ParseDecimal(2, MinI64, MaxI64);
    ElementOnInt(Corrected, s, 10);
    IntSpecAt(Corrected, s, 10, 12, 2);
    assert StepCursor(s, On(s, 12)) == On(s, 13);
  }

  /** As written, "d1:ai1e1:ai2ee" closes after its first value: the map {"a": 1} at offsets 0..6. */
  lemma RepeatedKeyAsWritten()
    ensures Decode(AsWritten, RepeatedKeyDict).result == Ok(Dict([Entry([97], Int(1, 4, 6))], 0, 6))
  {
    RepeatedKeyKey(1);
    RepeatedKeyFirstValue();
    FirstPairCloses(RepeatedKeyDict);
  }

  lemma FirstPairCloses(s: seq<byte>)
    requires |s| == 14 && s[0] == DictTag && s[1] == 49 && s[6] == EndTag
    requires StrSpec(s, On(s, 1)) == Step(Ok(Str([97], 1, 3)), On(s, 4))
    requires ElementSpec(AsWritten, s, On(s, 4)) == Step(Ok(Int(1, 4, 6)), On(s, 6))
    ensures Decode(AsWritten, s).result == Ok(Dict([Entry([97], Int(1, 4, 6))], 0, 6))
  {
    assert StepCursor(s, Fresh) == On(s, 0);
    ElementOnDict(AsWritten, s, 0);
    assert StepCursor(s, On(s, 0)) == On(s, 1);
    DictEntriesNext(AsWritten, s, 1, 0, []);
    assert Insert([], [97], Int(1, 4, 6)) == [Entry([97], Int(1, 4, 6))];
    DictEntriesEnd(AsWritten, s, 6, 0, [Entry([97], Int(1, 4, 6))]);
  }

  /** Corrected, "d1:ai1e1:ai2ee" reads both pairs, and the later value of the repeated key wins. */
  lemma RepeatedKeyCorrected()
    ensures Decode(Corrected, RepeatedKeyDict).result == Ok(Dict([Entry([97], Int(2, 10, 12))], 0, 13))
  {
    var s := RepeatedKeyDict;
    RepeatedKeyKey(1);
    RepeatedKeyKey(7);
    RepeatedKeyFirstValue();
    RepeatedKeySecondValue();
    assert StepCursor(s, Fresh) == On(s, 0);
    ElementOnDict(Corrected, s, 0);
    assert StepCursor(s, On(s, 0)) == On(s, 1);
    DictEntriesNext(Corrected, s, 1, 0, []);
    assert Insert([], [97], Int(1, 4, 6)) == [Entry([97], Int(1, 4, 6))];
    DictEntriesNext(Corrected, s, 7, 0, [Entry([97], Int(1, 4, 6))]);
    assert Insert([Entry([97], Int(1, 4, 6))], [97], Int(2, 10, 12)) == [Entry([97], Int(2, 10, 12))];
    DictEntriesEnd(Corrected, s, 13, 0, [Entry([97], Int(2, 10, 12))]);
  }
}
