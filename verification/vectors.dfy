/**
 * The decoder on concrete inputs: the unit tests of src/bencoding.rs,
 * the failure modes, and the inputs behind the findings in the README.
 * Each input is written out as its bytes, with the text in a comment.
 */
module Vectors {
  import opened Numbers
  import opened OrderedMap
  import opened BencodeElement
  import opened Reader
  import opened DecodeSpec
  import opened DecodeProperties
  import opened DecodeRuns

  // "6:Coding"
  const StrTest: seq<byte> := [54, 58, 67, 111, 100, 105, 110, 103]
  // "Coding"
  const Coding: seq<byte> := [67, 111, 100, 105, 110, 103]

  lemma StrVector()
    ensures Decode(AsWritten, StrTest).result == Ok(Str(Coding, 0, 7))
  {
    assert StepCursor(StrTest, Fresh) == On(StrTest, 0);
    assert StrTest[0..1] == [54];
    assert Decimal(6) == [54];
    ParseDecimal(6, MinI32, MaxI32);
    ElementOnDigit(AsWritten, StrTest, 0);
    StrSpecAt(StrTest, 0, 1, 6);
    assert StrTest[2..8] == Coding;
  }

  // "i100e"
  const IntTest: seq<byte> := [105, 49, 48, 48, 101]

  lemma IntVector()
    ensures Decode(AsWritten, IntTest).result == Ok(Int(100, 0, 4))
  {
    assert StepCursor(IntTest, Fresh) == On(IntTest, 0);
    assert IntTest[1..4] == [49, 48, 48];
    assert Decimal(100) == [49, 48, 48];
    ParseDecimal(100, MinI64, MaxI64);
    ElementOnInt(AsWritten, IntTest, 0);
    IntSpecAt(AsWritten, IntTest, 0, 4, 100);
  }

  // "Challenges"
  const Challenges: seq<byte> := [67, 104, 97, 108, 108, 101, 110, 103, 101, 115]
  // "l6:Coding10:Challengese"
  const ListTest: seq<byte> := [108, 54, 58] + Coding + [49, 48, 58] + Challenges + [101]

  lemma ListVector()
    ensures Decode(AsWritten, ListTest).result
         == Ok(List([Str(Coding, 1, 8), Str(Challenges, 9, 21)], 0, 22))
  {
    ListTestLayout();
    ListItemsAt(ListTest);
    ListOfTwo(ListTest);
  }

  lemma ListTestLayout()
    ensures var s := ListTest;
      && |s| == 23 && s[0] == ListTag && s[22] == EndTag
      && s[1] == 54 && s[1..2] == [54] && s[2] == Colon && s[3..9] == Coding
      && s[9] == 49 && s[9..11] == [49, 48] && s[11] == Colon && s[12..22] == Challenges
  {
  }

  /** The two items of the list test. */
  lemma ListItemsAt(s: seq<byte>)
    requires |s| == 23
    requires s[1] == 54 && s[1..2] == [54] && s[2] == Colon && s[3..9] == Coding
    requires s[9] == 49 && s[9..11] == [49, 48] && s[11] == Colon && s[12..22] == Challenges
    ensures ElementSpec(AsWritten, s, On(s, 1)) == Step(Ok(Str(Coding, 1, 8)), On(s, 9))
    ensures ElementSpec(AsWritten, s, On(s, 9)) == Step(Ok(Str(Challenges, 9, 21)), On(s, 22))
  {
    assert Decimal(6) == [54] && Decimal(10) == [49, 48];
    ParseDecimal(6, MinI32, MaxI32);
    ParseDecimal(10, MinI32, MaxI32);
    ElementOnDigit(AsWritten, s, 1);
    StrSpecAt(s, 1, 2, 6);
    assert StepCursor(s, On(s, 8)) == On(s, 9);
    ElementOnDigit(AsWritten, s, 9);
    StrSpecAt(s, 9, 11, 10);
    assert StepCursor(s, On(s, 21)) == On(s, 22);
  }

  lemma ListOfTwo(s: seq<byte>)
    requires |s| == 23 && s[0] == ListTag && s[1] == 54 && s[9] == 49 && s[22] == EndTag
    requires ElementSpec(AsWritten, s, On(s, 1)) == Step(Ok(Str(Coding, 1, 8)), On(s, 9))
    requires ElementSpec(AsWritten, s, On(s, 9)) == Step(Ok(Str(Challenges, 9, 21)), On(s, 22))
    ensures Decode(AsWritten, s).result
         == Ok(List([Str(Coding, 1, 8), Str(Challenges, 9, 21)], 0, 22))
  {
    assert StepCursor(s, Fresh) == On(s, 0);
    ElementOnList(AsWritten, s, 0);
    assert StepCursor(s, On(s, 0)) == On(s, 1);
    ListItemsNext(AsWritten, s, 1, 0, []);
    ListItemsNext(AsWritten, s, 9, 0, [Str(Coding, 1, 8)]);
    assert [] + [Str(Coding, 1, 8)] == [Str(Coding, 1, 8)];
    assert [Str(Coding, 1, 8)] + [Str(Challenges, 9, 21)] == [Str(Coding, 1, 8), Str(Challenges, 9, 21)];
    ListItemsEnd(AsWritten, s, 22, 0, [Str(Coding, 1, 8), Str(Challenges, 9, 21)]);
  }

  // "Coding Challenges"
  const CodingChallenges: seq<byte> := [67, 111, 100, 105, 110, 103, 32, 67, 104, 97, 108, 108, 101, 110, 103, 101, 115]
  // "Rating"
  const Rating: seq<byte> := [82, 97, 116, 105, 110, 103]
  // "Awesome"
  const Awesome: seq<byte> := [65, 119, 101, 115, 111, 109, 101]
  // "website"
  const Website: seq<byte> := [119, 101, 98, 115, 105, 116, 101]
  // "codingchallenges.fyi"
  const Site: seq<byte> := [99, 111, 100, 105, 110, 103, 99, 104, 97, 108, 108, 101, 110, 103, 101, 115, 46, 102, 121, 105]
  // "d17:Coding Challengesd6:Rating7:Awesome7:website20:codingchallenges.fyiee"
  const DictTest: seq<byte> :=
    [100, 49, 55, 58] + CodingChallenges + [100, 54, 58] + Rating + [55, 58] + Awesome
    + [55, 58] + Website + [50, 48, 58] + Site + [101, 101]

  /** The map the test of `decode_dict` expects at offset 21. */
  function InnerDict(): Element {
    Dict([Entry(Rating, Str(Awesome, 30, 38)), Entry(Website, Str(Site, 48, 70))], 21, 71)
  }

  lemma DictVector()
    ensures Decode(AsWritten, DictTest).result == Ok(Dict([Entry(CodingChallenges, InnerDict())], 0, 72))
  {
    DictTestOuterLayout();
    DictTestInnerLayout();
    DictTestValuesLayout();
    RatingEntryAt(DictTest);
    WebsiteEntryAt(DictTest);
    InnerDictAt(DictTest);
    OuterKeyAt(DictTest);
    OuterDictAt(DictTest);
  }

  lemma DictTestOuterLayout()
    ensures var s := DictTest;
      && |s| == 73 && s[0] == DictTag && s[72] == EndTag
      && s[1] == 49 && s[1..3] == [49, 55] && s[3] == Colon && s[4..21] == CodingChallenges
  {
  }

  lemma DictTestInnerLayout()
    ensures var s := DictTest;
      && |s| == 73 && s[21] == DictTag && s[71] == EndTag
      && s[22] == 54 && s[22..23] == [54] && s[23] == Colon && s[24..30] == Rating
      && s[30] == 55 && s[30..31] == [55] && s[31] == Colon && s[32..39] == Awesome
  {
  }

  lemma DictTestValuesLayout()
    ensures var s := DictTest;
      && |s| == 73
      && s[39] == 55 && s[39..40] == [55] && s[40] == Colon && s[41..48] == Website
      && s[48] == 50 && s[48..50] == [50, 48] && s[50] == Colon && s[51..71] == Site
  {
  }

  /** The first key and value of the inner map. */
  lemma RatingEntryAt(s: seq<byte>)
    requires |s| == 73
    requires s[22] == 54 && s[22..23] == [54] && s[23] == Colon && s[24..30] == Rating
    requires s[30] == 55 && s[30..31] == [55] && s[31] == Colon && s[32..39] == Awesome
    ensures StrSpec(s, On(s, 22)) == Step(Ok(Str(Rating, 22, 29)), On(s, 30))
    ensures ElementSpec(AsWritten, s, On(s, 30)) == Step(Ok(Str(Awesome, 30, 38)), On(s, 39))
  {
    assert Decimal(6) == [54] && Decimal(7) == [55];
    ParseDecimal(6, MinI32, MaxI32);
    ParseDecimal(7, MinI32, MaxI32);
    StrSpecAt(s, 22, 23, 6);
    assert StepCursor(s, On(s, 29)) == On(s, 30);
    ElementOnDigit(AsWritten, s, 30);
    StrSpecAt(s, 30, 31, 7);
    assert StepCursor(s, On(s, 38)) == On(s, 39);
  }

  /** The second key and value of the inner map. */
  lemma WebsiteEntryAt(s: seq<byte>)
    requires |s| == 73
    requires s[39] == 55 && s[39..40] == [55] && s[40] == Colon && s[41..48] == Website
    requires s[48] == 50 && s[48..50] == [50, 48] && s[50] == Colon && s[51..71] == Site
    ensures StrSpec(s, On(s, 39)) == Step(Ok(Str(Website, 39, 47)), On(s, 48))
    ensures ElementSpec(AsWritten, s, On(s, 48)) == Step(Ok(Str(Site, 48, 70)), On(s, 71))
  {
    assert Decimal(7) == [55] && Decimal(20) == [50, 48];
    ParseDecimal(7, MinI32, MaxI32);
    ParseDecimal(20, MinI32, MaxI32);
    StrSpecAt(s, 39, 40, 7);
    assert StepCursor(s, On(s, 47)) == On(s, 48);
    ElementOnDigit(AsWritten, s, 48);
    StrSpecAt(s, 48, 50, 20);
    assert StepCursor(s, On(s, 70)) == On(s, 71);
  }

  lemma InnerDictAt(s: seq<byte>)
    requires |s| == 73 && s[21] == DictTag && s[22] == 54 && s[39] == 55 && s[71] == EndTag
    requires StrSpec(s, On(s, 22)) == Step(Ok(Str(Rating, 22, 29)), On(s, 30))
    requires ElementSpec(AsWritten, s, On(s, 30)) == Step(Ok(Str(Awesome, 30, 38)), On(s, 39))
    requires StrSpec(s, On(s, 39)) == Step(Ok(Str(Website, 39, 47)), On(s, 48))
    requires ElementSpec(AsWritten, s, On(s, 48)) == Step(Ok(Str(Site, 48, 70)), On(s, 71))
    ensures ElementSpec(AsWritten, s, On(s, 21)) == Step(Ok(InnerDict()), On(s, 72))
  {
    var rating := Entry(Rating, Str(Awesome, 30, 38));
    var website := Entry(Website, Str(Site, 48, 70));
    ElementOnDict(AsWritten, s, 21);
    assert StepCursor(s, On(s, 21)) == On(s, 22);
    DictEntriesNext(AsWritten, s, 22, 21, []);
    assert Insert([], Rating, Str(Awesome, 30, 38)) == [rating];
    DictEntriesNext(AsWritten, s, 39, 21, [rating]);
    assert Less(Rating, Website);
    InsertGreatest([rating], Website, Str(Site, 48, 70));
    assert [rating] + [website] == InnerDict().entries;
    DictEntriesEnd(AsWritten, s, 71, 21, InnerDict().entries);
    assert StepCursor(s, On(s, 71)) == On(s, 72);
  }

  /** The key of the outer map. */
  lemma OuterKeyAt(s: seq<byte>)
    requires |s| == 73
    requires s[1] == 49 && s[1..3] == [49, 55] && s[3] == Colon && s[4..21] == CodingChallenges
    ensures StrSpec(s, On(s, 1)) == Step(Ok(Str(CodingChallenges, 1, 20)), On(s, 21))
  {
    assert Decimal(17) == [49, 55];
    ParseDecimal(17, MinI32, MaxI32);
    StrSpecAt(s, 1, 3, 17);
    assert StepCursor(s, On(s, 20)) == On(s, 21);
  }

  lemma OuterDictAt(s: seq<byte>)
    requires |s| == 73 && s[0] == DictTag && s[1] == 49 && s[72] == EndTag
    requires StrSpec(s, On(s, 1)) == Step(Ok(Str(CodingChallenges, 1, 20)), On(s, 21))
    requires ElementSpec(AsWritten, s, On(s, 21)) == Step(Ok(InnerDict()), On(s, 72))
    ensures Decode(AsWritten, s).result == Ok(Dict([Entry(CodingChallenges, InnerDict())], 0, 72))
  {
    assert StepCursor(s, Fresh) == On(s, 0);
    ElementOnDict(AsWritten, s, 0);
    assert StepCursor(s, On(s, 0)) == On(s, 1);
    DictEntriesNext(AsWritten, s, 1, 0, []);
    assert Insert([], CodingChallenges, InnerDict()) == [Entry(CodingChallenges, InnerDict())];
    DictEntriesEnd(AsWritten, s, 72, 0, [Entry(CodingChallenges, InnerDict())]);
  }

  // The failure modes, on inputs as short as they come.

  /** An empty input: `get_byte().unwrap()` in `decode_element` panics. */
  lemma EmptyInputPanics()
    ensures Decode(AsWritten, []).result == Panic(UnexpectedEof)
  {
  }

  // "x"
  const UnknownTag: seq<byte> := [120]

  /** An unknown leading byte is an `Err`, and the reader stays on that byte. */
  lemma UnknownTagVector()
    ensures Decode(AsWritten, UnknownTag) == Step(Err(InvalidTag), On(UnknownTag, 0))
  {
    assert StepCursor(UnknownTag, Fresh) == On(UnknownTag, 0);
  }

  // "iXe"
  const NotANumber: seq<byte> := [105, 88, 101]

  /** A non-digit in an integer body is an `Err` passed up by `?`. */
  lemma NotANumberVector()
    ensures Decode(AsWritten, NotANumber).result == Err(InvalidInteger)
  {
    var s := NotANumber;
    assert StepCursor(s, Fresh) == On(s, 0);
    ElementOnInt(AsWritten, s, 0);
    assert s[1..2] == [88] && [] + [88] == [88];
    assert ParseI64([88]) == None;
    IntBodyAt(AsWritten, s, On(s, 0), 0, [], 2);
  }

  // "ie"
  const EmptyInt: seq<byte> := [105, 101]

  /** An empty integer body is an `Err` as well. */
  lemma EmptyIntVector()
    ensures Decode(AsWritten, EmptyInt).result == Err(InvalidInteger)
  {
    var s := EmptyInt;
    assert StepCursor(s, Fresh) == On(s, 0);
    ElementOnInt(AsWritten, s, 0);
    assert s[1..1] == [] && [] + s[1..1] == [];
    IntBodyAt(AsWritten, s, On(s, 0), 0, [], 1);
  }

  // "i12"
  const UnclosedInt: seq<byte> := [105, 49, 50]

  /** An integer cut off before its 'e': `read_and_get_byte().unwrap()` panics. */
  lemma UnclosedIntVector()
    ensures Decode(AsWritten, UnclosedInt).result == Panic(UnexpectedEof)
  {
    var s := UnclosedInt;
    assert StepCursor(s, Fresh) == On(s, 0);
    ElementOnInt(AsWritten, s, 0);
    assert StepCursor(s, On(s, 0)) == On(s, 1);
    assert StepCursor(s, On(s, 1)) == On(s, 2);
    assert IntBody(AsWritten, s, On(s, 2), 0, [49, 50]) == Step(Panic(UnexpectedEof), Cursor(3, true, 50));
  }

  // "1a:"
  const BadLength: seq<byte> := [49, 97, 58]

  /** A string length that is not a number: `parse::<i32>().unwrap()` panics. */
  lemma BadLengthVector()
    ensures Decode(AsWritten, BadLength).result == Panic(InvalidLength)
  {
    var s := BadLength;
    assert StepCursor(s, Fresh) == On(s, 0);
    ElementOnDigit(AsWritten, s, 0);
    assert s[0..2] == [49, 97] && [] + [49, 97] == [49, 97];
    assert ParseI32([49, 97]) == None;
    LengthTextAt(s, On(s, 0), 0, [], 2);
  }

  // "5:ab"
  const ShortPayload: seq<byte> := [53, 58, 97, 98]

  /** A string shorter than its length: `read_and_get_byte().unwrap()` panics. */
  lemma ShortPayloadVector()
    ensures Decode(AsWritten, ShortPayload).result == Panic(UnexpectedEof)
  {
    var s := ShortPayload;
    assert StepCursor(s, Fresh) == On(s, 0);
    ElementOnDigit(AsWritten, s, 0);
    assert s[0..1] == [53] == Decimal(5) && [] + [53] == [53];
    ParseDecimal(5, MinI32, MaxI32);
    LengthTextAt(s, On(s, 0), 0, [], 1);
    PayloadRun(s, On(s, 1), 5);
  }
}
