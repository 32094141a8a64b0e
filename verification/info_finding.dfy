/**
 * `calculate_info_hash` reads `end_index - start_index` bytes from the
 * info dictionary's first byte (src/torrent_file.rs:95-98); with the
 * decoder's inclusive `end_index` that leaves out the closing 'e', so the
 * bytes hashed are not the info dictionary's encoding. On the torrent
 * "d4:infod1:a1:bee" they are "d1:a1:b", which does not even decode; the
 * corrected slice "d1:a1:be" decodes to the info dictionary's contents.
 */
module InfoFinding {
  import opened Numbers
  import opened OrderedMap
  import opened BencodeElement
  import opened Reader
  import opened DecodeSpec
  import opened DecodeRuns
  import opened TorrentFile

  // "d1:a1:be"
  const InfoValue: seq<byte> := [100, 49, 58, 97, 49, 58, 98, 101]
  // "d4:infod1:a1:bee"
  const InfoTorrent: seq<byte> := [100, 52, 58] + InfoKey + InfoValue + [101]

  /** The tree the decoder builds for "d4:infod1:a1:bee". */
  function InfoRoot(): Element {
    Dict([Entry(InfoKey, Dict([Entry([97], Str([98], 11, 13))], 7, 14))], 0, 15)
  }

  lemma InfoTorrentLayout()
    ensures var s := InfoTorrent;
      && |s| == 16 && s[0] == DictTag && s[7] == DictTag && s[14] == EndTag && s[15] == EndTag
      && s[1] == 52 && s[1..2] == [52] && s[2] == Colon && s[3..7] == InfoKey
      && s[8] == 49 && s[8..9] == [49] && s[9] == Colon && s[10..11] == [97]
      && s[11] == 49 && s[11..12] == [49] && s[12] == Colon && s[13..14] == [98]
      && s[7..14] == InfoValue[..7] && s[7..15] == InfoValue
  {
  }

  /** The strings of "d4:infod1:a1:bee". */
  lemma InfoTorrentStrings(s: seq<byte>)
    requires |s| == 16
    requires s[1] == 52 && s[1..2] == [52] && s[2] == Colon && s[3..7] == InfoKey
    requires s[8] == 49 && s[8..9] == [49] && s[9] == Colon && s[10..11] == [97]
    requires s[11] == 49 && s[11..12] == [49] && s[12] == Colon && s[13..14] == [98]
    ensures StrSpec(s, On(s, 1)) == Step(Ok(Str(InfoKey, 1, 6)), On(s, 7))
    ensures StrSpec(s, On(s, 8)) == Step(Ok(Str([97], 8, 10)), On(s, 11))
    ensures ElementSpec(AsWritten, s, On(s, 11)) == Step(Ok(Str([98], 11, 13)), On(s, 14))
  {
    assert Decimal(4) == [52] && Decimal(1) == [49];
    ParseDecimal(4, MinI32, MaxI32);
    ParseDecimal(1, MinI32, MaxI32);
    StrSpecAt(s, 1, 2, 4);
    assert StepCursor(s, On(s, 6)) == On(s, 7);
    StrSpecAt(s, 8, 9, 1);
    assert StepCursor(s, On(s, 10)) == On(s, 11);
    ElementOnDigit(AsWritten, s, 11);
    StrSpecAt(s, 11, 12, 1);
    assert StepCursor(s, On(s, 13)) == On(s, 14);
  }

  lemma InfoTorrentTree(s: seq<byte>)
    requires |s| == 16 && s[0] == DictTag && s[1] == 52 && s[7] == DictTag && s[8] == 49 && s[14] == EndTag && s[15] == EndTag
    requires StrSpec(s, On(s, 1)) == Step(Ok(Str(InfoKey, 1, 6)), On(s, 7))
    requires StrSpec(s, On(s, 8)) == Step(Ok(Str([97], 8, 10)), On(s, 11))
    requires ElementSpec(AsWritten, s, On(s, 11)) == Step(Ok(Str([98], 11, 13)), On(s, 14))
    ensures Decode(AsWritten, s).result == Ok(InfoRoot())
  {
    var inner := Dict([Entry([97], Str([98], 11, 13))], 7, 14);
    ElementOnDict(AsWritten, s, 7);
    assert StepCursor(s, On(s, 7)) == On(s, 8);
    DictEntriesNext(AsWritten, s, 8, 7, []);
    assert Insert([], [97], Str([98], 11, 13)) == inner.entries;
    DictEntriesEnd(AsWritten, s, 14, 7, inner.entries);
    assert StepCursor(s, On(s, 14)) == On(s, 15);
    assert StepCursor(s, Fresh) == On(s, 0);
    ElementOnDict(AsWritten, s, 0);
    assert StepCursor(s, On(s, 0)) == On(s, 1);
    DictEntriesNext(AsWritten, s, 1, 0, []);
    assert Insert([], InfoKey, inner) == InfoRoot().entries;
    DictEntriesEnd(AsWritten, s, 15, 0, InfoRoot().entries);
  }

  /** "d4:infod1:a1:bee" decodes to a root whose "info" is the dictionary at offsets 7..14. */
  lemma InfoTorrentDecodes()
    ensures Decode(AsWritten, InfoTorrent).result == Ok(InfoRoot())
    ensures InfoDict(InfoRoot()) == Some(Dict([Entry([97], Str([98], 11, 13))], 7, 14))
  {
    InfoTorrentLayout();
    InfoTorrentStrings(InfoTorrent);
    InfoTorrentTree(InfoTorrent);
  }

  /** As written, the bytes hashed for "d4:infod1:a1:bee" are "d1:a1:b", which the decoder cannot read. */
  lemma InfoSliceAsWritten()
    ensures InfoBytes(AsWritten, InfoRoot(), InfoTorrent) == Some(InfoValue[..7])
    ensures Decode(AsWritten, InfoValue[..7]).result == Panic(UnexpectedEof)
  {
    InfoTorrentLayout();
    InfoTorrentDecodes();
    var s := InfoValue[..7];
    assert s == [100, 49, 58, 97, 49, 58, 98];
    SliceEndsEarly(s);
  }

  lemma SliceEndsEarly(s: seq<byte>)
    requires s == [100, 49, 58, 97, 49, 58, 98]
    ensures Decode(AsWritten, s).result == Panic(UnexpectedEof)
  {
    assert Decimal(1) == [49] && s[1..2] == [49] && s[4..5] == [49] && s[3..4] == [97] && s[6..7] == [98];
    ParseDecimal(1, MinI32, MaxI32);
    assert StepCursor(s, Fresh) == On(s, 0);
    ElementOnDict(AsWritten, s, 0);
    assert StepCursor(s, On(s, 0)) == On(s, 1);
    StrSpecAt(s, 1, 2, 1);
    assert StepCursor(s, On(s, 3)) == On(s, 4);
    ElementOnDigit(AsWritten, s, 4);
    StrSpecAt(s, 4, 5, 1);
    DictEntriesNext(AsWritten, s, 1, 0, []);
  }

  /** Corrected, the bytes hashed are "d1:a1:be", which decodes to the info dictionary's entries. */
  lemma InfoSliceCorrected()
    ensures InfoBytes(Corrected, InfoRoot(), InfoTorrent) == Some(InfoValue)
    ensures Decode(AsWritten, InfoValue).result == Ok(Dict([Entry([97], Str([98], 4, 6))], 0, 7))
  {
    InfoTorrentLayout();
    InfoTorrentDecodes();
    SliceDecodes(InfoValue);
  }

  lemma SliceDecodes(s: seq<byte>)
    requires s == [100, 49, 58, 97, 49, 58, 98, 101]
    ensures Decode(AsWritten, s).result == Ok(Dict([Entry([97], Str([98], 4, 6))], 0, 7))
  {
    assert Decimal(1) == [49] && s[1..2] == [49] && s[4..5] == [49] && s[3..4] == [97] && s[6..7] == [98];
    ParseDecimal(1, MinI32, MaxI32);
    assert StepCursor(s, Fresh) == On(s, 0);
    ElementOnDict(AsWritten, s, 0);
    assert StepCursor(s, On(s, 0)) == On(s, 1);
    StrSpecAt(s, 1, 2, 1);
    assert StepCursor(s, On(s, 3)) == On(s, 4);
    ElementOnDigit(AsWritten, s, 4);
    StrSpecAt(s, 4, 5, 1);
    assert StepCursor(s, On(s, 6)) == On(s, 7);
    DictEntriesNext(AsWritten, s, 1, 0, []);
    assert Insert([], [97], Str([98], 4, 6)) == [Entry([97], Str([98], 4, 6))];
    DictEntriesEnd(AsWritten, s, 7, 0, [Entry([97], Str([98], 4, 6))]);
  }
}
