/**
 * src/torrent_file.rs: typed lookups in a decoded torrent, and the info
 * hash, which re-reads the raw bytes of the "info" dictionary from the
 * file's contents through a `std::io::Cursor` and hashes them.
 *
 * SHA-1 is a parameter `hash` of the operations that use it. `mode`
 * selects the slice as written (`end_index - start_index` bytes, which
 * leaves out the dictionary's closing 'e' because `end_index` is
 * inclusive) or the corrected one that includes it (see the README's
 * findings).
 */
module TorrentFile {
  import opened Numbers
  import opened OrderedMap
  import opened BencodeElement
  import opened Reader
  import opened DecodeSpec
  import opened DecodeProperties
  import opened Slices
  import Hex

  // "info"
  const InfoKey: seq<byte> := [105, 110, 102, 111]

  /** `extract_string`: the string stored under `key` in a dictionary. */
  function ExtractString(key: seq<byte>, e: Element): (r: Option<seq<byte>>)
    ensures r.Some? ==> e.Dict? && exists s, t :: Entry(key, Str(r.value, s, t)) in e.entries
  {
    if e.Dict? then
      var found := Get(e.entries, key);
      if found.Some? && found.value.Str? then Some(found.value.bytes) else None
    else None
  }

  /** `extract_int`: the integer stored under `key` in a dictionary. */
  function ExtractInt(key: seq<byte>, e: Element): (r: Option<int>)
    ensures r.Some? ==> e.Dict? && exists s, t :: Entry(key, Int(r.value, s, t)) in e.entries
  {
    if e.Dict? then
      var found := Get(e.entries, key);
      if found.Some? && found.value.Int? then Some(found.value.value) else None
    else None
  }

  /**
   * In a dictionary whose keys ascend (every decoded one), `extract_string`
   * finds exactly the strings stored under the key, and nothing otherwise.
   */
  lemma ExtractStringExact(key: seq<byte>, e: Element, bytes: seq<byte>)
    requires e.Dict? ==> Sorted(e.entries)
    ensures ExtractString(key, e) == Some(bytes)
        <==> e.Dict? && exists s, t :: Entry(key, Str(bytes, s, t)) in e.entries
  {
    if e.Dict? && exists s, t :: Entry(key, Str(bytes, s, t)) in e.entries {
      var s, t :| Entry(key, Str(bytes, s, t)) in e.entries;
      GetFound(e.entries, key, Str(bytes, s, t));
    }
  }

  /** The same for `extract_int`. */
  lemma ExtractIntExact(key: seq<byte>, e: Element, v: int)
    requires e.Dict? ==> Sorted(e.entries)
    ensures ExtractInt(key, e) == Some(v)
        <==> e.Dict? && exists s, t :: Entry(key, Int(v, s, t)) in e.entries
  {
    if e.Dict? && exists s, t :: Entry(key, Int(v, s, t)) in e.entries {
      var s, t :| Entry(key, Int(v, s, t)) in e.entries;
      GetFound(e.entries, key, Int(v, s, t));
    }
  }

  /** The "info" value of a root dictionary, when it is itself a dictionary. */
  function InfoDict(root: Element): (r: Option<Element>)
    ensures r.Some? ==> root.Dict? && r.value.Dict? && Entry(InfoKey, r.value) in root.entries
    ensures r.None? && root.Dict? && Sorted(root.entries) ==>
      forall en :: en in root.entries && en.key == InfoKey ==> !en.value.Dict?
  {
    if root.Dict? then
      match Get(root.entries, InfoKey)
      case Some(info) =>
        if info.Dict? then Some(info)
        else
          assert forall en :: en in root.entries && en.key == InfoKey ==> Sorted(root.entries) ==> en.value == info by {
            forall en | en in root.entries && en.key == InfoKey ensures Sorted(root.entries) ==> en.value == info {
              if Sorted(root.entries) {
                GetFound(root.entries, InfoKey, en.value);
              }
            }
          }
          None
      case None => None
    else None
  }

  /**
   * The `usize` subtraction `end_index - start_index` does not underflow:
   * the info dictionary ends no earlier than it starts.
   */
  predicate InfoSpanFits(root: Element) {
    InfoDict(root).Some? ==> InfoDict(root).value.startIndex <= InfoDict(root).value.endIndex
  }

  /**
   * `Cursor::read_exact` from offset `pos`: `n` bytes if that many are
   * there. Zero bytes can always be read.
   */
  function ReadSpan(data: seq<byte>, pos: nat, n: nat): (r: Option<seq<byte>>)
    ensures r.Some? <==> n == 0 || pos + n <= |data|
    ensures r.Some? ==> |r.value| == n && (n > 0 ==> r.value == data[pos..pos + n])
  {
    if n == 0 then Some([])
    else if pos + n <= |data| then Some(data[pos..pos + n])
    else None
  }

  /** The number of bytes `calculate_info_hash` reads from the start of the info dictionary. */
  function InfoLength(mode: Mode, info: Element): int {
    info.endIndex - info.startIndex + (if mode == Corrected then 1 else 0)
  }

  /** The bytes `calculate_info_hash` feeds to the hasher. */
  function InfoBytes(mode: Mode, root: Element, data: seq<byte>): (r: Option<seq<byte>>)
    requires InfoSpanFits(root)
    ensures r.Some? ==> InfoDict(root).Some?
  {
    match InfoDict(root)
    case None => None
    case Some(info) => ReadSpan(data, info.startIndex, InfoLength(mode, info))
  }

  /** `calculate_info_hash`, with SHA-1 given as `hash`. */
  function InfoHash(mode: Mode, root: Element, data: seq<byte>, hash: seq<byte> -> seq<byte>): (r: Option<seq<byte>>)
    requires InfoSpanFits(root)
    ensures r.Some? <==> InfoBytes(mode, root, data).Some?
    ensures r.Some? ==> r.value == hash(InfoBytes(mode, root, data).value)
  {
    match InfoBytes(mode, root, data)
    case None => None
    case Some(bytes) => Some(hash(bytes))
  }

  /**
   * `calculate_info_hash` gives `None` exactly when the root is not a
   * dictionary with a dictionary under "info", or when the info bytes run
   * past the end of the data.
   */
  lemma InfoHashNone(mode: Mode, root: Element, data: seq<byte>, hash: seq<byte> -> seq<byte>)
    requires InfoSpanFits(root)
    ensures InfoHash(mode, root, data, hash).None?
        <==> InfoDict(root).None?
             || (var info := InfoDict(root).value;
                 InfoLength(mode, info) > 0 && info.startIndex + InfoLength(mode, info) > |data|)
  {
  }

  /**
   * Every element the decoder returns has its info dictionary (if any)
   * inside the data: it starts with 'd', ends with 'e', and the
   * subtraction cannot underflow.
   */
  lemma DecodedInfo(mode: Mode, data: seq<byte>)
    requires Decode(mode, data).result.Ok?
    ensures var root := Decode(mode, data).result.value;
      && InfoSpanFits(root)
      && (InfoDict(root).Some? ==>
            var info := InfoDict(root).value;
            && info.startIndex < info.endIndex < |data|
            && data[info.startIndex] == DictTag && data[info.endIndex] == EndTag)
  {
    ElementShape(mode, data, StepCursor(data, Fresh));
    var root := Decode(mode, data).result.value;
    if InfoDict(root).Some? {
      var info := InfoDict(root).value;
      assert Entry(InfoKey, info) in root.entries;
      DictEntriesWithin(mode, data, root);
      WellFormedSpan(mode, data, info);
    }
  }

  /**
   * As written, the bytes hashed for a decoded torrent are those of the
   * info dictionary without its closing 'e'.
   */
  lemma InfoBytesAsWritten(mode: Mode, data: seq<byte>)
    requires Decode(mode, data).result.Ok?
    requires InfoDict(Decode(mode, data).result.value).Some?
    ensures var root := Decode(mode, data).result.value;
      var info := InfoDict(root).value;
      && InfoSpanFits(root)
      && info.startIndex < info.endIndex < |data|
      && InfoBytes(AsWritten, root, data) == Some(data[info.startIndex..info.endIndex])
      && data[info.endIndex] == EndTag
  {
    DecodedInfo(mode, data);
  }

  /**
   * Corrected, the bytes hashed for a decoded torrent are exactly the info
   * dictionary's encoding: from its 'd' through its closing 'e'. Decoded on
   * their own, they give back the info dictionary, its offsets counted from
   * its 'd'.
   */
  lemma InfoBytesCorrected(mode: Mode, data: seq<byte>)
    requires Decode(mode, data).result.Ok?
    requires InfoDict(Decode(mode, data).result.value).Some?
    ensures var root := Decode(mode, data).result.value;
      var info := InfoDict(root).value;
      && InfoSpanFits(root)
      && info.startIndex < info.endIndex < |data|
      && InfoBytes(Corrected, root, data) == Some(data[info.startIndex..info.endIndex + 1])
      && var b := InfoBytes(Corrected, root, data).value;
         && |b| >= 2 && b[0] == DictTag && b[|b| - 1] == EndTag
         && Decode(mode, b).result == Ok(Moved(info, info.startIndex))
  {
    DecodedInfo(mode, data);
    var info := InfoDict(Decode(mode, data).result.value).value;
    InfoWellFormed(mode, data);
    SliceDecodes(mode, data, info);
  }

  /** The info dictionary of a decoded torrent is well formed in the data. */
  lemma InfoWellFormed(mode: Mode, data: seq<byte>)
    requires Decode(mode, data).result.Ok?
    requires InfoDict(Decode(mode, data).result.value).Some?
    ensures WellFormed(mode, data, InfoDict(Decode(mode, data).result.value).value)
  {
    var root := Decode(mode, data).result.value;
    ElementShape(mode, data, StepCursor(data, Fresh));
    DictEntriesWithin(mode, data, root);
    assert Entry(InfoKey, InfoDict(root).value) in root.entries;
  }

  /** `std::io::Cursor<Vec<u8>>` over the file's contents. */
  class ByteCursor {
    const data: seq<byte>
    var position: nat

    constructor (data: seq<byte>)
      ensures this.data == data && position == 0
    {
      this.data := data;
      position := 0;
    }

    /** `set_position`: any offset, also one past the end. */
    method SetPosition(pos: nat)
      modifies this
      ensures position == pos
    {
      position := pos;
    }

    /**
     * `read_exact` into a buffer of `n` bytes: on success the position
     * moves past them; on failure it is left at the end of the data.
     */
    method ReadExact(n: nat) returns (r: Option<seq<byte>>)
      modifies this
      ensures r == ReadSpan(data, old(position), n)
      ensures position == if r.Some? then old(position) + n else |data|
    {
      if n == 0 {
        r := Some([]);
      } else if position + n <= |data| {
        r := Some(data[position..position + n]);
        position := position + n;
      } else {
        r := None;
        position := |data|;
      }
    }
  }

  /**
   * `calculate_info_hash`, reading the slice as written or corrected. The
   * result depends only on the tree and the data, not on where the cursor
   * was.
   */
  method CalculateInfoHash(mode: Mode, root: Element, cursor: ByteCursor, hash: seq<byte> -> seq<byte>)
    returns (r: Option<seq<byte>>)
    requires InfoSpanFits(root)
    modifies cursor
    ensures r == InfoHash(mode, root, cursor.data, hash)
    ensures InfoDict(root).None? ==> cursor.position == old(cursor.position)
    ensures InfoDict(root).Some? ==>
      var info := InfoDict(root).value;
      cursor.position == if r.Some? then info.startIndex + InfoLength(mode, info) else |cursor.data|
  {
    if root.Dict? {
      var found := Get(root.entries, InfoKey);
      if found.Some? && found.value.Dict? {
        var info := found.value;
        var length: nat := info.endIndex - info.startIndex + (if mode == Corrected then 1 else 0);
        cursor.SetPosition(info.startIndex);
        var read := cursor.ReadExact(length);
        if read.None? {
          return None;
        }
        return Some(hash(read.value));
      }
    }
    return None;
  }

  /** `calculate_info_hash_as_string`: the digest as lowercase hex. */
  method CalculateInfoHashAsString(mode: Mode, root: Element, cursor: ByteCursor, hash: seq<byte> -> seq<byte>)
    returns (r: Option<seq<char>>)
    requires InfoSpanFits(root)
    modifies cursor
    ensures r.None? <==> InfoHash(mode, root, cursor.data, hash).None?
    ensures r.Some? ==> r.value == Hex.Encode(InfoHash(mode, root, cursor.data, hash).value)
  {
    var digest := CalculateInfoHash(mode, root, cursor, hash);
    if digest.None? {
      return None;
    }
    return Some(Hex.Encode(digest.value));
  }

  /** A 20-byte digest such as SHA-1's is written as 40 lowercase hex digits, from which it can be read back. */
  lemma InfoHashText(digest: seq<byte>)
    requires |digest| == 20
    ensures |Hex.Encode(digest)| == 40
    ensures forall i :: 0 <= i < 40 ==> Hex.IsLowerHex(Hex.Encode(digest)[i])
    ensures Hex.Decode(Hex.Encode(digest)) == Some(digest)
  {
    Hex.DecodeEncode(digest);
  }
}
