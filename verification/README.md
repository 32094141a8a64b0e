# leech bencode core, modelled in Dafny

This project models the bencode decoder of `leech`, a BitTorrent client,
and the code built on top of it. The decoder reads a `.torrent` file one
byte at a time through `BinFileReader`. It builds a tree of integers,
strings, lists and dictionaries, and records the offset of each node's
first and last byte. The code built on it does three things: it looks up
typed values in the tree, it re-reads the raw bytes of the "info"
dictionary to compute the torrent's info hash, and it prints the tree.

Modules and files:

| file | module | what it holds |
|---|---|---|
| `numbers.dfy` | `Numbers` | bytes, ASCII codes, Rust's `i32`/`i64` parsers and `Display` text of integers |
| `ordered_map.dfy` | `OrderedMap` | `BTreeMap<String, _>` as a sequence of entries with strictly ascending keys |
| `bencode_element.dfy` | `BencodeElement` | the tree (`Element`) and the outcome of a decode: `Ok`, an `Err` passed up by `?`, or a panic |
| `reader.dfy` | `Reader` | `BinFileReader` as a class over the input bytes, and its state as a `Cursor` value |
| `decode_spec.dfy` | `DecodeSpec` | the decoder as recursive functions over a `Cursor` |
| `decoder.dfy` | `Decoder` | `decode_element`, `decode_dict`, `decode_list`, `decode_str` and `decode_int` as methods with the source's loops, each proved equal to its function; `DictEntriesStep` and `DictEntriesClose` are helpers for those proofs |
| `decode_properties.dfy` | `DecodeProperties` | what a successful decode says about the input: where each node starts and ends, what its bytes are, how children are laid out |
| `decode_runs.dfy` | `DecodeRuns` | one step of each decoding function on a known input layout: helpers for the concrete inputs and for `DecodeComplete` |
| `decode_complete.dfy` | `DecodeComplete` | the converse of `DecodeProperties`: a well-formed element decodes from its first byte back to itself |
| `slices.dfy` | `Slices` | an element cut out of its input, with its offsets counted from its first byte, and proof that it decodes on its own |
| `vectors.dfy` | `Vectors` | the source's unit tests and the failure cases on concrete inputs |
| `findings.dfy`, `info_finding.dfy` | `Findings`, `InfoFinding` | the two defects described under Findings |
| `torrent_file.dfy` | `TorrentFile` | `extract_string`, `extract_int`, `calculate_info_hash` (with a `Cursor` class) and `calculate_info_hash_as_string` |
| `hex.dfy` | `Hex` | `hex::encode`, with an inverse that shows it loses nothing |
| `render.dfy` | `Render` | `Display` and `pretty_print` as the list of lines they print, and `ellipsize` |

How the model represents the source:

- **Bytes and strings.** A byte is an `int` in `0..256`. The decoder pushes each payload byte into a `String` as `u8 as char`, so a string value is modelled as its bytes. Keys are ordered byte by byte. For chars below 256 this is the same order Rust's `String` comparison gives.
- **The reader.** `BinFileReader` reads the whole input from memory. Its state is the number of bytes read, the end-of-file flag and the one-byte buffer. As the `Cursor` value `(pos, eof, cur)`, it is a function of the input.
- **Outcomes.** Every `unwrap()` on `None` and every failed `parse::<i32>().unwrap()` is a `Panic` outcome with its reason. The `Err` of an unknown tag and the `Err` of a failed `parse::<i64>()?` are `Err` outcomes that the callers pass up.
- **`Mode`.** The decoding functions and the info-hash functions take a `Mode`:
  - `AsWritten` is the source as it is.
  - `Corrected` makes `decode_int` step past its closing 'e', and makes the info hash include the closing 'e' of the info dictionary.
  - Both modes are proved about; see Findings.
- **The test inputs.** The unit tests read files under `resources/test/`, which are not part of this model. The concrete inputs in `Vectors` are the bytes that the offsets asserted by those tests determine.
- **Printing.** Output is modelled as the sequence of lines written. `Display` is `Render.DisplayLines` and `pretty_print` is `Render.PrettyPrintLines`.
- **Repeated keys.** `decode_dict` stores each pair with `BTreeMap::insert` (src/bencoding.rs:261), which replaces the value of a key already present, so for `d1:ai1e1:ai2ee` the later value should win. The code as written does not do that (Findings, row 2). The corrected decoder does, and that is proved.

## Model

| member | source | states |
|---|---|---|
| Numbers.ParseSigned | src/bencoding.rs:299 | a parsed value lies in the type's range; a negative value needs a leading '-'; a leading '-' gives a value of at most 0; empty text never parses |
| Numbers.ParsedBytes | src/bencoding.rs:299 | text that parses holds only digits and signs, so never a ':' or an 'e' |
| Numbers.ParseDecimal | src/bencoding.rs:323 | the decimal text Rust prints for an in-range integer parses back to the same integer |
| OrderedMap.LessIrreflexive | src/bencoding.rs:248 | no key orders before itself |
| OrderedMap.LessTransitive | src/bencoding.rs:248 | the key order is transitive |
| OrderedMap.LessTotal | src/bencoding.rs:248 | of two different keys, one orders before the other |
| OrderedMap.Get | src/torrent_file.rs:34 | `get` finds nothing exactly when no entry has the key; what it finds is stored under the key |
| OrderedMap.GetFound | src/torrent_file.rs:34 | in a map with ascending keys, `get` returns the value stored under the key |
| OrderedMap.InsertSpec | src/bencoding.rs:261 | `insert` keeps the keys ascending, stores the new entry, removes only an entry with the same key, and grows the map by at most one |
| OrderedMap.GetInsertSame | src/bencoding.rs:261 | after `insert`, looking the key up gives the value inserted last |
| OrderedMap.GetInsertOther | src/bencoding.rs:261 | `insert` leaves the value of every other key unchanged |
| OrderedMap.InsertGreatest | src/bencoding.rs:261 | a key above every present key goes at the end |
| Reader.StepCursor | src/bencoding.rs:347-355 | a read advances the count by one byte, or by none at the end, and raises the end flag exactly when nothing was read |
| Reader.CurrentByte | src/bencoding.rs:357-363 | `get_byte` is `None` exactly when the end flag is up |
| Reader.BinFileReader.constructor | src/bencoding.rs:337-345 | a new reader has read nothing and has no end flag |
| Reader.BinFileReader.ReadByte | src/bencoding.rs:347-355 | the count grows by the bytes read (0 or 1); the result and the end flag are true exactly when all input was already read |
| Reader.BinFileReader.GetByte | src/bencoding.rs:357-363 | `None` exactly at the end; otherwise the last byte read |
| Reader.BinFileReader.ReadAndGetByte | src/bencoding.rs:365-368 | gives the next input byte if there is one, else `None` |
| Reader.BinFileReader.GetCurrentIndex | src/bencoding.rs:370-372 | the offset of the last byte read, which is the buffer's byte; at the end it is the last offset of the input |
| DecodeSpec.ElementSpec | src/bencoding.rs:233-243 | the reader never moves back, and a successful decode consumes input |
| DecodeSpec.StrSpec | src/bencoding.rs:290-312 | a successful `decode_str` gives a string and consumes input |
| DecodeSpec.LengthText | src/bencoding.rs:295-299 | the loop over the length text never moves back; on success it gives a string |
| DecodeSpec.Payload | src/bencoding.rs:301-304 | reading `n` payload bytes moves the reader exactly `n` bytes on success |
| DecodeSpec.IntSpec | src/bencoding.rs:314-327 | a successful `decode_int` gives an integer and consumes input |
| DecodeSpec.IntBody | src/bencoding.rs:319-326 | the loop over the digits never moves back; on success it gives an integer |
| DecodeSpec.ListItems | src/bencoding.rs:272-288 | the loop of `decode_list` never moves back; on success it gives a list |
| DecodeSpec.DictEntries | src/bencoding.rs:245-270 | the loop of `decode_dict` never moves back; on success it gives a dictionary |
| Decoder.DecodeElement | src/bencoding.rs:233-243 | the method's result and final reader state are those of `ElementSpec` |
| Decoder.DecodeDict | src/bencoding.rs:245-270 | the method's result and final reader state are those of `DictEntries`, from the byte after the 'd' |
| Decoder.DecodeEntry | src/bencoding.rs:251-262 | one pass of the loop either fails as `DictEntries` fails, or consumes input and leaves `DictEntries` unchanged with the entry inserted |
| Decoder.DecodeList | src/bencoding.rs:272-288 | the method's result and final reader state are those of `ListItems`, from the byte after the 'l' |
| Decoder.DecodeStr | src/bencoding.rs:290-312 | the method's result and final reader state are those of `StrSpec` |
| Decoder.ReadPayload | src/bencoding.rs:302-304 | `for _ in 0..length` reads `max(length, 0)` bytes, as `Payload` does |
| Decoder.DecodeInt | src/bencoding.rs:314-327 | the method's result and final reader state are those of `IntSpec` |
| Decoder.DecodeBytes | src/bencoding.rs:9-13 | a fresh reader, one `read_byte`, then `decode_element`, gives `Decode` |
| DecodeProperties.ElementShape | src/bencoding.rs:233-243 | a decoded element starts at the byte it was called on and is well formed: first and last byte, parsed text, payload, list items back to back in order, and for a dictionary its key/value pairs back to back with its entries those pairs inserted in input order; the reader is left just past it, or on its 'e' for an integer as written |
| DecodeProperties.StrShape | src/bencoding.rs:290-312 | a decoded string's length text runs to the first ':', parses as `i32`, and the payload is exactly the next `max(length, 0)` bytes |
| DecodeProperties.LengthTextShape | src/bencoding.rs:295-298 | the length-text loop collects the bytes up to the first ':' |
| DecodeProperties.LengthTextColon | src/bencoding.rs:299-306 | at the ':', the collected text is parsed and the payload read |
| DecodeProperties.StrFromPayload | src/bencoding.rs:302-311 | a payload read after the ':' ends the string at its last byte |
| DecodeProperties.PayloadRun | src/bencoding.rs:302-304 | the payload is the `n` bytes after the current one, when that many remain |
| DecodeProperties.PayloadShape | src/bencoding.rs:302-304 | the payload loop appends exactly the bytes it reads |
| DecodeProperties.IntShape | src/bencoding.rs:314-327 | a decoded integer runs from its 'i' to the first 'e' after it, and its text parses as `i64` to its value |
| DecodeProperties.IntBodyShape | src/bencoding.rs:319-326 | the digit loop collects every byte up to the first 'e' |
| DecodeProperties.ListItemsShape | src/bencoding.rs:272-288 | a decoded list's items lie back to back after its 'l', and the list ends at the 'e' after the last one |
| DecodeProperties.ListTiling | src/bencoding.rs:279 | appending an item that starts where the previous ones end keeps the items back to back |
| DecodeProperties.WellFormedSpan | src/bencoding.rs:249-268 | every decoded element spans at least two bytes |
| DecodeProperties.ListClose | src/bencoding.rs:281-287 | a list closes at the 'e' after its items |
| DecodeProperties.DictEntriesShape | src/bencoding.rs:245-270 | a decoded dictionary starts at its 'd'; its key/value pairs lie back to back up to its 'e', and its entries are exactly those pairs inserted one by one in input order; the reader is left just past the 'e' |
| DecodeProperties.DictPairShape | src/bencoding.rs:251-262 | one pass of the loop reads a key placed right after the previous pair and its value right after the key, and the map becomes the earlier map with that pair inserted |
| DecodeProperties.PairTiling | src/bencoding.rs:260-261 | a key and value that start where the earlier pairs end keep the pairs back to back |
| DecodeProperties.DictClose | src/bencoding.rs:263-269 | at the 'e' after the pairs, the dictionary ends there, holds the pairs inserted in order, is well formed, and the reader steps past the 'e' |
| DecodeProperties.InsertedEntries | src/bencoding.rs:248-261 | the map built by inserting the pairs has strictly ascending keys, and each of its entries is one of the pairs |
| DecodeProperties.GetInserted | src/bencoding.rs:261 | looking a key up in the map built from the pairs gives the value of the last pair with that key, so a later value replaces an earlier one |
| DecodeProperties.DictEntriesWithin | src/bencoding.rs:245-270 | a well-formed dictionary's keys ascend, and every value is well formed and lies between its 'd' and its 'e' |
| DecodeProperties.DictContents | src/bencoding.rs:245-270 | a well-formed dictionary is a run of key/value pairs between its 'd' and its 'e', and looking any key up gives the value of the last pair with that key |
| DecodeComplete.IntFrom | src/bencoding.rs:314-327 | a well-formed integer decodes from its 'i' to itself |
| DecodeComplete.StrFrom | src/bencoding.rs:290-312 | a well-formed string decodes from its first digit to itself |
| DecodeComplete.ListFrom | src/bencoding.rs:272-288 | a well-formed list decodes from its 'l' to itself, and the reader ends past its 'e' |
| DecodeComplete.ItemsFrom | src/bencoding.rs:278-287 | from the start of its `i`-th item, the list loop reads the remaining items and closes the list |
| DecodeComplete.DictFrom | src/bencoding.rs:245-270 | a well-formed dictionary decodes from its 'd' to itself, and the reader ends past its 'e' |
| DecodeComplete.PairsFrom | src/bencoding.rs:251-269 | from the start of its `i`-th pair, the dictionary loop reads and inserts the remaining pairs and closes the dictionary |
| DecodeComplete.ElementFrom | src/bencoding.rs:233-243 | decoding from the first byte of a well-formed element gives that element back and leaves the reader where `ElementShape` says |
| DecodeComplete.DecodeExactly | src/bencoding.rs:233-243 | `decode` returns a tree exactly when that tree is well formed in the input and starts at offset 0 |
| Slices.WellFormedMoved | src/bencoding.rs:233-243 | a well-formed element is still well formed in any window of the input that holds it, with its offsets counted from the window's start |
| Slices.SliceDecodes | src/bencoding.rs:233-243 | the bytes of a well-formed element, cut out of the input, decode on their own to the same element with its offsets counted from its first byte |
| Slices.ElementSliceDecodes | src/bencoding.rs:233-243 | whatever `decode_element` returns from offset `k`, the bytes from `k` through its last byte decode on their own to it |
| DecodeRuns.LengthTextAt | src/bencoding.rs:295-298 | the length-text loop collects exactly the bytes up to a given ':' |
| DecodeRuns.IntBodyAt | src/bencoding.rs:319-326 | the digit loop collects exactly the bytes up to a given 'e', then parses them |
| DecodeRuns.StrSpecAt | src/bencoding.rs:290-312 | a string whose length text ends at a given ':' and whose payload fits decodes to that payload |
| DecodeRuns.IntSpecAt | src/bencoding.rs:314-327 | an integer whose text ends at a given 'e' and parses decodes to that value |
| Vectors.StrVector | src/bencoding.rs:31-51 | "6:Coding" decodes to "Coding" at offsets 0..7 |
| Vectors.IntVector | src/bencoding.rs:53-73 | "i100e" decodes to 100 at offsets 0..4 |
| Vectors.ListVector | src/bencoding.rs:75-106 | "l6:Coding10:Challengese" decodes to the two strings at 1..8 and 9..21, in a list at 0..22 |
| Vectors.DictVector | src/bencoding.rs:108-152 | the nested dictionary of the dictionary test decodes with the values and offsets the test asserts |
| Vectors.EmptyInputPanics | src/bencoding.rs:236 | an empty input panics in `get_byte().unwrap()` |
| Vectors.UnknownTagVector | src/bencoding.rs:241 | an unknown first byte is an `Err`, and the reader stays on it |
| Vectors.NotANumberVector | src/bencoding.rs:323 | a non-digit in an integer is an `Err` |
| Vectors.EmptyIntVector | src/bencoding.rs:323 | an empty integer is an `Err` |
| Vectors.UnclosedIntVector | src/bencoding.rs:319-320 | an integer cut off before its 'e' panics |
| Vectors.BadLengthVector | src/bencoding.rs:299 | a string length that is not a number panics |
| Vectors.ShortPayloadVector | src/bencoding.rs:302-304 | a payload shorter than its length panics |
| Findings.ChildrenWithin | src/bencoding.rs:272-288 | every child of a well-formed list or dictionary lies between its parent's first and last byte, in either mode |
| Findings.DecodedChildrenInside | src/bencoding.rs:314-327 | with the corrected `decode_int`, every child of a decoded container starts after its parent's first byte and ends before its last |
| Findings.OneIntListAsWritten | src/bencoding.rs:314-327 | as written, the integer in "li1ee" ends on the list's own last byte |
| Findings.OneIntListCorrected | src/bencoding.rs:314-327 | corrected, "li1ee" is a list at 0..4 holding the integer at 1..3 |
| Findings.TwoIntListAsWritten | src/bencoding.rs:314-327 | as written, "li1ei2ee" decodes to a list of only its first integer |
| Findings.TwoIntListCorrected | src/bencoding.rs:314-327 | corrected, "li1ei2ee" decodes to the list of both integers |
| Findings.RepeatedKeyAsWritten | src/bencoding.rs:245-270 | as written, "d1:ai1e1:ai2ee" decodes to {"a": 1} at 0..6 |
| Findings.RepeatedKeyCorrected | src/bencoding.rs:245-270 | corrected, "d1:ai1e1:ai2ee" decodes to {"a": 2} at 0..13: the later value wins |
| InfoFinding.InfoTorrentDecodes | src/torrent_file.rs:82-94 | "d4:infod1:a1:bee" decodes, and its info dictionary is at offsets 7..14 |
| InfoFinding.InfoSliceAsWritten | src/torrent_file.rs:95-98 | as written, the bytes hashed for that torrent are "d1:a1:b", which does not decode |
| InfoFinding.InfoSliceCorrected | src/torrent_file.rs:95-98 | corrected, the bytes hashed are "d1:a1:be", which decodes to the info dictionary's contents |
| TorrentFile.ExtractString | src/torrent_file.rs:27-46 | a found string is stored under the key in the root dictionary |
| TorrentFile.ExtractStringExact | src/torrent_file.rs:27-46 | in a dictionary with ascending keys, `extract_string` finds a string exactly when one is stored under the key |
| TorrentFile.ExtractInt | src/torrent_file.rs:49-68 | a found integer is stored under the key in the root dictionary |
| TorrentFile.ExtractIntExact | src/torrent_file.rs:49-68 | in a dictionary with ascending keys, `extract_int` finds an integer exactly when one is stored under the key |
| TorrentFile.InfoDict | src/torrent_file.rs:82-94 | the info dictionary is found only as a dictionary under "info"; when it is not found, no "info" entry holds a dictionary |
| TorrentFile.ReadSpan | src/torrent_file.rs:98-101 | `read_exact` succeeds exactly when the bytes are there (or none are asked for) and gives those bytes |
| TorrentFile.InfoBytes | src/torrent_file.rs:95-101 | bytes are hashed only when there is an info dictionary |
| TorrentFile.InfoHash | src/torrent_file.rs:78-110 | a hash exists exactly when the info bytes can be read, and it is the hash of those bytes |
| TorrentFile.InfoHashNone | src/torrent_file.rs:82-109 | `None` exactly when there is no info dictionary or its bytes run past the end of the data |
| TorrentFile.DecodedInfo | src/torrent_file.rs:95 | in a decoded torrent, the info dictionary lies inside the data from a 'd' to an 'e', so the subtraction cannot underflow |
| TorrentFile.InfoBytesAsWritten | src/torrent_file.rs:95-98 | as written, the bytes hashed for a decoded torrent are the info dictionary without its closing 'e' |
| TorrentFile.InfoBytesCorrected | src/torrent_file.rs:95-98 | corrected, the bytes hashed are the info dictionary's whole encoding, from 'd' to 'e', and decoded on their own they give back the info dictionary |
| TorrentFile.InfoWellFormed | src/torrent_file.rs:82-94 | the info dictionary of a decoded torrent is well formed in the data |
| TorrentFile.ByteCursor.constructor | src/torrent_file.rs:80 | a cursor over the data starts at position 0 |
| TorrentFile.ByteCursor.SetPosition | src/torrent_file.rs:97 | `set_position` moves to any offset |
| TorrentFile.ByteCursor.ReadExact | src/torrent_file.rs:98-101 | `read_exact` gives the bytes at the position and moves past them, or fails and leaves the position at the end |
| TorrentFile.CalculateInfoHash | src/torrent_file.rs:78-110 | the method gives `InfoHash`, whatever the cursor's earlier position; the cursor ends after the bytes hashed, or at the end of the data on failure |
| TorrentFile.CalculateInfoHashAsString | src/torrent_file.rs:70-76 | `None` exactly when there is no hash; otherwise the hex text of the hash |
| TorrentFile.InfoHashText | src/torrent_file.rs:75 | a 20-byte digest becomes 40 lowercase hex digits, from which it can be read back |
| Hex.Digit | src/torrent_file.rs:75 | every digit written is '0'-'9' or 'a'-'f' |
| Hex.Encode | src/torrent_file.rs:75 | two lowercase hex digits per byte |
| Hex.DecodeEncode | src/torrent_file.rs:75 | the hex text reads back to the bytes it was made from |
| Hex.EncodeInjective | src/torrent_file.rs:75 | different bytes give different hex text |
| Render.Ellipsize | src/bencoding_helper.rs:56-63 | a string of at most `max_len` chars is unchanged; a longer one becomes exactly `max_len` chars: its first `max_len - 3` chars, then "..." |
| Render.EllipsizeIdempotent | src/bencoding_helper.rs:56-63 | shortening an already shortened string changes nothing |
| Render.Chars | src/bencoding.rs:303 | one char per payload byte, with the byte's value |
| Render.Pad | src/bencoding.rs:186 | `" ".repeat(n)` is `n` spaces |
| Render.Shown | src/bencoding_helper.rs:28 | `Display` shows a string whole; `pretty_print` shows it whole when it has at most 120 chars, and never more than 120 |
| Render.Lines | src/bencoding.rs:180-225 | the number of lines depends only on the tree: one per scalar, two more than its children's for a container |
| Render.Body | src/bencoding.rs:204-222 | the lines after a node's first line: one fewer than the node's |
| Render.ItemLines | src/bencoding.rs:206-208 | the items of a list take their own lines, no more |
| Render.EntryLines | src/bencoding.rs:217-220 | the entries of a dictionary take their values' lines, no more |
| Render.DisplayLines | src/bencoding.rs:227-231 | `Display` prints as many lines as `Lines` counts |
| Render.PrettyPrintLines | src/bencoding_helper.rs:6-8 | `pretty_print` prints as many lines as `Display` |
| Render.Shifted | src/bencoding.rs:186 | each line gets the given number of spaces in front |
| Render.AttachDropsPad | src/bencoding.rs:194 | printing a node attached only drops the pad before its first line; at indent 0 both are the same |
| Render.LinesIndented | src/bencoding.rs:180-225 | every line of a node printed at `indent` starts with `indent` spaces, except the first line of an attached node |
| Render.BodyIndented | src/bencoding.rs:204-222 | every line after a node's first starts with its indent |
| Render.ItemLinesIndented | src/bencoding.rs:206-208 | every line of a list's items starts with the items' indent |
| Render.EntryLinesIndented | src/bencoding.rs:217-220 | every line of a dictionary's entries starts with the dictionary's indent |
| Render.LinesShifted | src/bencoding.rs:180-225 | printing a node `k` columns further in puts `k` more spaces before every line, and changes nothing else |
| Render.BodyShifted | src/bencoding.rs:204-222 | the same for the lines after the first |
| Render.ItemLinesShifted | src/bencoding.rs:206-208 | the same for a list's items |
| Render.EntryLinesShifted | src/bencoding.rs:217-220 | the same for a dictionary's entries |
| Render.ShortStringsShownWhole | src/bencoding_helper.rs:28 | with no string over 120 chars, shortening changes no line |
| Render.BodyShownWhole | src/bencoding_helper.rs:28 | the same for a node's first line and its other lines |
| Render.ItemsShownWhole | src/bencoding_helper.rs:35-37 | the same for a list's items |
| Render.EntriesShownWhole | src/bencoding_helper.rs:46-49 | the same for a dictionary's entries |
| Render.PrettyPrintShiftsDisplay | src/bencoding_helper.rs:6-8 | with no string over 120 chars, `pretty_print` prints the lines of `Display`, each two spaces further in |
| Render.PrettyPrintStr | src/bencoding_helper.rs:24-28 | `pretty_print` of a string is one line of at most 124 chars: two spaces, a quote, the string (or its first 117 chars and "..."), a quote |
| Render.QuotedShortened | src/bencoding_helper.rs:28 | a quoted shortened string has at most 124 chars and ends in "...\"" when shortened |
| Render.DisplayInt | src/bencoding.rs:190-194 | `Display` of an integer is one line of its decimal text, which parses back to the integer |
| Render.ItemLinesConcat | src/bencoding.rs:206-208 | a list prints its items in order |
| Render.EntryLinesConcat | src/bencoding.rs:217-220 | a dictionary prints its entries in the map's order, which is ascending key order for decoded dictionaries |
| Render.EntryLinesOne | src/bencoding.rs:218-219 | an entry prints `pad  "key": `, then its value's first line on the same line, then the value's other lines at `indent + 4` |

## Left out

- Opening a file (`decode_from_file`, src/bencoding.rs:9-13) and fetching a URL (`decode_from_url`, src/bencoding.rs:15-19) are left out: the model starts from the bytes already in memory. An I/O error from `BufReader::read`, which `read_byte` turns into a panic with `expect`, cannot happen in the model.
- SHA-1 is not modelled. It is the parameter `hash` of the info-hash functions and methods.
- `main` (src/main.rs:23-61) is left out: it parses arguments, opens a file or a URL, and prints. It prints the tree with `Display` (src/main.rs:33), which `DisplayLines` models. It prints the "announce" value in its `Debug` form (src/main.rs:43), which is not modelled. It prints the info dictionary's start and end offsets (src/main.rs:52); `ElementShape` and `DecodedInfo` state what those offsets are, but the line itself is not modelled.
- `print_core_information` (src/torrent_file.rs:7-24) is left out. It prints the results of `extract_string` and `extract_int`; the integers are printed in their `Debug` form (`Some(…)` or `None`), which is not modelled.
- Output: `writeln!`, `print!` and `println!` are modelled as the lines they write. A `fmt::Error` from the formatter cannot happen in the model. A newline byte inside a string value splits a line of the real output, but not of the model's.
- The `_ => "Error"` arm of `decode_dict` (src/bencoding.rs:258) is left out because `decode_str` only ever returns a string element, so that arm cannot be reached.
- The test resource files under `resources/test/` are not part of this model. The concrete inputs stand in for them.
- Reader.BinFileReader.GetCurrentIndex: requires at least one byte read, because the `usize` subtraction `no_of_bytes_read - 1` panics otherwise. The decoder calls it only after a byte was read.
- TorrentFile.CalculateInfoHash: requires `InfoSpanFits`, because the `usize` subtraction `end_index - start_index` panics otherwise. `DecodedInfo` proves that every decoded torrent meets it.
- TorrentFile.CalculateInfoHashAsString: requires `InfoSpanFits`, for the same reason.
- TorrentFile.InfoBytes: requires `InfoSpanFits`, for the same reason.
- TorrentFile.InfoHash: requires `InfoSpanFits`, for the same reason.
- Render.Ellipsize: requires `max_len >= 3` when the string is longer than `max_len`, because `max_len - 3` underflows otherwise. The source only ever passes 120.
- `Hex.Decode` does not model any source code. It exists only to state that `hex::encode` loses nothing.
- Decoder.DecodeStr: has no `Mode`, because the correction does not touch `decode_str`.
- Decoder.ReadPayload: has no `Mode`, for the same reason.

## Findings

| source | as written | input that shows it | evidently intended | confidence | as-written member | corrected member |
|---|---|---|---|---|---|---|
| src/bencoding.rs:314-327 | `decode_int` leaves the reader on its closing 'e'. An enclosing list or dictionary then reads that 'e' as its own end. | "li1ei2ee" decodes to a list holding only 1, ending at offset 3 | step past the 'e', as `decode_str`, `decode_list` and `decode_dict` do, so the list holds 1 and 2 | high (not executed) | Findings.TwoIntListAsWritten | Findings.TwoIntListCorrected |
| src/bencoding.rs:245-270 | Because of row 1, a dictionary closes after its first integer value. A repeated key is never reached. | "d1:ai1e1:ai2ee" decodes to {"a": 1} at offsets 0..6 | read both pairs; the later value for "a" wins (`BTreeMap::insert` at src/bencoding.rs:261 replaces the earlier value) | high (not executed) | Findings.RepeatedKeyAsWritten | Findings.RepeatedKeyCorrected |
| src/torrent_file.rs:95-98 | `calculate_info_hash` reads `end_index - start_index` bytes. `end_index` is the offset of the info dictionary's closing 'e', so that byte is not hashed. | "d4:infod1:a1:bee": the bytes hashed are "d1:a1:b" | hash the info dictionary's whole encoding, `end_index - start_index + 1` bytes: "d1:a1:be" | high (not executed) | InfoFinding.InfoSliceAsWritten | InfoFinding.InfoSliceCorrected |
