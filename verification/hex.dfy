/**
 * `hex::encode`, the last step of `calculate_info_hash_as_string`
 * (src/torrent_file.rs:70-76): every byte becomes two lowercase hex
 * digits, high nibble first. `Decode` is its inverse and exists to state
 * that no information is lost.
 */
module Hex {
  import opened Numbers

  /** The digits `hex::encode` writes: '0'-'9' and 'a'-'f'. */
  predicate IsLowerHex(ch: char) {
    '0' <= ch <= '9' || 'a' <= ch <= 'f'
  }

  function Digit(n: int): (ch: char)
    requires 0 <= n < 16
    ensures IsLowerHex(ch)
  {
    if n < 10 then (48 + n) as char else (87 + n) as char
  }

  function DigitValue(ch: char): (n: int)
    requires IsLowerHex(ch)
    ensures 0 <= n < 16
  {
    if ch <= '9' then ch as int - 48 else ch as int - 87
  }

  lemma DigitRoundTrip(n: int)
    requires 0 <= n < 16
    ensures DigitValue(Digit(n)) == n
  {
  }

  function Encode(bytes: seq<byte>): (s: seq<char>)
    ensures |s| == 2 * |bytes|
    ensures forall i :: 0 <= i < |s| ==> IsLowerHex(s[i])
  {
    if |bytes| == 0 then []
    else [Digit(bytes[0] / 16), Digit(bytes[0] % 16)] + Encode(bytes[1..])
  }

  function Decode(s: seq<char>): (r: Option<seq<byte>>)
    ensures r.Some? ==> 2 * |r.value| == |s|
  {
    if |s| == 0 then Some([])
    else if |s| == 1 || !IsLowerHex(s[0]) || !IsLowerHex(s[1]) then None
    else
      match Decode(s[2..])
      case None => None
      case Some(rest) => Some([DigitValue(s[0]) * 16 + DigitValue(s[1])] + rest)
  }

  /** Decoding the text `hex::encode` produces gives back the bytes. */
  lemma {:induction false} DecodeEncode(bytes: seq<byte>)
    ensures Decode(Encode(bytes)) == Some(bytes)
  {
    if |bytes| > 0 {
      var s := Encode(bytes);
      var b := bytes[0];
      DigitRoundTrip(b / 16);
      DigitRoundTrip(b % 16);
      assert s[2..] == Encode(bytes[1..]);
      DecodeEncode(bytes[1..]);
      assert bytes == [b] + bytes[1..];
    }
  }

  /** Two texts that encode the same bytes are equal, and so are the bytes. */
  lemma EncodeInjective(a: seq<byte>, b: seq<byte>)
    requires Encode(a) == Encode(b)
    ensures a == b
  {
    DecodeEncode(a);
    DecodeEncode(b);
  }
}
