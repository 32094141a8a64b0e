/**
 * Bytes and decimal numbers as the decoder sees them.
 *
 * The decoder collects the text of a string length or of an integer body
 * byte by byte and hands it to Rust's `str::parse::<i32>()` or
 * `str::parse::<i64>()`. `ParseSigned` models those parsers: an optional
 * `+` or `-`, then at least one ASCII digit, and a value inside the
 * target type's range. `Decimal` is the inverse direction (Rust's
 * `Display` for integers), used by the renderers.
 */
module Numbers {

  /** An unsigned 8-bit value (Rust `u8`). */
  type byte = x: int | 0 <= x < 256

  datatype Option<+T> = None | Some(value: T)

  const MinI32: int := -0x8000_0000
  const MaxI32: int := 0x7fff_ffff
  const MinI64: int := -0x8000_0000_0000_0000
  const MaxI64: int := 0x7fff_ffff_ffff_ffff

  // ASCII codes the decoder branches on
  const Zero: byte := 48   // '0'
  const Nine: byte := 57   // '9'
  const Colon: byte := 58  // ':'
  const Plus: byte := 43   // '+'
  const Minus: byte := 45  // '-'

  predicate IsDigit(b: byte) {
    Zero <= b <= Nine
  }

  predicate AllDigits(s: seq<byte>) {
    forall i :: 0 <= i < |s| ==> IsDigit(s[i])
  }

  /**
   * The value of the digits `acc` followed by the run `s`, most
   * significant first, scanning left to right as Rust's parser does;
   * `None` if some byte of `s` is not a digit.
   */
  function DigitsValue(s: seq<byte>, acc: nat): Option<nat> {
    if |s| == 0 then Some(acc)
    else if IsDigit(s[0]) then DigitsValue(s[1..], acc * 10 + (s[0] - Zero))
    else None
  }

  /**
   * Rust's `<iN as FromStr>::from_str` for a signed type whose range is
   * `lo..=hi`: empty text, a lone sign, any non-digit after the optional
   * sign, and a value outside the range are all failures.
   */
  function ParseSigned(s: seq<byte>, lo: int, hi: int): (r: Option<int>)
    ensures r.Some? ==> lo <= r.value <= hi
    ensures r.Some? ==> |s| > 0 && (r.value < 0 ==> s[0] == Minus) && (s[0] == Minus ==> r.value <= 0)
  {
    if |s| == 0 then None
    else
      var digits := if s[0] == Plus || s[0] == Minus then s[1..] else s;
      if |digits| == 0 then None
      else
        match DigitsValue(digits, 0)
        case None => None
        case Some(magnitude) =>
          var v: int := if s[0] == Minus then -(magnitude as int) else magnitude;
          if lo <= v <= hi then Some(v) else None
  }

  function ParseI32(s: seq<byte>): Option<int> {
    ParseSigned(s, MinI32, MaxI32)
  }

  function ParseI64(s: seq<byte>): Option<int> {
    ParseSigned(s, MinI64, MaxI64)
  }

  /** The decimal digits of `n`, without leading zeros. */
  function NatDigits(n: nat): (s: seq<byte>)
    ensures |s| > 0 && AllDigits(s)
    ensures n > 0 ==> s[0] != Zero
  {
    if n < 10 then [Zero + n] else NatDigits(n / 10) + [Zero + n % 10]
  }

  /** Rust's `Display` text of an integer: a `-` for negatives, then the digits. */
  function Decimal(v: int): (s: seq<byte>)
    ensures |s| > 0
  {
    if v < 0 then [Minus] + NatDigits(-v) else NatDigits(v)
  }

  /** Scanning one more digit multiplies the value so far by ten and adds the digit. */
  lemma {:induction false} DigitsValueSnoc(s: seq<byte>, d: byte, acc: nat)
    requires IsDigit(d) && DigitsValue(s, acc).Some?
    ensures DigitsValue(s + [d], acc) == Some(DigitsValue(s, acc).value * 10 + (d - Zero))
    decreases |s|
  {
    if |s| > 0 {
      assert (s + [d])[1..] == s[1..] + [d];
      DigitsValueSnoc(s[1..], d, acc * 10 + (s[0] - Zero));
    }
  }

  lemma {:induction false} NatDigitsValue(n: nat)
    ensures DigitsValue(NatDigits(n), 0) == Some(n)
  {
    if n >= 10 {
      NatDigitsValue(n / 10);
      DigitsValueSnoc(NatDigits(n / 10), Zero + n % 10, 0);
    }
  }

  /** Parsing the decimal text of an in-range integer gives it back. */
  lemma ParseDecimal(v: int, lo: int, hi: int)
    requires lo <= v <= hi
    ensures ParseSigned(Decimal(v), lo, hi) == Some(v)
  {
    var s := Decimal(v);
    if v < 0 {
      assert s[1..] == NatDigits(-v);
      NatDigitsValue(-v);
    } else {
      assert IsDigit(s[0]);
      NatDigitsValue(v);
    }
  }

  /** A run `DigitsValue` accepts is made of digits only. */
  lemma {:induction false} DigitsOnly(s: seq<byte>, acc: nat)
    requires DigitsValue(s, acc).Some?
    ensures AllDigits(s)
    decreases |s|
  {
    if |s| > 0 {
      DigitsOnly(s[1..], acc * 10 + (s[0] - Zero));
      assert forall i :: 1 <= i < |s| ==> s[i] == s[1..][i - 1];
    }
  }

  /**
   * Text the parser accepts holds no byte other than digits and a leading
   * sign; in particular no ':' and no 'e', the bytes that end a length
   * text and an integer body.
   */
  lemma ParsedBytes(s: seq<byte>, lo: int, hi: int, b: byte)
    requires ParseSigned(s, lo, hi).Some?
    requires !IsDigit(b) && b != Plus && b != Minus
    ensures b !in s
  {
    var signed := s[0] == Plus || s[0] == Minus;
    var digits := if signed then s[1..] else s;
    DigitsOnly(digits, 0);
    forall i | 0 <= i < |s|
      ensures s[i] != b
    {
      if signed && i > 0 {
        assert s[i] == digits[i - 1];
      } else if !signed {
        assert s[i] == digits[i];
      }
    }
  }

}
