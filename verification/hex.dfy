/** Hexadecimal numerals: Python's `02x`/`02X` formats, `bytes.hex()` and `bytes.fromhex()`. */
module Hex {
  import opened Wrappers
  import opened Text
  import opened Bytes

  /** The digit for `n`, lower- or upper-case. */
  function Digit(n: nat, upper: bool): char
    requires n < 16
  {
    if n < 10 then ('0' as int + n) as char
    else if upper then ('A' as int + n - 10) as char
    else ('a' as int + n - 10) as char
  }

  predicate IsHexDigit(c: char) {
    '0' <= c <= '9' || 'a' <= c <= 'f' || 'A' <= c <= 'F'
  }

  predicate IsUpperHexDigit(c: char) {
    '0' <= c <= '9' || 'A' <= c <= 'F'
  }

  predicate AllHexDigits(s: string) {
    forall i :: 0 <= i < |s| ==> IsHexDigit(s[i])
  }

  predicate AllUpperHexDigits(s: string) {
    forall i :: 0 <= i < |s| ==> IsUpperHexDigit(s[i])
  }

  /** The value of one digit, in either case. */
  function DigitValue(c: char): (n: nat)
    requires IsHexDigit(c)
    ensures n < 16
  {
    if c <= '9' then c as int - '0' as int
    else if c <= 'F' then c as int - 'A' as int + 10
    else c as int - 'a' as int + 10
  }

  /** Reading a digit back gives the number it was written for, in either case. */
  lemma DigitRoundTrip(n: nat, upper: bool)
    requires n < 16
    ensures IsHexDigit(Digit(n, upper)) && DigitValue(Digit(n, upper)) == n
    ensures upper ==> IsUpperHexDigit(Digit(n, upper))
    ensures UpperChar(Digit(n, false)) == Digit(n, true)
  {
  }

  /** The number a hexadecimal numeral denotes, most significant digit first. */
  function Value(s: string): nat
    requires AllHexDigits(s)
    decreases |s|
  {
    if |s| == 0 then 0 else Value(s[..|s| - 1]) * 16 + DigitValue(s[|s| - 1])
  }

  /** The shortest upper-case numeral of `n`. */
  function Numeral(n: nat): (s: string)
    ensures 1 <= |s| && AllUpperHexDigits(s) && AllHexDigits(s)
    ensures Value(s) == n
    ensures n < 16 <==> |s| == 1
    ensures n < 256 <==> |s| <= 2
    ensures |s| > 1 ==> s[0] != '0'
    decreases n
  {
    DigitRoundTrip(n % 16, true);
    if n < 16 then [Digit(n, true)]
    else
      var front := Numeral(n / 16);
      var s := front + [Digit(n % 16, true)];
      assert s[..|s| - 1] == front;
      s
  }

  /** `f"{n:02X}"`: the upper-case numeral of `n`, zero-padded to at least two digits. */
  function Pad2(n: nat): (s: string)
    ensures 2 <= |s| && AllUpperHexDigits(s) && AllHexDigits(s)
    ensures Value(s) == n
    ensures n < 256 <==> |s| == 2
    ensures |s| > 2 ==> s[0] != '0'
  {
    var h := Numeral(n);
    if |h| < 2 then
      var s := ['0'] + h;
      assert s[..1] == ['0'];
      s
    else h
  }

  /** `f"{b:02x}"` (or `02X`): two digits, high nibble first. */
  function ByteHex(b: byte, upper: bool): (s: string)
    ensures |s| == 2 && AllHexDigits(s)
    ensures Value(s) == b as int
  {
    DigitRoundTrip(b as int / 16, upper);
    DigitRoundTrip(b as int % 16, upper);
    var s := [Digit(b as int / 16, upper), Digit(b as int % 16, upper)];
    assert s[..1] == [s[0]] && s[..1][..0] == [];
    assert Value(s[..1]) == b as int / 16;
    s
  }

  /** For a byte, `02X` of its value is its upper-case two-digit form. */
  lemma {:induction false} Pad2OfByte(b: byte)
    ensures Pad2(b as int) == ByteHex(b, true)
  {
    var n := b as int;
    if n >= 16 {
      assert Numeral(n) == Numeral(n / 16) + [Digit(n % 16, true)];
      assert Numeral(n / 16) == [Digit(n / 16, true)];
    }
  }

  /** `bytes.hex()` (lower case) or its upper-cased form: two digits per byte, in order. */
  function BytesHex(bs: seq<byte>, upper: bool): (s: string)
    ensures |s| == 2 * |bs|
    decreases |bs|
  {
    if |bs| == 0 then "" else ByteHex(bs[0], upper) + BytesHex(bs[1..], upper)
  }

  /** `':'.join(f'{b:02x}' for b in bs)` (or `02X`). */
  function ColonHex(bs: seq<byte>, upper: bool): (s: string)
    ensures bs == [] ==> s == []
    ensures bs != [] ==> |s| == 3 * |bs| - 1
    decreases |bs|
  {
    if |bs| == 0 then ""
    else if |bs| == 1 then ByteHex(bs[0], upper)
    else ByteHex(bs[0], upper) + ":" + ColonHex(bs[1..], upper)
  }

  /** The `i`-th colon-separated group of `ColonHex(bs, upper)` is the two digits of `bs[i]`. */
  lemma {:induction false} ColonHexGroups(bs: seq<byte>, upper: bool)
    ensures forall i :: 0 <= i < |bs| ==>
      && ColonHex(bs, upper)[3 * i] == Digit(bs[i] as int / 16, upper)
      && ColonHex(bs, upper)[3 * i + 1] == Digit(bs[i] as int % 16, upper)
      && (i + 1 < |bs| ==> ColonHex(bs, upper)[3 * i + 2] == ':')
    decreases |bs|
  {
    if |bs| > 1 {
      var rest := ColonHex(bs[1..], upper);
      var s := ColonHex(bs, upper);
      ColonHexGroups(bs[1..], upper);
      assert s == ByteHex(bs[0], upper) + ":" + rest;
      forall i | 1 <= i < |bs|
        ensures s[3 * i] == Digit(bs[i] as int / 16, upper)
        ensures s[3 * i + 1] == Digit(bs[i] as int % 16, upper)
        ensures i + 1 < |bs| ==> s[3 * i + 2] == ':'
      {
        assert bs[i] == bs[1..][i - 1];
        assert s[3 * i] == rest[3 * (i - 1)];
        assert s[3 * i + 1] == rest[3 * (i - 1) + 1];
        if i + 1 < |bs| {
          assert s[3 * i + 2] == rest[3 * (i - 1) + 2];
        }
      }
    }
  }

  /** The whitespace `bytes.fromhex` skips between byte pairs (Python's `Py_ISSPACE`). */
  predicate IsAsciiSpace(c: char) {
    c == ' ' || '\t' <= c <= '\r'
  }

  /**
   `bytes.fromhex(s)`: pairs of hex digits in either case, with ASCII whitespace allowed
   before any pair; anything else, a non-ASCII character or an unpaired digit fails.
   */
  function FromHex(s: string): (r: Option<seq<byte>>)
    ensures r.Some? ==> AllAscii(s) && 2 * |r.value| <= |s|
    decreases |s|
  {
    if |s| == 0 then Some([])
    else if IsAsciiSpace(s[0]) then
      var r := FromHex(s[1..]);
      assert r.Some? ==> AllAscii(s) by {
        if r.Some? {
          assert forall i :: 1 <= i < |s| ==> s[i] == s[1..][i - 1];
        }
      }
      r
    else if |s| >= 2 && IsHexDigit(s[0]) && IsHexDigit(s[1]) then
      match FromHex(s[2..])
      case None => None
      case Some(rest) =>
        assert forall i :: 2 <= i < |s| ==> s[i] == s[2..][i - 2];
        Some([(DigitValue(s[0]) * 16 + DigitValue(s[1])) as byte] + rest)
    else None
  }

  /** `bytes.fromhex` undoes `bytes.hex()`, in either case. */
  lemma {:induction false} FromHexOfBytesHex(bs: seq<byte>, upper: bool)
    ensures FromHex(BytesHex(bs, upper)) == Some(bs)
    decreases |bs|
  {
    if bs != [] {
      var b := bs[0];
      var s := BytesHex(bs, upper);
      DigitRoundTrip(b as int / 16, upper);
      DigitRoundTrip(b as int % 16, upper);
      assert s[2..] == BytesHex(bs[1..], upper);
      FromHexOfBytesHex(bs[1..], upper);
      assert bs == [b] + bs[1..];
    }
  }

  /** Upper-casing `bytes.hex()` gives the upper-case form. */
  lemma {:induction false} UpperBytesHex(bs: seq<byte>)
    ensures Upper(BytesHex(bs, false)) == BytesHex(bs, true)
    decreases |bs|
  {
    if bs != [] {
      UpperBytesHex(bs[1..]);
      DigitRoundTrip(bs[0] as int / 16, false);
      DigitRoundTrip(bs[0] as int % 16, false);
      var lo := BytesHex(bs, false);
      var hi := BytesHex(bs, true);
      assert forall i :: 2 <= i < |lo| ==> lo[i] == BytesHex(bs[1..], false)[i - 2];
      assert forall i :: 2 <= i < |hi| ==> hi[i] == BytesHex(bs[1..], true)[i - 2];
    }
  }
}
