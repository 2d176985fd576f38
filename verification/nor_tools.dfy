/**
 The NOR-image helpers of the UART handler: the size and readability check every other helper
 runs first, the digital-edition variant rewrite, MAC and serial extraction, the version
 report, the hexadecimal string conversions and the byte-pattern search.
 */
module NorTools {
  import opened Wrappers
  import opened Text
  import opened Bytes
  import opened Hex
  import opened UartErrors
  import opened NorHandler

  /** The fields the handler knows, by offset; each is read through at most 16 bytes. */
  const FIELD_OFFSETS: seq<nat> :=
    [OFFSET_ONE, OFFSET_TWO, WIFI_MAC_OFFSET, LAN_MAC_OFFSET, SERIAL_OFFSET, VARIANT_OFFSET, MOBO_SERIAL_OFFSET]

  /** Python's `max` of a non-empty sequence. */
  function Max(s: seq<nat>): (m: nat)
    requires s != []
    ensures m in s
    ensures forall i :: 0 <= i < |s| ==> s[i] <= m
    decreases |s|
  {
    if |s| == 1 then s[0]
    else
      var rest := Max(s[1..]);
      assert forall i :: 1 <= i < |s| ==> s[i] == s[1..][i - 1];
      if s[0] >= rest then s[0] else rest
  }

  /**
   The smallest image `validate_nor_file` accepts: 16 bytes past the largest field offset,
   which is the WiFi MAC's (`MinNorSizeIsMax`).
   */
  const MIN_NOR_SIZE: nat := WIFI_MAC_OFFSET + 16

  /** Every field lies inside an image of the minimum size. */
  lemma FieldsFit()
    ensures forall i :: 0 <= i < |FIELD_OFFSETS| ==> FIELD_OFFSETS[i] + 16 <= MIN_NOR_SIZE
  {
    MinNorSizeIsMax();
  }

  lemma MinNorSizeIsMax()
    ensures MIN_NOR_SIZE == Max(FIELD_OFFSETS) + 16
  {
    var m := Max(FIELD_OFFSETS);
    assert FIELD_OFFSETS[2] == WIFI_MAC_OFFSET;
    assert forall i :: 0 <= i < |FIELD_OFFSETS| ==> FIELD_OFFSETS[i] <= WIFI_MAC_OFFSET;
  }

  /** Some byte of the field is a non-NUL ASCII character, so its text is not empty. */
  predicate Readable(nor: seq<byte>, offset: nat)
    requires offset + 16 <= |nor|
  {
    exists i :: offset <= i < offset + 16 && 0 < nor[i] < 128
  }

  lemma ReadableField(nor: seq<byte>, offset: nat)
    requires offset + 16 <= |nor|
    ensures FieldText(nor[offset..offset + 16]) != [] <==> Readable(nor, offset)
  {
    var field := nor[offset..offset + 16];
    if Readable(nor, offset) {
      var i :| offset <= i < offset + 16 && 0 < nor[i] < 128;
      assert field[i - offset] == nor[i];
    } else {
      assert forall j :: 0 <= j < 16 ==> field[j] == nor[offset + j];
    }
  }

  /**
   `validate_nor_file`: the image reaches `MIN_NOR_SIZE` bytes and the 16-byte fields at
   OFFSET_ONE and OFFSET_TWO each hold a non-NUL ASCII byte (their NUL-stripped text, with
   other bytes dropped, is not empty).
   */
  function ValidateNorFile(nor: seq<byte>): (ok: bool)
    ensures ok <==> |nor| >= MIN_NOR_SIZE && Readable(nor, OFFSET_ONE) && Readable(nor, OFFSET_TWO)
    ensures ok ==> forall i :: 0 <= i < |FIELD_OFFSETS| ==> FIELD_OFFSETS[i] + 16 <= |nor|
  {
    if |nor| < MIN_NOR_SIZE then false
    else
      var version := FieldText(nor[OFFSET_ONE..OFFSET_ONE + 16]);
      var variant := FieldText(nor[OFFSET_TWO..OFFSET_TWO + 16]);
      FieldsFit();
      ReadableField(nor, OFFSET_ONE);
      ReadableField(nor, OFFSET_TWO);
      version != [] && variant != []
  }

  const DIGITAL: string := "DIGITAL"

  /**
   `convert_to_digital_edition`: an image that fails validation is rejected; otherwise a
   same-length copy whose seven bytes at VARIANT_OFFSET spell "DIGITAL" and which agrees
   with the original everywhere else.
   */
  function ConvertToDigitalEdition(nor: seq<byte>): (r: Result<seq<byte>, UartError>)
    ensures r.Failure? <==> !ValidateNorFile(nor)
    ensures r.Failure? ==> r.error == InvalidNor
    ensures r.Success? ==> |r.value| == |nor|
    ensures r.Success? ==> forall i :: 0 <= i < |DIGITAL| ==> r.value[VARIANT_OFFSET + i] as int == DIGITAL[i] as int
    ensures r.Success? ==> forall i :: 0 <= i < |nor| && !(VARIANT_OFFSET <= i < VARIANT_OFFSET + |DIGITAL|) ==> r.value[i] == nor[i]
  {
    if !ValidateNorFile(nor) then Failure(InvalidNor)
    else
      DigitalIsPrintable();
      FieldsFit();
      Success(Splice(nor, VARIANT_OFFSET, AsciiBytes(DIGITAL)))
  }

  /** Two images that agree on a 16-byte field agree on whether it is readable. */
  lemma ReadableKept(a: seq<byte>, b: seq<byte>, offset: nat)
    requires offset + 16 <= |a| == |b|
    requires forall i :: offset <= i < offset + 16 ==> a[i] == b[i]
    ensures Readable(a, offset) <==> Readable(b, offset)
  {
    if Readable(a, offset) {
      var i :| offset <= i < offset + 16 && 0 < a[i] < 128;
      assert b[i] == a[i];
    }
    if Readable(b, offset) {
      var i :| offset <= i < offset + 16 && 0 < b[i] < 128;
      assert b[i] == a[i];
    }
  }

  /**
   The rewrite leaves the OFFSET_ONE and OFFSET_TWO fields alone, so the converted image still
   validates, and converting it again changes nothing.
   */
  lemma ConvertIdempotent(nor: seq<byte>)
    requires ConvertToDigitalEdition(nor).Success?
    ensures ConvertToDigitalEdition(ConvertToDigitalEdition(nor).value) == ConvertToDigitalEdition(nor)
  {
    var once := ConvertToDigitalEdition(nor).value;
    ReadableKept(once, nor, OFFSET_ONE);
    ReadableKept(once, nor, OFFSET_TWO);
    assert ValidateNorFile(once);
    var twice := ConvertToDigitalEdition(once).value;
    forall i | 0 <= i < |once| ensures twice[i] == once[i] {
      if VARIANT_OFFSET <= i < VARIANT_OFFSET + |DIGITAL| {
        assert twice[i] as int == DIGITAL[i - VARIANT_OFFSET] as int == once[i] as int;
      }
    }
    assert twice == once;
  }

  /** After the rewrite the handler's own reader finds "DIGITAL" in the seven variant bytes. */
  lemma ConvertedVariantReads(nor: seq<byte>)
    requires ConvertToDigitalEdition(nor).Success?
    ensures ReadString(ConvertToDigitalEdition(nor).value, VARIANT_OFFSET, |DIGITAL|) == Success(DIGITAL)
  {
    var image := ConvertToDigitalEdition(nor).value;
    DigitalIsPrintable();
    ReadsBack(image, VARIANT_OFFSET, DIGITAL);
  }

  lemma DigitalIsPrintable()
    ensures |DIGITAL| == 7 && AllAscii(DIGITAL)
    ensures forall i :: 0 <= i < |DIGITAL| ==> 0 < DIGITAL[i] as int < 128
  {
  }

  /** Bytes spelling a text with no NUL and nothing outside ASCII read back as that text. */
  lemma ReadsBack(image: seq<byte>, offset: nat, text: string)
    requires offset + |text| <= |image| && text != []
    requires forall i :: 0 <= i < |text| ==> 0 < text[i] as int < 128
    requires forall i :: 0 <= i < |text| ==> image[offset + i] as int == text[i] as int
    ensures ReadString(image, offset, |text|) == Success(text)
  {
    forall i | offset <= i < offset + |text| ensures 0 < image[i] < 128 {
      assert image[offset + (i - offset)] as int == text[i - offset] as int;
    }
    var r := ReadString(image, offset, |text|);
    forall i | 0 <= i < |text| ensures r.value[i] == text[i] {
      assert r.value[i] == CharOf(image[offset + i]);
    }
    assert r.value == text;
  }

  /** The pairs `s[i:i+2]` for `i` in `range(0, len(s), 2)`: the last one is short when `|s|` is odd. */
  function Pairs(s: string): (ps: seq<string>)
    ensures |s| == 0 <==> ps == []
    decreases |s|
  {
    if |s| == 0 then []
    else if |s| <= 2 then [s]
    else [s[..2]] + Pairs(s[2..])
  }

  /** Pairing the upper-case hex of some bytes and joining with colons is `ColonHex`. */
  lemma {:induction false} PairsOfBytesHex(bs: seq<byte>)
    ensures Join(Pairs(BytesHex(bs, true)), ":") == ColonHex(bs, true)
    decreases |bs|
  {
    if |bs| > 1 {
      var s := BytesHex(bs, true);
      assert s[..2] == ByteHex(bs[0], true) && s[2..] == BytesHex(bs[1..], true);
      PairsOfBytesHex(bs[1..]);
      assert Pairs(s) == [s[..2]] + Pairs(s[2..]);
      assert Pairs(s[2..]) != [];
    } else if |bs| == 1 {
      assert BytesHex(bs, true) == ByteHex(bs[0], true);
    }
  }

  /** The two MAC strings `get_mac_addresses` returns. */
  datatype Macs = Macs(wifi: string, lan: string)

  /** Number of bytes `get_mac_addresses` reads at each MAC offset. */
  const MAC_READ_LENGTH: nat := 12

  /** `':'.join` of the upper-cased `hex()` pairs of a slice. */
  function MacText(bs: seq<byte>): string {
    Join(Pairs(Upper(BytesHex(bs, false))), ":")
  }

  /**
   `get_mac_addresses`: rejects an image that fails validation; otherwise, for each of the WiFi
   and LAN offsets, the twelve bytes there as upper-case digit pairs joined by colons
   (35 characters; the i-th group is the i-th byte).
   */
  function GetMacAddresses(nor: seq<byte>): (r: Result<Macs, UartError>)
    ensures r.Failure? <==> !ValidateNorFile(nor)
    ensures r.Failure? ==> r.error == InvalidNor
    ensures r.Success? ==> WIFI_MAC_OFFSET + MAC_READ_LENGTH <= |nor| && LAN_MAC_OFFSET + MAC_READ_LENGTH <= |nor|
    ensures r.Success? ==> r.value.wifi == ColonHex(nor[WIFI_MAC_OFFSET..WIFI_MAC_OFFSET + MAC_READ_LENGTH], true)
    ensures r.Success? ==> r.value.lan == ColonHex(nor[LAN_MAC_OFFSET..LAN_MAC_OFFSET + MAC_READ_LENGTH], true)
    ensures r.Success? ==> |r.value.wifi| == 35 && |r.value.lan| == 35
  {
    if !ValidateNorFile(nor) then Failure(InvalidNor)
    else
      var wifi := nor[WIFI_MAC_OFFSET..WIFI_MAC_OFFSET + MAC_READ_LENGTH];
      var lan := nor[LAN_MAC_OFFSET..LAN_MAC_OFFSET + MAC_READ_LENGTH];
      MacTextIsColonHex(wifi);
      MacTextIsColonHex(lan);
      Success(Macs(MacText(wifi), MacText(lan)))
  }

  lemma MacTextIsColonHex(bs: seq<byte>)
    ensures MacText(bs) == ColonHex(bs, true)
  {
    UpperBytesHex(bs);
    PairsOfBytesHex(bs);
  }

  /** The two serials `get_serial_numbers` returns. */
  datatype Serials = Serials(console: string, motherboard: string)

  /** Number of bytes `get_serial_numbers` reads for each serial. */
  const SERIAL_READ_LENGTH: nat := 10

  /** Some byte lies outside ASCII, so strict decoding fails. */
  predicate HasHighByte(bs: seq<byte>) {
    exists i :: 0 <= i < |bs| && bs[i] >= 128
  }

  /** `bs.decode('ascii').strip('\x00')`: fails on any byte outside ASCII. */
  function StrictField(bs: seq<byte>): (r: Result<string, UartError>)
    ensures r.Failure? <==> HasHighByte(bs)
    ensures r.Failure? ==> r.error == DecodeFailure
    ensures r.Success? ==> r.value == FieldText(bs)
  {
    match DecodeStrict(bs)
    case None => Failure(DecodeFailure)
    case Some(text) => Success(StripNul(text))
  }

  /**
   `get_serial_numbers`: rejects an image that fails validation, and raises when either
   ten-byte serial field holds a byte outside ASCII; otherwise the text of both fields with
   end NULs stripped.
   */
  function GetSerialNumbers(nor: seq<byte>): (r: Result<Serials, UartError>)
    ensures !ValidateNorFile(nor) ==> r == Failure(InvalidNor)
    ensures ValidateNorFile(nor) ==> SERIAL_OFFSET + SERIAL_READ_LENGTH <= |nor| && MOBO_SERIAL_OFFSET + SERIAL_READ_LENGTH <= |nor|
    ensures ValidateNorFile(nor) ==>
      (r.Failure? <==> exists i :: (SERIAL_OFFSET <= i < SERIAL_OFFSET + SERIAL_READ_LENGTH ||
                                     MOBO_SERIAL_OFFSET <= i < MOBO_SERIAL_OFFSET + SERIAL_READ_LENGTH) && nor[i] >= 128)
    ensures ValidateNorFile(nor) && r.Failure? ==> r.error == DecodeFailure
    ensures r.Success? ==> r.value.console == FieldText(nor[SERIAL_OFFSET..SERIAL_OFFSET + SERIAL_READ_LENGTH])
    ensures r.Success? ==> r.value.motherboard == FieldText(nor[MOBO_SERIAL_OFFSET..MOBO_SERIAL_OFFSET + SERIAL_READ_LENGTH])
  {
    if !ValidateNorFile(nor) then Failure(InvalidNor)
    else
      var console := nor[SERIAL_OFFSET..SERIAL_OFFSET + SERIAL_READ_LENGTH];
      var mobo := nor[MOBO_SERIAL_OFFSET..MOBO_SERIAL_OFFSET + SERIAL_READ_LENGTH];
      SliceHasHighByte(nor, SERIAL_OFFSET, SERIAL_READ_LENGTH);
      SliceHasHighByte(nor, MOBO_SERIAL_OFFSET, SERIAL_READ_LENGTH);
      match StrictField(console)
      case Failure(e) => Failure(e)
      case Success(c) =>
        match StrictField(mobo)
        case Failure(e) => Failure(e)
        case Success(m) => Success(Serials(c, m))
  }

  lemma SliceHasHighByte(nor: seq<byte>, offset: nat, length: nat)
    requires offset + length <= |nor|
    ensures HasHighByte(nor[offset..offset + length]) <==> exists i :: offset <= i < offset + length && nor[i] >= 128
  {
    var s := nor[offset..offset + length];
    if exists i :: offset <= i < offset + length && nor[i] >= 128 {
      var i :| offset <= i < offset + length && nor[i] >= 128;
      assert s[i - offset] == nor[i];
    }
  }

  const UNDETECTED: string := "Console version not detected"

  /** The report `detect_console_version` builds from the two field texts. */
  function VersionReport(version: string, variant: string): string {
    "Console Version: " + version + "\nVariant: " + variant
  }

  /**
   `detect_console_version`: rejects an image that fails validation, raises when either
   16-byte flag field holds a byte outside ASCII, and otherwise reports both field texts.
   It never answers "Console version not detected": validation already demands readable text
   in both fields, and the strict decoding agrees with the lenient one when it succeeds.
   */
  function DetectConsoleVersion(nor: seq<byte>): (r: Result<string, UartError>)
    ensures !ValidateNorFile(nor) ==> r == Failure(InvalidNor)
    ensures ValidateNorFile(nor) ==>
      (r.Failure? <==> exists i :: (OFFSET_ONE <= i < OFFSET_ONE + 16 || OFFSET_TWO <= i < OFFSET_TWO + 16) && nor[i] >= 128)
    ensures ValidateNorFile(nor) && r.Failure? ==> r.error == DecodeFailure
    ensures r.Success? ==>
      r.value == VersionReport(FieldText(nor[OFFSET_ONE..OFFSET_ONE + 16]), FieldText(nor[OFFSET_TWO..OFFSET_TWO + 16]))
  {
    if !ValidateNorFile(nor) then Failure(InvalidNor)
    else
      SliceHasHighByte(nor, OFFSET_ONE, 16);
      SliceHasHighByte(nor, OFFSET_TWO, 16);
      ReadableField(nor, OFFSET_ONE);
      ReadableField(nor, OFFSET_TWO);
      match StrictField(nor[OFFSET_ONE..OFFSET_ONE + 16])
      case Failure(e) => Failure(e)
      case Success(one) =>
        match StrictField(nor[OFFSET_TWO..OFFSET_TWO + 16])
        case Failure(e) => Failure(e)
        case Success(two) =>
          if one != [] && two != [] then Success(VersionReport(one, two)) else Success(UNDETECTED)
  }

  /** `''.join(f"{ord(c):02X}" for c in text)` */
  function StringToHexString(text: string): (hex: string)
    ensures AllUpperHexDigits(hex) && AllHexDigits(hex)
    ensures |hex| >= 2 * |text|
    decreases |text|
  {
    if |text| == 0 then ""
    else
      var head := Pad2(text[0] as int);
      var hex := head + StringToHexString(text[1..]);
      assert forall i :: |head| <= i < |hex| ==> hex[i] == StringToHexString(text[1..])[i - |head|];
      hex
  }

  /** For ASCII text, the hex string is two upper-case digits per character: its encoding's hex. */
  lemma {:induction false} StringToHexOfAscii(text: string)
    requires AllAscii(text)
    ensures StringToHexString(text) == BytesHex(AsciiBytes(text), true)
    decreases |text|
  {
    if text != [] {
      var b := AsciiBytes(text)[0];
      Pad2OfByte(b);
      assert AsciiBytes(text[1..]) == AsciiBytes(text)[1..];
      assert AllAscii(text[1..]) by {
        assert forall i :: 0 <= i < |text| - 1 ==> text[1..][i] == text[i + 1];
      }
      StringToHexOfAscii(text[1..]);
    }
  }

  /**
   `hex_string_to_bytes`: an empty or odd-length string is rejected before parsing, and so is
   one `bytes.fromhex` refuses; otherwise the parsed bytes.
   */
  function HexStringToBytes(hex: string): (r: Result<seq<byte>, UartError>)
    ensures r.Failure? <==> hex == [] || |hex| % 2 != 0 || FromHex(hex).None?
    ensures r.Failure? ==> r.error == InvalidHex
    ensures r.Success? ==> Some(r.value) == FromHex(hex) && 2 * |r.value| <= |hex|
  {
    if |hex| == 0 || |hex| % 2 != 0 then Failure(InvalidHex)
    else match FromHex(hex)
      case None => Failure(InvalidHex)
      case Some(bs) => Success(bs)
  }

  /** Parsing recovers every non-empty byte string from its hex, in either case. */
  lemma HexBytesRoundTrip(bs: seq<byte>, upper: bool)
    requires bs != []
    ensures HexStringToBytes(BytesHex(bs, upper)) == Success(bs)
  {
    var hex := BytesHex(bs, upper);
    FromHexOfBytesHex(bs, upper);
    TwiceIsEven(|bs|);
    ParsedHexBytes(hex, bs);
  }

  lemma TwiceIsEven(n: nat)
    ensures (2 * n) % 2 == 0
  {
  }

  lemma ParsedHexBytes(hex: string, bs: seq<byte>)
    requires hex != [] && |hex| % 2 == 0 && FromHex(hex) == Some(bs)
    ensures HexStringToBytes(hex) == Success(bs)
  {
  }

  /**
   `hex_string_to_string`: the same checks, then the bytes decoded as ASCII, which fails on a
   byte at or above 0x80.
   */
  function HexStringToString(hex: string): (r: Result<string, UartError>)
    ensures hex == [] || |hex| % 2 != 0 || FromHex(hex).None? ==> r == Failure(InvalidHex)
    ensures r.Success? ==> AllAscii(r.value) && 2 * |r.value| <= |hex|
    ensures r.Success? ==> HexStringToBytes(hex) == Success(AsciiBytes(r.value))
    ensures r.Failure? <==> HexStringToBytes(hex).Failure? || DecodeStrict(HexStringToBytes(hex).value).None?
  {
    match HexStringToBytes(hex)
    case Failure(e) => Failure(e)
    case Success(bs) =>
      match DecodeStrict(bs)
      case None => Failure(DecodeFailure)
      case Some(text) =>
        DecodeLenientOfAscii(bs);
        assert AsciiBytes(text) == bs;
        Success(text)
  }

  /** Hex-encoding non-empty ASCII text and decoding it gives the text back. */
  lemma {:induction false} HexTextRoundTrip(text: string)
    requires text != [] && AllAscii(text)
    ensures HexStringToString(StringToHexString(text)) == Success(text)
  {
    var bs := AsciiBytes(text);
    StringToHexOfAscii(text);
    HexBytesRoundTrip(bs, true);
    DecodeStrictAscii(text);
  }

  /** The pattern occurs in the source starting at `k`. */
  predicate MatchAt(source: seq<byte>, pattern: seq<byte>, k: int) {
    0 <= k && k + |pattern| <= |source| && source[k..k + |pattern|] == pattern
  }

  /**
   `find_pattern`: every start position of the pattern in the source, in increasing order.
   An empty pattern matches at every position from 0 to `|source|`; a pattern longer than
   the source matches nowhere.
   */
  method FindPattern(source: seq<byte>, pattern: seq<byte>) returns (positions: seq<nat>)
    ensures forall i :: 0 <= i < |positions| ==> MatchAt(source, pattern, positions[i])
    ensures forall k :: MatchAt(source, pattern, k) ==> k in positions
    ensures forall i, j :: 0 <= i < j < |positions| ==> positions[i] < positions[j]
  {
    positions := [];
    if |pattern| > |source| {
      return;
    }
    var i := 0;
    while i < |source| - |pattern| + 1
      invariant 0 <= i <= |source| - |pattern| + 1
      invariant forall j :: 0 <= j < |positions| ==> MatchAt(source, pattern, positions[j]) && positions[j] < i
      invariant forall k :: 0 <= k < i && MatchAt(source, pattern, k) ==> k in positions
      invariant forall a, b :: 0 <= a < b < |positions| ==> positions[a] < positions[b]
    {
      if source[i..i + |pattern|] == pattern {
        positions := positions + [i];
      }
      i := i + 1;
    }
  }
}
