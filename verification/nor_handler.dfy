/**
 The NOR image accessor: bounds-checked reads and writes of fixed-width, NUL-padded
 ASCII fields in a firmware image, and the accessors built on them (serial numbers,
 the Disc/Digital edition flags, the WiFi and LAN MAC addresses).

 The image is a value. The empty sequence stands both for "no image loaded" and for an
 empty buffer: every operation tests `not self.nor_data`, which treats the two alike.
 */
module NorHandler {
  import opened Wrappers
  import opened Text
  import opened Bytes
  import opened Hex

  const OFFSET_ONE: nat := 0x1c7010
  const OFFSET_TWO: nat := 0x1c7030
  const WIFI_MAC_OFFSET: nat := 0x1C73C0
  const LAN_MAC_OFFSET: nat := 0x1C4020
  const SERIAL_OFFSET: nat := 0x1c7210
  const VARIANT_OFFSET: nat := 0x1c7226
  const MOBO_SERIAL_OFFSET: nat := 0x1C7200

  const SERIAL_LENGTH: nat := 16
  const MAC_LENGTH: nat := 6

  /** The byte values of the ASCII flags `"1"` and `"0"`. */
  const FLAG_ON: byte := 0x31
  const FLAG_OFF: byte := 0x30

  /** Why an image operation failed; the messages and the wrapping chain are not modelled. */
  datatype NorError =
    | NotFound       // the file does not exist or cannot be read
    | EmptyImage     // the file read is empty
    | NoImageLoaded  // no (or an empty) image in memory
    | OutOfBounds    // a negative offset, or a field running past the end
    | EncodingError  // a value with a non-ASCII character
    | ValueTooLong   // a value longer than its field
    | InvalidLength  // a serial number that is not exactly 16 characters

  /** The image after an operation that may change it, and the error it raised, if any. */
  datatype Update = Update(image: seq<byte>, error: Option<NorError>)

  /** What `get_version` reports. */
  datatype Edition = DiscEdition | DigitalEdition | UnknownEdition

  /** True when `[offset, offset + length)` is a field of `image` that `_read_string` accepts. */
  predicate InBounds(image: seq<byte>, offset: int, length: nat) {
    image != [] && 0 <= offset && offset + length <= |image|
  }

  /**
   `_read_string`: fails without reading when no image is loaded or the field does not lie
   inside the image, never truncating; otherwise the text of the field (its ASCII bytes
   decoded, NULs stripped from both ends). A field of non-NUL ASCII bytes reads back byte
   for byte.
   */
  function ReadString(image: seq<byte>, offset: int, length: nat): (r: Result<string, NorError>)
    ensures r.Failure? <==> !InBounds(image, offset, length)
    ensures r.Success? ==> r.value == FieldText(image[offset..offset + length])
    ensures r.Failure? ==> r.error == (if image == [] then NoImageLoaded else OutOfBounds)
    ensures r.Success? ==> |r.value| <= length && AllAscii(r.value)
    ensures r.Success? && r.value != [] ==> r.value[0] != '\0' && r.value[|r.value| - 1] != '\0'
    ensures r.Success? && (forall i :: offset <= i < offset + length ==> 0 < image[i] < 128) ==>
      |r.value| == length && forall i :: 0 <= i < length ==> r.value[i] == CharOf(image[offset + i])
  {
    if image == [] then Failure(NoImageLoaded)
    else if offset < 0 || offset + length > |image| then Failure(OutOfBounds)
    else
      NonNulAsciiField(image, offset, length);
      Success(FieldText(image[offset..offset + length]))
  }

  lemma NonNulAsciiField(image: seq<byte>, offset: nat, length: nat)
    requires offset + length <= |image|
    ensures (forall i :: offset <= i < offset + length ==> 0 < image[i] < 128) ==>
      var text := FieldText(image[offset..offset + length]);
      |text| == length && forall i :: 0 <= i < length ==> text[i] == CharOf(image[offset + i])
  {
    var field := image[offset..offset + length];
    if forall i :: offset <= i < offset + length ==> 0 < image[i] < 128 {
      assert forall i :: 0 <= i < length ==> field[i] == image[offset + i];
      FieldTextOfNonNulAscii(field);
    }
  }

  /**
   `_write_string`: rejects, leaving the image as it was, when no image is loaded, the field
   is out of bounds, the value is not ASCII or is longer than the field. Otherwise it
   overwrites exactly the field with the value followed by NUL padding; the image keeps its
   length and every byte outside the field.
   */
  function WriteString(image: seq<byte>, offset: int, value: string, length: nat): (r: Update)
    ensures r.error.None? <==> InBounds(image, offset, length) && AllAscii(value) && |value| <= length
    ensures r.error.Some? ==> r.image == image
    ensures image == [] ==> r.error == Some(NoImageLoaded)
    ensures image != [] && !InBounds(image, offset, length) ==> r.error == Some(OutOfBounds)
    ensures InBounds(image, offset, length) && !AllAscii(value) ==> r.error == Some(EncodingError)
    ensures InBounds(image, offset, length) && AllAscii(value) && |value| > length ==> r.error == Some(ValueTooLong)
    ensures r.error.None? ==> |r.image| == |image|
    ensures r.error.None? ==> forall i :: 0 <= i < |value| ==> r.image[offset + i] as int == value[i] as int
    ensures r.error.None? ==> forall i :: offset + |value| <= i < offset + length ==> r.image[i] == 0
    ensures r.error.None? ==> forall i :: 0 <= i < |image| && !(offset <= i < offset + length) ==> r.image[i] == image[i]
  {
    if image == [] then Update(image, Some(NoImageLoaded))
    else if offset < 0 || offset + length > |image| then Update(image, Some(OutOfBounds))
    else if !AllAscii(value) then Update(image, Some(EncodingError))
    else if |value| > length then Update(image, Some(ValueTooLong))
    else
      var padded := AsciiBytes(value) + Zeros(length - |value|);
      Update(Splice(image, offset, padded), None)
  }

  /** A field written successfully reads back as the written value with its end NULs stripped. */
  lemma ReadAfterWrite(image: seq<byte>, offset: int, value: string, length: nat)
    requires WriteString(image, offset, value, length).error.None?
    ensures ReadString(WriteString(image, offset, value, length).image, offset, length) == Success(StripNul(value))
  {
    var w := WriteString(image, offset, value, length).image;
    assert w[offset..offset + length] == AsciiBytes(value) + Zeros(length - |value|);
    FieldTextOfPadded(value, length - |value|);
  }

  /** A write leaves every field that does not overlap the written one reading as before. */
  lemma WriteKeepsOtherFields(image: seq<byte>, offset: int, value: string, length: nat, other: int, otherLength: nat)
    requires WriteString(image, offset, value, length).error.None?
    requires other + otherLength <= offset || offset + length <= other
    ensures ReadString(WriteString(image, offset, value, length).image, other, otherLength) == ReadString(image, other, otherLength)
  {
    var w := WriteString(image, offset, value, length).image;
    if InBounds(image, other, otherLength) {
      assert w[other..other + otherLength] == image[other..other + otherLength];
    }
  }

  /** `get_serial_number`: the 16-byte serial field as text. */
  function GetSerialNumber(image: seq<byte>): (r: Result<string, NorError>)
    ensures r.Failure? <==> |image| < SERIAL_OFFSET + SERIAL_LENGTH
    ensures r.Failure? ==> r.error == (if image == [] then NoImageLoaded else OutOfBounds)
    ensures r.Success? ==> r.value == FieldText(image[SERIAL_OFFSET..SERIAL_OFFSET + SERIAL_LENGTH])
    ensures r.Success? ==> |r.value| <= SERIAL_LENGTH
  {
    ReadString(image, SERIAL_OFFSET, SERIAL_LENGTH)
  }

  /**
   `set_serial_number`: only a value of exactly 16 characters is written; an ASCII one is
   accepted whenever the image holds the serial field. Nothing else in the image changes.
   */
  function SetSerialNumber(image: seq<byte>, serial: string): (r: Update)
    ensures |serial| != SERIAL_LENGTH ==> r == Update(image, Some(InvalidLength))
    ensures r.error.None? <==>
      |serial| == SERIAL_LENGTH && AllAscii(serial) && |image| >= SERIAL_OFFSET + SERIAL_LENGTH
    ensures r.error.Some? ==> r.image == image
    ensures r.error.None? ==> |r.image| == |image| && forall i :: 0 <= i < SERIAL_LENGTH ==> r.image[SERIAL_OFFSET + i] as int == serial[i] as int
    ensures r.error.None? ==> forall i :: 0 <= i < |image| && !(SERIAL_OFFSET <= i < SERIAL_OFFSET + SERIAL_LENGTH) ==> r.image[i] == image[i]
  {
    if |serial| != SERIAL_LENGTH then Update(image, Some(InvalidLength))
    else WriteString(image, SERIAL_OFFSET, serial, SERIAL_LENGTH)
  }

  /** A serial number that is set reads back unchanged, unless it begins or ends with NUL. */
  lemma SerialRoundTrip(image: seq<byte>, serial: string)
    requires SetSerialNumber(image, serial).error.None?
    requires serial[0] != '\0' && serial[|serial| - 1] != '\0'
    ensures GetSerialNumber(SetSerialNumber(image, serial).image) == Success(serial)
  {
    ReadAfterWrite(image, SERIAL_OFFSET, serial, SERIAL_LENGTH);
    TrimUntouched(serial, Nuls);
  }

  /** A one-byte field reads as that byte's character, or as nothing for NUL and non-ASCII bytes. */
  lemma ReadFlag(image: seq<byte>, offset: nat)
    requires offset < |image|
    ensures ReadString(image, offset, 1) ==
      Success(if image[offset] == 0 || image[offset] >= 128 then "" else [CharOf(image[offset])])
  {
  }

  /**
   `get_version`: both flag bytes `"1"` is the Disc Edition, both `"0"` the Digital Edition,
   any other pair Unknown. An image too short to hold the second flag raises; it is not
   reported as Unknown.
   */
  function GetVersion(image: seq<byte>): (r: Result<Edition, NorError>)
    ensures r.Failure? <==> |image| <= OFFSET_TWO
    ensures r.Success? ==> (r.value == DiscEdition <==> image[OFFSET_ONE] == FLAG_ON && image[OFFSET_TWO] == FLAG_ON)
    ensures r.Success? ==> (r.value == DigitalEdition <==> image[OFFSET_ONE] == FLAG_OFF && image[OFFSET_TWO] == FLAG_OFF)
  {
    var one := ReadString(image, OFFSET_ONE, 1);
    if one.Failure? then Failure(one.error)
    else
      var two := ReadString(image, OFFSET_TWO, 1);
      if two.Failure? then Failure(two.error)
      else
        ReadFlag(image, OFFSET_ONE);
        ReadFlag(image, OFFSET_TWO);
        if one.value == "1" && two.value == "1" then Success(DiscEdition)
        else if one.value == "0" && two.value == "0" then Success(DigitalEdition)
        else Success(UnknownEdition)
  }

  /**
   `set_version`: writes `"1"` (disc) or `"0"` (digital) into both flags, first OFFSET_ONE,
   then OFFSET_TWO. On success the edition reads back as set and no other byte changes.
   The writes are not atomic: on an image that ends between the two flags the first flag
   is already rewritten when the second write raises.
   */
  function SetVersion(image: seq<byte>, disc: bool): (r: Update)
    ensures r.error.None? <==> |image| > OFFSET_TWO
    ensures |r.image| == |image|
    ensures r.error.None? ==> GetVersion(r.image) == Success(if disc then DiscEdition else DigitalEdition)
    ensures r.error.None? ==> forall i :: 0 <= i < |image| && i != OFFSET_ONE && i != OFFSET_TWO ==> r.image[i] == image[i]
    ensures r.error.Some? ==> forall i :: 0 <= i < |image| && i != OFFSET_ONE ==> r.image[i] == image[i]
    ensures r.error.Some? && OFFSET_ONE < |image| ==> r.image[OFFSET_ONE] == (if disc then FLAG_ON else FLAG_OFF)
  {
    var flag := if disc then "1" else "0";
    var first := WriteString(image, OFFSET_ONE, flag, 1);
    if first.error.Some? then first
    else
      var second := WriteString(first.image, OFFSET_TWO, flag, 1);
      if second.error.Some? then Update(first.image, second.error)
      else second
  }

  /** `get_motherboard_serial`: the 16-byte motherboard serial field as text. */
  function GetMotherboardSerial(image: seq<byte>): (r: Result<string, NorError>)
    ensures r.Failure? <==> |image| < MOBO_SERIAL_OFFSET + SERIAL_LENGTH
    ensures r.Failure? ==> r.error == (if image == [] then NoImageLoaded else OutOfBounds)
    ensures r.Success? ==> r.value == FieldText(image[MOBO_SERIAL_OFFSET..MOBO_SERIAL_OFFSET + SERIAL_LENGTH])
    ensures r.Success? ==> |r.value| <= SERIAL_LENGTH
  {
    ReadString(image, MOBO_SERIAL_OFFSET, SERIAL_LENGTH)
  }

  /**
   The motherboard serial field ends where the console serial field begins, so setting the
   console serial leaves the motherboard serial reading as before.
   */
  lemma SetSerialKeepsMotherboardSerial(image: seq<byte>, serial: string)
    requires SetSerialNumber(image, serial).error.None?
    ensures GetMotherboardSerial(SetSerialNumber(image, serial).image) == GetMotherboardSerial(image)
  {
    WriteKeepsOtherFields(image, SERIAL_OFFSET, serial, SERIAL_LENGTH, MOBO_SERIAL_OFFSET, SERIAL_LENGTH);
  }

  /** Python's `image[start:start + length]` for `start >= 0`: clipped to the image, never failing. */
  function Slice(image: seq<byte>, start: nat, length: nat): (s: seq<byte>)
    ensures |s| == if |image| <= start then 0 else if start + length <= |image| then length else |image| - start
    ensures forall i :: 0 <= i < |s| ==> start + i < |image| && s[i] == image[start + i]
    ensures start + length <= |image| ==> s == image[start..start + length]
  {
    var lo := if start < |image| then start else |image|;
    var hi := if start + length < |image| then start + length else |image|;
    image[lo..hi]
  }

  /**
   The MAC text of `get_wifi_mac` and `get_lan_mac`: each byte of the six-byte field as two
   lower-case digits, colon separated. The slice is not bounds checked, so a short image
   gives one group per byte it still holds (none past its end) instead of an error; only a
   missing image fails.
   */
  function MacAt(image: seq<byte>, offset: nat): (r: Result<string, NorError>)
    ensures r.Failure? <==> image == []
    ensures r.Failure? ==> r.error == NoImageLoaded
    ensures r.Success? ==> r.value == ColonHex(Slice(image, offset, MAC_LENGTH), false)
    ensures r.Success? && offset + MAC_LENGTH <= |image| ==> |r.value| == 17
    ensures r.Success? && |image| <= offset ==> r.value == ""
    ensures r.Success? && offset < |image| ==> |r.value| == 3 * |Slice(image, offset, MAC_LENGTH)| - 1
    ensures r.Success? ==> forall i :: 0 <= i < |Slice(image, offset, MAC_LENGTH)| ==>
      && r.value[3 * i] == Digit(image[offset + i] as int / 16, false)
      && r.value[3 * i + 1] == Digit(image[offset + i] as int % 16, false)
      && (i + 1 < |Slice(image, offset, MAC_LENGTH)| ==> r.value[3 * i + 2] == ':')
  {
    if image == [] then Failure(NoImageLoaded)
    else
      var mac := Slice(image, offset, MAC_LENGTH);
      ColonHexGroups(mac, false);
      Success(ColonHex(mac, false))
  }

  /** `get_wifi_mac`: the MAC text of the field at WIFI_MAC_OFFSET. */
  function GetWifiMac(image: seq<byte>): (r: Result<string, NorError>)
    ensures r == MacAt(image, WIFI_MAC_OFFSET)
    ensures r.Failure? <==> image == []
    ensures r.Success? && |image| >= WIFI_MAC_OFFSET + MAC_LENGTH ==> |r.value| == 17
  {
    MacAt(image, WIFI_MAC_OFFSET)
  }

  /** `get_lan_mac`: the MAC text of the field at LAN_MAC_OFFSET. */
  function GetLanMac(image: seq<byte>): (r: Result<string, NorError>)
    ensures r == MacAt(image, LAN_MAC_OFFSET)
    ensures r.Failure? <==> image == []
    ensures r.Success? && |image| >= LAN_MAC_OFFSET + MAC_LENGTH ==> |r.value| == 17
  {
    MacAt(image, LAN_MAC_OFFSET)
  }

  /**
   `load_nor_file`, with the file's contents as `file` (None when it is missing or cannot be
   read). A readable file always replaces the image, an empty one too, but only a non-empty
   one is reported as loaded; an unreadable file leaves the image as it was.
   */
  function LoadNorFile(image: seq<byte>, file: Option<seq<byte>>): (r: Update)
    ensures r.error.None? <==> file.Some? && file.value != []
    ensures file.Some? ==> r.image == file.value
    ensures file.None? ==> r == Update(image, Some(NotFound))
    ensures file == Some([]) ==> r.error == Some(EmptyImage)
  {
    match file
    case None => Update(image, Some(NotFound))
    case Some(contents) => Update(contents, if contents == [] then Some(EmptyImage) else None)
  }

  /** `save_nor_file`: the bytes written, the image verbatim; refused when no image is loaded. */
  function SaveNorFile(image: seq<byte>): (r: Result<seq<byte>, NorError>)
    ensures r.Success? <==> image != []
    ensures r.Success? ==> r.value == image
    ensures r.Failure? ==> r.error == NoImageLoaded
  {
    if image == [] then Failure(NoImageLoaded) else Success(image)
  }
}
