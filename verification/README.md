# PS5 NOR modifier: NOR image accessor and UART protocol, in Dafny

This project models the two pieces of logic at the heart of the PS5 NOR modifier, and
proves properties of them.

- **`NorHandler`** (`nor_handler.dfy`) works on the NOR image, which is held as an
  immutable `seq<byte>`.
  - Bounds-checked reads and writes of fixed-width, NUL-padded ASCII fields.
  - The serial-number, motherboard-serial and edition-flag accessors.
  - The WiFi/LAN MAC formatting.
  - The emptiness guards of loading and saving.
  - An operation that can fail returns the new image together with an optional error.
- **`UartHandler`**, split by concern:
  - `error_codes.dfy`:
    - the error-code validator;
    - the in-memory error-code database and its persisted document;
    - cache-first description lookup with write-back;
    - the full-replace download;
    - `handle_error_response`.
  - `uart_link.dfy`:
    - checksum framing and the command validator;
    - the two-state connection;
    - `send_command`/`send_custom_command`, `disconnect`, `get_error_codes` and
      `clear_error_codes`.
  - `nor_tools.dfy`: the handler's own NOR helpers.
    - NOR validation, the digital-edition rewrite, and MAC and serial extraction.
    - The version report, the hex/string conversions and `find_pattern`.

The Python built-ins the code relies on are modelled in `text.dfy`, `bytes.dfy` and
`hex.dfy`, with their documented semantics:
- `str.strip`, `str.split`, `str.join` and ASCII `upper`;
- `bytes.decode('ascii')` in strict and `errors='ignore'` modes;
- `str.encode('ascii')`;
- the `02x`/`02X` formats, `bytes.hex()` and `bytes.fromhex()`.

The world outside is passed in as parameters:
- **The serial device** is the reply line it answers (`None` when writing or reading fails).
- **The remote lookup service** is `remote: string -> Reply`, the answer for each code. A
  `Reply` is either `Unreachable` or `Received(status, body)`, and the body is `Malformed`
  or `Doc(root, entries)`.
- **The database file** is its parsed document (`None` when it does not exist).
- **A NOR file** is its contents.

Python's dict keeps insertion order, so the error-code database is an association list with
distinct keys.

Behaviours worth knowing, as the code has them:
- `get_version` raises when a flag cannot be read. It does not report Unknown.
- Error codes are stored and looked up exactly as given. They are not upper-cased.
- The handler never loads the database file at start-up. `__init__` only downloads when the
  file is missing.
- `send_command` leaves the link open after an I/O failure.

## Model

| member | source | states |
|---|---|---|
| Text.Trim | src/nor_handler.py:105 | `strip` returns the slice of the text left between a run of stripped characters at the front and one at the back; a non-empty result starts and ends with a kept character; the result is empty exactly when every character is stripped |
| Text.TrimIgnoresTail | src/nor_handler.py:105 | stripping NULs from a value followed by NUL padding gives the same text as stripping the value alone |
| Text.TrimIsTheSlice | src/nor_handler.py:105 | any slice with only stripped characters around it and kept characters at its ends is exactly what `strip` returns |
| Text.Split | src/uart_handler.py:95 | `split(',')` yields at least one piece, no piece contains the separator, and joining the pieces with the separator gives the input back |
| Text.SplitJoin | src/uart_handler.py:95 | splitting a separator-joined list of separator-free pieces recovers the list |
| Bytes.DecodeStrict | src/uart_handler.py:596-597 | strict ASCII decoding succeeds exactly when every byte is below 0x80, and then agrees with the lenient decoding |
| Bytes.FieldText | src/nor_handler.py:105 | a field's text is its lenient ASCII decoding with end NULs stripped, i.e. a slice of that decoding with only NULs around it; it is ASCII, no longer than the field, has no NUL at either end, and is empty exactly when every byte is NUL or non-ASCII |
| Bytes.DecodeLenientKeepsAscii | src/nor_handler.py:105 | `decode('ascii', errors='ignore')` keeps exactly the bytes below 0x80, in order: the j-th character is the j-th such byte |
| Bytes.DecodeLenientAllNul | src/nor_handler.py:105 | the lenient decoding is all NULs exactly when every byte is NUL or dropped |
| Bytes.FieldTextOfPadded | src/nor_handler.py:139-141 | a value encoded and NUL-padded reads back as the value with its own end NULs stripped |
| Hex.Pad2 | src/uart_handler.py:117-118 | `02X` gives upper-case digits whose value is the number, exactly two of them when the number is below 256 |
| Hex.ColonHexGroups | src/nor_handler.py:262 | the i-th colon-separated group is the two digits of the i-th byte, high nibble first |
| Hex.FromHexOfBytesHex | src/uart_handler.py:170 | `bytes.fromhex` undoes `bytes.hex()` in either letter case |
| Hex.UpperBytesHex | src/uart_handler.py:650-651 | upper-casing `hex()` gives the upper-case digit pairs |
| NorHandler.ReadString | src/nor_handler.py:84-110 | fails exactly when no image is loaded or the field is out of bounds, with the matching error; otherwise returns the text of exactly the bytes `offset..offset+length` (lenient ASCII decoding, end NULs stripped), which is ASCII, within the field length and free of end NULs; a field of non-NUL ASCII bytes reads back byte for byte |
| NorHandler.WriteString | src/nor_handler.py:112-148 | succeeds exactly when the field is in bounds and the value is ASCII and fits, with one error per failing case and the image unchanged on error; on success it writes the value followed by NULs over exactly the field, and keeps the length and every other byte |
| NorHandler.ReadAfterWrite | src/nor_handler.py:105-141 | a successfully written field reads back as the value with its end NULs stripped |
| NorHandler.WriteKeepsOtherFields | src/nor_handler.py:139-141 | a write leaves every non-overlapping field reading as before |
| NorHandler.SetSerialNumber | src/nor_handler.py:165-185 | rejects any value whose length is not 16; otherwise succeeds exactly when the value is ASCII and the image holds the field; writes exactly the serial field |
| NorHandler.SerialRoundTrip | src/nor_handler.py:161-182 | a serial that was set, with no NUL at either end, is read back exactly |
| NorHandler.ReadFlag | src/nor_handler.py:198-199 | a one-byte field reads as that byte's character, or as empty text for NUL and non-ASCII bytes |
| NorHandler.GetVersion | src/nor_handler.py:187-208 | raises exactly when the image is too short for the second flag; Disc exactly when both flags are `'1'`, Digital exactly when both are `'0'`, otherwise Unknown |
| NorHandler.SetVersion | src/nor_handler.py:210-230 | succeeds exactly when the image holds both flags; the edition then reads back as set and only the two flag bytes change; on failure the first flag is already written and nothing else changed |
| NorHandler.GetSerialNumber | src/nor_handler.py:150-163 | fails exactly when the image is too short for the serial field, with the matching error; otherwise returns the text of the 16 bytes at SERIAL_OFFSET |
| NorHandler.GetMotherboardSerial | src/nor_handler.py:232-245 | fails exactly when the image is too short for the motherboard-serial field, with the matching error; otherwise returns the text of the 16 bytes at MOBO_SERIAL_OFFSET |
| NorHandler.SetSerialKeepsMotherboardSerial | src/nor_handler.py:21-23 | the motherboard-serial field ends where the console serial field starts, so setting the serial leaves the motherboard serial as it read before |
| NorHandler.Slice | src/nor_handler.py:261 | a Python slice is clipped to the image and never fails: its length is what of the requested range lies inside the image, and its i-th byte is the image's byte at start + i |
| NorHandler.MacAt | src/nor_handler.py:247-285 | fails only when no image is loaded; otherwise the colon-joined lower-case hex of the clipped six-byte slice: two digits per byte the image holds, high nibble first, colons between groups, 17 characters for a full field and the empty text past the end |
| NorHandler.GetWifiMac | src/nor_handler.py:247-265 | is the MAC text of the field at WIFI_MAC_OFFSET; fails exactly when no image is loaded; 17 characters when the image holds the field |
| NorHandler.GetLanMac | src/nor_handler.py:267-285 | is the MAC text of the field at LAN_MAC_OFFSET; fails exactly when no image is loaded; 17 characters when the image holds the field |
| NorHandler.LoadNorFile | src/nor_handler.py:28-56 | a readable file always replaces the image but counts as loaded only when non-empty; a missing file leaves the image unchanged |
| NorHandler.SaveNorFile | src/nor_handler.py:58-82 | refuses exactly when no image is loaded; otherwise writes the image verbatim |
| ErrorCodes.ValidErrorCode | src/uart_handler.py:240-251 | a code is valid exactly when it is eight hexadecimal digits in either case |
| ErrorCodes.Lookup | src/uart_handler.py:521-522 | absent exactly when the key is not stored; a found description is stored under the key, and it is the only one when keys are distinct |
| ErrorCodes.Put | src/uart_handler.py:535 | the key then holds the new description, every other key keeps its own, a new key is appended, and keys stay distinct |
| ErrorCodes.LookupPutAll | src/uart_handler.py:276-282 | after a run of assignments a key holds its last assigned description, otherwise its old one |
| ErrorCodes.SaveErrorCodes | src/uart_handler.py:288-311 | the saved document has root `errorCodes` and one element per entry, in database order |
| ErrorCodes.LoadErrorCodes | src/uart_handler.py:266-286 | raises exactly on unparsable content; a missing file or a foreign root leaves the database alone; otherwise each key holds its last stored description, or keeps its old one, and distinct keys stay distinct |
| ErrorCodes.SaveLoadRoundTrip | src/uart_handler.py:266-311 | loading the saved document into an empty database gives the database back, order included |
| ErrorCodes.SaveLoadIdempotent | src/uart_handler.py:266-311 | loading the saved document into the same database changes nothing |
| ErrorCodes.GetErrorDescription | src/uart_handler.py:505-545 | an invalid code raises; a cached code returns its description with the database unchanged; otherwise a remote match is appended and returned, no match returns "Unknown error" with nothing stored, and the request raises exactly when the service is unreachable or sends an unparsable 200 reply |
| ErrorCodes.DownloadErrorDatabase | src/uart_handler.py:547-577 | returns True exactly on a 200 reply with root `errorCodes`, and raises exactly when the request fails; on True the database holds exactly the payload's valid codes, each with its last description, and earlier entries are gone; otherwise the database is untouched |
| ErrorCodes.ParseErrorOffline | src/uart_handler.py:491-503 | a cached code gives its description block; any other code gives the offline "no description" text |
| ErrorCodes.ValidEntries | src/uart_handler.py:564-568 | a valid code's last occurrence in the kept entries is its last occurrence in the payload; an invalid code is absent |
| ErrorCodes.ValidCodes | src/uart_handler.py:96-99 | every code kept passes `validate_error_code`, and there is at most one code per piece |
| ErrorCodes.ValidCodesKeepsValidPieces | src/uart_handler.py:96-99 | the codes are the order-preserving filter of the pieces: one per piece that is valid once stripped, the j-th being the j-th such piece stripped |
| ErrorCodes.Describe | src/uart_handler.py:96-101 | one block per piece that is a valid code once stripped, in order, each starting with that code's header; stored descriptions are never changed; it raises only on a lookup failure, and never when every code is cached or its request succeeds |
| ErrorCodes.DescribeIsThreaded | src/uart_handler.py:96-101 | the loop succeeds exactly when every valid code's lookup succeeds on the database its predecessors left; block k is then code k with that lookup's description and the database ends threaded through every code; a failure stops at the first failing code with the database its predecessors left |
| ErrorCodes.HandleErrorResponse | src/uart_handler.py:80-105 | a reply without the `ERROR:` prefix comes back unchanged; otherwise the result is empty exactly when no piece is a valid code and else starts with the first code's header; the result never starts with `ERROR:` |
| ErrorCodes.HandleErrorResponseIsThreaded | src/uart_handler.py:80-105 | on an `ERROR:` reply the result is the per-code blocks of the threaded lookups joined by blank lines, with the threaded database; it fails exactly when one lookup fails, keeping what the earlier codes stored |
| ErrorCodes.JoinedBlocks | src/uart_handler.py:102 | blocks joined by blank lines are empty exactly when there are none, start with the first header, and never start with `ERROR:` |
| UartLink.CalculateChecksum | src/uart_handler.py:107-118 | the frame is the data, a colon, and two upper-case hex digits whose value is the character-code sum mod 256; always three characters longer than the data |
| UartLink.GetErrorCodesFrame | src/uart_handler.py:117-118 | the `get_error_codes` request is framed as `get_error_codes:36` |
| UartLink.ValidateCommand | src/uart_handler.py:253-264 | a command is valid exactly when it is non-empty and has no line feed |
| UartLink.ValidCommandIsOneLine | src/uart_handler.py:374-375 | a command is valid exactly when it is non-empty and its framed line has no line feed before the terminating one |
| UartLink.SendCommand | src/uart_handler.py:353-381 | nothing is written when the link is closed or the command is invalid, with the matching error; otherwise the frame and one line feed are written; a failed write, read or decode (no reply) raises; a reply is passed through `handle_error_response` after stripping, so an ordinary reply comes back stripped and a result never starts with `ERROR:` |
| UartLink.SendCustomCommand | src/uart_handler.py:383-411 | is the same exchange as `send_command` on every input: guards, framing, reply handling and database |
| UartLink.Disconnect | src/uart_handler.py:338-351 | the link always ends closed; an error is raised exactly when an open port fails to close |
| UartLink.ParseErrorCodes | src/uart_handler.py:428-433 | a reply without the `ERROR:` prefix gives no codes; otherwise one code per comma-separated piece that is valid once stripped, in order, each the stripped piece |
| UartLink.ParseErrorCodesRoundTrip | src/uart_handler.py:428-433 | parsing an `ERROR:` line built from valid codes returns exactly those codes, in order |
| UartLink.GetErrorCodes | src/uart_handler.py:413-436 | as written: it raises when the link is closed, sends the `get_error_codes` frame, and returns no codes whenever it does not raise |
| UartLink.GetErrorCodesLosesReportedCodes | src/uart_handler.py:427-433 | with DEADBEEF cached, the device reply `ERROR:DEADBEEF` gives `[]` from the code as written |
| UartLink.GetErrorCodesFromRawReply | src/uart_handler.py:413-436 | corrected: the same request, with the stripped device reply parsed before any rewriting; it fails exactly when the link is closed or the write, read or decode failed (no reply) |
| UartLink.GetErrorCodesKeepsReportedCodes | src/uart_handler.py:427-433 | on the reply `ERROR:DEADBEEF`, the corrected version returns `["DEADBEEF"]` |
| UartLink.ClearErrorCodes | src/uart_handler.py:438-455 | on an open link it raises exactly when `send_command` does, with its error and database; a failed write, read or decode (no reply) raises; an ordinary reply gives whether it is `OK`, whitespace aside; the result is True exactly when the device answers `OK`, so an `ERROR:` reply never counts |
| NorTools.MinNorSizeIsMax | src/uart_handler.py:51 | the minimum image size is the largest field offset plus 16 |
| NorTools.ValidateNorFile | src/uart_handler.py:36-61 | valid exactly when the image reaches the minimum size and each 16-byte field at OFFSET_ONE and OFFSET_TWO holds a non-NUL ASCII byte; a valid image holds every field |
| NorTools.ConvertToDigitalEdition | src/uart_handler.py:605-631 | rejects exactly the images that fail validation; otherwise returns a same-length copy whose seven bytes at VARIANT_OFFSET spell `DIGITAL` and which agrees everywhere else |
| NorTools.ConvertIdempotent | src/uart_handler.py:619-629 | converting a converted image changes nothing |
| NorTools.ConvertedVariantReads | src/uart_handler.py:626-627 | after conversion the NOR accessor's field reader reads `DIGITAL` at VARIANT_OFFSET |
| NorTools.GetMacAddresses | src/uart_handler.py:633-662 | rejects exactly the images that fail validation; otherwise each MAC is its twelve bytes as upper-case digit pairs joined by colons (35 characters) |
| NorTools.PairsOfBytesHex | src/uart_handler.py:654-655 | pairing upper-case hex and joining with colons gives one group per byte |
| NorTools.GetSerialNumbers | src/uart_handler.py:664-689 | rejects an image that fails validation; raises exactly when a ten-byte serial field holds a non-ASCII byte; otherwise each serial is its field's text with end NULs stripped |
| NorTools.DetectConsoleVersion | src/uart_handler.py:579-603 | rejects an image that fails validation; raises exactly when a flag field holds a non-ASCII byte; otherwise always reports both field texts, so "not detected" never occurs |
| NorTools.StringToHexString | src/uart_handler.py:141-151 | the result is upper-case hexadecimal, at least two digits per character |
| NorTools.StringToHexOfAscii | src/uart_handler.py:151 | for ASCII text the result is its encoding's upper-case `hex()` |
| NorTools.HexStringToBytes | src/uart_handler.py:153-172 | fails exactly on empty or odd-length input or what `bytes.fromhex` refuses; otherwise returns the parsed bytes |
| NorTools.HexBytesRoundTrip | src/uart_handler.py:153-172 | every non-empty byte string is recovered from its hex in either case |
| NorTools.HexStringToString | src/uart_handler.py:120-139 | rejects malformed hex; succeeds exactly when the parsed bytes are all ASCII, returning the text they encode |
| NorTools.HexTextRoundTrip | src/uart_handler.py:120-151 | hex-encoding non-empty ASCII text and decoding it gives the text back |
| NorTools.FindPattern | src/uart_handler.py:174-187 | returns exactly the start positions of the pattern in the source, in strictly increasing order |

## Left out

- Serial I/O is left out: `serial.Serial`, `write`, `readline`, the one-second timeout and the UTF-8 wire encoding. The device is the reply line, and a failed write, read or decode of the reply is `None`.
- A device silent past the one-second read timeout does not raise: `readline` returns what arrived, possibly nothing. The model has no timeout; that case is the reply `Some` of the partial line, possibly `""`, which `send_command` returns stripped, `clear_error_codes` reads as False and `get_error_codes` as no codes.
- `connect`, `validate_port`, `list_ports` and `get_port_friendly_name` are left out. They depend on the operating system's port list and on a PowerShell subprocess.
- The HTTP layer and XML parsing/serialisation are left out: `requests.get`, `ElementTree`, `open_url`, `download_file`. A reply is its status and parsed document. An `errorCode` element that lacks either child is skipped by every reader, so the model leaves it out of the document.
- Text nodes that are `None` (an empty `ErrorCode` or `Description` element) are not modelled. Python would store `None` as a key or value, or raise inside `validate_error_code`.
- Filesystem effects are left out: existence checks, `makedirs`, and writing the database and NOR files. Writing the database is assumed to succeed, so a save failure inside `get_error_description` or `download_error_database` is not modelled.
- `initialize_error_database` and the constructor are left out. They only call `download_error_database` when the file is missing, and never load the file into memory.
- `parse_error_code` (the online variant) is left out. Its offline branch, `_parse_error_offline`, is modelled.
- Exception messages and the re-wrapping chain are left out. Each failure is an error kind (`NorError`, `UartError`).
- Negative field lengths for `_read_string`/`_write_string` are left out. Every caller passes 1 or 16.
- ErrorCodes.ValidErrorCode: upper-casing is ASCII-only. Python's Unicode `upper()` can turn one non-ASCII character into ASCII letters (`'ﬀ'` becomes `"FF"`), and that case is not modelled.
- ErrorCodes.ValidErrorCode: the regular expression's `$` also matches before a final line feed. So `re.match` accepts eight digits followed by `"\n"`, and the model rejects that input.
- ErrorCodes.ValidCodes: its own contract states validity and a length bound only; that it is exactly the order-preserving filter of the stripped valid pieces is stated by ValidCodesKeepsValidPieces, a lemma, so that the many proofs mentioning ValidCodes do not carry the filter's quantifiers.
- NorTools.StringToHexString: for characters above U+00FF, `02X` yields more than two digits. The contract then bounds the length only, and the exact form is stated for ASCII text.
- The Tk GUI and the entry point (`main_window.py`, `main.py`) are not part of this model.

## Findings

| source | as written | input that shows it | evidently intended | confidence | as-written member | corrected member |
|---|---|---|---|---|---|---|
| src/uart_handler.py:427-433 | `get_error_codes` parses the result of `send_command`. That result has already been rewritten by `handle_error_response` (line 377), which never returns text starting with `ERROR:`, so the parse branch is dead and the result is always `[]`. | the device answers `ERROR:DEADBEEF` and DEADBEEF is cached | return the valid codes in the device's raw `ERROR:` line, in order | high, not executed | UartLink.GetErrorCodesLosesReportedCodes | UartLink.GetErrorCodesKeepsReportedCodes |
