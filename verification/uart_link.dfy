/**
 The serial side of the UART handler: checksum framing, the command validator, the
 zero-or-one connection, and the commands built on `send_command`.

 The serial port is a parameter: `reply` is the line the device answers (None when
 writing or reading fails), and `remote` is what the lookup service answers for each code
 while `handle_error_response` resolves descriptions.
 */
module UartLink {
  import opened Wrappers
  import opened Text
  import opened Hex
  import opened UartErrors
  import opened ErrorCodes
  import opened Seqs

  /** `self.connection`: None, or an open port. */
  datatype Link = Disconnected | Connected(port: string)

  /**
   One exchange with the device: the line the call attempted to write (None when it failed
   before writing; the write itself may still have failed), the error-code database
   afterwards, and what the call returned or raised.
   */
  datatype Exchange<T> = Exchange(sent: Option<string>, cache: Cache, out: Result<T, UartError>)

  /** The link after `disconnect`, and the error it raised, if any. */
  datatype Closing = Closing(link: Link, error: Option<UartError>)

  const GET_ERROR_CODES: string := "get_error_codes"
  const CLEAR_ERROR_CODES: string := "clear_error_codes"

  /** `sum(ord(c) for c in data)` */
  function CharSum(data: string): nat
    decreases |data|
  {
    if |data| == 0 then 0 else CharSum(data[..|data| - 1]) + data[|data| - 1] as int
  }

  /** The sum of a concatenation is the sum of the sums. */
  lemma {:induction false} CharSumAppend(a: string, b: string)
    ensures CharSum(a + b) == CharSum(a) + CharSum(b)
    decreases |b|
  {
    if b != [] {
      assert (a + b)[..|a + b| - 1] == a + b[..|b| - 1];
      assert (a + b)[|a + b| - 1] == b[|b| - 1];
      CharSumAppend(a, b[..|b| - 1]);
    } else {
      assert a + b == a;
    }
  }

  lemma CharSumPair(x: char, y: char)
    ensures CharSum([x, y]) == x as int + y as int
  {
    assert [x, y][..1] == [x];
    assert [x][..0] == [];
    assert CharSum([x]) == x as int;
    assert CharSum([x, y]) == CharSum([x]) + y as int;
  }

  /**
   `calculate_checksum`: the data, a colon, and two upper-case hexadecimal digits whose value
   is the sum of the character codes mod 256 (`& 0xFF` of a non-negative sum). The data is
   kept verbatim and the frame is always three characters longer.
   */
  function CalculateChecksum(data: string): (framed: string)
    ensures |framed| == |data| + 3
    ensures framed[..|data|] == data && framed[|data|] == ':'
    ensures AllUpperHexDigits(framed[|data| + 1..]) && AllHexDigits(framed[|data| + 1..])
    ensures Value(framed[|data| + 1..]) == CharSum(data) % 256
  {
    var digits := Pad2(CharSum(data) % 256);
    var framed := data + ":" + digits;
    assert framed[|data| + 1..] == digits;
    framed
  }

  /** The frame sent for `get_error_codes`: its character codes sum to 1590 = 6 * 256 + 0x36. */
  lemma GetErrorCodesFrame()
    ensures CalculateChecksum(GET_ERROR_CODES) == "get_error_codes:36"
  {
    var digits := Pad2(CharSum(GET_ERROR_CODES) % 256);
    assert CalculateChecksum(GET_ERROR_CODES) == GET_ERROR_CODES + ":" + digits;
    assert digits == "36" by {
      GetErrorCodesSum();
      ChecksumDigits();
    }
  }

  lemma ChecksumDigits()
    ensures Pad2(1590 % 256) == "36"
  {
    assert 1590 % 256 == 54;
    assert Numeral(3) == "3";
    assert Numeral(54) == Numeral(54 / 16) + [Digit(54 % 16, true)];
    assert Digit(6, true) == '6';
  }

  /** The character sum of `get_error_codes`, two characters at a time. */
  lemma GetErrorCodesSum()
    ensures CharSum(GET_ERROR_CODES) == 1590
  {
    assert GET_ERROR_CODES == "ge" + "t_" + "er" + "ro" + "r_" + "co" + "de" + "s";
    CharSumAppend("ge" + "t_" + "er" + "ro" + "r_" + "co" + "de", "s");
    CharSumAppend("ge" + "t_" + "er" + "ro" + "r_" + "co", "de");
    CharSumAppend("ge" + "t_" + "er" + "ro" + "r_", "co");
    CharSumAppend("ge" + "t_" + "er" + "ro", "r_");
    CharSumAppend("ge" + "t_" + "er", "ro");
    CharSumAppend("ge" + "t_", "er");
    CharSumAppend("ge", "t_");
    CharSumPair('g', 'e'); CharSumPair('t', '_'); CharSumPair('e', 'r'); CharSumPair('r', 'o');
    CharSumPair('r', '_'); CharSumPair('c', 'o'); CharSumPair('d', 'e');
    assert CharSum("s") == 115 by { assert "s"[..0] == []; }
  }

  /** `validate_command`: non-empty and free of line feeds. */
  function ValidateCommand(command: string): (ok: bool)
    ensures ok <==> command != [] && '\n' !in command
  {
    |command| > 0 && forall i :: 0 <= i < |command| ==> command[i] != '\n'
  }

  /** The commands the handler sends on its own pass its validator. */
  lemma FixedCommandsAreValid()
    ensures ValidateCommand(GET_ERROR_CODES) && ValidateCommand(CLEAR_ERROR_CODES)
  {
    assert forall i :: 0 <= i < |GET_ERROR_CODES| ==> GET_ERROR_CODES[i] != '\n';
    assert forall i :: 0 <= i < |CLEAR_ERROR_CODES| ==> CLEAR_ERROR_CODES[i] != '\n';
  }

  /** The line written for `command`: its frame and the line feed that terminates it. */
  function WireLine(command: string): string {
    CalculateChecksum(command) + "\n"
  }

  /**
   The command validator admits exactly the commands whose written line is one line: a
   non-empty command whose frame holds no line feed before the terminating one.
   */
  lemma ValidCommandIsOneLine(command: string)
    ensures ValidateCommand(command) <==>
      command != [] && '\n' !in WireLine(command)[..|WireLine(command)| - 1]
  {
  }

  /** The shared body of `send_command` and `send_custom_command`. */
  function Transmit(link: Link, c: Cache, remote: string -> Reply, command: string, reply: Option<string>): Exchange<string> {
    if link.Disconnected? then Exchange(None, c, Failure(NotConnected))
    else if !ValidateCommand(command) then Exchange(None, c, Failure(InvalidCommand))
    else match reply
      case None => Exchange(Some(WireLine(command)), c, Failure(SerialFailure))
      case Some(raw) =>
        var handled := HandleErrorResponse(c, remote, StripSpace(raw));
        Exchange(Some(WireLine(command)), handled.cache, handled.out)
  }

  /**
   `send_command`: on a closed link, or for an invalid command, it raises before writing
   anything. Otherwise it attempts to write the framed command and one line feed (`sent`
   records that attempt; a failed write or read is the missing `reply`) and passes the
   stripped reply through `handle_error_response`: a reply that is not an error report comes
   back unchanged, and what it returns never starts with "ERROR:".
   */
  function SendCommand(link: Link, c: Cache, remote: string -> Reply, command: string, reply: Option<string>): (r: Exchange<string>)
    ensures link.Disconnected? ==> r == Exchange(None, c, Failure(NotConnected))
    ensures link.Connected? && !ValidateCommand(command) ==> r == Exchange(None, c, Failure(InvalidCommand))
    ensures r.sent.Some? <==> link.Connected? && ValidateCommand(command)
    ensures r.sent.Some? ==> r.sent.value == CalculateChecksum(command) + "\n"
    ensures r.sent.Some? && reply.None? ==> r.out == Failure(SerialFailure) && r.cache == c
    ensures r.sent.Some? && reply.Some? && !(ERROR_PREFIX <= StripSpace(reply.value)) ==>
      r.out == Success(StripSpace(reply.value)) && r.cache == c
    ensures r.sent.Some? && reply.Some? ==>
      Step(r.cache, r.out) == HandleErrorResponse(c, remote, StripSpace(reply.value))
    ensures r.out.Success? ==> !(ERROR_PREFIX <= r.out.value)
    ensures Extends(c, r.cache)
  {
    Transmit(link, c, remote, command, reply)
  }

  /** `send_custom_command`: the same guards and exchange as `send_command`. */
  function SendCustomCommand(link: Link, c: Cache, remote: string -> Reply, command: string, reply: Option<string>): (r: Exchange<string>)
    ensures r == SendCommand(link, c, remote, command, reply)
    ensures link.Disconnected? ==> r == Exchange(None, c, Failure(NotConnected))
    ensures link.Connected? && !ValidateCommand(command) ==> r == Exchange(None, c, Failure(InvalidCommand))
    ensures r.sent.Some? <==> link.Connected? && ValidateCommand(command)
    ensures r.sent.Some? ==> r.sent.value == CalculateChecksum(command) + "\n"
    ensures r.out.Success? ==> !(ERROR_PREFIX <= r.out.value)
    ensures Extends(c, r.cache)
  {
    Transmit(link, c, remote, command, reply)
  }

  /**
   `disconnect`: the link always ends closed, even when closing the port raises (`finally`);
   an error is reported only when an open port failed to close.
   */
  function Disconnect(link: Link, closeSucceeds: bool): (r: Closing)
    ensures r.link == Disconnected
    ensures r.error.Some? <==> link.Connected? && !closeSucceeds
  {
    if link.Connected? then
      Closing(Disconnected, if closeSucceeds then None else Some(CloseFailure))
    else Closing(Disconnected, None)
  }

  /** The codes of an `ERROR:` line: its comma-separated pieces, stripped, that are valid codes. */
  function ParseErrorCodes(response: string): (codes: seq<string>)
    ensures !(ERROR_PREFIX <= response) ==> codes == []
    ensures forall i :: 0 <= i < |codes| ==> ValidErrorCode(codes[i])
    ensures ERROR_PREFIX <= response ==>
      var pieces := Split(response[|ERROR_PREFIX|..], ',');
      && |codes| == |Kept(pieces, IsValidPiece)|
      && forall j :: 0 <= j < |codes| ==> codes[j] == StripSpace(pieces[Kept(pieces, IsValidPiece)[j]])
  {
    if |response| > 0 && ERROR_PREFIX <= response then
      ValidCodesKeepsValidPieces(Split(response[|ERROR_PREFIX|..], ','));
      ValidCodes(Split(response[|ERROR_PREFIX|..], ','))
    else []
  }

  /**
   `get_error_codes` as written: it parses what `send_command` returns, which has already
   been through `handle_error_response` and so never starts with "ERROR:". Whenever it does
   not raise, it returns no codes.
   */
  function GetErrorCodes(link: Link, c: Cache, remote: string -> Reply, reply: Option<string>): (r: Exchange<seq<string>>)
    ensures link.Disconnected? ==> r == Exchange(None, c, Failure(NotConnected))
    ensures link.Connected? ==> r.sent == Some(CalculateChecksum(GET_ERROR_CODES) + "\n")
    ensures link.Connected? ==> r.cache == SendCommand(link, c, remote, GET_ERROR_CODES, reply).cache
    ensures link.Connected? ==> (r.out.Success? <==> SendCommand(link, c, remote, GET_ERROR_CODES, reply).out.Success?)
    ensures r.out.Success? ==> r.out.value == []
    ensures Extends(c, r.cache)
  {
    if link.Disconnected? then Exchange(None, c, Failure(NotConnected))
    else
      var x := SendCommand(link, c, remote, GET_ERROR_CODES, reply);
      match x.out
      case Failure(e) => Exchange(x.sent, x.cache, Failure(e))
      case Success(response) => Exchange(x.sent, x.cache, Success(ParseErrorCodes(response)))
  }

  /**
   `get_error_codes` as evidently intended: the same request, with the device's stripped
   reply parsed before any rewriting, so the codes it reports are returned, in order.
   */
  function GetErrorCodesFromRawReply(link: Link, c: Cache, reply: Option<string>): (r: Exchange<seq<string>>)
    ensures link.Disconnected? ==> r == Exchange(None, c, Failure(NotConnected))
    ensures link.Connected? ==> r.sent == Some(CalculateChecksum(GET_ERROR_CODES) + "\n")
    ensures r.cache == c
    ensures r.out.Failure? <==> link.Disconnected? || reply.None?
    ensures r.out.Success? ==> r.out.value == ParseErrorCodes(StripSpace(reply.value))
  {
    if link.Disconnected? then Exchange(None, c, Failure(NotConnected))
    else match reply
      case None => Exchange(Some(WireLine(GET_ERROR_CODES)), c, Failure(SerialFailure))
      case Some(raw) => Exchange(Some(WireLine(GET_ERROR_CODES)), c, Success(ParseErrorCodes(StripSpace(raw))))
  }

  /** Parsing an `ERROR:` line recovers the valid codes it was built from. */
  lemma {:induction false} ParseErrorCodesRoundTrip(codes: seq<string>)
    requires forall i :: 0 <= i < |codes| ==> ValidErrorCode(codes[i])
    ensures ParseErrorCodes(ERROR_PREFIX + Join(codes, ",")) == codes
  {
    var line := ERROR_PREFIX + Join(codes, ",");
    assert line[|ERROR_PREFIX|..] == Join(codes, ",");
    if codes == [] {
      assert Split("", ',') == [""];
    } else {
      forall i | 0 <= i < |codes| ensures ',' !in codes[i] {
        assert forall j :: 0 <= j < |codes[i]| ==> IsHexDigit(codes[i][j]);
      }
      SplitJoin(codes, ',');
      ValidCodesOfCodes(codes);
    }
  }

  /** Valid codes are their own strip, so `ValidCodes` keeps them all. */
  lemma {:induction false} ValidCodesOfCodes(codes: seq<string>)
    requires forall i :: 0 <= i < |codes| ==> ValidErrorCode(codes[i])
    ensures ValidCodes(codes) == codes
    decreases |codes|
  {
    if codes != [] {
      var code := codes[0];
      assert !IsSpace(code[0]) && !IsSpace(code[|code| - 1]) by {
        assert IsHexDigit(code[0]) && IsHexDigit(code[|code| - 1]);
      }
      TrimUntouched(code, Spaces);
      ValidCodesOfCodes(codes[1..]);
    }
  }

  /**
   The device reports DEADBEEF, which the database already describes: the code as written
   returns no codes at all.
   */
  lemma GetErrorCodesLosesReportedCodes(port: string, c: Cache, remote: string -> Reply)
    requires "DEADBEEF" in Keys(c)
    ensures GetErrorCodes(Connected(port), c, remote, Some("ERROR:DEADBEEF")).out == Success([])
  {
    var x := SendCommand(Connected(port), c, remote, GET_ERROR_CODES, Some("ERROR:DEADBEEF"));
    assert x.out.Success? by {
      ReportedLineIsAnswered(c, remote);
      FixedCommandsAreValid();
    }
  }

  /** The example reply survives stripping and is answered from the database. */
  lemma {:induction false} ReportedLineIsAnswered(c: Cache, remote: string -> Reply)
    requires "DEADBEEF" in Keys(c)
    ensures StripSpace("ERROR:DEADBEEF") == "ERROR:DEADBEEF"
    ensures HandleErrorResponse(c, remote, "ERROR:DEADBEEF").out.Success?
  {
    ReportedLine();
    AnsweredReply(c, remote, "ERROR:DEADBEEF", "DEADBEEF");
  }

  /** A reply naming one valid code that the database describes is handled without a failure. */
  lemma AnsweredReply(c: Cache, remote: string -> Reply, line: string, code: string)
    requires ERROR_PREFIX <= line && ValidCodes(Split(line[|ERROR_PREFIX|..], ',')) == [code]
    requires code in Keys(c)
    ensures HandleErrorResponse(c, remote, line).out.Success?
  {
    assert AllAnswerable(c, remote, [code]);
  }

  /** On the same reply, the corrected version returns the reported code. */
  lemma GetErrorCodesKeepsReportedCodes(port: string, c: Cache)
    ensures GetErrorCodesFromRawReply(Connected(port), c, Some("ERROR:DEADBEEF")).out == Success(["DEADBEEF"])
  {
    ReportedLine();
  }

  /** The reply line of the example: already stripped, and reporting DEADBEEF alone. */
  lemma ReportedLine()
    ensures StripSpace("ERROR:DEADBEEF") == "ERROR:DEADBEEF"
    ensures ERROR_PREFIX <= "ERROR:DEADBEEF"
    ensures ValidCodes(Split("ERROR:DEADBEEF"[|ERROR_PREFIX|..], ',')) == ["DEADBEEF"]
    ensures ParseErrorCodes("ERROR:DEADBEEF") == ["DEADBEEF"]
  {
    var line := "ERROR:DEADBEEF";
    assert ValidErrorCode("DEADBEEF");
    assert !IsSpace(line[0]) && !IsSpace(line[|line| - 1]);
    TrimUntouched(line, Spaces);
    assert ERROR_PREFIX + Join(["DEADBEEF"], ",") == line;
    ParseErrorCodesRoundTrip(["DEADBEEF"]);
  }

  /**
   `clear_error_codes`: on an open link it raises exactly when `send_command` does, with
   the same error, and otherwise reports whether the device answered "OK" (surrounding
   whitespace aside); an `ERROR:` answer never reads as "OK". A failed write, read or
   decode (no reply) raises; a silent device is an empty reply and reads as False.
   */
  function ClearErrorCodes(link: Link, c: Cache, remote: string -> Reply, reply: Option<string>): (r: Exchange<bool>)
    ensures link.Disconnected? ==> r == Exchange(None, c, Failure(NotConnected))
    ensures link.Connected? ==> r.sent == Some(CalculateChecksum(CLEAR_ERROR_CODES) + "\n")
    ensures link.Connected? ==> r.cache == SendCommand(link, c, remote, CLEAR_ERROR_CODES, reply).cache
    ensures link.Connected? ==> (r.out.Failure? <==> SendCommand(link, c, remote, CLEAR_ERROR_CODES, reply).out.Failure?)
    ensures link.Connected? && r.out.Failure? ==> r.out.error == SendCommand(link, c, remote, CLEAR_ERROR_CODES, reply).out.error
    ensures link.Connected? && reply.None? ==> r.out == Failure(SerialFailure) && r.cache == c
    ensures link.Connected? && reply.Some? && !(ERROR_PREFIX <= StripSpace(reply.value)) ==>
      r.out == Success(StripSpace(reply.value) == "OK") && r.cache == c
    ensures link.Connected? ==> (r.out == Success(true) <==> reply.Some? && StripSpace(reply.value) == "OK")
    ensures Extends(c, r.cache)
  {
    if link.Disconnected? then Exchange(None, c, Failure(NotConnected))
    else
      var x := SendCommand(link, c, remote, CLEAR_ERROR_CODES, reply);
      FixedCommandsAreValid();
      HandledErrorIsNotOk(c, remote, if reply.Some? then StripSpace(reply.value) else "");
      match x.out
      case Failure(e) => Exchange(x.sent, x.cache, Failure(e))
      case Success(response) => Exchange(x.sent, x.cache, Success(response == "OK"))
  }

  /** An `ERROR:` reply, once handled, is empty or starts with a header, so never reads as "OK". */
  lemma HandledErrorIsNotOk(c: Cache, remote: string -> Reply, response: string)
    ensures ERROR_PREFIX <= response ==> HandleErrorResponse(c, remote, response).out != Success("OK")
  {
    var r := HandleErrorResponse(c, remote, response);
    if ERROR_PREFIX <= response && r.out.Success? && r.out.value != [] {
      var codes := ValidCodes(Split(response[|ERROR_PREFIX|..], ','));
      var h := Header(codes[0]);
      assert h <= r.out.value;
      assert h[0] == 'E';
      assert r.out.value[0] == 'E';
    }
  }
}
