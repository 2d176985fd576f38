/** The failures the UART handler raises; messages and the wrapping chain are not modelled. */
module UartErrors {

  datatype UartError =
    | NotConnected     // no open serial connection
    | InvalidCommand   // an empty command or one holding a line break
    | SerialFailure    // writing the command or reading the reply failed
    | CloseFailure     // closing the port failed
    | InvalidCode      // not an eight-digit hexadecimal error code
    | LookupFailure    // the remote service was unreachable or sent unparsable XML
    | CorruptDatabase  // the stored error-code document is not well-formed XML
    | InvalidNor       // an image that fails `validate_nor_file`
    | DecodeFailure    // a serial field with a byte outside ASCII
    | InvalidHex       // a hex string that is empty, odd in length or not hexadecimal
}
