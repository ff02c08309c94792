/**
 * Failure values shared by the client and the server model.  Every Python
 * exception that the two programs let escape (and that therefore ends the
 * process) is an `Err` carrying the exception's class.
 */
module Results {

  datatype Option<+T> = None | Some(value: T)

  /** The exceptions the modelled code can raise. */
  datatype Error =
    | ValueError          // int() of a string that is not an integer literal
    | UnicodeDecodeError  // bytes.decode() of bytes that are not UTF-8
    | IndexError          // a list index past the end (cmd_list[0], cmd[1])
    | ArgumentTypeError   // port_type rejecting a port outside [1024, 65535]

  datatype Result<+T> = Ok(value: T) | Err(error: Error)
}
