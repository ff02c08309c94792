/**
 * Port numbers: port_type, the check both programs apply to the control
 * port given on the command line, and the server's data port, which is
 * always the control port minus one.
 */
module Ports {
  import opened Results
  import opened PyStr

  const LowPortLimit: int := 1024
  const HighPortLimit: int := 65535
  /** The port used when none is given on the command line. */
  const DefaultPort: string := "3321"

  /**
   * port_type(port_str): int(port_str), a ValueError when that fails, and
   * an ArgumentTypeError when the number lies outside [1024, 65535].
   */
  function PortType(portStr: string): (r: Result<int>)
    ensures r.Ok? ==> LowPortLimit <= r.value <= HighPortLimit
    ensures r.Ok? ==> ParseInt(portStr) == Some(r.value)
    ensures ParseInt(portStr).None? <==> r == Err(ValueError)
    ensures ParseInt(portStr).Some? ==>
      var v := ParseInt(portStr).value;
      (r == Ok(v) <==> LowPortLimit <= v <= HighPortLimit)
    ensures ParseInt(portStr).Some? && r.Err? ==> r == Err(ArgumentTypeError)
  {
    match ParseInt(portStr)
    case None => Err(ValueError)
    case Some(port) =>
      if port < LowPortLimit || port > HighPortLimit then Err(ArgumentTypeError)
      else Ok(port)
  }

  /** port_type accepts the decimal form of a number exactly when it is in range. */
  lemma PortTypeOfString(port: int)
    ensures LowPortLimit <= port <= HighPortLimit <==> PortType(IntToString(port)) == Ok(port)
    ensures !(LowPortLimit <= port <= HighPortLimit) ==> PortType(IntToString(port)) == Err(ArgumentTypeError)
  {
    ParseIntOfString(port);
  }

  /** The default "3321" is accepted. */
  lemma DefaultPortAccepted()
    ensures PortType(DefaultPort) == Ok(3321)
  {
    assert IntToString(3321) == DefaultPort by {
      assert NatToString(3) == "3";
      assert NatToString(33) == "33";
      assert NatToString(332) == "332";
    }
    PortTypeOfString(3321);
  }

  /** data_port = ctrl_port - 1. */
  function DataPort(ctrlPort: int): (dataPort: int)
    ensures dataPort < ctrlPort
  {
    ctrlPort - 1
  }

  /**
   * For every control port port_type accepts, the data port is a distinct
   * valid TCP port, but it can be 1023, one that port_type itself refuses.
   */
  lemma DataPortRange(portStr: string)
    requires PortType(portStr).Ok?
    ensures var d := DataPort(PortType(portStr).value);
      LowPortLimit - 1 <= d <= HighPortLimit - 1 && d != PortType(portStr).value
    ensures PortType(portStr).value == LowPortLimit ==> PortType(IntToString(DataPort(LowPortLimit))).Err?
  {
    PortTypeOfString(LowPortLimit - 1);
  }
}
