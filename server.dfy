/**
 * server_ftp.py: the server side of one control connection.  The control
 * socket and the files in the server's working directory are the state;
 * each turn of the main loop receives one command frame and runs the
 * handler its first word selects.  A data connection is opened for every
 * handler except quit: the server sends str(data_port) on the control
 * channel, receives the client's port as a frame, and then talks to the
 * client on a fresh socket whose incoming segments are a parameter.
 */
module ServerFtp {
  import opened Results
  import opened PyStr
  import opened Utf8
  import opened Framing
  import opened Transport
  import opened Commands
  import opened Ports

  // The messages are written as concatenations so that the verifier keeps
  // them symbolic instead of evaluating their frames character by character.
  const WelcomeText: string := "Welcome to " + "nextgenFTP"
  const ExistsText: string := "File " + "exists!"

  /**
   * send_message(sock, payload): build_header counts the payload's UTF-8
   * bytes (a str) or its length (bytes), then header and payload are handed
   * to sock.send until every byte is accepted.
   */
  method SendMessage(sock: Socket, p: Payload) returns (bytesSent: nat)
    modifies sock
    ensures bytesSent == |WireFrame(p)|
    ensures sock.outbound == old(sock.outbound) + WireFrame(p)
    ensures sock.arrivals == old(sock.arrivals)
  {
    var header := BuildHeader(|PayloadBytes(p)|);
    bytesSent := SendAll(sock, Encode(header) + PayloadBytes(p));
  }

  /**
   * int(b) for a bytes object: accepted only when every byte is ASCII, with
   * surrounding ASCII whitespace (bytes know no other), then read as for str.
   */
  function ParseIntBytes(b: seq<byte>): (r: Option<int>)
    ensures r.Some? ==> IsAsciiBytes(b)
  {
    if IsAsciiBytes(b) && NoSeparators(b) then
      match Decode(b)
      case None => None
      case Some(t) => ParseInt(t)
    else None
  }

  /** str(n) is made of a sign and decimal digits. */
  predicate SignOrDigits(s: string) {
    forall i :: 0 <= i < |s| ==> s[i] == '-' || IsDigit(s[i])
  }

  lemma IntToStringChars(n: int)
    ensures SignOrDigits(IntToString(n))
  {
    var s := IntToString(n);
    forall i | 0 <= i < |s| ensures s[i] == '-' || IsDigit(s[i]) {
      if n < 0 && i > 0 { assert s[i] == s[1..][i - 1]; }
    }
  }

  /** No byte of b is one of the separators 0x1C-0x1F that bytes.strip leaves but int() refuses. */
  predicate NoSeparators(b: seq<byte>) {
    forall i :: 0 <= i < |b| ==> !(0x1C <= b[i] <= 0x1F)
  }

  /** Signs and digits encode to ASCII bytes that int() reads as the string itself. */
  lemma ParseIntBytesOfAscii(s: string)
    requires SignOrDigits(s)
    ensures ParseIntBytes(Encode(s)) == ParseInt(s)
  {
    SignOrDigitsBytes(s);
    DecodeEncode(s);
  }

  lemma SignOrDigitsBytes(s: string)
    requires SignOrDigits(s)
    ensures IsAsciiBytes(Encode(s)) && NoSeparators(Encode(s))
  {
    assert IsAscii(s);
    var b := Encode(s);
    forall i | 0 <= i < |b| ensures b[i] < 0x80 && !(0x1C <= b[i] <= 0x1F) {
      assert b[i] as int == s[i] as int;
    }
  }

  /** The port frame the client sends, str(port) encoded, reads back as that port. */
  lemma ParseIntBytesOfString(port: int)
    ensures ParseIntBytes(Encode(IntToString(port))) == Some(port)
  {
    IntToStringChars(port);
    ParseIntBytesOfAscii(IntToString(port));
    ParseIntOfString(port);
  }

  /** What verify_client_cmd does with a command frame. */
  datatype Dispatch = Invalid | Call(command: Command, text: string)

  /**
   * verify_client_cmd(client_cmd): decode (UnicodeDecodeError), split,
   * cmd_list[0] (IndexError when there is no word), and the handler named
   * by that word, if any.
   */
  function VerifyClientCmd(clientCmd: seq<byte>): (r: Result<Dispatch>)
    ensures r == Err(UnicodeDecodeError) <==> Decode(clientCmd).None?
    ensures r == Err(IndexError) <==> Decode(clientCmd).Some? && Split(Decode(clientCmd).value) == []
    ensures r.Ok? && r.value.Call? ==>
      && Decode(clientCmd) == Some(r.value.text)
      && Split(r.value.text) != []
      && Split(r.value.text)[0] == Name(r.value.command)
    ensures r == Ok(Invalid) <==>
      Decode(clientCmd).Some? && Split(Decode(clientCmd).value) != [] && Lookup(Split(Decode(clientCmd).value)[0]).None?
  {
    match Decode(clientCmd)
    case None => Err(UnicodeDecodeError)
    case Some(text) =>
      var cmdList := Split(text);
      if cmdList == [] then Err(IndexError)
      else match Lookup(cmdList[0])
        case None => Ok(Invalid)
        case Some(c) => Ok(Call(c, text))
  }

  /** A line whose first word names a command is dispatched to exactly that command. */
  lemma DispatchByFirstWord(line: string, c: Command)
    requires Split(line) != [] && Split(line)[0] == Name(c)
    ensures VerifyClientCmd(Encode(line)) == Ok(Call(c, line))
  {
    DecodeEncode(line);
    LookupName(c);
  }

  /** The frame new_data_socket sends first: str(data_port). */
  function PortFrame(dataPort: int): seq<byte> {
    WireFrame(Text(IntToString(dataPort)))
  }

  /** int(p) on the client's port frame, or the exception receiving it raised. */
  function DataSetup(reply: Result<seq<byte>>): Result<int> {
    match reply
    case Err(e) => Err(e)
    case Ok(p) =>
      match ParseIntBytes(p)
      case None => Err(ValueError)
      case Some(port) => Ok(port)
  }

  /** How a turn of the main loop ends. */
  datatype Outcome = Handled | Ignored | Exited | Crashed(error: Error)

  /**
   * get_cmd / getb_cmd once the data connection is up: the outcome and the
   * bytes sent on it.  A missing file is announced by an empty marker
   * frame; an existing one by "File exists!" and then its contents, read as
   * UTF-8 text for get (a file that is not valid UTF-8 raises after the
   * marker has gone out).
   */
  function GetReply(files: map<string, seq<byte>>, path: string, binary: bool): (Outcome, seq<byte>) {
    if path !in files then (Handled, WireFrame(Text("")))
    else ExistingFileReply(files[path], binary)
  }

  /** The marker frame and then the file's contents (text or bytes). */
  function ExistingFileReply(contents: seq<byte>, binary: bool): (Outcome, seq<byte>) {
    var (o, out) := ContentReply(contents, binary);
    (o, WireFrame(Text(ExistsText)) + out)
  }

  /** The contents frame: the bytes for getb, the decoded text for get. */
  function ContentReply(contents: seq<byte>, binary: bool): (Outcome, seq<byte>) {
    if binary then (Handled, WireFrame(Binary(contents)))
    else match Decode(contents)
      case None => (Crashed(UnicodeDecodeError), [])
      case Some(t) => (Handled, WireFrame(Text(t)))
  }

  /** The existing-file branch of get_cmd and getb_cmd. */
  method SendExistingFile(s: Socket, contents: seq<byte>, binary: bool) returns (o: Outcome)
    modifies s
    ensures o == ExistingFileReply(contents, binary).0
    ensures s.outbound == old(s.outbound) + ExistingFileReply(contents, binary).1
    ensures s.arrivals == old(s.arrivals)
  {
    var _ := SendMessage(s, Text(ExistsText));
    o := SendContents(s, contents, binary);
    AppendAssoc(old(s.outbound), WireFrame(Text(ExistsText)), ContentReply(contents, binary).1);
  }

  /** The contents frame of get_cmd and getb_cmd. */
  method SendContents(s: Socket, contents: seq<byte>, binary: bool) returns (o: Outcome)
    modifies s
    ensures o == ContentReply(contents, binary).0
    ensures s.outbound == old(s.outbound) + ContentReply(contents, binary).1
    ensures s.arrivals == old(s.arrivals)
  {
    var content: Payload;
    if binary {
      content := Binary(contents);
    } else {
      var t := Decode(contents);
      if t.None? {
        return Crashed(UnicodeDecodeError);
      }
      content := Text(t.value);
    }
    var _ := SendMessage(s, content);
    o := Handled;
  }

  /**
   * put_cmd / putb_cmd once the data connection is up: the file is opened
   * for writing (emptied) before the frame is received, then written with
   * what arrived.
   */
  function PutEffect(files: map<string, seq<byte>>, name: string, dataIn: seq<Segment>, binary: bool)
    : (r: (Outcome, map<string, seq<byte>>))
    ensures name in r.1 && r.1 == files[name := r.1[name]]
    ensures r.0 == Handled <==> FileData(ReceiveFrame(dataIn).0, binary).Ok?
    ensures r.0 == Handled ==> ReceiveFrame(dataIn).0 == Ok(r.1[name])
    ensures r.0 != Handled ==> r.1[name] == []
  {
    Stored(files, name, FileData(ReceiveFrame(dataIn).0, binary))
  }

  /** The file written by put or putb: emptied on opening, then given the received data if there is any. */
  function Stored(files: map<string, seq<byte>>, name: string, data: Result<seq<byte>>): (Outcome, map<string, seq<byte>>) {
    match data
    case Err(e) => (Crashed(e), files[name := []])
    case Ok(d) => (Handled, files[name := d])
  }

  /** The second word of the command line, which get, getb, put and putb take as the file. */
  function FileArg(text: string): string {
    var words := Split(text);
    if |words| < 2 then "" else words[1]
  }

  /**
   * The handler of c once the data connection is up: its outcome, the
   * bytes it sends on the data connection, and the files afterwards.
   * put and putb name the file by the basename of their argument.
   */
  function Served(c: Command, arg: string, files: map<string, seq<byte>>, dataIn: seq<Segment>, listing: string)
    : (r: (Outcome, seq<byte>, map<string, seq<byte>>))
    ensures r.0 == Exited <==> c == Quit
    ensures c != Put && c != PutB ==> r.2 == files
  {
    match c
    case Get => var (o, out) := GetReply(files, arg, false); (o, out, files)
    case GetB => var (o, out) := GetReply(files, arg, true); (o, out, files)
    case Put => var (o, fs) := PutEffect(files, Basename(arg), dataIn, false); (o, [], fs)
    case PutB => var (o, fs) := PutEffect(files, Basename(arg), dataIn, true); (o, [], fs)
    case Ls => (Handled, WireFrame(Text(listing)), files)
    case Help => (Handled, WireFrame(Text(Concat(HelpRows))), files)
    case Quit => (Exited, [], files)
  }

  /** The state a turn leaves behind and what it sent. */
  datatype TurnResult = TurnResult(
    outcome: Outcome,
    ctrlSent: seq<byte>,
    ctrlLeft: seq<Segment>,
    dataSent: seq<byte>,
    files: map<string, seq<byte>>)

  /**
   * A handler, from the control segments left after the command frame:
   * quit closes the connection; the file argument of get, getb, put and
   * putb is indexed first (IndexError without it), then the data
   * connection is set up, then the handler runs.
   */
  function Handle(c: Command, text: string, ctrlIn: seq<Segment>, files: map<string, seq<byte>>,
                  dataPort: int, dataIn: seq<Segment>, listing: string): (r: TurnResult)
    ensures r.outcome == Exited <==> c == Quit
  {
    if c == Quit then TurnResult(Exited, [], ctrlIn, [], files)
    else if TakesFile(c) && |Split(text)| < 2 then TurnResult(Crashed(IndexError), [], ctrlIn, [], files)
    else
      var (reply, left) := ReceiveFrame(ctrlIn);
      match DataSetup(reply)
      case Err(e) => TurnResult(Crashed(e), PortFrame(dataPort), left, [], files)
      case Ok(_) =>
        var (o, out, fs) := Served(c, FileArg(text), files, dataIn, listing);
        TurnResult(o, PortFrame(dataPort), left, out, fs)
  }

  /** One turn of the main loop: receive_message on the control socket, then verify_client_cmd. */
  function Turn(ctrlIn: seq<Segment>, files: map<string, seq<byte>>, dataPort: int, dataIn: seq<Segment>,
                listing: string): TurnResult
  {
    var (cmd, left) := ReceiveFrame(ctrlIn);
    match cmd
    case Err(e) => TurnResult(Crashed(e), [], left, [], files)
    case Ok(clientCmd) =>
      match VerifyClientCmd(clientCmd)
      case Err(e) => TurnResult(Crashed(e), [], left, [], files)
      case Ok(Invalid) => TurnResult(Ignored, [], left, [], files)
      case Ok(Call(c, text)) => Handle(c, text, left, files, dataPort, dataIn, listing)
  }

  class Server {
    var ctrl: Socket
    const dataPort: int
    /** The server's working directory: file name to contents. */
    var files: map<string, seq<byte>>
    /** The control connection was closed by quit. */
    var closed: bool

    constructor (ctrlPort: int, ctrl: Socket, files: map<string, seq<byte>>)
      ensures this.ctrl == ctrl && dataPort == DataPort(ctrlPort)
      ensures this.files == files && !closed
    {
      this.ctrl := ctrl;
      dataPort := DataPort(ctrlPort);
      this.files := files;
      closed := false;
    }

    /** The welcome frame sent once the client is connected. */
    method Welcome()
      modifies ctrl
      ensures ctrl.outbound == old(ctrl.outbound) + WireFrame(Text(WelcomeText))
      ensures ctrl.arrivals == old(ctrl.arrivals)
    {
      var _ := SendMessage(ctrl, Text(WelcomeText));
    }

    /**
     * new_data_socket: str(data_port) goes out on the control channel
     * before the client's port frame is received and parsed with int().
     */
    method NewDataSocket(dataIn: seq<Segment>) returns (r: Result<Socket>)
      modifies ctrl
      ensures ctrl.outbound == old(ctrl.outbound) + PortFrame(dataPort)
      ensures ctrl.arrivals == ReceiveFrame(old(ctrl.arrivals)).1
      ensures r.Ok? <==> DataSetup(ReceiveFrame(old(ctrl.arrivals)).0).Ok?
      ensures r.Err? ==> r.error == DataSetup(ReceiveFrame(old(ctrl.arrivals)).0).error
      ensures r.Ok? ==> fresh(r.value) && r.value.arrivals == dataIn && r.value.outbound == []
    {
      var _ := SendMessage(ctrl, Text(IntToString(dataPort)));
      var p := ReceiveMessage(ctrl);
      if p.Err? {
        return Err(p.error);
      }
      var port := ParseIntBytes(p.value);
      if port.None? {
        return Err(ValueError);
      }
      var s := new Socket(dataIn);
      r := Ok(s);
    }

    /** get_cmd and getb_cmd once the data socket is connected. */
    method ServeGet(s: Socket, path: string, binary: bool) returns (o: Outcome)
      modifies s
      ensures o == GetReply(files, path, binary).0
      ensures s.outbound == old(s.outbound) + GetReply(files, path, binary).1
      ensures s.arrivals == old(s.arrivals)
    {
      if path in files {
        o := SendExistingFile(s, files[path], binary);
      } else {
        var _ := SendMessage(s, Text(""));
        o := Handled;
      }
    }

    /** put_cmd and putb_cmd once the data socket is connected. */
    method ServePut(s: Socket, name: string, binary: bool) returns (o: Outcome)
      modifies this, s
      ensures o == PutEffect(old(files), name, old(s.arrivals), binary).0
      ensures files == PutEffect(old(files), name, old(s.arrivals), binary).1
      ensures s.outbound == old(s.outbound)
      ensures ctrl == old(ctrl) && closed == old(closed)
    {
      var before := files;
      files := files[name := []];
      var data := ReceiveFileData(s, binary);
      if data.Err? {
        o := Crashed(data.error);
      } else {
        files := before[name := data.value];
        o := Handled;
      }
      assert (o, files) == Stored(before, name, data);
    }

    /** The handler of c on a connected data socket. */
    method Serve(s: Socket, c: Command, arg: string, listing: string) returns (o: Outcome)
      requires s != ctrl
      modifies this, s
      ensures o == Served(c, arg, old(files), old(s.arrivals), listing).0
      ensures s.outbound == old(s.outbound) + Served(c, arg, old(files), old(s.arrivals), listing).1
      ensures files == Served(c, arg, old(files), old(s.arrivals), listing).2
      ensures ctrl == old(ctrl) && closed == old(closed)
    {
      ghost var r := Served(c, arg, files, s.arrivals, listing);
      match c {
        case Get => o := ServeGet(s, arg, false);
        case GetB => o := ServeGet(s, arg, true);
        case Put =>
          o := ServePut(s, Basename(arg), false);
          assert r == (o, [], files);
        case PutB =>
          o := ServePut(s, Basename(arg), true);
          assert r == (o, [], files);
        case Ls =>
          var _ := SendMessage(s, Text(listing));
          o := Handled;
        case Help =>
          var helpText := HelpText();
          var _ := SendMessage(s, Text(helpText));
          o := Handled;
        case Quit => o := Exited;
      }
    }

    /** The part of a turn after verify_client_cmd has chosen command c. */
    method RunCommand(c: Command, text: string, dataIn: seq<Segment>, listing: string)
      returns (o: Outcome, dataSent: seq<byte>)
      requires !closed
      modifies this, ctrl
      ensures ctrl == old(ctrl)
      ensures o == Handle(c, text, old(ctrl.arrivals), old(files), dataPort, dataIn, listing).outcome
      ensures ctrl.outbound == old(ctrl.outbound) + Handle(c, text, old(ctrl.arrivals), old(files), dataPort, dataIn, listing).ctrlSent
      ensures ctrl.arrivals == Handle(c, text, old(ctrl.arrivals), old(files), dataPort, dataIn, listing).ctrlLeft
      ensures dataSent == Handle(c, text, old(ctrl.arrivals), old(files), dataPort, dataIn, listing).dataSent
      ensures files == Handle(c, text, old(ctrl.arrivals), old(files), dataPort, dataIn, listing).files
      ensures closed <==> o == Exited
    {
      if c == Quit {
        closed := true;
        return Exited, [];
      }
      if TakesFile(c) && |Split(text)| < 2 {
        return Crashed(IndexError), [];
      }
      var r := NewDataSocket(dataIn);
      if r.Err? {
        return Crashed(r.error), [];
      }
      var s := r.value;
      o := Serve(s, c, FileArg(text), listing);
      dataSent := s.outbound;
    }

    /**
     * One turn of the main loop: receive a command frame, dispatch on its
     * first word, run the handler.  `dataIn` is what the client will send
     * on the data connection and `listing` the output of running the
     * command line in a shell (for ls).
     */
    method Step(dataIn: seq<Segment>, listing: string) returns (o: Outcome, dataSent: seq<byte>)
      requires !closed
      modifies this, ctrl
      ensures ctrl == old(ctrl)
      ensures o == Turn(old(ctrl.arrivals), old(files), dataPort, dataIn, listing).outcome
      ensures ctrl.outbound == old(ctrl.outbound) + Turn(old(ctrl.arrivals), old(files), dataPort, dataIn, listing).ctrlSent
      ensures ctrl.arrivals == Turn(old(ctrl.arrivals), old(files), dataPort, dataIn, listing).ctrlLeft
      ensures dataSent == Turn(old(ctrl.arrivals), old(files), dataPort, dataIn, listing).dataSent
      ensures files == Turn(old(ctrl.arrivals), old(files), dataPort, dataIn, listing).files
      ensures closed <==> o == Exited
    {
      var cmd := ReceiveMessage(ctrl);
      if cmd.Err? {
        return Crashed(cmd.error), [];
      }
      var d := VerifyClientCmd(cmd.value);
      if d.Err? {
        return Crashed(d.error), [];
      }
      if d.value.Invalid? {
        return Ignored, [];
      }
      o, dataSent := RunCommand(d.value.command, d.value.text, dataIn, listing);
    }
  }
}
