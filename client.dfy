/**
 * client_ftp.py: the client side of one control connection.  The client
 * reads a command line, decides from its words whether to send it, and
 * for a sent command opens a data connection (it listens on a port the
 * system picks, announces that port on the control channel and accepts
 * the server's connection) and runs the command's processing function on
 * it.
 */
module ClientFtp {
  import opened Results
  import opened PyStr
  import opened Utf8
  import opened Framing
  import opened Transport
  import opened Commands

  /** len(data_amt) in the client's build_header: characters of a str, bytes of a bytes object. */
  function ClientLength(p: Payload): nat {
    match p
    case Text(t) => |t|
    case Binary(b) => |b|
  }

  /** The frame the client's send_message puts on the wire. */
  function ClientFrame(p: Payload): seq<byte> {
    Frame(PaddedHeader(ClientLength(p)), p)
  }

  /**
   * send_message(socket_name, data_body): the header counts len(data_body),
   * then header and payload are handed to send until every byte has gone.
   */
  method SendMessage(sock: Socket, p: Payload) returns (bytesSent: nat)
    modifies sock
    ensures bytesSent == |ClientFrame(p)|
    ensures sock.outbound == old(sock.outbound) + ClientFrame(p)
    ensures sock.arrivals == old(sock.arrivals)
  {
    var header := BuildHeader(ClientLength(p));
    bytesSent := SendAll(sock, Encode(header) + PayloadBytes(p));
  }

  /**
   * The client's frame is the server's frame exactly when the length it
   * counts is the number of bytes sent: for bytes, and for ASCII text.
   */
  lemma ClientFrameAgrees(p: Payload)
    ensures ClientFrame(p) == WireFrame(p) <==> p.Binary? || IsAscii(p.text)
  {
    if p.Text? && !IsAscii(p.text) && ClientFrame(p) == WireFrame(p) {
      var t := p.text;
      var a, b := PaddedHeader(|t|), PaddedHeader(|Encode(t)|);
      assert Encode(a) + Encode(t) == Encode(b) + Encode(t);
      HeaderLayout(|t|);
      HeaderLayout(|Encode(t)|);
      HeaderIsAscii(|t|);
      HeaderIsAscii(|Encode(t)|);
      assert |Encode(a)| == |a| && |Encode(b)| == |b|;
      SameSuffix(Encode(a), Encode(b), Encode(t));
      DecodeEncode(a);
      DecodeEncode(b);
      HeaderInjective(|t|, |Encode(t)|);
    }
  }

  lemma SameSuffix(x: seq<byte>, y: seq<byte>, z: seq<byte>)
    requires x + z == y + z
    ensures x == y
  {
    assert x == (x + z)[..|x|];
    assert y == (y + z)[..|y|];
  }

  /**
   * A text payload that is not ASCII, sent by the client in one segment,
   * is received with a body cut to as many bytes as it has characters;
   * the rest of its encoding stays unread, in front of whatever follows.
   */
  lemma NonAsciiTextTruncated(t: string, tail: seq<Segment>)
    requires !IsAscii(t) && |t| < Pow10(HeaderSize)
    ensures |t| < |Encode(t)|
    ensures ReceiveFrame(Push(ClientFrame(Text(t)), tail))
         == (Ok(Encode(t)[..|t|]), Push(Encode(t)[|t|..], tail))
  {
    var h, e := PaddedHeader(|t|), Encode(t);
    HeaderReadsBack(|t|);
    FrameCut(h, e, |t|);
    ReceiveWholeSegment(h, e[..|t|], e[|t|..], tail);
  }

  lemma FrameCut(h: string, e: seq<byte>, k: nat)
    requires k <= |e|
    ensures Encode(h) + e == Encode(h) + e[..k] + e[k..]
  {
    assert e == e[..k] + e[k..];
    AppendAssoc(Encode(h), e[..k], e[k..]);
  }

  /** final_str: the decimal forms of the elements, joined left to right. */
  function Join(xs: seq<int>): string {
    if xs == [] then "" else Join(xs[..|xs| - 1]) + IntToString(xs[|xs| - 1])
  }

  /**
   * The number whose decimal digits are those of the non-negative elements
   * written one after another, computed arithmetically.
   */
  function JoinValue(xs: seq<nat>): nat {
    if xs == [] then 0
    else
      var x := xs[|xs| - 1];
      Shift(JoinValue(xs[..|xs| - 1]), NumDigits(x)) + x
  }

  /** v followed by k zero digits. */
  function Shift(v: nat, k: nat): nat {
    if k == 0 then v else 10 * Shift(v, k - 1)
  }

  lemma {:induction false} ShiftIsProduct(v: nat, k: nat)
    ensures Shift(v, k) == v * Pow10(k)
  {
    if k > 0 {
      ShiftIsProduct(v, k - 1);
      ShiftDigit(v, Pow10(k - 1), 0, 0);
    }
  }

  /** Joining non-negative numbers gives digits whose value is JoinValue. */
  lemma {:induction false} JoinDigits(xs: seq<nat>)
    ensures AllDigits(Join(xs)) && |Join(xs)| >= |xs|
    ensures DigitsValue(Join(xs)) == JoinValue(xs)
  {
    if xs != [] {
      var init, x := xs[..|xs| - 1], xs[|xs| - 1];
      JoinDigits(init);
      DigitsValueAppend(Join(init), NatToString(x));
      ShiftIsProduct(JoinValue(init), NumDigits(x));
    }
  }

  /** Join over a sequence split in two. */
  lemma {:induction false} JoinAppend(xs: seq<int>, ys: seq<int>)
    ensures Join(xs + ys) == Join(xs) + Join(ys)
  {
    if ys == [] {
      assert xs + ys == xs;
    } else {
      var init, last := ys[..|ys| - 1], ys[|ys| - 1];
      assert (xs + ys)[..|xs + ys| - 1] == xs + init;
      assert (xs + ys)[|xs + ys| - 1] == last;
      assert Join(xs + ys) == Join(xs + init) + IntToString(last);
      JoinAppend(xs, init);
      AppendAssoc(Join(xs), Join(init), IntToString(last));
    }
  }

  /** The last character of a non-empty join is a digit. */
  lemma JoinEndsInDigit(xs: seq<int>)
    requires xs != []
    ensures Join(xs) != [] && IsDigit(Join(xs)[|Join(xs)| - 1])
  {
    var x := xs[|xs| - 1];
    var s := IntToString(x);
    if x < 0 {
      assert s[|s| - 1] == s[1..][|s| - 2];
    }
  }

  /** The first character of a join that starts with a non-negative number is a digit. */
  lemma JoinStartsWithDigit(xs: seq<int>)
    requires xs != [] && xs[0] >= 0
    ensures Join(xs) != [] && IsDigit(Join(xs)[0])
  {
    JoinFront(xs);
    var s0 := IntToString(xs[0]);
    assert Join(xs)[0] == s0[0];
  }

  /**
   * A negative element after the first puts its '-' inside the joined
   * string, at the first character of that element's decimal form.
   */
  lemma JoinInnerSign(xs: seq<int>, i: nat)
    requires i < |xs| && xs[i] < 0
    ensures |Join(xs[..i])| < |Join(xs)| && Join(xs)[|Join(xs[..i])|] == '-'
  {
    assert xs == xs[..i] + ([xs[i]] + xs[i + 1..]);
    JoinAppend(xs[..i], [xs[i]] + xs[i + 1..]);
    JoinAppend([xs[i]], xs[i + 1..]);
    assert Join([xs[i]]) == "" + IntToString(xs[i]);
  }

  /** The magnitude of each element. */
  function Magnitudes(xs: seq<int>): (ms: seq<nat>)
    ensures |ms| == |xs|
    ensures forall i {:trigger ms[i]} :: 0 <= i < |xs| ==> ms[i] == if xs[i] < 0 then -xs[i] else xs[i]
  {
    seq(|xs|, i requires 0 <= i < |xs| => if xs[i] < 0 then -xs[i] else xs[i])
  }

  /**
   * concat_list_elems(list_ds): str() of every element appended to
   * final_str, then int(final_str).  The digits of the magnitudes run
   * together, a leading '-' negates the result, and a '-' anywhere else
   * (or an empty list) is a ValueError.
   */
  method ConcatListElems(xs: seq<int>) returns (r: Result<int>)
    ensures xs == [] ==> r == Err(ValueError)
    ensures xs != [] && xs[0] >= 0 && (forall i :: 0 < i < |xs| ==> xs[i] >= 0) ==>
      r == Ok(JoinValue(Magnitudes(xs)))
    ensures xs != [] && xs[0] < 0 && (forall i :: 0 < i < |xs| ==> xs[i] >= 0) ==>
      r == Ok(-(JoinValue(Magnitudes(xs)) as int))
    ensures (exists i :: 0 < i < |xs| && xs[i] < 0) ==> r == Err(ValueError)
  {
    var finalStr := "";
    for k := 0 to |xs|
      invariant finalStr == Join(xs[..k])
    {
      assert xs[..k + 1][..k] == xs[..k];
      finalStr := finalStr + IntToString(xs[k]);
    }
    assert xs[..|xs|] == xs;
    var n := ParseInt(finalStr);
    r := if n.None? then Err(ValueError) else Ok(n.value);
    ParseJoin(xs);
  }

  /** What int() makes of the join, case by case on the signs of the elements. */
  lemma ParseJoin(xs: seq<int>)
    ensures xs == [] ==> ParseInt(Join(xs)) == None
    ensures xs != [] && xs[0] >= 0 && (forall i :: 0 < i < |xs| ==> xs[i] >= 0) ==>
      ParseInt(Join(xs)) == Some(JoinValue(Magnitudes(xs)) as int)
    ensures xs != [] && xs[0] < 0 && (forall i :: 0 < i < |xs| ==> xs[i] >= 0) ==>
      ParseInt(Join(xs)) == Some(-(JoinValue(Magnitudes(xs)) as int))
    ensures (exists i :: 0 < i < |xs| && xs[i] < 0) ==> ParseInt(Join(xs)) == None
  {
    if xs == [] {
      assert ParseInt("") == None;
    } else if forall i :: 0 < i < |xs| ==> xs[i] >= 0 {
      if xs[0] >= 0 {
        JoinOfNaturals(xs);
      } else {
        JoinWithNegativeFirst(xs);
      }
    } else {
      JoinWithInnerSign(xs);
    }
  }

  /** A join is the first element's decimal form followed by the join of the rest. */
  lemma JoinFront(xs: seq<int>)
    requires xs != []
    ensures Join(xs) == IntToString(xs[0]) + Join(xs[1..])
  {
    var s0 := IntToString(xs[0]);
    JoinAppend([xs[0]], xs[1..]);
    assert [xs[0]] + xs[1..] == xs;
    assert Join([xs[0]]) == s0 by {
      assert [xs[0]][..0] == [];
      assert Join([xs[0]]) == "" + s0;
    }
  }

  /** int() of the join of non-negative numbers is JoinValue. */
  lemma JoinOfNaturals(xs: seq<int>)
    requires xs != [] && forall i :: 0 <= i < |xs| ==> xs[i] >= 0
    ensures ParseInt(Join(xs)) == Some(JoinValue(Magnitudes(xs)) as int)
  {
    var ns := Magnitudes(xs);
    assert ns == xs;
    JoinDigits(ns);
    ParseIntOfDigits(Join(xs));
  }

  /**
   * With only the first element negative, its '-' leads the join, and
   * int() gives the negated JoinValue of the magnitudes.
   */
  lemma JoinWithNegativeFirst(xs: seq<int>)
    requires xs != [] && xs[0] < 0 && forall i :: 0 < i < |xs| ==> xs[i] >= 0
    ensures ParseInt(Join(xs)) == Some(-(JoinValue(Magnitudes(xs)) as int))
  {
    var ms := Magnitudes(xs);
    var n := -(JoinValue(ms) as int);
    MagnitudesAfterFirst(xs);
    NegatedJoin(xs, ms, n);
    ParseIntOfString(n);
  }

  /** The join of ms with its first element negated is str() of the negated JoinValue. */
  lemma NegatedJoin(xs: seq<int>, ms: seq<nat>, n: int)
    requires ms != [] && ms[0] > 0
    requires xs != [] && xs[0] == -(ms[0] as int) && xs[1..] == ms[1..]
    requires n == -(JoinValue(ms) as int)
    ensures Join(xs) == IntToString(n)
  {
    NegatedJoinSign(xs, ms);
    JoinCanonical(ms);
    NegatedString(n, JoinValue(ms));
  }

  /** Negating the first element puts a '-' in front of the join. */
  lemma NegatedJoinSign(xs: seq<int>, ms: seq<nat>)
    requires ms != [] && ms[0] > 0
    requires xs != [] && xs[0] == -(ms[0] as int) && xs[1..] == ms[1..]
    ensures Join(xs) == "-" + Join(ms)
  {
    var a, t := NatToString(ms[0]), Join(ms[1..]);
    calc {
      Join(xs);
      { JoinFront(xs); NegatedString(xs[0], ms[0]); }
      ("-" + a) + t;
      { AppendAssoc("-", a, t); }
      "-" + (a + t);
      { JoinFront(ms); }
      "-" + Join(ms);
    }
  }

  /**
   * The join of non-negative numbers, the first of them positive, is the
   * decimal form of JoinValue: no leading zero can appear.
   */
  lemma JoinCanonical(ms: seq<nat>)
    requires ms != [] && ms[0] > 0
    ensures JoinValue(ms) > 0
    ensures Join(ms) == NatToString(JoinValue(ms))
  {
    JoinDigits(ms);
    JoinFront(ms);
    var d := Join(ms);
    assert d[0] != '0' by {
      assert d[0] == NatToString(ms[0])[0];
    }
    DigitsValuePositive(d);
    CanonicalDigits(d);
  }

  lemma MagnitudesAfterFirst(xs: seq<int>)
    requires xs != [] && xs[0] < 0 && forall i :: 0 < i < |xs| ==> xs[i] >= 0
    ensures Magnitudes(xs) != [] && Magnitudes(xs)[0] > 0
    ensures xs[0] == -(Magnitudes(xs)[0] as int) && xs[1..] == Magnitudes(xs)[1..]
  {
  }

  /** int() refuses a join where a negative number follows the first one. */
  lemma JoinWithInnerSign(xs: seq<int>)
    requires exists i :: 0 < i < |xs| && xs[i] < 0
    ensures ParseInt(Join(xs)) == None
  {
    var i :| 0 < i < |xs| && xs[i] < 0;
    JoinInnerSign(xs, i);
    JoinEndsInDigit(xs);
    JoinEndsInDigit(xs[..i]);
    if xs[0] >= 0 {
      JoinStartsWithDigit(xs);
      ParseIntRejects(Join(xs), |Join(xs[..i])|);
    } else {
      JoinFront(xs);
      ParseIntRejectsSigned(Join(xs), |Join(xs[..i])|);
    }
  }

  /** What the main loop does with an input line. */
  datatype Action =
    | SendQuit             // the line is exactly "quit": send it and exit
    | Crash(error: Error)  // cmd_list[0] of a line without words
    | Usage(command: Command)  // get, getb, put or putb without a file
    | Invalid              // any other first word: print INVALID_FTP_MSG
    | Send(command: Command)   // send the line and run the command

  /** The chain of tests in the main loop, in order. */
  function Classify(line: string): (a: Action)
    ensures a == SendQuit <==> line == "quit"
    ensures a == Crash(IndexError) <==> line != "quit" && Split(line) == []
    ensures a.Crash? ==> a.error == IndexError
    ensures a.Send? ==>
      && a.command != Quit
      && Split(line) != [] && Split(line)[0] == Name(a.command)
      && (TakesFile(a.command) ==> |Split(line)| > 1)
    ensures a.Usage? ==> TakesFile(a.command) && Split(line) == [Name(a.command)]
    ensures a == Invalid ==>
      && line != "quit" && Split(line) != []
      && (Lookup(Split(line)[0]).None? || Lookup(Split(line)[0]) == Some(Quit))
  {
    var words := Split(line);
    if line == "quit" then SendQuit
    else if words == [] then Crash(IndexError)
    else match Lookup(words[0])
      case None => Invalid
      case Some(c) =>
        if c == Quit then Invalid
        else if TakesFile(c) && |words| <= 1 then Usage(c)
        else Send(c)
  }

  /** How one line of input ends. */
  datatype Outcome = Done | Exited | Crashed(error: Error)

  /**
   * process_get_cmd / process_getb_cmd: the marker frame decides; a
   * non-empty marker opens the local file (emptying it) and writes the
   * next frame to it, decoded first for get.
   */
  function FetchEffect(files: map<string, seq<byte>>, name: string, dataIn: seq<Segment>, binary: bool)
    : (Outcome, map<string, seq<byte>>)
  {
    var (marker, rest) := ReceiveFrame(dataIn);
    match marker
    case Err(e) => (Crashed(e), files)
    case Ok(m) =>
      if m == [] then (Done, files)
      else Stored(files, name, FileData(ReceiveFrame(rest).0, binary))
  }

  /** FetchEffect once the marker frame has been received. */
  lemma FetchEffectAfterMarker(files: map<string, seq<byte>>, name: string, dataIn: seq<Segment>, binary: bool,
                               marker: Result<seq<byte>>, rest: seq<Segment>)
    requires ReceiveFrame(dataIn) == (marker, rest)
    ensures marker.Err? ==> FetchEffect(files, name, dataIn, binary) == (Crashed(marker.error), files)
    ensures marker == Ok([]) ==> FetchEffect(files, name, dataIn, binary) == (Done, files)
    ensures marker.Ok? && marker.value != [] ==>
      FetchEffect(files, name, dataIn, binary) == Stored(files, name, FileData(ReceiveFrame(rest).0, binary))
  {
  }

  /** The file written by get or getb: emptied on opening, then given the received data if there is any. */
  function Stored(files: map<string, seq<byte>>, name: string, data: Result<seq<byte>>): (Outcome, map<string, seq<byte>>) {
    match data
    case Err(e) => (Crashed(e), files[name := []])
    case Ok(d) => (Done, files[name := d])
  }

  /**
   * process_put_cmd / process_putb_cmd: an existing local file is read
   * (as UTF-8 text for put) and sent as one frame; a missing one sends
   * nothing.
   */
  function OfferEffect(files: map<string, seq<byte>>, path: string, binary: bool): (Outcome, seq<byte>) {
    if path !in files then (Done, [])
    else if binary then (Done, ClientFrame(Binary(files[path])))
    else match Decode(files[path])
      case None => (Crashed(UnicodeDecodeError), [])
      case Some(t) => (Done, ClientFrame(Text(t)))
  }

  /** process_ls_cmd / process_help_cmd: receive a frame and decode it for printing. */
  function ShowEffect(dataIn: seq<Segment>): Outcome {
    match FileData(ReceiveFrame(dataIn).0, false)
    case Err(e) => Crashed(e)
    case Ok(_) => Done
  }

  /** The processing function of a sent command, on the accepted data connection. */
  function Process(c: Command, arg: string, files: map<string, seq<byte>>, dataIn: seq<Segment>)
    : (Outcome, seq<byte>, map<string, seq<byte>>)
  {
    match c
    case Get => var (o, fs) := FetchEffect(files, Basename(arg), dataIn, false); (o, [], fs)
    case GetB => var (o, fs) := FetchEffect(files, Basename(arg), dataIn, true); (o, [], fs)
    case Put => var (o, out) := OfferEffect(files, arg, false); (o, out, files)
    case PutB => var (o, out) := OfferEffect(files, arg, true); (o, out, files)
    case Ls => (ShowEffect(dataIn), [], files)
    case Help => (ShowEffect(dataIn), [], files)
    case Quit => (Exited, [], files)
  }

  /** What one line does: the outcome, the bytes sent on each channel and the local files after it. */
  datatype TurnResult = TurnResult(
    outcome: Outcome,
    ctrlSent: seq<byte>,
    dataSent: seq<byte>,
    files: map<string, seq<byte>>)

  /** The second word of the line, which get, getb, put and putb take as the file. */
  function FileArg(line: string): string {
    var words := Split(line);
    if |words| < 2 then "" else words[1]
  }

  /**
   * One iteration of the main loop on `line`: `listenPort` is the port the
   * system gave the data socket and `dataIn` what the server sends on the
   * data connection.
   */
  function Turn(line: string, files: map<string, seq<byte>>, listenPort: nat, dataIn: seq<Segment>): TurnResult {
    TurnOf(Classify(line), line, files, listenPort, dataIn)
  }

  /** What the main loop does with `line` once it has been classified as `action`. */
  function TurnOf(action: Action, line: string, files: map<string, seq<byte>>, listenPort: nat, dataIn: seq<Segment>)
    : TurnResult
  {
    match action
    case SendQuit => TurnResult(Exited, ClientFrame(Text(line)), [], files)
    case Crash(e) => TurnResult(Crashed(e), [], [], files)
    case Usage(_) => TurnResult(Done, [], [], files)
    case Invalid => TurnResult(Done, [], [], files)
    case Send(c) =>
      var (o, out, fs) := Process(c, FileArg(line), files, dataIn);
      TurnResult(o, ClientFrame(Text(line)) + ClientFrame(Text(IntToString(listenPort))), out, fs)
  }

  class Client {
    var ctrl: Socket
    /** The client's working directory: file name to contents. */
    var files: map<string, seq<byte>>

    constructor (ctrl: Socket, files: map<string, seq<byte>>)
      ensures this.ctrl == ctrl && this.files == files
    {
      this.ctrl := ctrl;
      this.files := files;
    }

    /** The welcome message, received and decoded right after connecting. */
    method Welcome() returns (r: Result<string>)
      modifies ctrl
      ensures var (m, left) := ReceiveFrame(old(ctrl.arrivals));
        && ctrl.arrivals == left
        && (r.Ok? <==> m.Ok? && Decode(m.value).Some?)
        && (r.Ok? ==> Encode(r.value) == m.value)
      ensures ctrl.outbound == old(ctrl.outbound)
    {
      var m := ReceiveMessage(ctrl);
      if m.Err? {
        return Err(m.error);
      }
      var t := Decode(m.value);
      if t.None? {
        return Err(UnicodeDecodeError);
      }
      EncodeDecode(m.value);
      r := Ok(t.value);
    }

    /** process_get_cmd and process_getb_cmd. */
    method Fetch(s: Socket, name: string, binary: bool) returns (o: Outcome)
      modifies this, s
      ensures o == FetchEffect(old(files), name, old(s.arrivals), binary).0
      ensures files == FetchEffect(old(files), name, old(s.arrivals), binary).1
      ensures s.outbound == old(s.outbound)
      ensures ctrl == old(ctrl)
    {
      var marker := ReceiveMessage(s);
      FetchEffectAfterMarker(files, name, old(s.arrivals), binary, marker, s.arrivals);
      if marker.Err? {
        return Crashed(marker.error);
      }
      if marker.value == [] {
        return Done;
      }
      var before := files;
      files := files[name := []];
      var data := ReceiveFileData(s, binary);
      if data.Err? {
        o := Crashed(data.error);
      } else {
        files := before[name := data.value];
        o := Done;
      }
      assert (o, files) == Stored(before, name, data);
    }

    /** process_put_cmd and process_putb_cmd. */
    method Offer(s: Socket, path: string, binary: bool) returns (o: Outcome)
      modifies s
      ensures o == OfferEffect(files, path, binary).0
      ensures s.outbound == old(s.outbound) + OfferEffect(files, path, binary).1
      ensures s.arrivals == old(s.arrivals)
    {
      if path !in files {
        return Done;
      }
      var p: Payload;
      if binary {
        p := Binary(files[path]);
      } else {
        var t := Decode(files[path]);
        if t.None? {
          return Crashed(UnicodeDecodeError);
        }
        p := Text(t.value);
      }
      var _ := SendMessage(s, p);
      o := Done;
    }

    /** process_ls_cmd and process_help_cmd. */
    method Show(s: Socket) returns (o: Outcome)
      modifies s
      ensures o == ShowEffect(old(s.arrivals))
      ensures s.outbound == old(s.outbound)
    {
      var data := ReceiveFileData(s, false);
      o := if data.Err? then Crashed(data.error) else Done;
    }

    /** The processing function of c on the accepted data socket. */
    method RunProcess(s: Socket, c: Command, arg: string) returns (o: Outcome)
      requires s != ctrl
      modifies this, s
      ensures o == Process(c, arg, old(files), old(s.arrivals)).0
      ensures s.outbound == old(s.outbound) + Process(c, arg, old(files), old(s.arrivals)).1
      ensures files == Process(c, arg, old(files), old(s.arrivals)).2
      ensures ctrl == old(ctrl)
    {
      match c {
        case Get => o := Fetch(s, Basename(arg), false);
        case GetB => o := Fetch(s, Basename(arg), true);
        case Put => o := Offer(s, arg, false);
        case PutB => o := Offer(s, arg, true);
        case Ls => o := Show(s);
        case Help => o := Show(s);
        case Quit => o := Exited;
      }
    }

    /**
     * One iteration of the main loop.  For a sent command the command
     * line and then str(listenPort) go out on the control channel; the
     * control channel is never read here.
     */
    method Step(line: string, listenPort: nat, dataIn: seq<Segment>) returns (o: Outcome, dataSent: seq<byte>)
      modifies this, ctrl
      ensures ctrl == old(ctrl)
      ensures o == Turn(line, old(files), listenPort, dataIn).outcome
      ensures ctrl.outbound == old(ctrl.outbound) + Turn(line, old(files), listenPort, dataIn).ctrlSent
      ensures dataSent == Turn(line, old(files), listenPort, dataIn).dataSent
      ensures files == Turn(line, old(files), listenPort, dataIn).files
      ensures ctrl.arrivals == old(ctrl.arrivals)
    {
      var action := Classify(line);
      o, dataSent := Perform(action, line, listenPort, dataIn);
    }

    /** The branch of the main loop that `action` selects. */
    method Perform(action: Action, line: string, listenPort: nat, dataIn: seq<Segment>) returns (o: Outcome, dataSent: seq<byte>)
      modifies this, ctrl
      ensures ctrl == old(ctrl)
      ensures o == TurnOf(action, line, old(files), listenPort, dataIn).outcome
      ensures ctrl.outbound == old(ctrl.outbound) + TurnOf(action, line, old(files), listenPort, dataIn).ctrlSent
      ensures dataSent == TurnOf(action, line, old(files), listenPort, dataIn).dataSent
      ensures files == TurnOf(action, line, old(files), listenPort, dataIn).files
      ensures ctrl.arrivals == old(ctrl.arrivals)
    {
      match action {
        case SendQuit =>
          var _ := SendMessage(ctrl, Text(line));
          return Exited, [];
        case Crash(e) => return Crashed(e), [];
        case Usage(_) => return Done, [];
        case Invalid => return Done, [];
        case Send(c) =>
          Announce(line, listenPort);
          var s := new Socket(dataIn);
          o := RunProcess(s, c, FileArg(line));
          dataSent := s.outbound;
      }
    }

    /** The command line and then str(listenPort), sent on the control channel. */
    method Announce(line: string, listenPort: nat)
      modifies ctrl
      ensures ctrl.outbound == old(ctrl.outbound) + (ClientFrame(Text(line)) + ClientFrame(Text(IntToString(listenPort))))
      ensures ctrl.arrivals == old(ctrl.arrivals)
    {
      var _ := SendMessage(ctrl, Text(line));
      var _ := SendMessage(ctrl, Text(IntToString(listenPort)));
      AppendAssoc(old(ctrl.outbound), ClientFrame(Text(line)), ClientFrame(Text(IntToString(listenPort))));
    }
  }
}
