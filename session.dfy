/**
 * The two programs talking to each other: what the client sends for a
 * line is what the server dispatches on, and what one side sends on the
 * data connection is what the other side stores.  Each frame here arrives
 * in one segment (the peer's send followed by its close).
 */
module Session {
  import opened Results
  import opened PyStr
  import opened Utf8
  import opened Framing
  import opened Transport
  import opened Commands
  import opened Ports
  import S = ServerFtp
  import C = ClientFtp

  /** A port number has at most five digits. */
  lemma PortDigits(port: nat)
    requires port <= HighPortLimit
    ensures |IntToString(port)| <= 5
  {
    assert Pow10(5) == 100000;
    NumDigitsBelow(port, 5);
  }

  /** The only line the client sends as quit is dispatched to quit_cmd. */
  lemma QuitLineDispatches()
    ensures C.Classify("quit") == C.SendQuit
    ensures S.VerifyClientCmd(Encode("quit")) == Ok(S.Call(Quit, "quit"))
  {
    QuitDispatched();
  }

  lemma QuitDispatched()
    ensures S.VerifyClientCmd(Encode("quit")) == Ok(S.Call(Quit, "quit"))
  {
    var q := "quit";
    assert q + "" == q;
    SplitFirstWord(q, "");
    assert Split(q) == [q];
    S.DispatchByFirstWord(q, Quit);
  }

  /**
   * A line the client sends for command c is dispatched by the server to
   * c, and carries the file argument that get, getb, put and putb index.
   */
  lemma SentLineDispatches(line: string, c: Command)
    requires C.Classify(line) == C.Send(c)
    ensures S.VerifyClientCmd(Encode(line)) == Ok(S.Call(c, line))
    ensures TakesFile(c) ==> |Split(line)| >= 2 && S.FileArg(line) == C.FileArg(line)
  {
    S.DispatchByFirstWord(line, c);
  }

  /** The command frame and the port frame, back to back in one segment, are received one after the other. */
  lemma ControlFramesReceived(line: string, port: nat)
    requires IsAscii(line) && |line| < Pow10(HeaderSize) && port <= HighPortLimit
    ensures var ctrlIn := Push(C.ClientFrame(Text(line)) + C.ClientFrame(Text(IntToString(port))), []);
      && ReceiveFrame(ctrlIn) == (Ok(Encode(line)), Push(C.ClientFrame(Text(IntToString(port))), []))
      && ReceiveFrame(Push(C.ClientFrame(Text(IntToString(port))), [])) == (Ok(Encode(IntToString(port))), [])
  {
    var ps := IntToString(port);
    C.ClientFrameAgrees(Text(line));
    HeaderReadsBack(|Encode(line)|);
    ReceiveWholeSegment(PaddedHeader(|Encode(line)|), Encode(line), C.ClientFrame(Text(ps)), []);
    PortFrameReceived(port);
  }

  /** The port frame alone in a segment is received as the port's decimal form. */
  lemma PortFrameReceived(port: nat)
    requires port <= HighPortLimit
    ensures ReceiveFrame(Push(C.ClientFrame(Text(IntToString(port))), [])) == (Ok(Encode(IntToString(port))), [])
  {
    var ps := IntToString(port);
    PortText(port);
    C.ClientFrameAgrees(Text(ps));
    ReceiveOneByteAtATime(Text(ps), []);
  }

  /** The decimal form of a port is short ASCII text. */
  lemma PortText(port: nat)
    requires port <= HighPortLimit
    ensures IsAscii(IntToString(port)) && |Encode(IntToString(port))| < Pow10(HeaderSize)
  {
    var ps := IntToString(port);
    PortDigits(port);
    S.IntToStringChars(port);
    assert IsAscii(ps);
    assert Pow10(5) <= Pow10(HeaderSize) by {
      assert Pow10(5) == 100000;
    }
  }

  /**
   * A turn of the server on exactly what the client sent for an ASCII
   * line: the server runs the command the client chose, on the client's
   * file argument, after announcing its data port, and leaves nothing
   * unread on the control channel.
   */
  lemma ServerRunsClientCommand(line: string, c: Command, port: nat, files: map<string, seq<byte>>,
                                dataPort: int, dataIn: seq<Segment>, listing: string)
    requires C.Classify(line) == C.Send(c) && IsAscii(line) && |line| < Pow10(HeaderSize)
    requires port <= HighPortLimit
    ensures var ctrlIn := Push(C.Turn(line, map[], port, []).ctrlSent, []);
      var (o, out, fs) := S.Served(c, S.FileArg(line), files, dataIn, listing);
      S.Turn(ctrlIn, files, dataPort, dataIn, listing) == S.TurnResult(o, S.PortFrame(dataPort), [], out, fs)
  {
    var portFrame := C.ClientFrame(Text(IntToString(port)));
    var ctrlIn := Push(C.Turn(line, map[], port, []).ctrlSent, []);
    assert C.Turn(line, map[], port, []).ctrlSent == C.ClientFrame(Text(line)) + portFrame;
    ControlFramesReceived(line, port);
    SentLineDispatches(line, c);
    assert S.Turn(ctrlIn, files, dataPort, dataIn, listing) == S.Handle(c, line, Push(portFrame, []), files, dataPort, dataIn, listing);
    HandleAnnouncedPort(c, line, port, files, dataPort, dataIn, listing);
  }

  /** The server's handler, given the client's port frame on the control channel, reaches the command itself. */
  lemma HandleAnnouncedPort(c: Command, line: string, port: nat, files: map<string, seq<byte>>,
                            dataPort: int, dataIn: seq<Segment>, listing: string)
    requires c != Quit && (TakesFile(c) ==> |Split(line)| >= 2) && port <= HighPortLimit
    ensures var (o, out, fs) := S.Served(c, S.FileArg(line), files, dataIn, listing);
      S.Handle(c, line, Push(C.ClientFrame(Text(IntToString(port))), []), files, dataPort, dataIn, listing)
        == S.TurnResult(o, S.PortFrame(dataPort), [], out, fs)
  {
    PortFrameReceived(port);
    S.ParseIntBytesOfString(port);
    assert S.DataSetup(Ok(Encode(IntToString(port)))) == Ok(port);
  }

  /**
   * ls: the listing the server sends on the data connection reaches the
   * client as its UTF-8 bytes, decodes back to the listing, and the
   * client's processing of it succeeds.
   */
  lemma ListingShown(arg: string, files: map<string, seq<byte>>, dataIn: seq<Segment>, listing: string)
    requires |Encode(listing)| < Pow10(HeaderSize)
    ensures var (o, out, fs) := S.Served(Ls, arg, files, dataIn, listing);
      && o == S.Handled && fs == files
      && ReceiveFrame(Push(out, [])) == (Ok(Encode(listing)), [])
      && Decode(Encode(listing)) == Some(listing)
      && C.ShowEffect(Push(out, [])) == C.Done
  {
    ReceiveOneByteAtATime(Text(listing), []);
    DecodeEncode(listing);
  }

  /** "File exists!" is short ASCII text. */
  lemma ExistsMarker()
    ensures IsAscii(S.ExistsText) && 0 < |S.ExistsText| < Pow10(HeaderSize)
  {
  }

  /** The client receives the marker frame from a get reply and is left with what follows it. */
  lemma MarkerReceived(rest: seq<byte>)
    ensures var m := WireFrame(Text(S.ExistsText));
      ReceiveFrame(Push(m + rest, [])) == (Ok(Encode(S.ExistsText)), Push(rest, []))
    ensures Encode(S.ExistsText) != []
  {
    ExistsMarker();
    var h := PaddedHeader(|Encode(S.ExistsText)|);
    HeaderReadsBack(|Encode(S.ExistsText)|);
    ReceiveWholeSegment(h, Encode(S.ExistsText), rest, []);
  }

  /**
   * get and getb of a file the server has (valid UTF-8 for get): the
   * client writes the same bytes under the path's basename.
   */
  lemma GetTransfersFile(serverFiles: map<string, seq<byte>>, path: string, binary: bool,
                         clientFiles: map<string, seq<byte>>)
    requires path in serverFiles && |serverFiles[path]| < Pow10(HeaderSize)
    requires binary || Decode(serverFiles[path]).Some?
    ensures S.GetReply(serverFiles, path, binary).0 == S.Handled
    ensures C.FetchEffect(clientFiles, Basename(path), Push(S.GetReply(serverFiles, path, binary).1, []), binary)
         == (C.Done, clientFiles[Basename(path) := serverFiles[path]])
  {
    var contents := serverFiles[path];
    var p := if binary then Binary(contents) else Text(Decode(contents).value);
    if !binary {
      EncodeDecode(contents);
    }
    assert PayloadBytes(p) == contents;
    assert S.GetReply(serverFiles, path, binary).1 == WireFrame(Text(S.ExistsText)) + WireFrame(p);
    MarkerReceived(WireFrame(p));
    ReceiveOneByteAtATime(p, []);
  }

  /** get and getb of a file the server does not have: an empty marker, and the client writes nothing. */
  lemma GetMissingFile(serverFiles: map<string, seq<byte>>, path: string, binary: bool,
                       clientFiles: map<string, seq<byte>>)
    requires path !in serverFiles
    ensures S.GetReply(serverFiles, path, binary) == (S.Handled, WireFrame(Text("")))
    ensures C.FetchEffect(clientFiles, Basename(path), Push(S.GetReply(serverFiles, path, binary).1, []), binary)
         == (C.Done, clientFiles)
  {
    ReceiveOneByteAtATime(Text(""), []);
  }

  /**
   * get of a server file that is not UTF-8: the server fails after the
   * marker, and the client, which has already opened its file, is left
   * with that file empty and a ValueError from int('').
   */
  lemma GetUndecodableFile(serverFiles: map<string, seq<byte>>, path: string, clientFiles: map<string, seq<byte>>)
    requires path in serverFiles && Decode(serverFiles[path]).None?
    ensures S.GetReply(serverFiles, path, false) == (S.Crashed(UnicodeDecodeError), WireFrame(Text(S.ExistsText)))
    ensures C.FetchEffect(clientFiles, Basename(path), Push(S.GetReply(serverFiles, path, false).1, []), false)
         == (C.Crashed(ValueError), clientFiles[Basename(path) := []])
  {
    var m := WireFrame(Text(S.ExistsText));
    assert m + [] == m;
    assert S.GetReply(serverFiles, path, false) == (S.Crashed(UnicodeDecodeError), m);
    MarkerReceived([]);
    assert Push([], []) == [];
    C.FetchEffectAfterMarker(clientFiles, Basename(path), Push(m, []), false, Ok(Encode(S.ExistsText)), []);
    ClosedBeforeHeaderFails();
    assert FileData(ReceiveFrame([]).0, false) == Err(ValueError);
  }

  /**
   * putb of an existing file, and put of one whose text is ASCII: the
   * server stores the same bytes under the path's basename.
   */
  lemma PutTransfersFile(clientFiles: map<string, seq<byte>>, path: string, binary: bool,
                         serverFiles: map<string, seq<byte>>)
    requires path in clientFiles && |clientFiles[path]| < Pow10(HeaderSize)
    requires binary || (Decode(clientFiles[path]).Some? && IsAscii(Decode(clientFiles[path]).value))
    ensures C.OfferEffect(clientFiles, path, binary).0 == C.Done
    ensures S.PutEffect(serverFiles, Basename(path), Push(C.OfferEffect(clientFiles, path, binary).1, []), binary)
         == (S.Handled, serverFiles[Basename(path) := clientFiles[path]])
  {
    var contents := clientFiles[path];
    var p := if binary then Binary(contents) else Text(Decode(contents).value);
    if !binary {
      EncodeDecode(contents);
    }
    assert PayloadBytes(p) == contents;
    C.ClientFrameAgrees(p);
    assert C.OfferEffect(clientFiles, path, binary).1 == WireFrame(p);
    ReceiveOneByteAtATime(p, []);
  }

  /**
   * put of a file whose text is not ASCII: the client's header counts
   * characters, so the server reads fewer bytes than the file holds and
   * stores either nothing (the cut bytes are not UTF-8) or that prefix.
   */
  lemma PutNonAsciiTruncated(clientFiles: map<string, seq<byte>>, path: string, serverFiles: map<string, seq<byte>>)
    requires path in clientFiles && Decode(clientFiles[path]).Some?
    requires !IsAscii(Decode(clientFiles[path]).value) && |clientFiles[path]| < Pow10(HeaderSize)
    ensures var (_, fs) := S.PutEffect(serverFiles, Basename(path), Push(C.OfferEffect(clientFiles, path, false).1, []), false);
      var stored := fs[Basename(path)];
      && |stored| < |clientFiles[path]|
      && stored == clientFiles[path][..|stored|]
  {
    var contents := clientFiles[path];
    var t := Decode(contents).value;
    EncodeDecode(contents);
    var e, name := Encode(t), Basename(path);
    var out := C.OfferEffect(clientFiles, path, false).1;
    assert out == C.ClientFrame(Text(t));
    C.NonAsciiTextTruncated(t, []);
    assert ReceiveFrame(Push(out, [])).0 == Ok(e[..|t|]);
    var r := S.PutEffect(serverFiles, name, Push(out, []), false);
    if r.0 == S.Handled {
      assert r.1[name] == e[..|t|];
    } else {
      assert r.1[name] == [];
    }
  }

  /**
   * put or putb of a file the client does not have: the client sends
   * nothing and closes, and the server, which has already opened the
   * file for writing, is left with it empty and a ValueError.
   */
  lemma PutMissingFile(clientFiles: map<string, seq<byte>>, path: string, binary: bool,
                       serverFiles: map<string, seq<byte>>)
    requires path !in clientFiles
    ensures C.OfferEffect(clientFiles, path, binary) == (C.Done, [])
    ensures S.PutEffect(serverFiles, Basename(path), Push(C.OfferEffect(clientFiles, path, binary).1, []), binary)
         == (S.Crashed(ValueError), serverFiles[Basename(path) := []])
  {
    assert C.OfferEffect(clientFiles, path, binary).1 == [];
    assert Push([], []) == [];
    ClosedBeforeHeaderFails();
    assert FileData(ReceiveFrame([]).0, binary) == Err(ValueError);
  }
}
