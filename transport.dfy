/**
 * The stream underneath send_message and receive_message.  A connected
 * socket is modelled by two byte streams:
 *  - outbound: every byte that sock.send has accepted so far, in order;
 *  - arrivals: the bytes the peer has sent and this side has not read yet,
 *    cut into the non-empty segments in which the network delivers them;
 *    the peer closes after the last one.
 * recv(n) returns up to n bytes of the first segment, and returns nothing
 * once no segment is left (the peer has closed).  Any sequence of results
 * that a real recv can give is produced by some segmentation, so a property
 * proved for every segmentation holds for every behaviour of recv.
 * send(chunk) accepts any non-empty prefix of a non-empty chunk.
 */
module Transport {
  import opened Results
  import opened Utf8
  import opened PyStr
  import opened Framing

  /** A run of bytes delivered to the receiver in one piece. */
  type Segment = s: seq<byte> | |s| > 0 witness [0]

  function Flatten(arr: seq<Segment>): seq<byte> {
    if arr == [] then [] else arr[0] + Flatten(arr[1..])
  }

  lemma {:induction false} FlattenAppend(a: seq<Segment>, b: seq<Segment>)
    ensures Flatten(a + b) == Flatten(a) + Flatten(b)
  {
    if a == [] {
      assert a + b == b;
    } else {
      assert (a + b)[1..] == a[1..] + b;
      FlattenAppend(a[1..], b);
    }
  }

  /** The segments `arr` with the bytes b delivered before them (as one segment, if any). */
  function Push(b: seq<byte>, arr: seq<Segment>): (r: seq<Segment>)
    ensures Flatten(r) == b + Flatten(arr)
  {
    if b == [] then arr else [b] + arr
  }

  predicate IsSuffix(a: seq<byte>, b: seq<byte>) {
    |a| <= |b| && a == b[|b| - |a|..]
  }

  /**
   * recv(n) on the segments still to arrive: the bytes returned and the
   * segments left.  The result is a prefix of the stream of at most n
   * bytes, empty exactly when nothing is left (or n is 0).
   */
  function Take(arr: seq<Segment>, n: nat): (r: (seq<byte>, seq<Segment>))
    ensures Flatten(arr) == r.0 + Flatten(r.1)
    ensures |r.0| <= n
    ensures r.0 == [] <==> arr == [] || n == 0
  {
    if arr == [] || n == 0 then ([], arr)
    else if n < |arr[0]| then
      var rest: seq<Segment> := [arr[0][n..]] + arr[1..];
      assert Flatten(rest) == arr[0][n..] + Flatten(arr[1..]);
      assert arr[0] == arr[0][..n] + arr[0][n..];
      (arr[0][..n], rest)
    else (arr[0], arr[1..])
  }

  class Socket {
    var outbound: seq<byte>
    var arrivals: seq<Segment>

    constructor (arrivals: seq<Segment>)
      ensures this.arrivals == arrivals && outbound == []
    {
      this.arrivals := arrivals;
      outbound := [];
    }

    /** sock.send(chunk): the kernel accepts some non-empty prefix of a non-empty chunk. */
    method Send(chunk: seq<byte>) returns (n: nat)
      modifies this
      ensures n <= |chunk| && (chunk != [] ==> n > 0)
      ensures outbound == old(outbound) + chunk[..n]
      ensures arrivals == old(arrivals)
    {
      n :| n <= |chunk| && (chunk != [] ==> n > 0);
      outbound := outbound + chunk[..n];
    }

    /** sock.recv(n). */
    method Recv(n: nat) returns (chunk: seq<byte>)
      modifies this
      ensures (chunk, arrivals) == Take(old(arrivals), n)
      ensures outbound == old(outbound)
    {
      chunk, arrivals := Take(arrivals, n).0, Take(arrivals, n).1;
    }
  }

  /**
   * The loop of send_message: keep handing the unsent rest of the message
   * to sock.send until the count of accepted bytes equals its length.
   * Returns that count (bytes_sent).
   */
  method SendAll(sock: Socket, message: seq<byte>) returns (bytesSent: nat)
    modifies sock
    ensures bytesSent == |message|
    ensures sock.outbound == old(sock.outbound) + message
    ensures sock.arrivals == old(sock.arrivals)
  {
    bytesSent := 0;
    while bytesSent != |message|
      invariant bytesSent <= |message|
      invariant sock.outbound == old(sock.outbound) + message[..bytesSent]
      invariant sock.arrivals == old(sock.arrivals)
      decreases |message| - bytesSent
    {
      var chunk := message[bytesSent..];
      var n := sock.Send(chunk);
      assert message[..bytesSent + n] == message[..bytesSent] + chunk[..n];
      bytesSent := bytesSent + n;
    }
    assert message[..bytesSent] == message;
  }

  /**
   * The padding loop of build_header: str(length), then '*' appended one at
   * a time while the header is shorter than HeaderSize.
   */
  method BuildHeader(length: nat) returns (header: string)
    ensures header == PaddedHeader(length)
  {
    var digits := NatToString(length);
    header := digits;
    while |header| < HeaderSize
      invariant |digits| <= |header| <= if |digits| < HeaderSize then HeaderSize else |digits|
      invariant header == digits + Stars(|header| - |digits|)
      decreases HeaderSize - |header|
    {
      header := header + "*";
    }
  }

  /**
   * The chunk the text branch of send_message hands to sock.send once
   * bytesSent bytes have been accepted: the message *string* sliced at
   * bytesSent, then encoded (a slice past the end is "").  The count is
   * of bytes, the slice of characters.
   */
  function TextChunkAsWritten(message: string, bytesSent: nat): seq<byte> {
    if bytesSent <= |message| then Encode(message[bytesSent..]) else []
  }

  /** For ASCII text the as-written chunk is exactly the unsent rest of the encoding. */
  lemma TextChunkAsciiAgrees(message: string, bytesSent: nat)
    requires IsAscii(message) && bytesSent <= |message|
    ensures TextChunkAsWritten(message, bytesSent) == Encode(message)[bytesSent..]
  {
    AsciiSplit(message, bytesSent);
  }

  /**
   * Once a non-ASCII character has been sent, the as-written chunk falls
   * behind: it is shorter than the bytes still unsent, so the wrong bytes
   * go out.  At bytesSent == |message| (reachable whenever the message is
   * not ASCII, since send may accept that many bytes of the first chunk)
   * the chunk is empty while bytes remain, and the loop calls send(b"")
   * for ever.
   */
  lemma TextChunkFallsBehind(message: string, bytesSent: nat)
    requires bytesSent <= |message| && !IsAscii(message[..bytesSent])
    ensures bytesSent < |Encode(message)|
    ensures |TextChunkAsWritten(message, bytesSent)| < |Encode(message)| - bytesSent
    ensures bytesSent == |message| ==> TextChunkAsWritten(message, bytesSent) == []
  {
    var a, b := message[..bytesSent], message[bytesSent..];
    assert a + b == message;
    EncodeAppend(a, b);
    assert |Encode(a)| > |a|;
  }

  /**
   * The header loop of receive_message, from the point where `header` has
   * been gathered: recv(HeaderSize) until the header holds at least
   * HeaderSize characters or a recv comes back empty.  Each piece is
   * decoded as UTF-8 on its own.
   */
  function ReadHeader(arr: seq<Segment>, header: string): (r: (Result<string>, seq<Segment>))
    ensures |header| >= HeaderSize ==> r == (Ok(header), arr)
    decreases |Flatten(arr)|
  {
    if |header| >= HeaderSize then (Ok(header), arr)
    else
      var (chunk, rest) := Take(arr, HeaderSize);
      if chunk == [] then (Ok(header), arr)
      else
        match Decode(chunk)
        case None => (Err(UnicodeDecodeError), rest)
        case Some(text) => ReadHeader(rest, header + text)
  }

  /**
   * The body loop of receive_message: recv(length) until at least `length`
   * bytes have been gathered or a recv comes back empty.
   */
  function ReadBody(arr: seq<Segment>, body: seq<byte>, length: int): (r: (seq<byte>, seq<Segment>))
    ensures |body| >= length ==> r == (body, arr)
    decreases |Flatten(arr)|
  {
    if |body| >= length then (body, arr)
    else
      var (chunk, rest) := Take(arr, length);
      if chunk == [] then (body, arr)
      else ReadBody(rest, body + chunk, length)
  }

  /**
   * receive_message on a socket whose unread segments are `arr`: the
   * outcome (the body, or the exception raised) and the segments left.
   */
  function ReceiveFrame(arr: seq<Segment>): (r: (Result<seq<byte>>, seq<Segment>))
  {
    var (h, rest) := ReadHeader(arr, "");
    match h
    case Err(e) => (Err(e), rest)
    case Ok(header) =>
      match ParseHeader(header)
      case None => (Err(ValueError), rest)
      case Some(length) =>
        var (body, rest') := ReadBody(rest, [], length);
        (Ok(body), rest')
  }

  /**
   * The header loop stops with at least HeaderSize characters or once
   * nothing is left, keeps what was gathered before, and, since each recv
   * brings at most HeaderSize bytes, ends with fewer than twice
   * HeaderSize characters.
   */
  lemma {:induction false} ReadHeaderStops(arr: seq<Segment>, header: string)
    ensures var r := ReadHeader(arr, header);
      && (r.0.Ok? ==> |r.0.value| >= HeaderSize || r.1 == [])
      && (r.0.Ok? ==> |header| <= |r.0.value| && r.0.value[..|header|] == header)
      && (r.0.Ok? && |header| < HeaderSize ==> |r.0.value| < HeaderSize + HeaderSize)
    decreases |Flatten(arr)|
  {
    if |header| < HeaderSize {
      var (chunk, rest) := Take(arr, HeaderSize);
      if chunk != [] {
        var text := Decode(chunk);
        if text.Some? {
          var r := ReadHeader(rest, header + text.value);
          ReadHeaderStops(rest, header + text.value);
          PrefixOfPrefix(header, text.value, if r.0.Ok? then r.0.value else []);
        }
      }
    }
  }

  /**
   * The body loop keeps the bytes in order and loses none, stops with at
   * least `length` bytes or once nothing is left, and, since each recv
   * brings at most `length` bytes, ends with fewer than twice `length`.
   */
  lemma {:induction false} ReadBodyStops(arr: seq<Segment>, body: seq<byte>, length: int)
    ensures var r := ReadBody(arr, body, length);
      && body + Flatten(arr) == r.0 + Flatten(r.1)
      && |body| <= |r.0| && r.0[..|body|] == body
      && (|r.0| >= length || r.1 == [])
      && (|body| < length ==> |r.0| < length + length)
    decreases |Flatten(arr)|
  {
    if |body| < length {
      var (chunk, rest) := Take(arr, length);
      if chunk != [] {
        ReadBodyStops(rest, body + chunk, length);
        PrefixOfPrefix(body, chunk, ReadBody(rest, body + chunk, length).0);
        AppendAssoc(body, chunk, Flatten(rest));
      }
    }
  }

  /** The header loop consumes only bytes that had arrived, from the front. */
  lemma {:induction false} ReadHeaderSuffix(arr: seq<Segment>, header: string)
    ensures IsSuffix(Flatten(ReadHeader(arr, header).1), Flatten(arr))
    decreases |Flatten(arr)|
  {
    if |header| < HeaderSize {
      var (chunk, rest) := Take(arr, HeaderSize);
      if chunk != [] {
        TakeSuffix(arr, HeaderSize);
        var text := Decode(chunk);
        if text.Some? {
          ReadHeaderSuffix(rest, header + text.value);
          SuffixTransitive(Flatten(ReadHeader(rest, header + text.value).1), Flatten(rest), Flatten(arr));
        }
      }
    }
  }

  /** What receive_message leaves unread is a suffix of what had arrived. */
  lemma ReceiveFrameSuffix(arr: seq<Segment>)
    ensures IsSuffix(Flatten(ReceiveFrame(arr).1), Flatten(arr))
  {
    var (h, rest) := ReadHeader(arr, "");
    ReadHeaderSuffix(arr, "");
    if h.Ok? && ParseHeader(h.value).Some? {
      var length := ParseHeader(h.value).value;
      ReadBodySuffix(rest, length);
      SuffixTransitive(Flatten(ReadBody(rest, [], length).1), Flatten(rest), Flatten(arr));
    }
  }

  lemma ReadBodySuffix(arr: seq<Segment>, length: int)
    ensures IsSuffix(Flatten(ReadBody(arr, [], length).1), Flatten(arr))
  {
    var (body, rest) := ReadBody(arr, [], length);
    ReadBodyStops(arr, [], length);
    assert [] + Flatten(arr) == Flatten(arr);
    assert Flatten(arr) == body + Flatten(rest);
    assert Flatten(rest) == Flatten(arr)[|body|..];
  }

  /**
   * What a handler writes to a file after receiving it: the received
   * frame, which a file opened in text mode must first decode as UTF-8.
   */
  function FileData(received: Result<seq<byte>>, binary: bool): (r: Result<seq<byte>>)
    ensures r.Ok? <==> received.Ok? && (binary || Decode(received.value).Some?)
    ensures r.Ok? ==> r.value == received.value
  {
    match received
    case Err(e) => Err(e)
    case Ok(data) =>
      if !binary && Decode(data).None? then Err(UnicodeDecodeError) else Ok(data)
  }

  /** How ReceiveFrame finishes once the header is read and parsed. */
  lemma ReceiveFrameOk(arr: seq<Segment>, h: string, rest: seq<Segment>, length: int, body: seq<byte>, rest': seq<Segment>)
    requires ReadHeader(arr, "") == (Ok(h), rest) && ParseHeader(h) == Some(length)
    requires ReadBody(rest, [], length) == (body, rest')
    ensures ReceiveFrame(arr) == (Ok(body), rest')
  {
  }

  /** A header that int() refuses ends receive_message with ValueError. */
  lemma ReceiveFrameRejects(arr: seq<Segment>, h: string)
    requires ReadHeader(arr, "").0 == Ok(h) && ParseHeader(h) == None
    ensures ReceiveFrame(arr).0 == Err(ValueError)
  {
  }

  /** recv(n) on a first segment followed by others. */
  lemma TakeSegment(seg: Segment, tail: seq<Segment>, n: nat)
    requires n > 0
    ensures Take([seg] + tail, n) == if n < |seg| then (seg[..n], [seg[n..]] + tail) else (seg, tail)
  {
    assert ([seg] + tail)[0] == seg && ([seg] + tail)[1..] == tail;
  }

  /** What recv leaves is a suffix of what it was given. */
  lemma TakeSuffix(arr: seq<Segment>, n: nat)
    ensures IsSuffix(Flatten(Take(arr, n).1), Flatten(arr))
  {
    var (chunk, rest) := Take(arr, n);
    assert Flatten(arr) == chunk + Flatten(rest);
    assert Flatten(arr)[|chunk|..] == Flatten(rest);
  }

  lemma PrefixOfPrefix<T>(a: seq<T>, b: seq<T>, x: seq<T>)
    ensures |a + b| <= |x| && x[..|a + b|] == a + b ==> |a| <= |x| && x[..|a|] == a
  {
    if |a + b| <= |x| && x[..|a + b|] == a + b {
      assert x[..|a|] == x[..|a + b|][..|a|] == (a + b)[..|a|] == a;
    }
  }

  lemma SuffixTransitive(a: seq<byte>, b: seq<byte>, c: seq<byte>)
    requires IsSuffix(a, b) && IsSuffix(b, c)
    ensures IsSuffix(a, c)
  {
    assert c[|c| - |a|..] == c[|c| - |b|..][|b| - |a|..];
  }

  lemma AppendAssoc<T>(a: seq<T>, b: seq<T>, c: seq<T>)
    ensures (a + b) + c == a + (b + c)
  {
  }

  /** receive_message(sock) for a file, decoded first when the file is text. */
  method ReceiveFileData(sock: Socket, binary: bool) returns (r: Result<seq<byte>>)
    modifies sock
    ensures r == FileData(ReceiveFrame(old(sock.arrivals)).0, binary)
    ensures sock.arrivals == ReceiveFrame(old(sock.arrivals)).1
    ensures sock.outbound == old(sock.outbound)
  {
    r := ReceiveMessage(sock);
    if r.Ok? && !binary {
      var t := Decode(r.value);
      if t.None? {
        r := Err(UnicodeDecodeError);
      }
    }
  }

  /** receive_message(sock): the two loops over sock.recv. */
  method ReceiveMessage(sock: Socket) returns (r: Result<seq<byte>>)
    modifies sock
    ensures (r, sock.arrivals) == ReceiveFrame(old(sock.arrivals))
    ensures sock.outbound == old(sock.outbound)
  {
    var header: string := "";
    while |header| < HeaderSize
      invariant ReadHeader(sock.arrivals, header) == ReadHeader(old(sock.arrivals), "")
      invariant sock.outbound == old(sock.outbound)
      decreases |Flatten(sock.arrivals)|
    {
      var buffer := sock.Recv(HeaderSize);
      if buffer == [] {
        break;
      }
      var text := Decode(buffer);
      if text.None? {
        return Err(UnicodeDecodeError);
      }
      header := header + text.value;
    }
    var length := ParseHeader(header);
    if length.None? {
      return Err(ValueError);
    }
    ghost var afterHeader := sock.arrivals;
    var body: seq<byte> := [];
    while |body| < length.value
      invariant ReadBody(sock.arrivals, body, length.value) == ReadBody(afterHeader, [], length.value)
      invariant sock.outbound == old(sock.outbound)
      decreases |Flatten(sock.arrivals)|
    {
      var buffer := sock.Recv(length.value);
      if buffer == [] {
        break;
      }
      body := body + buffer;
    }
    r := Ok(body);
  }

  /** One turn of the header loop. */
  lemma ReadHeaderStep(arr: seq<Segment>, header: string)
    requires |header| < HeaderSize
    ensures var (chunk, rest) := Take(arr, HeaderSize);
      ReadHeader(arr, header) ==
        if chunk == [] then (Ok(header), arr)
        else match Decode(chunk)
          case None => (Err(UnicodeDecodeError), rest)
          case Some(text) => ReadHeader(rest, header + text)
  {
  }

  /** One turn of the body loop. */
  lemma ReadBodyStep(arr: seq<Segment>, body: seq<byte>, length: int)
    requires |body| < length
    ensures var (chunk, rest) := Take(arr, length);
      ReadBody(arr, body, length) ==
        if chunk == [] then (body, arr) else ReadBody(rest, body + chunk, length)
  {
  }

  /** One segment per byte: the slowest way a stream can arrive. */
  function Singletons(b: seq<byte>): (r: seq<Segment>)
    ensures Flatten(r) == b
  {
    if b == [] then [] else [[b[0]]] + Singletons(b[1..])
  }

  lemma {:induction false} SingletonsAppend(a: seq<byte>, b: seq<byte>)
    ensures Singletons(a + b) == Singletons(a) + Singletons(b)
  {
    if a != [] {
      assert (a + b)[0] == a[0] && (a + b)[1..] == a[1..] + b;
      SingletonsAppend(a[1..], b);
    } else {
      assert a + b == b;
    }
  }

  /**
   * Header segments that together hold exactly the ASCII text h, and end
   * no later than HeaderSize characters, are each read whole by one recv.
   */
  lemma {:induction false} ReadHeaderSegments(hs: seq<Segment>, tail: seq<Segment>, header: string, h: string)
    requires IsAscii(h) && Flatten(hs) == Encode(h) && |header| + |h| <= HeaderSize
    ensures ReadHeader(hs + tail, header) == ReadHeader(tail, header + h)
  {
    if hs == [] {
      assert hs + tail == tail && header + h == header;
    } else {
      var k := |hs[0]|;
      ReadHeaderFirstSegment(hs, tail, header, h);
      ReadHeaderSegments(hs[1..], tail, header + h[..k], h[k..]);
      AppendAssoc(header, h[..k], h[k..]);
    }
  }

  lemma ReadHeaderFirstSegment(hs: seq<Segment>, tail: seq<Segment>, header: string, h: string)
    requires IsAscii(h) && Flatten(hs) == Encode(h) && |header| + |h| <= HeaderSize && hs != []
    ensures var k := |hs[0]|;
      && k <= |h| && IsAscii(h[k..]) && Flatten(hs[1..]) == Encode(h[k..]) && h[..k] + h[k..] == h
      && ReadHeader(hs + tail, header) == ReadHeader(hs[1..] + tail, header + h[..k])
  {
    var k := |hs[0]|;
    FirstSegmentText(hs, h);
    TakeFirstSegment(hs, tail, HeaderSize);
    ReadHeaderStep(hs + tail, header);
  }

  /** The first of the segments holding ASCII text h decodes to as many characters of h. */
  lemma FirstSegmentText(hs: seq<Segment>, h: string)
    requires IsAscii(h) && Flatten(hs) == Encode(h) && hs != []
    ensures var k := |hs[0]|;
      && k <= |h| && IsAscii(h[k..]) && Flatten(hs[1..]) == Encode(h[k..]) && h[..k] + h[k..] == h
      && Decode(hs[0]) == Some(h[..k])
  {
    var k := |hs[0]|;
    var e := Encode(h);
    assert hs[0] == e[..k] && Flatten(hs[1..]) == e[k..] by {
      assert e == hs[0] + Flatten(hs[1..]);
    }
    AsciiSplit(h, k);
    DecodeEncode(h[..k]);
  }

  /** recv(n) with n at least the first segment's length takes that whole segment. */
  lemma TakeFirstSegment(hs: seq<Segment>, tail: seq<Segment>, n: nat)
    requires hs != [] && |hs[0]| <= n
    ensures Take(hs + tail, n) == (hs[0], hs[1..] + tail)
  {
    assert (hs + tail)[0] == hs[0] && (hs + tail)[1..] == hs[1..] + tail;
  }

  /** Cutting ASCII text cuts its encoding at the same place. */
  lemma AsciiSplit(h: string, k: nat)
    requires IsAscii(h) && k <= |h|
    ensures IsAscii(h[..k]) && IsAscii(h[k..])
    ensures Encode(h)[..k] == Encode(h[..k]) && Encode(h)[k..] == Encode(h[k..])
    ensures h[..k] + h[k..] == h
  {
    assert IsAscii(h[..k]) by {
      forall i | 0 <= i < k ensures h[..k][i] as int < 0x80 { assert h[..k][i] == h[i]; }
    }
    assert IsAscii(h[k..]) by {
      forall i | 0 <= i < |h| - k ensures h[k..][i] as int < 0x80 { assert h[k..][i] == h[k + i]; }
    }
    EncodeAppend(h[..k], h[k..]);
    assert h[..k] + h[k..] == h;
  }

  /** Body segments that end no later than the announced length are each read whole. */
  lemma {:induction false} ReadBodySegments(bs: seq<Segment>, tail: seq<Segment>, body: seq<byte>, length: int)
    requires |body| + |Flatten(bs)| <= length
    ensures ReadBody(bs + tail, body, length) == ReadBody(tail, body + Flatten(bs), length)
  {
    if bs == [] {
      assert bs + tail == tail && body + Flatten(bs) == body;
    } else {
      assert (bs + tail)[0] == bs[0] && (bs + tail)[1..] == bs[1..] + tail;
      assert Take(bs + tail, length) == (bs[0], bs[1..] + tail);
      ReadBodyStep(bs + tail, body, length);
      ReadBodySegments(bs[1..], tail, body + bs[0], length);
      assert body + bs[0] + Flatten(bs[1..]) == body + Flatten(bs);
    }
  }

  /**
   * A frame whose header arrives in any segments that together end at
   * HeaderSize, and whose body arrives in any segments that together end
   * at the announced length, is received exactly, and nothing after it
   * is consumed.
   */
  lemma ReceiveSegmentedFrame(hs: seq<Segment>, bs: seq<Segment>, tail: seq<Segment>, h: string, body: seq<byte>)
    requires |h| == HeaderSize && IsAscii(h) && ParseHeader(h) == Some(|body|)
    requires Flatten(hs) == Encode(h) && Flatten(bs) == body
    ensures ReceiveFrame(hs + bs + tail) == (Ok(body), tail)
  {
    var rest := bs + tail;
    assert hs + bs + tail == hs + rest;
    ReadWholeHeader(hs, rest, h);
    WholeBody(bs, tail, body);
    ReceiveFrameOk(hs + rest, h, rest, |body|, body, tail);
  }

  /** Body segments that hold exactly the announced bytes are read whole, and nothing after them. */
  lemma WholeBody(bs: seq<Segment>, tail: seq<Segment>, body: seq<byte>)
    requires Flatten(bs) == body
    ensures ReadBody(bs + tail, [], |body|) == (body, tail)
  {
    ReadBodySegments(bs, tail, [], |body|);
    assert [] + body == body;
  }

  /**
   * The frame send_message builds for p, however its header and its body
   * are cut into segments, is received as p's bytes when p is shorter than
   * 10^10 bytes.
   */
  lemma ReceiveWireFrame(p: Payload, hs: seq<Segment>, bs: seq<Segment>, tail: seq<Segment>)
    requires |PayloadBytes(p)| < Pow10(HeaderSize)
    requires Flatten(hs) == Encode(PaddedHeader(|PayloadBytes(p)|)) && Flatten(bs) == PayloadBytes(p)
    ensures ReceiveFrame(hs + bs + tail) == (Ok(PayloadBytes(p)), tail)
  {
    var n := |PayloadBytes(p)|;
    HeaderLayout(n);
    HeaderIsAscii(n);
    HeaderRoundTrip(n);
    ReceiveSegmentedFrame(hs, bs, tail, PaddedHeader(n), PayloadBytes(p));
  }

  /**
   * A frame that arrives in one segment, possibly followed in that same
   * segment by the start of the next frame, is received exactly; what
   * follows it stays unread.
   */
  lemma ReceiveWholeSegment(h: string, body: seq<byte>, more: seq<byte>, tail: seq<Segment>)
    requires |h| == HeaderSize && IsAscii(h) && ParseHeader(h) == Some(|body|)
    ensures ReceiveFrame(Push(Encode(h) + body + more, tail)) == (Ok(body), Push(more, tail))
  {
    var arr := Push(Encode(h) + (body + more), tail);
    AppendAssoc(Encode(h), body, more);
    WholeSegmentHeader(h, body + more, tail);
    WholeSegmentBody(body, more, tail);
    ReceiveFrameOk(arr, h, Push(body + more, tail), |body|, body, Push(more, tail));
  }

  lemma WholeSegmentHeader(h: string, after: seq<byte>, tail: seq<Segment>)
    requires |h| == HeaderSize && IsAscii(h)
    ensures ReadHeader(Push(Encode(h) + after, tail), "") == (Ok(h), Push(after, tail))
  {
    assert |Encode(h)| == HeaderSize;
    var seg: Segment := Encode(h) + after;
    var rest := Push(after, tail);
    assert Take([seg] + tail, HeaderSize) == (Encode(h), rest) by {
      assert seg[..HeaderSize] == Encode(h) && seg[HeaderSize..] == after;
      TakeSegment(seg, tail, HeaderSize);
      if after == [] {
        assert seg == Encode(h);
      }
    }
    assert Decode(Encode(h)) == Some(h) by {
      DecodeEncode(h);
    }
    ReadHeaderStep([seg] + tail, "");
    assert "" + h == h;
    assert ReadHeader(rest, h) == (Ok(h), rest);
  }

  lemma WholeSegmentBody(body: seq<byte>, more: seq<byte>, tail: seq<Segment>)
    ensures ReadBody(Push(body + more, tail), [], |body|) == (body, Push(more, tail))
  {
    if body != [] {
      var arr := Push(body + more, tail);
      TakeWholeBody(body, more, tail);
      ReadBodyStep(arr, [], |body|);
      assert [] + body == body;
    } else {
      assert body + more == more;
    }
  }

  /** recv(|body|) on a segment that starts with body returns exactly body. */
  lemma TakeWholeBody(body: seq<byte>, more: seq<byte>, tail: seq<Segment>)
    requires body != []
    ensures Take(Push(body + more, tail), |body|) == (body, Push(more, tail))
  {
    var seg: Segment := body + more;
    assert Push(body + more, tail) == [seg] + tail;
    TakeSegment(seg, tail, |body|);
    if more == [] {
      assert seg == body;
    } else {
      assert seg[..|body|] == body && seg[|body|..] == more;
    }
  }

  /**
   * Partial I/O does not change what is received: a frame delivered one
   * byte at a time gives the same result as the frame delivered at once.
   */
  lemma ReceiveOneByteAtATime(p: Payload, tail: seq<Segment>)
    requires |PayloadBytes(p)| < Pow10(HeaderSize)
    ensures ReceiveFrame(Singletons(WireFrame(p)) + tail) == (Ok(PayloadBytes(p)), tail)
    ensures ReceiveFrame(Push(WireFrame(p), tail)) == (Ok(PayloadBytes(p)), tail)
  {
    ReceiveSingletons(p, tail);
    var n := |PayloadBytes(p)|;
    var h := PaddedHeader(n);
    HeaderReadsBack(n);
    assert Encode(h) + PayloadBytes(p) + [] == WireFrame(p);
    ReceiveWholeSegment(h, PayloadBytes(p), [], tail);
  }

  lemma ReceiveSingletons(p: Payload, tail: seq<Segment>)
    requires |PayloadBytes(p)| < Pow10(HeaderSize)
    ensures ReceiveFrame(Singletons(WireFrame(p)) + tail) == (Ok(PayloadBytes(p)), tail)
  {
    var n := |PayloadBytes(p)|;
    var h := PaddedHeader(n);
    HeaderReadsBack(n);
    SingletonsAppend(Encode(h), PayloadBytes(p));
    ReceiveSegmentedFrame(Singletons(Encode(h)), Singletons(PayloadBytes(p)), tail, h, PayloadBytes(p));
  }

  /**
   * The header loop asks for HeaderSize bytes on every call, not for the
   * bytes still missing: after a short first read, a long second read
   * carries the header past HeaderSize characters into whatever follows.
   */
  lemma ShortFirstReadOvershoots(a: string, b: string, tail: seq<Segment>)
    requires IsAscii(a) && IsAscii(b) && 0 < |a| < HeaderSize <= |b|
    ensures |Encode(a)| > 0 && |Encode(b)| > 0
    ensures var r := ReadHeader([Encode(a), Encode(b)] + tail, "");
      r.0 == Ok(a + b[..HeaderSize]) && |r.0.value| > HeaderSize
  {
    var ea, eb := Encode(a), Encode(b);
    assert |ea| == |a| && |eb| == |b|;
    var rest1: seq<Segment> := [eb] + tail;
    assert [ea, eb] + tail == [ea] + rest1;
    ReadHeaderSegments([ea], rest1, "", a);
    assert "" + a == a;
    LongSecondRead(a, b, tail);
  }

  /** With a short header gathered, a recv that brings HeaderSize ASCII characters takes them all. */
  lemma LongSecondRead(a: string, b: string, tail: seq<Segment>)
    requires IsAscii(b) && |a| < HeaderSize <= |b|
    ensures |Encode(b)| > 0
    ensures ReadHeader([Encode(b)] + tail, a).0 == Ok(a + b[..HeaderSize])
  {
    var eb := Encode(b);
    assert |eb| == |b|;
    var rest2: seq<Segment> := if |b| == HeaderSize then tail else [eb[HeaderSize..]] + tail;
    TakeSegment(eb, tail, HeaderSize);
    AsciiSplit(b, HeaderSize);
    assert Take([eb] + tail, HeaderSize) == (Encode(b[..HeaderSize]), rest2) by {
      if |b| == HeaderSize {
        assert b[..HeaderSize] == b;
      }
    }
    DecodeEncode(b[..HeaderSize]);
    ReadHeaderStep([eb] + tail, a);
  }

  /**
   * The overshoot in practice: the frame for a short ASCII text (fewer than
   * ten characters), cut after k of its bytes where the text's k-th
   * character is a letter or a digit, is rejected.  The second recv
   * brings the header's last 10-k characters and the text's first k, so
   * the header read is PaddedHeader(|t|) + t[..k], e.g. "5*********hello",
   * which int() refuses.
   */
  lemma OvershootRejectsShortText(t: string, k: nat)
    requires IsAscii(t) && 0 < k <= |t| < 10 && IsAsciiAlnum(t[k - 1])
    ensures |WireFrame(Text(t))| == HeaderSize + |t|
    ensures var w := WireFrame(Text(t));
      ReceiveFrame([w[..k], w[k..]]).0 == Err(ValueError)
  {
    var w := WireFrame(Text(t));
    var x := PaddedHeader(|t|) + t[..k];
    OvershootHeaderRead(t, k);
    OvershotHeaderRejected(t, k);
    ReceiveFrameRejects([w[..k], w[k..]], x);
  }

  /** The header read from the cut frame runs k characters into the text. */
  lemma OvershootHeaderRead(t: string, k: nat)
    requires IsAscii(t) && 0 < k <= |t| < 10
    ensures var w := WireFrame(Text(t));
      |w| == HeaderSize + |t| && ReadHeader([w[..k], w[k..]], "").0 == Ok(PaddedHeader(|t|) + t[..k])
  {
    var h := PaddedHeader(|t|);
    ShortHeader(|t|);
    var w := WireFrame(Text(t));
    assert w == Encode(h) + Encode(t);
    CutAsciiFrame(h, t, k);
    var a, b := h[..k], h[k..] + t;
    ShortFirstReadOvershoots(a, b, []);
    assert [Encode(a), Encode(b)] + [] == [w[..k], w[k..]];
  }

  /** int() refuses that header: a digit, '*', and then the text's k-th character. */
  lemma OvershotHeaderRejected(t: string, k: nat)
    requires IsAscii(t) && 0 < k <= |t| < 10 && IsAsciiAlnum(t[k - 1])
    ensures ParseHeader(PaddedHeader(|t|) + t[..k]) == None
  {
    var h := PaddedHeader(|t|);
    ShortHeader(|t|);
    var x := h + t[..k];
    assert x[0] == h[0] && x[1] == '*' && x[|x| - 1] == t[k - 1];
    ParseHeaderRejects(x, 1);
  }

  /** The header for fewer than ten bytes: one digit, then nine '*'. */
  lemma ShortHeader(n: nat)
    requires n < 10
    ensures var h := PaddedHeader(n);
      IsAscii(h) && |h| == HeaderSize && IsDigit(h[0]) && h[1] == '*'
  {
    HeaderLayout(n);
    HeaderIsAscii(n);
    NumDigitsBelow(n, 1);
  }

  /** Cutting the encoding of an ASCII header followed by an ASCII text after k < |h| bytes. */
  lemma CutAsciiFrame(h: string, t: string, k: nat)
    requires IsAscii(h) && IsAscii(t) && |h| == HeaderSize && k <= |t| && k < |h|
    ensures var w := Encode(h) + Encode(t);
      && w[..k] == Encode(h[..k]) && w[k..] == Encode(h[k..] + t)
      && IsAscii(h[..k]) && IsAscii(h[k..] + t) && |h[k..] + t| >= HeaderSize
      && h[..k] + (h[k..] + t)[..HeaderSize] == h + t[..k]
  {
    CutEncoding(h, t, k);
    CutText(h, t, k);
  }

  lemma CutEncoding(h: string, t: string, k: nat)
    requires IsAscii(h) && k <= |h|
    ensures var w := Encode(h) + Encode(t);
      w[..k] == Encode(h[..k]) && w[k..] == Encode(h[k..] + t) && IsAscii(h[..k])
  {
    AsciiSplit(h, k);
    SliceConcat(Encode(h), Encode(t), k);
    EncodeAppend(h[k..], t);
  }

  lemma SliceConcat(x: seq<byte>, y: seq<byte>, k: nat)
    requires k <= |x|
    ensures (x + y)[..k] == x[..k] && (x + y)[k..] == x[k..] + y
  {
  }

  lemma CutText(h: string, t: string, k: nat)
    requires IsAscii(h) && IsAscii(t) && |h| == HeaderSize && k <= |t| && k < |h|
    ensures IsAscii(h[k..] + t) && |h[k..] + t| >= HeaderSize
    ensures h[..k] + (h[k..] + t)[..HeaderSize] == h + t[..k]
  {
    var b := h[k..] + t;
    forall i | 0 <= i < |b| ensures b[i] as int < 0x80 {
      if i < |h| - k { assert b[i] == h[k + i]; } else { assert b[i] == t[i - (|h| - k)]; }
    }
    assert b[..HeaderSize] == h[k..] + t[..k];
    calc {
      h[..k] + (h[k..] + t[..k]);
      (h[..k] + h[k..]) + t[..k];
      { assert h[..k] + h[k..] == h; }
      h + t[..k];
    }
  }

  /** The peer closing before any header byte is an error (int('')), not an empty frame. */
  lemma ClosedBeforeHeaderFails()
    ensures ReceiveFrame([]) == (Err(ValueError), [])
  {
    assert RStrip("", '*') == "";
    assert Strip("") == "";
  }

  /**
   * The peer closing part-way through the header is not an error: what
   * arrived is parsed as the header.  Digits followed by some '*' and then
   * the close (say "5****") announce a length and yield an empty body.
   */
  lemma ClosedInsideHeaderAccepted(hs: seq<Segment>, d: string, k: nat)
    requires d != [] && AllDigits(d) && |d| + k < HeaderSize
    requires Flatten(hs) == Encode(d + Stars(k))
    ensures ReceiveFrame(hs) == (Ok([]), [])
  {
    var h := d + Stars(k);
    PartialHeader(d, k);
    assert hs + [] == hs;
    ReadHeaderSegments(hs, [], "", h);
    assert "" + h == h;
    ReadHeaderStep([], h);
    if DigitsValue(d) > 0 {
      ReadBodyStep([], [], DigitsValue(d));
    }
    ReceiveFrameOk(hs, h, [], DigitsValue(d), [], []);
  }

  /** Digits followed by some '*': ASCII, and int() of it after rstrip('*') is the digits' value. */
  lemma PartialHeader(d: string, k: nat)
    requires d != [] && AllDigits(d)
    ensures IsAscii(d + Stars(k)) && ParseHeader(d + Stars(k)) == Some(DigitsValue(d))
  {
    var h := d + Stars(k);
    forall i | 0 <= i < |h| ensures h[i] as int < 0x80 {
      if i < |d| { assert h[i] == d[i]; } else { assert h[i] == Stars(k)[i - |d|]; }
    }
    assert d[|d| - 1] != '*';
    RStripPadding(d, k);
    ParseIntOfDigits(d);
  }

  /**
   * A peer that closes after part of the body gives a body shorter than
   * the header announced, holding exactly the bytes that arrived.
   */
  lemma ClosedInsideBodyShort(hs: seq<Segment>, bs: seq<Segment>, h: string, length: nat)
    requires |h| == HeaderSize && IsAscii(h) && ParseHeader(h) == Some(length)
    requires Flatten(hs) == Encode(h) && |Flatten(bs)| < length
    ensures ReceiveFrame(hs + bs) == (Ok(Flatten(bs)), [])
  {
    ReadWholeHeader(hs, bs, h);
    assert bs + [] == bs;
    ReadBodySegments(bs, [], [], length);
    assert [] + Flatten(bs) == Flatten(bs);
    ReadBodyStep([], Flatten(bs), length);
  }

  /**
   * The body loop, too, asks for `length` bytes on every call, not for the
   * bytes still missing: after a short first read, a second segment that
   * reaches the end of the frame gives up to `length` more bytes, so the
   * body runs past the announced length into whatever follows the frame.
   */
  lemma ShortBodyReadOvershoots(hs: seq<Segment>, a: Segment, b: Segment, tail: seq<Segment>, h: string, length: nat)
    requires |h| == HeaderSize && IsAscii(h) && ParseHeader(h) == Some(length)
    requires Flatten(hs) == Encode(h) && |a| < length <= |b|
    ensures ReceiveFrame(hs + [a, b] + tail) ==
      (Ok(a + b[..length]), if |b| == length then tail else [b[length..]] + tail)
    ensures |a + b[..length]| > length
  {
    var rest := [a, b] + tail;
    var rest' := if |b| == length then tail else [b[length..]] + tail;
    assert hs + [a, b] + tail == hs + rest;
    ReadWholeHeader(hs, rest, h);
    TwoBodyReads(a, b, tail, length);
    ReceiveFrameOk(hs + rest, h, rest, length, a + b[..length], rest');
  }

  /** The body loop over a short segment and then one that reaches the announced length. */
  lemma TwoBodyReads(a: Segment, b: Segment, tail: seq<Segment>, length: nat)
    requires |a| < length <= |b|
    ensures ReadBody([a, b] + tail, [], length) ==
      (a + b[..length], if |b| == length then tail else [b[length..]] + tail)
  {
    var rest := [b] + tail;
    assert [a, b] + tail == [a] + rest;
    TakeSegment(a, rest, length);
    ReadBodyStep([a] + rest, [], length);
    assert [] + a == a;
    ReadBodyStep(rest, a, length);
    TakeSegment(b, tail, length);
    if |b| == length {
      assert b[..length] == b;
    }
  }

  /**
   * An instance: once a header announcing 3 bytes is read, segments "AB"
   * and "CDEF" make the body loop return "ABCDE" and leave "F" unread.
   */
  lemma ShortBodyReadExample()
    ensures ReadBody([[65, 66], [67, 68, 69, 70]], [], 3) == ([65, 66, 67, 68, 69], [[70]])
  {
    var a: Segment, b: Segment := [65, 66], [67, 68, 69, 70];
    TwoBodyReads(a, b, [], 3);
    assert [a, b] + [] == [a, b];
    assert a + b[..3] == [65, 66, 67, 68, 69];
    assert b[3..] == [70];
    assert [b[3..]] + [] == [[70]];
  }

  /** Segments that together hold a whole ASCII header are read as exactly that header. */
  lemma ReadWholeHeader(hs: seq<Segment>, rest: seq<Segment>, h: string)
    requires |h| == HeaderSize && IsAscii(h) && Flatten(hs) == Encode(h)
    ensures ReadHeader(hs + rest, "") == (Ok(h), rest)
  {
    ReadHeaderSegments(hs, rest, "", h);
    assert "" + h == h;
  }
}
