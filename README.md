# nextgenFTP: a verified model of the framing protocol and the command loop

nextgenFTP is a small FTP-like client (`client_ftp.py`) and server
(`server_ftp.py`). The two programs talk over a control connection. Each
command opens a fresh data connection. Every message on either connection
is one frame:

- a header, which is the payload length in decimal right-padded with `*` to
  10 characters;
- then the payload bytes.

The receiver reads the header with `int(header.rstrip('*'))`.

This project models, in Dafny:

- **The framing codec.**
  - `build_header` (`Framing.PaddedHeader`, and `Transport.BuildHeader` for its padding loop).
  - The receiver's header parse (`Framing.ParseHeader`).
  - The round trip between the two.
- **The stream loops.**
  - A socket is a class (`Transport.Socket`) with two fields:
    - `outbound`: the bytes handed to `send`, in order;
    - `arrivals`: the non-empty segments in which the peer's bytes arrive, the peer closing after the last one.
  - `send` accepts any non-empty prefix of a non-empty chunk.
  - `recv(n)` returns at most `n` bytes of the first segment, or nothing once the peer has closed.
  - `send_message` and `receive_message` are methods with loops. They are proved against the functions `WireFrame`/`ClientFrame` and `ReceiveFrame`.
- **The server** (`ServerFtp`):
  - `verify_client_cmd`;
  - `new_data_socket`: the data-port frame, then the client's port frame read with `int()`;
  - the get/getb/put/putb/ls/help/quit handlers on the data connection;
  - one turn of the main loop, `Server.Step`, proved equal to the function `Turn`.
- **The client** (`ClientFtp`):
  - `build_header`, which counts characters;
  - `send_message`;
  - `concat_list_elems`;
  - the main loop's classification of an input line (`Classify`);
  - the `process_*` functions;
  - one iteration of the main loop, `Client.Step`, proved equal to the function `Turn`.
- **Both together** (`Session`): what the client sends for a line, the server dispatches and serves. What one side sends on the data connection, the other side stores.
- **Shared pieces:**
  - `port_type`, and the server's data port (`Ports`);
  - Python's `str(n)`, `int(s)`, `split()`, `rstrip` and `os.path.basename` on the inputs these programs give them (`PyStr`);
  - strict UTF-8 encoding and decoding (`Utf8`).

Payloads are `Text(string)` (a Python `str`, sent as its UTF-8 encoding) or
`Binary(bytes)`. Files are a map from name to bytes. Exceptions that escape
and end a program are `Err(...)` values or `Crashed(...)` outcomes.

Where the code and its description disagree, the model follows the code:

- A peer that closes part-way through a header is not an error. What arrived is parsed, so `5****` followed by a close gives an empty body (`Transport.ClosedInsideHeaderAccepted`).
- A length with more than 10 digits gives an unpadded header longer than 10 characters. The header is neither cut nor rejected (`Framing.HeaderLayout`, `Framing.OversizedHeaderMisread`).
- The client's `build_header` counts the characters of a `str` while the text goes out as UTF-8 bytes. The model keeps this, and proves what follows from it: non-ASCII text is received cut short (`ClientFtp.NonAsciiTextTruncated`, `Session.PutNonAsciiTruncated`).
- `quit` is recognised by the client only when it is the whole line. The server's handlers index `cmd[1]` before opening the data connection, so a server-side `get` without an argument fails before any data-port frame.

## Model

| member | source | states |
|---|---|---|
| PyStr.NatToString | server_ftp.py:75 | `str(n)` of a natural number: `NumDigits(n)` decimal digits whose value is `n`, with no leading zero except for 0 |
| PyStr.ParseIntOfString | server_ftp.py:28 | `int(str(n)) == n` for every integer `n` |
| PyStr.ParseIntOfDigits | server_ftp.py:130 | `int()` of a non-empty run of ASCII digits is the digits' decimal value |
| PyStr.ParseInt | server_ftp.py:28 | `int(s)` of a str: surrounding whitespace, an optional sign, then one or more ASCII digits; anything else is ValueError |
| PyStr.CanonicalDigits | client_ftp.py:70-71 | `str(int(d)) == d` for a non-empty run of digits without a leading zero |
| PyStr.ParseIntRejectsSigned | client_ftp.py:71 | `int()` raises on a string that starts with `-`, ends with a letter or digit and holds a non-digit after the sign (for `int()` without underscores, see Left out) |
| PyStr.ParseIntRejects | server_ftp.py:130 | `int()` raises on a string that starts and ends with a letter or digit and holds a non-digit (for `int()` without underscores, see Left out) |
| PyStr.Split | server_ftp.py:161 | `split()` gives non-empty tokens without whitespace, and no token exactly when the string is all whitespace |
| PyStr.SplitFirstWord | client_ftp.py:242 | `split()` of a word followed by nothing or by whitespace is that word, then the split of the rest |
| PyStr.RStrip | server_ftp.py:130 | `s.rstrip(c)` is a prefix of `s`, everything it drops is `c`, and it does not end in `c` |
| PyStr.Basename | server_ftp.py:226 | `os.path.basename` is the suffix of the path after its last `/`, and holds no `/` |
| Utf8.Encode | server_ftp.py:75 | the UTF-8 encoding has at least one byte per character, exactly one per character iff the text is ASCII, and then each byte is the character's code |
| Utf8.Decode | server_ftp.py:128 | strict `bytes.decode('utf-8')`, None standing for UnicodeDecodeError; decoded text never has more characters than the bytes (its round trips are `DecodeEncode` and `EncodeDecode`) |
| Utf8.DecodeEncode | server_ftp.py:232 | decoding the UTF-8 encoding of any text gives the text back |
| Utf8.EncodeDecode | client_ftp.py:171 | bytes that decode as UTF-8 are the encoding of what they decode to, so writing decoded text back as UTF-8 reproduces them |
| Framing.PaddedHeader | server_ftp.py:67-81 | `build_header`: the decimal length followed by `*` up to 10 characters |
| Framing.ParseHeader | server_ftp.py:130 | the receiver's `int(header.rstrip('*'))` |
| Framing.WireFrame | server_ftp.py:84-108 | the server's frame: a header counting the payload's UTF-8 bytes, then those bytes |
| Framing.HeaderLayout | server_ftp.py:67-81 | `build_header(n)` is the digits of `n` followed only by `*`; it is exactly 10 characters iff `n < 10^10`, otherwise it is the unpadded digits, longer than 10 |
| Framing.HeaderRoundTrip | server_ftp.py:130 | `int(build_header(n).rstrip('*')) == n` for every length, including `0` and `"0*********"` |
| Framing.HeaderReadsBack | server_ftp.py:79-80 | for fewer than 10^10 bytes the header is 10 ASCII characters that read back as the length |
| Framing.HeaderInjective | server_ftp.py:75-81 | two different lengths never produce the same header |
| Framing.OversizedHeaderMisread | server_ftp.py:117-130 | for a length of 10^10 or more, the first 10 header characters parse as a smaller length |
| Framing.ParseHeaderRejects | server_ftp.py:130 | a header that begins and ends with a letter or digit and holds a non-digit raises ValueError (for `int()` without underscores, see Left out) |
| Transport.Take | server_ftp.py:122 | `recv(n)` gives a prefix of the arrived bytes of at most `n` bytes, empty exactly when nothing is left or `n` is 0, and leaves the rest of the stream |
| Transport.ReadHeader | server_ftp.py:117-129 | the header loop, each piece decoded on its own; it stops at once when 10 characters are already gathered |
| Transport.ReadBody | server_ftp.py:134-140 | the body loop, recv(length) until `length` bytes are gathered or a recv is empty; it stops at once when the body is already long enough |
| Transport.ReceiveFrame | server_ftp.py:111-142 | `receive_message`: the header loop, `int()` of the header without its `*`, then the body loop |
| Transport.Socket.Send | server_ftp.py:98 | `sock.send` accepts a prefix of the chunk, non-empty for a non-empty chunk, and appends it to what was sent |
| Transport.Socket.Recv | server_ftp.py:122 | `sock.recv(n)` returns at most `n` bytes of the first arrived segment and consumes them |
| Transport.SendAll | server_ftp.py:104-107 | the send loop ends with `bytes_sent` equal to the message length, having sent exactly the message, whatever counts `send` returns |
| Transport.BuildHeader | server_ftp.py:79-80 | the `*`-appending loop returns `build_header(n)` |
| Transport.TextChunkAsciiAgrees | server_ftp.py:96-99 | for ASCII text the text branch's chunk, the string sliced at `bytes_sent` and encoded, is exactly the unsent rest of the encoding |
| Transport.TextChunkFallsBehind | server_ftp.py:96-99 | once a non-ASCII character has been sent, that chunk is shorter than the unsent bytes, and is empty when `bytes_sent` reaches the character count |
| Transport.ReadHeaderStops | server_ftp.py:117-127 | the header loop stops with at least 10 characters or once nothing is left, keeps what it had gathered, and ends with fewer than 20 characters |
| Transport.ReadHeaderSuffix | server_ftp.py:117-127 | the header loop consumes only arrived bytes, from the front |
| Transport.ReadBodyStops | server_ftp.py:134-140 | the body loop keeps the bytes in order and loses none; it returns at least the announced length, or stops once nothing is left, and returns fewer than twice the length |
| Transport.ReadBodySuffix | server_ftp.py:134-140 | the body loop consumes only arrived bytes, from the front |
| Transport.ReceiveFrameSuffix | server_ftp.py:111-142 | what `receive_message` leaves unread is a suffix of what had arrived |
| Transport.ReceiveMessage | server_ftp.py:111-142 | the two recv loops return exactly `ReceiveFrame` of the arrived segments and leave its remainder unread |
| Transport.FileData | server_ftp.py:229-232 | the data written to a file is the received frame; a text-mode file also needs it to decode as UTF-8, else UnicodeDecodeError |
| Transport.ReceiveFileData | server_ftp.py:231-232 | receiving a frame and decoding it for a text file returns `FileData` of the received frame |
| Transport.ReceiveSegmentedFrame | server_ftp.py:117-142 | a 10-character header in any segments, followed by a body in any segments, is received as exactly that body, and nothing after it is consumed |
| Transport.ReceiveWireFrame | server_ftp.py:84-142 | `receive_message` returns the payload `send_message` framed, however the header and the body are cut into segments |
| Transport.ReceiveWholeSegment | server_ftp.py:117-142 | a frame arriving in one segment together with the start of the next is received exactly, and the rest stays unread |
| Transport.ReceiveOneByteAtATime | server_ftp.py:111-142 | a frame delivered one byte per segment is received as when delivered whole |
| Transport.ShortFirstReadOvershoots | server_ftp.py:122 | after a short first read, a second read of 10 or more characters takes the header past 10 characters |
| Transport.ShortBodyReadOvershoots | server_ftp.py:134-140 | after a short first body read, a segment reaching the frame end gives up to `length` more bytes, so the body runs past the announced length and the bytes after the frame are consumed |
| Transport.TwoBodyReads | server_ftp.py:134-140 | the body loop over a short segment and then one reaching the announced length returns the first and `length` bytes of the second |
| Transport.ShortBodyReadExample | server_ftp.py:135 | with 3 bytes announced, segments `AB` and `CDEF` give the body `ABCDE` and leave `F` unread |
| Transport.OvershootRejectsShortText | server_ftp.py:122-130 | the frame of a short ASCII text, cut inside its text at a letter or digit, is rejected with ValueError |
| Transport.OvershootHeaderRead | server_ftp.py:117-127 | for that cut, the header read is the 10 header characters followed by the first k characters of the text |
| Transport.OvershotHeaderRejected | server_ftp.py:130 | `int()` refuses such a header: a digit, `*`, and a letter or digit at the end |
| Transport.ClosedBeforeHeaderFails | server_ftp.py:124-130 | a peer that closes before any header byte makes `int('')` raise ValueError |
| Transport.ClosedInsideHeaderAccepted | server_ftp.py:124-130 | digits and some `*` followed by a close are accepted as a header, and the body is empty |
| Transport.ClosedInsideBodyShort | server_ftp.py:134-142 | a peer that closes inside the body yields a shorter body holding exactly the bytes that arrived |
| Ports.PortType | server_ftp.py:24-31 | `port_type` raises ValueError exactly when `int()` fails; when `int()` reads a value, it returns that value iff it is in [1024, 65535] and raises ArgumentTypeError otherwise |
| Ports.PortTypeOfString | client_ftp.py:44-48 | `port_type(str(p))` accepts `p` iff `1024 <= p <= 65535`, and raises ArgumentTypeError otherwise |
| Ports.DefaultPortAccepted | server_ftp.py:41-45 | the default `"3321"` is accepted as 3321 |
| Ports.DataPort | server_ftp.py:293 | the data port is below the control port |
| Ports.DataPortRange | server_ftp.py:292-293 | for every accepted control port the data port is a distinct port in [1023, 65534]; it is 1023, which `port_type` refuses, when the control port is 1024 |
| Commands.Lookup | server_ftp.py:163-173 | a token found in the command dictionary is the name of the handler it selects |
| Commands.LookupName | server_ftp.py:163-172 | every handler is found under its own name, and no two handlers share a name |
| Commands.Concat | server_ftp.py:271-272 | the rows appended one after another |
| Commands.HelpText | server_ftp.py:259-272 | the row-appending loop gives the 11 help rows joined in order, 275 characters |
| ServerFtp.SendMessage | server_ftp.py:84-108 | the server sends the header counting UTF-8 bytes, then the payload, and nothing else; `bytes_sent` is the frame length |
| ServerFtp.ParseIntBytes | server_ftp.py:151 | `int(p)` of the received port bytes succeeds only for ASCII bytes |
| ServerFtp.ParseIntBytesOfString | server_ftp.py:151 | the client's port frame `str(port)` reads back as `port` |
| ServerFtp.VerifyClientCmd | server_ftp.py:156-176 | UnicodeDecodeError iff the command is not UTF-8; IndexError iff it has no word; a handler is called iff the first word names it, with the decoded command; otherwise it is only logged |
| ServerFtp.DispatchByFirstWord | server_ftp.py:161-174 | a command whose first word is a handler's name is dispatched to exactly that handler |
| ServerFtp.PortFrame | server_ftp.py:146 | the frame of `str(data_port)` |
| ServerFtp.DataSetup | server_ftp.py:147-151 | the client's port is `int()` of its port frame; an error receiving it, or a frame `int()` refuses, ends the turn |
| ServerFtp.GetReply | server_ftp.py:185-197 | get/getb: an empty marker frame for a missing file, else the marker and the contents |
| ServerFtp.ContentReply | server_ftp.py:189-194 | the contents frame: the bytes for getb, the decoded text for get, or UnicodeDecodeError with nothing sent |
| ServerFtp.SendExistingFile | server_ftp.py:187-194 | an existing file is announced with "File exists!" and then sent; get fails after the marker when the file is not UTF-8 |
| ServerFtp.SendContents | server_ftp.py:189-194 | getb sends the file's bytes; get sends its decoded text, or raises UnicodeDecodeError without sending |
| ServerFtp.PutEffect | server_ftp.py:222-245 | put/putb leave every other file unchanged; the target holds the received frame when the handler succeeds, and is emptied when receiving or decoding fails |
| ServerFtp.Served | server_ftp.py:173-174 | a handler ends the session iff it is quit, and only put and putb change the files |
| ServerFtp.Handle | server_ftp.py:276-287 | a turn exits iff the command is quit |
| ServerFtp.Turn | server_ftp.py:302-304 | one turn: `receive_message` on the control channel, then `verify_client_cmd` and the handler |
| ServerFtp.Server.constructor | server_ftp.py:292-293 | the server starts with data port = control port - 1 and the connection open |
| ServerFtp.Server.Welcome | server_ftp.py:299 | the welcome message is sent as one frame on the control channel |
| ServerFtp.Server.NewDataSocket | server_ftp.py:145-153 | `str(data_port)` goes out on the control channel before the client's port frame is read; the socket is made iff that frame parses with `int()`, else the turn fails with the error raised |
| ServerFtp.Server.ServeGet | server_ftp.py:179-219 | get/getb send an empty marker frame for a missing file, and "File exists!" then the contents for an existing one |
| ServerFtp.Server.ServePut | server_ftp.py:222-245 | put/putb empty the target before receiving, then store what `PutEffect` says |
| ServerFtp.Server.Serve | server_ftp.py:173-174 | the handler named by the command runs on the data socket, as `Served` says |
| ServerFtp.Server.RunCommand | server_ftp.py:179-287 | after dispatch: quit closes; a file command without an argument fails with IndexError before any frame; otherwise data setup then the handler, as `Handle` says |
| ServerFtp.Server.Step | server_ftp.py:302-304 | one turn of the main loop receives a command frame and dispatches it, with the outcome, both channels and the files as `Turn` says; the connection is closed iff the turn exited |
| ClientFtp.ClientLength | client_ftp.py:77 | `len(data_amt)`: characters of a str, bytes of a bytes object |
| ClientFtp.ClientFrame | client_ftp.py:84-106 | the client's frame: a header counting `len(data_body)`, then the payload's bytes |
| ClientFtp.SendMessage | client_ftp.py:84-106 | the client sends a header counting `len(data_body)`, then the payload bytes; `bytes_sent` is the frame length |
| ClientFtp.ClientFrameAgrees | client_ftp.py:75-81 | the client's frame equals the server's iff the payload is bytes or ASCII text |
| ClientFtp.NonAsciiTextTruncated | client_ftp.py:77 | non-ASCII text sent by the client is received cut to as many bytes as it has characters; the rest of its encoding stays unread |
| ClientFtp.Join | client_ftp.py:68-70 | `final_str`: the `str()` of each element, appended left to right |
| ClientFtp.JoinValue | client_ftp.py:69-71 | the number whose digits are those of the non-negative elements written one after another |
| ClientFtp.JoinDigits | client_ftp.py:69-70 | joining the decimal forms of non-negative numbers gives digits whose value is the arithmetic concatenation `JoinValue` |
| ClientFtp.JoinOfNaturals | client_ftp.py:67-72 | `int()` of the joined decimal forms of non-negative numbers is their arithmetic concatenation |
| ClientFtp.JoinCanonical | client_ftp.py:69-70 | the join of non-negative numbers, the first positive, is the decimal form of their concatenation, with no leading zero |
| ClientFtp.JoinWithNegativeFirst | client_ftp.py:67-72 | with only the first element negative, `int()` of the join is the negated concatenation of the magnitudes, e.g. [-1, 2] gives -12 |
| ClientFtp.JoinWithInnerSign | client_ftp.py:67-72 | `int()` refuses the join when any element after the first is negative, whatever the sign of the first |
| ClientFtp.ParseJoin | client_ftp.py:71 | `int(final_str)` case by case: ValueError for an empty list or a negative element after the first; otherwise the concatenation of the magnitudes, negated when the first element is negative |
| ClientFtp.ConcatListElems | client_ftp.py:67-72 | `concat_list_elems`: an empty list raises ValueError; non-negative elements give their digits joined, e.g. [1, 2, 3] gives 123; a negative first element negates that, e.g. [-1, 2] gives -12; a negative element after the first raises ValueError, e.g. [-1, -2] |
| ClientFtp.Classify | client_ftp.py:242-299 | quit only for the exact line `quit`; IndexError, and no other error, exactly for a line without words; usage for get/getb/put/putb without a file; a command is sent only under its name, never quit, with a file where one is needed; everything else is invalid |
| ClientFtp.FetchEffect | client_ftp.py:164-173 | get/getb: an empty marker writes nothing; otherwise the basename is emptied and then given the next frame, decoded for get |
| ClientFtp.OfferEffect | client_ftp.py:176-212 | put/putb: an existing file goes out as one frame, decoded as text for put; a missing file sends nothing |
| ClientFtp.ShowEffect | client_ftp.py:159-161 | ls/help: one frame received and decoded, UnicodeDecodeError if it is not UTF-8 |
| ClientFtp.Process | client_ftp.py:250-296 | the processing function each sent command runs on the data connection |
| ClientFtp.TurnOf | client_ftp.py:244-299 | what each branch of the main loop sends and does for the classified line |
| ClientFtp.Turn | client_ftp.py:235-299 | one iteration of the main loop: classify the line, then `TurnOf` |
| ClientFtp.Client.Welcome | client_ftp.py:233 | the welcome frame is received and decoded; the text returned encodes to the frame's body |
| ClientFtp.Client.Fetch | client_ftp.py:164-200 | get/getb write nothing on an empty marker; otherwise they empty the local file named by the basename, then write the next frame, decoded for get |
| ClientFtp.Client.Offer | client_ftp.py:176-212 | put/putb send an existing file as one frame, decoded as text for put; a missing file sends nothing |
| ClientFtp.Client.Show | client_ftp.py:159-161 | ls/help receive one frame and decode it |
| ClientFtp.Client.RunProcess | client_ftp.py:250-296 | each sent command runs its own processing function on the data socket |
| ClientFtp.Client.Announce | client_ftp.py:251-252 | a sent command puts the command frame and then the frame of `str(port)` on the control channel, and reads nothing |
| ClientFtp.Client.Perform | client_ftp.py:244-299 | each branch of the main loop, for the action the line was classified as, does what `TurnOf` says |
| ClientFtp.Client.Step | client_ftp.py:235-299 | one iteration sends the line, then `str(port)`, for a sent command, and only the line for quit; outcome, data sent and files are as `Turn` says; the control channel is never read |
| Session.QuitLineDispatches | client_ftp.py:244-246 | the line `quit` is sent, and the server dispatches it to `quit_cmd` |
| Session.QuitDispatched | server_ftp.py:156-174 | the server dispatches the bytes of `quit` to `quit_cmd` |
| Session.SentLineDispatches | client_ftp.py:256-260 | every line the client sends is dispatched by the server to the same command, with the file argument that the server indexes |
| Session.ControlFramesReceived | client_ftp.py:251-252 | the command frame and the port frame of an ASCII line arrive intact and in order at the server |
| Session.PortText | client_ftp.py:155 | the client's port, written in decimal, is at most five ASCII characters |
| Session.PortFrameReceived | client_ftp.py:155 | the client's port frame arrives at the server as the port's decimal form |
| Session.HandleAnnouncedPort | server_ftp.py:145-153 | given the client's port frame, the server's turn sends its own data port and runs the handler, leaving nothing unread |
| Session.ServerRunsClientCommand | client_ftp.py:250-253 | on what the client sends for an ASCII line, the server runs the command the client chose, after sending its data port, with nothing left unread |
| Session.ListingShown | server_ftp.py:248-251 | ls: the server's listing frame reaches the client as the listing's UTF-8 bytes, decodes back to the listing, and `process_ls_cmd` (client_ftp.py:159-161) succeeds |
| Session.GetTransfersFile | client_ftp.py:164-171 | get/getb of an existing server file stores identical bytes under the basename on the client |
| Session.GetMissingFile | client_ftp.py:168-173 | get/getb of a missing file produce an empty marker, and the client writes nothing |
| Session.GetUndecodableFile | client_ftp.py:169-171 | get of a non-UTF-8 server file crashes the server after the marker and leaves the client with an empty file and a ValueError |
| Session.PutTransfersFile | client_ftp.py:203-210 | putb of a file, or put of an ASCII text file, stores identical bytes under the basename on the server |
| Session.PutNonAsciiTruncated | client_ftp.py:77-81 | put of non-ASCII text stores on the server a strict prefix of the file's bytes, possibly empty |
| Session.PutMissingFile | client_ftp.py:176-184 | put/putb of a file the client lacks send nothing, and the server is left with an emptied file and a ValueError |

## Left out

- Socket setup: binding, listening, accepting and connecting (`setup_ctrl_channel`, the socket calls in `new_data_socket` and `setup_data_trfr_socket`). These are network I/O. The port the client's listening socket gets is a parameter, and what the peer sends on the data connection is a parameter, a sequence of segments.
- Concurrency between the two processes. Each `Session` lemma hands everything one side sends in a turn to the other side as a single segment, so a turn's frames share one segment. Other layouts are covered frame by frame in `Transport`: segment boundaries at the header end and at the frame end, however the header and the body are cut (`ReceiveSegmentedFrame`, `ReceiveWireFrame`); one byte per segment (`ReceiveOneByteAtATime`); a frame arriving whole in one segment together with the start of what follows (`ReceiveWholeSegment`). Under other segmentations `receive_message` can misframe: a short read followed by a segment that crosses the header end or the frame end reads too much (`ShortFirstReadOvershoots`, `ShortBodyReadOvershoots`).
- The filesystem. Files are a map from name to bytes. `os.getcwd`/`os.path.join` are not modelled: a name is looked up as given. `os.path.isfile` is membership in the map.
- `subprocess.getoutput` in `ls_cmd`. Its output is the parameter `listing`.
- `log`, `time.strftime`, `prog_header`, `print_fmt_txt` and every `print`. These are presentation. Printed messages ("File does not exist.", usage lines, the invalid-command message) are represented by the outcome, not the text.
- `argparse` in `validate_args`, and `sys.exit`. `port_type` is modelled directly. `quit_cmd`'s close and exit become the `Exited` outcome and `Server.closed`.
- The `while True` driver loops. One iteration is modelled: `Server.Step` and `Client.Step`.
- The try/except type probing in both `send_message` functions. The except branch is taken exactly for a bytes payload, so it becomes the `Text`/`Binary` tag.
- Transport.SendAll: models the text branch of `send_message` over the encoded message. The code as written slices the string by a byte count; see Findings.
- ServerFtp.SendMessage: sends the text branch through `SendAll`, so it states the corrected loop, not the string slicing of server_ftp.py:96-99; see Findings.
- ClientFtp.SendMessage: sends the text branch through `SendAll`, so it states the corrected loop, not the string slicing of client_ftp.py:94-97; see Findings.
- `errors='ignore'` in the server's encode. Dafny characters are Unicode scalar values, which always encode, so ignoring errors changes nothing.
- Text files are read with the locale's encoding in `get_cmd`. The model assumes a UTF-8 locale.
- PyStr.ParseInt: `int()` is modelled for ASCII digits, an optional sign and surrounding whitespace. Underscores between digits and non-ASCII digits, which Python also accepts, are left out, so `PyStr.ParseIntRejects`, `PyStr.ParseIntRejectsSigned` and `Framing.ParseHeaderRejects` also reject strings such as `1_0` that Python reads as 10.
- The server's `s.connect` to the client's port can fail. Failures of the network are outside the model; a port frame that parses always connects.

## Findings

| source | as written | input that shows it | evidently intended | confidence | as-written member | corrected member |
|---|---|---|---|---|---|---|
| server_ftp.py:96-99 (also client_ftp.py:94-97) | the text branch hands `message[bytes_sent:].encode()` to `send`, slicing the string by a count of bytes | the message `"2*********é"` (11 characters, 12 bytes), with `send` accepting 11 bytes of the first chunk: the next chunk is `""`, and the loop calls `send(b"")` for ever while one byte is unsent | send the unsent bytes of the encoded message, `encoded[bytes_sent:]` | not executed | Transport.TextChunkFallsBehind | Transport.SendAll |
