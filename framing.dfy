/**
 * The wire format shared by client and server: a header of the payload's
 * length in decimal, right-padded with '*' to HEADER_BYTE_SIZE (10)
 * characters, followed by the payload bytes.  The receiver recovers the
 * length with int(header.rstrip('*')).
 */
module Framing {
  import opened Results
  import opened PyStr
  import opened Utf8

  /** HEADER_BYTE_SIZE in both programs. */
  const HeaderSize: nat := 10

  /**
   * A payload as a caller hands it to send_message: a str (sent as its
   * UTF-8 encoding) or a bytes object (sent as is).
   */
  datatype Payload = Text(text: string) | Binary(data: seq<byte>)

  /** The bytes a payload puts on the wire. */
  function PayloadBytes(p: Payload): seq<byte> {
    match p
    case Text(s) => Encode(s)
    case Binary(b) => b
  }

  function Stars(k: nat): (s: string)
    ensures |s| == k && forall i :: 0 <= i < k ==> s[i] == '*'
  {
    if k == 0 then [] else Stars(k - 1) + ['*']
  }

  /**
   * The header announcing n payload bytes: str(n) followed by '*' up to
   * HeaderSize characters.  A length with more than HeaderSize digits is
   * neither padded nor cut.
   */
  function PaddedHeader(n: nat): string {
    var d := NatToString(n);
    d + Stars(if |d| < HeaderSize then HeaderSize - |d| else 0)
  }

  /** int(header.rstrip('*')): the length a receiver reads from a header. */
  function ParseHeader(h: string): Option<int> {
    ParseInt(RStrip(h, '*'))
  }

  /**
   * A header that starts and ends with an ASCII letter or digit and holds
   * a non-digit is rejected by int().
   */
  lemma ParseHeaderRejects(h: string, i: nat)
    requires i < |h| && !IsDigit(h[i])
    requires IsAsciiAlnum(h[0]) && IsAsciiAlnum(h[|h| - 1])
    ensures ParseHeader(h) == None
  {
    assert RStrip(h, '*') == h;
    ParseIntRejects(h, i);
  }

  /** One frame on the wire: the encoded header, then the payload bytes. */
  function Frame(header: string, p: Payload): seq<byte> {
    Encode(header) + PayloadBytes(p)
  }

  /**
   * The frame send_message puts on the wire when its header counts the
   * payload's bytes: build_header followed by the payload.
   */
  function WireFrame(p: Payload): seq<byte> {
    Frame(PaddedHeader(|PayloadBytes(p)|), p)
  }

  /**
   * The header layout: the digits of n, then only '*', exactly HeaderSize
   * characters when n has at most HeaderSize digits and longer otherwise.
   */
  lemma HeaderLayout(n: nat)
    ensures var h, k := PaddedHeader(n), NumDigits(n);
      && h[..k] == NatToString(n)
      && (forall i :: k <= i < |h| ==> h[i] == '*')
      && (|h| == HeaderSize <==> n < Pow10(HeaderSize))
      && (n >= Pow10(HeaderSize) ==> |h| == k > HeaderSize)
  {
    var d := NatToString(n);
    var h := PaddedHeader(n);
    assert h[..|d|] == d;
    if n >= Pow10(HeaderSize) {
      NumDigitsAbove(n, HeaderSize);
    } else {
      NumDigitsBelow(n, HeaderSize);
    }
  }

  lemma HeaderIsAscii(n: nat)
    ensures IsAscii(PaddedHeader(n))
  {
    var h := PaddedHeader(n);
    var d := NatToString(n);
    forall i | 0 <= i < |h| ensures h[i] as int < 0x80 {
      if i < |d| { assert h[i] == d[i]; }
    }
  }

  /** Round trip: the receiver's parse of a header gives back the length. */
  lemma HeaderRoundTrip(n: nat)
    ensures ParseHeader(PaddedHeader(n)) == Some(n)
  {
    var d := NatToString(n);
    var h := PaddedHeader(n);
    RStripPadding(d, if |d| < HeaderSize then HeaderSize - |d| else 0);
    ParseIntOfDigits(d);
  }

  /** A header for fewer than 10^10 bytes is 10 ASCII characters that read back as the length. */
  lemma HeaderReadsBack(n: nat)
    requires n < Pow10(HeaderSize)
    ensures |PaddedHeader(n)| == HeaderSize && IsAscii(PaddedHeader(n))
    ensures ParseHeader(PaddedHeader(n)) == Some(n)
  {
    HeaderLayout(n);
    HeaderIsAscii(n);
    HeaderRoundTrip(n);
  }

  /** rstrip('*') removes the padding and nothing else. */
  lemma {:induction false} RStripPadding(d: string, k: nat)
    requires d != [] && d[|d| - 1] != '*'
    ensures RStrip(d + Stars(k), '*') == d
  {
    if k > 0 {
      var h := d + Stars(k);
      assert h[|h| - 1] == '*';
      assert h[..|h| - 1] == d + Stars(k - 1);
      RStripPadding(d, k - 1);
    } else {
      assert d + Stars(k) == d;
    }
  }

  /** Two lengths never share a header, however the digits look. */
  lemma HeaderInjective(m: nat, n: nat)
    requires PaddedHeader(m) == PaddedHeader(n)
    ensures m == n
  {
    HeaderRoundTrip(m);
    HeaderRoundTrip(n);
  }

  /**
   * A receiver that takes only the first HeaderSize characters of the
   * header of a length with more digits reads a different, smaller length.
   */
  lemma OversizedHeaderMisread(n: nat)
    requires n >= Pow10(HeaderSize)
    ensures var h := PaddedHeader(n);
      |h| > HeaderSize && ParseHeader(h[..HeaderSize]).Some?
      && ParseHeader(h[..HeaderSize]).value < n
  {
    HeaderLayout(n);
    var h := PaddedHeader(n);
    var d := NatToString(n);
    var t := h[..HeaderSize];
    assert t == d[..HeaderSize];
    assert AllDigits(t);
    assert t[|t| - 1] != '*';
    ParseIntOfDigits(t);
    DigitsValueBound(t);
  }
}
