/**
 * UTF-8 as Python's str.encode('utf-8') and bytes.decode('utf-8') apply it
 * (strict mode).  Dafny's char is a Unicode scalar value, so every string
 * has an encoding and the decoder rejects exactly the ill-formed byte
 * sequences of Table 3-7 of the Unicode Standard (section 3.9).
 */
module Utf8 {
  import opened Results

  newtype byte = x: int | 0 <= x < 256

  predicate IsAscii(s: string) { forall i :: 0 <= i < |s| ==> s[i] as int < 0x80 }

  predicate IsAsciiBytes(b: seq<byte>) { forall i :: 0 <= i < |b| ==> b[i] < 0x80 }

  /** The one to four bytes that encode c. */
  function EncodeChar(c: char): (r: seq<byte>)
    ensures 1 <= |r| <= 4
    ensures |r| == 1 <==> c as int < 0x80
    ensures |r| == 1 ==> r[0] as int == c as int
  {
    var n := c as int;
    if n < 0x80 then [n as byte]
    else if n < 0x800 then [(0xC0 + n / 64) as byte, (0x80 + n % 64) as byte]
    else if n < 0x10000 then
      [(0xE0 + n / 4096) as byte, (0x80 + (n / 64) % 64) as byte, (0x80 + n % 64) as byte]
    else
      [(0xF0 + n / 262144) as byte, (0x80 + (n / 4096) % 64) as byte,
       (0x80 + (n / 64) % 64) as byte, (0x80 + n % 64) as byte]
  }

  /** s.encode('utf-8'). */
  function Encode(s: string): (r: seq<byte>)
    ensures |r| >= |s|
    ensures |r| == |s| <==> IsAscii(s)
    ensures IsAscii(s) ==> forall i :: 0 <= i < |s| ==> r[i] as int == s[i] as int
  {
    if s == [] then []
    else
      var r := EncodeChar(s[0]) + Encode(s[1..]);
      assert IsAscii(s) <==> s[0] as int < 0x80 && IsAscii(s[1..]) by {
        if s[0] as int < 0x80 && IsAscii(s[1..]) {
          forall i | 0 <= i < |s| ensures s[i] as int < 0x80 {
            if i > 0 { assert s[i] == s[1..][i - 1]; }
          }
        }
      }
      r
  }

  lemma {:induction false} EncodeAppend(s: string, t: string)
    ensures Encode(s + t) == Encode(s) + Encode(t)
  {
    if s == [] {
      assert s + t == t;
    } else {
      assert (s + t)[0] == s[0] && (s + t)[1..] == s[1..] + t;
      EncodeAppend(s[1..], t);
    }
  }

  predicate IsContinuation(b: byte) { 0x80 <= b <= 0xBF }

  /**
   * The character that a well-formed UTF-8 sequence at the start of b
   * encodes, with the number of bytes it takes; None when b starts with an
   * ill-formed or truncated sequence.
   */
  function DecodeChar(b: seq<byte>): (r: Option<(char, nat)>)
    requires |b| > 0
    ensures r.Some? ==> 1 <= r.value.1 <= |b|
  {
    var b0 := b[0] as int;
    if b0 < 0x80 then Some((b0 as char, 1))
    else if 0xC2 <= b0 <= 0xDF then
      if |b| >= 2 && IsContinuation(b[1]) then
        Some((((b0 - 0xC0) * 64 + (b[1] as int - 0x80)) as char, 2))
      else None
    else if 0xE0 <= b0 <= 0xEF then
      var lo: byte := if b0 == 0xE0 then 0xA0 else 0x80;
      var hi: byte := if b0 == 0xED then 0x9F else 0xBF;
      if |b| >= 3 && lo <= b[1] <= hi && IsContinuation(b[2]) then
        var n := (b0 - 0xE0) * 4096 + (b[1] as int - 0x80) * 64 + (b[2] as int - 0x80);
        Some((n as char, 3))
      else None
    else if 0xF0 <= b0 <= 0xF4 then
      var lo: byte := if b0 == 0xF0 then 0x90 else 0x80;
      var hi: byte := if b0 == 0xF4 then 0x8F else 0xBF;
      if |b| >= 4 && lo <= b[1] <= hi && IsContinuation(b[2]) && IsContinuation(b[3]) then
        var n := (b0 - 0xF0) * 262144 + (b[1] as int - 0x80) * 4096
                 + (b[2] as int - 0x80) * 64 + (b[3] as int - 0x80);
        Some((n as char, 4))
      else None
    else None
  }

  /** bytes.decode('utf-8'); None is the UnicodeDecodeError. */
  function Decode(b: seq<byte>): (r: Option<string>)
    ensures r.Some? ==> |r.value| <= |b|
    decreases |b|
  {
    if b == [] then Some([])
    else match DecodeChar(b)
      case None => None
      case Some((c, k)) =>
        match Decode(b[k..])
        case None => None
        case Some(s) => Some([c] + s)
  }

  lemma Digits64Of2(n: int)
    requires 0x80 <= n < 0x800
    ensures 2 <= n / 64 <= 31 && n == (n / 64) * 64 + n % 64
  {
  }

  lemma Digits64Of3(n: int)
    requires 0x800 <= n < 0x10000 && !(0xD800 <= n <= 0xDFFF)
    ensures var x, y, z := n / 4096, (n / 64) % 64, n % 64;
      && 0 <= x <= 15 && 0 <= y < 64 && 0 <= z < 64
      && n == x * 4096 + y * 64 + z
      && (x == 0 ==> y >= 32) && (x == 13 ==> y < 32)
  {
  }

  lemma Digits64Of4(n: int)
    requires 0x10000 <= n < 0x110000
    ensures var w, x, y, z := n / 262144, (n / 4096) % 64, (n / 64) % 64, n % 64;
      && 0 <= w <= 4 && 0 <= x < 64 && 0 <= y < 64 && 0 <= z < 64
      && n == w * 262144 + x * 4096 + y * 64 + z
      && (w == 0 ==> x >= 16) && (w == 4 ==> x < 16)
  {
    var q := n / 64;
    var q2 := q / 64;
    assert n == q * 64 + n % 64;
    assert q == q2 * 64 + q % 64;
    assert n / 4096 == q2;
    assert q2 == (q2 / 64) * 64 + q2 % 64;
    assert n / 262144 == q2 / 64;
  }

  lemma DecodeEncodeChar(c: char, rest: seq<byte>)
    ensures var e := EncodeChar(c); DecodeChar(e + rest) == Some((c, |e|))
  {
    var n := c as int;
    if n < 0x80 {
    } else if n < 0x800 {
      DecodeEncodeChar2(c, rest);
    } else if n < 0x10000 {
      DecodeEncodeChar3(c, rest);
    } else {
      DecodeEncodeChar4(c, rest);
    }
  }

  lemma DecodeEncodeChar2(c: char, rest: seq<byte>)
    requires 0x80 <= c as int < 0x800
    ensures var e := EncodeChar(c); DecodeChar(e + rest) == Some((c, |e|))
  {
    var n := c as int;
    var b := EncodeChar(c) + rest;
    Digits64Of2(n);
    assert b[0] as int == 0xC0 + n / 64 && b[1] as int == 0x80 + n % 64;
  }

  lemma DecodeEncodeChar3(c: char, rest: seq<byte>)
    requires 0x800 <= c as int < 0x10000
    ensures var e := EncodeChar(c); DecodeChar(e + rest) == Some((c, |e|))
  {
    var n := c as int;
    var b := EncodeChar(c) + rest;
    Digits64Of3(n);
    assert b[0] as int == 0xE0 + n / 4096 && b[1] as int == 0x80 + (n / 64) % 64;
    assert b[2] as int == 0x80 + n % 64;
  }

  lemma DecodeEncodeChar4(c: char, rest: seq<byte>)
    requires 0x10000 <= c as int
    ensures var e := EncodeChar(c); DecodeChar(e + rest) == Some((c, |e|))
  {
    var n := c as int;
    var b := EncodeChar(c) + rest;
    Digits64Of4(n);
    assert b[0] as int == 0xF0 + n / 262144 && b[1] as int == 0x80 + (n / 4096) % 64;
    assert b[2] as int == 0x80 + (n / 64) % 64 && b[3] as int == 0x80 + n % 64;
  }

  /** Decoding undoes encoding. */
  lemma {:induction false} DecodeEncode(s: string)
    ensures Decode(Encode(s)) == Some(s)
  {
    if s != [] {
      var e := EncodeChar(s[0]);
      DecodeEncodeChar(s[0], Encode(s[1..]));
      assert (e + Encode(s[1..]))[|e|..] == Encode(s[1..]);
      DecodeEncode(s[1..]);
      assert [s[0]] + s[1..] == s;
    }
  }

  lemma Compose2(x: int, y: int)
    requires 2 <= x <= 31 && 0 <= y < 64
    ensures var n := x * 64 + y; 0x80 <= n < 0x800 && n / 64 == x && n % 64 == y
  {
  }

  lemma Compose3(x: int, y: int, z: int)
    requires 0 <= x <= 15 && 0 <= y < 64 && 0 <= z < 64 && (x == 0 ==> y >= 32)
    ensures var n := x * 4096 + y * 64 + z;
      0x800 <= n < 0x10000 && n / 4096 == x && (n / 64) % 64 == y && n % 64 == z
  {
    var n := x * 4096 + y * 64 + z;
    assert n / 64 == x * 64 + y;
  }

  lemma Compose4(w: int, x: int, y: int, z: int)
    requires 0 <= w <= 4 && 0 <= x < 64 && 0 <= y < 64 && 0 <= z < 64 && (w == 0 ==> x >= 16)
    ensures var n := w * 262144 + x * 4096 + y * 64 + z;
      0x10000 <= n && n / 262144 == w && (n / 4096) % 64 == x && (n / 64) % 64 == y && n % 64 == z
  {
    var n := w * 262144 + x * 4096 + y * 64 + z;
    assert n / 64 == w * 4096 + x * 64 + y;
    assert n / 4096 == w * 64 + x;
  }

  lemma EncodeDecodeChar(b: seq<byte>)
    requires |b| > 0 && DecodeChar(b).Some?
    ensures var (c, k) := DecodeChar(b).value; EncodeChar(c) == b[..k]
  {
    var b0 := b[0] as int;
    if b0 < 0x80 {
    } else if b0 <= 0xDF {
      EncodeDecodeChar2(b);
    } else if b0 <= 0xEF {
      EncodeDecodeChar3(b);
    } else {
      EncodeDecodeChar4(b);
    }
  }

  lemma EncodeDecodeChar2(b: seq<byte>)
    requires |b| > 0 && DecodeChar(b).Some? && 0x80 <= b[0] <= 0xDF
    ensures var (c, k) := DecodeChar(b).value; EncodeChar(c) == b[..k]
  {
    Compose2(b[0] as int - 0xC0, b[1] as int - 0x80);
  }

  lemma EncodeDecodeChar3(b: seq<byte>)
    requires |b| > 0 && DecodeChar(b).Some? && 0xE0 <= b[0] <= 0xEF
    ensures var (c, k) := DecodeChar(b).value; EncodeChar(c) == b[..k]
  {
    Compose3(b[0] as int - 0xE0, b[1] as int - 0x80, b[2] as int - 0x80);
  }

  lemma EncodeDecodeChar4(b: seq<byte>)
    requires |b| > 0 && DecodeChar(b).Some? && 0xF0 <= b[0]
    ensures var (c, k) := DecodeChar(b).value; EncodeChar(c) == b[..k]
  {
    Compose4(b[0] as int - 0xF0, b[1] as int - 0x80, b[2] as int - 0x80, b[3] as int - 0x80);
  }

  /** Encoding undoes decoding: a decoded string re-encodes to the same bytes. */
  lemma {:induction false} EncodeDecode(b: seq<byte>)
    requires Decode(b).Some?
    ensures Encode(Decode(b).value) == b
  {
    if b != [] {
      var (c, k) := DecodeChar(b).value;
      EncodeDecodeChar(b);
      EncodeDecode(b[k..]);
      var s := Decode(b[k..]).value;
      assert Decode(b).value == [c] + s;
      assert ([c] + s)[0] == c && ([c] + s)[1..] == s;
      assert b[..k] + b[k..] == b;
    }
  }
}
