/**
 * The Python built-ins on text that the framing protocol relies on:
 * str(n) of an integer, int(s) of a string, s.rstrip(c), s.split() and
 * os.path.basename.  Only their behaviour on the inputs the protocol can
 * produce is modelled in full; see README for what int() accepts beyond this.
 */
module PyStr {
  import opened Results

  /** The characters Python's str.isspace() accepts, which is the set that
      str.split() separates on and int() strips. */
  predicate IsSpace(c: char) {
    ('\t' <= c <= '\r') || ('\U{1C}' <= c <= '\U{1F}') || c == ' '
    || c == '\U{85}' || c == '\U{A0}' || c == '\U{1680}'
    || ('\U{2000}' <= c <= '\U{200A}') || c == '\U{2028}' || c == '\U{2029}'
    || c == '\U{202F}' || c == '\U{205F}' || c == '\U{3000}'
  }

  predicate IsDigit(c: char) { '0' <= c <= '9' }

  predicate AllDigits(s: string) { forall i :: 0 <= i < |s| ==> IsDigit(s[i]) }

  predicate NoSpace(s: string) { forall i :: 0 <= i < |s| ==> !IsSpace(s[i]) }

  predicate AllSpace(s: string) { forall i :: 0 <= i < |s| ==> IsSpace(s[i]) }

  function Pow10(k: nat): (r: nat)
    ensures r >= 1
  {
    if k == 0 then 1 else 10 * Pow10(k - 1)
  }

  /** Number of decimal digits of n, defined arithmetically. */
  function NumDigits(n: nat): (k: nat)
    ensures k >= 1
    ensures n < Pow10(k)
    ensures k > 1 ==> Pow10(k - 1) <= n
  {
    if n < 10 then 1 else 1 + NumDigits(n / 10)
  }

  lemma {:induction false} NumDigitsBelow(n: nat, k: nat)
    requires k >= 1 && n < Pow10(k)
    ensures NumDigits(n) <= k
  {
    if n >= 10 {
      NumDigitsBelow(n / 10, k - 1);
    }
  }

  lemma {:induction false} NumDigitsAbove(n: nat, k: nat)
    requires Pow10(k) <= n
    ensures NumDigits(n) > k
  {
    if k > 0 {
      NumDigitsAbove(n / 10, k - 1);
    }
  }

  function DigitChar(d: nat): (c: char)
    requires d < 10
    ensures IsDigit(c) && c as int - '0' as int == d
  {
    ('0' as int + d) as char
  }

  /** The value of a string of decimal digits, most significant first. */
  function DigitsValue(s: string): (v: nat)
    requires AllDigits(s)
  {
    if s == [] then 0
    else 10 * DigitsValue(s[..|s| - 1]) + (s[|s| - 1] as int - '0' as int)
  }

  /** str(n) for a non-negative integer: its shortest decimal form. */
  function NatToString(n: nat): (s: string)
    ensures |s| == NumDigits(n)
    ensures AllDigits(s) && DigitsValue(s) == n
    ensures s[0] == '0' ==> n == 0
  {
    if n < 10 then [DigitChar(n)]
    else
      var s := NatToString(n / 10) + [DigitChar(n % 10)];
      assert s[..|s| - 1] == NatToString(n / 10);
      s
  }

  /** str(n) for any integer: a '-' for a negative n, then NatToString of its magnitude. */
  function IntToString(n: int): (s: string)
    ensures |s| > 0
    ensures n >= 0 ==> s == NatToString(n)
    ensures n < 0 ==> s[0] == '-' && s[1..] == NatToString(-n)
  {
    if n < 0 then "-" + NatToString(-n) else NatToString(n)
  }

  /** str() of a negative number is '-' and the digits of its magnitude. */
  lemma NegatedString(n: int, m: nat)
    requires m > 0 && n == -(m as int)
    ensures IntToString(n) == "-" + NatToString(m)
  {
  }

  lemma {:induction false} DigitsValueAppend(s: string, t: string)
    requires AllDigits(s) && AllDigits(t)
    ensures AllDigits(s + t)
    ensures DigitsValue(s + t) == DigitsValue(s) * Pow10(|t|) + DigitsValue(t)
  {
    assert AllDigits(s + t) by {
      forall i | 0 <= i < |s + t| ensures IsDigit((s + t)[i]) {
        if i < |s| { assert (s + t)[i] == s[i]; } else { assert (s + t)[i] == t[i - |s|]; }
      }
    }
    if t == [] {
      assert s + t == s;
    } else {
      var u, t' := s + t, t[..|t| - 1];
      var d := t[|t| - 1] as int - '0' as int;
      assert u[..|u| - 1] == s + t';
      assert u[|u| - 1] == t[|t| - 1];
      DigitsValueAppend(s, t');
      var a, p, b := DigitsValue(s), Pow10(|t'|), DigitsValue(t');
      assert DigitsValue(u) == 10 * (a * p + b) + d;
      assert DigitsValue(t) == 10 * b + d;
      assert Pow10(|t|) == 10 * p;
      ShiftDigit(a, p, b, d);
    }
  }

  lemma ShiftDigit(a: int, p: int, b: int, d: int)
    ensures 10 * (a * p + b) + d == a * (10 * p) + (10 * b + d)
  {
  }

  lemma {:induction false} DigitsValueBound(s: string)
    requires AllDigits(s)
    ensures DigitsValue(s) < Pow10(|s|)
  {
    if s != [] {
      DigitsValueBound(s[..|s| - 1]);
    }
  }

  /** A leading space dropped, then a stripped rest: the rest is a suffix of s after spaces only. */
  lemma LStripStep(s: string, r: string)
    requires s != [] && IsSpace(s[0])
    requires |r| <= |s| - 1 && r == s[1..][|s| - 1 - |r|..] && AllSpace(s[1..][..|s| - 1 - |r|])
    ensures r == s[|s| - |r|..] && AllSpace(s[..|s| - |r|])
  {
    var t := s[1..];
    assert t[|t| - |r|..] == s[|s| - |r|..];
    assert s[..|s| - |r|] == [s[0]] + t[..|t| - |r|];
  }

  function LStripSpace(s: string): (r: string)
    ensures |r| <= |s| && r == s[|s| - |r|..]
    ensures AllSpace(s[..|s| - |r|])
    ensures r == [] || !IsSpace(r[0])
  {
    if s != [] && IsSpace(s[0]) then
      var r := LStripSpace(s[1..]);
      LStripStep(s, r);
      r
    else s
  }

  function RStripSpace(s: string): (r: string)
    ensures |r| <= |s| && r == s[..|r|]
    ensures AllSpace(s[|r|..])
    ensures r == [] || !IsSpace(r[|r| - 1])
  {
    if s != [] && IsSpace(s[|s| - 1]) then
      var t := s[..|s| - 1];
      var r := RStripSpace(t);
      assert t[..|r|] == s[..|r|];
      assert s[|r|..] == t[|r|..] + [s[|s| - 1]];
      r
    else s
  }

  /** s.strip(): both ends, whitespace only. */
  function Strip(s: string): string {
    RStripSpace(LStripSpace(s))
  }

  /**
   * int(s) for a str: surrounding whitespace, an optional sign, then one or
   * more ASCII decimal digits.  Anything else is a ValueError (None).
   */
  function ParseInt(s: string): Option<int> {
    var t := Strip(s);
    if |t| > 1 && (t[0] == '+' || t[0] == '-') && AllDigits(t[1..]) then
      var v: int := DigitsValue(t[1..]);
      Some(if t[0] == '-' then -v else v)
    else if |t| > 0 && AllDigits(t) then Some(DigitsValue(t))
    else None
  }

  predicate IsAsciiAlnum(c: char) {
    IsDigit(c) || ('a' <= c <= 'z') || ('A' <= c <= 'Z')
  }

  /** strip() leaves a string that neither starts nor ends with whitespace unchanged. */
  lemma StripUnchanged(s: string)
    requires s != [] && !IsSpace(s[0]) && !IsSpace(s[|s| - 1])
    ensures Strip(s) == s
  {
    assert LStripSpace(s) == s;
  }

  lemma AlnumNotSpace(c: char)
    requires IsAsciiAlnum(c)
    ensures !IsSpace(c)
  {
  }

  /** int() undoes str(): the value of str(n) parses back to n. */
  lemma ParseIntOfString(n: int)
    ensures ParseInt(IntToString(n)) == Some(n)
  {
    if n < 0 {
      ParseIntOfNegative(NatToString(-n));
    } else {
      ParseIntOfDigits(NatToString(n));
    }
  }

  /** A minus sign followed by digits parses to the negated value. */
  lemma ParseIntOfNegative(d: string)
    requires d != [] && AllDigits(d)
    ensures ParseInt("-" + d) == Some(0 - DigitsValue(d) as int)
  {
    var s := "-" + d;
    assert s[|s| - 1] == d[|d| - 1];
    AlnumNotSpace(d[|d| - 1]);
    assert s[1..] == d;
    StripUnchanged(s);
  }

  /**
   * int() rejects a string that starts and ends with an ASCII letter or
   * digit and holds a non-digit.
   */
  lemma ParseIntRejects(s: string, i: nat)
    requires i < |s| && !IsDigit(s[i])
    requires IsAsciiAlnum(s[0]) && IsAsciiAlnum(s[|s| - 1])
    ensures ParseInt(s) == None
  {
    AlnumNotSpace(s[0]);
    AlnumNotSpace(s[|s| - 1]);
    StripUnchanged(s);
  }

  /**
   * int() rejects a string that starts with '-', ends with an ASCII letter
   * or digit, and holds a non-digit after the sign.
   */
  lemma ParseIntRejectsSigned(s: string, i: nat)
    requires 0 < i < |s| && !IsDigit(s[i])
    requires s[0] == '-' && IsAsciiAlnum(s[|s| - 1])
    ensures ParseInt(s) == None
  {
    AlnumNotSpace(s[|s| - 1]);
    StripUnchanged(s);
    assert s[1..][i - 1] == s[i];
  }

  /** Digits that do not start with '0' have a positive value. */
  lemma {:induction false} DigitsValuePositive(d: string)
    requires d != [] && AllDigits(d) && d[0] != '0'
    ensures DigitsValue(d) > 0
  {
    if |d| > 1 {
      var init := d[..|d| - 1];
      assert init[0] == d[0];
      DigitsValuePositive(init);
    }
  }

  /** Digits without a leading zero (or the single "0") are str() of their value. */
  lemma {:induction false} CanonicalDigits(d: string)
    requires d != [] && AllDigits(d) && (d[0] != '0' || |d| == 1)
    ensures NatToString(DigitsValue(d)) == d
  {
    var init, c := d[..|d| - 1], d[|d| - 1];
    var k := c as int - '0' as int;
    if init == [] {
      assert d == [c];
      assert DigitChar(k) == c;
    } else {
      assert init[0] == d[0];
      CanonicalDigits(init);
      DigitsValuePositive(init);
      var v := DigitsValue(d);
      assert v == 10 * DigitsValue(init) + k;
      assert v / 10 == DigitsValue(init) && v % 10 == k;
      assert DigitChar(k) == c;
      assert d == init + [c];
    }
  }

  /** A string of digits with nothing around it parses to its value. */
  lemma ParseIntOfDigits(s: string)
    requires s != [] && AllDigits(s)
    ensures ParseInt(s) == Some(DigitsValue(s))
  {
    AlnumNotSpace(s[0]);
    AlnumNotSpace(s[|s| - 1]);
    StripUnchanged(s);
  }

  /** s.rstrip(c): drop every trailing copy of c. */
  function RStrip(s: string, c: char): (r: string)
    ensures |r| <= |s| && r == s[..|r|]
    ensures forall i :: |r| <= i < |s| ==> s[i] == c
    ensures r == [] || r[|r| - 1] != c
  {
    if s != [] && s[|s| - 1] == c then RStrip(s[..|s| - 1], c) else s
  }

  /** The longest prefix of s holding no whitespace. */
  function Word(s: string): (w: string)
    ensures |w| <= |s| && w == s[..|w|]
    ensures NoSpace(w)
    ensures |w| < |s| ==> IsSpace(s[|w|])
  {
    if s == [] || IsSpace(s[0]) then [] else [s[0]] + Word(s[1..])
  }

  /**
   * s.split() with no separator: the maximal runs of non-whitespace
   * characters, in order.
   */
  function Split(s: string): (tokens: seq<string>)
    ensures forall i :: 0 <= i < |tokens| ==> tokens[i] != [] && NoSpace(tokens[i])
    ensures tokens == [] <==> AllSpace(s)
    decreases |s|
  {
    if s == [] then []
    else if IsSpace(s[0]) then
      var rest := Split(s[1..]);
      assert AllSpace(s[1..]) ==> AllSpace(s);
      rest
    else
      var w := Word(s);
      [w] + Split(s[|w|..])
  }

  /** Splitting a string with no whitespace in it gives that string alone. */
  lemma SplitWord(s: string)
    requires s != [] && NoSpace(s)
    ensures Split(s) == [s]
  {
    WordOfNoSpace(s);
    assert s[|s|..] == [];
  }

  /** split() of a word followed by nothing or by whitespace: the word, then the split of the rest. */
  lemma SplitFirstWord(w: string, s: string)
    requires w != [] && NoSpace(w) && (s == [] || IsSpace(s[0]))
    ensures Split(w + s) == [w] + Split(s)
  {
    WordPrefix(w, s);
    assert (w + s)[|w|..] == s;
  }

  lemma {:induction false} WordPrefix(w: string, s: string)
    requires NoSpace(w) && (s == [] || IsSpace(s[0]))
    ensures Word(w + s) == w
  {
    if w == [] {
      assert w + s == s;
    } else {
      assert (w + s)[1..] == w[1..] + s;
      WordPrefix(w[1..], s);
      assert [w[0]] + w[1..] == w;
    }
  }

  lemma {:induction false} WordOfNoSpace(s: string)
    requires NoSpace(s)
    ensures Word(s) == s
  {
    if s != [] {
      WordOfNoSpace(s[1..]);
      assert [s[0]] + s[1..] == s;
    }
  }

  /** os.path.basename on a POSIX path: the part after the last '/'. */
  function Basename(p: string): (b: string)
    ensures '/' !in b
    ensures |b| <= |p| && b == p[|p| - |b|..]
    ensures |b| < |p| ==> p[|p| - |b| - 1] == '/'
  {
    if p == [] || p[|p| - 1] == '/' then []
    else
      var b := Basename(p[..|p| - 1]) + [p[|p| - 1]];
      assert p[|p| - |b|..] == p[..|p| - 1][|p| - |b|..] + [p[|p| - 1]];
      b
  }
}
