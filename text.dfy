/**
 * The pieces of Python's text handling the benchmark scripts rely on, over
 * ASCII: `str(n)` for naturals, `bytes.decode("ascii")` (strict and with
 * "ignore"), `str.split()` with no argument and `int(token)` in base 10.
 */
module Text {
  import opened Bytes
  import opened Wrappers

  predicate IsDigit(c: char) {
    '0' <= c <= '9'
  }

  function DigitChar(d: int): (c: char)
    requires 0 <= d < 10
    ensures IsDigit(c)
  {
    (48 + d) as char
  }

  function DigitValue(c: char): (d: int)
    requires IsDigit(c)
    ensures 0 <= d < 10
  {
    c as int - 48
  }

  predicate AllDigits(s: string) {
    forall k :: 0 <= k < |s| ==> IsDigit(s[k])
  }

  /** `str(n)` for a natural number: its decimal digits, no leading zero. */
  function Dec(n: nat): (s: string)
    ensures |s| >= 1 && AllDigits(s)
    ensures n >= 10 ==> s[0] != '0'
  {
    if n < 10 then [DigitChar(n)] else Dec(n / 10) + [DigitChar(n % 10)]
  }

  /** The value of a string of decimal digits (leading zeros allowed). */
  function DigitsValue(s: string): (v: nat)
    requires AllDigits(s)
  {
    if s == [] then 0 else 10 * DigitsValue(s[..|s| - 1]) + DigitValue(s[|s| - 1])
  }

  lemma {:induction false} DecValue(n: nat)
    ensures DigitsValue(Dec(n)) == n
  {
    if n >= 10 {
      var s := Dec(n);
      assert s[..|s| - 1] == Dec(n / 10);
      DecValue(n / 10);
    }
  }

  /** Different naturals print differently. */
  lemma DecInjective(m: nat, n: nat)
    requires Dec(m) == Dec(n)
    ensures m == n
  {
    DecValue(m);
    DecValue(n);
  }

  // ---------------------------------------------------------------------------
  // Bytes and ASCII

  predicate IsAscii(data: seq<byte>) {
    forall k :: 0 <= k < |data| ==> data[k] < 128
  }

  /** `data.decode("ascii")`: fails on any byte of 128 or more. */
  function DecodeAscii(data: seq<byte>): (r: Option<string>)
    ensures r.Some? <==> IsAscii(data)
    ensures r.Some? ==> |r.value| == |data| && forall k :: 0 <= k < |data| ==> r.value[k] as int == data[k] as int
  {
    if IsAscii(data) then Some(seq(|data|, k requires 0 <= k < |data| => data[k] as int as char)) else None
  }

  /** `data.decode("ascii", "ignore")`: bytes of 128 or more are dropped. */
  function DecodeAsciiIgnore(data: seq<byte>): (s: string)
    ensures |s| <= |data|
    ensures forall k :: 0 <= k < |s| ==> s[k] as int < 128
  {
    if data == [] then []
    else (if data[0] < 128 then [data[0] as int as char] else []) + DecodeAsciiIgnore(data[1..])
  }

  predicate IsAsciiText(s: string) {
    forall k :: 0 <= k < |s| ==> s[k] as int < 128
  }

  /** `s.encode("ascii")` of an ASCII string. */
  function EncodeAscii(s: string): (data: seq<byte>)
    requires IsAsciiText(s)
    ensures |data| == |s| && IsAscii(data)
  {
    seq(|s|, k requires 0 <= k < |s| => s[k] as int as byte)
  }

  lemma DecodeEncode(s: string)
    requires IsAsciiText(s)
    ensures DecodeAscii(EncodeAscii(s)) == Some(s)
  {
    var d := EncodeAscii(s);
    assert DecodeAscii(d).value == s;
  }

  lemma {:induction false} DecodeIgnoreEncode(s: string)
    requires IsAsciiText(s)
    ensures DecodeAsciiIgnore(EncodeAscii(s)) == s
    decreases |s|
  {
    var d := EncodeAscii(s);
    if s != [] {
      assert EncodeAscii(s[1..]) == d[1..];
      DecodeIgnoreEncode(s[1..]);
    }
  }

  lemma DecIsAscii(n: nat)
    ensures IsAsciiText(Dec(n))
  {
  }

  predicate StartsWith(s: string, prefix: string) {
    |prefix| <= |s| && s[..|prefix|] == prefix
  }

  // ---------------------------------------------------------------------------
  // str.split() and int()

  /** The ASCII characters `str.isspace()` accepts: \t \n \v \f \r, \x1c-\x1f and space. */
  predicate IsPySpace(c: char) {
    (9 <= c as int <= 13) || (28 <= c as int <= 32)
  }

  /** Length of the leading run of non-space characters. */
  function TokenLen(s: string): (n: nat)
    ensures n <= |s|
    decreases |s|
  {
    if s == [] || IsPySpace(s[0]) then 0 else 1 + TokenLen(s[1..])
  }

  /** `s.split()`: the maximal runs of non-space characters, in order. */
  function Split(s: string): (ts: seq<string>)
    decreases |s|
  {
    if s == [] then []
    else if IsPySpace(s[0]) then Split(s[1..])
    else
      var n := TokenLen(s);
      [s[..n]] + Split(s[n..])
  }

  /** Digits with single underscores between them, as `int()` accepts after the sign. */
  predicate DigitGroups(s: string) {
    && |s| >= 1 && IsDigit(s[0]) && IsDigit(s[|s| - 1])
    && (forall k :: 0 <= k < |s| ==> IsDigit(s[k]) || s[k] == '_')
    && (forall k :: 0 <= k < |s| - 1 ==> s[k] == '_' ==> s[k + 1] != '_')
  }

  function WithoutUnderscores(s: string): (r: string)
    ensures |r| <= |s|
  {
    if s == [] then [] else (if s[0] == '_' then [] else [s[0]]) + WithoutUnderscores(s[1..])
  }

  lemma {:induction false} WithoutUnderscoresDigits(s: string)
    requires forall k :: 0 <= k < |s| ==> IsDigit(s[k]) || s[k] == '_'
    ensures AllDigits(WithoutUnderscores(s))
    decreases |s|
  {
    if s != [] {
      WithoutUnderscoresDigits(s[1..]);
    }
  }

  /** `int(token)` in base 10 for a token without white space; None is a ValueError. */
  function PyInt(t: string): (r: Option<int>)
  {
    var signed := |t| >= 1 && (t[0] == '+' || t[0] == '-');
    var body := if signed then t[1..] else t;
    if !DigitGroups(body) then None
    else
      WithoutUnderscoresDigits(body);
      var v: int := DigitsValue(WithoutUnderscores(body));
      Some(if signed && t[0] == '-' then -v else v)
  }

  lemma WithoutUnderscoresOfDigits(s: string)
    requires AllDigits(s)
    ensures WithoutUnderscores(s) == s
  {
    if s != [] {
      WithoutUnderscoresOfDigits(s[1..]);
    }
  }

  /** `int(str(n)) == n`. */
  lemma PyIntDec(n: nat)
    ensures PyInt(Dec(n)) == Some(n)
  {
    var s := Dec(n);
    assert !(s[0] == '+' || s[0] == '-');
    WithoutUnderscoresOfDigits(s);
    DecValue(n);
  }


  predicate NoSpace(t: string) {
    forall k :: 0 <= k < |t| ==> !IsPySpace(t[k])
  }

  lemma {:induction false} TokenLenOfToken(s: string)
    requires NoSpace(s)
    ensures TokenLen(s) == |s|
    decreases |s|
  {
    if s != [] {
      TokenLenOfToken(s[1..]);
    }
  }

  lemma {:induction false} TokenLenPrefix(w: string, rest: string)
    requires NoSpace(w)
    requires rest != [] && IsPySpace(rest[0])
    ensures TokenLen(w + rest) == |w|
    decreases |w|
  {
    if w != [] {
      assert (w + rest)[1..] == w[1..] + rest;
      TokenLenPrefix(w[1..], rest);
    }
  }

  /** A single token splits to itself. */
  lemma SplitToken(t: string)
    requires t != [] && NoSpace(t)
    ensures Split(t) == [t]
  {
    TokenLenOfToken(t);
    assert t[|t|..] == [];
    assert t[..|t|] == t;
  }

  /** A token followed by white space splits off as the first field. */
  lemma SplitLeadingToken(w: string, rest: string)
    requires w != [] && NoSpace(w)
    requires rest != [] && IsPySpace(rest[0])
    ensures Split(w + rest) == [w] + Split(rest)
  {
    var s := w + rest;
    assert s[0] == w[0];
    TokenLenPrefix(w, rest);
    assert s[..|w|] == w;
    assert s[|w|..] == rest;
  }

  /** Splitting a word, a space and a token gives the word and the token. */
  lemma SplitTwo(w: string, t: string)
    requires w != [] && t != [] && NoSpace(w) && NoSpace(t)
    ensures Split(w + " " + t) == [w, t]
  {
    var rest := " " + t;
    assert rest[0] == ' ' && rest[1..] == t;
    SplitToken(t);
    assert Split(rest) == [t];
    SplitLeadingToken(w, rest);
    assert w + " " + t == w + rest;
  }
}
