/**
 * Bytes and one-byte text shared by the Rust and the Go half of the server.
 *
 * Wire data is a sequence of bytes. Keys, values and command words are
 * strings; the model reads a string as a sequence of characters that each
 * stand for one byte, so that converting between a string and its bytes is
 * lossless in both directions. That is exact for Go's byte strings; for
 * Rust's `String::from_utf8_lossy` it holds of valid one-byte UTF-8 only.
 */
module Strings {

  datatype Option<T> = None | Some(value: T)

  type byte = b: int | 0 <= b < 256

  /** A character that is encoded by a single byte. */
  type Char8 = c: char | c as int < 256

  /** The text of a key, a value or a command word. */
  type Text = seq<Char8>

  const CR: byte := 13
  const LF: byte := 10
  const CRLF: seq<byte> := [CR, LF]

  const I64Min: int := -0x8000_0000_0000_0000
  const I64Max: int := 0x7FFF_FFFF_FFFF_FFFF

  /** The string that a byte sequence decodes to, one character per byte. */
  function FromBytes(b: seq<byte>): (s: Text)
    ensures |s| == |b|
    ensures forall i :: 0 <= i < |b| ==> s[i] as int == b[i]
  {
    if b == [] then [] else [b[0] as char] + FromBytes(b[1..])
  }

  /** The bytes that encode a string, one byte per character. */
  function ToBytes(s: Text): (b: seq<byte>)
    ensures |b| == |s|
    ensures forall i :: 0 <= i < |s| ==> b[i] == s[i] as int
  {
    if s == [] then [] else [s[0] as int] + ToBytes(s[1..])
  }

  lemma ToBytesOfFromBytes(b: seq<byte>)
    ensures ToBytes(FromBytes(b)) == b
  {
  }

  lemma FromBytesOfToBytes(s: Text)
    ensures FromBytes(ToBytes(s)) == s
  {
  }

  lemma ToBytesConcat(s: Text, t: Text)
    ensures ToBytes(s + t) == ToBytes(s) + ToBytes(t)
  {
  }

  // ---------------------------------------------------------------------
  // White space, trimming and splitting into fields

  /** ASCII white space: tab, line feed, vertical tab, form feed, carriage return, space. */
  predicate IsSpace(c: Char8) {
    c == '\t' || c == '\n' || c == '\U{B}' || c == '\U{C}' || c == '\r' || c == ' '
  }

  function TrimLeft(s: Text): (r: Text)
    ensures |r| <= |s|
    ensures r == [] || !IsSpace(r[0])
  {
    if s != [] && IsSpace(s[0]) then TrimLeft(s[1..]) else s
  }

  function TrimRight(s: Text): (r: Text)
    ensures |r| <= |s|
    ensures r == [] || !IsSpace(r[|r| - 1])
    ensures r != [] ==> r[0] == s[0]
  {
    if s != [] && IsSpace(s[|s| - 1]) then TrimRight(s[..|s| - 1]) else s
  }

  /** Removes leading and trailing white space (Rust's `str::trim`, Go's `strings.TrimSpace`). */
  function Trim(s: Text): (r: Text)
    ensures r == [] || (!IsSpace(r[0]) && !IsSpace(r[|r| - 1]))
  {
    TrimRight(TrimLeft(s))
  }

  lemma {:induction false} TrimUnspaced(s: Text)
    requires s == [] || (!IsSpace(s[0]) && !IsSpace(s[|s| - 1]))
    ensures Trim(s) == s
  {
  }

  /** Trimming a line whose text neither starts nor ends with white space leaves just the text, without its CRLF. */
  lemma TrimCrlf(t: Text)
    requires t == [] || (!IsSpace(t[0]) && !IsSpace(t[|t| - 1]))
    ensures Trim(t + ['\r', '\n']) == t
  {
    var s := t + ['\r', '\n'];
    assert s[..|s| - 1] == t + ['\r'];
    assert (t + ['\r'])[..|t|] == t;
    if t == [] {
      assert TrimLeft(s) == TrimLeft(['\r', '\n'][1..]);
    } else {
      assert TrimLeft(s) == s;
      assert TrimRight(s) == TrimRight(t + ['\r']);
      assert TrimRight(t + ['\r']) == TrimRight(t);
    }
  }

  /** Text made of white space only trims to nothing from the left. */
  lemma {:induction false} BlankTrims(s: Text)
    requires forall i :: 0 <= i < |s| ==> IsSpace(s[i])
    ensures TrimLeft(s) == []
    decreases |s|
  {
    if s != [] {
      BlankTrims(s[1..]);
    }
  }

  /** Text with no white space character in it. */
  predicate IsWord(w: Text) {
    w != [] && forall i :: 0 <= i < |w| ==> !IsSpace(w[i])
  }

  /** The length of the longest prefix of `s` free of white space. */
  function WordLength(s: Text): (n: nat)
    ensures n <= |s|
    ensures forall i :: 0 <= i < n ==> !IsSpace(s[i])
    ensures n < |s| ==> IsSpace(s[n])
  {
    if s == [] || IsSpace(s[0]) then 0 else 1 + WordLength(s[1..])
  }

  /** The maximal runs of non-space characters of `s`, in order (Go's `strings.Fields`). */
  function Fields(s: Text): seq<Text>
    decreases |s|
  {
    var t := TrimLeft(s);
    if t == [] then []
    else
      var n := WordLength(t);
      LeadingWord(t);
      [t[..n]] + Fields(t[n..])
  }

  /** Every field is a word. */
  lemma {:induction false} FieldsAreWords(s: Text)
    ensures forall i :: 0 <= i < |Fields(s)| ==> IsWord(Fields(s)[i])
    decreases |s|
  {
    var t := TrimLeft(s);
    if t != [] {
      var n := WordLength(t);
      LeadingWord(t);
      FieldsAreWords(t[n..]);
    }
  }

  /** Text that starts with a non-space character starts with a word. */
  lemma LeadingWord(t: Text)
    requires t != [] && !IsSpace(t[0])
    ensures 0 < WordLength(t) && IsWord(t[..WordLength(t)])
  {
    var n := WordLength(t);
    assert forall i :: 0 <= i < n ==> t[..n][i] == t[i];
  }

  /** The words joined with single spaces. */
  function JoinSpaced(ws: seq<Text>): Text {
    if ws == [] then [] else if |ws| == 1 then ws[0] else ws[0] + [' '] + JoinSpaced(ws[1..])
  }

  /** Words joined with spaces start with the first word's first character, end with the last word's last character, and hold no white space but the joining spaces. */
  lemma {:induction false} JoinSpacedShape(ws: seq<Text>)
    requires forall i :: 0 <= i < |ws| ==> IsWord(ws[i])
    ensures ws == [] <==> JoinSpaced(ws) == []
    ensures ws != [] ==> var t, v, w := JoinSpaced(ws), ws[0], ws[|ws| - 1];
      |t| > 0 && |v| > 0 && |w| > 0 && t[0] == v[0] && t[|t| - 1] == w[|w| - 1]
    ensures forall i :: 0 <= i < |JoinSpaced(ws)| && IsSpace(JoinSpaced(ws)[i]) ==> JoinSpaced(ws)[i] == ' '
  {
    if |ws| > 1 {
      var t := JoinSpaced(ws[1..]);
      JoinSpacedShape(ws[1..]);
      var s := ws[0] + [' '] + t;
      assert JoinSpaced(ws) == s;
      assert ws[1..][|ws[1..]| - 1] == ws[|ws| - 1];
      forall i | 0 <= i < |s| && IsSpace(s[i])
        ensures s[i] == ' '
      {
        if i > |ws[0]| {
          assert s[i] == t[i - |ws[0]| - 1];
        }
      }
    }
  }

  /** Splitting words that were joined with spaces gives back the words. */
  lemma {:induction false} FieldsOfJoined(ws: seq<Text>)
    requires forall i :: 0 <= i < |ws| ==> IsWord(ws[i])
    ensures Fields(JoinSpaced(ws)) == ws
  {
    if ws != [] {
      var s := JoinSpaced(ws);
      var w := ws[0];
      assert w[0] == s[0];
      assert TrimLeft(s) == s;
      WordOfPrefix(w, s);
      if |ws| > 1 {
        assert s[|w|..] == [' '] + JoinSpaced(ws[1..]);
        FieldsOfJoined(ws[1..]);
        assert s[|w|..][1..] == JoinSpaced(ws[1..]);
        FieldsSkipsSpace(s[|w|..]);
      } else {
        assert s[|w|..] == [];
      }
    }
  }

  lemma {:induction false} WordOfPrefix(w: Text, s: Text)
    requires IsWord(w) && |w| <= |s| && s[..|w|] == w
    requires |w| < |s| ==> IsSpace(s[|w|])
    ensures WordLength(s) == |w|
    decreases |w|
  {
    if |w| > 1 {
      assert s[1..][..|w| - 1] == w[1..];
      WordOfPrefix(w[1..], s[1..]);
    } else {
      assert s[0] == w[0];
      if |s| > 1 { assert s[1..][0] == s[1]; }
    }
  }

  lemma FieldsSkipsSpace(s: Text)
    requires s != [] && IsSpace(s[0])
    ensures Fields(s) == Fields(s[1..])
  {
  }

  // ---------------------------------------------------------------------
  // Case folding

  function UpperChar(c: Char8): Char8 {
    if 'a' <= c <= 'z' then (c as int - 32) as char else c
  }

  /** Upper-cases the ASCII letters of `s` and keeps every other character. */
  function ToUpper(s: Text): (r: Text)
    ensures |r| == |s|
    ensures forall i :: 0 <= i < |s| ==> r[i] == UpperChar(s[i])
  {
    if s == [] then [] else [UpperChar(s[0])] + ToUpper(s[1..])
  }

  // ---------------------------------------------------------------------
  // Decimal integers

  predicate IsDigit(c: Char8) { '0' <= c <= '9' }

  function DigitValue(c: Char8): nat
    requires IsDigit(c)
  {
    c as int - '0' as int
  }

  predicate AllDigits(s: Text) {
    forall i :: 0 <= i < |s| ==> IsDigit(s[i])
  }

  /** The number a non-empty run of decimal digits denotes. */
  function DigitsValue(s: Text): nat
    requires AllDigits(s)
  {
    if s == [] then 0 else 10 * DigitsValue(s[..|s| - 1]) + DigitValue(s[|s| - 1])
  }

  /** The shortest decimal digits of a natural number. */
  function Digits(n: nat): (s: Text)
    ensures s != [] && AllDigits(s)
  {
    if n < 10 then [('0' as int + n) as char] else Digits(n / 10) + [('0' as int + n % 10) as char]
  }

  /** The decimal text of an integer, with a leading minus sign when negative (`format!("{}")`, `%d`). */
  function Decimal(n: int): (s: Text)
    ensures s != []
    ensures forall i :: 0 <= i < |s| ==> s[i] != '\n' && s[i] != '\r' && s[i] != '\\' && !IsSpace(s[i])
  {
    if n < 0 then ['-'] + Digits(-n) else Digits(n)
  }

  lemma {:induction false} DigitsValueOfDigits(n: nat)
    ensures DigitsValue(Digits(n)) == n
  {
    if n >= 10 {
      var s := Digits(n);
      assert s[..|s| - 1] == Digits(n / 10);
      DigitsValueOfDigits(n / 10);
    }
  }

  /**
   * Reads a signed 64-bit decimal integer: an optional `+` or `-`, then one or
   * more digits, the whole within the range of i64. It accepts what both
   * Rust's `i64::from_str` and Go's `strconv.Atoi` accept on a 64-bit target.
   */
  function ParseInt64(s: Text): (r: Option<int>)
    ensures r.Some? ==> I64Min <= r.value <= I64Max
  {
    if s == [] then None
    else if s[0] == '-' || s[0] == '+' then
      var ds := s[1..];
      if ds == [] || !AllDigits(ds) then None
      else
        var n: int := if s[0] == '-' then 0 - DigitsValue(ds) as int else DigitsValue(ds);
        if I64Min <= n <= I64Max then Some(n) else None
    else if AllDigits(s) && DigitsValue(s) <= I64Max then Some(DigitsValue(s))
    else None
  }

  /** Every 64-bit integer reads back from its decimal text. */
  lemma ParseDecimal(n: int)
    requires I64Min <= n <= I64Max
    ensures ParseInt64(Decimal(n)) == Some(n)
  {
    if n < 0 {
      var s := Decimal(n);
      assert s[1..] == Digits(-n);
      DigitsValueOfDigits(-n);
    } else {
      DigitsValueOfDigits(n);
    }
  }
}
