/**
 * What the RESP codec of the Rust server guarantees, and where it falls short
 * of the protocol: values written by `serialize` read back, bulk strings carry
 * any bytes, integer frames as the protocol writes them are refused, a bare LF
 * line ending makes the decoder report one byte more than the frame holds.
 */
module RespProperties {
  import opened Strings
  import opened Resp

  // ---------------------------------------------------------------------
  // Sequence helpers

  lemma DropAppend(a: seq<byte>, b: seq<byte>)
    ensures (a + b)[|a|..] == b
  {
  }

  lemma TakeAppend(a: seq<byte>, b: seq<byte>)
    ensures (a + b)[..|a|] == a
  {
  }

  lemma DropDrop(s: seq<byte>, i: nat, j: nat)
    requires i + j <= |s|
    ensures s[i..][j..] == s[i + j..]
  {
  }

  lemma AppendAssoc4(a: seq<byte>, b: seq<byte>, c: seq<byte>, d: seq<byte>)
    ensures a + b + c + d == a + (b + (c + d))
  {
  }

  lemma SliceAfter(a: seq<byte>, b: seq<byte>, c: seq<byte>)
    ensures (a + (b + c))[|a|..|a| + |b|] == b
  {
    var s := a + (b + c);
    assert forall i :: 0 <= i < |b| ==> s[|a|..|a| + |b|][i] == b[i];
  }

  // ---------------------------------------------------------------------
  // Lines

  /** A line without LF, ended by CRLF: the line ends where the CR is. */
  lemma FindCrlfOfLine(line: seq<byte>, rest: seq<byte>)
    requires LF !in line
    ensures FindCrlf(line + CRLF + rest) == Some(|line|)
  {
    var s := line + CRLF + rest;
    assert s[..|line| + 1] == line + [CR];
    IndexOfFirst(s, LF, |line| + 1);
  }

  /** A line without LF and not ending in CR, ended by a bare LF: the line ends where the LF is. */
  lemma FindCrlfOfBareLine(line: seq<byte>, rest: seq<byte>)
    requires LF !in line && (line == [] || line[|line| - 1] != CR)
    ensures FindCrlf(line + [LF] + rest) == Some(|line|)
  {
    var s := line + [LF] + rest;
    assert s[..|line|] == line;
    IndexOfFirst(s, LF, |line|);
  }

  // ---------------------------------------------------------------------
  // `unescape` changes no integer

  /** The characters of a text that `ParseInt64` accepts. */
  predicate IsNumeral(c: Char8) {
    IsDigit(c) || c == '+' || c == '-'
  }

  predicate AllNumeral(s: Text) {
    forall i :: 0 <= i < |s| ==> IsNumeral(s[i])
  }

  lemma {:induction false} ParsedNumeral(s: Text)
    requires ParseInt64(s).Some?
    ensures AllNumeral(s)
  {
    if s[0] == '-' || s[0] == '+' {
      assert forall i :: 1 <= i < |s| ==> s[i] == s[1..][i - 1];
    }
  }

  /** Replacing never touches text whose characters cannot start the pair. */
  lemma {:induction false} ReplacePairNumeral(s: Text, a: Char8, b: Char8, c: Char8)
    requires !IsNumeral(a) && AllNumeral(s)
    ensures ReplacePair(s, a, b, c) == s
    decreases |s|
  {
    if |s| >= 2 {
      assert IsNumeral(s[0]);
      assert AllNumeral(s[1..]) by {
        assert forall i :: 0 <= i < |s[1..]| ==> s[1..][i] == s[i + 1];
      }
      ReplacePairNumeral(s[1..], a, b, c);
    }
  }

  /** A replacement whose outcome is all numerals replaced nothing, when neither `a` nor `c` is a numeral. */
  lemma {:induction false} ReplacePairFixed(s: Text, a: Char8, b: Char8, c: Char8)
    requires !IsNumeral(a) && !IsNumeral(c) && AllNumeral(ReplacePair(s, a, b, c))
    ensures ReplacePair(s, a, b, c) == s
    decreases |s|
  {
    if |s| >= 2 {
      var r := ReplacePair(s, a, b, c);
      assert IsNumeral(r[0]);
      var t := ReplacePair(s[1..], a, b, c);
      assert r == [s[0]] + t;
      assert AllNumeral(t) by {
        assert forall i :: 0 <= i < |t| ==> t[i] == r[i + 1];
      }
      ReplacePairFixed(s[1..], a, b, c);
    }
  }

  /** Un-escaping never changes whether or to what a text reads as an integer. */
  lemma UnescapeInert(t: Text)
    ensures ParseInt64(Unescape(t)) == ParseInt64(t)
  {
    var r := ReplacePair(t, '\\', 'r', '\r');
    var u := ReplacePair(r, '\\', 'n', '\n');
    assert u == Unescape(t);
    if ParseInt64(u).Some? {
      ParsedNumeral(u);
      ReplacePairFixed(r, '\\', 'n', '\n');
      ReplacePairFixed(t, '\\', 'r', '\r');
    } else if ParseInt64(t).Some? {
      ParsedNumeral(t);
      ReplacePairNumeral(t, '\\', 'r', '\r');
      ReplacePairNumeral(r, '\\', 'n', '\n');
    }
  }

  /** The header line that `serialize` writes reads back as the number it was written from. */
  lemma ParseIntegerOfDecimal(n: int, rest: seq<byte>)
    requires I64Min <= n <= I64Max
    ensures ParseInteger(ToBytes(Decimal(n)) + CRLF + rest) == Success(n)
  {
    var line := ToBytes(Decimal(n));
    var s := line + CRLF + rest;
    DecimalBytes(n);
    FindCrlfOfLine(line, rest);
    TakeAppend(line, CRLF + rest);
    assert s[..|line|] == line;
    FromBytesOfToBytes(Decimal(n));
    TrimUnspaced(Decimal(n));
    UnescapeInert(Decimal(n));
    ParseDecimal(n);
  }

  // ---------------------------------------------------------------------
  // Dispatch on the type byte

  /** A frame that starts with `$` is decoded by the bulk-string branch. */
  lemma ParsesBulk(input: seq<byte>)
    requires input != [] && input[0] == DOLLAR
    ensures ParsesTo(input, 0, ParseBulkString(input))
  {
    assert input[0..] == input;
    assert Parse(input) == ParseBulkString(input);
  }

  /** A frame that starts with `+` is decoded by `parse_simple_string`. */
  lemma ParsesSimple(input: seq<byte>)
    requires input != [] && input[0] == PLUS
    ensures ParsesTo(input, 0, ParseSimpleString(input))
  {
    assert input[0..] == input;
    assert Parse(input) == ParseSimpleString(input);
  }

  /** A frame that starts with `-` is decoded by `parse_error`. */
  lemma ParsesError(input: seq<byte>)
    requires input != [] && input[0] == MINUS
    ensures ParsesTo(input, 0, ParseError(input))
  {
    assert input[0..] == input;
    assert Parse(input) == ParseError(input);
  }

  /** A frame that starts with `:` is decoded by `parse_integer_value`. */
  lemma ParsesInteger(input: seq<byte>)
    requires input != [] && input[0] == COLON
    ensures ParsesTo(input, 0, ParseIntegerValue(input))
  {
    assert input[0..] == input;
    assert Parse(input) == ParseIntegerValue(input);
  }

  /** A frame that starts with `*` is decoded element by element after its header line. */
  lemma ParsesArray(input: seq<byte>, start: nat, n: nat)
    requires input != [] && input[0] == STAR && ParseInteger(input[1..]) == Success(n) && start == HeaderEnd(input)
    ensures ParsesTo(input, 0, match ParseElements(input, At(start, 0), n)
      case Elements(vs, end) => Ok(Array(vs), end)
      case ElementsErr(e) => Err(e)
      case ElementsAbort => Abort)
  {
    assert input[0..] == input;
    ArrayStep(input, start, n);
  }

  // ---------------------------------------------------------------------
  // Round trip

  /** Text without LF: the texts a simple string or an error frame can carry. */
  predicate LineFree(s: Text) {
    forall i :: 0 <= i < |s| ==> s[i] != '\n'
  }

  /**
   * The values that `parse` reads back from what `serialize` writes: simple
   * strings and errors without LF, bulk strings with any bytes, and arrays of
   * such values. Integers are not among them, and lengths and counts must fit in i64.
   */
  predicate Encodable(v: RespValue)
    decreases v
  {
    match v
    case SimpleString(s) => LineFree(s)
    case Error(s) => LineFree(s)
    case Integer(_) => false
    case BulkString(Some(d)) => |d| <= I64Max
    case BulkString(None) => true
    case Array(xs) => |xs| <= I64Max && forall i :: 0 <= i < |xs| ==> Encodable(xs[i])
  }

  /** The bytes of text without LF hold no LF. */
  lemma LineFreeBytes(s: Text)
    requires LineFree(s)
    ensures LF !in ToBytes(s)
  {
    var b := ToBytes(s);
    assert forall i :: 0 <= i < |b| ==> b[i] != LF;
  }

  lemma BodyOfFrame(prefix: byte, b: seq<byte>, rest: seq<byte>)
    ensures ([prefix] + b + CRLF + rest)[1..|b| + 1] == b
  {
    var f := [prefix] + b + CRLF + rest;
    assert forall i :: 0 <= i < |b| ==> f[1..|b| + 1][i] == b[i];
  }

  /** The line of a frame that holds no LF after its type byte ends at the CR of its CRLF. */
  lemma FrameLine(prefix: byte, b: seq<byte>, rest: seq<byte>)
    requires prefix != LF && LF !in b
    ensures FindCrlf([prefix] + b + CRLF + rest) == Some(|b| + 1)
  {
    var line := [prefix] + b;
    assert LF !in line;
    FindCrlfOfLine(line, rest);
  }

  /** The line of a simple string or error frame ends at its CR, and runs over the text's bytes. */
  lemma TextLine(prefix: byte, s: Text, rest: seq<byte>)
    requires LineFree(s) && prefix != LF
    ensures FindCrlf([prefix] + ToBytes(s) + CRLF + rest) == Some(|s| + 1)
    ensures ([prefix] + ToBytes(s) + CRLF + rest)[1..|s| + 1] == ToBytes(s)
  {
    LineFreeBytes(s);
    FrameLine(prefix, ToBytes(s), rest);
    BodyOfFrame(prefix, ToBytes(s), rest);
  }

  lemma SimpleStringRoundTrip(s: Text, rest: seq<byte>)
    requires LineFree(s)
    ensures ParsesTo(Serialize(SimpleString(s)) + rest, 0, Ok(SimpleString(s), |Serialize(SimpleString(s))|))
  {
    var input := Serialize(SimpleString(s)) + rest;
    TextLine(PLUS, s, rest);
    FromBytesOfToBytes(s);
    assert ParseSimpleString(input) == Ok(SimpleString(s), |s| + 3);
    ParsesSimple(input);
  }

  lemma ErrorRoundTrip(s: Text, rest: seq<byte>)
    requires LineFree(s)
    ensures ParsesTo(Serialize(Error(s)) + rest, 0, Ok(Error(s), |Serialize(Error(s))|))
  {
    var input := Serialize(Error(s)) + rest;
    TextLine(MINUS, s, rest);
    FromBytesOfToBytes(s);
    assert ParseError(input) == Ok(Error(s), |s| + 3);
    ParsesError(input);
  }

  /** The header line of a bulk string or an array reads back as its number, and ends where it was written to. */
  lemma HeaderLine(prefix: byte, n: nat, rest: seq<byte>)
    requires n <= I64Max
    ensures var input := Header(prefix, n) + rest;
      ParseInteger(input[1..]) == Success(n) && HeaderEnd(input) == |Header(prefix, n)|
  {
    var line := ToBytes(Decimal(n));
    var input := Header(prefix, n) + rest;
    assert input[1..] == line + CRLF + rest;
    ParseIntegerOfDecimal(n, rest);
    DecimalBytes(n);
    FindCrlfOfLine(line, rest);
  }

  /**
   * The bulk-string branch with a header `$len`, `0 <= len`: the `len` bytes
   * after the header line, and two bytes more consumed, whatever those two
   * bytes are and even when the input ends before them.
   */
  lemma BulkBranch(input: seq<byte>, len: int, start: nat)
    requires input != [] && input[0] == DOLLAR && ParseInteger(input[1..]) == Success(len)
    requires start == HeaderEnd(input) && 0 <= len && start + len <= |input|
    ensures ParseBulkString(input) == Ok(BulkString(Some(input[start..start + len])), start + len + 2)
  {
  }

  /** A bulk-string header and its data parse as that data, whatever follows the data. */
  lemma BulkFrame(d: seq<byte>, tail: seq<byte>)
    requires |d| <= I64Max
    ensures ParsesTo(Header(DOLLAR, |d|) + (d + tail), 0, Ok(BulkString(Some(d)), |Header(DOLLAR, |d|)| + |d| + 2))
  {
    var h := Header(DOLLAR, |d|);
    var input := h + (d + tail);
    var start := |h|;
    HeaderLine(DOLLAR, |d|, d + tail);
    SliceAfter(h, d, tail);
    assert input[start..start + |d|] == d;
    BulkBranch(input, |d|, start);
    ParsesBulk(input);
  }

  /** A bulk string reads back whatever bytes it holds, CR and LF included. */
  lemma BulkRoundTrip(d: seq<byte>, rest: seq<byte>)
    requires |d| <= I64Max
    ensures ParsesTo(Serialize(BulkString(Some(d))) + rest, 0, Ok(BulkString(Some(d)), |Serialize(BulkString(Some(d)))|))
  {
    AppendAssoc4(Header(DOLLAR, |d|), d, CRLF, rest);
    BulkFrame(d, CRLF + rest);
  }

  lemma NullRoundTrip(rest: seq<byte>)
    ensures ParsesTo(Serialize(BulkString(None)) + rest, 0, Ok(BulkString(None), |Serialize(BulkString(None))|))
  {
    var input := Serialize(BulkString(None)) + rest;
    assert ToBytes(Decimal(-1)) == [MINUS, 49];
    assert input[1..] == ToBytes(Decimal(-1)) + CRLF + rest;
    ParseIntegerOfDecimal(-1, rest);
    DecimalBytes(-1);
    FindCrlfOfLine(ToBytes(Decimal(-1)), rest);
    assert ParseBulkString(input) == Ok(BulkString(None), 5);
    ParsesBulk(input);
  }

  lemma {:induction false} ArrayRoundTrip(xs: seq<RespValue>, rest: seq<byte>)
    requires |xs| <= I64Max && forall i :: 0 <= i < |xs| ==> Encodable(xs[i])
    ensures ParsesTo(Serialize(Array(xs)) + rest, 0, Ok(Array(xs), |Serialize(Array(xs))|))
    decreases xs, 1
  {
    var h := Header(STAR, |xs|);
    var body := SerializeAll(xs);
    var input := h + body + rest;
    assert input == Serialize(Array(xs)) + rest;
    assert input == h + (body + rest);
    HeaderLine(STAR, |xs|, body + rest);
    DropAppend(h, body + rest);
    ElementsRoundTrip(input, At(|h|, 0), xs, |xs|, rest);
    ParsesArray(input, |h|, |xs|);
  }

  /** The encodings of values, one after the other, read back as those values. */
  lemma {:induction false} ElementsRoundTrip(input: seq<byte>, at: Cursor, xs: seq<RespValue>, count: nat, rest: seq<byte>)
    requires at.pos <= |input| && input[at.pos..] == SerializeAll(xs) + rest
    requires count == at.index + |xs|
    requires forall i :: 0 <= i < |xs| ==> Encodable(xs[i])
    ensures ParseElements(input, at, count) == Elements(xs, at.pos + |SerializeAll(xs)|)
    decreases xs, 0
  {
    if xs != [] {
      var x := xs[0];
      var c := |Serialize(x)|;
      var tail := SerializeAll(xs[1..]) + rest;
      assert SerializeAll(xs) == Serialize(x) + SerializeAll(xs[1..]);
      AppendAssoc(Serialize(x), SerializeAll(xs[1..]), rest);
      ElementStep(input, at, count, x, tail);
      ElementsRoundTrip(input, At(at.pos + c, at.index + 1), xs[1..], count, rest);
      assert [x] + xs[1..] == xs;
    }
  }

  /** One encoded value at the cursor: parsed, and the loop goes on right after its encoding. */
  lemma ElementStep(input: seq<byte>, at: Cursor, count: nat, x: RespValue, tail: seq<byte>)
    requires at.pos <= |input| && input[at.pos..] == Serialize(x) + tail
    requires at.index < count && Encodable(x)
    ensures var c := |Serialize(x)|;
      && at.pos + c <= |input| && input[at.pos + c..] == tail
      && ParseElements(input, at, count) == PrependAll([x], ParseElements(input, At(at.pos + c, at.index + 1), count))
    decreases x, 3
  {
    var c := |Serialize(x)|;
    EncodedParses(x, tail);
    assert ParsesTo(input, at.pos, Ok(x, c)) by {
      assert input[at.pos..][0..] == input[at.pos..];
    }
    ElementsStepOk(input, at, count, x, c);
    DropAppend(Serialize(x), tail);
    DropDrop(input, at.pos, c);
  }

  lemma {:induction false} EncodedParses(v: RespValue, rest: seq<byte>)
    requires Encodable(v)
    ensures ParsesTo(Serialize(v) + rest, 0, Ok(v, |Serialize(v)|))
    decreases v, 2
  {
    match v
    case SimpleString(s) => SimpleStringRoundTrip(s, rest);
    case Error(s) => ErrorRoundTrip(s, rest);
    case Integer(_) => assert false;
    case BulkString(Some(d)) => BulkRoundTrip(d, rest);
    case BulkString(None) => NullRoundTrip(rest);
    case Array(xs) => ArrayRoundTrip(xs, rest);
  }

  /** Every encodable value reads back from its encoding, whatever follows it, consuming exactly the encoding. */
  lemma RoundTrip(v: RespValue, rest: seq<byte>)
    requires Encodable(v)
    ensures Parse(Serialize(v) + rest) == Ok(v, |Serialize(v)|)
  {
    EncodedParses(v, rest);
    assert (Serialize(v) + rest)[0..] == Serialize(v) + rest;
  }

  /** What a frame parses to from its first byte on, restated for `Parse`. */
  lemma ParsesFromStart(s: seq<byte>, p: Parsed)
    requires ParsesTo(s, 0, p)
    ensures Parse(s) == p
  {
    assert s[0..] == s;
  }

  // ---------------------------------------------------------------------
  // Bulk strings

  /** The two bytes after a bulk string's data are skipped unread: any two bytes end the frame. */
  lemma BulkIgnoresTerminator(d: seq<byte>, x: byte, y: byte, rest: seq<byte>)
    requires |d| <= I64Max
    ensures Parse(Header(DOLLAR, |d|) + (d + ([x, y] + rest))) == Ok(BulkString(Some(d)), |Header(DOLLAR, |d|)| + |d| + 2)
  {
    BulkFrame(d, [x, y] + rest);
    ParsesFromStart(Header(DOLLAR, |d|) + (d + ([x, y] + rest)), Ok(BulkString(Some(d)), |Header(DOLLAR, |d|)| + |d| + 2));
  }

  /** A bulk string whose terminator has not arrived still parses, and is said to consume two bytes more than the input holds. */
  lemma BulkOverrun(d: seq<byte>)
    requires |d| <= I64Max
    ensures Parse(Header(DOLLAR, |d|) + d) == Ok(BulkString(Some(d)), |Header(DOLLAR, |d|) + d| + 2)
  {
    BulkFrame(d, []);
    assert d + [] == d;
    ParsesFromStart(Header(DOLLAR, |d|) + d, Ok(BulkString(Some(d)), |Header(DOLLAR, |d|)| + |d| + 2));
  }

  /** A header `$-1` is the null bulk string, and the frame ends with the header line. */
  lemma NullBulk(input: seq<byte>)
    requires input != [] && input[0] == DOLLAR && ParseInteger(input[1..]) == Success(-1)
    ensures Parse(input) == Ok(BulkString(None), HeaderEnd(input))
  {
    ParsesBulk(input);
    ParsesFromStart(input, Ok(BulkString(None), HeaderEnd(input)));
  }

  /** A bulk-string length below -1, or one that runs past the input, makes the slice panic. */
  lemma BulkAborts(input: seq<byte>, len: int)
    requires input != [] && input[0] == DOLLAR && ParseInteger(input[1..]) == Success(len)
    requires len < -1 || (0 <= len && HeaderEnd(input) + len > |input|)
    ensures Parse(input) == Abort
  {
    ParsesBulk(input);
    ParsesFromStart(input, Abort);
  }

  /** A negative element count makes the allocation of the element vector panic. */
  lemma ArrayAborts(input: seq<byte>, n: int)
    requires input != [] && input[0] == STAR && ParseInteger(input[1..]) == Success(n) && n < 0
    ensures Parse(input) == Abort
  {
  }

  /** Empty input, or a first byte that is not one of `*`, `$`, `+`, `-`, `:`, is invalid data. */
  lemma BadPrefix(input: seq<byte>)
    requires input == [] || input[0] !in {STAR, DOLLAR, PLUS, MINUS, COLON}
    ensures Parse(input) == Err(InvalidData)
  {
  }

  /** A parsed value is of the kind its frame's first byte names. */
  lemma ParsedKind(input: seq<byte>)
    ensures Parse(input).Ok? ==> input != [] && input[0] == TypeByte(Parse(input).value)
  {
  }

  /** Input without an LF holds no complete frame: whatever its first byte, parsing reports an error. */
  lemma NoLineNoValue(input: seq<byte>)
    requires input != [] && LF !in input
    ensures Parse(input).Err?
  {
    FindCrlfSpec(input);
    assert LF !in input[1..] by {
      forall i | 0 <= i < |input| - 1 ensures input[1..][i] != LF {
        assert input[1..][i] == input[i + 1];
      }
    }
    FindCrlfSpec(input[1..]);
  }

  // ---------------------------------------------------------------------
  // Integers and bare LF

  /**
   * An integer frame as `serialize` writes it, `:` digits CRLF, is refused:
   * the line handed to `parse_integer` stops at the CR, so it has no LF left.
   */
  lemma IntegerFrameRejected(i: int, rest: seq<byte>)
    ensures Parse(Serialize(Integer(i)) + rest) == Err(LineEndingNotFound)
  {
    var b := ToBytes(Decimal(i));
    var input := [COLON] + b + CRLF + rest;
    DecimalBytes(i);
    FrameLine(COLON, b, rest);
    var line := input[1..|b| + 2];
    assert line == b + [CR];
    IndexOfSpec(line, LF);
    assert ParseIntegerValue(input) == Err(LineEndingNotFound);
    ParsesInteger(input);
    ParsesFromStart(input, Err(LineEndingNotFound));
  }

  lemma BareLine(prefix: byte, b: seq<byte>, rest: seq<byte>)
    requires prefix != LF && prefix != CR && LF !in b && (b == [] || b[|b| - 1] != CR)
    ensures FindCrlf([prefix] + b + [LF] + rest) == Some(|b| + 1)
    ensures ([prefix] + b + [LF] + rest)[1..|b| + 1] == b
  {
    var line := [prefix] + b;
    assert LF !in line;
    FindCrlfOfBareLine(line, rest);
    var f := [prefix] + b + [LF] + rest;
    assert forall i :: 0 <= i < |b| ==> f[1..|b| + 1][i] == b[i];
  }

  /**
   * A simple string ended by a bare LF parses, but the decoder counts two
   * terminator bytes: it reports one byte more than the frame has.
   */
  lemma SimpleStringBareLf(s: Text, rest: seq<byte>)
    requires LineFree(s) && (s == [] || s[|s| - 1] != '\r')
    ensures Parse([PLUS] + ToBytes(s) + [LF] + rest) == Ok(SimpleString(s), |[PLUS] + ToBytes(s) + [LF]| + 1)
  {
    var input := [PLUS] + ToBytes(s) + [LF] + rest;
    LineFreeBytes(s);
    BareLine(PLUS, ToBytes(s), rest);
    FromBytesOfToBytes(s);
    assert ParseSimpleString(input) == Ok(SimpleString(s), |s| + 3);
    ParsesSimple(input);
    ParsesFromStart(input, Ok(SimpleString(s), |s| + 3));
  }

  /** An integer frame ended by a bare LF is accepted, and reported one byte longer than it is. */
  lemma IntegerBareLf(i: int, rest: seq<byte>)
    requires I64Min <= i <= I64Max
    ensures Parse([COLON] + ToBytes(Decimal(i)) + [LF] + rest) == Ok(Integer(i), |[COLON] + ToBytes(Decimal(i)) + [LF]| + 1)
  {
    var b := ToBytes(Decimal(i));
    var input := [COLON] + b + [LF] + rest;
    DecimalBytes(i);
    BareLine(COLON, b, rest);
    assert input[1..|b| + 2] == b + [LF] + [];
    ParseIntegerOfBareLine(i);
    assert ParseIntegerValue(input) == Ok(Integer(i), |b| + 3);
    ParsesInteger(input);
    ParsesFromStart(input, Ok(Integer(i), |b| + 3));
  }

  lemma ParseIntegerOfBareLine(i: int)
    requires I64Min <= i <= I64Max
    ensures ParseInteger(ToBytes(Decimal(i)) + [LF] + []) == Success(i)
  {
    var line := ToBytes(Decimal(i));
    DecimalBytes(i);
    FindCrlfOfBareLine(line, []);
    assert (line + [LF] + [])[..|line|] == line;
    FromBytesOfToBytes(Decimal(i));
    TrimUnspaced(Decimal(i));
    UnescapeInert(Decimal(i));
    ParseDecimal(i);
  }

  // ---------------------------------------------------------------------
  // Arrays and consumption

  /** Names what parses at `pos`, so that a proof can look at it without unfolding `Parse`. */
  lemma Peek(input: seq<byte>, pos: nat) returns (p: Parsed)
    requires pos <= |input|
    ensures ParsesTo(input, pos, p)
  {
    p := ParseAt(input, pos);
  }

  /**
   * `vs` are the values parsed one after the other from index `start` of
   * `input`, each starting where the previous one ended, the last ending at `end`.
   */
  ghost predicate Consecutive(input: seq<byte>, vs: seq<RespValue>, start: nat, end: nat)
    decreases |vs|
  {
    if vs == [] then start == end
    else
      && start <= |input|
      && ParseAt(input, start).Ok?
      && ParseAt(input, start).value == vs[0]
      && Consecutive(input, vs[1..], start + ParseAt(input, start).consumed, end)
  }

  /** An outcome of the element loop from `at`: one value per remaining element, parsed back to back, ending no earlier than `at`. */
  ghost predicate WellShaped(input: seq<byte>, at: Cursor, count: nat, r: ParsedElements) {
    r.Elements? ==>
      && |r.values| == (if at.index < count then count - at.index else 0)
      && at.pos <= r.end
      && Consecutive(input, r.values, at.pos, r.end)
  }

  lemma ShapeStep(input: seq<byte>, at: Cursor, count: nat, v: RespValue, c: nat, r: ParsedElements)
    requires at.index < count && at.pos <= |input| && ParsesTo(input, at.pos, Ok(v, c))
    requires WellShaped(input, At(at.pos + c, at.index + 1), count, r)
    ensures WellShaped(input, at, count, PrependAll([v], r))
  {
    if r.Elements? {
      assert ([v] + r.values)[1..] == r.values;
    }
  }

  /** Every outcome of the element loop is well shaped. */
  lemma {:induction false} ElementsShape(input: seq<byte>, at: Cursor, count: nat)
    ensures WellShaped(input, at, count, ParseElements(input, at, count))
    decreases if at.pos <= |input| then |input| - at.pos else 0, if at.index < count then count - at.index else 0
  {
    if at.index < count && at.pos <= |input| {
      var p := Peek(input, at.pos);
      match p {
        case Ok(v, c) =>
          var next := At(at.pos + c, at.index + 1);
          ElementsStepOk(input, at, count, v, c);
          ElementsShape(input, next, count);
          ShapeStep(input, at, count, v, c, ParseElements(input, next, count));
        case Err(e) =>
          ElementsStepErr(input, at, count, e);
        case Abort =>
          ElementsStepAbort(input, at, count);
      }
    }
  }

  /**
   * A parsed array holds exactly the number of elements its header declares,
   * read back to back from the end of the header line up to the reported end.
   */
  lemma ArrayShape(input: seq<byte>, vs: seq<RespValue>, n: nat)
    requires Parse(input) == Ok(Array(vs), n)
    ensures input != [] && input[0] == STAR
    ensures ParseInteger(input[1..]) == Success(|vs|)
    ensures HeaderEnd(input) <= n && Consecutive(input, vs, HeaderEnd(input), n)
  {
    var count := ParseInteger(input[1..]).value;
    ElementsShape(input, At(HeaderEnd(input), 0), count);
  }

  /** A consumption of at least three bytes and at most two past the end of the `remaining` bytes. */
  ghost predicate ConsumedWithin(remaining: nat, p: Parsed) {
    p.Ok? ==> 3 <= p.consumed <= remaining + 2
  }

  /** The element loop from `at` never ends more than two bytes past the input. */
  ghost predicate EndsWithin(input: seq<byte>, at: Cursor, r: ParsedElements) {
    r.Elements? ==> at.pos <= r.end <= |input| + 2
  }

  lemma {:induction false} ParseBound(input: seq<byte>, pos: nat, p: Parsed)
    requires pos <= |input| && ParsesTo(input, pos, p)
    ensures ConsumedWithin(|input| - pos, p)
    decreases |input| - pos, 1, 0, 0
  {
    var s := input[pos..];
    assert s[0..] == s;
    if s != [] && s[0] == STAR && ParseInteger(s[1..]).Success? && ParseInteger(s[1..]).value >= 0 {
      var count := ParseInteger(s[1..]).value;
      var at := At(HeaderEnd(s), 0);
      ArrayStep(s, at.pos, count);
      ElementsBound(s, at, count);
    } else {
      assert Parse(s) == p;
    }
  }

  lemma {:induction false} ElementsBound(input: seq<byte>, at: Cursor, count: nat)
    requires 1 <= at.pos <= |input| + 2
    ensures EndsWithin(input, at, ParseElements(input, at, count))
    decreases |input|, 0, if at.pos <= |input| then |input| - at.pos else 0, if at.index < count then count - at.index else 0
  {
    if at.index < count && at.pos <= |input| {
      var p := Peek(input, at.pos);
      match p {
        case Ok(v, c) =>
          var next := At(at.pos + c, at.index + 1);
          ElementsStepOk(input, at, count, v, c);
          ParseBound(input, at.pos, p);
          ElementsBound(input, next, count);
        case Err(e) =>
          ElementsStepErr(input, at, count, e);
        case Abort =>
          ElementsStepAbort(input, at, count);
      }
    }
  }

  /**
   * Every successful parse consumes at least three bytes, and at most two
   * bytes more than the input holds (the terminator a bulk string or a bare
   * LF line is assumed to have).
   */
  lemma ConsumedBound(input: seq<byte>)
    ensures Parse(input).Ok? ==> 3 <= Parse(input).consumed <= |input| + 2
  {
    var p := Peek(input, 0);
    ParseBound(input, 0, p);
    ParsesFromStart(input, p);
  }
}
