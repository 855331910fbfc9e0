/**
 * The RESP2 codec of the Rust server: the value type, the encoder and the
 * recursive-descent decoder with its line and integer helpers.
 *
 * The decoder returns `Ok(value, consumed)`, `Err(kind)` for the errors the
 * source reports, and `Abort` where the source panics (a slice index out of
 * range, a capacity computed from a negative count).
 */
module Resp {
  import opened Strings

  datatype RespValue =
    | SimpleString(text: Text)
    | Error(message: Text)
    | Integer(number: int)
    | BulkString(data: Option<seq<byte>>)
    | Array(elements: seq<RespValue>)

  datatype ErrorKind = InvalidData | LineEndingNotFound | InvalidInteger

  datatype Result<T> = Success(value: T) | Failure(error: ErrorKind)

  datatype Parsed =
    | Ok(value: RespValue, consumed: nat)
    | Err(error: ErrorKind)
    | Abort

  const STAR: byte := 42
  const DOLLAR: byte := 36
  const PLUS: byte := 43
  const MINUS: byte := 45
  const COLON: byte := 58

  // ---------------------------------------------------------------------
  // Encoding

  /** The header line of an array or a bulk string: the type byte, a decimal number and CRLF. */
  function Header(prefix: byte, n: int): seq<byte> {
    [prefix] + ToBytes(Decimal(n)) + CRLF
  }

  /** The byte that opens the frame of a value. */
  function TypeByte(v: RespValue): byte {
    match v
    case SimpleString(_) => PLUS
    case Error(_) => MINUS
    case Integer(_) => COLON
    case BulkString(_) => DOLLAR
    case Array(_) => STAR
  }

  /** The wire encoding of a value: a frame that opens with the value's type byte. */
  function Serialize(v: RespValue): (r: seq<byte>)
    ensures 3 <= |r| && r[0] == TypeByte(v)
    decreases v
  {
    match v
    case SimpleString(s) => [PLUS] + ToBytes(s) + CRLF
    case Error(s) => [MINUS] + ToBytes(s) + CRLF
    case Integer(i) => [COLON] + ToBytes(Decimal(i)) + CRLF
    case BulkString(Some(d)) => Header(DOLLAR, |d|) + d + CRLF
    case BulkString(None) => [DOLLAR, MINUS, 49] + CRLF
    case Array(xs) => Header(STAR, |xs|) + SerializeAll(xs)
  }

  /** The encodings of the values, concatenated in order. */
  function SerializeAll(vs: seq<RespValue>): seq<byte>
    decreases vs
  {
    if vs == [] then [] else Serialize(vs[0]) + SerializeAll(vs[1..])
  }

  lemma {:induction false} SerializeAllSnoc(vs: seq<RespValue>, v: RespValue)
    ensures SerializeAll(vs + [v]) == SerializeAll(vs) + Serialize(v)
  {
    var w := vs + [v];
    if vs == [] {
      assert w == [v] && w[1..] == [];
    } else {
      assert w[0] == vs[0] && w[1..] == vs[1..] + [v];
      var head, rest, last := Serialize(vs[0]), SerializeAll(vs[1..]), Serialize(v);
      SerializeAllSnoc(vs[1..], v);
      assert SerializeAll(w) == head + (rest + last);
      AppendAssoc(head, rest, last);
    }
  }

  lemma SerializeAllPrefix(vs: seq<RespValue>, i: nat)
    requires i < |vs|
    ensures SerializeAll(vs[..i + 1]) == SerializeAll(vs[..i]) + Serialize(vs[i])
  {
    assert vs[..i + 1] == vs[..i] + [vs[i]];
    SerializeAllSnoc(vs[..i], vs[i]);
  }

  lemma AppendAssoc(a: seq<byte>, b: seq<byte>, c: seq<byte>)
    ensures (a + b) + c == a + (b + c)
  {
  }

  /** `RespValue::serialize`: grows the result by appending each part in turn. */
  method Encode(v: RespValue) returns (result: seq<byte>)
    ensures result == Serialize(v)
    decreases v
  {
    match v {
      case SimpleString(s) =>
        result := [PLUS] + ToBytes(s) + CRLF;
      case Error(s) =>
        result := [MINUS] + ToBytes(s) + CRLF;
      case Integer(i) =>
        result := [COLON] + ToBytes(Decimal(i)) + CRLF;
      case BulkString(Some(d)) =>
        result := Header(DOLLAR, |d|);
        result := result + d;
        result := result + CRLF;
      case BulkString(None) =>
        result := [DOLLAR, MINUS, 49] + CRLF;
      case Array(xs) =>
        result := EncodeArray(xs);
    }
  }

  /** The array branch of `serialize`: the header, then each element's encoding appended in order. */
  method EncodeArray(xs: seq<RespValue>) returns (result: seq<byte>)
    ensures result == Header(STAR, |xs|) + SerializeAll(xs)
    decreases xs
  {
    result := Header(STAR, |xs|);
    var i := 0;
    while i < |xs|
      invariant 0 <= i <= |xs|
      invariant result == Header(STAR, |xs|) + SerializeAll(xs[..i])
    {
      var element := Encode(xs[i]);
      SerializeAllPrefix(xs, i);
      AppendAssoc(Header(STAR, |xs|), SerializeAll(xs[..i]), element);
      result := result + element;
      i := i + 1;
    }
    assert xs[..|xs|] == xs;
  }

  // ---------------------------------------------------------------------
  // Line and integer helpers

  /** The index of the first occurrence of `b` in `s`. */
  function IndexOf(s: seq<byte>, b: byte): (r: Option<nat>)
    ensures r.Some? ==> r.value < |s| && s[r.value] == b
  {
    if s == [] then None
    else if s[0] == b then Some(0)
    else match IndexOf(s[1..], b)
      case None => None
      case Some(p) => Some(p + 1)
  }

  /**
   * `find_crlf`: the index where the first line of `s` ends. That is the
   * first LF, or the CR just before it when there is one.
   */
  function FindCrlf(s: seq<byte>): (r: Option<nat>)
    ensures r.Some? ==> r.value < |s| && (s[r.value] == LF || s[r.value] == CR)
  {
    match IndexOf(s, LF)
    case None => None
    case Some(p) => if p > 0 && s[p - 1] == CR then Some(p - 1) else Some(p)
  }

  lemma {:induction false} IndexOfSpec(s: seq<byte>, b: byte)
    ensures IndexOf(s, b).None? <==> b !in s
    ensures IndexOf(s, b).Some? ==> b !in s[..IndexOf(s, b).value]
  {
    if s != [] && s[0] != b {
      IndexOfSpec(s[1..], b);
      if IndexOf(s[1..], b).Some? {
        var p := IndexOf(s[1..], b).value;
        assert s[..p + 1] == [s[0]] + s[1..][..p];
      } else {
        assert s == [s[0]] + s[1..];
      }
    }
  }

  /** The line of `s` ends at the first LF: at that LF, or at the CR right before it. */
  lemma FindCrlfSpec(s: seq<byte>)
    ensures FindCrlf(s).None? <==> LF !in s
    ensures FindCrlf(s).Some? ==>
      var e := FindCrlf(s).value;
      && LF !in s[..e]
      && ((s[e] == LF && (e == 0 || s[e - 1] != CR))
          || (s[e] == CR && e + 1 < |s| && s[e + 1] == LF))
  {
    IndexOfSpec(s, LF);
    if IndexOf(s, LF).Some? {
      var p := IndexOf(s, LF).value;
      if p > 0 && s[p - 1] == CR {
        assert s[..p - 1] <= s[..p];
      }
    }
  }

  /** `IndexOf` finds the first occurrence. */
  lemma {:induction false} IndexOfFirst(s: seq<byte>, b: byte, k: nat)
    requires k < |s| && s[k] == b && b !in s[..k]
    ensures IndexOf(s, b) == Some(k)
    decreases k
  {
    if k > 0 {
      assert s[..k][0] == s[0];
      assert s[1..][..k - 1] == s[..k][1..];
      IndexOfFirst(s[1..], b, k - 1);
    }
  }

  /** The bytes of a decimal number hold no line terminator. */
  lemma DecimalBytes(n: int)
    ensures LF !in ToBytes(Decimal(n)) && CR !in ToBytes(Decimal(n))
  {
    var b := ToBytes(Decimal(n));
    assert forall i :: 0 <= i < |b| ==> b[i] != LF && b[i] != CR;
  }

  /** Replaces, from left to right and without overlap, each `a b` pair in `s` by `c` (`str::replace`). */
  function ReplacePair(s: Text, a: Char8, b: Char8, c: Char8): (r: Text)
    ensures |r| <= |s|
    ensures a !in s ==> r == s
  {
    if |s| < 2 then s
    else if s[0] == a && s[1] == b then [c] + ReplacePair(s[2..], a, b, c)
    else [s[0]] + ReplacePair(s[1..], a, b, c)
  }

  /** `unescape`: the two-character sequences `\r` and `\n` become CR and LF. */
  function Unescape(s: Text): (r: Text)
    ensures |r| <= |s|
    ensures '\\' !in s ==> r == s
  {
    ReplacePair(ReplacePair(s, '\\', 'r', '\r'), '\\', 'n', '\n')
  }

  /** `parse_integer`: the first line of `input`, trimmed and un-escaped, read as an i64. */
  function ParseInteger(input: seq<byte>): (r: Result<int>)
    ensures r.Success? ==> FindCrlf(input).Some? && I64Min <= r.value <= I64Max
  {
    match FindCrlf(input)
    case None => Failure(LineEndingNotFound)
    case Some(end) =>
      match ParseInt64(Unescape(Trim(FromBytes(input[..end]))))
      case None => Failure(InvalidInteger)
      case Some(n) => Success(n)
  }

  /** Where the header line that starts at index 1 of `input` ends, counting two terminator bytes. */
  function HeaderEnd(input: seq<byte>): nat
    requires 1 <= |input| && FindCrlf(input[1..]).Some?
  {
    1 + FindCrlf(input[1..]).value + 2
  }

  // ---------------------------------------------------------------------
  // Decoding

  /** `parse_simple_string`. */
  function ParseSimpleString(input: seq<byte>): (r: Parsed)
    requires input != [] && input[0] == PLUS
    ensures r.Err? <==> LF !in input
    ensures r.Ok? ==> r.value.SimpleString? && 3 <= r.consumed <= |input| + 1
  {
    FindCrlfSpec(input);
    match FindCrlf(input)
    case None => Err(LineEndingNotFound)
    case Some(end) => Ok(SimpleString(FromBytes(input[1..end])), end + 2)
  }

  /** `parse_error`. */
  function ParseError(input: seq<byte>): (r: Parsed)
    requires input != [] && input[0] == MINUS
    ensures r.Err? <==> LF !in input
    ensures r.Ok? ==> r.value.Error? && 3 <= r.consumed <= |input| + 1
  {
    FindCrlfSpec(input);
    match FindCrlf(input)
    case None => Err(LineEndingNotFound)
    case Some(end) => Ok(Error(FromBytes(input[1..end])), end + 2)
  }

  /**
   * `parse_integer_value`: the text handed to `parse_integer` runs from index 1
   * up to and including index `end`, which is the CR of a CRLF terminator.
   */
  function ParseIntegerValue(input: seq<byte>): (r: Parsed)
    ensures r.Ok? ==> r.value.Integer? && I64Min <= r.value.number <= I64Max
  {
    match FindCrlf(input)
    case None => Err(LineEndingNotFound)
    case Some(end) =>
      match ParseInteger(input[1..end + 1])
      case Failure(e) => Err(e)
      case Success(n) => Ok(Integer(n), end + 2)
  }

  /** The `$` branch of `parse`. */
  function ParseBulkString(input: seq<byte>): (r: Parsed)
    requires input != [] && input[0] == DOLLAR
    ensures r.Ok? ==> r.value.BulkString? && r.consumed <= |input| + 2
  {
    match ParseInteger(input[1..])
    case Failure(e) => Err(e)
    case Success(len) =>
      var pos := HeaderEnd(input);
      if len == -1 then Ok(BulkString(None), pos)
      else if len < 0 || pos + len > |input| then Abort
      else Ok(BulkString(Some(input[pos..pos + len])), pos + len + 2)
  }

  datatype ParsedElements =
    | Elements(values: seq<RespValue>, end: nat)
    | ElementsErr(error: ErrorKind)
    | ElementsAbort

  /** The array branch of `Parse`, stated for the header end `start` and the count `n` read from the header. */
  lemma ArrayStep(input: seq<byte>, start: nat, n: nat)
    requires input != [] && input[0] == STAR && ParseInteger(input[1..]) == Success(n) && start == HeaderEnd(input)
    ensures Parse(input) == match ParseElements(input, At(start, 0), n)
      case Elements(vs, end) => Ok(Array(vs), end)
      case ElementsErr(e) => Err(e)
      case ElementsAbort => Abort
  {
  }

  /** Puts `vs` in front of the elements of a successful outcome. */
  function PrependAll(vs: seq<RespValue>, r: ParsedElements): ParsedElements {
    match r
    case Elements(ws, e) => Elements(vs + ws, e)
    case _ => r
  }

  /** `parse`: one value from the front of `input`. */
  function Parse(input: seq<byte>): (r: Parsed)
    decreases |input|, 0, 0
  {
    if input == [] then Err(InvalidData)
    else if input[0] == STAR then
      match ParseInteger(input[1..])
      case Failure(e) => Err(e)
      case Success(count) =>
        if count < 0 then Abort
        else match ParseElements(input, At(HeaderEnd(input), 0), count)
          case Elements(vs, end) => Ok(Array(vs), end)
          case ElementsErr(e) => Err(e)
          case ElementsAbort => Abort
    else if input[0] == DOLLAR then ParseBulkString(input)
    else if input[0] == PLUS then ParseSimpleString(input)
    else if input[0] == MINUS then ParseError(input)
    else if input[0] == COLON then ParseIntegerValue(input)
    else Err(InvalidData)
  }

  /** `RespValue::parse(&input[pos..])`: the value that starts at index `pos`. */
  function ParseAt(input: seq<byte>, pos: nat): (r: Parsed)
    requires pos <= |input|
    decreases |input| - pos, 0, 1
  {
    Parse(input[pos..])
  }

  /** Parsing at `pos` gives `p` (a named predicate, so that stating it does not unfold `Parse`). */
  ghost predicate ParsesTo(input: seq<byte>, pos: nat, p: Parsed)
    requires pos <= |input|
  {
    ParseAt(input, pos) == p
  }

  /** Where the element loop stands: the index into the input and the number of elements parsed. */
  datatype Cursor = At(pos: nat, index: nat)

  /**
   * Array elements number `at.index` up to `count` (exclusive), the first of
   * them starting at index `at.pos` of `input`, parsed one after the other.
   */
  function ParseElements(input: seq<byte>, at: Cursor, count: nat): (r: ParsedElements)
    decreases if at.pos <= |input| then |input| - at.pos else 0, if at.index < count then count - at.index else 0
  {
    if count <= at.index then Elements([], at.pos)
    else if at.pos > |input| then ElementsAbort
    else match ParseAt(input, at.pos)
      case Err(e) => ElementsErr(e)
      case Abort => ElementsAbort
      case Ok(v, c) => PrependAll([v], ParseElements(input, At(at.pos + c, at.index + 1), count))
  }

  /** `ParseElements` when the value at the cursor parses: that value, then the rest from the next cursor. */
  lemma ElementsStepOk(input: seq<byte>, at: Cursor, count: nat, v: RespValue, c: nat)
    requires at.index < count && at.pos <= |input| && ParsesTo(input, at.pos, Ok(v, c))
    ensures ParseElements(input, at, count) == PrependAll([v], ParseElements(input, At(at.pos + c, at.index + 1), count))
  {
  }

  /** `ParseElements` when the value at the cursor fails to parse. */
  lemma ElementsStepErr(input: seq<byte>, at: Cursor, count: nat, e: ErrorKind)
    requires at.index < count && at.pos <= |input| && ParsesTo(input, at.pos, Err(e))
    ensures ParseElements(input, at, count) == ElementsErr(e)
  {
  }

  /** `ParseElements` when parsing the value at the cursor panics. */
  lemma ElementsStepAbort(input: seq<byte>, at: Cursor, count: nat)
    requires at.index < count && at.pos <= |input| && ParsesTo(input, at.pos, Abort)
    ensures ParseElements(input, at, count) == ElementsAbort
  {
  }

  /** `ParseElements` after the value at the cursor is parsed, whatever the outcome. */
  lemma ElementsStep(input: seq<byte>, at: Cursor, count: nat, p: Parsed)
    requires at.index < count && at.pos <= |input| && ParsesTo(input, at.pos, p)
    ensures p.Err? ==> ParseElements(input, at, count) == ElementsErr(p.error)
    ensures p.Abort? ==> ParseElements(input, at, count) == ElementsAbort
    ensures p.Ok? ==>
      ParseElements(input, at, count) == PrependAll([p.value], ParseElements(input, At(at.pos + p.consumed, at.index + 1), count))
  {
  }

  lemma PrependAllNil(r: ParsedElements)
    ensures PrependAll([], r) == r
  {
    if r.Elements? {
      assert [] + r.values == r.values;
    }
  }

  lemma PrependAllAssoc(a: seq<RespValue>, b: seq<RespValue>, r: ParsedElements)
    ensures PrependAll(a, PrependAll(b, r)) == PrependAll(a + b, r)
  {
    if r.Elements? {
      assert a + (b + r.values) == (a + b) + r.values;
    }
  }

  /** `RespValue::parse`. */
  method Decode(input: seq<byte>) returns (r: Parsed)
    ensures r == Parse(input)
    decreases |input|, 3
  {
    if input == [] {
      r := Err(InvalidData);
    } else if input[0] == STAR {
      r := DecodeArray(input);
    } else if input[0] == DOLLAR {
      r := ParseBulkString(input);
    } else if input[0] == PLUS {
      r := ParseSimpleString(input);
    } else if input[0] == MINUS {
      r := ParseError(input);
    } else if input[0] == COLON {
      r := ParseIntegerValue(input);
    } else {
      r := Err(InvalidData);
    }
  }

  /** The array branch of `parse`: the count, then the elements that follow the header line. */
  method DecodeArray(input: seq<byte>) returns (r: Parsed)
    requires input != [] && input[0] == STAR
    ensures r == Parse(input)
    decreases |input|, 2
  {
    var countResult := ParseInteger(input[1..]);
    if countResult.Failure? {
      return Err(countResult.error);
    }
    var count := countResult.value;
    if count < 0 {
      return Abort;
    }
    var start := HeaderEnd(input);
    var elements := DecodeElements(input, start, count);
    ArrayStep(input, start, count);
    match elements {
      case Elements(vs, end) => r := Ok(Array(vs), end);
      case ElementsErr(e) => r := Err(e);
      case ElementsAbort => r := Abort;
    }
  }

  /** The element loop of the array branch: decodes `count` elements, pushing each and advancing `pos`. */
  method DecodeElements(input: seq<byte>, start: nat, count: nat) returns (r: ParsedElements)
    requires 1 <= start
    ensures r == ParseElements(input, At(start, 0), count)
    decreases |input|, 1
  {
    ghost var target := ParseElements(input, At(start, 0), count);
    var at := At(start, 0);
    var values: seq<RespValue> := [];
    PrependAllNil(target);
    while at.index < count
      invariant start <= at.pos
      invariant PrependAll(values, ParseElements(input, at, count)) == target
      decreases count - at.index
    {
      if at.pos > |input| {
        return ElementsAbort;
      }
      var element := DecodeElement(input, at, count);
      match element {
        case Err(e) => return ElementsErr(e);
        case Abort => return ElementsAbort;
        case Ok(v, _) =>
          PrependAllAssoc(values, [v], ParseElements(input, At(at.pos + element.consumed, at.index + 1), count));
          values := values + [v];
          at := At(at.pos + element.consumed, at.index + 1);
      }
    }
    r := Elements(values, at.pos);
  }

  /** One turn of the element loop: the element at `pos`, and what it does to the rest of the array. */
  method DecodeElement(input: seq<byte>, at: Cursor, count: nat) returns (element: Parsed)
    requires at.index < count && 1 <= at.pos <= |input|
    ensures element.Err? ==> ParseElements(input, at, count) == ElementsErr(element.error)
    ensures element.Abort? ==> ParseElements(input, at, count) == ElementsAbort
    ensures element.Ok? ==>
      ParseElements(input, at, count) == PrependAll([element.value], ParseElements(input, At(at.pos + element.consumed, at.index + 1), count))
    decreases |input|, 0
  {
    element := Decode(input[at.pos..]);
    ElementsStep(input, at, count, element);
  }
}
