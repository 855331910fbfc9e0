/**
 * The Go server's connection handling: `readCommand` reads one command from
 * the connection, either a RESP array of bulk strings or an inline line of
 * words, and `executeCommand` runs it against the store and produces the
 * reply text.
 *
 * The connection is the sequence of bytes the client sends until it closes
 * the connection; a read that needs more bytes than there are fails, as the
 * buffered reader does at end of input. Writing replies is not modelled:
 * they are returned.
 */
module GoServer {
  import opened Strings
  import opened Resp
  import opened GoSimpleStore

  /** The outcome of a read: a value and the bytes after it, an error (the connection is closed), or a panic. */
  datatype Read<T> = Got(value: T, rest: seq<byte>) | Failed | Panicked

  /** A line and the bytes after it. */
  datatype Split = Split(line: seq<byte>, rest: seq<byte>)

  /** `reader.ReadString('\n')`: the bytes up to and including the first LF; none when there is no LF. */
  function LineFrom(input: seq<byte>): (r: Option<Split>)
    ensures r.None? <==> LF !in input
    ensures r.Some? ==> input == r.value.line + r.value.rest && r.value.line != []
    ensures r.Some? ==> var line := r.value.line; line[|line| - 1] == LF && LF !in line[..|line| - 1]
  {
    IndexOfSpec(input, LF);
    match IndexOf(input, LF)
    case None => None
    case Some(i) =>
      assert input[..i + 1][..i] == input[..i];
      assert input == input[..i + 1] + input[i + 1..];
      Some(Split(input[..i + 1], input[i + 1..]))
  }

  /** A line read as `strconv.Atoi(strings.TrimSpace(line))`. */
  function NumberFrom(input: seq<byte>): (r: Read<int>)
    ensures !r.Panicked?
    ensures r.Got? ==> |r.rest| < |input| && I64Min <= r.value <= I64Max
  {
    match LineFrom(input)
    case None => Failed
    case Some(Split(line, rest)) =>
      match ParseInt64(Trim(FromBytes(line)))
      case None => Failed
      case Some(n) => Got(n, rest)
  }

  /** Go's `int` addition on a 64-bit target: the sum wrapped into the range of a signed 64-bit integer. */
  function AddInt64(a: int, b: int): (r: int)
    requires I64Min <= a <= I64Max && I64Min <= b <= I64Max
    ensures I64Min <= r <= I64Max
    ensures I64Min <= a + b <= I64Max ==> r == a + b
    ensures a + b > I64Max ==> r == a + b - 0x1_0000_0000_0000_0000
  {
    if a + b > I64Max then a + b - 0x1_0000_0000_0000_0000
    else if a + b < I64Min then a + b + 0x1_0000_0000_0000_0000
    else a + b
  }

  /**
   * One element of `readRESPArray`: `$`, a length line, then `length + 2`
   * bytes read in full, of which the first `length` are the string.
   * `make([]byte, length+2)` panics when the wrapped size is negative, and
   * `valueBytes[:length]` panics when the length is negative.
   */
  function ElementFrom(input: seq<byte>): (r: Read<Text>)
    ensures r.Got? ==> |r.rest| < |input|
  {
    if input == [] || input[0] != DOLLAR then Failed
    else match NumberFrom(input[1..])
      case Got(length, rest) =>
        var size := AddInt64(length, 2);
        if size < 0 then Panicked
        else if |rest| < size then Failed
        else if length < 0 then Panicked
        else Got(FromBytes(rest[..length]), rest[size..])
      case _ => Failed
  }

  /** Elements number `index` up to `count` (exclusive), read one after the other. */
  function ElementsFrom(input: seq<byte>, index: nat, count: nat): (r: Read<seq<Text>>)
    requires index <= count
    ensures r.Got? ==> |r.value| == count - index && |r.rest| <= |input|
    decreases count - index
  {
    if index == count then Got([], input)
    else match ElementFrom(input)
      case Failed => Failed
      case Panicked => Panicked
      case Got(word, rest) => Prepend([word], ElementsFrom(rest, index + 1, count))
  }

  lemma ElementsStep(input: seq<byte>, index: nat, count: nat, word: Text, rest: seq<byte>)
    requires index < count && ElementFrom(input) == Got(word, rest)
    ensures ElementsFrom(input, index, count) == Prepend([word], ElementsFrom(rest, index + 1, count))
  {
  }

  lemma ElementsStop(input: seq<byte>, index: nat, count: nat)
    requires index < count && !ElementFrom(input).Got?
    ensures ElementsFrom(input, index, count) == if ElementFrom(input).Failed? then Failed else Panicked
  {
  }

  function Prepend(words: seq<Text>, r: Read<seq<Text>>): Read<seq<Text>> {
    match r
    case Got(ws, rest) => Got(words + ws, rest)
    case _ => r
  }

  /** `readRESPArray`, after the `*`: the count line, then that many elements; `make([]string, count)` panics on a negative count. */
  function ArrayFrom(input: seq<byte>): (r: Read<seq<Text>>)
    ensures r.Got? ==> |r.rest| < |input|
  {
    match NumberFrom(input)
    case Got(count, rest) =>
      if count < 0 then Panicked else ElementsFrom(rest, 0, count)
    case _ => Failed
  }

  /** `readCommand`: a RESP array when the first byte is `*`, otherwise one line split into words. */
  function CommandFrom(input: seq<byte>): (r: Read<seq<Text>>)
    ensures r.Got? ==> |r.rest| < |input|
  {
    if input == [] then Failed
    else if input[0] == STAR then ArrayFrom(input[1..])
    else match LineFrom(input)
      case None => Failed
      case Some(Split(line, rest)) => Got(Fields(Trim(FromBytes(line))), rest)
  }

  lemma PrependNil(r: Read<seq<Text>>)
    ensures Prepend([], r) == r
  {
    if r.Got? {
      assert [] + r.value == r.value;
    }
  }

  lemma PrependAssoc(a: seq<Text>, b: seq<Text>, r: Read<seq<Text>>)
    ensures Prepend(a, Prepend(b, r)) == Prepend(a + b, r)
  {
    if r.Got? {
      assert a + (b + r.value) == (a + b) + r.value;
    }
  }

  /** Reading the element at `index` moves it from the elements still to read to the ones read. */
  lemma ElementsAdvance(done: seq<Text>, input: seq<byte>, index: nat, count: nat, word: Text, rest: seq<byte>, target: Read<seq<Text>>)
    requires index < count && ElementFrom(input) == Got(word, rest)
    requires Remaining(done, input, index, count, target)
    ensures Remaining(done + [word], rest, index + 1, count, target)
  {
    ElementsStep(input, index, count, word, rest);
    PrependAssoc(done, [word], ElementsFrom(rest, index + 1, count));
  }

  /** The elements read so far, `done`, followed by those read from `input` on, make up `target`. */
  ghost predicate Remaining(done: seq<Text>, input: seq<byte>, index: nat, count: nat, target: Read<seq<Text>>)
    requires index <= count
  {
    Prepend(done, ElementsFrom(input, index, count)) == target
  }

  /** One element read in the loop of `readRESPArray`. */
  method ReadElement(input: seq<byte>) returns (r: Read<Text>)
    ensures r == ElementFrom(input)
  {
    if input == [] || input[0] != DOLLAR {
      return Failed;
    }
    var header := NumberFrom(input[1..]);
    if !header.Got? {
      return Failed;
    }
    var length, rest := header.value, header.rest;
    var size := AddInt64(length, 2);
    if size < 0 {
      return Panicked;
    }
    if |rest| < size {
      return Failed;
    }
    if length < 0 {
      return Panicked;
    }
    r := Got(FromBytes(rest[..length]), rest[size..]);
  }

  /** `readRESPArray`: fills a slice of `count` strings, one element at a time. */
  method ReadRespArray(input: seq<byte>) returns (r: Read<seq<Text>>)
    ensures r == ArrayFrom(input)
  {
    var header := NumberFrom(input);
    if !header.Got? {
      return Failed;
    }
    var count := header.value;
    if count < 0 {
      return Panicked;
    }
    ghost var target := ArrayFrom(input);
    var command := new Text[count];
    var i := 0;
    var rest := header.rest;
    ghost var done: seq<Text> := [];
    PrependNil(ElementsFrom(rest, 0, count));
    while i < count
      invariant 0 <= i <= count && command.Length == count
      invariant command[..i] == done
      invariant Remaining(done, rest, i, count, target)
    {
      var element := ReadElement(rest);
      match element {
        case Failed =>
          assert target == Failed by {
            ElementsStop(rest, i, count);
          }
          return Failed;
        case Panicked =>
          assert target == Panicked by {
            ElementsStop(rest, i, count);
          }
          return Panicked;
        case Got(word, after) =>
          assert Remaining(done + [word], after, i + 1, count, target) by {
            ElementsAdvance(done, rest, i, count, word, after, target);
          }
          command[i] := word;
          done := done + [word];
          assert command[..i + 1] == done;
          rest := after;
          i := i + 1;
      }
    }
    assert target == Got(done, rest) by {
      assert ElementsFrom(rest, i, count) == Got([], rest);
      assert done + [] == done;
    }
    r := Got(command[..], rest);
    assert command[..] == command[..i];
  }

  /** `readCommand`. */
  method ReadCommand(input: seq<byte>) returns (r: Read<seq<Text>>)
    ensures r == CommandFrom(input)
  {
    if input == [] {
      return Failed;
    }
    if input[0] == STAR {
      r := ReadRespArray(input[1..]);
      return;
    }
    match LineFrom(input) {
      case None =>
        r := Failed;
      case Some(Split(line, rest)) =>
        r := Got(Fields(Trim(FromBytes(line))), rest);
    }
  }

  // ---------------------------------------------------------------------
  // What `readCommand` reads

  /** The bulk strings holding the bytes of the words. */
  function Encoded(words: seq<Text>): (vs: seq<RespValue>)
    ensures |vs| == |words|
    ensures forall i :: 0 <= i < |words| ==> vs[i] == BulkString(Some(ToBytes(words[i])))
  {
    if words == [] then [] else [BulkString(Some(ToBytes(words[0])))] + Encoded(words[1..])
  }

  /** A line free of LF, ended by CRLF, is read up to and including the LF. */
  lemma LineSplit(b: seq<byte>, rest: seq<byte>)
    requires LF !in b
    ensures LineFrom(b + CRLF + rest) == Some(Split(b + CRLF, rest))
  {
    var s := b + CRLF + rest;
    assert s[..|b| + 1] == b + [CR];
    IndexOfFirst(s, LF, |b| + 1);
    assert s[..|b| + 2] == b + CRLF;
    assert s[|b| + 2..] == rest;
  }

  /** The text of the bytes of `t` followed by CRLF. */
  lemma TextOfLine(t: Text)
    ensures FromBytes(ToBytes(t) + CRLF) == t + ['\r', '\n']
  {
    var s := FromBytes(ToBytes(t) + CRLF);
    assert forall i :: 0 <= i < |t| ==> s[i] == t[i];
  }

  /** A frame laid out as a type byte, a header line and a body, followed by more bytes. */
  lemma FrameLayout(p: byte, d: seq<byte>, body: seq<byte>, rest: seq<byte>)
    ensures ([p] + d + CRLF + body) + rest == [p] + (d + CRLF + (body + rest))
    ensures ([p] + (d + CRLF + (body + rest)))[1..] == d + CRLF + (body + rest)
  {
  }

  /** A bulk string laid out as `$`, its length line, its data and CRLF, followed by more bytes. */
  lemma BulkLayout(d: seq<byte>, b: seq<byte>, rest: seq<byte>)
    ensures ([DOLLAR] + d + CRLF + b + CRLF) + rest == [DOLLAR] + (d + CRLF + (b + CRLF + rest))
    ensures ([DOLLAR] + (d + CRLF + (b + CRLF + rest)))[1..] == d + CRLF + (b + CRLF + rest)
    ensures (b + CRLF + rest)[..|b|] == b && (b + CRLF + rest)[|b| + 2..] == rest
  {
  }

  /** A line holding the decimal text of a 64-bit integer, ended by CRLF, reads as that integer. */
  lemma NumberLine(n: int, rest: seq<byte>)
    requires I64Min <= n <= I64Max
    ensures NumberFrom(ToBytes(Decimal(n)) + CRLF + rest) == Got(n, rest)
  {
    DecimalBytes(n);
    LineSplit(ToBytes(Decimal(n)), rest);
    TextOfLine(Decimal(n));
    TrimCrlf(Decimal(n));
    ParseDecimal(n);
  }

  /** An element whose length line reads as `n`, with at least `n + 2` bytes after it. */
  lemma ElementOfHeader(input: seq<byte>, n: nat, after: seq<byte>)
    requires input != [] && input[0] == DOLLAR && NumberFrom(input[1..]) == Got(n, after)
    requires n + 2 <= I64Max && n + 2 <= |after|
    ensures ElementFrom(input) == Got(FromBytes(after[..n]), after[n + 2..])
  {
  }

  /** A bulk string holding the bytes of `w` reads as `w`. */
  lemma ElementLine(w: Text, rest: seq<byte>)
    requires |w| + 2 <= I64Max
    ensures ElementFrom(Serialize(BulkString(Some(ToBytes(w)))) + rest) == Got(w, rest)
  {
    var b := ToBytes(w);
    var d := ToBytes(Decimal(|b|));
    var after := b + CRLF + rest;
    var input := [DOLLAR] + (d + CRLF + after);
    assert Serialize(BulkString(Some(b))) + rest == input && input[1..] == d + CRLF + after
      && after[..|b|] == b && after[|b| + 2..] == rest by {
      BulkLayout(d, b, rest);
    }
    assert NumberFrom(input[1..]) == Got(|b|, after) by {
      NumberLine(|b|, after);
    }
    assert ElementFrom(input) == Got(FromBytes(b), rest) by {
      ElementOfHeader(input, |b|, after);
    }
    FromBytesOfToBytes(w);
  }

  /** Elements `index` up to `count` of an array, written as bulk strings, read back as the words. */
  lemma {:induction false} ElementsEncoded(words: seq<Text>, index: nat, count: nat, rest: seq<byte>)
    requires index + |words| == count
    requires forall i :: 0 <= i < |words| ==> |words[i]| + 2 <= I64Max
    ensures ElementsFrom(SerializeAll(Encoded(words)) + rest, index, count) == Got(words, rest)
    decreases |words|
  {
    if words == [] {
      assert SerializeAll(Encoded(words)) + rest == rest;
    } else {
      var first := Serialize(BulkString(Some(ToBytes(words[0]))));
      var tail := SerializeAll(Encoded(words[1..])) + rest;
      assert Encoded(words)[1..] == Encoded(words[1..]);
      assert SerializeAll(Encoded(words)) == first + SerializeAll(Encoded(words[1..]));
      AppendAssoc(first, SerializeAll(Encoded(words[1..])), rest);
      ElementLine(words[0], tail);
      ElementsEncoded(words[1..], index + 1, count, rest);
      ElementsStep(first + tail, index, count, words[0], tail);
      assert [words[0]] + words[1..] == words;
    }
  }

  /**
   * A RESP array of bulk strings, as `Serialize` writes it, reads back as its
   * words and leaves the bytes after it, when no length is large enough to
   * wrap around.
   */
  lemma ReadsEncoded(words: seq<Text>, rest: seq<byte>)
    requires |words| <= I64Max
    requires forall i :: 0 <= i < |words| ==> |words[i]| + 2 <= I64Max
    ensures CommandFrom(Serialize(Array(Encoded(words))) + rest) == Got(words, rest)
  {
    var body := SerializeAll(Encoded(words));
    FrameLayout(STAR, ToBytes(Decimal(|words|)), body, rest);
    assert Serialize(Array(Encoded(words))) + rest == [STAR] + (ToBytes(Decimal(|words|)) + CRLF + (body + rest));
    NumberLine(|words|, body + rest);
    ElementsEncoded(words, 0, |words|, rest);
  }

  /** A line of words separated by single spaces, ended by CRLF and not starting with `*`, reads back as the words. */
  lemma ReadsInline(words: seq<Text>, rest: seq<byte>)
    requires forall i :: 0 <= i < |words| ==> IsWord(words[i])
    requires words != [] ==> words[0] != [] && words[0][0] != '*'
    ensures CommandFrom(ToBytes(JoinSpaced(words)) + CRLF + rest) == Got(words, rest)
  {
    var t := JoinSpaced(words);
    var b := ToBytes(t);
    JoinSpacedShape(words);
    assert (b + CRLF + rest)[0] != STAR;
    assert LF !in b by {
      forall i | 0 <= i < |b|
        ensures b[i] != LF
      {
        assert t[i] != '\n';
      }
    }
    LineSplit(b, rest);
    TextOfLine(t);
    TrimCrlf(t);
    FieldsOfJoined(words);
  }

  /** A line of nothing but white space is an empty command. */
  lemma BlankLine(line: Text, rest: seq<byte>)
    requires forall i :: 0 <= i < |line| ==> IsSpace(line[i]) && line[i] != '\n'
    ensures CommandFrom(ToBytes(line) + CRLF + rest) == Got([], rest)
  {
    var b := ToBytes(line);
    var input := b + CRLF + rest;
    BlankSplit(line, rest);
    BlankText(line);
    assert Fields([]) == [];
  }

  /** The line read from a line of white space is all of it with its CRLF. */
  lemma BlankSplit(line: Text, rest: seq<byte>)
    requires forall i :: 0 <= i < |line| ==> IsSpace(line[i]) && line[i] != '\n'
    ensures var b := ToBytes(line);
      (b + CRLF + rest)[0] != STAR && LineFrom(b + CRLF + rest) == Some(Split(b + CRLF, rest))
  {
    var b := ToBytes(line);
    assert LF !in b by {
      forall i | 0 <= i < |b|
        ensures b[i] != LF
      {
        assert line[i] != '\n';
      }
    }
    LineSplit(b, rest);
  }

  /** A line of white space and its CRLF trims to nothing. */
  lemma BlankText(line: Text)
    requires forall i :: 0 <= i < |line| ==> IsSpace(line[i])
    ensures Trim(FromBytes(ToBytes(line) + CRLF)) == []
  {
    var s := line + ['\r', '\n'];
    var x := FromBytes(ToBytes(line) + CRLF);
    TextOfLine(line);
    assert x == s;
    BlankWithCrlf(line);
    BlankTrims(s);
    assert TrimLeft(x) == [];
  }

  /** A line of white space followed by CRLF is white space throughout. */
  lemma BlankWithCrlf(line: Text)
    requires forall i :: 0 <= i < |line| ==> IsSpace(line[i])
    ensures forall i :: 0 <= i < |line + ['\r', '\n']| ==> IsSpace((line + ['\r', '\n'])[i])
  {
    var s := line + ['\r', '\n'];
    forall i | 0 <= i < |s|
      ensures IsSpace(s[i])
    {
      if i < |line| {
        assert s[i] == line[i];
      }
    }
  }

  /** What follows the type byte of a frame: its header line and the bytes after it. */
  lemma AfterTypeByte(p: byte, line: seq<byte>, rest: seq<byte>)
    ensures ([p] + line + CRLF + rest)[1..] == line + CRLF + rest
  {
    var s := [p] + line + CRLF + rest;
    assert forall i :: 0 <= i < |s| - 1 ==> s[1..][i] == (line + CRLF + rest)[i];
  }

  /** A negative count in the array header makes `make([]string, count)` panic. */
  lemma NegativeCountPanics(n: int, rest: seq<byte>)
    requires I64Min <= n < 0
    ensures CommandFrom([STAR] + ToBytes(Decimal(n)) + CRLF + rest) == Panicked
  {
    var input := [STAR] + ToBytes(Decimal(n)) + CRLF + rest;
    AfterTypeByte(STAR, ToBytes(Decimal(n)), rest);
    NumberLine(n, rest);
  }

  /**
   * A bulk string of negative length `$-1` (the null bulk string) panics at
   * `valueBytes[:length]` once one more byte has arrived, and is a failed read
   * when the input ends there.
   */
  lemma NullElementPanics(rest: seq<byte>)
    ensures ElementFrom([DOLLAR] + ToBytes(Decimal(-1)) + CRLF + rest) == if rest == [] then Failed else Panicked
  {
    var input := [DOLLAR] + ToBytes(Decimal(-1)) + CRLF + rest;
    AfterTypeByte(DOLLAR, ToBytes(Decimal(-1)), rest);
    NumberLine(-1, rest);
  }

  /** A length so large that `length + 2` wraps around to a negative size makes `make` panic. */
  lemma HugeLengthPanics(n: int, rest: seq<byte>)
    requires I64Max - 1 <= n <= I64Max
    ensures ElementFrom([DOLLAR] + ToBytes(Decimal(n)) + CRLF + rest) == Panicked
  {
    var input := [DOLLAR] + ToBytes(Decimal(n)) + CRLF + rest;
    AfterTypeByte(DOLLAR, ToBytes(Decimal(n)), rest);
    NumberLine(n, rest);
  }

  // ---------------------------------------------------------------------
  // Executing commands

  const EmptyReply: Text := "-ERR empty command\r\n"
  const GetArity: Text := ArityReply("get")
  const SetArity: Text := ArityReply("set")
  const DelArity: Text := ArityReply("del")
  const UnknownReply: Text := "-ERR unknown command\r\n"
  const NilReply: Text := "$-1\r\n"
  const OkReply: Text := "+OK\r\n"
  const OneReply: Text := ":1\r\n"

  /** The reply to a command with the wrong number of arguments. */
  function ArityReply(verb: Text): Text {
    "-ERR wrong number " + "of arguments for '" + verb + "' command\r\n"
  }

  /** The reply to a GET that finds `value`: `$`, its length, CRLF, the value, CRLF. */
  function BulkReply(value: Text): Text {
    "$" + Decimal(|value|) + "\r\n" + value + "\r\n"
  }

  /**
   * `executeCommand`: the reply and the map afterwards. The verb is compared
   * after upper-casing; the arguments are used as they are.
   */
  function Execute(command: seq<Text>, data: map<Text, Text>): (r: (Text, map<Text, Text>))
    ensures r.1 != data ==> r.0 == OkReply || r.0 == OneReply
  {
    if |command| == 0 then (EmptyReply, data)
    else
      var verb := ToUpper(command[0]);
      if verb == "GET" then
        if |command| != 2 then (GetArity, data)
        else if command[1] in data then (BulkReply(data[command[1]]), data)
        else (NilReply, data)
      else if verb == "SET" then
        if |command| != 3 then (SetArity, data)
        else (OkReply, data[command[1] := command[2]])
      else if verb == "DEL" then
        if |command| != 2 then (DelArity, data)
        else (OneReply, data - {command[1]})
      else (UnknownReply, data)
  }

  /** `executeCommand` against the store object. */
  method ExecuteCommand(command: seq<Text>, store: SimpleStore) returns (response: Text)
    modifies store
    ensures (response, store.data) == Execute(command, old(store.data))
  {
    if |command| == 0 {
      return EmptyReply;
    }
    var verb := ToUpper(command[0]);
    if verb == "GET" {
      if |command| != 2 {
        return GetArity;
      }
      var value, found := store.Get(command[1]);
      if !found {
        return NilReply;
      }
      response := BulkReply(value);
    } else if verb == "SET" {
      if |command| != 3 {
        return SetArity;
      }
      store.Set(command[1], command[2]);
      response := OkReply;
    } else if verb == "DEL" {
      if |command| != 2 {
        return DelArity;
      }
      store.Delete(command[1]);
      response := OneReply;
    } else {
      response := UnknownReply;
    }
  }

  // ---------------------------------------------------------------------
  // The connection

  /** The replies to one connection, in order, the map afterwards, and whether reading panicked. */
  datatype Served = Served(replies: seq<Text>, data: map<Text, Text>, panicked: bool)

  function PrependReply(reply: Text, s: Served): Served {
    s.(replies := [reply] + s.replies)
  }

  /** The loop of `handleConnection`: read a command, answer it, until a read fails or panics. */
  function Serve(input: seq<byte>, data: map<Text, Text>): (r: Served)
    ensures |r.replies| <= |input|
    decreases |input|
  {
    match CommandFrom(input)
    case Failed => Served([], data, false)
    case Panicked => Served([], data, true)
    case Got(command, rest) =>
      var (reply, after) := Execute(command, data);
      PrependReply(reply, Serve(rest, after))
  }

  /** `handleConnection` over the bytes the client sends. */
  method HandleConnection(input: seq<byte>, store: SimpleStore) returns (replies: seq<Text>, panicked: bool)
    modifies store
    ensures Serve(input, old(store.data)) == Served(replies, store.data, panicked)
  {
    ghost var target := Serve(input, store.data);
    var rest := input;
    replies := [];
    while true
      invariant Serve(rest, store.data).(replies := replies + Serve(rest, store.data).replies) == target
      decreases |rest|
    {
      var command := ReadCommand(rest);
      match command {
        case Failed =>
          panicked := false;
          return;
        case Panicked =>
          panicked := true;
          return;
        case Got(words, after) =>
          ghost var before := store.data;
          var reply := ExecuteCommand(words, store);
          assert replies + ([reply] + Serve(after, store.data).replies) == (replies + [reply]) + Serve(after, store.data).replies;
          replies := replies + [reply];
          rest := after;
      }
    }
  }

  // ---------------------------------------------------------------------
  // Properties of `executeCommand`

  /** The verb is matched whatever its case: two verbs that upper-case alike give the same reply and map. */
  lemma VerbCaseInsensitive(a: Text, b: Text, args: seq<Text>, data: map<Text, Text>)
    requires ToUpper(a) == ToUpper(b)
    ensures Execute([a] + args, data) == Execute([b] + args, data)
  {
    assert ([a] + args)[1..] == args == ([b] + args)[1..];
  }

  /** A value set under a key is what a later GET of the key answers, in a bulk reply. */
  lemma SetThenGet(verbSet: Text, verbGet: Text, key: Text, value: Text, data: map<Text, Text>)
    requires ToUpper(verbSet) == "SET" && ToUpper(verbGet) == "GET"
    ensures Execute([verbSet, key, value], data) == (OkReply, data[key := value])
    ensures Execute([verbGet, key], data[key := value]) == (BulkReply(value), data[key := value])
  {
  }

  /** GET of an absent key answers the null bulk string. */
  lemma GetAbsent(verb: Text, key: Text, data: map<Text, Text>)
    requires ToUpper(verb) == "GET" && key !in data
    ensures Execute([verb, key], data) == (NilReply, data)
  {
  }

  /** DEL removes the key and answers `:1`, whether or not the key was there. */
  lemma DelAlwaysOne(verb: Text, key: Text, data: map<Text, Text>)
    requires ToUpper(verb) == "DEL"
    ensures Execute([verb, key], data) == (OneReply, data - {key})
    ensures key !in data ==> Execute([verb, key], data).1 == data
  {
  }

  /** A GET, SET or DEL with the wrong number of arguments answers its arity error and leaves the map alone. */
  lemma WrongArity(command: seq<Text>, data: map<Text, Text>)
    requires command != []
    requires var verb := ToUpper(command[0]);
      (verb == "GET" && |command| != 2) || (verb == "SET" && |command| != 3) || (verb == "DEL" && |command| != 2)
    ensures Execute(command, data).1 == data
    ensures Execute(command, data).0 in {GetArity, SetArity, DelArity}
  {
  }

  /** An unknown verb answers `-ERR unknown command` and leaves the map alone. */
  lemma UnknownVerb(command: seq<Text>, data: map<Text, Text>)
    requires command != [] && ToUpper(command[0]) !in {"GET", "SET", "DEL"}
    ensures Execute(command, data) == (UnknownReply, data)
  {
  }

  /** The map changes only through a SET or a DEL with the right number of arguments. */
  lemma ChangesOnlyByWrites(command: seq<Text>, data: map<Text, Text>)
    requires Execute(command, data).1 != data
    ensures (ToUpper(command[0]) == "SET" && |command| == 3 && Execute(command, data).0 == OkReply)
      || (ToUpper(command[0]) == "DEL" && |command| == 2 && Execute(command, data).0 == OneReply)
  {
  }

  /** The reply to a GET that finds a value is the RESP encoding of the value as a bulk string. */
  lemma BulkReplyIsResp(value: Text)
    ensures ToBytes(BulkReply(value)) == Serialize(BulkString(Some(ToBytes(value))))
  {
    var d := Decimal(|value|);
    var a := "$" + d;
    var b := a + "\r\n";
    var c := b + value;
    assert BulkReply(value) == c + "\r\n";
    ToBytesConcat("$", d);
    ToBytesConcat(a, "\r\n");
    ToBytesConcat(b, value);
    ToBytesConcat(c, "\r\n");
    assert ToBytes("$") == [DOLLAR] && ToBytes("\r\n") == CRLF;
  }

  /** The reply to a GET that finds nothing is the null bulk string. */
  lemma NilReplyIsResp()
    ensures ToBytes(NilReply) == Serialize(BulkString(None))
  {
    assert ToBytes(NilReply) == [DOLLAR, MINUS, 49, CR, LF];
  }

  /** The reply to a SET is the simple string `OK`. */
  lemma OkReplyIsResp()
    ensures ToBytes(OkReply) == Serialize(SimpleString("OK"))
  {
    assert ToBytes("OK") == [79, 75];
    assert ToBytes(OkReply) == [PLUS] + ToBytes("OK") + CRLF;
  }

  /** The reply to a DEL is the integer 1. */
  lemma OneReplyIsResp()
    ensures ToBytes(OneReply) == Serialize(Integer(1))
  {
    assert Decimal(1) == "1" && ToBytes("1") == [49];
    assert ToBytes(OneReply) == [COLON] + ToBytes(Decimal(1)) + CRLF;
  }

  /** The connection loop after reading one command: its reply, then the replies to what follows. */
  lemma ServeStep(input: seq<byte>, data: map<Text, Text>, command: seq<Text>, rest: seq<byte>, reply: Text, after: map<Text, Text>)
    requires CommandFrom(input) == Got(command, rest) && Execute(command, data) == (reply, after)
    ensures Serve(input, data) == PrependReply(reply, Serve(rest, after))
  {
  }

  /** Two commands read one after the other up to the end of the input: both answered in order. */
  lemma ServeTwo(f1: seq<byte>, f2: seq<byte>, first: seq<Text>, second: seq<Text>, data: map<Text, Text>)
    requires CommandFrom(f1 + f2) == Got(first, f2) && CommandFrom(f2) == Got(second, [])
    ensures var (r1, d1) := Execute(first, data);
      var (r2, d2) := Execute(second, d1);
      Serve(f1 + f2, data) == Served([r1, r2], d2, false)
  {
    var (r1, d1) := Execute(first, data);
    var (r2, d2) := Execute(second, d1);
    ServeStep(f1 + f2, data, first, f2, r1, d1);
    ServeStep(f2, d1, second, [], r2, d2);
    assert Serve([], d2) == Served([], d2, false);
  }

  /**
   * A connection that sends `SET key value` and then `GET key`, both as RESP
   * arrays of bulk strings, and then closes, gets `+OK` and the value back.
   */
  lemma ServeSetThenGet(key: Text, value: Text, data: map<Text, Text>)
    requires |key| + 2 <= I64Max && |value| + 2 <= I64Max
    ensures var setFrame := Serialize(Array(Encoded(["SET", key, value])));
      var getFrame := Serialize(Array(Encoded(["GET", key])));
      Serve(setFrame + getFrame, data) == Served([OkReply, BulkReply(value)], data[key := value], false)
  {
    var setFrame := Serialize(Array(Encoded(["SET", key, value])));
    var getFrame := Serialize(Array(Encoded(["GET", key])));
    assert CommandFrom(setFrame + getFrame) == Got(["SET", key, value], getFrame) by {
      ReadsEncoded(["SET", key, value], getFrame);
    }
    assert CommandFrom(getFrame) == Got(["GET", key], []) by {
      ReadsEncoded(["GET", key], []);
      assert getFrame + [] == getFrame;
    }
    assert ToUpper("SET") == "SET" && ToUpper("GET") == "GET";
    SetThenGet("SET", "GET", key, value, data);
    ServeTwo(setFrame, getFrame, ["SET", key, value], ["GET", key], data);
  }
}
