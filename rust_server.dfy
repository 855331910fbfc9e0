/**
 * The command handling of the Rust server: `handle_command`, which maps a
 * decoded frame to GET, SET or DEL on the store, and the loop of
 * `handle_connection` that appends received bytes to a buffer and answers
 * the frames at its front, one reply per frame, in order.
 *
 * Sockets are not modelled: received bytes are a parameter, and the replies
 * the loop would write are returned. Every write is taken to succeed.
 */
module RustServer {
  import opened Strings
  import opened Resp
  import opened RespProperties
  import opened RustStore

  /** What handling one command leads to: a reply, or a panic (`parts[i]` past the end of the array). */
  datatype Outcome = Replied(reply: RespValue) | Panicked

  const GET: seq<byte> := [71, 69, 84]
  const SET: seq<byte> := [83, 69, 84]
  const DEL: seq<byte> := [68, 69, 76]

  const OkReply: RespValue := SimpleString("OK")

  /** The frame a client sends for a command: an array of bulk strings. */
  function Command(words: seq<seq<byte>>): (c: RespValue)
    ensures c.Array? && |c.elements| == |words|
    ensures forall i :: 0 <= i < |words| ==> c.elements[i] == BulkString(Some(words[i]))
  {
    if words == [] then Array([]) else Array([BulkString(Some(words[0]))] + Command(words[1..]).elements)
  }

  predicate IsBulk(v: RespValue) {
    v.BulkString? && v.data.Some?
  }

  /**
   * `handle_command`: the outcome and the map afterwards. The verb must be a
   * bulk string equal byte for byte to `GET`, `SET` or `DEL`; a missing key or
   * value panics; keys and values are read from their bytes.
   */
  function Dispatch(command: RespValue, data: map<Text, Text>): (r: (Outcome, map<Text, Text>))
    ensures r.0.Panicked? ==> r.1 == data
    ensures r.1 != data ==> r.0 == Replied(OkReply)
  {
    match command
    case Array(parts) =>
      if |parts| < 1 then (Replied(Error("Invalid command")), data)
      else if parts[0] == BulkString(Some(GET)) then
        if |parts| < 2 then (Panicked, data)
        else if IsBulk(parts[1]) then
          var key := FromBytes(parts[1].data.value);
          (Replied(if key in data then BulkString(Some(ToBytes(data[key]))) else BulkString(None)), data)
        else (Replied(Error("Invalid GET command")), data)
      else if parts[0] == BulkString(Some(SET)) then
        if |parts| < 3 then (Panicked, data)
        else if IsBulk(parts[1]) && IsBulk(parts[2]) then
          (Replied(OkReply), data[FromBytes(parts[1].data.value) := FromBytes(parts[2].data.value)])
        else (Replied(Error("Invalid SET command")), data)
      else if parts[0] == BulkString(Some(DEL)) then
        if |parts| < 2 then (Panicked, data)
        else if IsBulk(parts[1]) then (Replied(OkReply), data - {FromBytes(parts[1].data.value)})
        else (Replied(Error("Invalid DEL command")), data)
      else (Replied(Error("Unknown command")), data)
    case _ => (Replied(Error("Invalid command format")), data)
  }

  /** `handle_command` against the store object. */
  method HandleCommand(command: RespValue, store: Store) returns (outcome: Outcome)
    modifies store
    ensures (outcome, store.data) == Dispatch(command, old(store.data))
  {
    if !command.Array? {
      return Replied(Error("Invalid command format"));
    }
    var parts := command.elements;
    if |parts| < 1 {
      return Replied(Error("Invalid command"));
    }
    if parts[0] == BulkString(Some(GET)) {
      if |parts| < 2 {
        return Panicked;
      }
      if IsBulk(parts[1]) {
        var value := store.Get(FromBytes(parts[1].data.value));
        match value {
          case Some(v) => outcome := Replied(BulkString(Some(ToBytes(v))));
          case None => outcome := Replied(BulkString(None));
        }
      } else {
        outcome := Replied(Error("Invalid GET command"));
      }
    } else if parts[0] == BulkString(Some(SET)) {
      if |parts| < 3 {
        return Panicked;
      }
      if IsBulk(parts[1]) && IsBulk(parts[2]) {
        store.Set(FromBytes(parts[1].data.value), FromBytes(parts[2].data.value));
        outcome := Replied(OkReply);
      } else {
        outcome := Replied(Error("Invalid SET command"));
      }
    } else if parts[0] == BulkString(Some(DEL)) {
      if |parts| < 2 {
        return Panicked;
      }
      if IsBulk(parts[1]) {
        store.Delete(FromBytes(parts[1].data.value));
        outcome := Replied(OkReply);
      } else {
        outcome := Replied(Error("Invalid DEL command"));
      }
    } else {
      outcome := Replied(Error("Unknown command"));
    }
  }

  // ---------------------------------------------------------------------
  // Properties of the dispatcher

  /** A value set under a key is read back under that key, byte for byte. */
  lemma SetThenGet(key: seq<byte>, value: seq<byte>, data: map<Text, Text>)
    ensures Dispatch(Command([SET, key, value]), data).0 == Replied(OkReply)
    ensures var after := Dispatch(Command([SET, key, value]), data).1;
      Dispatch(Command([GET, key]), after) == (Replied(BulkString(Some(value))), after)
  {
    ToBytesOfFromBytes(value);
  }

  /** SET changes the mapping of its key and no other. */
  lemma SetOthers(key: seq<byte>, value: seq<byte>, other: seq<byte>, data: map<Text, Text>)
    requires FromBytes(other) != FromBytes(key)
    ensures var after := Dispatch(Command([SET, key, value]), data).1;
      Dispatch(Command([GET, other]), after).0 == Dispatch(Command([GET, other]), data).0
  {
  }

  /** After DEL the key reads as absent, and DEL replies OK whether or not the key was there. */
  lemma DelThenGet(key: seq<byte>, data: map<Text, Text>)
    ensures Dispatch(Command([DEL, key]), data).0 == Replied(OkReply)
    ensures var after := Dispatch(Command([DEL, key]), data).1;
      Dispatch(Command([GET, key]), after) == (Replied(BulkString(None)), after)
  {
  }

  /** DEL of an absent key changes nothing. */
  lemma DelAbsent(key: seq<byte>, data: map<Text, Text>)
    requires FromBytes(key) !in data
    ensures Dispatch(Command([DEL, key]), data) == (Replied(OkReply), data)
  {
    assert data - {FromBytes(key)} == data;
  }

  /** GET never changes the store. */
  lemma GetReadOnly(parts: seq<RespValue>, data: map<Text, Text>)
    requires parts != [] && parts[0] == BulkString(Some(GET))
    ensures Dispatch(Array(parts), data).1 == data
  {
  }

  /** A verb other than the exact bytes `GET`, `SET`, `DEL` (so `get` too) is unknown, and the store is unchanged. */
  lemma UnknownVerb(parts: seq<RespValue>, data: map<Text, Text>)
    requires parts != [] && parts[0] != BulkString(Some(GET)) && parts[0] != BulkString(Some(SET)) && parts[0] != BulkString(Some(DEL))
    ensures Dispatch(Array(parts), data) == (Replied(Error("Unknown command")), data)
  {
  }

  /** The lower-case verb `get` is not `GET`. */
  lemma LowercaseVerb(key: seq<byte>, data: map<Text, Text>)
    ensures Dispatch(Command([[103, 101, 116], key]), data) == (Replied(Error("Unknown command")), data)
  {
    assert [103, 101, 116] != GET;
  }

  /** The store changes only when the reply is `OK`, and only by a SET or a DEL. */
  lemma ChangesOnlyOnOk(command: RespValue, data: map<Text, Text>)
    requires Dispatch(command, data).1 != data
    ensures Dispatch(command, data).0 == Replied(OkReply)
    ensures command.Array? && |command.elements| >= 2
    ensures command.elements[0] == BulkString(Some(SET)) || command.elements[0] == BulkString(Some(DEL))
  {
  }

  /** A GET, SET or DEL without its key (or value) indexes past the parts and panics. */
  lemma MissingOperandPanics(verb: seq<byte>, data: map<Text, Text>)
    requires verb == GET || verb == SET || verb == DEL
    ensures Dispatch(Command([verb]), data) == (Panicked, data)
  {
  }

  // ---------------------------------------------------------------------
  // The connection buffer

  /** What draining leaves: the replies in order, the buffer, the map, and whether the connection task panicked. */
  datatype Drained = Drained(replies: seq<RespValue>, buffer: seq<byte>, data: map<Text, Text>, panicked: bool)

  function PrependReplies(rs: seq<RespValue>, d: Drained): Drained {
    d.(replies := rs + d.replies)
  }

  /**
   * The inner loop of `handle_connection`: while the buffer is not empty,
   * parse a frame at its front; on success remove the consumed bytes
   * (panicking when there are fewer) and answer the command; on a parse
   * error stop and keep the buffer for the next read.
   */
  function DrainSpec(buffer: seq<byte>, data: map<Text, Text>): (r: Drained)
    ensures |r.buffer| <= |buffer| && r.buffer == buffer[|buffer| - |r.buffer|..]
    ensures !r.panicked ==> r.buffer == [] || ParseAt(r.buffer, 0).Err?
    decreases |buffer|
  {
    if buffer == [] then Drained([], buffer, data, false)
    else match ParseAt(buffer, 0)
      case Err(_) => Drained([], buffer, data, false)
      case Abort => Drained([], buffer, data, true)
      case Ok(v, n) =>
        if n > |buffer| then Drained([], buffer, data, true)
        else
          ParseBound(buffer, 0, ParseAt(buffer, 0));
          var (outcome, after) := Dispatch(v, data);
          if outcome.Panicked? then Drained([], buffer[n..], after, true)
          else PrependReplies([outcome.reply], DrainSpec(buffer[n..], after))
  }

  lemma DrainStepStop(buffer: seq<byte>, data: map<Text, Text>, p: Parsed)
    requires buffer != [] && ParsesTo(buffer, 0, p) && !p.Ok?
    ensures DrainSpec(buffer, data) == Drained([], buffer, data, p.Abort?)
  {
  }

  lemma DrainStepOverrun(buffer: seq<byte>, data: map<Text, Text>, v: RespValue, n: nat)
    requires buffer != [] && ParsesTo(buffer, 0, Ok(v, n)) && n > |buffer|
    ensures DrainSpec(buffer, data) == Drained([], buffer, data, true)
  {
  }

  lemma DrainStepOk(buffer: seq<byte>, data: map<Text, Text>, v: RespValue, n: nat)
    requires buffer != [] && ParsesTo(buffer, 0, Ok(v, n)) && n <= |buffer|
    ensures var (outcome, after) := Dispatch(v, data);
      DrainSpec(buffer, data) ==
        if outcome.Panicked? then Drained([], buffer[n..], after, true)
        else PrependReplies([outcome.reply], DrainSpec(buffer[n..], after))
  {
  }

  lemma PrependRepliesNil(d: Drained)
    ensures PrependReplies([], d) == d
  {
    assert [] + d.replies == d.replies;
  }

  lemma PrependRepliesAssoc(a: seq<RespValue>, b: seq<RespValue>, d: Drained)
    ensures PrependReplies(a, PrependReplies(b, d)) == PrependReplies(a + b, d)
  {
    assert a + (b + d.replies) == (a + b) + d.replies;
  }

  /**
   * Commands handled one after the other, as the loop meets them: the
   * replies up to the first panic, the map, and, after a panic, the encoding
   * of the commands not yet handled.
   */
  function Run(commands: seq<RespValue>, data: map<Text, Text>): Drained
    decreases |commands|
  {
    if commands == [] then Drained([], [], data, false)
    else
      var (outcome, after) := Dispatch(commands[0], data);
      if outcome.Panicked? then Drained([], SerializeAll(commands[1..]), after, true)
      else PrependReplies([outcome.reply], Run(commands[1..], after))
  }

  /**
   * A buffer holding the encodings of several commands is answered exactly
   * as if the commands were handled one at a time, in order, and is left
   * empty unless a command panicked.
   */
  lemma {:induction false} DrainSerialized(commands: seq<RespValue>, data: map<Text, Text>)
    requires forall i :: 0 <= i < |commands| ==> Encodable(commands[i])
    ensures DrainSpec(SerializeAll(commands), data) == Run(commands, data)
    decreases |commands|
  {
    if commands != [] {
      var head := Serialize(commands[0]);
      var tail := SerializeAll(commands[1..]);
      var buffer := head + tail;
      assert buffer == SerializeAll(commands);
      RoundTrip(commands[0], tail);
      assert ParsesTo(buffer, 0, Ok(commands[0], |head|)) by {
        assert buffer[0..] == buffer;
      }
      assert head != [];
      DrainStepOk(buffer, data, commands[0], |head|);
      DropAppend(head, tail);
      var (outcome, after) := Dispatch(commands[0], data);
      if !outcome.Panicked? {
        DrainSerialized(commands[1..], after);
      }
    }
  }

  /** A command made of bulk strings is one that `parse` reads back from its encoding. */
  lemma CommandEncodable(words: seq<seq<byte>>)
    requires |words| <= I64Max && forall i :: 0 <= i < |words| ==> |words[i]| <= I64Max
    ensures Encodable(Command(words))
  {
  }

  /** Handling commands in order: the first one's reply, then the replies to the rest. */
  lemma RunStep(commands: seq<RespValue>, data: map<Text, Text>, reply: RespValue, after: map<Text, Text>)
    requires commands != [] && Dispatch(commands[0], data) == (Replied(reply), after)
    ensures Run(commands, data) == PrependReplies([reply], Run(commands[1..], after))
  {
  }

  /**
   * SET, GET, DEL and GET of one key, sent together: the replies are `OK`,
   * the value, `OK` and the null bulk string, in that order, and the buffer
   * is left empty.
   */
  lemma SetGetDelGet(key: seq<byte>, value: seq<byte>, data: map<Text, Text>)
    requires |key| <= I64Max && |value| <= I64Max
    ensures var commands := [Command([SET, key, value]), Command([GET, key]), Command([DEL, key]), Command([GET, key])];
      DrainSpec(SerializeAll(commands), data)
        == Drained([OkReply, BulkString(Some(value)), OkReply, BulkString(None)], [], data[FromBytes(key) := FromBytes(value)] - {FromBytes(key)}, false)
  {
    var commands := [Command([SET, key, value]), Command([GET, key]), Command([DEL, key]), Command([GET, key])];
    CommandEncodable([SET, key, value]);
    CommandEncodable([GET, key]);
    CommandEncodable([DEL, key]);
    DrainSerialized(commands, data);
    var d1 := data[FromBytes(key) := FromBytes(value)];
    var d3 := d1 - {FromBytes(key)};
    SetThenGet(key, value, data);
    DelThenGet(key, d1);
    var c1, c2, c3 := commands[1..], commands[2..], commands[3..];
    assert c1[1..] == c2 && c2[1..] == c3 && c3[1..] == [];
    RunStep(commands, data, OkReply, d1);
    RunStep(c1, d1, BulkString(Some(value)), d1);
    RunStep(c2, d1, OkReply, d3);
    RunStep(c3, d3, BulkString(None), d3);
    assert Run([], d3) == Drained([], [], d3, false);
  }

  /** A buffer without an LF, a line still to be completed, is kept whole and nothing is answered. */
  lemma WaitsForLine(buffer: seq<byte>, data: map<Text, Text>)
    requires buffer != [] && LF !in buffer
    ensures DrainSpec(buffer, data) == Drained([], buffer, data, false)
  {
    NoLineNoValue(buffer);
    var p := ParseAt(buffer, 0);
    assert buffer[0..] == buffer;
    DrainStepStop(buffer, data, p);
  }

  /**
   * A buffer whose first byte is not a type byte is never drained: whatever
   * arrives after it, the loop stops at once and keeps every byte.
   */
  lemma BadByteStalls(buffer: seq<byte>, more: seq<byte>, data: map<Text, Text>)
    requires buffer != [] && buffer[0] !in {STAR, DOLLAR, PLUS, MINUS, COLON}
    ensures DrainSpec(buffer + more, data) == Drained([], buffer + more, data, false)
  {
    var input := buffer + more;
    assert input[0] == buffer[0];
    BadPrefix(input);
    assert input[0..] == input;
    DrainStepStop(input, data, Err(InvalidData));
  }

  /** `RespValue::parse(&buffer)`. */
  method NextFrame(buffer: seq<byte>) returns (p: Parsed)
    ensures ParsesTo(buffer, 0, p)
  {
    p := Decode(buffer);
    assert buffer[0..] == buffer;
  }

  /** The bytes a connection has received and not yet parsed. */
  class Connection {
    var buffer: seq<byte>

    constructor ()
      ensures buffer == []
    {
      buffer := [];
    }

    /** `buffer.extend_from_slice(&temp_buffer[..n])`: the bytes read, appended unchanged. */
    method Receive(bytes: seq<byte>)
      modifies this
      ensures buffer == old(buffer) + bytes
    {
      buffer := buffer + bytes;
    }

    /** The inner `while` of `handle_connection`. */
    method Drain(store: Store) returns (replies: seq<RespValue>, panicked: bool)
      modifies this, store
      ensures DrainSpec(old(buffer), old(store.data)) == Drained(replies, buffer, store.data, panicked)
    {
      ghost var target := DrainSpec(buffer, store.data);
      replies := [];
      panicked := false;
      PrependRepliesNil(target);
      while buffer != []
        invariant PrependReplies(replies, DrainSpec(buffer, store.data)) == target
        decreases |buffer|
      {
        var parsed := NextFrame(buffer);
        match parsed {
          case Err(_) =>
            DrainStepStop(buffer, store.data, parsed);
            return;
          case Abort =>
            DrainStepStop(buffer, store.data, parsed);
            panicked := true;
            return;
          case Ok(v, n) =>
            if n > |buffer| {
              DrainStepOverrun(buffer, store.data, v, n);
              panicked := true;
              return;
            }
            DrainStepOk(buffer, store.data, v, n);
            ParseBound(buffer, 0, parsed);
            buffer := buffer[n..];
            var outcome := HandleCommand(v, store);
            if outcome.Panicked? {
              panicked := true;
              return;
            }
            PrependRepliesAssoc(replies, [outcome.reply], DrainSpec(buffer, store.data));
            replies := replies + [outcome.reply];
        }
      }
    }

    /** One turn of the outer loop of `handle_connection`: append what was read, then drain. */
    method HandleRead(bytes: seq<byte>, store: Store) returns (replies: seq<RespValue>, panicked: bool)
      modifies this, store
      ensures DrainSpec(old(buffer) + bytes, old(store.data)) == Drained(replies, buffer, store.data, panicked)
    {
      Receive(bytes);
      replies, panicked := Drain(store);
    }
  }
}
