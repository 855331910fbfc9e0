/**
 * The command handling of the older, line-based Go server: `executeCommand`
 * splits one line into words, matches the upper-cased first word against
 * GET, SET and DELETE, and runs it against the lock-striped store.
 *
 * Reading lines off the connection and writing the reply (with its newline)
 * are not modelled: the line is a parameter and the reply is returned.
 */
module InlineServer {
  import opened Strings
  import opened StripedStore

  const EmptyReply: Text := "ERROR: Empty command"
  const GetUsage: Text := "ERROR: GET command requires one key"
  const SetUsage: Text := "ERROR: SET command requires key and value"
  const DeleteUsage: Text := "ERROR: DELETE command requires one key"
  const UnknownReply: Text := "ERROR: Unknown command"
  const NotFoundReply: Text := "NOT FOUND"
  const OkReply: Text := "OK"

  /** The reply to the words of a command line, and the map afterwards. */
  function Execute(parts: seq<Text>, data: map<Text, Text>): (r: (Text, map<Text, Text>))
    ensures r.1 != data ==> r.0 == OkReply
  {
    if |parts| == 0 then (EmptyReply, data)
    else
      var verb := ToUpper(parts[0]);
      if verb == "GET" then
        if |parts| != 2 then (GetUsage, data)
        else if parts[1] in data then (data[parts[1]], data)
        else (NotFoundReply, data)
      else if verb == "SET" then
        if |parts| != 3 then (SetUsage, data)
        else (OkReply, data[parts[1] := parts[2]])
      else if verb == "DELETE" then
        if |parts| != 2 then (DeleteUsage, data)
        else (OkReply, data - {parts[1]})
      else (UnknownReply, data)
  }

  /** `executeCommand`: the line split on white space (`strings.Fields`), then executed. */
  function ExecuteLine(line: Text, data: map<Text, Text>): (r: (Text, map<Text, Text>))
    ensures (forall i :: 0 <= i < |line| ==> IsSpace(line[i])) ==> r == (EmptyReply, data)
  {
    if forall i :: 0 <= i < |line| ==> IsSpace(line[i]) then
      BlankTrims(line);
      Execute(Fields(line), data)
    else
      Execute(Fields(line), data)
  }

  /** `executeCommand` against the store object. */
  method ExecuteCommand(command: Text, store: Store) returns (response: Text)
    modifies store
    ensures (response, store.data) == ExecuteLine(command, old(store.data))
  {
    var parts := Fields(command);
    if |parts| == 0 {
      return EmptyReply;
    }
    var verb := ToUpper(parts[0]);
    if verb == "GET" {
      if |parts| != 2 {
        return GetUsage;
      }
      var value, found := store.Get(parts[1]);
      if !found {
        return NotFoundReply;
      }
      response := value;
    } else if verb == "SET" {
      if |parts| != 3 {
        return SetUsage;
      }
      store.Set(parts[1], parts[2]);
      response := OkReply;
    } else if verb == "DELETE" {
      if |parts| != 2 {
        return DeleteUsage;
      }
      store.Delete(parts[1]);
      response := OkReply;
    } else {
      response := UnknownReply;
    }
  }

  // ---------------------------------------------------------------------
  // Properties

  /** The words, each free of white space, written as one line with single spaces. */
  function Line(words: seq<Text>): Text {
    JoinSpaced(words)
  }

  /** A value set with `SET k v` is what `GET k` returns, as it was stored. */
  lemma SetThenGet(verbSet: Text, verbGet: Text, key: Text, value: Text, data: map<Text, Text>)
    requires IsWord(verbSet) && ToUpper(verbSet) == "SET"
    requires IsWord(verbGet) && ToUpper(verbGet) == "GET"
    requires IsWord(key) && IsWord(value)
    ensures ExecuteLine(Line([verbSet, key, value]), data) == (OkReply, data[key := value])
    ensures ExecuteLine(Line([verbGet, key]), data[key := value]) == (value, data[key := value])
  {
    FieldsOfJoined([verbSet, key, value]);
    FieldsOfJoined([verbGet, key]);
  }

  /** `GET` of a key that is not stored answers `NOT FOUND`. */
  lemma GetAbsent(verb: Text, key: Text, data: map<Text, Text>)
    requires IsWord(verb) && ToUpper(verb) == "GET" && IsWord(key) && key !in data
    ensures ExecuteLine(Line([verb, key]), data) == (NotFoundReply, data)
  {
    FieldsOfJoined([verb, key]);
  }

  /** `DELETE k` removes the key, answers `OK`, and changes nothing when the key was absent. */
  lemma DeleteKey(verb: Text, key: Text, data: map<Text, Text>)
    requires IsWord(verb) && ToUpper(verb) == "DELETE" && IsWord(key)
    ensures ExecuteLine(Line([verb, key]), data) == (OkReply, data - {key})
    ensures key !in ExecuteLine(Line([verb, key]), data).1
    ensures key !in data ==> ExecuteLine(Line([verb, key]), data).1 == data
  {
    FieldsOfJoined([verb, key]);
    var r := Execute([verb, key], data);
    assert r == (OkReply, data - {key});
  }

  /** This server has no `DEL`: it is an unknown command and the map is unchanged. */
  lemma DelIsUnknown(key: Text, data: map<Text, Text>)
    requires IsWord(key)
    ensures ExecuteLine(Line(["DEL", key]), data) == (UnknownReply, data)
  {
    FieldsOfJoined(["DEL", key]);
    assert ToUpper("DEL") == "DEL";
  }

  /** The verb is matched whatever its case: two verbs that upper-case alike give the same reply and map. */
  lemma VerbCaseInsensitive(a: Text, b: Text, args: seq<Text>, data: map<Text, Text>)
    requires ToUpper(a) == ToUpper(b)
    ensures Execute([a] + args, data) == Execute([b] + args, data)
  {
    assert ([a] + args)[1..] == args == ([b] + args)[1..];
  }

  /** The map changes only through a SET or a DELETE with the right number of words, which answers `OK`. */
  lemma ChangesOnlyOnOk(parts: seq<Text>, data: map<Text, Text>)
    requires Execute(parts, data).1 != data
    ensures Execute(parts, data).0 == OkReply
    ensures (ToUpper(parts[0]) == "SET" && |parts| == 3) || (ToUpper(parts[0]) == "DELETE" && |parts| == 2)
  {
  }

  /** An unknown verb answers with an error and leaves the map alone. */
  lemma UnknownVerb(parts: seq<Text>, data: map<Text, Text>)
    requires parts != [] && ToUpper(parts[0]) !in {"GET", "SET", "DELETE"}
    ensures Execute(parts, data) == (UnknownReply, data)
  {
  }

  /** A GET, SET or DELETE with the wrong number of words answers its usage error and leaves the map alone. */
  lemma WrongArity(parts: seq<Text>, data: map<Text, Text>)
    requires parts != []
    requires var verb := ToUpper(parts[0]);
      (verb == "GET" && |parts| != 2) || (verb == "SET" && |parts| != 3) || (verb == "DELETE" && |parts| != 2)
    ensures Execute(parts, data).1 == data
    ensures Execute(parts, data).0 in {GetUsage, SetUsage, DeleteUsage}
  {
  }
}
