# dashdata key-value server: a verified model

dashdata is a small network key-value server written twice, once in Rust and
once in Go. Clients send GET, SET and DEL (or DELETE) commands, either as RESP2
frames (the Redis serialization protocol) or as plain text lines. The server
answers from an in-memory map. This project models the parts of both servers
that decide what a byte stream means and what the store holds afterwards, and
proves properties of them in Dafny:

- the Rust RESP codec: the `RespValue` type, `serialize`, and the
  recursive-descent `parse` with its helpers `find_crlf` and `parse_integer`
  (`resp.dfy`, with its properties in `resp_properties.dfy`);
- the Rust `handle_command` dispatcher, and the loop of `handle_connection`
  that appends received bytes to a buffer and answers the frames at its front
  (`rust_server.dfy`);
- the Go RESP reader `readCommand`/`readRESPArray`, the Go `executeCommand`,
  and the connection loop built from them (`go_server.dfy`);
- the older line-based Go `executeCommand`, which has the verb `DELETE`
  (`inline_server.dfy`);
- the four stores: the Rust `Store`, the Go `SimpleStore`, the lock-striped
  Go `Store` and the 1024-shard Go `ShardedStore` (`rust_store.dfy`,
  `go_simple_store.dfy`, `go_striped_store.dfy`, `go_sharded_store.dfy`),
  with the 32-bit FNV-1a hash that picks a shard or a lock (`fnv.dfy`);
- the write-ahead log: the entry `Log` appends, and the replay rule of
  `ApplyEntriesAfter` (`wal.dfy`);
- bytes, one-byte text, white space, `strings.Fields`, upper-casing and
  decimal integers shared by all of these (`strings.dfy`).

Parsing has three outcomes: `Ok(value, consumed)`, `Err(kind)` for the errors
the Rust code returns, and `Abort` where the Rust code panics. It panics on a
slice past the end of the buffer, on `Vec::with_capacity` with a negative
count, and on `buffer.drain(..consumed)` past the end. The Go reader has
`Got(value, rest)`, `Failed` and `Panicked` in the same way. Stores are
classes with a `map` field. Their methods state the new map in terms of the
old one. Each dispatcher is a function from a command and a map to a reply
and a map. A method runs that function against a store object, and its
`ensures` ties the two together.

The model follows the code where the code and the protocol description
disagree:
- The Rust decoder has no "incomplete" outcome. A bulk string whose declared
  length runs past the buffer panics. When its two terminator bytes are
  missing, it parses anyway and claims two bytes more than the buffer holds,
  so the drain panics too.
- Rust verbs are matched byte for byte, so `get` is an unknown command. The
  Go servers upper-case the verb first.
- A Rust GET, SET or DEL without enough arguments indexes past the array and
  panics. It does not answer an error.
- In the Rust loop, a parse error keeps the buffer and waits for more input.
  It does not close the connection. So a buffer that starts with a byte that
  is not a RESP type byte is never drained.
- An Integer frame written by `serialize` (`:5` CRLF) is refused by `parse`:
  `parse_integer_value` hands `parse_integer` the line without its LF. The
  same frame ended by a bare LF is accepted. A bare LF also makes every line
  report one byte more than it has.
- The Go DEL always answers `:1`. The older Go server has no DEL; its verb is
  DELETE.

## Model

| member | source | states |
|---|---|---|
| `Resp.Serialize` | src/resp.rs:13-33 | `serialize`: the type byte, then the text (`+`, `-`), the decimal number (`:`), the length header and payload (`$`), `$-1` for null, or the count header and the elements' encodings in order (`*`), each part closed by CRLF; every frame is at least 3 bytes and opens with its value's type byte |
| `Resp.SerializeAll` | src/resp.rs:27-29 | the encodings of the elements, concatenated in order |
| `Resp.Encode` | src/resp.rs:13-33 | `serialize`, which grows a byte vector part by part, produces exactly the wire grammar `Serialize` (type byte, decimal length or count, CRLF, payload, elements in order) |
| `Resp.EncodeArray` | src/resp.rs:25-31 | the array branch: header `*n` CRLF, then each element's encoding appended in order |
| `Resp.IndexOf` | src/resp.rs:83 | `iter().position`: the index of the first occurrence of a byte, which holds that byte |
| `Resp.FindCrlf` | src/resp.rs:82-86 | `find_crlf`: the index of the first LF, moved back one to a CR right before it; the byte there is CR or LF |
| `Resp.ReplacePair` | src/resp.rs:70 | `str::replace` of a two-character pattern by one character, left to right without overlap; never longer, and a text without the pattern's first character is unchanged |
| `Resp.Unescape` | src/resp.rs:69-71 | `unescape`: `\r` then `\n` replaced by CR and LF; never longer, and a text without a backslash is unchanged |
| `Resp.FindCrlfSpec` | src/resp.rs:82-86 | `find_crlf` fails exactly when there is no LF; otherwise it gives the index of the first LF, or of the CR right before that LF |
| `Resp.IndexOfSpec` | src/resp.rs:83 | `position` finds no LF exactly when there is none, and no LF precedes the one it finds |
| `Resp.ParseInteger` | src/resp.rs:73-80 | `parse_integer` succeeds only when the input has a line ending |
| `Resp.Parse` | src/resp.rs:35-66 | `parse`: dispatch on the first byte to the array, bulk-string, simple-string, error and integer branches, `Err` for an empty input or another byte; the array branch reads the count, panics when it is negative, and reads that many elements from the end of the header line |
| `Resp.ParseElements` | src/resp.rs:42-46 | the element loop: each element parsed where the previous one ended, the first error or panic ending the array, the values of a complete loop in order with the position after the last |
| `Resp.ParseSimpleString` | src/resp.rs:88-92 | `parse_simple_string`: the bytes from index 1 to the line end; fails exactly when there is no LF, and consumes between 3 and one more than the input's length |
| `Resp.ParseError` | src/resp.rs:94-98 | `parse_error`: as the simple string, giving an error value |
| `Resp.ParseIntegerValue` | src/resp.rs:100-104 | `parse_integer_value`: the text from index 1 up to and including the line end read by `parse_integer`; a parsed value is an i64 |
| `Resp.ParseBulkString` | src/resp.rs:49-60 | the `$` branch: the length header, null for -1, a panic for other negative lengths or a payload past the input, else the payload and two bytes more consumed, so at most two past the input |
| `Resp.Decode` | src/resp.rs:35-66 | `parse` computes `Parse`: dispatch on the first byte, with the error and panic outcomes of each branch |
| `Resp.DecodeArray` | src/resp.rs:37-48 | the array branch: count, a panic for a negative count, then the elements after the header line |
| `Resp.DecodeElements` | src/resp.rs:42-46 | the element loop parses each element where the previous one ended and pushes it, stopping at the first error or panic |
| `Resp.DecodeElement` | src/resp.rs:43-45 | one turn of the element loop and what it does to the rest of the array |
| `RespProperties.RoundTrip` | src/resp.rs:13-66 | every encodable value (strings without LF, bulk strings, nested arrays of these) parses back from its encoding followed by any bytes, consuming exactly the encoding |
| `RespProperties.EncodedParses` | src/resp.rs:35-66 | the same round trip, stated per value for the recursion |
| `RespProperties.ArrayRoundTrip` | src/resp.rs:37-48 | an array's encoding parses back to the same elements |
| `RespProperties.ElementsRoundTrip` | src/resp.rs:42-46 | encodings placed one after another parse back as those values, in order |
| `RespProperties.BulkRoundTrip` | src/resp.rs:49-59 | a bulk string with any payload bytes, CR and LF included, parses back with `consumed` equal to its encoding's length |
| `RespProperties.NullRoundTrip` | src/resp.rs:24 | `$-1` CRLF parses back as the null bulk string |
| `RespProperties.SimpleStringRoundTrip` | src/resp.rs:88-92 | a simple string without LF parses back from its encoding |
| `RespProperties.ErrorRoundTrip` | src/resp.rs:94-98 | an error string without LF parses back from its encoding |
| `RespProperties.ParseIntegerOfDecimal` | src/resp.rs:73-80 | a header line holding the decimal text of an i64, ended by CRLF, reads as that number |
| `RespProperties.UnescapeInert` | src/resp.rs:69-71 | un-escaping `\r` and `\n` never changes whether, or to what, a text reads as an integer |
| `RespProperties.HeaderLine` | src/resp.rs:39-40 | the header line `serialize` writes reads back as its number and ends where it was written to end |
| `RespProperties.BulkBranch` | src/resp.rs:53-58 | a non-null bulk string consumes header + len + 2 bytes, whatever the last two bytes are |
| `RespProperties.BulkIgnoresTerminator` | src/resp.rs:58 | the two bytes after a bulk payload are counted but never checked |
| `RespProperties.BulkOverrun` | src/resp.rs:56-58 | a bulk string whose terminator has not arrived still parses, and claims two bytes more than the input holds |
| `RespProperties.NullBulk` | src/resp.rs:53-54 | a `$-1` header is the null bulk string and consumes only the header |
| `RespProperties.BulkAborts` | src/resp.rs:56-57 | a length below -1, or one that runs past the input, panics at the slice |
| `RespProperties.ArrayAborts` | src/resp.rs:41 | a negative element count panics at `Vec::with_capacity` |
| `RespProperties.BadPrefix` | src/resp.rs:36-64 | empty input, or a first byte other than `*`, `$`, `+`, `-`, `:`, is invalid data |
| `RespProperties.ParsedKind` | src/resp.rs:36-64 | a parsed value is of the kind its frame's first byte names: `*` an array, `$` a bulk string, `+` a simple string, `-` an error, `:` an integer |
| `RespProperties.NoLineNoValue` | src/resp.rs:82-86 | input without an LF never parses to a value |
| `RespProperties.IntegerFrameRejected` | src/resp.rs:100-104 | an Integer frame ended by CRLF, as `serialize` writes it, is refused with "line ending not found" |
| `RespProperties.IntegerBareLf` | src/resp.rs:100-104 | an Integer frame ended by a bare LF is accepted, and reported one byte longer than it is |
| `RespProperties.SimpleStringBareLf` | src/resp.rs:88-92 | a simple string ended by a bare LF parses, and reports one byte more than the frame has |
| `RespProperties.ArrayShape` | src/resp.rs:38-47 | a parsed array has exactly the declared number of elements, read back to back from the end of its header to the reported end |
| `RespProperties.ElementsShape` | src/resp.rs:42-46 | every successful element loop yields one value per remaining element, each parsed where the previous ended |
| `RespProperties.ConsumedBound` | src/resp.rs:35-104 | every successful parse consumes at least 3 bytes and at most 2 more than the input holds |
| `RustStore.Store.constructor` | src/store.rs:9-13 | `new` gives an empty map |
| `RustStore.Store.Get` | src/store.rs:15-17 | `get` gives the stored value if any and changes nothing |
| `RustStore.Store.Set` | src/store.rs:19-21 | `set` is an upsert of one key |
| `RustStore.Store.Delete` | src/store.rs:23-25 | `delete` removes one key |
| `RustStore.SetThenGet` | src/store.rs:15-21 | after `set(k, v)`, `get(k)` is `Some(v)`, and every other key keeps its mapping |
| `RustStore.DeleteThenGet` | src/store.rs:15-25 | after `delete(k)`, `get(k)` is `None`, and every other key keeps its mapping |
| `RustStore.DeleteTwice` | src/store.rs:23-25 | deleting twice is deleting once |
| `RustStore.DeleteAbsent` | src/store.rs:23-25 | deleting an absent key leaves the map unchanged |
| `RustServer.Dispatch` | src/server.rs:115-153 | `handle_command`: the reply (or panic) and the new map for a frame; a panic leaves the map alone, and the map changes only with an `OK` reply |
| `RustServer.HandleCommand` | src/server.rs:115-153 | `handle_command` against the store gives the reply (or panic) and the new map of `Dispatch` |
| `RustServer.SetThenGet` | src/server.rs:121-139 | SET replies `OK`, and a following GET of the key gives back the value's bytes |
| `RustServer.SetOthers` | src/server.rs:132-139 | SET changes no other key's GET reply |
| `RustServer.DelThenGet` | src/server.rs:121-147 | DEL replies `OK`, and a following GET gives the null bulk string |
| `RustServer.DelAbsent` | src/server.rs:140-147 | DEL of an absent key replies `OK` and changes nothing |
| `RustServer.GetReadOnly` | src/server.rs:121-131 | GET never changes the store |
| `RustServer.UnknownVerb` | src/server.rs:148 | any verb other than the exact bytes GET, SET, DEL replies "Unknown command" and leaves the store alone |
| `RustServer.LowercaseVerb` | src/server.rs:122 | lower-case `get` is an unknown command |
| `RustServer.ChangesOnlyOnOk` | src/server.rs:115-153 | the store changes only through a SET or DEL with its operands, which replies `OK` |
| `RustServer.MissingOperandPanics` | src/server.rs:123-141 | GET, SET or DEL with no operand indexes past the parts and panics |
| `RustServer.DrainSpec` | src/server.rs:94-111 | the inner loop: parse at the front, drop `consumed` bytes, answer, repeat; what is left is a suffix of the buffer, and without a panic the loop stops only at an empty buffer or a parse error |
| `RustServer.DrainSerialized` | src/server.rs:94-111 | a buffer holding encoded commands is answered exactly as handling them one at a time, in order; the buffer is left empty unless a command panics |
| `RustServer.SetGetDelGet` | src/server.rs:94-147 | SET, GET, DEL, GET of one key sent together are answered `OK`, the value, `OK`, null, in that order |
| `RustServer.WaitsForLine` | src/server.rs:94-109 | a buffer without an LF is kept whole and nothing is answered |
| `RustServer.BadByteStalls` | src/server.rs:94-109 | a buffer whose first byte is not a RESP type byte is never drained, whatever arrives after it, and nothing is answered |
| `RustServer.NextFrame` | src/server.rs:95 | the frame at the front of the buffer is the one `parse` reads |
| `RustServer.Connection.Receive` | src/server.rs:85 | bytes read are appended unchanged at the end of the buffer |
| `RustServer.Connection.Drain` | src/server.rs:94-111 | the inner loop removes exactly `consumed` bytes per frame, answers frames in order, stops and keeps the buffer on a parse error, stops when the buffer is empty, and panics when `consumed` runs past the buffer |
| `RustServer.Connection.HandleRead` | src/server.rs:84-111 | one read: append, then drain |
| `GoSimpleStore.SimpleStore.constructor` | internal/store/simple_store.go:10-14 | `NewSimpleStore` is empty |
| `GoSimpleStore.SimpleStore.Set` | internal/store/simple_store.go:16-20 | `Set` is an upsert of one key |
| `GoSimpleStore.SimpleStore.Get` | internal/store/simple_store.go:22-27 | `Get` gives `(value, true)` for a stored key and `("", false)` otherwise |
| `GoSimpleStore.SimpleStore.Delete` | internal/store/simple_store.go:29-33 | `Delete` removes one key |
| `GoSimpleStore.SetThenGet` | internal/store/simple_store.go:16-27 | after `Set(k, v)`, `Get(k)` is `(v, true)` and other keys are unchanged |
| `GoSimpleStore.DeleteThenGet` | internal/store/simple_store.go:22-33 | after `Delete(k)`, `Get(k)` is `("", false)` and other keys are unchanged |
| `GoSimpleStore.DeleteAbsent` | internal/store/simple_store.go:29-33 | deleting an absent key is a no-op |
| `Fnv.Round` | internal/store/sharded_store.go:37 | one byte written to `fnv.New32a`: xor the byte in, multiply by 16777619 modulo 2^32 |
| `Fnv.Hash` | internal/store/sharded_store.go:36-38 | `New32a`, `Write`, `Sum32`: the rounds over all the bytes, starting from the offset basis 2166136261 |
| `Fnv.Bucket` | store.go:21-25 | `lockIndex` (and `shardIndex`) is the FNV-1a hash of the key's bytes mod 1024, so below 1024 |
| `Fnv.HashSnoc` | internal/store/sharded_store.go:36-37 | each byte written is one FNV-1a round: xor the byte in, multiply by 16777619 mod 2^32 |
| `Fnv.HashConcat` | internal/store/sharded_store.go:36-37 | hashing bytes written in two parts continues the rounds from the first part's hash |
| `Fnv.TestVectors` | internal/store/sharded_store.go:36-38 | the empty input hashes to the offset basis 2166136261, and `a` to 0xe40c292c |
| `Fnv.FoobarVector` | internal/store/sharded_store.go:36-38 | `foobar` hashes to 0xbf9cf968 |
| `StripedStore.Store.constructor` | store.go:15-19 | `NewStore` is empty |
| `StripedStore.Store.Set` | store.go:27-32 | `Set` is an upsert of one key, whichever lock it takes |
| `StripedStore.Store.Get` | store.go:34-40 | `Get` gives `(value, true)` for a stored key and `("", false)` otherwise |
| `StripedStore.Store.Delete` | store.go:42-47 | `Delete` removes one key |
| `StripedStore.SetThenGet` | store.go:27-40 | after `Set(k, v)`, `Get(k)` is `(v, true)` and other keys are unchanged |
| `StripedStore.DeleteTwice` | store.go:42-47 | deleting twice is deleting once; deleting an absent key is a no-op |
| `ShardedStore.ShardedStore.constructor` | internal/store/sharded_store.go:27-33 | `NewShardedStore` makes 1024 empty shards, placed by `shardIndex` |
| `ShardedStore.ShardedStore.SetWAL` | internal/store/sharded_store.go:23-25 | attaching a log changes no shard |
| `ShardedStore.ShardedStore.Set` | internal/store/sharded_store.go:41-63 | `Set` logs `("SET", k, v)` once if a log is attached, upserts k in its own shard only, and keeps every key in its own shard |
| `ShardedStore.ShardedStore.Get` | internal/store/sharded_store.go:65-76 | `Get` looks in the key's shard and gives `(v, true)` or `("", false)` |
| `ShardedStore.ShardedStore.Delete` | internal/store/sharded_store.go:78-86 | `Delete` logs `("DELETE", k, "")` once if a log is attached, removes k from its shard only, and keeps every key in its own shard |
| `ShardedStore.ShardedStore.GetAll` | internal/store/sharded_store.go:88-98 | `GetAll` gives exactly the union of all shards' mappings |
| `ShardedStore.Gather` | internal/store/sharded_store.go:92-94 | the inner loop copies every mapping of one shard into the result |
| `ShardedStore.DistributedSet` | internal/store/sharded_store.go:41-56 | storing in the key's shard keeps every key only in its own shard |
| `ShardedStore.DistributedDelete` | internal/store/sharded_store.go:78-86 | removing from the key's shard keeps every key only in its own shard |
| `ShardedStore.MergedSpec` | internal/store/sharded_store.go:88-98 | the first n shards merged hold exactly the keys whose shard is below n |
| `ShardedStore.MergedAll` | internal/store/sharded_store.go:88-98 | all shards merged are the store's contents |
| `ShardedStore.SetThenGet` | internal/store/sharded_store.go:41-76 | after `Set(k, v)`, `Get(k)` is `(v, true)` |
| `ShardedStore.DeleteThenGet` | internal/store/sharded_store.go:65-86 | after `Delete(k)`, `Get(k)` is `("", false)` and other keys are unchanged |
| `ShardedStore.LoggedWrite` | internal/store/sharded_store.go:57-61 | because the log is written before the maps change, a log that replays to the store still does after a later `Set` or `Delete` |
| `Wal.Apply` | internal/wal/wal.go:73-80 | one entry of the replay loop: SET stores, DELETE removes, anything else or an entry not after the cutoff changes nothing; no key but the entry's is touched |
| `Wal.Replay` | internal/wal/wal.go:67-82 | the scanner loop: the entries applied in order, stopping at the first line that does not decode; the replay succeeds exactly when every line decodes |
| `Wal.WriteAheadLog.constructor` | internal/wal/wal.go:28-37 | the log opened in append mode keeps what the file holds |
| `Wal.WriteAheadLog.Log` | internal/wal/wal.go:39-45 | `Log` appends one entry holding exactly the operation, key and value given, with the clock reading |
| `Wal.WriteAheadLog.ApplyEntriesAfter` | internal/wal/wal.go:61-83 | the scanner loop applies the entries in order, as `Replay`, stopping with an error at the first entry that does not decode |
| `Wal.ReplayAppend` | internal/wal/wal.go:68-81 | replaying a log in two parts is replaying the first, then the second from where it left the map |
| `Wal.StopsAtUndecodable` | internal/wal/wal.go:70-72 | an undecodable entry stops replay with an error; entries before it stay applied |
| `Wal.IgnoredEntry` | internal/wal/wal.go:73-80 | an entry not strictly after the cutoff, or with an operation other than SET and DELETE, changes nothing |
| `Wal.ReplayLogged` | internal/wal/wal.go:73-79 | a SET after the cutoff stores its value and a DELETE removes its key |
| `Wal.LastWriteWins` | internal/wal/wal.go:68-81 | for each key, the result is the last SET or DELETE after the cutoff, or the old value when there is none |
| `GoServer.LineFrom` | internal/server/server.go:108 | `ReadString('\n')` gives the bytes up to and including the first LF, and fails without one |
| `GoServer.NumberFrom` | internal/server/server.go:117-124 | a count or length line is `Atoi(TrimSpace(line))`, an i64 |
| `GoServer.AddInt64` | internal/server/server.go:145 | `length+2` wraps around like a 64-bit `int` |
| `GoServer.ElementFrom` | internal/server/server.go:128-150 | one element: `$`, a length line, `length + 2` bytes of which the first `length` are kept; a panic when the wrapped size or the length is negative; what is left is shorter than the input |
| `GoServer.ElementsFrom` | internal/server/server.go:127-151 | the element loop: the remaining elements read one after the other; a complete loop yields exactly one word per remaining element |
| `GoServer.ArrayFrom` | internal/server/server.go:116-154 | `readRESPArray`: the count line, a panic for a negative count, then that many elements |
| `GoServer.CommandFrom` | internal/server/server.go:95-114 | `readCommand`: after `*` an array, otherwise one line, trimmed and split into fields; a successful read always consumes input |
| `GoServer.ReadElement` | internal/server/server.go:128-150 | one element: `$`, a length, `length + 2` bytes read in full, the first `length` of them kept; `make` or the slice panics on negative sizes |
| `GoServer.ReadRespArray` | internal/server/server.go:116-154 | `readRESPArray` fills exactly `count` strings in order, as `ArrayFrom`; a negative count panics |
| `GoServer.ReadCommand` | internal/server/server.go:95-114 | `readCommand` reads a RESP array after `*`, otherwise one line split into words |
| `GoServer.ReadsEncoded` | internal/server/server.go:116-154 | an array of bulk strings, as RESP encodes it, reads back as exactly its words, leaving the bytes after it |
| `GoServer.ElementsEncoded` | internal/server/server.go:127-151 | encoded bulk strings read back one after the other as their words |
| `GoServer.ElementLine` | internal/server/server.go:128-150 | an encoded bulk string reads back as its text, consuming its length + 2 bytes after the length line |
| `GoServer.ReadsInline` | internal/server/server.go:102-113 | a line of words not starting with `*` reads back as those words |
| `GoServer.BlankLine` | internal/server/server.go:106-112 | a line of white space reads as an empty command |
| `GoServer.NegativeCountPanics` | internal/server/server.go:126 | a negative array count panics at `make` |
| `GoServer.NullElementPanics` | internal/server/server.go:145-150 | a `$-1` element panics at the slice once one byte follows, and fails at end of input |
| `GoServer.HugeLengthPanics` | internal/server/server.go:145 | a length whose `+2` wraps negative panics at `make` |
| `GoServer.Execute` | internal/server/server.go:156-186 | `executeCommand`: the reply and the map for GET, SET, DEL after upper-casing the verb, with arity and unknown-command errors; the map changes only with a `+OK` or `:1` reply |
| `GoServer.ExecuteCommand` | internal/server/server.go:156-186 | `executeCommand` against the store gives the reply and the new map of `Execute` |
| `GoServer.VerbCaseInsensitive` | internal/server/server.go:161 | verbs that upper-case alike behave alike; arguments are not changed |
| `GoServer.SetThenGet` | internal/server/server.go:162-176 | SET replies `+OK` and stores; GET of the key then replies `$<len>` CRLF value CRLF |
| `GoServer.GetAbsent` | internal/server/server.go:166-168 | GET of an absent key replies `$-1` |
| `GoServer.DelAlwaysOne` | internal/server/server.go:177-182 | DEL removes the key and always replies `:1`, even for an absent key |
| `GoServer.WrongArity` | internal/server/server.go:162-181 | a wrong argument count replies the verb's arity error and leaves the store alone |
| `GoServer.UnknownVerb` | internal/server/server.go:183-184 | an unknown verb replies `-ERR unknown command` and leaves the store alone |
| `GoServer.ChangesOnlyByWrites` | internal/server/server.go:156-186 | the store changes only through a SET or a DEL of the right arity |
| `GoServer.BulkReplyIsResp` | internal/server/server.go:170 | the GET reply is the RESP bulk-string encoding of the value |
| `GoServer.NilReplyIsResp` | internal/server/server.go:168 | `$-1` is the RESP null bulk string |
| `GoServer.OkReplyIsResp` | internal/server/server.go:176 | `+OK` is the RESP simple string OK |
| `GoServer.OneReplyIsResp` | internal/server/server.go:182 | `:1` is the RESP integer 1 |
| `GoServer.Serve` | internal/server/server.go:77-93 | the connection loop: read a command, answer it, until a read fails or panics; never more replies than input bytes |
| `GoServer.HandleConnection` | internal/server/server.go:77-93 | the connection loop answers command after command, as `Serve`, until a read fails or panics |
| `GoServer.ServeTwo` | internal/server/server.go:81-92 | two commands followed by end of input are both answered, in order |
| `GoServer.ServeSetThenGet` | internal/server/server.go:81-176 | SET then GET sent as RESP arrays are answered `+OK` and the value |
| `InlineServer.Execute` | server.go:59-90 | the `switch` of `executeCommand` on the words: GET, SET, DELETE after upper-casing, usage and unknown-command errors; the map changes only with an `OK` reply |
| `InlineServer.ExecuteLine` | server.go:59-63 | the line split by `strings.Fields`, then executed; a line of white space only replies `ERROR: Empty command` and changes nothing |
| `InlineServer.ExecuteCommand` | server.go:59-90 | `executeCommand` against the store splits the line into words and gives the reply and new map of `Execute` |
| `InlineServer.VerbCaseInsensitive` | server.go:65 | verbs that upper-case alike behave alike |
| `InlineServer.SetThenGet` | server.go:66-80 | `SET k v` replies `OK`; `GET k` then replies the raw value |
| `InlineServer.GetAbsent` | server.go:70-73 | GET of an absent key replies `NOT FOUND` |
| `InlineServer.DeleteKey` | server.go:81-86 | `DELETE k` removes the key and replies `OK`; an absent key changes nothing |
| `InlineServer.DelIsUnknown` | server.go:81-88 | `DEL` is not a verb of this server: it is an unknown command |
| `InlineServer.WrongArity` | server.go:67-83 | a wrong word count replies the verb's usage error and leaves the store alone |
| `InlineServer.UnknownVerb` | server.go:87-88 | an unknown verb replies `ERROR: Unknown command` and leaves the store alone |
| `InlineServer.ChangesOnlyOnOk` | server.go:59-90 | the store changes only through SET or DELETE of the right arity, which reply `OK` |
| `Strings.Trim` | internal/server/server.go:121 | `strings.TrimSpace` (and Rust's `trim` at src/resp.rs:77): leading and trailing white space removed; the result neither starts nor ends with white space |
| `Strings.Fields` | internal/server/server.go:112 | `strings.Fields`: the maximal runs of non-space characters, in order |
| `Strings.ToUpper` | internal/server/server.go:161 | `strings.ToUpper`: same length, each ASCII letter upper-cased and every other character kept |
| `Strings.Decimal` | internal/server/server.go:170 | `%d` and `format!("{}")`: the decimal text of an integer, never empty, holding no white space, CR, LF or backslash |
| `Strings.ParseInt64` | src/resp.rs:78 | `str::parse::<i64>` and `strconv.Atoi`: an optional sign and decimal digits within the range of a signed 64-bit integer |
| `Strings.ParseDecimal` | src/resp.rs:78 | every i64 reads back from its decimal text (`str::parse::<i64>`, `strconv.Atoi`) |
| `Strings.FieldsOfJoined` | internal/server/server.go:112 | `strings.Fields` of words joined by spaces gives back the words |
| `Strings.FieldsAreWords` | internal/server/server.go:112 | every field is a non-empty run without white space |
| `Strings.TrimCrlf` | internal/server/server.go:121 | `TrimSpace` of a line drops its CRLF and nothing of a text that neither starts nor ends with white space |

## Left out

- Admission control: the Rust semaphore, queue, 5-second timeout and task
  spawn, and the Go worker-pool channels and `select` with a timeout. They
  are about concurrency and timing, which a sequential model cannot state.
- Sockets and logging: reads, writes, `println!`, `fmt.Printf`. Received
  bytes are a parameter and replies are returned. Every write is taken to
  succeed, so the break after a failed Rust write is not modelled. End of
  stream and read errors end the Go loop as a failed read. They are not
  modelled on the Rust side.
- Locks and atomics: `RwLock`, `sync.RWMutex`, the per-value `writeMu` and
  `atomic.Value`. Each store call is one atomic step, so linearizability
  under interleaving is not modelled. This also hides a Go `Get` that runs
  between a new shard entry's creation and its first store, where the type
  assertion on an empty `atomic.Value` would panic.
- Text encoding: a key, value or command word is a sequence of characters
  that each stand for one byte, and converting between bytes and text maps
  each byte to the character with the same code. Go strings are byte
  strings, so on the Go side this is exact. The Rust side decodes with
  `String::from_utf8_lossy` (src/server.rs:124, 134, 142; src/resp.rs:90,
  96), and there the model differs from the source on any byte sequence
  that is not valid UTF-8, which includes every lone byte from 0x80 to
  0xFF. Rust replaces each invalid sequence by U+FFFD, so keys [0xE9] and
  [0xE8] are one key "\u{FFFD}" in Rust and two keys in the model, and a
  SET of value [0xE9] followed by a GET answers the three bytes
  [0xEF, 0xBF, 0xBD] in Rust but [0xE9] in the model. So
  `RustServer.SetThenGet`, `RustServer.SetOthers`, `RustServer.DelThenGet`,
  `RustServer.DelAbsent` and `RustServer.SetGetDelGet` hold of the source
  only for keys and values that are valid one-byte UTF-8 (bytes below
  0x80). Likewise `std::str::from_utf8` in `parse_integer`
  (src/resp.rs:75-76) reports invalid data for a header that is not UTF-8,
  where the model reports an invalid integer; both are errors. Multi-byte
  UTF-8 text and non-ASCII white space are not modelled.
- Memory: a huge positive count or length is not modelled as the source
  behaves. In Rust, `Vec::with_capacity(count as usize)` (src/resp.rs:41)
  panics with a capacity overflow, or aborts the process when the
  allocation fails. In Go, `make([]string, count)` and
  `make([]byte, length+2)` (internal/server/server.go:126, 145) panic or
  end the whole process out of memory. The model instead goes on to read
  the elements or the payload. When the input runs out it answers `Err`
  in Rust, so the buffer is kept and the connection waits, unless an
  element's claimed end is already past the input, which panics. In Go it
  answers `Failed`, which ends only that connection.
- `src/main.rs`: it does not compile against `src/resp.rs` and is
  superseded by `src/server.rs`.
- Persistence (`internal/persistence/persistence.go`) and the wiring in
  `cmd/dashdata/main.go` and `main.go`: these are file I/O, timers and flag
  parsing. `internal/store/store.go` is an interface without behaviour.
- WAL file handling: opening, seeking, JSON encoding, buffered flushing,
  `time.Now` and the scanner's own errors. The log is a sequence of lines,
  each an entry or text that does not decode, and the clock reading is an
  integer parameter. `NewWAL` opens the file write-only, so reading it back
  through the same handle fails before any entry is applied. The model
  replays the lines as if they could be read.
- The older Go server's `handleConnection`: a line scanner over the socket
  that appends a newline to each reply. Only its `executeCommand` is
  modelled.
- `ShardedStore.ShardedStore.Set`: the log entry is written after the new
  shard entry is created but before its value is stored. The model logs
  first and then stores, which is the same in one atomic step.
- `GoServer.ReadsEncoded`: requires every length + 2 and the count to fit in
  a signed 64-bit integer. Larger lengths wrap around and are covered by
  `GoServer.HugeLengthPanics`.
- `RespProperties.RoundTrip`: leaves out Integer values, because `parse`
  refuses Integer frames as `serialize` writes them
  (`RespProperties.IntegerFrameRejected`). It also leaves out strings that
  hold an LF, which end the line early.
