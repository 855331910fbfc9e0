/**
 * The write-ahead log of the Go server: `Log` appends one entry per store
 * mutation, and `ApplyEntriesAfter` replays, in log order, the entries
 * stamped strictly after a cutoff.
 *
 * The log file is a sequence of lines, each either an entry that decodes
 * or one that does not; JSON, buffering and the file itself are not
 * modelled. Timestamps are integers, and the clock reading `Log` takes is a
 * parameter.
 */
module Wal {
  import opened Strings
  import opened GoSimpleStore

  /** `LogEntry`. */
  datatype LogEntry = LogEntry(timestamp: int, operation: Text, key: Text, value: Text)

  /** A line of the log: an entry, or text that does not decode as one. */
  datatype Line = Entry(entry: LogEntry) | Undecodable

  /** The map after a replay, and whether the replay reached the end of the log. */
  datatype Replayed = Replayed(data: map<Text, Text>, ok: bool)

  const SetOp: Text := "SET"
  const DeleteOp: Text := "DELETE"

  /** The `switch` of `ApplyEntriesAfter`: SET stores, DELETE removes, any other operation and any entry not after the cutoff change nothing. */
  function Apply(e: LogEntry, cutoff: int, data: map<Text, Text>): (r: map<Text, Text>)
    ensures forall k :: k != e.key ==> (k in r <==> k in data) && (k in r ==> r[k] == data[k])
  {
    if e.timestamp > cutoff then
      if e.operation == SetOp then data[e.key := e.value]
      else if e.operation == DeleteOp then data - {e.key}
      else data
    else data
  }

  /** The scanner loop of `ApplyEntriesAfter`: entries in order, stopping with an error at the first line that does not decode. */
  function Replay(lines: seq<Line>, cutoff: int, data: map<Text, Text>): (r: Replayed)
    ensures r.ok <==> forall i :: 0 <= i < |lines| ==> lines[i].Entry?
    decreases |lines|
  {
    if lines == [] then Replayed(data, true)
    else match lines[0]
      case Undecodable => Replayed(data, false)
      case Entry(e) => Replay(lines[1..], cutoff, Apply(e, cutoff, data))
  }

  /** The log opened on a file: `lines` is its content, oldest first. */
  class WriteAheadLog {
    var lines: seq<Line>

    /** `NewWAL`: the file is opened for appending, so what it already holds is kept. */
    constructor (existing: seq<Line>)
      ensures lines == existing
    {
      lines := existing;
    }

    /** `Log`: one entry holding exactly the operation, key and value given, stamped `now`, at the end. */
    method Log(operation: Text, key: Text, value: Text, now: int)
      modifies this
      ensures lines == old(lines) + [Entry(LogEntry(now, operation, key, value))]
    {
      var entry := LogEntry(now, operation, key, value);
      lines := lines + [Entry(entry)];
    }

    /** `ApplyEntriesAfter` against a store; `ok` is false when a line did not decode. */
    method ApplyEntriesAfter(cutoff: int, store: SimpleStore) returns (ok: bool)
      modifies store
      ensures Replay(lines, cutoff, old(store.data)) == Replayed(store.data, ok)
    {
      var i := 0;
      while i < |lines|
        invariant 0 <= i <= |lines|
        invariant Replay(lines, cutoff, old(store.data)) == Replay(lines[i..], cutoff, store.data)
      {
        assert lines[i..][0] == lines[i];
        assert lines[i..][1..] == lines[i + 1..];
        match lines[i] {
          case Undecodable =>
            return false;
          case Entry(e) =>
            if e.timestamp > cutoff {
              if e.operation == SetOp {
                store.Set(e.key, e.value);
              } else if e.operation == DeleteOp {
                store.Delete(e.key);
              }
            }
        }
        i := i + 1;
      }
      return true;
    }
  }

  // ---------------------------------------------------------------------
  // Properties of replay

  /** Replaying two parts of a log is replaying the first, then the second from where the first left the map, unless the first failed. */
  lemma {:induction false} ReplayAppend(a: seq<Line>, b: seq<Line>, cutoff: int, data: map<Text, Text>)
    ensures Replay(a, cutoff, data).ok ==> Replay(a + b, cutoff, data) == Replay(b, cutoff, Replay(a, cutoff, data).data)
    ensures !Replay(a, cutoff, data).ok ==> Replay(a + b, cutoff, data) == Replay(a, cutoff, data)
    decreases |a|
  {
    if a == [] {
      assert a + b == b;
    } else {
      assert (a + b)[0] == a[0];
      assert (a + b)[1..] == a[1..] + b;
      if a[0].Entry? {
        ReplayAppend(a[1..], b, cutoff, Apply(a[0].entry, cutoff, data));
      }
    }
  }

  /** Replay stops at a line that does not decode: what came before stays applied, nothing after is. */
  lemma StopsAtUndecodable(a: seq<Line>, b: seq<Line>, cutoff: int, data: map<Text, Text>)
    ensures Replay(a + [Undecodable] + b, cutoff, data) == Replayed(Replay(a, cutoff, data).data, false)
  {
    ReplayAppend(a, [Undecodable] + b, cutoff, data);
    assert a + [Undecodable] + b == a + ([Undecodable] + b);
  }

  /** An entry stamped at or before the cutoff, or with an operation other than SET and DELETE, can be dropped from the log. */
  lemma IgnoredEntry(a: seq<Line>, e: LogEntry, b: seq<Line>, cutoff: int, data: map<Text, Text>)
    requires e.timestamp <= cutoff || (e.operation != SetOp && e.operation != DeleteOp)
    ensures Replay(a + [Entry(e)] + b, cutoff, data) == Replay(a + b, cutoff, data)
  {
    ReplayAppend(a, [Entry(e)] + b, cutoff, data);
    ReplayAppend(a, b, cutoff, data);
    assert a + [Entry(e)] + b == a + ([Entry(e)] + b);
    assert ([Entry(e)] + b)[1..] == b;
  }

  /** A log replayed to some map, extended by an entry stamped after the cutoff, replays to that map with the entry's operation applied. */
  lemma ReplayLogged(lines: seq<Line>, e: LogEntry, cutoff: int, data: map<Text, Text>, m: map<Text, Text>)
    requires Replay(lines, cutoff, data) == Replayed(m, true)
    requires e.timestamp > cutoff
    ensures e.operation == SetOp ==> Replay(lines + [Entry(e)], cutoff, data) == Replayed(m[e.key := e.value], true)
    ensures e.operation == DeleteOp ==> Replay(lines + [Entry(e)], cutoff, data) == Replayed(m - {e.key}, true)
  {
    ReplayAppend(lines, [Entry(e)], cutoff, data);
    assert [Entry(e)][1..] == [];
  }

  function Lookup(data: map<Text, Text>, key: Text): Option<Text> {
    if key in data then Some(data[key]) else None
  }

  /**
   * Reading the log backwards: the value of `key` is set by the last SET or
   * DELETE of `key` stamped after the cutoff, and is `before` when there is none.
   */
  function LastWrite(lines: seq<Line>, cutoff: int, key: Text, before: Option<Text>): Option<Text>
    decreases |lines|
  {
    if lines == [] then before
    else
      var last := lines[|lines| - 1];
      if last.Entry? && last.entry.timestamp > cutoff && last.entry.key == key && last.entry.operation == SetOp then Some(last.entry.value)
      else if last.Entry? && last.entry.timestamp > cutoff && last.entry.key == key && last.entry.operation == DeleteOp then None
      else LastWrite(lines[..|lines| - 1], cutoff, key, before)
  }

  /** For every key, replaying a log whose lines all decode leaves the last write stamped after the cutoff, or the old value. */
  lemma {:induction false} LastWriteWins(lines: seq<Line>, cutoff: int, data: map<Text, Text>, key: Text)
    requires forall i :: 0 <= i < |lines| ==> lines[i].Entry?
    ensures Replay(lines, cutoff, data).ok
    ensures Lookup(Replay(lines, cutoff, data).data, key) == LastWrite(lines, cutoff, key, Lookup(data, key))
    decreases |lines|
  {
    if lines != [] {
      var init := lines[..|lines| - 1];
      var last := lines[|lines| - 1];
      assert lines == init + [last];
      LastWriteWins(init, cutoff, data, key);
      ReplayAppend(init, [last], cutoff, data);
      assert [last][1..] == [];
    }
  }
}
