// What closing one half or the other makes of a stream, over any closes in any
// order, and what can then still be done with it.
module Lifecycles {
  import opened Bytes
  import opened Streams

  datatype Half = Reading | Writing

  function Close(state: StreamState, half: Half): StreamState {
    if half == Reading then state.CloseRead() else state.CloseWrite()
  }

  // The state of a stream after these closes.
  function After(closes: seq<Half>): StreamState {
    if closes == [] then Open else Close(After(closes[..|closes| - 1]), closes[|closes| - 1])
  }

  lemma {:induction false} StateSays(closes: seq<Half>)
    ensures After(closes)
            == if closes == [] then Open
               else if Reading in closes && Writing in closes then Closed
               else if Reading in closes then HalfClosedRemote
               else HalfClosedLocal
  {
    if closes != [] {
      var before, last := closes[..|closes| - 1], closes[|closes| - 1];
      StateSays(before);
      assert closes == before + [last];
      hide After;
      if before == [] {
        assert closes == [last];
      } else {
        assert before[0] in closes && before[0] in before;
      }
    }
  }

  // A stream can be written to until either half is closed, and read from until its
  // reading half is; what has arrived by then can be read even afterwards.
  lemma UsableIff(closes: seq<Half>, flow: Flow, len: nat, buf: seq<Fragment>, maxLen: nat)
    ensures var write, read := WriteStep(After(closes), flow, len), ReadBuffer(After(closes), buf, maxLen);
            && (write.0 == Err(InvalidState) <==> closes != [])
            && (write.0.Ok? <==> closes == [] && (flow.sentOffset + len) % U64 <= flow.maxOffset)
            && (read.result == Err(InvalidState) <==> Reading in closes && buf == [])
            && (read.result.Err? ==> read.result == Err(InvalidState) && read.kept == [])
            && (buf == [] && Reading !in closes ==> read.result == Ok([]))
  {
    StateSays(closes);
    hide After, StableSort, Walk, Concat;
  }
}
