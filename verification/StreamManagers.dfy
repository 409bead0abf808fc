// The stream table of one endpoint: StreamManager in aether-core/src/stream.rs.
module StreamManagers {
  import opened Bytes
  import opened Framing
  import opened Streams

  // A stream table: the live streams with their states, and the id counters.
  datatype Table = Table(
    streams: map<u32, StreamState>, nextClientStreamId: u32, nextServerStreamId: u32,
    maxStreams: u32, isClient: bool)
  {
    function NextId(): u32 {
      if isClient then nextClientStreamId else nextServerStreamId
    }

    // The counter is 32 bits wide, and moves on even when the id is then refused.
    function Advance(): Table {
      if isClient then this.(nextClientStreamId := (nextClientStreamId + 2) % U32)
      else this.(nextServerStreamId := (nextServerStreamId + 2) % U32)
    }

    function OpenNext(): (Table, Result<u32>) {
      if |streams| >= maxStreams then (this, Err(Error.FlowControl))
      else if NextId() > MAX_STREAM_ID then (Advance(), Err(Error.FlowControl))
      else (Advance().(streams := streams[NextId() := Open]), Ok(NextId()))
    }

    function Accept(id: u32): (Table, Result<()>) {
      if id in streams then (this, Err(ProtocolViolation))
      else (this.(streams := streams[id := Open]), Ok(()))
    }

    // A stream that reaches Closed is dropped from the table.
    function Settle(id: u32, state: StreamState): Table {
      this.(streams := if state.Closed? then streams - {id} else streams[id := state])
    }

    function CloseOne(id: u32): (Table, Result<()>) {
      if id !in streams then (this, Err(Error.StreamClosed))
      else (Settle(id, streams[id].CloseRead()), Ok(()))
    }

    function ShutdownOne(id: u32): (Table, Result<()>) {
      if id !in streams then (this, Err(Error.StreamClosed))
      else (Settle(id, streams[id].CloseWrite().CloseRead()), Ok(()))
    }
  }

  function NewTable(isClient: bool, maxStreams: u32): Table {
    Table(map[], if isClient then 2 else 0, if isClient then 0 else 1, maxStreams, isClient)
  }

  class StreamManager {
    var streams: map<u32, Stream>
    var nextClientStreamId: u32
    var nextServerStreamId: u32
    const maxStreams: u32
    const initialStreamWindow: u64
    const isClient: bool

    // Every id has a stream object of its own.
    ghost predicate Valid()
      reads this
    {
      forall i, j | i in streams && j in streams && i != j :: streams[i] != streams[j]
    }

    ghost function View(): Table
      reads this, streams.Values
    {
      Table(map id | id in streams :: streams[id].state, nextClientStreamId, nextServerStreamId, maxStreams, isClient)
    }

    constructor (isClient: bool, maxStreams: u32, window: u64)
      ensures Valid() && View() == NewTable(isClient, maxStreams) && streams == map[]
      ensures initialStreamWindow == window
    {
      streams := map[];
      nextClientStreamId := if isClient then 2 else 0;
      nextServerStreamId := if isClient then 0 else 1;
      this.maxStreams, this.initialStreamWindow, this.isClient := maxStreams, window, isClient;
    }

    method Insert(id: u32, forClient: bool)
      requires Valid()
      modifies this`streams
      ensures Valid() && id in streams && fresh(streams[id]) && streams == old(streams)[id := streams[id]]
      ensures streams[id].id == id && streams[id].isClient == forClient && streams[id].state == Open
      ensures streams[id].receiveBuffer == [] && streams[id].flow.View() == NewFlow(initialStreamWindow)
      ensures View().streams == old(View()).streams[id := Open]
    {
      var stream := new Stream(id, forClient, initialStreamWindow);
      streams := streams[id := stream];
    }

    method OpenStream() returns (r: Result<u32>)
      requires Valid()
      modifies this
      ensures Valid()
      ensures (View(), r) == old(View()).OpenNext()
      ensures forall id | id in old(streams) && r != Ok(id) :: id in streams && streams[id] == old(streams[id])
    {
      ghost var before: map<u32, StreamState> := View().streams;
      assert |before| == |streams| by {
        assert before.Keys == streams.Keys;
        assert |before| == |before.Keys|;
      }
      if |streams| >= maxStreams {
        return Err(Error.FlowControl);
      }
      var streamId;
      if isClient {
        streamId := nextClientStreamId;
        nextClientStreamId := (nextClientStreamId + 2) % U32;
      } else {
        streamId := nextServerStreamId;
        nextServerStreamId := (nextServerStreamId + 2) % U32;
      }
      assert View().streams == before;
      if streamId > MAX_STREAM_ID {
        return Err(Error.FlowControl);
      }
      Insert(streamId, isClient);
      r := Ok(streamId);
    }

    method AcceptStream(id: u32) returns (r: Result<()>)
      requires Valid()
      modifies this
      ensures Valid()
      ensures (View(), r) == old(View()).Accept(id)
      ensures forall i | i in old(streams) :: i in streams && streams[i] == old(streams[i])
    {
      if id in streams {
        return Err(ProtocolViolation);
      }
      Insert(id, id % 2 == 0);
      r := Ok(());
    }

    // Drops the stream if its state is Closed.
    method DropIfClosed(id: u32)
      requires Valid() && id in streams
      modifies this`streams
      ensures Valid()
      ensures View() == old(View()).Settle(id, old(streams[id].state))
      ensures streams == if old(streams[id]).state.Closed? then old(streams) - {id} else old(streams)
    {
      ghost var before: map<u32, StreamState> := View().streams;
      if streams[id].state.Closed? {
        streams := streams - {id};
        assert View().streams == before - {id};
      } else {
        assert before[id := streams[id].state] == before;
      }
    }

    // Of the streams themselves only the state of this one may change.
    method CloseStream(id: u32) returns (r: Result<()>)
      requires Valid()
      modifies this`streams, (if id in streams then {streams[id]} else {})`state
      ensures Valid()
      ensures (View(), r) == old(View()).CloseOne(id)
      ensures streams == old(streams) || streams == old(streams) - {id}
    {
      if id !in streams {
        return Err(Error.StreamClosed);
      }
      ghost var before: map<u32, StreamState> := View().streams;
      streams[id].CloseRead();
      ghost var state := streams[id].state;
      assert View().streams == before[id := state];
      DropIfClosed(id);
      assert before[id := Closed] - {id} == before - {id} && View().streams == old(View()).Settle(id, state).streams;
      r := Ok(());
    }

    // Of the streams themselves only the state of this one may change.
    method ShutdownStream(id: u32) returns (r: Result<()>)
      requires Valid()
      modifies this`streams, (if id in streams then {streams[id]} else {})`state
      ensures Valid()
      ensures (View(), r) == old(View()).ShutdownOne(id)
      ensures streams == old(streams) || streams == old(streams) - {id}
    {
      if id !in streams {
        return Err(Error.StreamClosed);
      }
      ghost var before: map<u32, StreamState> := View().streams;
      streams[id].CloseWrite();
      streams[id].CloseRead();
      ghost var state := streams[id].state;
      assert View().streams == before[id := state];
      DropIfClosed(id);
      assert before[id := Closed] - {id} == before - {id} && View().streams == old(View()).Settle(id, state).streams;
      r := Ok(());
    }
  }
}
