// Streams and their flow control (aether-core/src/stream.rs): one endpoint's
// state, as objects, each method proved against a function on its state.
module Streams {
  import opened Bytes

  datatype StreamState = Idle | Open | HalfClosedLocal | HalfClosedRemote | Closed {
    predicate CanWrite() { Open? }
    predicate CanRead() { Open? || HalfClosedLocal? }

    function CloseWrite(): StreamState {
      match this
      case Open => HalfClosedLocal
      case HalfClosedRemote => Closed
      case _ => this
    }

    function CloseRead(): StreamState {
      match this
      case Open => HalfClosedRemote
      case HalfClosedLocal => Closed
      case _ => this
    }
  }

  // ---------- flow control ----------

  datatype Flow = Flow(maxOffset: u64, receivedOffset: u64, sentOffset: u64, maxWindow: u64) {
    // The sum is a 64-bit one.
    predicate CanSend(len: nat) {
      (sentOffset + len) % U64 <= maxOffset
    }

    function Reserve(len: nat): Flow {
      this.(sentOffset := (sentOffset + len) % U64)
    }

    function UpdateWindow(newMax: u64): Flow {
      if newMax > maxOffset then this.(maxOffset := newMax) else this
    }

    function Received(offset: u32, len: u32): Flow {
      if offset + len > receivedOffset then this.(receivedOffset := offset + len) else this
    }
  }

  function NewFlow(window: u64): Flow {
    Flow(window, 0, 0, window)
  }

  // A write on a stream in the given state: the offset handed out, or why not.
  function WriteStep(state: StreamState, flow: Flow, len: nat): (Result<u32>, Flow) {
    if !state.CanWrite() then (Err(InvalidState), flow)
    else if !flow.CanSend(len) then (Err(Error.FlowControl), flow)
    else (Ok(flow.sentOffset % U32), flow.Reserve(len))
  }

  class FlowControl {
    var maxOffset: u64
    var receivedOffset: u64
    var sentOffset: u64
    const maxWindow: u64

    ghost function View(): Flow
      reads this
    {
      Flow(maxOffset, receivedOffset, sentOffset, maxWindow)
    }

    constructor (window: u64)
      ensures View() == NewFlow(window)
    {
      maxOffset, receivedOffset, sentOffset, maxWindow := window, 0, 0, window;
    }

    // The answer is about the reservation it stands before: whether that would
    // leave the sent offset within what the receiver granted.
    method CanSend(len: nat) returns (yes: bool)
      ensures yes <==> View().Reserve(len).sentOffset <= maxOffset
    {
      yes := (sentOffset + len) % U64 <= maxOffset;
    }

    // Hands out the current offset, cut to 32 bits.
    method ReserveSend(len: nat) returns (offset: u32)
      modifies this
      ensures offset == old(sentOffset) % U32
      ensures View() == old(View()).Reserve(len)
    {
      offset := sentOffset % U32;
      sentOffset := (sentOffset + len) % U64;
    }

    method UpdateWindow(newMax: u64)
      modifies this
      ensures View() == old(View()).UpdateWindow(newMax)
    {
      if newMax > maxOffset {
        maxOffset := newMax;
      }
    }

    method Received(offset: u32, len: u32)
      modifies this
      ensures View() == old(View()).Received(offset, len)
    {
      var end := offset + len;
      if end > receivedOffset {
        receivedOffset := end;
      }
    }
  }

  // ---------- the receive buffer ----------

  datatype Fragment = Fragment(offset: u32, data: bytes)

  ghost predicate Sorted(s: seq<Fragment>) {
    forall i, j | 0 <= i < j < |s| :: s[i].offset <= s[j].offset
  }

  // sort_by_key is a stable sort; it is rendered as an insertion sort, which
  // StableSortIsUnique shows to be no loss.
  function Insert(s: seq<Fragment>, x: Fragment): seq<Fragment> {
    if s == [] || s[|s| - 1].offset <= x.offset then s + [x]
    else Insert(s[..|s| - 1], x) + [s[|s| - 1]]
  }

  function StableSort(buf: seq<Fragment>): seq<Fragment> {
    if buf == [] then [] else Insert(StableSort(buf[..|buf| - 1]), buf[|buf| - 1])
  }

  // The fragments of s at one offset, in order.
  ghost function At(s: seq<Fragment>, offset: u32): seq<Fragment> {
    if s == [] then []
    else At(s[..|s| - 1], offset) + (if s[|s| - 1].offset == offset then [s[|s| - 1]] else [])
  }

  lemma {:induction false} InsertSorts(s: seq<Fragment>, x: Fragment)
    requires Sorted(s)
    ensures Sorted(Insert(s, x)) && multiset(Insert(s, x)) == multiset(s) + multiset{x}
  {
    if s != [] && s[|s| - 1].offset > x.offset {
      var init, last := s[..|s| - 1], s[|s| - 1];
      var r := Insert(init, x);
      assert Insert(s, x) == r + [last] && s == init + [last];
      hide Insert;
      InsertSorts(init, x);
      forall i | 0 <= i < |r| ensures r[i].offset <= last.offset {
        assert r[i] in multiset(init) + multiset{x};
        assert r[i] == x || r[i] in init;
      }
      assert multiset(r + [last]) == multiset(r) + multiset{last};
    }
  }

  lemma AtAppend(s: seq<Fragment>, x: Fragment, o: u32)
    ensures At(s + [x], o) == At(s, o) + (if x.offset == o then [x] else [])
  {
    assert (s + [x])[..|s|] == s;
  }

  lemma {:induction false} InsertIsStable(s: seq<Fragment>, x: Fragment, o: u32)
    ensures At(Insert(s, x), o) == At(s + [x], o)
  {
    if s == [] || s[|s| - 1].offset <= x.offset {
    } else {
      var init, last := s[..|s| - 1], s[|s| - 1];
      var r := Insert(init, x);
      assert Insert(s, x) == r + [last] && s == init + [last];
      hide Insert, At;
      InsertIsStable(init, x, o);
      AtAppend(r, last, o);
      AtAppend(init, x, o);
      AtAppend(init, last, o);
      AtAppend(s, x, o);
    }
  }

  lemma {:induction false} StableSortSorts(buf: seq<Fragment>)
    ensures Sorted(StableSort(buf)) && multiset(StableSort(buf)) == multiset(buf)
    ensures |StableSort(buf)| == |buf|
  {
    hide Insert;
    if buf != [] {
      var init, last := buf[..|buf| - 1], buf[|buf| - 1];
      StableSortSorts(init);
      InsertSorts(StableSort(init), last);
      assert buf == init + [last];
    }
    assert |multiset(StableSort(buf))| == |multiset(buf)|;
  }

  lemma {:induction false} StableSortIsStable(buf: seq<Fragment>, o: u32)
    ensures At(StableSort(buf), o) == At(buf, o)
  {
    if buf != [] {
      var init, last := buf[..|buf| - 1], buf[|buf| - 1];
      var s := StableSort(init);
      assert StableSort(buf) == Insert(s, last) && buf == init + [last];
      hide *;
      StableSortIsStable(init, o);
      InsertIsStable(s, last, o);
      AtAppend(s, last, o);
      AtAppend(init, last, o);
    }
  }

  lemma {:induction false} AtMember(s: seq<Fragment>, o: u32)
    ensures At(s, o) != [] <==> exists i :: 0 <= i < |s| && s[i].offset == o
  {
    if s != [] {
      var init, last := s[..|s| - 1], s[|s| - 1];
      AtMember(init, o);
      if i :| 0 <= i < |s| && s[i].offset == o {
        assert i < |init| ==> init[i].offset == o;
      }
      if i :| 0 <= i < |init| && init[i].offset == o {
        assert s[i].offset == o;
      }
    }
  }

  // Any two stable sorts of the same fragments agree.
  lemma {:induction false} StableSortIsUnique(a: seq<Fragment>, b: seq<Fragment>)
    requires Sorted(a) && Sorted(b)
    requires forall o: u32 :: At(a, o) == At(b, o)
    ensures a == b
  {
    if a == [] && b == [] {
    } else if a == [] {
      AtMember(a, b[0].offset); AtMember(b, b[0].offset);
    } else if b == [] {
      AtMember(a, a[0].offset); AtMember(b, a[0].offset);
    } else {
      var a', x, b', y := a[..|a| - 1], a[|a| - 1], b[..|b| - 1], b[|b| - 1];
      assert a == a' + [x] && b == b' + [y];
      LastOffsets(a, b);
      LastOffsets(b, a);
      hide At;
      AtInit(a', x, b', y, x.offset);
      forall o: u32 ensures At(a', o) == At(b', o) {
        assert At(a, o) == At(b, o);
        AtInit(a', x, b', y, o);
      }
      StableSortIsUnique(a', b');
    }
  }

  lemma SameLast<T>(a: seq<T>, x: T, b: seq<T>, y: T)
    requires a + [x] == b + [y]
    ensures a == b && x == y
  {
    assert (a + [x])[..|a|] == a && (b + [y])[..|b|] == b;
    assert (a + [x])[|a|] == x && (b + [y])[|b|] == y;
  }

  lemma AtInit(a: seq<Fragment>, x: Fragment, b: seq<Fragment>, y: Fragment, o: u32)
    requires x.offset == y.offset && At(a + [x], o) == At(b + [y], o)
    ensures At(a, o) == At(b, o) && (x.offset == o ==> x == y)
  {
    AtAppend(a, x, o);
    AtAppend(b, y, o);
    hide At;
    var p, q := At(a, o), At(b, o);
    if x.offset == o {
      assert p + [x] == q + [y];
      SameLast(p, x, q, y);
    } else {
      assert p + [] == p && q + [] == q;
    }
  }

  lemma LastOffsets(a: seq<Fragment>, b: seq<Fragment>)
    requires a != [] && b != [] && Sorted(b)
    requires forall o: u32 :: At(a, o) == At(b, o)
    ensures a[|a| - 1].offset <= b[|b| - 1].offset
  {
    var o := a[|a| - 1].offset;
    AtMember(a, o);
    AtMember(b, o);
  }

  // ---------- reading ----------

  // The next offset a read expects; the addition is a 32-bit one.
  function Next(expected: u32, data: bytes): u32 {
    (expected + |data| % U32) % U32
  }

  // How many fragments of s a read takes, with `got` bytes collected so far.
  function Walk(s: seq<Fragment>, expected: u32, got: nat, maxLen: nat): (k: nat)
    ensures k <= |s|
  {
    if s == [] || s[0].offset != expected then 0
    else if got + |s[0].data| >= maxLen then 1
    else 1 + Walk(s[1..], Next(expected, s[0].data), got + |s[0].data|, maxLen)
  }

  function Concat(s: seq<Fragment>): bytes {
    if s == [] then [] else s[0].data + Concat(s[1..])
  }

  lemma {:induction false} ConcatAppend(s: seq<Fragment>, x: Fragment)
    ensures Concat(s + [x]) == Concat(s) + x.data
  {
    if s != [] {
      ConcatAppend(s[1..], x);
      assert (s + [x])[1..] == s[1..] + [x];
    }
  }

  // A read: what it returns, what it takes and what it keeps.
  datatype ReadOutcome = ReadOutcome(result: Result<bytes>, taken: seq<Fragment>, kept: seq<Fragment>)

  function ReadBuffer(state: StreamState, buf: seq<Fragment>, maxLen: nat): ReadOutcome {
    if buf == [] then
      ReadOutcome(if state.CanRead() then Ok([]) else Err(InvalidState), [], [])
    else
      var s := StableSort(buf);
      var k := Walk(s, 0, 0, maxLen);
      ReadOutcome(Ok(Concat(s[..k])), s[..k], s[k..])
  }

  // The loop of a read over the sorted buffer.
  method TakeContiguous(s: seq<Fragment>, maxLen: nat) returns (result: bytes, consumed: nat)
    ensures consumed == Walk(s, 0, 0, maxLen) && result == Concat(s[..consumed])
  {
    var expected: u32 := 0;
    result, consumed := [], 0;
    while consumed < |s|
      invariant consumed <= |s|
      invariant result == Concat(s[..consumed])
      invariant Walk(s, 0, 0, maxLen) == consumed + Walk(s[consumed..], expected, |result|, maxLen)
    {
      var f := s[consumed];
      if f.offset != expected {
        break;
      }
      ConcatAppend(s[..consumed], f);
      assert s[..consumed + 1] == s[..consumed] + [f] && s[consumed..][1..] == s[consumed + 1..];
      result := result + f.data;
      expected := Next(expected, f.data);
      consumed := consumed + 1;
      if |result| >= maxLen {
        break;
      }
    }
  }

  class Stream {
    const id: u32
    const isClient: bool
    const flow: FlowControl
    var state: StreamState
    var receiveBuffer: seq<Fragment>

    constructor (id: u32, isClient: bool, window: u64)
      ensures this.id == id && this.isClient == isClient && state == Open && receiveBuffer == []
      ensures fresh(flow) && flow.View() == NewFlow(window)
    {
      this.id, this.isClient, state, receiveBuffer := id, isClient, Open, [];
      flow := new FlowControl(window);
    }

    method CloseWrite()
      modifies this`state
      ensures state == old(state).CloseWrite()
    {
      match state {
        case Open => state := HalfClosedLocal;
        case HalfClosedRemote => state := Closed;
        case _ =>
      }
    }

    method CloseRead()
      modifies this`state
      ensures state == old(state).CloseRead()
    {
      match state {
        case Open => state := HalfClosedRemote;
        case HalfClosedLocal => state := Closed;
        case _ =>
      }
    }

    method Write(data: bytes) returns (r: Result<u32>)
      modifies flow
      ensures (r, flow.View()) == WriteStep(state, old(flow.View()), |data|)
    {
      if !state.CanWrite() {
        return Err(InvalidState);
      }
      var fits := flow.CanSend(|data|);
      if !fits {
        return Err(Error.FlowControl);
      }
      var offset := flow.ReserveSend(|data|);
      r := Ok(offset);
    }

    method ReceiveData(offset: u32, data: bytes)
      modifies this`receiveBuffer, flow
      ensures receiveBuffer == old(receiveBuffer) + [Fragment(offset, data)]
      ensures flow.View() == old(flow.View()).Received(offset, |data| % U32)
    {
      receiveBuffer := receiveBuffer + [Fragment(offset, data)];
      flow.Received(offset, |data| % U32);
    }

    // Sorts the buffer, walks it for as long as it is contiguous from offset 0
    // and drains what was walked.
    method Read(maxLen: nat) returns (r: Result<bytes>)
      modifies this`receiveBuffer
      ensures r == ReadBuffer(state, old(receiveBuffer), maxLen).result
      ensures receiveBuffer == ReadBuffer(state, old(receiveBuffer), maxLen).kept
    {
      if !state.CanRead() && receiveBuffer == [] {
        return Err(InvalidState);
      }
      if receiveBuffer == [] {
        return Ok([]);
      }
      receiveBuffer := StableSort(receiveBuffer);
      StableSortSorts(old(receiveBuffer));
      ghost var s := receiveBuffer;
      if receiveBuffer[0].offset != 0 {
        assert s[..0] == [] && s[0..] == s;
        return Ok([]);
      }
      var result, consumed := TakeContiguous(receiveBuffer, maxLen);
      receiveBuffer := receiveBuffer[consumed..];
      r := Ok(result);
    }
  }
}
