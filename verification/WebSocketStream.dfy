/**
 The data handler of the WebSocket endpoint (scripts/fleet-drill.ts): it keeps the bytes no frame has used yet across
 data events. Which frames it handles depends on the byte stream alone, unless a close frame is followed by others.
 */
module WebSocketStream {
  import opened Common
  import opened WebSocket

  // ---- the frames of a stream

  /** All the frames at the front of the stream, one after another. */
  function Frames(b: seq<byte>): seq<Frame>
    decreases |b|
  {
    match ParseFrame(b)
    case None => []
    case Some(f) => [f] + Frames(b[f.size..])
  }

  /** What is left behind them: the front of a frame still to come. */
  function Rest(b: seq<byte>): (r: seq<byte>)
    ensures ParseFrame(r).None?
    decreases |b|
  {
    match ParseFrame(b)
    case None => b
    case Some(f) => Rest(b[f.size..])
  }

  lemma FramesUnfold(b: seq<byte>)
    requires ParseFrame(b).Some?
    ensures var tail := b[ParseFrame(b).value.size..];
            Frames(b) == [ParseFrame(b).value] + Frames(tail) && Rest(b) == Rest(tail)
  {
  }

  lemma DropFront<T>(a: seq<T>, b: seq<T>, n: nat)
    requires n <= |a|
    ensures (a + b)[n..] == a[n..] + b
  {
  }

  /** The frames of a longer stream begin with those of a shorter one, and the others follow from what was left. */
  lemma {:induction false} FramesAppend(a: seq<byte>, b: seq<byte>)
    ensures Frames(a + b) == Frames(a) + Frames(Rest(a) + b)
    ensures Rest(a + b) == Rest(Rest(a) + b)
    decreases |a|
  {
    if ParseFrame(a).Some? {
      var f := ParseFrame(a).value;
      var tail := a[f.size..];
      FramesAppend(tail, b);
      ParseStable(a, b);
      DropFront(a, b, f.size);
      FramesUnfold(a);
      FramesUnfold(a + b);
      Regroup([f], Frames(tail), [], Frames(Rest(tail) + b));
    }
  }

  // ---- the handler

  /** The loop of one data event: frames are handled until none is complete, or a close frame ends the event. */
  function Handled(b: seq<byte>): (r: (seq<Frame>, seq<byte>))
    decreases |b|
  {
    match ParseFrame(b)
    case None => ([], b)
    case Some(f) =>
      if f.opcode == OPCODE_CLOSE then ([f], b[f.size..])
      else
        var (fs, rest) := Handled(b[f.size..]);
        ([f] + fs, rest)
  }

  /** The handler over the data events: the frames handled and the bytes kept. */
  ghost function Deliver(pending: seq<byte>, chunks: seq<seq<byte>>): (seq<Frame>, seq<byte>)
    decreases |chunks|
  {
    if chunks == [] then ([], pending)
    else
      var (fs, rest) := Handled(pending + chunks[0]);
      var (more, last) := Deliver(rest, chunks[1..]);
      (fs + more, last)
  }

  ghost function Joined(chunks: seq<seq<byte>>): seq<byte> {
    if chunks == [] then [] else chunks[0] + Joined(chunks[1..])
  }

  /** No frame follows a close frame. */
  ghost predicate CloseIsLast(fs: seq<Frame>) {
    forall i :: 0 <= i < |fs| - 1 ==> fs[i].opcode != OPCODE_CLOSE
  }

  lemma {:induction false} HandledAll(b: seq<byte>)
    requires CloseIsLast(Frames(b))
    ensures Handled(b) == (Frames(b), Rest(b))
    decreases |b|
  {
    if ParseFrame(b).Some? {
      var f := ParseFrame(b).value;
      var tail := b[f.size..];
      assert Frames(b)[1..] == Frames(tail);
      if f.opcode == OPCODE_CLOSE {
        assert Frames(b)[0].opcode == OPCODE_CLOSE;
        assert Frames(tail) == [];
        NoFrameLeft(tail);
        assert Frames(b) == [f];
      } else {
        assert CloseIsLast(Frames(tail)) by {
          forall i | 0 <= i < |Frames(tail)| - 1 ensures Frames(tail)[i].opcode != OPCODE_CLOSE {
            assert Frames(tail)[i] == Frames(b)[i + 1];
          }
        }
        HandledAll(tail);
      }
    }
  }

  lemma NoFrameLeft(b: seq<byte>)
    requires Frames(b) == []
    ensures ParseFrame(b).None? && Rest(b) == b
  {
  }

  lemma CloseIsLastSplits(a: seq<Frame>, b: seq<Frame>)
    requires CloseIsLast(a + b)
    ensures CloseIsLast(a) && CloseIsLast(b)
  {
    forall i | 0 <= i < |a| - 1 ensures a[i].opcode != OPCODE_CLOSE { assert (a + b)[i] == a[i]; }
    forall i | 0 <= i < |b| - 1 ensures b[i].opcode != OPCODE_CLOSE { assert (a + b)[|a| + i] == b[i]; }
  }

  /** However the stream is cut, the handler handles its frames, in order, and keeps the same bytes. */
  lemma {:induction false} DeliverAll(pending: seq<byte>, chunks: seq<seq<byte>>)
    requires ParseFrame(pending).None? && CloseIsLast(Frames(pending + Joined(chunks)))
    ensures Deliver(pending, chunks) == (Frames(pending + Joined(chunks)), Rest(pending + Joined(chunks)))
    decreases |chunks|
  {
    if chunks == [] {
      assert pending + [] == pending;
    } else {
      var b := pending + chunks[0];
      var later := Joined(chunks[1..]);
      assert pending + Joined(chunks) == b + later;
      FramesAppend(b, later);
      CloseIsLastSplits(Frames(b), Frames(Rest(b) + later));
      HandledAll(b);
      DeliverAll(Rest(b), chunks[1..]);
    }
  }

  /**
   One event handles the first frames of its bytes, at least up to a close frame, and keeps the bytes of the others.
   */
  lemma {:induction false} EventKeeps(b: seq<byte>)
    ensures var (fs, kept) := Handled(b); fs + Frames(kept) == Frames(b) && Rest(kept) == Rest(b)
    decreases |b|
  {
    if ParseFrame(b).Some? {
      var f := ParseFrame(b).value;
      FramesUnfold(b);
      if f.opcode != OPCODE_CLOSE {
        var tail := b[f.size..];
        EventKeeps(tail);
        Regroup([f], Handled(tail).0, [], Frames(Handled(tail).1));
      }
    }
  }

  lemma NextEvent(b: seq<byte>, more: seq<byte>)
    ensures var (fs, kept) := Handled(b);
            fs + Frames(kept + more) == Frames(b + more) && Rest(kept + more) == Rest(b + more)
  {
    var (fs, kept) := Handled(b);
    EventKeeps(b);
    FramesAppend(b, more);
    FramesAppend(kept, more);
    Regroup(fs, Frames(kept), [], Frames(Rest(b) + more));
  }

  /**
   However the stream is cut, no frame is lost, doubled or out of order: the frames handled and those still in the bytes
   kept are the frames of the stream, and what is left behind them is the stream's.
   */
  lemma {:induction false} NothingLost(pending: seq<byte>, chunks: seq<seq<byte>>)
    ensures var (fs, kept) := Deliver(pending, chunks);
            && fs + Frames(kept) == Frames(pending + Joined(chunks))
            && Rest(kept) == Rest(pending + Joined(chunks))
    decreases |chunks|
  {
    if chunks == [] {
      assert pending + [] == pending;
    } else {
      var b, later := pending + chunks[0], Joined(chunks[1..]);
      assert pending + Joined(chunks) == b + later;
      var (fs, kept) := Handled(b);
      NothingLost(kept, chunks[1..]);
      NextEvent(b, later);
      var (more, last) := Deliver(kept, chunks[1..]);
      Regroup(fs, more, [], Frames(last));
    }
  }

  // ---- when chunks matter

  ghost function FirstClose(fs: seq<Frame>): (i: nat)
    requires exists k :: 0 <= k < |fs| && fs[k].opcode == OPCODE_CLOSE
    ensures i < |fs| && fs[i].opcode == OPCODE_CLOSE
    ensures forall k :: 0 <= k < i ==> fs[k].opcode != OPCODE_CLOSE
  {
    if fs[0].opcode == OPCODE_CLOSE then 0
    else
      var k :| 0 <= k < |fs| && fs[k].opcode == OPCODE_CLOSE;
      assert fs[1..][k - 1] == fs[k];
      1 + FirstClose(fs[1..])
  }

  /** A stream of one frame with a stream behind it. */
  lemma FrameInFront(b: seq<byte>, a: seq<byte>)
    requires ParseFrame(b).Some?
    ensures var f := ParseFrame(b).value;
            Frames(b[..f.size] + a) == [f] + Frames(a) && Rest(b[..f.size] + a) == Rest(a)
  {
    var f := ParseFrame(b).value;
    OneFrame(b);
    FramesAppend(b[..f.size], a);
    assert [] + a == a;
  }

  /** The stream b cut into a and c behind its n-th frame. */
  ghost predicate CutAt(b: seq<byte>, n: nat, a: seq<byte>, c: seq<byte>) {
    && n <= |Frames(b)| && b == a + c
    && Frames(a) == Frames(b)[..n] && Rest(a) == [] && Frames(c) == Frames(b)[n..]
  }

  lemma TakeBehindHead<T>(x: T, s: seq<T>, n: nat)
    requires n <= |s|
    ensures ([x] + s)[..n + 1] == [x] + s[..n] && ([x] + s)[n + 1..] == s[n..]
  {
  }

  lemma SplitAt<T>(b: seq<T>, k: nat, a: seq<T>, c: seq<T>)
    requires k <= |b| && b[k..] == a + c
    ensures b == (b[..k] + a) + c
  {
    assert b == b[..k] + b[k..];
  }

  lemma CutStep(b: seq<byte>, n: nat, a: seq<byte>, c: seq<byte>)
    requires ParseFrame(b).Some? && CutAt(b[ParseFrame(b).value.size..], n, a, c)
    ensures CutAt(b, n + 1, b[..ParseFrame(b).value.size] + a, c)
  {
    var f := ParseFrame(b).value;
    FramesUnfold(b);
    FrameInFront(b, a);
    TakeBehindHead(f, Frames(b[f.size..]), n);
    SplitAt(b, f.size, a, c);
  }

  /** The stream can be cut behind any of its frames. */
  lemma {:induction false} CutAfter(b: seq<byte>, n: nat) returns (a: seq<byte>, c: seq<byte>)
    requires n <= |Frames(b)|
    ensures CutAt(b, n, a, c)
    decreases n
  {
    if n == 0 {
      a, c := [], b;
      assert ParseFrame([]).None?;
    } else {
      var f := ParseFrame(b).value;
      a, c := CutAfter(b[f.size..], n - 1);
      CutStep(b, n - 1, a, c);
      a := b[..f.size] + a;
    }
  }

  /** The bytes of the first frame are a stream of that one frame. */
  lemma OneFrame(b: seq<byte>)
    requires ParseFrame(b).Some?
    ensures var f := ParseFrame(b).value; Frames(b[..f.size]) == [f] && Rest(b[..f.size]) == []
  {
    var f := ParseFrame(b).value;
    var w := PrintOfParse(b);
    ParseOfPrint(w, []);
    assert Print(w) + [] == b[..f.size];
    assert b[..f.size][f.size..] == [];
  }

  /** Whether the frames handled depend only on the stream, not on how it is cut. */
  ghost predicate ChunkIndependent(stream: seq<byte>) {
    forall chunks :: Joined(chunks) == stream ==> Deliver([], chunks).0 == Deliver([], [stream]).0
  }

  lemma DeliverOne(stream: seq<byte>)
    ensures Joined([stream]) == stream
    ensures Deliver([], [stream]).0 == Handled(stream).0
  {
    assert [stream][1..] == [];
    assert [] + stream == stream;
    assert Handled(stream).0 + [] == Handled(stream).0;
  }

  lemma DeliverTwo(a: seq<byte>, c: seq<byte>)
    ensures Joined([a, c]) == a + c
    ensures Deliver([], [a, c]).0 == Handled(a).0 + Handled(Handled(a).1 + c).0
  {
    assert [a, c][1..] == [c] && [c][1..] == [];
    assert Joined([c]) == c + Joined([]);
    assert [] + a == a && c + [] == c;
    assert Deliver(Handled(a).1, [c]).0 == Handled(Handled(a).1 + c).0 + [];
  }

  /** One event stops at the first close frame. */
  lemma {:induction false} HandledUpToClose(b: seq<byte>, i: nat)
    requires i < |Frames(b)| && Frames(b)[i].opcode == OPCODE_CLOSE
    requires forall k :: 0 <= k < i ==> Frames(b)[k].opcode != OPCODE_CLOSE
    ensures Handled(b).0 == Frames(b)[..i + 1]
    decreases |b|
  {
    var f := ParseFrame(b).value;
    var tail := b[f.size..];
    assert Frames(b)[0] == f;
    if i > 0 {
      assert f.opcode != OPCODE_CLOSE;
      forall k | 0 <= k < i - 1 ensures Frames(tail)[k].opcode != OPCODE_CLOSE {
        assert Frames(tail)[k] == Frames(b)[k + 1];
      }
      HandledUpToClose(tail, i - 1);
    }
  }

  lemma SomethingHandled(b: seq<byte>)
    requires Frames(b) != []
    ensures Handled(b).0 != []
  {
  }

  /** A stream with frames behind its first close frame handles more of them when it is cut right behind it. */
  lemma CutBehindClose(stream: seq<byte>)
    requires !CloseIsLast(Frames(stream))
    ensures !ChunkIndependent(stream)
  {
    var fs := Frames(stream);
    var i := FirstClose(fs);
    assert i < |fs| - 1;
    HandledUpToClose(stream, i);
    var a, c := CutAfter(stream, i + 1);
    HandledAll(a);
    assert Frames(c) != [];
    SomethingHandled(c);
    assert [] + c == c;
    DeliverOne(stream);
    DeliverTwo(a, c);
    assert |Deliver([], [a, c]).0| > |Deliver([], [stream]).0|;
  }

  /** The frames stand one behind the other from the front of the bytes, and what is left begins no whole frame. */
  ghost predicate InLine(b: seq<byte>, fs: seq<Frame>, rest: seq<byte>)
    decreases |fs|
  {
    if fs == [] then rest == b && ParseFrame(b).None?
    else ParseFrame(b) == Some(fs[0]) && InLine(b[fs[0].size..], fs[1..], rest)
  }

  lemma {:induction false} FramesStandInLine(b: seq<byte>, fs: seq<Frame>, rest: seq<byte>)
    ensures InLine(b, fs, rest) <==> fs == Frames(b) && rest == Rest(b)
    decreases |b|
  {
    if ParseFrame(b).Some? {
      var f := ParseFrame(b).value;
      if fs != [] {
        FramesStandInLine(b[f.size..], fs[1..], rest);
        assert fs == [fs[0]] + fs[1..];
      }
    }
  }

  /** Two empty close frames, one behind the other. */
  const TWO_CLOSES: seq<byte> := [0x88, 0, 0x88, 0]

  const EMPTY_CLOSE := Frame(OPCODE_CLOSE, [], 2)

  lemma OneClose()
    ensures TWO_CLOSES[..2] == TWO_CLOSES[2..] == [0x88, 0] && ParseFrame(TWO_CLOSES) == Some(EMPTY_CLOSE)
    ensures ParseFrame([0x88, 0]) == Some(EMPTY_CLOSE) && Frames([0x88, 0]) == [EMPTY_CLOSE]
    ensures Handled([0x88, 0]) == ([EMPTY_CLOSE], [])
  {
    var one: seq<byte> := [0x88, 0];
    assert one[2..] == [] && one[2..2] == [];
  }

  /** In one chunk the second of two close frames waits; cut between them, both are handled. */
  lemma TwoClosesDiffer()
    ensures Frames(TWO_CLOSES) == [EMPTY_CLOSE, EMPTY_CLOSE]
    ensures Deliver([], [TWO_CLOSES]).0 == [EMPTY_CLOSE]
    ensures Deliver([], [TWO_CLOSES[..2], TWO_CLOSES[2..]]).0 == [EMPTY_CLOSE, EMPTY_CLOSE]
    ensures !ChunkIndependent(TWO_CLOSES)
  {
    OneClose();
    assert Frames(TWO_CLOSES) == [EMPTY_CLOSE] + Frames([0x88, 0]);
    DeliverOne(TWO_CLOSES);
    DeliverTwo([0x88, 0], [0x88, 0]);
    assert Handled([0x88, 0]).1 + [0x88, 0] == [0x88, 0];
    assert Frames(TWO_CLOSES)[0].opcode == OPCODE_CLOSE;
    CutBehindClose(TWO_CLOSES);
  }

  /**
   The frames handled do not depend on how the stream is cut into chunks if and only if no frame of the stream follows
   a close frame; then they are the stream's frames, and the bytes kept are what they leave.
   */
  lemma ChunksMatterOnlyBehindClose(stream: seq<byte>)
    ensures ChunkIndependent(stream) <==> CloseIsLast(Frames(stream))
    ensures CloseIsLast(Frames(stream)) ==>
              forall chunks :: Joined(chunks) == stream ==> Deliver([], chunks) == (Frames(stream), Rest(stream))
  {
    if CloseIsLast(Frames(stream)) {
      assert [] + stream == stream;
      forall chunks | Joined(chunks) == stream ensures Deliver([], chunks) == (Frames(stream), Rest(stream)) {
        DeliverAll([], chunks);
      }
      DeliverOne(stream);
    } else {
      CutBehindClose(stream);
    }
  }

  // ---- the code

  /** The state of one connection: the bytes kept, and the frames handled so far. */
  class Connection {
    var pending: seq<byte>
    var handled: seq<Frame>

    constructor ()
      ensures pending == [] && handled == []
    {
      pending, handled := [], [];
    }

    /** A data event. */
    method OnData(chunk: seq<byte>)
      modifies this
      ensures handled == old(handled) + Handled(old(pending) + chunk).0
      ensures pending == Handled(old(pending) + chunk).1
    {
      pending := pending + chunk;
      ghost var whole := Handled(pending);
      ghost var before := handled;
      var frame := WsParse(pending);
      while frame.Some?
        invariant frame == ParseFrame(pending)
        invariant before + whole.0 == handled + Handled(pending).0
        invariant whole.1 == Handled(pending).1
        decreases |pending|
      {
        OnePass(handled, pending);
        pending := pending[frame.value.size..];
        handled := handled + [frame.value];
        if frame.value.opcode == OPCODE_CLOSE { return; }
        frame := WsParse(pending);
      }
      assert handled + [] == handled;
    }
  }

  /** One pass of the handler's loop moves one frame from what is to be handled to what has been. */
  lemma OnePass(handled: seq<Frame>, pending: seq<byte>)
    requires ParseFrame(pending).Some?
    ensures var f := ParseFrame(pending).value;
            var tail := pending[f.size..];
            if f.opcode == OPCODE_CLOSE then Handled(pending) == ([f], tail)
            else
              && handled + Handled(pending).0 == (handled + [f]) + Handled(tail).0
              && Handled(pending).1 == Handled(tail).1
  {
    var f := ParseFrame(pending).value;
    var tail := pending[f.size..];
    if f.opcode != OPCODE_CLOSE {
      assert handled + ([f] + Handled(tail).0) == (handled + [f]) + Handled(tail).0;
    }
  }

  lemma DeliverStep(handled: seq<Frame>, pending: seq<byte>, chunks: seq<seq<byte>>, i: nat)
    requires i < |chunks|
    ensures var event := Handled(pending + chunks[i]);
            && handled + Deliver(pending, chunks[i..]).0 == (handled + event.0) + Deliver(event.1, chunks[i + 1..]).0
            && Deliver(pending, chunks[i..]).1 == Deliver(event.1, chunks[i + 1..]).1
  {
    assert chunks[i..][0] == chunks[i] && chunks[i..][1..] == chunks[i + 1..];
    var event := Handled(pending + chunks[i]);
    var more := Deliver(event.1, chunks[i + 1..]);
    assert handled + (event.0 + more.0) == (handled + event.0) + more.0;
  }

  /** A connection fed a stream in chunks handles what Deliver says. */
  method Feed(chunks: seq<seq<byte>>) returns (handled: seq<Frame>, pending: seq<byte>)
    ensures handled == Deliver([], chunks).0 && pending == Deliver([], chunks).1
  {
    var connection := new Connection();
    assert chunks[0..] == chunks;
    assert [] + Deliver([], chunks).0 == Deliver([], chunks).0;
    for i := 0 to |chunks|
      invariant connection.handled + Deliver(connection.pending, chunks[i..]).0 == Deliver([], chunks).0
      invariant Deliver(connection.pending, chunks[i..]).1 == Deliver([], chunks).1
    {
      DeliverStep(connection.handled, connection.pending, chunks, i);
      connection.OnData(chunks[i]);
    }
    assert chunks[|chunks|..] == [];
    assert connection.handled + [] == connection.handled;
    return connection.handled, connection.pending;
  }
}
