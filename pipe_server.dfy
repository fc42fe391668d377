/** The controller's end of the pipe (`PipeServer`): one background receive
    loop that demultiplexes frames into per-ident queues, a polling
    `ReadMessage(ident)`, `SendMessage(ident, message)` and `Dispose`. The
    receive loop and the readers run on different tasks in the source; here
    each iteration is one explicit step. */
module Server {
  import opened Wrappers
  import opened Ascii
  import opened Frame
  import opened Channels

  /** Why an iteration of the receive loop threw. */
  datatype Fault =
    | BadFrame(error: FrameError)     // `new Byte[negative]`
    | IndexOutOfRange(parts: nat)     // `split[1]` on a 0- or 1-part split

  /** What one `CheckForNewMessages` did with a frame. */
  datatype Ingest = Queued(ident: string, body: string) | Dropped | Faulted(fault: Fault)

  /** `CheckForNewMessages` after the frame has been read: more than two
      pieces are ignored; otherwise `split[0]`/`split[1]` are indexed, which
      throws for fewer than two. */
  function Demux(m: Inbox, payload: string): (r: (Ingest, Inbox))
  {
    var split := Split(payload);
    if |split| > 2 then (Dropped, m)
    else if |split| == 1 then
      // `split[0]`'s queue is created before reading `split[1]` throws
      (Faulted(IndexOutOfRange(1)), if split[0] in m then m else m[split[0] := []])
    else if |split| == 0 then (Faulted(IndexOutOfRange(0)), m)
    else (Queued(split[0], split[1]), Enqueue(m, split[0], split[1]))
  }

  /** The three ways a demultiplexed frame can end, and what each does to the queues. */
  lemma DemuxCases(m: Inbox, payload: string)
    ensures |Split(payload)| > 2 ==> Demux(m, payload) == (Dropped, m)
    ensures |Split(payload)| == 0 ==> Demux(m, payload) == (Faulted(IndexOutOfRange(0)), m)
    ensures |Split(payload)| == 1 ==>
      var q := Demux(m, payload).1;
      && Demux(m, payload).0 == Faulted(IndexOutOfRange(1))
      && q.Keys == m.Keys + {Split(payload)[0]}
      && forall k :: Pending(q, k) == Pending(m, k)
    ensures |Split(payload)| == 2 ==>
      var q := Demux(m, payload).1;
      var s := Split(payload);
      && Pending(q, s[0]) == Pending(m, s[0]) + [s[1]]
      && forall k :: k != s[0] ==> Pending(q, k) == Pending(m, k)
  {
  }

  /** A message sent as `SendMessage(ident, body)` lands at the tail of
      `ident`'s queue, whenever ident and body are routable. */
  lemma DemuxJoin(m: Inbox, ident: string, body: string)
    requires Routable(ident, body)
    ensures Demux(m, Join(ident, body)) == (Queued(ident, body), Enqueue(m, ident, body))
  {
    SplitJoin(ident, body);
  }

  /** The worker's error reply with an empty exception message splits into
      one piece, so the server faults on it instead of dropping it, and the
      receive loop ends. */
  lemma EmptyErrorTextFaults(m: Inbox, channel: string)
    requires !HasDelimiter(channel)
    ensures var (outcome, q) := Demux(m, Join(channel + "-ERR", ""));
      && outcome == Faulted(IndexOutOfRange(1))
      && q.Keys == m.Keys + {channel + "-ERR"}
      && forall k :: Pending(q, k) == Pending(m, k)
  {
    var ident := channel + "-ERR";
    assert ident[|ident| - 1] == 'R';
    ErrSuffixNoDelimiter(channel);
    EmptyBody(ident);
  }

  /** Appending "-ERR" cannot create a "::". */
  lemma ErrSuffixNoDelimiter(channel: string)
    requires !HasDelimiter(channel)
    ensures !HasDelimiter(channel + "-ERR")
  {
    var s := channel + "-ERR";
    forall i | 0 <= i < |s| - 1
      ensures !(s[i] == ':' && s[i + 1] == ':')
    {
      if i + 1 < |channel| {
        assert s[i] == channel[i] && s[i + 1] == channel[i + 1];
      } else {
        assert s[i + 1] in "-ERR";
      }
    }
  }

  /** One poll of `ReadMessage(ident)`: a disposed pipe answers null; a
      non-empty queue gives up its head; otherwise the source keeps spinning
      until another task enqueues, which a single sequential step cannot see. */
  datatype Poll = Got(body: string) | WouldBlock | Closed

  function PollSpec(m: Inbox, disposed: bool, ident: string): (r: (Poll, Inbox))
    ensures disposed ==> r == (Closed, m)
    ensures !disposed && Pending(m, ident) != [] ==>
      r.0 == Got(Pending(m, ident)[0]) && Pending(r.1, ident) == Pending(m, ident)[1..]
    ensures !disposed && Pending(m, ident) == [] ==> r == (WouldBlock, m)
    ensures forall k :: k != ident ==> Pending(r.1, k) == Pending(m, k)
  {
    if disposed then (Closed, m)
    else if Pending(m, ident) != [] then
      var (body, m') := Dequeue(m, ident);
      (Got(body), m')
    else (WouldBlock, m)
  }

  /** The server as a value: its queues, whether the receive loop still
      runs, whether it was disposed, and the bytes not yet received. */
  datatype Pipe = Pipe(inbox: Inbox, receiving: bool, disposed: bool, input: seq<Byte>)

  /** One iteration of the receive loop; a loop that has stopped, or a
      disposed server, does nothing. */
  function Receive(p: Pipe): (q: Pipe)
    ensures q.disposed == p.disposed
    ensures !p.receiving || p.disposed ==> q == p
    ensures p.receiving && !p.disposed && q.receiving ==> |q.input| < |p.input|
  {
    if !p.receiving || p.disposed then p
    else
      var (frame, rest) := ReadSpec(p.input);
      if frame.Failure? then p.(receiving := false, input := rest)
      else
        var (outcome, m) := Demux(p.inbox, frame.value);
        assert !outcome.Faulted? ==> frame.value != "" by {
          if frame.value == "" { SplitEmpty(); }
        }
        p.(inbox := m, receiving := !outcome.Faulted?, input := rest)
  }

  lemma SplitEmpty()
    ensures Split("") == []
  {
    assert RawSplit("") == [""];
    assert [""][1..] == [];
  }

  /** What a blocking `ReadMessage(ident)` returns: a body, null once the
      server is disposed, or `Hang` when the queue is empty and the receive
      loop has stopped, so that the source would poll forever. */
  datatype Awaited = Message(body: string) | Null | Hang

  /** The blocking read with the receive loop run only when `ident`'s queue is
      empty. The loop fills each queue in arrival order whatever the
      interleaving, so this schedule yields the same body. */
  function Await(p: Pipe, ident: string): (r: (Awaited, Pipe))
    ensures r.1.disposed == p.disposed
    ensures r.0 == Null <==> p.disposed
    ensures r.0 == Hang ==> !r.1.receiving && Pending(r.1.inbox, ident) == []
    decreases p.receiving, |p.input|
  {
    if p.disposed then (Null, p)
    else if Pending(p.inbox, ident) != [] then
      var (body, m) := Dequeue(p.inbox, ident);
      (Message(body), p.(inbox := m))
    else if !p.receiving then (Hang, p)
    else
      Await(Receive(p), ident)
  }

  /** The receive loop only ever appends to a queue. */
  lemma ReceiveAppends(p: Pipe, k: string)
    ensures Pending(p.inbox, k) <= Pending(Receive(p).inbox, k)
  {
    if p.receiving && !p.disposed {
      var (frame, rest) := ReadSpec(p.input);
      if frame.Success? {
        DemuxCases(p.inbox, frame.value);
      }
    }
  }

  /** Channel isolation: a blocking read of `ident` takes nothing from any
      other queue, whatever the receive loop queues meanwhile. */
  lemma {:induction false} AwaitKeepsOthers(p: Pipe, ident: string, k: string)
    requires k != ident
    ensures Pending(p.inbox, k) <= Pending(Await(p, ident).1.inbox, k)
    decreases p.receiving, |p.input|
  {
    if !p.disposed && Pending(p.inbox, ident) == [] && p.receiving {
      ReceiveAppends(p, k);
      AwaitKeepsOthers(Receive(p), ident, k);
    }
  }

  /** A message the pipe carries unchanged: routable, ASCII, and short
      enough for a non-negative length header. */
  predicate Deliverable(ident: string, body: string)
  {
    Routable(ident, body) && IsAscii(ident) && IsAscii(body) && |ident| + 2 + |body| <= Int32Max
  }

  /** The bodies among `msgs` that were sent on `ident`, in order. */
  function Bodies(msgs: seq<(string, string)>, ident: string): (r: seq<string>)
    ensures |r| <= |msgs|
  {
    if msgs == [] then []
    else (if msgs[0].0 == ident then [msgs[0].1] else []) + Bodies(msgs[1..], ident)
  }

  lemma DeliverableFrame(ident: string, body: string, rest: seq<Byte>)
    requires Deliverable(ident, body)
    ensures ReadSpec(EncodeFrame(Join(ident, body)) + rest) == (Success(Join(ident, body)), rest)
  {
    var msg := Join(ident, body);
    assert msg == ident + "::" + body;
    assert IsAscii(msg) by {
      forall i | 0 <= i < |msg| ensures IsAsciiChar(msg[i]) {
        if i < |ident| { assert msg[i] == ident[i]; }
        else if i >= |ident| + 2 { assert msg[i] == body[i - |ident| - 2]; }
      }
    }
    FrameRoundTrip(msg, rest);
  }

  /** One receive-loop iteration on a stream that starts with a deliverable
      frame queues its body on its ident and consumes exactly that frame. */
  lemma ReceiveFrame(p: Pipe, ident: string, body: string, tail: seq<Byte>)
    requires p.receiving && !p.disposed && Deliverable(ident, body)
    requires p.input == EncodeFrame(Join(ident, body)) + tail
    ensures Receive(p) == p.(inbox := Enqueue(p.inbox, ident, body), input := tail)
  {
    DeliverableFrame(ident, body, tail);
    DemuxJoin(p.inbox, ident, body);
  }

  /** With `ident`'s queue empty, the blocking read runs the receive loop. */
  lemma AwaitStep(p: Pipe, ident: string)
    requires p.receiving && !p.disposed && Pending(p.inbox, ident) == []
    ensures Await(p, ident) == Await(Receive(p), ident)
  {
  }

  /** The queues after the receive loop has demultiplexed `msgs`. */
  function EnqueueFrames(m: Inbox, msgs: seq<(string, string)>): Inbox
    decreases |msgs|
  {
    if msgs == [] then m else EnqueueFrames(Enqueue(m, msgs[0].0, msgs[0].1), msgs[1..])
  }

  /** Each channel receives its own bodies, in arrival order, behind what was
      already waiting on it. */
  lemma {:induction false} EnqueueFramesAt(m: Inbox, msgs: seq<(string, string)>, k: string)
    ensures Pending(EnqueueFrames(m, msgs), k) == Pending(m, k) + Bodies(msgs, k)
    decreases |msgs|
  {
    if msgs != [] {
      var (a, b) := msgs[0];
      var m' := Enqueue(m, a, b);
      var tail := msgs[1..];
      assert EnqueueFrames(m, msgs) == EnqueueFrames(m', tail);
      assert Bodies(msgs, k) == (if a == k then [b] else []) + Bodies(tail, k);
      EnqueueFramesAt(m', tail, k);
      if a == k {
        assert Pending(m', k) == Pending(m, k) + [b];
        assert Pending(m, k) + [b] + Bodies(tail, k) == Pending(m, k) + ([b] + Bodies(tail, k));
      } else {
        assert Pending(m', k) == Pending(m, k);
        assert [] + Bodies(tail, k) == Bodies(tail, k);
      }
    }
  }

  /** No frame on `k`, no body for `k`. */
  lemma {:induction false} BodiesNone(msgs: seq<(string, string)>, k: string)
    requires forall i :: 0 <= i < |msgs| ==> msgs[i].0 != k
    ensures Bodies(msgs, k) == []
    decreases |msgs|
  {
    if msgs != [] {
      BodiesNone(msgs[1..], k);
    }
  }

  /** With a body waiting on `ident`, the blocking read takes it at once. */
  lemma AwaitHead(p: Pipe, ident: string)
    requires !p.disposed && Pending(p.inbox, ident) != []
    ensures Await(p, ident) == (Message(Dequeue(p.inbox, ident).0), p.(inbox := Dequeue(p.inbox, ident).1))
  {
  }

  /** The queues after the frames `others` and then the awaited frame on
      `ident` arrived, and the awaited body was taken. */
  function AfterAwait(m: Inbox, others: seq<(string, string)>, ident: string, body: string): Inbox
  {
    Dequeue(Enqueue(EnqueueFrames(m, others), ident, body), ident).1
  }

  /** The blocking read of `ident` on a stream of frames whose last one is on
      `ident`: the receive loop queues every earlier frame on its own channel
      (see `EnqueueFramesAt`), and the read returns the last body. */
  lemma {:induction false} AwaitFrames(p: Pipe, others: seq<(string, string)>, ident: string, body: string, rest: seq<Byte>)
    requires p.receiving && !p.disposed && Pending(p.inbox, ident) == []
    requires forall o :: o in others ==> Deliverable(o.0, o.1) && o.0 != ident
    requires Deliverable(ident, body)
    requires p.input == Frames(others + [(ident, body)]) + rest
    ensures Await(p, ident) == (Message(body), p.(inbox := AfterAwait(p.inbox, others, ident, body), input := rest))
    decreases |others|
  {
    var msgs := others + [(ident, body)];
    if others == [] {
      assert msgs == [(ident, body)] && Frames(msgs) == EncodeFrame(Join(ident, body)) + Frames([]);
      AwaitLast(p, ident, body, rest);
    } else {
      var (a, b) := others[0];
      assert others[0] in others;
      assert msgs[0] == (a, b) && msgs[1..] == others[1..] + [(ident, body)];
      var tail := Frames(msgs[1..]) + rest;
      assert p.input == EncodeFrame(Join(a, b)) + tail;
      AwaitSkip(p, a, b, ident, tail);
      var p' := p.(inbox := Enqueue(p.inbox, a, b), input := tail);
      assert forall o :: o in others[1..] ==> o in others;
      AwaitFrames(p', others[1..], ident, body, rest);
      AfterAwaitCons(p.inbox, others, ident, body);
    }
  }

  lemma AfterAwaitCons(m: Inbox, others: seq<(string, string)>, ident: string, body: string)
    requires others != []
    ensures AfterAwait(m, others, ident, body) == AfterAwait(Enqueue(m, others[0].0, others[0].1), others[1..], ident, body)
  {
  }

  /** The last frame is the awaited one. */
  lemma AwaitLast(p: Pipe, ident: string, body: string, rest: seq<Byte>)
    requires p.receiving && !p.disposed && Pending(p.inbox, ident) == [] && Deliverable(ident, body)
    requires p.input == EncodeFrame(Join(ident, body)) + rest
    ensures Await(p, ident) == (Message(body), p.(inbox := Dequeue(Enqueue(p.inbox, ident, body), ident).1, input := rest))
  {
    ReceiveFrame(p, ident, body, rest);
    AwaitStep(p, ident);
    AwaitHead(Receive(p), ident);
  }

  /** A frame on another channel is queued there and the wait goes on. */
  lemma AwaitSkip(p: Pipe, a: string, b: string, ident: string, tail: seq<Byte>)
    requires p.receiving && !p.disposed && Pending(p.inbox, ident) == []
    requires Deliverable(a, b) && a != ident
    requires p.input == EncodeFrame(Join(a, b)) + tail
    ensures Await(p, ident) == Await(p.(inbox := Enqueue(p.inbox, a, b), input := tail), ident)
  {
    ReceiveFrame(p, a, b, tail);
    AwaitStep(p, ident);
  }

  class PipeServer {
    const socket: Socket
    var messages: Inbox
    var isDisposed: bool
    /** Whether the background loop of `WaitForConnection` is still running;
        the first exception thrown in it ends it. */
    var receiving: bool

    ghost predicate Valid()
      reads this, socket
    {
      socket.Valid()
    }

    /** The server once `WaitForConnection` has accepted `socket`. */
    constructor (socket: Socket)
      requires socket.Valid()
      ensures Valid() && this.socket == socket
      ensures messages == map[] && !isDisposed && receiving
    {
      this.socket := socket;
      messages := map[];
      isDisposed := false;
      receiving := true;
    }

    /** `CheckForNewMessages`: read one frame and demultiplex it. */
    method CheckForNewMessages() returns (outcome: Ingest)
      requires Valid()
      modifies this, socket
      ensures Valid() && isDisposed == old(isDisposed) && receiving == old(receiving)
      ensures socket.outgoing == old(socket.outgoing)
      ensures var (frame, rest) := ReadSpec(old(socket.Available()));
        && socket.Available() == rest
        && (frame.Failure? ==> outcome == Faulted(BadFrame(frame.error)) && messages == old(messages))
        && (frame.Success? ==> (outcome, messages) == Demux(old(messages), frame.value))
    {
      var s := ReadFrame(socket);
      if s.Failure? {
        return Faulted(BadFrame(s.error));
      }
      var split := Split(s.value);
      if |split| > 2 {
        // Ignore the message
        return Dropped;
      }
      if |split| == 0 {
        return Faulted(IndexOutOfRange(0));
      }
      if split[0] !in messages {
        messages := messages[split[0] := []];
      }
      if |split| == 1 {
        return Faulted(IndexOutOfRange(1));
      }
      ghost var m := old(messages);
      messages := messages[split[0] := messages[split[0]] + [split[1]]];
      assert messages == Enqueue(m, split[0], split[1]);
      outcome := Queued(split[0], split[1]);
    }

    /** One iteration of the receive loop started by `WaitForConnection`:
        `while (!_isDisposed) { await CheckForNewMessages(); … }`. A fault
        ends the loop for good; `None` means the loop is no longer running. */
    method ReceiveStep() returns (outcome: Option<Ingest>)
      requires Valid()
      modifies this, socket
      ensures Valid() && isDisposed == old(isDisposed)
      ensures !old(receiving) || old(isDisposed) ==>
        outcome == None && messages == old(messages) && receiving == old(receiving)
        && socket.Available() == old(socket.Available())
      ensures old(receiving) && !old(isDisposed) ==>
        outcome.Some? && receiving == !outcome.value.Faulted?
      ensures State() == Receive(old(State()))
      ensures socket.outgoing == old(socket.outgoing)
    {
      if isDisposed || !receiving {
        return None;
      }
      var o := CheckForNewMessages();
      if o.Faulted? {
        receiving := false;
      }
      outcome := Some(o);
    }

    /** The server as a value (see `Pipe`). */
    ghost function State(): Pipe
      reads this, socket
    {
      Pipe(messages, receiving, isDisposed, socket.Available())
    }

    /** `ReadMessage(ident)` as the controller experiences it: it polls
        until `ident`'s queue has a body or the pipe is disposed, while the
        receive loop keeps filling the queues. */
    method AwaitMessage(ident: string) returns (r: Awaited)
      requires Valid()
      modifies this, socket
      ensures Valid() && socket.outgoing == old(socket.outgoing)
      ensures (r, State()) == Await(old(State()), ident)
    {
      while true
        invariant Valid() && socket.outgoing == old(socket.outgoing)
        invariant Await(State(), ident) == Await(old(State()), ident)
        decreases receiving, |socket.Available()|
      {
        var poll := ReadMessage(ident);
        match poll {
          case Got(body) =>
            return Message(body);
          case Closed =>
            return Null;
          case WouldBlock =>
            if !receiving {
              return Hang;
            }
            var _ := ReceiveStep();
        }
      }
    }

    /** `ReadMessage(ident)`, one poll (see `Poll`). */
    method ReadMessage(ident: string) returns (r: Poll)
      modifies this
      ensures (r, messages) == PollSpec(old(messages), isDisposed, ident)
      ensures isDisposed == old(isDisposed) && receiving == old(receiving)
    {
      if isDisposed {
        return Closed;
      }
      if ident !in messages {
        return WouldBlock;
      }
      if |messages[ident]| > 0 {
        var body := messages[ident][0];
        messages := messages[ident := messages[ident][1..]];
        return Got(body);
      }
      r := WouldBlock;
    }

    /** `SendMessage(ident, message)`: frames `ident + "::" + message`. Once
        the stream is closed the send throws (`sent` is false) and nothing is
        written. */
    method SendMessage(ident: string, message: string) returns (sent: bool)
      modifies socket
      ensures sent == !isDisposed
      ensures socket.incoming == old(socket.incoming)
      ensures socket.outgoing == old(socket.outgoing) + (if sent then EncodeFrame(Join(ident, message)) else [])
    {
      if isDisposed {
        return false;
      }
      var fullMsg := ident + "::" + message;
      SendFrame(socket, fullMsg);
      sent := true;
    }

    /** `Dispose`: sets the flag and closes the connection. */
    method Dispose()
      modifies this
      ensures isDisposed && messages == old(messages) && receiving == old(receiving)
    {
      isDisposed := true;
    }
  }

  /** After `Dispose`, every read answers null and changes nothing. */
  lemma ReadAfterDispose(m: Inbox, ident: string)
    ensures PollSpec(m, true, ident) == (Closed, m)
  {
  }
}
