/** The worker's end of the pipe (`PipeClient`): the same framing, a receive
    coroutine that keeps only frames splitting into exactly two pieces, and
    one reader coroutine per `ReadMessage(ident, callback)`. Each coroutine
    iteration (one engine frame) is one explicit step here. */
module Client {
  import opened Wrappers
  import opened Ascii
  import opened Frame
  import opened Channels
  import Server

  /** What one iteration of the receive coroutine did with a frame. */
  datatype Ingest = Queued(ident: string, body: string) | Dropped | Faulted(error: FrameError)

  /** The receive coroutine after the frame has been read: enqueue only when
      the split has exactly two pieces; drop everything else. */
  function Demux(m: Inbox, payload: string): (r: (Ingest, Inbox))
  {
    var split := Split(payload);
    if |split| == 2 then (Queued(split[0], split[1]), Enqueue(m, split[0], split[1]))
    else (Dropped, m)
  }

  /** The client never faults on a payload: anything but two pieces is
      dropped and leaves every queue as it was. */
  lemma DemuxDropsOthers(m: Inbox, payload: string)
    requires |Split(payload)| != 2
    ensures Demux(m, payload) == (Dropped, m)
  {
  }

  /** Both ends agree on two-piece payloads and on payloads of three or more
      pieces; they differ only on 0 or 1 pieces, which the server faults on
      and the client drops. */
  lemma DemuxAgreesWithServer(m: Inbox, payload: string)
    ensures |Split(payload)| >= 2 ==> Demux(m, payload).1 == Server.Demux(m, payload).1
    ensures |Split(payload)| < 2 ==>
      Demux(m, payload) == (Dropped, m) && Server.Demux(m, payload).0.Faulted?
  {
  }

  /** Send then demultiplex: a routable body arrives unchanged at the tail of
      its ident's queue, the same queue the server's side gives it. */
  lemma DemuxJoin(m: Inbox, ident: string, body: string)
    requires Routable(ident, body)
    ensures Demux(m, Join(ident, body)) == (Queued(ident, body), Enqueue(m, ident, body))
  {
    Server.DemuxJoin(m, ident, body);
    DemuxAgreesWithServer(m, Join(ident, body));
  }

  /** One iteration of `ReadMessageInternal(ident, callback)`: `Deliver` is
      `callback(body)`, `Idle` is an iteration that only yields, `Finish` is
      the final `callback(null)` once the pipe is disposed. */
  datatype Step = Deliver(body: string) | Idle | Finish

  function ReaderStep(m: Inbox, disposed: bool, ident: string): (r: (Step, Inbox))
    ensures disposed ==> r == (Finish, m)
    ensures !disposed && Pending(m, ident) != [] ==>
      r.0 == Deliver(Pending(m, ident)[0]) && Pending(r.1, ident) == Pending(m, ident)[1..]
    ensures !disposed && Pending(m, ident) == [] ==> r == (Idle, m)
    ensures forall k :: k != ident ==> Pending(r.1, k) == Pending(m, k)
  {
    if disposed then (Finish, m)
    else if Pending(m, ident) != [] then
      var (body, m') := Dequeue(m, ident);
      (Deliver(body), m')
    else (Idle, m)
  }

  function MinNat(a: nat, b: nat): (r: nat)
    ensures r <= a && r <= b && (r == a || r == b)
  {
    if a < b then a else b
  }


  class PipeClient {
    const socket: Socket
    var messages: Inbox
    var isDisposed: bool
    /** Whether the receive coroutine is still running; an exception ends it. */
    var receiving: bool

    ghost predicate Valid()
      reads this, socket
    {
      socket.Valid()
    }

    /** The client once connected to the controller's port. */
    constructor (socket: Socket)
      requires socket.Valid()
      ensures Valid() && this.socket == socket
      ensures messages == map[] && !isDisposed && receiving
    {
      this.socket := socket;
      messages := map[];
      isDisposed := false;
      receiving := true;
    }

    /** One iteration of the `CheckForNewMessages` coroutine; `None` when the
        coroutine is no longer running. */
    method ReceiveStep() returns (outcome: Option<Ingest>)
      requires Valid()
      modifies this, socket
      ensures Valid() && isDisposed == old(isDisposed)
      ensures socket.outgoing == old(socket.outgoing)
      ensures !old(receiving) || old(isDisposed) ==>
        outcome == None && messages == old(messages) && receiving == old(receiving)
        && socket.Available() == old(socket.Available())
      ensures old(receiving) && !old(isDisposed) ==>
        var (frame, rest) := ReadSpec(old(socket.Available()));
        && outcome.Some? && socket.Available() == rest
        && (frame.Failure? ==> outcome.value == Faulted(frame.error) && messages == old(messages) && !receiving)
        && (frame.Success? ==> (outcome.value, messages) == Demux(old(messages), frame.value) && receiving)
    {
      if isDisposed || !receiving {
        return None;
      }
      var s := ReadFrame(socket);
      if s.Failure? {
        receiving := false;
        return Some(Faulted(s.error));
      }
      var split := Split(s.value);
      if |split| == 2 {
        ghost var m := messages;
        if split[0] !in messages {
          messages := messages[split[0] := []];
        }
        messages := messages[split[0] := messages[split[0]] + [split[1]]];
        assert messages == Enqueue(m, split[0], split[1]);
        return Some(Queued(split[0], split[1]));
      }
      outcome := Some(Dropped);
    }

    /** One iteration of the `ReadMessageInternal(ident, callback)` coroutine. */
    method ReadStep(ident: string) returns (step: Step)
      modifies this
      ensures (step, messages) == ReaderStep(old(messages), isDisposed, ident)
      ensures isDisposed == old(isDisposed) && receiving == old(receiving)
    {
      if isDisposed {
        return Finish;
      }
      if ident in messages && |messages[ident]| > 0 {
        var body := messages[ident][0];
        messages := messages[ident := messages[ident][1..]];
        return Deliver(body);
      }
      step := Idle;
    }

    /** `ReadMessageInternal(ident, callback)` run for `frames` iterations with
        no other coroutine in between: the arguments the callback receives,
        in order. Each iteration hands over at most one body; a disposed pipe
        gives exactly one null. */
    method ReadMessageInternal(ident: string, frames: nat) returns (calls: seq<Option<string>>)
      modifies this
      ensures isDisposed == old(isDisposed) && receiving == old(receiving)
      ensures isDisposed ==> calls == [None] && messages == old(messages)
      ensures !isDisposed ==>
        var n := MinNat(frames, |Pending(old(messages), ident)|);
        && calls == Delivered(Pending(old(messages), ident)[..n])
        && Pending(messages, ident) == Pending(old(messages), ident)[n..]
        && forall k :: k != ident ==> Pending(messages, k) == Pending(old(messages), k)
    {
      calls := [];
      var i := 0;
      ghost var q := Pending(messages, ident);
      while i < frames
        invariant i <= frames
        invariant isDisposed == old(isDisposed) && receiving == old(receiving)
        invariant isDisposed ==> calls == [] && messages == old(messages) && i == 0
        invariant !isDisposed ==>
          var n := MinNat(i, |q|);
          && calls == Delivered(q[..n])
          && Pending(messages, ident) == q[n..]
          && forall k :: k != ident ==> Pending(messages, k) == Pending(old(messages), k)
      {
        var step := ReadStep(ident);
        match step {
          case Deliver(body) =>
            assert MinNat(i, |q|) == i && body == q[i];
            assert Delivered(q[..i + 1]) == Delivered(q[..i]) + [Some(q[i])];
            calls := calls + [Some(body)];
          case Idle =>
          case Finish =>
            calls := calls + [None];
            return;
        }
        i := i + 1;
      }
      if isDisposed {
        calls := [None];
      }
    }

    /** `SendMessage(ident, message)`; throws (`sent` false) once disposed. */
    method SendMessage(ident: string, message: string) returns (sent: bool)
      modifies socket
      ensures sent == !isDisposed
      ensures socket.incoming == old(socket.incoming)
      ensures socket.outgoing == old(socket.outgoing) + (if sent then EncodeFrame(Join(ident, message)) else [])
    {
      if isDisposed {
        return false;
      }
      var fullMsg := ident + "::" + message;
      SendFrame(socket, fullMsg);
      sent := true;
    }

    /** `Dispose`: closes the connection, then sets the flag. */
    method Dispose()
      modifies this
      ensures isDisposed && messages == old(messages) && receiving == old(receiving)
    {
      isDisposed := true;
    }
  }
}
