/** Channel multiplexing shared by both ends: a message is `ident + "::" + body`,
    split again with `String.Split(new[] {"::"}, RemoveEmptyEntries)`; inbound
    bodies wait in one FIFO queue per ident. */
module Channels {
  import opened Wrappers
  import opened Ascii
  import opened Frame

  // ---- Splitting ----

  /** `ident + "::" + message`, as `SendMessage(ident, message)` builds it. */
  function Join(ident: string, body: string): (p: string)
    ensures |p| == |ident| + 2 + |body|
  {
    ident + "::" + body
  }

  predicate HasDelimiter(s: string)
  {
    exists i :: 0 <= i < |s| - 1 && s[i] == ':' && s[i + 1] == ':'
  }

  /** The pieces between the occurrences of "::", found left to right
      without overlap, empty pieces included. */
  function RawSplit(s: string): (p: seq<string>)
    ensures |p| >= 1
    decreases |s|
  {
    if |s| < 2 then [s]
    else if s[0] == ':' && s[1] == ':' then [""] + RawSplit(s[2..])
    else
      var rest := RawSplit(s[1..]);
      [[s[0]] + rest[0]] + rest[1..]
  }

  function RemoveEmpty(p: seq<string>): (q: seq<string>)
    ensures |q| <= |p|
    ensures forall i :: 0 <= i < |q| ==> q[i] != ""
  {
    if p == [] then []
    else if p[0] == "" then RemoveEmpty(p[1..])
    else [p[0]] + RemoveEmpty(p[1..])
  }

  /** `s.Split(new[] {"::"}, StringSplitOptions.RemoveEmptyEntries)`. */
  function Split(s: string): (p: seq<string>)
  {
    RemoveEmpty(RawSplit(s))
  }

  lemma NoDelimiterInTail(s: string)
    requires s != [] && !HasDelimiter(s)
    ensures !HasDelimiter(s[1..])
  {
    forall i | 0 <= i < |s| - 2
      ensures !(s[1..][i] == ':' && s[1..][i + 1] == ':')
    {
      assert s[1..][i] == s[i + 1] && s[1..][i + 1] == s[i + 2];
    }
  }

  lemma {:induction false} RawSplitNoDelimiter(s: string)
    requires !HasDelimiter(s)
    ensures RawSplit(s) == [s]
    decreases |s|
  {
    if |s| >= 2 {
      assert !(s[0] == ':' && s[1] == ':');
      NoDelimiterInTail(s);
      RawSplitNoDelimiter(s[1..]);
      assert [s[0]] + s[1..] == s;
    }
  }

  lemma {:induction false} RawSplitJoin(ident: string, body: string)
    requires ident != [] && !HasDelimiter(ident) && ident[|ident| - 1] != ':'
    ensures RawSplit(Join(ident, body)) == [ident] + RawSplit(body)
    decreases |ident|
  {
    var s := Join(ident, body);
    if |ident| == 1 {
      assert s[0] == ident[0] && [s[0]] + "" == ident;
      assert s[1..] == "::" + body;
      assert s[1..][2..] == body;
    } else {
      assert s[1] == ident[1];
      assert s[0] == ident[0] && s[1] == ident[1];
      var tail := ident[1..];
      NoDelimiterInTail(ident);
      assert s[1..] == Join(tail, body);
      RawSplitJoin(tail, body);
      assert [s[0]] + tail == ident;
    }
  }

  /** The condition under which the receiving side recovers `ident` and
      `body` from the joined message. */
  predicate Routable(ident: string, body: string)
  {
    && ident != "" && body != ""
    && !HasDelimiter(ident) && !HasDelimiter(body)
    && ident[|ident| - 1] != ':'
  }

  /** The demultiplexer's split recovers exactly the ident and the body. */
  lemma SplitJoin(ident: string, body: string)
    requires Routable(ident, body)
    ensures Split(Join(ident, body)) == [ident, body]
  {
    RawSplitJoin(ident, body);
    RawSplitNoDelimiter(body);
    assert RemoveEmpty([body]) == [body] by {
      assert [body][1..] == [];
    }
    assert ([ident] + [body])[1..] == [body];
  }

  /** An ident ending in ':' loses that colon to the body: the split of
      `(ident + ":") + "::" + body` is `[ident, ":" + body]`. */
  lemma IdentEndingInColon(ident: string, body: string)
    requires ident != "" && !HasDelimiter(ident) && ident[|ident| - 1] != ':'
    requires !HasDelimiter(":" + body)
    ensures Split(Join(ident + ":", body)) == [ident, ":" + body]
  {
    assert Join(ident + ":", body) == Join(ident, ":" + body);
    RawSplitJoin(ident, ":" + body);
    RawSplitNoDelimiter(":" + body);
    assert RemoveEmpty([":" + body]) == [":" + body] by {
      assert [":" + body][1..] == [];
    }
    assert ([ident] + [":" + body])[1..] == [":" + body];
  }

  /** An empty body leaves a single piece. */
  lemma EmptyBody(ident: string)
    requires ident != "" && !HasDelimiter(ident) && ident[|ident| - 1] != ':'
    ensures Split(Join(ident, "")) == [ident]
  {
    RawSplitJoin(ident, "");
    assert RawSplit("") == [""];
    assert RemoveEmpty([""]) == [] by {
      assert [""][1..] == [];
    }
    assert ([ident] + [""])[1..] == [""];
  }

  // ---- Protocol constants ----

  /** The error channel of a job. */
  function ErrChannel(channel: string): (e: string)
    ensures e != channel
  {
    channel + "-ERR"
  }

  /** The text a job's error channel carries when nothing went wrong. */
  const NoError := "NONE"

  // ---- The wire ----

  /** Messages framed one after another, as consecutive `SendMessage` calls
      write them. */
  function Frames(msgs: seq<(string, string)>): (r: seq<Byte>)
    ensures |r| >= 4 * |msgs|
  {
    if msgs == [] then [] else EncodeFrame(Join(msgs[0].0, msgs[0].1)) + Frames(msgs[1..])
  }

  lemma {:induction false} FramesAppend(msgs: seq<(string, string)>, ident: string, body: string)
    ensures Frames(msgs + [(ident, body)]) == Frames(msgs) + EncodeFrame(Join(ident, body))
    decreases |msgs|
  {
    if msgs == [] {
      assert Frames([(ident, body)]) == EncodeFrame(Join(ident, body)) + Frames([]);
    } else {
      assert (msgs + [(ident, body)])[1..] == msgs[1..] + [(ident, body)];
      FramesAppend(msgs[1..], ident, body);
    }
  }

  // ---- Inbound queues (`Dictionary<String, Queue<String>>`) ----

  type Inbox = map<string, seq<string>>

  /** The bodies waiting on `ident`, oldest first; a missing queue is empty. */
  function Pending(m: Inbox, ident: string): seq<string>
  {
    if ident in m then m[ident] else []
  }

  /** Create the queue if absent, then `Enqueue(body)`. */
  function Enqueue(m: Inbox, ident: string, body: string): (m': Inbox)
    ensures Pending(m', ident) == Pending(m, ident) + [body]
    ensures forall k :: k != ident ==> Pending(m', k) == Pending(m, k)
    ensures m'.Keys == m.Keys + {ident}
  {
    m[ident := Pending(m, ident) + [body]]
  }

  /** `Dequeue()` on a non-empty queue: the oldest body, and the rest. */
  function Dequeue(m: Inbox, ident: string): (r: (string, Inbox))
    requires Pending(m, ident) != []
    ensures [r.0] + Pending(r.1, ident) == Pending(m, ident)
    ensures forall k :: k != ident ==> Pending(r.1, k) == Pending(m, k)
    ensures r.1.Keys == m.Keys
  {
    (m[ident][0], m[ident := m[ident][1..]])
  }

  /** Bodies handed to a reader in order, each as a non-null string. */
  function Delivered(bodies: seq<string>): (r: seq<Option<string>>)
    ensures |r| == |bodies|
  {
    seq(|bodies|, i requires 0 <= i < |bodies| => Some(bodies[i]))
  }

  /** Bodies enqueued on one ident one after another. */
  function EnqueueAll(m: Inbox, ident: string, bodies: seq<string>): Inbox
    decreases |bodies|
  {
    if bodies == [] then m
    else EnqueueAll(Enqueue(m, ident, bodies[0]), ident, bodies[1..])
  }

  /** Per-channel FIFO and channel isolation: a run of enqueues on `ident`
      lands, in order, behind what was waiting there, and leaves every other
      channel as it was. */
  lemma {:induction false} EnqueueAllOrder(m: Inbox, ident: string, bodies: seq<string>)
    ensures Pending(EnqueueAll(m, ident, bodies), ident) == Pending(m, ident) + bodies
    ensures forall k :: k != ident ==> Pending(EnqueueAll(m, ident, bodies), k) == Pending(m, k)
    decreases |bodies|
  {
    if bodies != [] {
      EnqueueAllOrder(Enqueue(m, ident, bodies[0]), ident, bodies[1..]);
      assert [bodies[0]] + bodies[1..] == bodies;
    }
  }

  /** Enqueues on two different channels commute. */
  lemma EnqueueCommutes(m: Inbox, a: string, x: string, b: string, y: string)
    requires a != b
    ensures Enqueue(Enqueue(m, a, x), b, y) == Enqueue(Enqueue(m, b, y), a, x)
  {
  }
}
