/** The two sides together: what the worker's handlers send and write is
    exactly what the controller's job reads and decodes. */
module EndToEnd {
  import opened Wrappers
  import opened Ascii
  import opened Frame
  import opened Channels
  import opened Server
  import opened Files
  import opened Config
  import opened Controller
  import opened Worker

  /** The configuration the controller writes is the text the worker's
      `ConfigNode.Parse` receives. */
  lemma ConfigArrives(files: map<string, Content>, configPath: string, tree: Tree, parse: Parser)
    ensures Load(files[configPath := Text(Serialize(tree, 0))], configPath, parse) == parse(Serialize(tree, 0))
  {
    TextRoundTrip(files, configPath, Serialize(tree, 0));
  }

  /** Every reply of a successful job travels unchanged. */
  predicate Carried(channel: string, paths: Paths, width: nat)
  {
    && Deliverable(channel, paths.color) && Deliverable(channel, paths.height) && Deliverable(channel, paths.normal)
    && Deliverable(channel, Int32ToString(width)) && Deliverable(ErrChannel(channel), NoError)
  }

  /** Frames that are all on one channel give that channel all their bodies. */
  lemma {:induction false} BodiesOnOne(msgs: seq<(string, string)>, channel: string, bodies: seq<string>)
    requires |msgs| == |bodies| && forall i :: 0 <= i < |msgs| ==> msgs[i] == (channel, bodies[i])
    ensures Bodies(msgs, channel) == bodies
    decreases |msgs|
  {
    if msgs != [] {
      assert forall i :: 0 <= i < |msgs| - 1 ==> msgs[1..][i] == (channel, bodies[1..][i]);
      BodiesOnOne(msgs[1..], channel, bodies[1..]);
      assert [bodies[0]] + bodies[1..] == bodies;
    }
  }

  /** The error check of a job whose replies all arrived: it passes, and
      leaves the bodies queued on `channel`. */
  lemma ErrorCheckPasses(p: Pipe, channel: string, bodies: seq<string>, rest: seq<Byte>)
    requires p.receiving && !p.disposed
    requires Pending(p.inbox, channel) == [] && Pending(p.inbox, ErrChannel(channel)) == []
    requires forall i :: 0 <= i < |bodies| ==> Deliverable(channel, bodies[i])
    requires Deliverable(ErrChannel(channel), NoError)
    requires p.input == Frames(Answer(channel, bodies)) + rest
    ensures var (ok, p1) := CheckErr(p, channel);
      && ok.Success? && !p1.disposed && Pending(p1.inbox, channel) == bodies
  {
    var err := ErrChannel(channel);
    var answer := Answer(channel, bodies);
    var others := answer[..|bodies|];
    assert answer == others + [(err, NoError)];
    OthersDeliverable(others, channel, bodies, err);
    AwaitFrames(p, others, err, NoError, rest);
    QueuedBodies(p.inbox, channel, others, bodies);
  }

  /** Frames that all carry a deliverable body on `channel` are deliverable
      and are not on `err`. */
  lemma OthersDeliverable(others: seq<(string, string)>, channel: string, bodies: seq<string>, err: string)
    requires |others| == |bodies| && forall i :: 0 <= i < |others| ==> others[i] == (channel, bodies[i])
    requires forall i :: 0 <= i < |bodies| ==> Deliverable(channel, bodies[i])
    requires err != channel
    ensures forall o :: o in others ==> Deliverable(o.0, o.1) && o.0 != err
  {
    forall o | o in others
      ensures Deliverable(o.0, o.1) && o.0 != err
    {
      var i :| 0 <= i < |others| && others[i] == o;
    }
  }

  lemma QueuedBodies(m: Inbox, channel: string, others: seq<(string, string)>, bodies: seq<string>)
    requires Pending(m, channel) == []
    requires |others| == |bodies| && forall i :: 0 <= i < |others| ==> others[i] == (channel, bodies[i])
    ensures Pending(AfterAwait(m, others, ErrChannel(channel), NoError), channel) == bodies
  {
    var err := ErrChannel(channel);
    EnqueueFramesAt(m, others, channel);
    BodiesOnOne(others, channel, bodies);
    assert Pending(Enqueue(EnqueueFrames(m, others), err, NoError), channel) == bodies;
  }

  /** A worker's successful replies, read by the controller: the error check
      passes and the next `|bodies|` reads return the bodies in order. */
  lemma SuccessfulReplies(p: Pipe, channel: string, bodies: seq<string>, rest: seq<Byte>)
    requires p.receiving && !p.disposed
    requires Pending(p.inbox, channel) == [] && Pending(p.inbox, ErrChannel(channel)) == []
    requires forall i :: 0 <= i < |bodies| ==> Deliverable(channel, bodies[i])
    requires Deliverable(ErrChannel(channel), NoError)
    requires p.input == Frames(Answer(channel, bodies)) + rest
    ensures Job(p, channel, |bodies|).0 == Success(Delivered(bodies))
  {
    ErrorCheckPasses(p, channel, bodies, rest);
    var p1 := CheckErr(p, channel).1;
    ReadNQueued(p1, channel, |bodies|);
    assert bodies[..|bodies|] == bodies;
  }

  /** Three or four bodies handed over, as the jobs read them. */
  lemma DeliveredAll(bodies: seq<string>)
    ensures |bodies| == 3 ==> Delivered(bodies) == [Some(bodies[0]), Some(bodies[1]), Some(bodies[2])]
    ensures |bodies| == 4 ==> Delivered(bodies) == [Some(bodies[0]), Some(bodies[1]), Some(bodies[2]), Some(bodies[3])]
  {
  }

  /** The raw job end to end: the four replies of `GenerateRawPlanetMaps`
      satisfy exactly the four reads of `GenerateMapsRaw`. */
  lemma RawRepliesRead(p: Pipe, channel: string, paths: Paths, m: Maps, rest: seq<Byte>)
    requires p.receiving && !p.disposed
    requires Pending(p.inbox, channel) == [] && Pending(p.inbox, ErrChannel(channel)) == []
    requires Carried(channel, paths, m.width)
    requires p.input == Frames(RawReplies(channel, Success(m), paths)) + rest
    ensures Job(p, channel, 4).0 ==
      Success([Some(paths.color), Some(paths.height), Some(paths.normal), Some(Int32ToString(m.width))])
  {
    var bodies := [paths.color, paths.height, paths.normal, Int32ToString(m.width)];
    SuccessfulReplies(p, channel, bodies, rest);
    DeliveredAll(bodies);
  }

  /** The encoded job end to end: three paths for three reads. */
  lemma EncodedRepliesRead(p: Pipe, channel: string, paths: Paths, pngs: (seq<Byte>, seq<Byte>, seq<Byte>), rest: seq<Byte>)
    requires p.receiving && !p.disposed
    requires Pending(p.inbox, channel) == [] && Pending(p.inbox, ErrChannel(channel)) == []
    requires Deliverable(channel, paths.color) && Deliverable(channel, paths.height) && Deliverable(channel, paths.normal)
    requires Deliverable(ErrChannel(channel), NoError)
    requires p.input == Frames(EncodedReplies(channel, Success(pngs), paths)) + rest
    ensures Job(p, channel, 3).0 == Success([Some(paths.color), Some(paths.height), Some(paths.normal)])
  {
    var bodies := [paths.color, paths.height, paths.normal];
    SuccessfulReplies(p, channel, bodies, rest);
    DeliveredAll(bodies);
  }

  /** A worker's exception message ends the controller's job with that
      message. */
  lemma ErrorReplyRead(p: Pipe, channel: string, paths: Paths, e: string, count: nat, rest: seq<Byte>)
    requires p.receiving && !p.disposed && Pending(p.inbox, ErrChannel(channel)) == []
    requires Deliverable(ErrChannel(channel), e) && e != NoError
    requires p.input == Frames(RawReplies(channel, Failure(e), paths)) + rest
    ensures Job(p, channel, count).0 == Failure(WorkerFailed(Some(e)))
  {
    assert RawReplies(channel, Failure(e), paths) == [] + [(ErrChannel(channel), e)];
    AwaitFrames(p, [], ErrChannel(channel), e, rest);
    WorkerErrorFailsJob(p, channel, count, e);
  }

  /** The width survives `ToString` and `Int32.TryParse`. */
  lemma WidthRead(width: nat)
    requires width <= Int32Max
    ensures ParsedOrZero(Some(Int32ToString(width))) == width
  {
    Int32TextRoundTrip(width);
  }

  /** The files the raw handler wrote are the files the raw job opens, and
      the width it sent is the width the job parses. */
  lemma RawFilesRead(files: map<string, Content>, config: string, paths: Paths, m: Maps)
    requires Distinct(paths, config) && config in files && m.width <= Int32Max
    ensures var after := FilesAfter(files, config, true, RawWritten(Success(m)), paths);
      var replies := [Some(paths.color), Some(paths.height), Some(paths.normal), Some(Int32ToString(m.width))];
      RawInputs(replies, after) ==
        Success((m.width, [RawFile(m.color, m.width), RawFile(m.height, m.width), RawFile(m.normal, m.width)]))
  {
    var after := FilesAfter(files, config, true, RawWritten(Success(m)), paths);
    var replies := [Some(paths.color), Some(paths.height), Some(paths.normal), Some(Int32ToString(m.width))];
    var c, h, n := RawFile(m.color, m.width), RawFile(m.height, m.width), RawFile(m.normal, m.width);
    WidthRead(m.width);
    WrittenFilesReadBack(files, config, c, h, n, paths);
    var paths3 := replies[..3];
    assert paths3 == [Some(paths.color), Some(paths.height), Some(paths.normal)];
    assert OpenRead(after, paths3[0]) == Success(c);
    assert OpenRead(after, paths3[1]) == Success(h);
    assert OpenRead(after, paths3[2]) == Success(n);
    assert forall i :: 0 <= i < 3 ==> OpenRead(after, paths3[i]).Success?;
    var r := OpenAll(after, paths3);
    assert r.value[0] == c && r.value[1] == h && r.value[2] == n;
    assert r.value == [c, h, n];
  }

  /** The raw layout the worker writes is the one the controller decodes:
      cell (x, y) of each grid is the pixel `GetPixel(x, y)` of the texture
      the worker generated. */
  lemma RawPixelsRead(m: Maps, x: nat, y: nat)
    requires x < m.width && y < m.width / 2
    ensures PixelAt(RawFile(m.color, m.width), y * m.width + x) == m.color(x, y)
    ensures PixelAt(RawFile(m.height, m.width), y * m.width + x) == m.height(x, y)
    ensures PixelAt(RawFile(m.normal, m.width), y * m.width + x) == m.normal(x, y)
  {
    RawLayout(m.color, m.width, x, y);
    RawLayout(m.height, m.width, x, y);
    RawLayout(m.normal, m.width, x, y);
  }
}
