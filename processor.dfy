/** The controller (`Processor`): a map-generation job is two sends, a read
    of the job's error channel, and a fixed number of reads on the job's
    channel; raw jobs then decode three files into pixel grids. */
module Controller {
  import opened Wrappers
  import opened Ascii
  import opened Frame
  import opened Channels
  import opened Server
  import opened Files
  import opened Config

  const RawCommand := "GENERATE-MAPS-RAW"
  const EncodedCommand := "GENERATE-MAPS-ENCODED"

  /** Why a job throws. */
  datatype JobError =
    | SendFailed                         // the pipe is closed
    | WorkerFailed(message: Option<string>) // `throw new Exception(error)`, null included
    | Stalled                            // a read that polls forever
    | NullPath                           // `File.OpenRead(null)`
    | NegativeWidth(width: int)          // `new Color[width, width / 2]`
    | MissingFile(reason: string)        // `File.OpenRead` of a missing path

  /** What a blocking read hands the job: text, or null. */
  function Reply(a: Awaited): Option<string>
  {
    if a.Message? then Some(a.body) else None
  }

  /** `n` consecutive blocking reads on `ident`. */
  function ReadN(p: Pipe, ident: string, n: nat): (r: (Result<seq<Option<string>>, JobError>, Pipe))
    ensures r.0.Success? ==> |r.0.value| == n
    ensures r.0.Failure? ==> r.0.error == Stalled
    ensures r.1.disposed == p.disposed
    decreases n
  {
    if n == 0 then (Success([]), p)
    else
      var (first, p1) := Await(p, ident);
      if first == Hang then (Failure(Stalled), p1)
      else
        var (more, p2) := ReadN(p1, ident, n - 1);
        if more.Failure? then (more, p2) else (Success([Reply(first)] + more.value), p2)
  }

  /** The read of the error channel: only "NONE" lets the job go on. */
  function CheckErr(p: Pipe, channel: string): (r: (Result<(), JobError>, Pipe))
    ensures r.0.Success? <==> Await(p, ErrChannel(channel)).0 == Message(NoError)
    ensures r.1 == Await(p, ErrChannel(channel)).1
  {
    var (e, p1) := Await(p, ErrChannel(channel));
    if e == Hang then (Failure(Stalled), p1)
    else if e != Message(NoError) then (Failure(WorkerFailed(Reply(e))), p1)
    else (Success(()), p1)
  }

  /** The messages of a job after the two sends: the error check, then
      `count` reads on the channel (4 for raw maps, 3 for encoded ones). */
  function Job(p: Pipe, channel: string, count: nat): (r: (Result<seq<Option<string>>, JobError>, Pipe))
    ensures r.0.Success? ==> |r.0.value| == count
  {
    var (ok, p1) := CheckErr(p, channel);
    if ok.Failure? then (Failure(ok.error), p1)
    else ReadN(p1, channel, count)
  }

  /** Replies already waiting on `ident` are read in arrival order. */
  lemma {:induction false} ReadNQueued(p: Pipe, ident: string, n: nat)
    requires !p.disposed && n <= |Pending(p.inbox, ident)|
    ensures ReadN(p, ident, n).0 == Success(Delivered(Pending(p.inbox, ident)[..n]))
    ensures Pending(ReadN(p, ident, n).1.inbox, ident) == Pending(p.inbox, ident)[n..]
    ensures ReadN(p, ident, n).1.input == p.input && ReadN(p, ident, n).1.receiving == p.receiving
    decreases n
  {
    var queue := Pending(p.inbox, ident);
    if n > 0 {
      AwaitHead(p, ident);
      var (first, p1) := Await(p, ident);
      assert first == Message(queue[0]) && Pending(p1.inbox, ident) == queue[1..];
      assert p1.input == p.input && p1.receiving == p.receiving && !p1.disposed;
      ReadNQueued(p1, ident, n - 1);
      var (more, p2) := ReadN(p1, ident, n - 1);
      assert ReadN(p, ident, n) == (Success([Some(queue[0])] + more.value), p2);
      DeliveredCons(queue, n);
      assert queue[1..][n - 1..] == queue[n..];
    }
  }

  lemma DeliveredCons(queue: seq<string>, n: nat)
    requires 0 < n <= |queue|
    ensures Delivered(queue[..n]) == [Some(queue[0])] + Delivered(queue[1..][..n - 1])
  {
    var l, r := Delivered(queue[..n]), [Some(queue[0])] + Delivered(queue[1..][..n - 1]);
    forall i | 0 <= i < n ensures l[i] == r[i] {
      if i > 0 { assert r[i] == Delivered(queue[1..][..n - 1])[i - 1]; }
    }
  }

  /** The error check reads only the error channel: every reply already
      waiting on the job's channel is still there, first in line. */
  lemma ErrorCheckKeepsReplies(p: Pipe, channel: string)
    ensures Pending(p.inbox, channel) <= Pending(CheckErr(p, channel).1.inbox, channel)
  {
    AwaitKeepsOthers(p, ErrChannel(channel), channel);
  }

  /** Any reply on the error channel other than "NONE" ends the job with that
      text, before a single read of the job's channel. */
  lemma WorkerErrorFailsJob(p: Pipe, channel: string, count: nat, e: string)
    requires Await(p, ErrChannel(channel)).0 == Message(e) && e != NoError
    ensures Job(p, channel, count) == (Failure(WorkerFailed(Some(e))), Await(p, ErrChannel(channel)).1)
  {
  }

  /** The two sends that start a job. */
  function JobRequest(command: string, channel: string, configPath: string): seq<Byte>
  {
    EncodeFrame(Join(command, channel)) + EncodeFrame(Join(channel, configPath))
  }

  /** `File.OpenRead(path)` as the job sees it: null and missing paths throw. */
  function OpenRead(files: map<string, Content>, path: Option<string>): (r: Result<seq<Byte>, JobError>)
    ensures path.None? ==> r == Failure(NullPath)
    ensures path.Some? ==> (r.Success? <==> path.value in files)
    ensures path.Some? && path.value !in files ==> r == Failure(MissingFile(NotFound(path.value)))
    ensures r.Success? ==> Success(r.value) == ReadBytes(files, path.value)
  {
    if path.None? then Failure(NullPath)
    else match ReadBytes(files, path.value)
      case Failure(e) => Failure(MissingFile(e))
      case Success(bytes) => Success(bytes)
  }

  /** The files of a job opened in order; the first one that throws decides
      the error. */
  function OpenAll(files: map<string, Content>, paths: seq<Option<string>>): (r: Result<seq<seq<Byte>>, JobError>)
    ensures r.Success? <==> forall i :: 0 <= i < |paths| ==> OpenRead(files, paths[i]).Success?
    ensures r.Success? ==> |r.value| == |paths| && forall i :: 0 <= i < |paths| ==> r.value[i] == OpenRead(files, paths[i]).value
    ensures r.Failure? ==> exists i :: (0 <= i < |paths| && OpenRead(files, paths[i]).Failure?
      && r.error == OpenRead(files, paths[i]).error
      && forall j :: 0 <= j < i ==> OpenRead(files, paths[j]).Success?)
  {
    if paths == [] then Success([])
    else
      var first := OpenRead(files, paths[0]);
      if first.Failure? then Failure(first.error)
      else
        var rest := OpenAll(files, paths[1..]);
        if rest.Failure? then
          var i :| 0 <= i < |paths| - 1 && OpenRead(files, paths[1..][i]).Failure?
            && rest.error == OpenRead(files, paths[1..][i]).error
            && forall j :: 0 <= j < i ==> OpenRead(files, paths[1..][j]).Success?;
          assert forall j :: 0 <= j < i + 1 ==> OpenRead(files, paths[j]).Success? by {
            forall j | 0 <= j < i + 1 ensures OpenRead(files, paths[j]).Success? {
              if j > 0 { assert paths[j] == paths[1..][j - 1]; }
            }
          }
          assert paths[i + 1] == paths[1..][i];
          rest
        else
          assert forall i :: 0 <= i < |paths| ==> OpenRead(files, paths[i]).Success? by {
            forall i | 0 <= i < |paths| ensures OpenRead(files, paths[i]).Success? {
              if i > 0 { assert paths[i] == paths[1..][i - 1]; }
            }
          }
          Success([first.value] + rest.value)
  }

  /** What the raw job does with its four replies: parse the width
      (`Int32.TryParse`, 0 when unparsable), allocate the grids (a negative
      width throws), then open the color, height and normal files. */
  function RawInputs(replies: seq<Option<string>>, files: map<string, Content>): (r: Result<(nat, seq<seq<Byte>>), JobError>)
    requires |replies| == 4
    ensures ParsedOrZero(replies[3]) < 0 ==> r == Failure(NegativeWidth(ParsedOrZero(replies[3])))
    ensures ParsedOrZero(replies[3]) >= 0 ==> match OpenAll(files, replies[..3])
      case Failure(e) => r == Failure(e)
      case Success(data) => r == Success((ParsedOrZero(replies[3]), data))
  {
    var width := ParsedOrZero(replies[3]);
    if width < 0 then Failure(NegativeWidth(width))
    else match OpenAll(files, replies[..3])
      case Failure(e) => Failure(e)
      case Success(data) => Success((width, data))
  }

  /** The grids of a raw job: `Color[width, width / 2]` each. */
  datatype RawTextureData = RawTextureData(color: array2<Pixel>, height: array2<Pixel>, normal: array2<Pixel>)

  /** Cell (x, y) of `grid` holds the pixel of read y * width + x of `file`,
      for every cell up to row `y`, column `x` (row-major order). */
  ghost predicate DecodedUpTo(grid: array2<Pixel>, file: seq<Byte>, y: nat, x: nat)
    reads grid
  {
    forall i, j :: 0 <= i < grid.Length0 && 0 <= j < grid.Length1 && (j < y || (j == y && i < x)) ==>
      grid[i, j] == PixelAt(file, j * grid.Length0 + i)
  }

  ghost predicate Decoded(grid: array2<Pixel>, file: seq<Byte>)
    reads grid
  {
    DecodedUpTo(grid, file, grid.Length1, 0)
  }

  /** Three `Decoded` grids of the same size. */
  ghost predicate DecodedAll(data: RawTextureData, width: nat, files: seq<seq<Byte>>)
    requires |files| == 3
    reads data.color, data.height, data.normal
  {
    && data.color.Length0 == width && data.color.Length1 == width / 2
    && data.height.Length0 == width && data.height.Length1 == width / 2
    && data.normal.Length0 == width && data.normal.Length1 == width / 2
    && Decoded(data.color, files[0]) && Decoded(data.height, files[1]) && Decoded(data.normal, files[2])
  }

  /** The nested loop of `GenerateMapsRaw`: for each row, for each column,
      one 16-byte read from each file, in the order color, height, normal. */
  method DecodeMaps(width: nat, files: seq<seq<Byte>>) returns (data: RawTextureData)
    requires |files| == 3
    ensures fresh(data.color) && fresh(data.height) && fresh(data.normal)
    ensures DecodedAll(data, width, files)
  {
    var texHeight := width / 2;
    var color := new Pixel[width, texHeight];
    var height := new Pixel[width, texHeight];
    var normal := new Pixel[width, texHeight];
    var k := 0;
    for y := 0 to texHeight
      invariant k == y * width
      invariant DecodedUpTo(color, files[0], y, 0)
      invariant DecodedUpTo(height, files[1], y, 0)
      invariant DecodedUpTo(normal, files[2], y, 0)
    {
      k := DecodeRow(color, height, normal, files, y, k);
    }
    data := RawTextureData(color, height, normal);
  }

  /** The inner loop of `GenerateMapsRaw`: row `y` of each grid, reading
      on from position `k` of every file. */
  method DecodeRow(color: array2<Pixel>, height: array2<Pixel>, normal: array2<Pixel>,
                   files: seq<seq<Byte>>, y: nat, k: nat) returns (next: nat)
    requires |files| == 3 && color != height && color != normal && height != normal
    requires height.Length0 == color.Length0 && normal.Length0 == color.Length0
    requires height.Length1 == color.Length1 && normal.Length1 == color.Length1
    requires y < color.Length1 && k == y * color.Length0
    requires DecodedUpTo(color, files[0], y, 0)
    requires DecodedUpTo(height, files[1], y, 0)
    requires DecodedUpTo(normal, files[2], y, 0)
    modifies color, height, normal
    ensures next == (y + 1) * color.Length0
    ensures DecodedUpTo(color, files[0], y + 1, 0)
    ensures DecodedUpTo(height, files[1], y + 1, 0)
    ensures DecodedUpTo(normal, files[2], y + 1, 0)
  {
    next := k;
    for x := 0 to color.Length0
      invariant next == k + x
      invariant DecodedUpTo(color, files[0], y, x)
      invariant DecodedUpTo(height, files[1], y, x)
      invariant DecodedUpTo(normal, files[2], y, x)
    {
      Store(color, files[0], x, y, next);
      Store(height, files[1], x, y, next);
      Store(normal, files[2], x, y, next);
      next := next + 1;
    }
    NextRow(color, files[0], y);
    NextRow(height, files[1], y);
    NextRow(normal, files[2], y);
  }

  /** `data.Color[x, y] = c` for the pixel c of the k-th read, k = y * width + x. */
  method Store(grid: array2<Pixel>, file: seq<Byte>, x: nat, y: nat, k: nat)
    requires x < grid.Length0 && y < grid.Length1 && k == y * grid.Length0 + x
    requires DecodedUpTo(grid, file, y, x)
    modifies grid
    ensures DecodedUpTo(grid, file, y, x + 1)
  {
    grid[x, y] := PixelAt(file, k);
  }

  /** A finished row is the start of the next one. */
  lemma NextRow(grid: array2<Pixel>, file: seq<Byte>, y: nat)
    requires DecodedUpTo(grid, file, y, grid.Length0)
    ensures DecodedUpTo(grid, file, y + 1, 0)
  {
  }

  /** The rest of a job once `done` has been read. */
  function Continue(done: seq<Option<string>>, r: (Result<seq<Option<string>>, JobError>, Pipe)): (Result<seq<Option<string>>, JobError>, Pipe)
  {
    if r.0.Failure? then r else (Success(done + r.0.value), r.1)
  }

  lemma ContinueNothing(r: (Result<seq<Option<string>>, JobError>, Pipe))
    ensures Continue([], r) == r
  {
    if r.0.Success? {
      assert [] + r.0.value == r.0.value;
    }
  }

  /** One read of `ReadN`, taken out of the remaining ones. */
  lemma ReadNStep(p: Pipe, ident: string, m: nat, done: seq<Option<string>>)
    requires m > 0 && Await(p, ident).0 != Hang
    ensures Continue(done, ReadN(p, ident, m)) ==
      Continue(done + [Reply(Await(p, ident).0)], ReadN(Await(p, ident).1, ident, m - 1))
  {
    var (first, p1) := Await(p, ident);
    var (more, p2) := ReadN(p1, ident, m - 1);
    if more.Success? {
      assert done + ([Reply(first)] + more.value) == done + [Reply(first)] + more.value;
    }
  }

  lemma ReadNHang(p: Pipe, ident: string, m: nat, done: seq<Option<string>>)
    requires m > 0 && Await(p, ident).0 == Hang
    ensures Continue(done, ReadN(p, ident, m)) == (Failure(Stalled), Await(p, ident).1)
  {
  }

  lemma ReadNDone(p: Pipe, ident: string, done: seq<Option<string>>)
    ensures Continue(done, ReadN(p, ident, 0)) == (Success(done), p)
  {
    assert done + [] == done;
  }

  class Processor {
    const server: PipeServer
    const fs: FileSystem
    const port: int
    var isDisposed: bool

    ghost predicate Valid()
      reads this, server, server.socket
    {
      server.Valid()
    }

    /** The processor once `Create` has connected the worker. */
    constructor (server: PipeServer, fs: FileSystem, port: int)
      requires server.Valid()
      ensures Valid() && this.server == server && this.fs == fs && this.port == port && !isDisposed
    {
      this.server := server;
      this.fs := fs;
      this.port := port;
      isDisposed := false;
    }

    /** `GenerateMapsRaw`: run the job with four replies (three paths and the
        width), then decode the three files into `width` by `width / 2` grids.
        `configPath` and `channel` stand for the temporary file name and the
        fresh GUID the source draws. */
    method GenerateMapsRaw(config: NodeTree, ghost depth: nat, ghost tree: Tree, configPath: string, channel: string)
      returns (r: Result<RawTextureData, JobError>)
      requires Valid() && Snapshot(config, depth) == Some(tree)
      modifies server, server.socket, fs
      ensures Valid()
      ensures fs.files == old(fs.files)[configPath := Text(Serialize(tree, 0))]
      ensures old(server.isDisposed) ==> r == Failure(SendFailed) && server.State() == old(server.State())
      ensures !old(server.isDisposed) ==>
        && server.socket.outgoing == old(server.socket.outgoing) + JobRequest(RawCommand, channel, configPath)
        && var (job, p) := Job(old(server.State()), channel, 4);
        && server.State() == p
        && (job.Failure? ==> r == Failure(job.error))
        && (job.Success? ==> match RawInputs(job.value, fs.files)
             case Failure(e) => r == Failure(e)
             case Success(inputs) =>
               && r.Success? && fresh(r.value.color) && fresh(r.value.height) && fresh(r.value.normal)
               && DecodedAll(r.value, inputs.0, inputs.1))
    {
      var replies := RunJob(RawCommand, 4, config, depth, tree, configPath, channel);
      if replies.Failure? {
        return Failure(replies.error);
      }
      var inputs := RawInputs(replies.value, fs.files);
      if inputs.Failure? {
        return Failure(inputs.error);
      }
      var data := DecodeMaps(inputs.value.0, inputs.value.1);
      r := Success(data);
    }

    /** `GenerateMapsEncoded`: run the job with three replies (the paths of
        the PNG files) and open the three files. */
    method GenerateMapsEncoded(config: NodeTree, ghost depth: nat, ghost tree: Tree, configPath: string, channel: string)
      returns (r: Result<seq<seq<Byte>>, JobError>)
      requires Valid() && Snapshot(config, depth) == Some(tree)
      modifies server, server.socket, fs
      ensures Valid()
      ensures fs.files == old(fs.files)[configPath := Text(Serialize(tree, 0))]
      ensures old(server.isDisposed) ==> r == Failure(SendFailed) && server.State() == old(server.State())
      ensures !old(server.isDisposed) ==>
        && server.socket.outgoing == old(server.socket.outgoing) + JobRequest(EncodedCommand, channel, configPath)
        && var (job, p) := Job(old(server.State()), channel, 3);
        && server.State() == p
        && (job.Failure? ==> r == Failure(job.error))
        && (job.Success? ==> r == OpenAll(fs.files, job.value))
    {
      var replies := RunJob(EncodedCommand, 3, config, depth, tree, configPath, channel);
      if replies.Failure? {
        return Failure(replies.error);
      }
      r := OpenAll(fs.files, replies.value);
    }

    /** One turn of the keep-alive task of `Create`: while the processor is
        not disposed, send the port on "KEEPALIVE" (every five seconds). */
    method KeepaliveStep() returns (sent: bool)
      requires Valid()
      modifies server.socket
      ensures Valid() && server.State() == old(server.State())
      ensures sent == (!isDisposed && !server.isDisposed)
      ensures server.socket.outgoing == old(server.socket.outgoing) +
        (if sent then EncodeFrame(Join("KEEPALIVE", Int32ToString(port))) else [])
    {
      if isDisposed {
        return false;
      }
      sent := server.SendMessage("KEEPALIVE", Int32ToString(port));
    }

    /** `Dispose`: tell the worker to quit, close the server, stop the
        keep-alive task. A send on a closed server throws before anything
        else happens. */
    method Dispose() returns (done: bool)
      requires Valid()
      modifies this, server, server.socket
      ensures Valid() && done == !old(server.isDisposed)
      ensures server.messages == old(server.messages) && server.receiving == old(server.receiving)
      ensures server.socket.incoming == old(server.socket.incoming)
      ensures done ==> isDisposed && server.isDisposed
      ensures done ==> server.socket.outgoing == old(server.socket.outgoing) + EncodeFrame(Join("KILL", "KILL"))
      ensures !done ==> isDisposed == old(isDisposed) && server.socket.outgoing == old(server.socket.outgoing)
    {
      done := server.SendMessage("KILL", "KILL");
      if !done {
        return;
      }
      server.Dispose();
      isDisposed := true;
    }

    /** The common part of both jobs: write the configuration, send the
        command and the path, check the error channel, read `count` replies. */
    method RunJob(command: string, count: nat, config: NodeTree, ghost depth: nat, ghost tree: Tree,
                  configPath: string, channel: string) returns (r: Result<seq<Option<string>>, JobError>)
      requires Valid() && Snapshot(config, depth) == Some(tree)
      modifies server, server.socket, fs
      ensures Valid()
      ensures fs.files == old(fs.files)[configPath := Text(Serialize(tree, 0))]
      ensures old(server.isDisposed) ==>
        r == Failure(SendFailed) && server.socket.outgoing == old(server.socket.outgoing)
        && server.State() == old(server.State())
      ensures !old(server.isDisposed) ==>
        && server.socket.outgoing == old(server.socket.outgoing) + JobRequest(command, channel, configPath)
        && (r, server.State()) == Job(old(server.State()), channel, count)
    {
      var text := config.ToString(0, depth, tree);
      fs.WriteAllText(configPath, text);
      var sent := Request(command, channel, configPath);
      if !sent {
        return Failure(SendFailed);
      }
      var ok := CheckError(channel);
      if ok.Failure? {
        return Failure(ok.error);
      }
      r := ReadReplies(channel, count);
    }

    /** `SendMessage(command, channel)` then `SendMessage(channel, configPath)`. */
    method Request(command: string, channel: string, configPath: string) returns (sent: bool)
      requires Valid()
      modifies server.socket
      ensures Valid() && sent == !server.isDisposed
      ensures server.State() == old(server.State())
      ensures server.socket.outgoing == old(server.socket.outgoing) + (if sent then JobRequest(command, channel, configPath) else [])
    {
      ghost var before, first, second :=
        server.socket.outgoing, EncodeFrame(Join(command, channel)), EncodeFrame(Join(channel, configPath));
      sent := server.SendMessage(command, channel);
      if sent {
        sent := server.SendMessage(channel, configPath);
        assert server.socket.outgoing == before + first + second;
        assert before + first + second == before + (first + second);
      }
    }

    /** `ReadMessage(channel + "-ERR")`, throwing unless it is "NONE". */
    method CheckError(channel: string) returns (r: Result<(), JobError>)
      requires Valid()
      modifies server, server.socket
      ensures Valid() && server.socket.outgoing == old(server.socket.outgoing)
      ensures (r, server.State()) == CheckErr(old(server.State()), channel)
    {
      var error := server.AwaitMessage(ErrChannel(channel));
      if error == Hang {
        return Failure(Stalled);
      }
      if error != Message(NoError) {
        return Failure(WorkerFailed(Reply(error)));
      }
      r := Success(());
    }

    /** `count` blocking reads on `channel`, in order. */
    method ReadReplies(channel: string, count: nat) returns (r: Result<seq<Option<string>>, JobError>)
      requires Valid()
      modifies server, server.socket
      ensures Valid() && server.socket.outgoing == old(server.socket.outgoing)
      ensures (r, server.State()) == ReadN(old(server.State()), channel, count)
    {
      ghost var goal := ReadN(server.State(), channel, count);
      var replies := [];
      var i := 0;
      ContinueNothing(goal);
      while i < count
        invariant i <= count
        invariant Valid() && server.socket.outgoing == old(server.socket.outgoing)
        invariant goal == Continue(replies, ReadN(server.State(), channel, count - i))
      {
        ghost var p := server.State();
        var reply := server.AwaitMessage(channel);
        ghost var next := server.State();
        assert Await(p, channel) == (reply, next);
        if reply == Hang {
          ReadNHang(p, channel, count - i, replies);
          return Failure(Stalled);
        }
        ReadNStep(p, channel, count - i, replies);
        assert goal == Continue(replies + [Reply(reply)], ReadN(next, channel, count - i - 1));
        replies := replies + [Reply(reply)];
        i := i + 1;
      }
      ReadNDone(server.State(), channel, replies);
      r := Success(replies);
    }
  }
}
