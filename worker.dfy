/** The worker's side of the protocol (`Entrypoint`): the callbacks `Awake`
    registers on the client, and the replies and files of the two map
    generators. Body and texture generation is an opaque step that yields
    maps or an exception message. */
module Worker {
  import opened Wrappers
  import opened Ascii
  import opened Frame
  import opened Channels
  import opened Files
  import opened Config
  import opened Client

  // ---- Dispatch ----

  /** The callbacks handed to `ReadMessage`. */
  datatype Handler =
    | StartRaw                       // "GENERATE-MAPS-RAW": the body is a channel
    | StartEncoded                   // "GENERATE-MAPS-ENCODED": the body is a channel
    | RawConfig(channel: string)     // each message on the channel is a config path
    | EncodedConfig(channel: string)
    | Echo                           // "KEEPALIVE"
    | Quit                           // "KILL"

  /** What a callback does with the message it is handed. */
  datatype Action =
    | Subscribe(ident: string, handler: Handler) // `_client.ReadMessage(ident, handler)`
    | Reply(ident: string, body: string)         // `_client.SendMessage(ident, body)`
    | Close                                      // `_client.Dispose()`
    | GenerateRaw(channel: string, config: string)
    | GenerateEncoded(channel: string, config: string)
    | Ignore

  /** The registrations of `Awake`, one reader per ident. */
  const Wiring: seq<(string, Handler)> :=
    [("GENERATE-MAPS-RAW", StartRaw), ("GENERATE-MAPS-ENCODED", StartEncoded), ("KEEPALIVE", Echo), ("KILL", Quit)]

  /** A callback handed `body`; after `Dispose` every reader hands it null,
      and nothing it then does reaches the controller. */
  function Dispatch(h: Handler, body: Option<string>): (a: Action)
    ensures body.None? <==> a == Ignore
    ensures h.StartRaw? && body.Some? ==> a == Subscribe(body.value, RawConfig(body.value))
    ensures h.StartEncoded? && body.Some? ==> a == Subscribe(body.value, EncodedConfig(body.value))
    ensures h.Echo? && body.Some? ==> a == Reply("KEEPALIVE", body.value)
  {
    match body
    case None => Ignore
    case Some(b) =>
      match h
      case StartRaw => Subscribe(b, RawConfig(b))
      case StartEncoded => Subscribe(b, EncodedConfig(b))
      case RawConfig(channel) => GenerateRaw(channel, b)
      case EncodedConfig(channel) => GenerateEncoded(channel, b)
      case Echo => Reply("KEEPALIVE", b)
      case Quit => Close
  }

  /** The reader registered for `ident`, if any. */
  function HandlerOf(handlers: seq<(string, Handler)>, ident: string): (r: Option<Handler>)
    ensures r.Some? <==> exists i :: 0 <= i < |handlers| && handlers[i].0 == ident
    ensures r.Some? ==> exists i :: 0 <= i < |handlers| && handlers[i] == (ident, r.value)
  {
    if handlers == [] then None
    else if handlers[0].0 == ident then Some(handlers[0].1)
    else
      var r := HandlerOf(handlers[1..], ident);
      if r.Some? then
        var i :| 0 <= i < |handlers| - 1 && handlers[1..][i] == (ident, r.value);
        assert handlers[i + 1] == (ident, r.value);
        r
      else
        assert forall i :: 1 <= i < |handlers| ==> handlers[i] == handlers[1..][i - 1];
        r
  }

  /** A `GENERATE-MAPS-RAW` message starts a reader on the channel it names,
      which treats each message on that channel as a config path; a
      `KEEPALIVE` message is sent back unchanged. */
  lemma WiringRoutes(channel: string, config: string, s: string)
    ensures HandlerOf(Wiring, "GENERATE-MAPS-RAW") == Some(StartRaw)
    ensures Dispatch(StartRaw, Some(channel)) == Subscribe(channel, RawConfig(channel))
    ensures Dispatch(RawConfig(channel), Some(config)) == GenerateRaw(channel, config)
    ensures HandlerOf(Wiring, "GENERATE-MAPS-ENCODED") == Some(StartEncoded)
    ensures Dispatch(EncodedConfig(channel), Some(config)) == GenerateEncoded(channel, config)
    ensures HandlerOf(Wiring, "KEEPALIVE") == Some(Echo) && Dispatch(Echo, Some(s)) == Reply("KEEPALIVE", s)
    ensures HandlerOf(Wiring, "KILL") == Some(Quit) && Dispatch(Quit, Some(s)) == Close
  {
    assert Wiring[0].0 == "GENERATE-MAPS-RAW";
    assert Wiring[1..][0].0 == "GENERATE-MAPS-ENCODED" && Wiring[0].0 != "GENERATE-MAPS-ENCODED";
    assert Wiring[1..][1..][0].0 == "KEEPALIVE";
    assert Wiring[0].0 != "KEEPALIVE" && Wiring[1..][0].0 != "KEEPALIVE";
    assert Wiring[1..][1..][1..][0].0 == "KILL";
    assert Wiring[0].0 != "KILL" && Wiring[1..][0].0 != "KILL" && Wiring[1..][1..][0].0 != "KILL";
  }

  // ---- Generation ----

  /** Three textures `width` pixels wide, as `GenerateMaps` produces them. */
  datatype Maps = Maps(width: nat, color: Texture, height: Texture, normal: Texture)

  /** `ConfigNode.Parse` on the config text: the node tree, or the message
      of the exception it threw. */
  type Parser = string -> Result<Tree, string>

  /** `GenerateBody` and `GenerateMaps` on the parsed config: maps, or the
      message of the exception they threw. */
  type Generator = Tree -> Result<Maps, string>

  /** The same for the encoded job: the three `EncodeToPNG` results. */
  type Encoder = Tree -> Result<(seq<Byte>, seq<Byte>, seq<Byte>), string>

  /** The three names `Path.GetTempFileName` hands out. */
  datatype Paths = Paths(color: string, height: string, normal: string)

  predicate Distinct(paths: Paths, config: string)
  {
    && paths.color != paths.height && paths.color != paths.normal && paths.height != paths.normal
    && config != paths.color && config != paths.height && config != paths.normal
  }

  /** `ConfigNode.Parse(File.ReadAllText(config))`. */
  function Load(files: map<string, Content>, config: string, parse: Parser): (r: Result<Tree, string>)
    ensures config !in files ==> r == Failure(NotFound(config))
    ensures config in files ==> r == parse(ReadText(files, config).value)
  {
    match ReadText(files, config)
    case Failure(e) => Failure(e)
    case Success(text) => parse(text)
  }

  /** The config loaded, then the opaque generation step on the parsed
      tree; the first failure decides. */
  function Run<T>(files: map<string, Content>, config: string, parse: Parser, generate: Tree -> Result<T, string>): (r: Result<T, string>)
    ensures Load(files, config, parse).Failure? ==> r == Failure(Load(files, config, parse).error)
    ensures Load(files, config, parse).Success? ==> r == generate(Load(files, config, parse).value)
  {
    match Load(files, config, parse)
    case Failure(e) => Failure(e)
    case Success(tree) => generate(tree)
  }

  /** A successful handler's replies: one message per body on `channel`,
      then "NONE" on the error channel. */
  function Answer(channel: string, bodies: seq<string>): (r: seq<(string, string)>)
    ensures |r| == |bodies| + 1 && r[|bodies|] == (ErrChannel(channel), NoError)
    ensures forall i :: 0 <= i < |bodies| ==> r[i] == (channel, bodies[i])
  {
    seq(|bodies|, i requires 0 <= i < |bodies| => (channel, bodies[i])) + [(ErrChannel(channel), NoError)]
  }

  /** What the raw handler sends: the three paths and the width, or only the
      exception message on the error channel. */
  function RawReplies(channel: string, outcome: Result<Maps, string>, paths: Paths): seq<(string, string)>
  {
    match outcome
    case Failure(e) => [(ErrChannel(channel), e)]
    case Success(m) => Answer(channel, [paths.color, paths.height, paths.normal, Int32ToString(m.width)])
  }

  /** What the encoded handler sends: the three paths, or the exception
      message. */
  function EncodedReplies(channel: string, outcome: Result<(seq<Byte>, seq<Byte>, seq<Byte>), string>, paths: Paths): seq<(string, string)>
  {
    match outcome
    case Failure(e) => [(ErrChannel(channel), e)]
    case Success(_) => Answer(channel, [paths.color, paths.height, paths.normal])
  }

  /** The files once a handler has run: the config is deleted once it has
      been read and parsed (`loaded`), and on success the three maps are
      written. */
  function FilesAfter(files: map<string, Content>, config: string, loaded: bool, written: Option<(seq<Byte>, seq<Byte>, seq<Byte>)>, paths: Paths): map<string, Content>
  {
    if !loaded then files
    else match written
      case None => files - {config}
      case Some((c, h, n)) =>
        (files - {config})[paths.color := Binary(c)][paths.height := Binary(h)][paths.normal := Binary(n)]
  }

  /** The raw files of successful maps. */
  function RawWritten(outcome: Result<Maps, string>): (w: Option<(seq<Byte>, seq<Byte>, seq<Byte>)>)
    ensures w.Some? <==> outcome.Success?
  {
    match outcome
    case Failure(_) => None
    case Success(m) => Some((RawFile(m.color, m.width), RawFile(m.height, m.width), RawFile(m.normal, m.width)))
  }

  function EncodedWritten(outcome: Result<(seq<Byte>, seq<Byte>, seq<Byte>), string>): (w: Option<(seq<Byte>, seq<Byte>, seq<Byte>)>)
    ensures w.Some? <==> outcome.Success?
  {
    match outcome
    case Failure(_) => None
    case Success(pngs) => Some(pngs)
  }

  /** The files the worker writes are the files the controller opens: after
      a successful run each path holds its map, and the config is gone. */
  lemma WrittenFilesReadBack(files: map<string, Content>, config: string, c: seq<Byte>, h: seq<Byte>, n: seq<Byte>, paths: Paths)
    requires Distinct(paths, config) && config in files
    ensures var after := FilesAfter(files, config, true, Some((c, h, n)), paths);
      && ReadBytes(after, paths.color) == Success(c)
      && ReadBytes(after, paths.height) == Success(h)
      && ReadBytes(after, paths.normal) == Success(n)
      && ReadText(after, config) == Failure(NotFound(config))
  {
  }

  /** The config stays on disk exactly when it could not be read or parsed;
      a parse failure sends only the exception message. */
  lemma ConfigKeptIffNotLoaded(files: map<string, Content>, config: string, parse: Parser, generate: Generator, channel: string, paths: Paths)
    requires Distinct(paths, config) && config in files
    ensures var outcome := Run(files, config, parse, generate);
      var after := FilesAfter(files, config, Load(files, config, parse).Success?, RawWritten(outcome), paths);
      && (config in after <==> parse(ReadText(files, config).value).Failure?)
      && (config in after ==> after == files)
      && (config in after ==>
            RawReplies(channel, outcome, paths) == [(ErrChannel(channel), parse(ReadText(files, config).value).error)])
  {
  }

  /** One more pixel of row `y`. */
  lemma RowStep(start: seq<Byte>, tex: Texture, y: nat, x: nat)
    ensures start + RawRow(tex, y, x) + EncodePixel(tex(x, y)) == start + RawRow(tex, y, x + 1)
  {
  }

  // ---- The worker ----

  class Entrypoint {
    const client: PipeClient
    const fs: FileSystem
    /** The running `ReadMessageInternal` readers, by ident. */
    var handlers: seq<(string, Handler)>

    ghost predicate Valid()
      reads this, client, client.socket
    {
      client.Valid()
    }

    /** `Awake`, once the client has connected. */
    constructor (client: PipeClient, fs: FileSystem)
      requires client.Valid()
      ensures Valid() && this.client == client && this.fs == fs && handlers == Wiring
    {
      this.client := client;
      this.fs := fs;
      handlers := Wiring;
    }

    /** A reader hands `body` to its callback `h`. The opaque generation
        steps and the temporary names are parameters. */
    method Handle(h: Handler, body: Option<string>, parse: Parser, generate: Generator, encode: Encoder, paths: Paths)
      requires Valid()
      modifies this, client, client.socket, fs
      ensures Valid()
      ensures match Dispatch(h, body)
        case Subscribe(ident, handler) =>
          && handlers == old(handlers) + [(ident, handler)]
          && unchanged(client, client.socket, fs)
        case Reply(ident, message) =>
          && handlers == old(handlers) && unchanged(client, fs)
          && client.socket.incoming == old(client.socket.incoming)
          && client.socket.outgoing == old(client.socket.outgoing) +
               (if old(client.isDisposed) then [] else EncodeFrame(Join(ident, message)))
        case Close =>
          && handlers == old(handlers) && client.isDisposed && unchanged(client.socket, fs)
          && client.messages == old(client.messages) && client.receiving == old(client.receiving)
        case GenerateRaw(channel, config) =>
          && handlers == old(handlers) && unchanged(client)
          && client.socket.incoming == old(client.socket.incoming)
          && var outcome := Run(old(fs.files), config, parse, generate);
          && fs.files == FilesAfter(old(fs.files), config, Load(old(fs.files), config, parse).Success?, RawWritten(outcome), paths)
          && client.socket.outgoing == old(client.socket.outgoing) +
               (if old(client.isDisposed) then [] else Frames(RawReplies(channel, outcome, paths)))
        case GenerateEncoded(channel, config) =>
          && handlers == old(handlers) && unchanged(client)
          && client.socket.incoming == old(client.socket.incoming)
          && var outcome := Run(old(fs.files), config, parse, encode);
          && fs.files == FilesAfter(old(fs.files), config, Load(old(fs.files), config, parse).Success?, EncodedWritten(outcome), paths)
          && client.socket.outgoing == old(client.socket.outgoing) +
               (if old(client.isDisposed) then [] else Frames(EncodedReplies(channel, outcome, paths)))
        case Ignore => unchanged(this, client, client.socket, fs)
    {
      match Dispatch(h, body)
      case Subscribe(ident, handler) =>
        handlers := handlers + [(ident, handler)];
      case Reply(ident, message) =>
        var _ := client.SendMessage(ident, message);
      case Close =>
        client.Dispose();
      case GenerateRaw(channel, config) =>
        GenerateRawPlanetMaps(channel, config, parse, generate, paths);
      case GenerateEncoded(channel, config) =>
        GenerateEncodedPlanetMaps(channel, config, parse, encode, paths);
      case Ignore =>
    }

    /** `GenerateRawPlanetMaps(channel, config)`. */
    method GenerateRawPlanetMaps(channel: string, config: string, parse: Parser, generate: Generator, paths: Paths)
      requires Valid()
      modifies client.socket, fs
      ensures Valid()
      ensures client.socket.incoming == old(client.socket.incoming)
      ensures var outcome := Run(old(fs.files), config, parse, generate);
        && fs.files == FilesAfter(old(fs.files), config, Load(old(fs.files), config, parse).Success?, RawWritten(outcome), paths)
        && client.socket.outgoing == old(client.socket.outgoing) +
             (if client.isDisposed then [] else Frames(RawReplies(channel, outcome, paths)))
    {
      var text := fs.ReadAllText(config);
      if text.Failure? {
        Send([(ErrChannel(channel), text.error)]);
        return;
      }
      var tree := parse(text.value);
      if tree.Failure? {
        Send([(ErrChannel(channel), tree.error)]);
        return;
      }
      fs.Delete(config);
      var maps := generate(tree.value);
      if maps.Failure? {
        Send([(ErrChannel(channel), maps.error)]);
        return;
      }
      var colorFile, heightFile, normalFile := WriteRawMaps(maps.value);
      fs.WriteAllBytes(paths.color, colorFile.written);
      fs.WriteAllBytes(paths.height, heightFile.written);
      fs.WriteAllBytes(paths.normal, normalFile.written);
      Send(RawReplies(channel, maps, paths));
    }

    /** `GenerateEncodedPlanetMaps(channel, config)`. */
    method GenerateEncodedPlanetMaps(channel: string, config: string, parse: Parser, encode: Encoder, paths: Paths)
      requires Valid()
      modifies client.socket, fs
      ensures Valid()
      ensures client.socket.incoming == old(client.socket.incoming)
      ensures var outcome := Run(old(fs.files), config, parse, encode);
        && fs.files == FilesAfter(old(fs.files), config, Load(old(fs.files), config, parse).Success?, EncodedWritten(outcome), paths)
        && client.socket.outgoing == old(client.socket.outgoing) +
             (if client.isDisposed then [] else Frames(EncodedReplies(channel, outcome, paths)))
    {
      var text := fs.ReadAllText(config);
      if text.Failure? {
        Send([(ErrChannel(channel), text.error)]);
        return;
      }
      var tree := parse(text.value);
      if tree.Failure? {
        Send([(ErrChannel(channel), tree.error)]);
        return;
      }
      fs.Delete(config);
      var pngs := encode(tree.value);
      if pngs.Failure? {
        Send([(ErrChannel(channel), pngs.error)]);
        return;
      }
      var (c, h, n) := pngs.value;
      fs.WriteAllBytes(paths.color, c);
      fs.WriteAllBytes(paths.height, h);
      fs.WriteAllBytes(paths.normal, n);
      Send(EncodedReplies(channel, pngs, paths));
    }

    /** Consecutive `_client.SendMessage` calls. */
    method Send(msgs: seq<(string, string)>)
      requires Valid()
      decreases |msgs|
      modifies client.socket
      ensures Valid() && client.socket.incoming == old(client.socket.incoming)
      ensures client.socket.outgoing == old(client.socket.outgoing) + (if client.isDisposed then [] else Frames(msgs))
    {
      if msgs == [] {
        return;
      }
      ghost var start, first, rest := client.socket.outgoing, EncodeFrame(Join(msgs[0].0, msgs[0].1)), Frames(msgs[1..]);
      assert Frames(msgs) == first + rest;
      var _ := client.SendMessage(msgs[0].0, msgs[0].1);
      Send(msgs[1..]);
      assert start + first + rest == start + (first + rest);
    }

    /** The write loop of `GenerateRawPlanetMaps`: rows `y < width / 2`, in
        each row columns `x < width`, one pixel of each map per step. */
    method WriteRawMaps(m: Maps) returns (colorFile: OutputStream, heightFile: OutputStream, normalFile: OutputStream)
      ensures colorFile.written == RawFile(m.color, m.width)
      ensures heightFile.written == RawFile(m.height, m.width)
      ensures normalFile.written == RawFile(m.normal, m.width)
    {
      colorFile := new OutputStream();
      heightFile := new OutputStream();
      normalFile := new OutputStream();
      for y := 0 to Rows(m.width)
        invariant colorFile.written == RawRows(m.color, m.width, y)
        invariant heightFile.written == RawRows(m.height, m.width, y)
        invariant normalFile.written == RawRows(m.normal, m.width, y)
      {
        WriteRow(m, y, colorFile, heightFile, normalFile);
      }
    }

    /** One row of the three maps, flushed at its end. */
    method WriteRow(m: Maps, y: nat, colorFile: OutputStream, heightFile: OutputStream, normalFile: OutputStream)
      requires colorFile != heightFile && colorFile != normalFile && heightFile != normalFile
      modifies colorFile, heightFile, normalFile
      ensures colorFile.written == old(colorFile.written) + RawRow(m.color, y, m.width)
      ensures heightFile.written == old(heightFile.written) + RawRow(m.height, y, m.width)
      ensures normalFile.written == old(normalFile.written) + RawRow(m.normal, y, m.width)
    {
      ghost var c, h, n := colorFile.written, heightFile.written, normalFile.written;
      for x := 0 to m.width
        invariant colorFile.written == c + RawRow(m.color, y, x)
        invariant heightFile.written == h + RawRow(m.height, y, x)
        invariant normalFile.written == n + RawRow(m.normal, y, x)
      {
        WritePixel(colorFile, m.color(x, y));
        RowStep(c, m.color, y, x);
        WritePixel(heightFile, m.height(x, y));
        RowStep(h, m.height, y, x);
        WritePixel(normalFile, m.normal(x, y));
        RowStep(n, m.normal, y, x);
      }
    }

    /** `Write(BitConverter.GetBytes(c.r), 0, 4)` and so on for g, b and a. */
    method WritePixel(file: OutputStream, c: Pixel)
      modifies file
      ensures file.written == old(file.written) + EncodePixel(c)
    {
      file.Write(c.r);
      file.Write(c.g);
      file.Write(c.b);
      file.Write(c.a);
      assert old(file.written) + c.r + c.g + c.b + c.a == old(file.written) + EncodePixel(c);
    }
  }
}
