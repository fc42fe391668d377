/** The files the two processes exchange: the configuration text the
    controller writes for the worker, and the raw maps the worker writes for
    the controller (16 bytes per pixel, row by row). */
module Files {
  import opened Wrappers
  import opened Ascii

  // ---- Pixels ----

  /** One colour component as `BitConverter.GetBytes(float)` writes it; the
      floating-point value itself is not interpreted. */
  type Word = w: seq<Byte> | |w| == 4 witness [0, 0, 0, 0]

  /** A `Color` as the raw files carry it. */
  datatype Pixel = Pixel(r: Word, g: Word, b: Word, a: Word)

  /** The four components in the order r, g, b, a. */
  function EncodePixel(c: Pixel): (bytes: seq<Byte>)
    ensures |bytes| == 16
  {
    c.r + c.g + c.b + c.a
  }

  /** `ToSingle(buffer, 0)`, `(buffer, 4)`, `(buffer, 8)`, `(buffer, 12)`. */
  function DecodePixel(buffer: seq<Byte>): Pixel
    requires |buffer| == 16
  {
    Pixel(buffer[0..4], buffer[4..8], buffer[8..12], buffer[12..16])
  }

  lemma PixelRoundTrip(c: Pixel)
    ensures DecodePixel(EncodePixel(c)) == c
  {
    var b := EncodePixel(c);
    assert b[0..4] == c.r && b[4..8] == c.g && b[8..12] == c.b && b[12..16] == c.a;
  }

  /** The buffer after the k-th `ReadAsync(buffer, 0, 16)` of a file read
      from its start: bytes 16k to 16k+16, with zeros past the end. */
  function Chunk(file: seq<Byte>, k: nat): (buffer: seq<Byte>)
    ensures |buffer| == 16
    ensures 16 * k + 16 <= |file| ==> buffer == file[16 * k..16 * k + 16]
  {
    seq(16, i requires 0 <= i < 16 => if 16 * k + i < |file| then file[16 * k + i] else 0)
  }

  /** The pixel the controller stores for the k-th read of a raw file. */
  function PixelAt(file: seq<Byte>, k: nat): Pixel
  {
    DecodePixel(Chunk(file, k))
  }

  // ---- The raw layout ----

  /** `Texture2D.GetPixel(x, y)`. */
  type Texture = (int, int) -> Pixel

  /** `width / 2` rows; C# division truncates, so a negative width gives no row. */
  function Rows(width: int): (h: nat)
    ensures width >= 0 ==> h == width / 2
  {
    if width <= 0 then 0 else width / 2
  }

  /** The first `n` pixels of row `y`. */
  function RawRow(tex: Texture, y: nat, n: nat): (bytes: seq<Byte>)
    ensures |bytes| == 16 * n
  {
    if n == 0 then [] else RawRow(tex, y, n - 1) + EncodePixel(tex(n - 1, y))
  }

  /** The first `n` rows of a raw file for a texture `width` pixels wide. */
  function RawRows(tex: Texture, width: nat, n: nat): (bytes: seq<Byte>)
    ensures |bytes| == 16 * width * n
  {
    if n == 0 then []
    else
      var r := RawRows(tex, width, n - 1) + RawRow(tex, n - 1, width);
      assert 16 * width * (n - 1) + 16 * width == 16 * width * n;
      r
  }

  /** The file `GenerateRawPlanetMaps` writes for one map: rows
      `y < width / 2`, in each row columns `x < width`, 16 bytes per pixel. */
  function RawFile(tex: Texture, width: int): (bytes: seq<Byte>)
    ensures width >= 0 ==> |bytes| == 16 * width * (width / 2)
  {
    if width <= 0 then [] else RawRows(tex, width, Rows(width))
  }

  lemma {:induction false} RawRowAt(tex: Texture, y: nat, n: nat, x: nat, i: nat)
    requires x < n && i < 16
    ensures RawRow(tex, y, n)[16 * x + i] == EncodePixel(tex(x, y))[i]
    decreases n
  {
    if x < n - 1 {
      RawRowAt(tex, y, n - 1, x, i);
    }
  }

  /** Where byte i of pixel (x, y) falls relative to the last of `n` rows. */
  lemma Offsets(width: nat, n: nat, x: nat, y: nat, i: nat)
    requires x < width && y < n && i < 16
    ensures y * width >= 0
    ensures y < n - 1 ==> 16 * (y * width + x) + i < 16 * width * (n - 1)
    ensures y == n - 1 ==> 16 * (y * width + x) + i == 16 * width * (n - 1) + (16 * x + i)
  {
    if y < n - 1 {
      MulLe(y + 1, n - 1, width);
      assert (y + 1) * width == y * width + width;
    } else {
      assert y * width == width * (n - 1);
    }
  }

  lemma AppendAt<T>(a: seq<T>, b: seq<T>, j: nat)
    requires j < |a| + |b|
    ensures (a + b)[j] == if j < |a| then a[j] else b[j - |a|]
  {
  }

  lemma MulLe(a: nat, b: nat, c: nat)
    requires a <= b
    ensures a * c <= b * c
  {
  }

  lemma {:induction false} RawRowsAt(tex: Texture, width: nat, n: nat, x: nat, y: nat, i: nat)
    requires x < width && y < n && i < 16
    ensures 16 * (y * width + x) + i < |RawRows(tex, width, n)|
    ensures RawRows(tex, width, n)[16 * (y * width + x) + i] == EncodePixel(tex(x, y))[i]
    decreases n
  {
    var prefix := RawRows(tex, width, n - 1);
    var row := RawRow(tex, n - 1, width);
    assert RawRows(tex, width, n) == prefix + row;
    var j := 16 * (y * width + x) + i;
    Offsets(width, n, x, y, i);
    if y < n - 1 {
      RawRowsAt(tex, width, n - 1, x, y, i);
      AppendAt(prefix, row, j);
    } else {
      RawRowAt(tex, y, width, x, i);
      AppendAt(prefix, row, j);
    }
  }

  /** The controller's k-th read, for k = y * width + x, is the worker's
      pixel (x, y): the two loops agree on the layout. */
  lemma RawLayout(tex: Texture, width: int, x: nat, y: nat)
    requires x < width && y < width / 2
    ensures PixelAt(RawFile(tex, width), y * width + x) == tex(x, y)
  {
    var file := RawFile(tex, width);
    var k := y * width + x;
    forall i | 0 <= i < 16
      ensures 16 * k + i < |file| && file[16 * k + i] == EncodePixel(tex(x, y))[i]
    {
      RawRowsAt(tex, width, Rows(width), x, y, i);
    }
    assert Chunk(file, k) == EncodePixel(tex(x, y));
    PixelRoundTrip(tex(x, y));
  }

  // ---- The file system ----

  /** What a path holds: text written with `WriteAllText`, or bytes. */
  datatype Content = Text(text: string) | Binary(bytes: seq<Byte>)

  /** The message of the `FileNotFoundException` for a missing path. */
  function NotFound(path: string): string
  {
    "Could not find file '" + path + "'."
  }

  /** `File.ReadAllText(path)`. */
  function ReadText(files: map<string, Content>, path: string): (r: Result<string, string>)
    ensures r.Failure? <==> path !in files
    ensures path in files && files[path].Text? ==> r == Success(files[path].text)
  {
    if path !in files then Failure(NotFound(path))
    else match files[path]
      case Text(t) => Success(t)
      case Binary(b) => Success(GetString(b))
  }

  /** `File.OpenRead(path)` followed by reads to the end. */
  function ReadBytes(files: map<string, Content>, path: string): (r: Result<seq<Byte>, string>)
    ensures r.Failure? <==> path !in files
    ensures path in files && files[path].Binary? ==> r == Success(files[path].bytes)
  {
    if path !in files then Failure(NotFound(path))
    else match files[path]
      case Text(t) => Success(GetBytes(t))
      case Binary(b) => Success(b)
  }

  class FileSystem {
    var files: map<string, Content>

    constructor (files: map<string, Content>)
      ensures this.files == files
    {
      this.files := files;
    }

    /** `File.WriteAllText(path, text)`: creates or replaces. */
    method WriteAllText(path: string, text: string)
      modifies this
      ensures files == old(files)[path := Text(text)]
    {
      files := files[path := Text(text)];
    }

    method ReadAllText(path: string) returns (r: Result<string, string>)
      ensures r == ReadText(files, path)
    {
      if path !in files {
        return Failure(NotFound(path));
      }
      match files[path] {
        case Text(t) => r := Success(t);
        case Binary(b) => r := Success(GetString(b));
      }
    }

    /** `File.Delete(path)`; a missing path is not an error. */
    method Delete(path: string)
      modifies this
      ensures files == old(files) - {path}
    {
      files := files - {path};
    }

    /** `File.WriteAllBytes(path, bytes)`. */
    method WriteAllBytes(path: string, bytes: seq<Byte>)
      modifies this
      ensures files == old(files)[path := Binary(bytes)]
    {
      files := files[path := Binary(bytes)];
    }
  }

  /** A `FileStream` that `File.OpenWrite` opened on a new temporary file:
      the bytes written to it so far, in order. */
  class OutputStream {
    var written: seq<Byte>

    constructor ()
      ensures written == []
    {
      written := [];
    }

    /** `Write(bytes, 0, bytes.Length)`. */
    method Write(bytes: seq<Byte>)
      modifies this
      ensures written == old(written) + bytes
    {
      written := written + bytes;
    }
  }

  /** What `WriteAllText` stored reads back unchanged. */
  lemma TextRoundTrip(files: map<string, Content>, path: string, text: string)
    ensures ReadText(files[path := Text(text)], path) == Success(text)
  {
  }

  /** After `Delete`, reading fails with the missing-file message. */
  lemma ReadAfterDelete(files: map<string, Content>, path: string)
    ensures ReadText(files - {path}, path) == Failure(NotFound(path))
  {
  }
}
