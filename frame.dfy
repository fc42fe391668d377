/** The framing shared by both ends of the pipe (the static `SendMessage(Socket, …)`
    and `ReadMessage(Socket)` of `PipeServer` and `PipeClient`, which are the
    same code): a 4-byte little-endian length, then the ASCII bytes. */
module Frame {
  import opened Wrappers
  import opened Ascii

  // ---- The length header ----

  /** `sizeinfo[k] = (Byte)(length >> 8k)`: for a non-negative Int32 the cast
      keeps bits 8k..8k+7, i.e. the k-th base-256 digit of the length. */
  function LengthHeader(length: nat): (h: seq<Byte>)
    ensures |h| == 4
  {
    var q1 := length / 0x100;
    var q2 := q1 / 0x100;
    var q3 := q2 / 0x100;
    [length % 0x100, q1 % 0x100, q2 % 0x100, q3 % 0x100]
  }

  /** `messagesize |= sizeinfo[k] << 8k` on an Int32: the four bytes occupy
      disjoint bits, so the OR is their weighted sum, read back as a signed
      32-bit value (bit 31 set makes it negative). */
  function DecodeLength(h: seq<Byte>): (n: int)
    requires |h| == 4
    ensures IsInt32(n)
    ensures n < 0 <==> h[3] >= 0x80
  {
    var u := h[0] as int + h[1] as int * 0x100 + h[2] as int * 0x1_0000 + h[3] as int * 0x100_0000;
    if u < 0x8000_0000 then u else u - 0x1_0000_0000
  }

  /** Every length a .NET array can have survives the header. */
  lemma LengthRoundTrip(length: nat)
    requires length <= Int32Max
    ensures DecodeLength(LengthHeader(length)) == length
  {
    var h := LengthHeader(length);
    var q1 := length / 0x100;
    var q2 := q1 / 0x100;
    var q3 := q2 / 0x100;
    assert length == q1 * 0x100 + h[0];
    assert q1 == q2 * 0x100 + h[1];
    assert q2 == q3 * 0x100 + h[2];
    assert q3 < 0x80 && h[3] == q3;
  }

  /** The only header that decodes to a non-negative size is the one
      `SendMessage` writes for that size: the reader accepts exactly the
      headers the writer produces. */
  lemma HeaderOfLength(h: seq<Byte>)
    requires |h| == 4 && DecodeLength(h) >= 0
    ensures h == LengthHeader(DecodeLength(h))
  {
    var n := DecodeLength(h);
    var r1 := h[1] as int + h[2] as int * 0x100 + h[3] as int * 0x1_0000;
    var r2 := h[2] as int + h[3] as int * 0x100;
    assert n == h[0] as int + r1 * 0x100;
    assert r1 == h[1] as int + r2 * 0x100;
    assert n % 0x100 == h[0] as int && n / 0x100 == r1;
    assert r1 % 0x100 == h[1] as int && r1 / 0x100 == r2;
    assert r2 % 0x100 == h[2] as int && r2 / 0x100 == h[3] as int;
    assert h[3] as int % 0x100 == h[3] as int;
  }

  /** The bytes `SendMessage(Socket, msg)` writes: the header for the byte
      count, then `Encoding.ASCII.GetBytes(msg)`. */
  function EncodeFrame(msg: string): (f: seq<Byte>)
    ensures |f| == 4 + |msg|
  {
    LengthHeader(|msg|) + GetBytes(msg)
  }

  // ---- The connection ----

  /** The socket as the framing code sees it: the chunks that successive
      `Receive` calls would return (each non-empty; an exhausted list is a
      closed peer, for which `Receive` returns 0), and the bytes `Send` has
      written so far. */
  class Socket {
    var incoming: seq<seq<Byte>>
    var outgoing: seq<Byte>

    ghost predicate Valid()
      reads this
    {
      forall i :: 0 <= i < |incoming| ==> |incoming[i]| > 0
    }

    /** The byte stream still to be received. */
    function Available(): seq<Byte>
      reads this
    {
      Flatten(incoming)
    }

    constructor (chunks: seq<seq<Byte>>)
      requires forall i :: 0 <= i < |chunks| ==> |chunks[i]| > 0
      ensures Valid() && incoming == chunks && outgoing == []
    {
      incoming := chunks;
      outgoing := [];
    }

    /** `Receive(buffer, offset, size, SocketFlags.None)`: copies at most
        `size` bytes of the next chunk to `buffer[offset..]`; what does not
        fit stays for the next call. Returns 0 when `size` is 0 or the peer
        has closed. */
    method Receive(buffer: array<Byte>, offset: nat, size: nat) returns (n: nat)
      requires Valid()
      requires offset + size <= buffer.Length
      modifies this, buffer
      ensures Valid() && outgoing == old(outgoing)
      ensures n <= size
      ensures n == 0 <==> size == 0 || old(Available()) == []
      ensures old(Available()) == buffer[offset..offset + n] + Available()
      ensures buffer[..offset] == old(buffer[..offset])
      ensures buffer[offset + n..] == old(buffer[offset + n..])
    {
      if size == 0 || incoming == [] {
        return 0;
      }
      var chunk := incoming[0];
      n := if size < |chunk| then size else |chunk|;
      for j := 0 to n
        modifies buffer
        invariant buffer[offset..offset + j] == chunk[..j]
        invariant buffer[..offset] == old(buffer[..offset])
        invariant buffer[offset + n..] == old(buffer[offset + n..])
      {
        buffer[offset + j] := chunk[j];
      }
      FlattenCons(incoming);
      if n == |chunk| {
        incoming := incoming[1..];
      } else {
        FlattenCons([chunk[n..]] + incoming[1..]);
        incoming := [chunk[n..]] + incoming[1..];
      }
    }

    /** `Send(buffer)`: the whole buffer is written. */
    method Send(buffer: array<Byte>)
      modifies this
      ensures incoming == old(incoming)
      ensures outgoing == old(outgoing) + buffer[..]
    {
      outgoing := outgoing + buffer[..];
    }
  }

  function Flatten(chunks: seq<seq<Byte>>): seq<Byte>
  {
    if chunks == [] then [] else chunks[0] + Flatten(chunks[1..])
  }

  lemma FlattenCons(chunks: seq<seq<Byte>>)
    requires chunks != []
    ensures Flatten(chunks) == chunks[0] + Flatten(chunks[1..])
  {
  }

  // ---- Writing and reading a frame ----

  /** Static `SendMessage(Socket socket, String msg)`. */
  method SendFrame(socket: Socket, msg: string)
    modifies socket
    ensures socket.incoming == old(socket.incoming)
    ensures socket.outgoing == old(socket.outgoing) + EncodeFrame(msg)
  {
    var bytes := GetBytes(msg);
    var data := new Byte[|bytes|](i requires 0 <= i < |bytes| => bytes[i]);
    var sizeinfo := SizeInfo(data.Length);
    assert data[..] == bytes;
    ghost var start, header, body := socket.outgoing, sizeinfo[..], data[..];
    socket.Send(sizeinfo);
    socket.Send(data);
    assert start + header + body == start + (header + body);
  }

  /** The four header bytes, `sizeinfo[k] = (Byte)(length >> 8k)`. */
  method SizeInfo(length: nat) returns (sizeinfo: array<Byte>)
    ensures fresh(sizeinfo) && sizeinfo[..] == LengthHeader(length)
  {
    sizeinfo := new Byte[4](_ => 0);
    sizeinfo[0] := length % 0x100;
    sizeinfo[1] := length / 0x100 % 0x100;
    sizeinfo[2] := length / 0x1_0000 % 0x100;
    sizeinfo[3] := length / 0x100_0000 % 0x100;
    Shifts(length);
  }

  /** `length >> 8k` is the k-fold quotient by 256. */
  lemma Shifts(length: nat)
    ensures length / 0x1_0000 == length / 0x100 / 0x100
    ensures length / 0x100_0000 == length / 0x100 / 0x100 / 0x100
  {
  }

  /** The one way reading a frame fails: `new Byte[messagesize]` throws for a
      negative size (an `OverflowException`). */
  datatype FrameError = NegativeLength(size: int)

  function Zeros(n: nat): (z: seq<Byte>)
    ensures |z| == n && forall i :: 0 <= i < n ==> z[i] == 0
  {
    seq(n, _ => 0)
  }

  function Min(a: int, b: int): int { if a < b then a else b }

  /** What static `ReadMessage(Socket)` returns for the stream `s`, and what of
      the stream is left. The header is whatever of the first 4 bytes arrived
      (a short stream leaves the rest of `sizeinfo` zero); the body is at most
      `messagesize` bytes, fewer if the peer closed first. */
  function ReadSpec(s: seq<Byte>): (r: (Result<string, FrameError>, seq<Byte>))
    ensures r.0.Failure? <==> |s| >= 4 && s[3] >= 0x80
    ensures r.0.Success? ==> |s| == Min(4, |s|) + |r.0.value| + |r.1|
    ensures r.0.Success? ==> IsAscii(r.0.value)
    ensures |r.1| <= |s| && r.1 == s[|s| - |r.1|..]
  {
    var h := Min(4, |s|);
    var size := DecodeLength(s[..h] + Zeros(4 - h));
    if size < 0 then
      (Failure(NegativeLength(size)), s[h..])
    else
      var (msg, rest) := BodySpec(s[h..], size);
      assert rest == s[|s| - |rest|..];
      (Success(msg), rest)
  }

  /** The body read: at most `size` bytes of `s`, as text, and what is left. */
  function BodySpec(s: seq<Byte>, size: nat): (r: (string, seq<Byte>))
    ensures |r.0| == Min(size, |s|) && r.1 == s[Min(size, |s|)..]
  {
    var n := Min(size, |s|);
    (GetString(s[..n]), s[n..])
  }

  /** A frame followed by anything reads back as its message, and leaves the
      rest of the stream untouched. */
  lemma FrameRoundTrip(msg: string, rest: seq<Byte>)
    requires IsAscii(msg) && |msg| <= Int32Max
    ensures ReadSpec(EncodeFrame(msg) + rest) == (Success(msg), rest)
  {
    var s := EncodeFrame(msg) + rest;
    assert s[..4] == LengthHeader(|msg|);
    assert s[..4] + Zeros(0) == s[..4];
    LengthRoundTrip(|msg|);
    assert s[4..][..|msg|] == GetBytes(msg);
    AsciiRoundTrip(msg);
    assert s[4..][|msg|..] == rest;
  }

  /** The loop both reads share: `currentread = totalread = Receive(buffer, 0,
      buffer.Length)`, then receive into the rest while `totalread < size`
      and the last Receive returned something. */
  method ReceiveAll(socket: Socket, buffer: array<Byte>) returns (totalread: nat)
    requires socket.Valid()
    modifies socket, buffer
    ensures socket.Valid() && socket.outgoing == old(socket.outgoing)
    ensures totalread == Min(buffer.Length, |old(socket.Available())|)
    ensures buffer[..totalread] == old(socket.Available())[..totalread]
    ensures buffer[totalread..] == old(buffer[totalread..])
    ensures socket.Available() == old(socket.Available())[totalread..]
  {
    ghost var s := socket.Available();
    totalread := socket.Receive(buffer, 0, buffer.Length);
    var currentread := totalread;
    while totalread < buffer.Length && currentread > 0
      invariant socket.Valid() && socket.outgoing == old(socket.outgoing)
      invariant totalread <= buffer.Length && totalread <= |s|
      invariant buffer[..totalread] == s[..totalread]
      invariant buffer[totalread..] == old(buffer[totalread..])
      invariant socket.Available() == s[totalread..]
      invariant currentread == 0 ==> totalread == |s| || buffer.Length == 0
    {
      currentread := socket.Receive(buffer, totalread, buffer.Length - totalread);
      totalread := totalread + currentread;
    }
  }

  /** Static `ReadMessage(Socket)`: fill the 4-byte header, decode the size,
      allocate the body and fill it. */
  method ReadFrame(socket: Socket) returns (r: Result<string, FrameError>)
    requires socket.Valid()
    modifies socket
    ensures socket.Valid() && socket.outgoing == old(socket.outgoing)
    ensures (r, socket.Available()) == ReadSpec(old(socket.Available()))
  {
    ghost var s := socket.Available();
    var messagesize := ReadHeader(socket);
    if messagesize < 0 {
      return Failure(NegativeLength(messagesize));
    }
    var body := ReadBody(socket, messagesize);
    r := Success(body);
  }

  /** The header half of `ReadFrame`: the bytes that arrived, zero-padded to
      four, decoded. */
  method ReadHeader(socket: Socket) returns (messagesize: int)
    requires socket.Valid()
    modifies socket
    ensures socket.Valid() && socket.outgoing == old(socket.outgoing)
    ensures var h := Min(4, |old(socket.Available())|);
      && messagesize == DecodeLength(old(socket.Available())[..h] + Zeros(4 - h))
      && socket.Available() == old(socket.Available())[h..]
  {
    ghost var s := socket.Available();
    var sizeinfo := new Byte[4](_ => 0);
    var h := ReceiveAll(socket, sizeinfo);
    assert sizeinfo[..] == s[..h] + Zeros(4 - h) by {
      assert sizeinfo[..] == sizeinfo[..h] + sizeinfo[h..];
    }
    messagesize := DecodeLength(sizeinfo[..]);
  }

  /** The body half of `ReadFrame`: at most `messagesize` bytes, as text. */
  method ReadBody(socket: Socket, messagesize: nat) returns (msg: string)
    requires socket.Valid()
    modifies socket
    ensures socket.Valid() && socket.outgoing == old(socket.outgoing)
    ensures (msg, socket.Available()) == BodySpec(old(socket.Available()), messagesize)
  {
    var data := new Byte[messagesize](_ => 0);
    var totalread := ReceiveAll(socket, data);
    msg := GetString(data[..totalread]);
  }
}
