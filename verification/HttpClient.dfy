/** HTTPClient::writeToStream: a response body is copied to a stream, as it is or out of its
    chunks (HTTPClient.cpp:855-923, 1305-1407). */
module HttpClient {
  import opened ArduinoString

  const ERROR_NOT_CONNECTED := -4
  const ERROR_CONNECTION_LOST := -5
  const ERROR_ENCODING := -9
  const ERROR_STREAM_WRITE := -10
  const ERROR_READ_TIMEOUT := -11

  const TCP_BUFFER_SIZE := 1460

  datatype Encoding = Identity | ChunkedEncoding | OtherEncoding

  /** What the connection will still deliver before it is closed, what the stream was given,
      and _size. */
  datatype Client = Client(input: string, output: string, size: int)

  // ---------------------------------------------------------------- one block

  /** A block of so many bytes, or everything that comes if the size is -1. */
  function DataBlock(c: Client, size: int): (r: (Client, int))
    ensures |r.0.input| <= |c.input|
  {
    if size > 0 then
      if size <= |c.input| then (c.(input := c.input[size..], output := c.output + c.input[..size]), size)
      else (c.(input := [], output := c.output + c.input), ERROR_STREAM_WRITE)
    else if size == -1 then (c.(input := [], output := c.output + c.input), |c.input|)
    else (c, 0)
  }

  /** The first n bytes went from the connection to the stream. */
  ghost predicate Copied(before: Client, after: Client, n: nat) {
    && n <= |before.input| && after.input == before.input[n..]
    && after.output == before.output + before.input[..n] && after.size == before.size
  }

  lemma NoneCopied(c: Client)
    ensures Copied(c, c, 0)
  {
  }

  lemma CopiedMore(before: Client, c: Client, written: nat, n: nat)
    requires Copied(before, c, written) && n <= |c.input|
    ensures Copied(before, Client(c.input[n..], c.output + c.input[..n], c.size), written + n)
  {
    OneAfterTheOther(before.output, before.input, written, n);
  }

  /** The stream has a beginning of what the block would have brought it. */
  ghost predicate Began(before: Client, output: string, size: int) {
    before.output <= output <= DataBlock(before, size).0.output
  }

  lemma PartWritten(before: Client, c: Client, written: nat, n: nat, size: int)
    requires Copied(before, c, written) && n <= |c.input| && (size > 0 ==> written + n <= size)
    requires size > 0 || size == -1
    ensures forall output :: c.output <= output <= c.output + c.input[..n] ==> Began(before, output, size)
  {
    CopiedMore(before, c, written, n);
    assert before.input[..written + n] <= before.input[..|DataBlock(before, size).0.output| - |before.output|];
    forall output | c.output <= output <= c.output + c.input[..n] ensures Began(before, output, size) {
      PrefixOf(before.output, before.input[..written], output);
    }
  }

  lemma PrefixOf(a: string, b: string, c: string)
    requires a + b <= c
    ensures a <= c
  {
    assert a == (a + b)[..|a|] == c[..|a|];
  }

  lemma OneAfterTheOther(output: string, input: string, written: nat, n: nat)
    requires written + n <= |input|
    ensures output + input[..written] + input[written..][..n] == output + input[..written + n]
    ensures input[written..][n..] == input[written + n..]
  {
    assert input[..written] + input[written..][..n] == input[..written + n];
  }

  /** All that was asked for, or all there was. */
  lemma CopiedBlock(before: Client, after: Client, n: nat, size: int)
    requires Copied(before, after, n)
    requires if size > 0 then n == size || (n < size && after.input == [])
             else if size == -1 then after.input == [] else n == 0
    ensures (after, if size > 0 && size != n then ERROR_STREAM_WRITE else n) == DataBlock(before, size)
  {
    assert |after.input| == |before.input| - n;
    assert before.input[..|before.input|] == before.input;
    if n == 0 {
      assert before.input[0..] == before.input && before.output + before.input[..0] == before.output;
    }
  }

  // ---------------------------------------------------------------- chunks

  function Line(input: string): string {
    var end := IndexOf(input, '\n');
    if end < 0 then input else input[..end]
  }

  function BehindLine(input: string): (rest: string)
    ensures input != [] ==> |rest| < |input|
  {
    var end := IndexOf(input, '\n');
    if end < 0 then [] else input[end + 1..]
  }

  function ChunkSize(line: string): int {
    StrtolHex(CString(Trim(line)))
  }

  /** The loop over the chunks; total adds up the sizes, and ret what was written. */
  function Chunks(c: Client, total: int, ret: int): (Client, int)
    decreases |c.input|
  {
    if c.input == [] then (c, ERROR_CONNECTION_LOST)
    else if Line(c.input) == [] then (c.(input := BehindLine(c.input)), ERROR_READ_TIMEOUT)
    else
      var len := ChunkSize(Line(c.input));
      var c := c.(input := BehindLine(c.input));
      if len > 0 then ChunkBody(c, len, total, ret) else LastChunk(c, total + len, ret)
  }

  /** A chunk of some bytes, and the chunks behind it. */
  function ChunkBody(c: Client, len: int, total: int, ret: int): (Client, int)
    requires len > 0
    decreases |c.input|
  {
    var (read, r) := DataBlock(c, len);
    if r < 0 then (read, r)
    else if !("\r\n" <= read.input) then (read.(input := Behind(read.input, 2)), ERROR_READ_TIMEOUT)
    else Chunks(read.(input := read.input[2..]), total + len, ret + r)
  }

  lemma {:induction false} ChunksGrow(c: Client, total: int, ret: int)
    ensures c.output <= Chunks(c, total, ret).0.output
    decreases |c.input|
  {
    hide ChunkBody, ChunkSize;
    if c.input != [] && Line(c.input) != [] {
      var len, behind := ChunkSize(Line(c.input)), c.(input := BehindLine(c.input));
      if len > 0 {
        BlockInChunks(behind, len, total, ret);
      }
    }
  }

  /** What a chunk brings to the stream stays there. */
  lemma {:induction false} BlockInChunks(c: Client, len: int, total: int, ret: int)
    requires len > 0
    ensures c.output <= DataBlock(c, len).0.output <= ChunkBody(c, len, total, ret).0.output
    ensures forall output :: Began(c, output, len) ==>
      c.output <= output <= ChunkBody(c, len, total, ret).0.output
    decreases |c.input|
  {
    hide Chunks;
    var (read, r) := DataBlock(c, len);
    if r >= 0 && "\r\n" <= read.input {
      ChunksGrow(read.(input := read.input[2..]), total + len, ret + r);
    }
  }

  function LastChunk(c: Client, total: int, ret: int): (Client, int) {
    var c := if c.size <= 0 then c.(size := total) else c;
    (c, if ret != c.size then ERROR_STREAM_WRITE else ret)
  }

  function Behind(s: string, n: nat): (rest: string)
    ensures |rest| <= |s|
  {
    if n <= |s| then s[n..] else []
  }

  function WriteToStream(c: Client, encoding: Encoding): (Client, int) {
    if c.input == [] then (c, ERROR_NOT_CONNECTED)
    else
    match encoding
    case Identity => DataBlock(c, c.size)
    case ChunkedEncoding => Chunks(c, 0, 0)
    case OtherEncoding => (c, ERROR_ENCODING)
  }

  /** A body that is not chunked: so many bytes as were announced and no more, or what there is
      and an error if they are fewer; everything if nothing was announced. */
  lemma PlainBody(c: Client)
    requires c.input != []
    ensures var (end, ret) := WriteToStream(c, Identity);
      && end.size == c.size
      && (if c.size == -1 then end.output == c.output + c.input && end.input == [] && ret == |c.input|
          else if c.size > |c.input| then end.output == c.output + c.input && ret == ERROR_STREAM_WRITE
          else if c.size > 0 then end.output == c.output + c.input[..c.size] && end.input == c.input[c.size..]
                                  && ret == c.size
          else end == c && ret == 0)
  {
  }

  /** A body of another encoding is refused, and so is one without a connection. */
  lemma RefusedBody(c: Client, encoding: Encoding)
    requires c.input == [] || encoding.OtherEncoding?
    ensures WriteToStream(c, encoding) == (c, if c.input == [] then -4 else -9)
  {
  }

  class HTTPClient {
    const transferEncoding: Encoding
    var input: string
    var output: string
    var size: int
    /** A write to the stream was short twice, or the stream reported an error. */
    var streamFailed: bool

    function Current(): Client
      reads this
    {
      Client(input, output, size)
    }

    constructor (transferEncoding: Encoding, input: string, size: int)
      ensures this.transferEncoding == transferEncoding && Current() == Client(input, [], size) && !streamFailed
    {
      this.transferEncoding, this.input, output, this.size := transferEncoding, input, [], size;
      streamFailed := false;
    }

    /** A stream may take less than it is given; the rest is offered once more. */
    method WriteBlock(block: string) returns (ok: bool)
      requires !streamFailed
      modifies this`output, this`streamFailed
      ensures ok == !streamFailed
      ensures old(output) <= output <= old(output) + block && (ok ==> output == old(output) + block)
    {
      var first :| 0 <= first <= |block|;
      output := output + block[..first];
      if first != |block| {
        var left := block[first..];
        var second :| 0 <= second <= |left|;
        output := output + left[..second];
        assert block[..first] + left[..second] == block[..first + second];
        if second != |left| {
          streamFailed := true;
          return false;
        }
      }
      var writeError: bool := *;
      streamFailed := writeError;
      return !writeError;
    }

    /** At any time some of the bytes that the connection will deliver are there.  If the
        stream fails, it has a beginning of the block. */
    method CopyDataBlock(size: int) returns (ret: int)
      requires !streamFailed
      modifies this`input, this`output, this`streamFailed
      ensures !streamFailed ==> (Current(), ret) == DataBlock(old(Current()), size)
      ensures streamFailed ==> ret == ERROR_STREAM_WRITE && Began(old(Current()), output, size)
    {
      hide Copied, DataBlock, Began;
      ghost var before := Current();
      var bufferSize := TCP_BUFFER_SIZE;
      var len := size;
      var written := 0;
      if 0 < len < TCP_BUFFER_SIZE {
        bufferSize := len;
      }
      NoneCopied(Current());
      while input != [] && (len > 0 || len == -1)
        invariant written >= 0 && !streamFailed && Copied(before, Current(), written)
        invariant size > 0 ==> 0 <= len == size - written && 0 < bufferSize
        invariant size <= 0 ==> len == size && (len == -1 || written == 0)
        decreases |input|
      {
        var available :| 0 < available <= |input|;
        var n := available;
        if len > 0 && n > len {
          n := len;
        }
        if n > bufferSize {
          n := bufferSize;
        }
        CopiedMore(before, Current(), written, n);
        PartWritten(before, Current(), written, n, size);
        var block := input[..n];
        input := input[n..];
        var ok := WriteBlock(block);
        if !ok {
          return ERROR_STREAM_WRITE;
        }
        written := written + n;
        if len > 0 {
          len := len - n;
        }
      }
      CopiedBlock(before, Current(), written, size);
      ret := if size > 0 && size != written then ERROR_STREAM_WRITE else written;
    }

    method ReadLine() returns (line: string)
      modifies this`input
      ensures line == Line(old(input)) && input == BehindLine(old(input))
    {
      var end := IndexOf(input, '\n');
      if end < 0 {
        line, input := input, [];
      } else {
        line, input := input[..end], input[end + 1..];
      }
    }

    method CopyChunks() returns (ret: int)
      requires !streamFailed
      modifies this
      ensures !streamFailed ==> (Current(), ret) == Chunks(old(Current()), 0, 0)
      ensures streamFailed ==>
        ret == ERROR_STREAM_WRITE && old(output) <= output <= Chunks(old(Current()), 0, 0).0.output
    {
      hide ChunkSize, Line, DataBlock, Began;
      ret := 0;
      var total := 0;
      while true
        invariant Chunks(Current(), total, ret) == Chunks(old(Current()), 0, 0)
        invariant !streamFailed && old(output) <= output
        decreases |input|
      {
        if input == [] {
          return ERROR_CONNECTION_LOST;
        }
        var line := ReadLine();
        if line == [] {
          return ERROR_READ_TIMEOUT;
        }
        var len := ChunkSize(line);
        total := total + len;
        if len > 0 {
          ghost var behind := Current();
          BlockInChunks(behind, len, total - len, ret);
          var r := CopyDataBlock(len);
          if r < 0 {
            return r;
          }
          ret := ret + r;
        } else {
          if size <= 0 {
            size := total;
          }
          if ret != size {
            return ERROR_STREAM_WRITE;
          }
          return;
        }
        var trailing := if "\r\n" <= input then 2 else 0;
        input := Behind(input, 2);
        if trailing != 2 {
          return ERROR_READ_TIMEOUT;
        }
      }
    }

    method CopyToStream() returns (ret: int)
      requires !streamFailed
      modifies this
      ensures !streamFailed ==> (Current(), ret) == WriteToStream(old(Current()), transferEncoding)
      ensures streamFailed ==>
        ret == ERROR_STREAM_WRITE && old(output) <= output <= WriteToStream(old(Current()), transferEncoding).0.output
      ensures !streamFailed && transferEncoding.Identity? && 0 < old(size) <= |old(input)| ==>
        output == old(output) + old(input)[..old(size)] && ret == old(size)
      ensures !streamFailed && transferEncoding.Identity? && 0 < |old(input)| < old(size) ==>
        output == old(output) + old(input) && ret == ERROR_STREAM_WRITE
      ensures !streamFailed && transferEncoding.Identity? && old(size) == -1 && 0 < |old(input)| ==>
        output == old(output) + old(input) && ret == |old(input)|
    {
      if input == [] {
        ret := ERROR_NOT_CONNECTED;
      } else if transferEncoding.Identity? {
        ret := CopyDataBlock(size);
      } else if transferEncoding.ChunkedEncoding? {
        ret := CopyChunks();
      } else {
        ret := ERROR_ENCODING;
      }
    }
  }
}
