// Buffered reading from a network that delivers the bytes in slices of any size
// (async_read_until, transfer_exactly and the chunked reader of
// lib/simple-web-server/server_http.hpp and client_http.hpp).
module Reader {
  import opened Text
  import opened Numbers

  // ---------- searching for a delimiter ----------

  predicate OccursAt(s: string, d: string, i: nat) {
    i + |d| <= |s| && s[i..i + |d|] == d
  }

  /** The first position from which d occurs in s. */
  function FindText(s: string, d: string, from: nat): (r: Option<nat>)
    ensures r.Some? ==> from <= r.value && OccursAt(s, d, r.value)
                        && forall k :: from <= k < r.value ==> !OccursAt(s, d, k)
    ensures r == None ==> forall k :: from <= k ==> !OccursAt(s, d, k)
    decreases |s| - from
  {
    if from + |d| > |s| then None
    else if s[from..from + |d|] == d then Some(from)
    else FindText(s, d, from + 1)
  }

  lemma FindTextIs(s: string, d: string, from: nat, r: nat)
    requires from <= r && OccursAt(s, d, r) && forall k :: from <= k < r ==> !OccursAt(s, d, k)
    ensures FindText(s, d, from) == Some(r)
  {
  }

  lemma OccursInPrefix(p: string, q: string, d: string, i: nat)
    requires i + |d| <= |p|
    ensures OccursAt(p + q, d, i) <==> OccursAt(p, d, i)
  {
    assert (p + q)[i..i + |d|] == p[i..i + |d|];
  }

  /** What has been found in the bytes at hand is found in all bytes. */
  lemma FindTextPrefix(p: string, q: string, d: string)
    requires FindText(p, d, 0).Some?
    ensures FindText(p + q, d, 0) == FindText(p, d, 0)
  {
    var r := FindText(p, d, 0).value;
    forall k | 0 <= k <= r
      ensures OccursAt(p + q, d, k) <==> OccursAt(p, d, k)
    {
      OccursInPrefix(p, q, d, k);
    }
    FindTextIs(p + q, d, 0, r);
  }

  // ---------- what has arrived when a delimiter is there ----------

  /** The buffer once a delimiter has been read for: slices are taken only while it is missing. */
  function Upto(buffer: string, net: seq<string>, d: string): string
    decreases |net|
  {
    if FindText(buffer, d, 0).Some? || net == [] then buffer else Upto(buffer + net[0], net[1..], d)
  }

  /** It is a part of all bytes that has the first delimiter in it, or all of them. */
  lemma {:induction false} UptoIsPrefix(buffer: string, net: seq<string>, d: string)
    ensures var u, all := Upto(buffer, net, d), buffer + Concat(net);
            && |buffer| <= |u| <= |all| && u == all[..|u|]
            && FindText(u, d, 0) == FindText(all, d, 0)
    decreases |net|
  {
    if FindText(buffer, d, 0).Some? {
      FindTextPrefix(buffer, Concat(net), d);
    } else if net == [] {
      assert buffer + Concat(net) == buffer;
    } else {
      Assoc(buffer, net[0], Concat(net[1..]));
      UptoIsPrefix(buffer + net[0], net[1..], d);
    }
  }

  // A network that delivers byte by byte.
  ghost predicate Bytewise(net: seq<string>) {
    forall i :: 0 <= i < |net| ==> |net[i]| == 1
  }

  lemma NothingComes(buffer: string, net: seq<string>)
    requires net == []
    ensures buffer + Concat(net) == buffer
  {
  }

  /** Byte by byte nothing arrives behind the delimiter. */
  lemma {:induction false} UptoBytewise(buffer: string, net: seq<string>, d: string)
    requires Bytewise(net) && FindText(buffer, d, 0) == None && FindText(buffer + Concat(net), d, 0).Some?
    ensures |Upto(buffer, net, d)| == FindText(buffer + Concat(net), d, 0).value + |d|
    decreases |net|
  {
    if net == [] {
      NothingComes(buffer, net);
    } else {
      var longer := buffer + net[0];
      Assoc(buffer, net[0], Concat(net[1..]));
      if FindText(longer, d, 0).Some? {
        var r := FindText(longer, d, 0).value;
        FindTextPrefix(longer, Concat(net[1..]), d);
        if r + |d| <= |buffer| {
          OccursInPrefix(buffer, net[0], d, r);
        }
      } else {
        UptoBytewise(longer, net[1..], d);
      }
    }
  }

  // ---------- chunked bodies: what the bytes mean ----------

  // UndefinedBehaviour: the source takes a character off an empty text. Uncaught: it throws.
  // Stuck: it does not return.
  datatype ReadError = EndOfStream | ProtocolError | UndefinedBehaviour | Uncaught | Stuck

  // content: the chunks' data; rest: the bytes behind the last chunk.
  datatype Body = Complete(content: string, rest: string) | Broken(error: ReadError)

  function WithChunk(chunk: string, body: Body): Body {
    match body
    case Complete(content, rest) => Complete(chunk + content, rest)
    case Broken(error) => Broken(error)
  }

  // The start of a chunk: its size, and how many bytes its line takes with the line break. The
  // size line ends at the first line feed; at least `ahead` more bytes belong to the delimiter.
  datatype ChunkStart = ChunkStart(length: nat, lineEnd: nat, ahead: nat) | BadStart(error: ReadError)

  function StartOfChunk(bytes: string): (r: ChunkStart)
    ensures r.ChunkStart? ==> 0 < r.lineEnd && r.lineEnd + r.ahead <= |bytes|
  {
    match FindText(bytes, CRLF, 0)
    case None => BadStart(EndOfStream)
    case Some(i) =>
      assert bytes[i..i + 2][1] == '\n';
      var n := Find(bytes, '\n', 0);
      if n == 0 then BadStart(UndefinedBehaviour)      // pop_back on an empty line
      else
        match Stoul(bytes[..n - 1], 16)
        case None => BadStart(ProtocolError)
        case Some(length) => ChunkStart(length, n + 1, i + 1 - n)
  }

  // One chunk, and the bytes behind the line break that follows it.
  datatype OneChunk = OneChunk(data: string, rest: string) | BadChunk(error: ReadError)

  function FirstChunk(bytes: string): (r: OneChunk)
    ensures r.OneChunk? ==> |r.rest| < |bytes|
  {
    match StartOfChunk(bytes)
    case BadStart(error) => BadChunk(error)
    case ChunkStart(length, lineEnd, ahead) =>
      if lineEnd + ahead + length + 2 > |bytes| then BadChunk(EndOfStream)
      else OneChunk(bytes[lineEnd..lineEnd + length], bytes[lineEnd + length + 2..])
  }

  function DecodeChunks(bytes: string): Body
    decreases |bytes|
  {
    match FirstChunk(bytes)
    case BadChunk(error) => Broken(error)
    case OneChunk(data, rest) =>
      if data == "" then Complete("", rest) else WithChunk(data, DecodeChunks(rest))
  }

  /** No size line has a line feed of its own before its line break. */
  ghost predicate Tidy(bytes: string)
    decreases |bytes|
  {
    FirstChunk(bytes).OneChunk? ==>
      && StartOfChunk(bytes).ahead == 0
      && (FirstChunk(bytes).data != "" ==> Tidy(FirstChunk(bytes).rest))
  }

  // ---------- the reader ----------

  /** What taking the first chunk out of the stream delivers. */
  predicate IsFirst(first: OneChunk, error: Option<ReadError>, data: string, rest: string) {
    match first
    case BadChunk(e) => error == Some(e)
    case OneChunk(d, r) => error == None && data == d && rest == r
  }

  /** How the chunks taken so far, the latest chunk and the bytes left determine the result. */
  ghost predicate Progress(all: string, chunks: string, error: Option<ReadError>, data: string, rest: string) {
    match error
    case Some(e) => DecodeChunks(all) == Broken(e)
    case None =>
      DecodeChunks(all) ==
      if data == "" then Complete(chunks, rest) else WithChunk(chunks + data, DecodeChunks(rest))
  }

  lemma FirstProgress(all: string, error: Option<ReadError>, data: string, rest: string)
    requires IsFirst(FirstChunk(all), error, data, rest)
    ensures Progress(all, "", error, data, rest)
  {
    assert "" + data == data;
  }

  lemma NextProgress(all: string, chunks: string, taken: string, before: string,
                     error: Option<ReadError>, data: string, rest: string)
    requires taken != "" && Progress(all, chunks, None, taken, before)
    requires IsFirst(FirstChunk(before), error, data, rest)
    ensures Progress(all, chunks + taken, error, data, rest)
  {
    FirstProgress(before, error, data, rest);
    if error == None {
      if data == "" {
        assert chunks + taken + "" == chunks + taken;
      } else {
        assert "" + data == data;
        ChunkAssoc(chunks + taken, data, DecodeChunks(rest));
      }
    }
  }

  lemma ChunkAssoc(a: string, b: string, body: Body)
    ensures WithChunk(a, WithChunk(b, body)) == WithChunk(a + b, body)
  {
    if body.Complete? {
      Assoc(a, b, body.content);
    }
  }

  /** Taking n characters out of the buffer takes them out of the bytes still to come. */
  lemma TakeFromBuffer(buffer: string, net: string, n: nat)
    requires n <= |buffer|
    ensures (buffer + net)[..n] == buffer[..n] && (buffer + net)[n..] == buffer[n..] + net
  {
  }

  // A connection: the bytes received and not yet consumed, and the slices in which the network
  // is going to deliver the others.
  class Connection {
    var buffer: string
    var net: seq<string>

    ghost function Bytes(): string
      reads this
    {
      buffer + Concat(net)
    }

    constructor (slices: seq<string>)
      ensures buffer == "" && net == slices
    {
      buffer, net := "", slices;
    }

    // One read: the next slice arrives.
    method ReadSome()
      requires net != []
      modifies this
      ensures buffer == old(buffer) + old(net[0]) && net == old(net)[1..] && Bytes() == old(Bytes())
    {
      Assoc(buffer, net[0], Concat(net[1..]));
      buffer, net := buffer + net[0], net[1..];
    }

    /** async_read_until: reads until the delimiter is in the buffer; the position behind it,
        or None at the end of the stream. */
    method ReadUntil(delimiter: string) returns (found: Option<nat>)
      modifies this
      ensures Bytes() == old(Bytes())
      ensures found == FindText(Bytes(), delimiter, 0)
      ensures found.Some? ==> found.value + |delimiter| <= |buffer|
      ensures buffer == Upto(old(buffer), old(net), delimiter)
      ensures |net| <= old(|net|) && net == old(net)[old(|net|) - |net|..]
    {
      found := FindText(buffer, delimiter, 0);
      while found == None && net != []
        invariant Bytes() == old(Bytes()) && |net| <= old(|net|) && net == old(net)[old(|net|) - |net|..]
        invariant found == FindText(buffer, delimiter, 0)
        invariant Upto(buffer, net, delimiter) == Upto(old(buffer), old(net), delimiter)
        decreases |net|
      {
        ReadSome();
        found := FindText(buffer, delimiter, 0);
      }
      if found.Some? {
        FindTextPrefix(buffer, Concat(net), delimiter);
      } else {
        assert Bytes() == buffer;
      }
    }

    /** async_read with transfer_exactly: appends exactly k bytes to the buffer, unless the
        stream ends before. */
    method ReadExactly(k: nat) returns (ok: bool)
      modifies this
      ensures Bytes() == old(Bytes())
      ensures ok <==> old(|buffer|) + k <= |Bytes()|
      ensures ok ==> |buffer| == old(|buffer|) + k
      ensures (old(net) == [] ==> net == []) && (Bytewise(old(net)) ==> Bytewise(net))
    {
      var left := k;
      while left > 0 && net != []
        invariant 0 <= left <= k && |buffer| == old(|buffer|) + k - left
        invariant Bytes() == old(Bytes()) && (old(net) == [] ==> net == []) && (Bytewise(old(net)) ==> Bytewise(net))
        decreases |net|, left
      {
        if |net[0]| <= left {
          left := left - |net[0]|;
          ReadSome();
        } else {
          var part, more := net[0][..left], net[0][left..];
          assert net[0] == part + more;
          assert Concat(net) == part + Concat([more] + net[1..]) by {
            assert ([more] + net[1..])[1..] == net[1..];
            Assoc(part, more, Concat(net[1..]));
          }
          Assoc(buffer, part, Concat([more] + net[1..]));
          buffer, net := buffer + part, [more] + net[1..];
          left := 0;
        }
      }
      assert net == [] ==> Bytes() == buffer;
      ok := left == 0;
    }

    /** read_chunked_transfer_encoded and read_chunked_transfer_encoded_chunk: on success the
        buffer holds what was received behind the last chunk, followed by the chunks' data. */
    method ReadChunked() returns (error: Option<ReadError>)
      modifies this
      ensures match DecodeChunks(old(Bytes()))
              case Broken(e) => error == Some(e)
              case Complete(content, rest) =>
                && error == None && |buffer| >= |content|
                && var behind := |buffer| - |content|;
                   && buffer[behind..] == content && buffer[..behind] + Concat(net) == rest
                   && (Tidy(old(Bytes())) && old(buffer) == "" && Bytewise(old(net)) ==> behind == 0)
      ensures old(net) == [] ==> net == []
    {
      ghost var all := Bytes();
      var chunks := "";
      var data;
      error, data := ReadChunk();
      FirstProgress(all, error, data, Bytes());
      while error == None && data != ""
        invariant old(net) == [] ==> net == []
        invariant error == None && Tidy(old(Bytes())) && old(buffer) == "" && Bytewise(old(net)) ==>
          buffer == "" && Bytewise(net) && (data != "" ==> Tidy(Bytes()))
        invariant Progress(all, chunks, error, data, Bytes())
        decreases error == None, |Bytes()|
      {
        ghost var before, earlier, taken := Bytes(), chunks, data;
        chunks := chunks + data;
        error, data := ReadChunk();
        NextProgress(all, earlier, taken, before, error, data, Bytes());
      }
      if error == None {
        ghost var rest := Bytes();
        ghost var behind := |buffer|;
        buffer := buffer + chunks;
        assert buffer[behind..] == chunks && buffer[..behind] + Concat(net) == rest;
      }
    }

    /** One chunk, taken out of the buffer with the line break behind it. */
    method ReadChunk() returns (error: Option<ReadError>, data: string)
      modifies this
      ensures IsFirst(FirstChunk(old(Bytes())), error, data, Bytes())
      ensures old(net) == [] ==> net == []
      ensures error == None && StartOfChunk(old(Bytes())).ahead == 0 && old(buffer) == "" && Bytewise(old(net))
              ==> buffer == "" && Bytewise(net)
    {
      data := "";
      var length: nat;
      error, length := ReadChunkStart();
      if error == None {
        data := TakeChunk(length);
      }
    }

    // Takes a chunk and its line break out of the buffer.
    method TakeChunk(length: nat) returns (data: string)
      requires length + 2 <= |buffer|
      modifies this`buffer
      ensures data == old(Bytes())[..length] && Bytes() == old(Bytes())[length + 2..]
      ensures |buffer| == old(|buffer|) - (length + 2)
    {
      TakeFromBuffer(buffer, Concat(net), length);
      TakeFromBuffer(buffer, Concat(net), length + 2);
      data := buffer[..length];
      buffer := buffer[length + 2..];
    }

    /** Reads up to a line break and takes the first line out of the buffer; `ahead` bytes in
        the buffer belong to the bytes read for. None at the end of the stream. */
    method ReadSizeLine() returns (line: Option<string>, ahead: nat)
      modifies this
      ensures match FindText(old(Bytes()), CRLF, 0)
              case None => line == None
              case Some(i) =>
                var n := Find(old(Bytes()), '\n', 0);
                && n <= i + 1 < |old(Bytes())| && line == Some(old(Bytes())[..n]) && Bytes() == old(Bytes())[n + 1..]
                && ahead == i + 1 - n <= |buffer|
                && (old(buffer) == "" && Bytewise(old(net)) ==> |buffer| == ahead && Bytewise(net))
      ensures old(net) == [] ==> net == []
    {
      ahead := 0;
      var found := ReadUntil(CRLF);
      if found == None {
        return None, 0;
      }
      if old(buffer) == "" && Bytewise(old(net)) {
        UptoBytewise("", old(net), CRLF);
      }
      ghost var bytes := Bytes();
      assert bytes[found.value..found.value + 2][1] == '\n';
      var text := GetLine();
      line, ahead := Some(text), found.value + 2 - (|text| + 1);
    }

    /** Reads a chunk's size line and then the whole chunk into the buffer. */
    method ReadChunkStart() returns (error: Option<ReadError>, length: nat)
      modifies this
      ensures match StartOfChunk(old(Bytes()))
              case BadStart(e) => error == Some(e)
              case ChunkStart(n, lineEnd, ahead) =>
                if lineEnd + ahead + n + 2 > |old(Bytes())| then error == Some(EndOfStream)
                else
                  && error == None && length == n && Bytes() == old(Bytes())[lineEnd..] && |buffer| >= length + 2
                  && (old(buffer) == "" && Bytewise(old(net)) ==> Bytewise(net) && |buffer| == length + 2 + ahead)
      ensures old(net) == [] ==> net == []
    {
      var ahead;
      error, length, ahead := ReadSize();
      if error == None {
        var ok := ReadData(length, ahead);
        error := if ok then None else Some(EndOfStream);
      }
    }

    // Reads a chunk's size line.
    method ReadSize() returns (error: Option<ReadError>, length: nat, ahead: nat)
      modifies this
      ensures match StartOfChunk(old(Bytes()))
              case BadStart(e) => error == Some(e)
              case ChunkStart(n, lineEnd, a) =>
                && error == None && length == n && ahead == a <= |buffer| && Bytes() == old(Bytes())[lineEnd..]
                && (old(buffer) == "" && Bytewise(old(net)) ==> |buffer| == ahead && Bytewise(net))
      ensures old(net) == [] ==> net == []
    {
      length, ahead := 0, 0;
      ghost var bytes := Bytes();
      var line, more := ReadSizeLine();
      if line == None {
        return Some(EndOfStream), 0, 0;
      }
      if line.value == "" {
        return Some(UndefinedBehaviour), 0, 0;
      }
      assert line.value[..|line.value| - 1] == bytes[..|line.value| - 1];
      var size := Stoul(line.value[..|line.value| - 1], 16);
      if size == None {
        return Some(ProtocolError), 0, 0;
      }
      error, length, ahead := None, size.value, more;
    }

    // Reads a chunk and its line break into the buffer; `ahead` bytes there do not count.
    method ReadData(length: nat, ahead: nat) returns (ok: bool)
      requires ahead <= |buffer|
      modifies this
      ensures Bytes() == old(Bytes()) && (old(net) == [] ==> net == [])
      ensures ok <==> ahead + length + 2 <= |old(Bytes())|
      ensures ok ==> length + 2 <= |buffer|
      ensures ok && old(|buffer|) == ahead && Bytewise(old(net)) ==> |buffer| == length + 2 + ahead && Bytewise(net)
    {
      ok := true;
      var additional := |buffer| - ahead;
      if 2 + length > additional {
        ok := ReadExactly(2 + length - additional);
      }
    }

    /** getline, when a line feed is in the buffer. */
    method GetLine() returns (line: string)
      requires '\n' in buffer
      modifies this
      ensures |line| == Find(old(Bytes()), '\n', 0) < old(|buffer|)
      ensures line == old(Bytes())[..|line|] && Bytes() == old(Bytes())[|line| + 1..]
      ensures |buffer| == old(|buffer|) - |line| - 1 && net == old(net)
    {
      ghost var bytes := Bytes();
      var n := Find(buffer, '\n', 0);
      assert forall k :: 0 <= k < |buffer| ==> buffer[k] == bytes[k];
      FindIs(bytes, '\n', 0, n);
      TakeFromBuffer(buffer, Concat(net), n);
      TakeFromBuffer(buffer, Concat(net), n + 1);
      line := buffer[..n];
      buffer := buffer[n + 1..];
    }
  }
}
