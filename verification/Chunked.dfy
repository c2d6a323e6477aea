// The chunked transfer coding of section 4.1 of RFC 7230, and that the reader decodes it.
module Chunked {
  import opened Text
  import opened Numbers
  import opened Reader

  // One chunk. The size may be written with leading zeros and letters of either case; the
  // extension, when there is one, starts with a semicolon. The last chunk is the empty one.
  datatype Chunk = Chunk(size: string, extension: string, data: string)

  ghost predicate GoodChunk(c: Chunk) {
    && Writes(c.size, |c.data|, 16) && |c.data| <= 0xFFFF_FFFF_FFFF_FFFF
    && '\r' !in c.extension && '\n' !in c.extension
    && (c.extension != "" ==> c.extension[0] == ';')
  }

  ghost predicate GoodChunks(chunks: seq<Chunk>, last: Chunk) {
    && (forall i :: 0 <= i < |chunks| ==> GoodChunk(chunks[i]) && chunks[i].data != "")
    && GoodChunk(last) && last.data == ""
  }

  function ChunkText(c: Chunk): string {
    c.size + c.extension + CRLF + c.data + CRLF
  }

  /** A chunked body without trailers. */
  function Encoded(chunks: seq<Chunk>, last: Chunk): string {
    if chunks == [] then ChunkText(last) else ChunkText(chunks[0]) + Encoded(chunks[1..], last)
  }

  function Content(chunks: seq<Chunk>): string {
    if chunks == [] then "" else chunks[0].data + Content(chunks[1..])
  }

  lemma LineBreakIs(line: string, more: string)
    requires '\r' !in line && '\n' !in line
    ensures var bytes := line + CRLF + more;
            FindText(bytes, CRLF, 0) == Some(|line|) && Find(bytes, '\n', 0) == |line| + 1 && bytes[..|line|] == line
  {
    var bytes := line + CRLF + more;
    assert forall k :: 0 <= k < |line| ==> bytes[k] == line[k];
    assert bytes[|line|] == '\r' && bytes[|line| + 1] == '\n';
    forall k | 0 <= k < |line|
      ensures !OccursAt(bytes, CRLF, k)
    {
      assert bytes[k..k + 2][0] == line[k];
    }
    assert bytes[|line|..|line| + 2] == CRLF;
    FindTextIs(bytes, CRLF, 0, |line|);
    FindIs(bytes, '\n', 0, |line| + 1);
  }

  lemma SizeRead(c: Chunk)
    requires GoodChunk(c)
    ensures Stoul(c.size + c.extension, 16) == Some(|c.data|)
    ensures '\r' !in c.size + c.extension && '\n' !in c.size + c.extension
  {
    WrittenValue(c.size, |c.data|, 16);
    assert forall k :: 0 <= k < |c.size| ==> DigitValue(c.size[k]) < 16;
    SemicolonEnds(c.extension);
    StoulReadsPlain(c.size, |c.data|, c.extension, 16);
  }

  lemma SemicolonEnds(extension: string)
    requires extension != "" ==> extension[0] == ';'
    ensures EndsDigits(extension, 16)
  {
    assert LOWER_DIGITS[..16] == LOWER_DIGITS && UPPER_DIGITS[..16] == UPPER_DIGITS;
  }

  lemma SizeLine(c: Chunk, more: string)
    requires GoodChunk(c)
    ensures StartOfChunk(c.size + c.extension + CRLF + more)
            == ChunkStart(|c.data|, |c.size| + |c.extension| + 2, 0)
  {
    SizeRead(c);
    LineBreakIs(c.size + c.extension, more);
  }

  lemma BehindLine(line: string, data: string, two: string, rest: string)
    requires |two| == 2
    ensures var bytes := line + (data + two + rest);
            && |bytes| == |line| + |data| + 2 + |rest|
            && bytes[|line|..|line| + |data|] == data && bytes[|line| + |data| + 2..] == rest
  {
  }

  lemma FirstChunkIs(bytes: string, lineEnd: nat, data: string, rest: string)
    requires StartOfChunk(bytes) == ChunkStart(|data|, lineEnd, 0) && |bytes| == lineEnd + |data| + 2 + |rest|
    requires bytes[lineEnd..lineEnd + |data|] == data && bytes[lineEnd + |data| + 2..] == rest
    ensures FirstChunk(bytes) == OneChunk(data, rest)
  {
  }

  lemma ChunkTaken(c: Chunk, two: string, rest: string)
    requires GoodChunk(c) && |two| == 2
    ensures FirstChunk(c.size + c.extension + CRLF + (c.data + two + rest)) == OneChunk(c.data, rest)
  {
    var line := c.size + c.extension + CRLF;
    SizeLine(c, c.data + two + rest);
    BehindLine(line, c.data, two, rest);
    FirstChunkIs(line + (c.data + two + rest), |line|, c.data, rest);
  }

  lemma ChunkRead(c: Chunk, rest: string)
    requires GoodChunk(c)
    ensures FirstChunk(ChunkText(c) + rest) == OneChunk(c.data, rest)
  {
    ChunkTaken(c, CRLF, rest);
    ChunkThen(c, rest);
  }

  lemma ChunkThen(c: Chunk, rest: string)
    ensures ChunkText(c) + rest == c.size + c.extension + CRLF + (c.data + CRLF + rest)
  {
  }

  /** The reader undoes the coding, and leaves alone whatever follows the body. */
  lemma {:induction false} ChunksRoundTrip(chunks: seq<Chunk>, last: Chunk, rest: string)
    requires GoodChunks(chunks, last)
    ensures DecodeChunks(Encoded(chunks, last) + rest) == Complete(Content(chunks), rest)
  {
    if chunks == [] {
      ChunkRead(last, rest);
    } else {
      var more := Encoded(chunks[1..], last);
      Assoc(ChunkText(chunks[0]), more, rest);
      ChunkRead(chunks[0], more + rest);
      ChunksRoundTrip(chunks[1..], last, rest);
    }
  }

  /** What follows the last of some chunks is decoded behind them. */
  lemma {:induction false} BehindChunks(chunks: seq<Chunk>, bytes: string)
    requires forall i :: 0 <= i < |chunks| ==> GoodChunk(chunks[i]) && chunks[i].data != ""
    ensures DecodeChunks(ChunksText(chunks) + bytes) == WithChunk(Content(chunks), DecodeChunks(bytes))
  {
    if chunks == [] {
      assert ChunksText(chunks) + bytes == bytes;
      if DecodeChunks(bytes).Complete? {
        assert "" + DecodeChunks(bytes).content == DecodeChunks(bytes).content;
      }
    } else {
      Assoc(ChunkText(chunks[0]), ChunksText(chunks[1..]), bytes);
      ChunkRead(chunks[0], ChunksText(chunks[1..]) + bytes);
      BehindChunks(chunks[1..], bytes);
      ChunkAssoc(chunks[0].data, Content(chunks[1..]), DecodeChunks(bytes));
    }
  }

  function ChunksText(chunks: seq<Chunk>): string {
    if chunks == [] then "" else ChunkText(chunks[0]) + ChunksText(chunks[1..])
  }

  /** The two bytes behind a chunk's data are dropped, whatever they are. */
  lemma AnyTwoBehind(c: Chunk, two: string, rest: string)
    requires GoodChunk(c) && |two| == 2
    ensures DecodeChunks(c.size + c.extension + CRLF + (c.data + two + rest))
            == if c.data == "" then Complete("", rest) else WithChunk(c.data, DecodeChunks(rest))
  {
    ChunkTaken(c, two, rest);
  }

  /** A body that breaks off is reported as such: without a line break, or with fewer bytes behind
      the size line than it and a line break take. */
  lemma BreaksOff(c: Chunk, part: string, line: string)
    requires GoodChunk(c) && |part| < |c.data| + 2
    requires FindText(line, CRLF, 0) == None
    ensures DecodeChunks(line) == Broken(EndOfStream)
    ensures DecodeChunks(c.size + c.extension + CRLF + part) == Broken(EndOfStream)
  {
    SizeLine(c, part);
  }

  /** A size line that does not start with a number, or with one that is too large, is a protocol
      error; one without any character is undefined behaviour. */
  lemma BadSizeLine(line: string, more: string)
    requires '\r' !in line && '\n' !in line && Stoul(line, 16) == None
    ensures DecodeChunks(line + CRLF + more) == Broken(ProtocolError)
    ensures DecodeChunks("\n" + (line + CRLF + more)) == Broken(UndefinedBehaviour)
  {
    LineBreakIs(line, more);
    var bytes := "\n" + (line + CRLF + more);
    LineBreakAfter(line, more);
    assert bytes[0] == '\n';
  }

  // A line feed of its own, and no line break before it.
  lemma NoneBeforeFeed(line: string, more: string, bytes: string, i: nat)
    requires '\n' !in line && line != "" && line[|line| - 1] != '\r' && bytes == line + "\n" + more && i <= |line|
    ensures !OccursAt(bytes, CRLF, i)
  {
    assert bytes[i] == if i < |line| then line[i] else '\n';
    if i + 2 <= |bytes| {
      var two := bytes[i..i + 2];
      assert two[0] == bytes[i] && two[1] == bytes[i + 1];
      assert i + 1 < |line| ==> bytes[i + 1] == line[i + 1];
    }
  }

  lemma SameBehindFeed(head: string, more: string, bytes: string, i: nat)
    requires bytes == head + more
    ensures OccursAt(bytes, CRLF, |head| + i) <==> OccursAt(more, CRLF, i)
  {
    assert i + 2 <= |more| ==> bytes[|head| + i..|head| + i + 2] == more[i..i + 2];
  }

  lemma BreakBehindFeed(line: string, more: string, bytes: string, k: nat)
    requires '\n' !in line && line != "" && line[|line| - 1] != '\r' && bytes == line + "\n" + more
    requires FindText(more, CRLF, 0) == Some(k)
    ensures FindText(bytes, CRLF, 0) == Some(|line| + 1 + k) && Find(bytes, '\n', 0) == |line|
  {
    var n := |line| + 1;
    forall i | 0 <= i < n + k
      ensures !OccursAt(bytes, CRLF, i)
    {
      if i < n {
        NoneBeforeFeed(line, more, bytes, i);
      } else {
        SameBehindFeed(line + "\n", more, bytes, i - n);
      }
    }
    SameBehindFeed(line + "\n", more, bytes, k);
    FindTextIs(bytes, CRLF, 0, n + k);
    FindIs(bytes, '\n', 0, |line|);
  }

  lemma FeedStart(line: string, bytes: string, end: nat, n: nat)
    requires FindText(bytes, CRLF, 0) == Some(end) && 0 < |line| == Find(bytes, '\n', 0) <= end
    requires bytes[..|line| - 1] == line[..|line| - 1] && Stoul(line[..|line| - 1], 16) == Some(n)
    ensures StartOfChunk(bytes) == ChunkStart(n, |line| + 1, end + 1 - |line|)
  {
  }

  lemma FeedChunk(head: string, more: string, bytes: string, n: nat, ahead: nat)
    requires bytes == head + more && StartOfChunk(bytes) == ChunkStart(n, |head|, ahead)
    ensures FirstChunk(bytes) == if ahead + n + 2 > |more| then BadChunk(EndOfStream) else OneChunk(more[..n], more[n + 2..])
  {
    assert n + 2 <= |more| ==> bytes[|head|..|head| + n] == more[..n] && bytes[|head| + n + 2..] == more[n + 2..];
  }

  /** A line feed of its own ends the size line too, and its last character is cut off. The bytes up
      to the next line break then count as read, and are the start of the data all the same. */
  lemma BareFeed(line: string, more: string, k: nat, n: nat)
    requires '\n' !in line && line != "" && line[|line| - 1] != '\r' && FindText(more, CRLF, 0) == Some(k)
    requires Stoul(line[..|line| - 1], 16) == Some(n)
    ensures DecodeChunks(line + "\n" + more)
            == if k + 2 + n + 2 > |more| then Broken(EndOfStream)
               else if n == 0 then Complete("", more[2..])
               else WithChunk(more[..n], DecodeChunks(more[n + 2..]))
  {
    var bytes := line + "\n" + more;
    BreakBehindFeed(line, more, bytes, k);
    assert bytes[..|line| - 1] == line[..|line| - 1];
    FeedStart(line, bytes, |line| + 1 + k, n);
    FeedChunk(line + "\n", more, bytes, n, k + 2);
  }

  lemma LineBreakAfter(line: string, more: string)
    ensures FindText("\n" + (line + CRLF + more), CRLF, 0).Some?
  {
    var bytes, i := "\n" + (line + CRLF + more), |line| + 1;
    assert bytes[i..i + 2] == CRLF;
    assert OccursAt(bytes, CRLF, i);
  }

  /** Whatever the slices in which the network delivers a chunked body, what the reader leaves
      in the buffer is the chunks' data. */
  method ReadBody(slices: seq<string>, ghost chunks: seq<Chunk>, ghost last: Chunk) returns (content: string)
    requires GoodChunks(chunks, last) && Concat(slices) == Encoded(chunks, last)
    ensures content == Content(chunks)
  {
    ChunksRoundTrip(chunks, last, "");
    assert Encoded(chunks, last) + "" == Encoded(chunks, last);
    var connection := new Connection(slices);
    assert connection.Bytes() == Concat(slices);
    var error := connection.ReadChunked();
    content := connection.buffer;
  }

  lemma BehindThenContent(buffer: string, rest: string, content: string, net: seq<string>)
    requires net == [] && |content| <= |buffer|
    requires var k := |buffer| - |content|; buffer[k..] == content && buffer[..k] + Concat(net) == rest
    ensures buffer == rest + content
  {
    var k := |buffer| - |content|;
    assert buffer[..k] + "" == buffer[..k];
    assert buffer == buffer[..k] + buffer[k..];
  }

  /** Bytes that arrive together with the body end up in front of the content. */
  method ReadPipelined(bytes: string, ghost chunks: seq<Chunk>, ghost last: Chunk, ghost rest: string)
    returns (content: string)
    requires GoodChunks(chunks, last) && bytes == Encoded(chunks, last) + rest
    ensures content == rest + Content(chunks)
  {
    ChunksRoundTrip(chunks, last, rest);
    var connection := new Connection([]);
    connection.buffer := bytes;
    assert connection.Bytes() == bytes;
    var error := connection.ReadChunked();
    content := connection.buffer;
    BehindThenContent(content, rest, Content(chunks), connection.net);
  }

  lemma {:induction false} EncodedTidy(chunks: seq<Chunk>, last: Chunk, rest: string)
    requires GoodChunks(chunks, last)
    ensures Tidy(Encoded(chunks, last) + rest)
  {
    var c := if chunks == [] then last else chunks[0];
    var behind := if chunks == [] then rest else Encoded(chunks[1..], last) + rest;
    Assoc(ChunkText(c), if chunks == [] then "" else Encoded(chunks[1..], last), rest);
    assert Encoded(chunks, last) + rest == ChunkText(c) + behind;
    ChunkRead(c, behind);
    ChunkStarts(c, behind);
    if chunks != [] {
      EncodedTidy(chunks[1..], last, rest);
    }
  }

  lemma ChunkStarts(c: Chunk, behind: string)
    requires GoodChunk(c)
    ensures StartOfChunk(ChunkText(c) + behind) == ChunkStart(|c.data|, |c.size| + |c.extension| + 2, 0)
  {
    SizeLine(c, c.data + CRLF + behind);
    ChunkThen(c, behind);
  }

  /** Byte by byte nothing that follows the body gets into the content. */
  method ReadBytewise(slices: seq<string>, ghost chunks: seq<Chunk>, ghost last: Chunk, ghost rest: string)
    returns (content: string)
    requires GoodChunks(chunks, last) && Concat(slices) == Encoded(chunks, last) + rest && Bytewise(slices)
    ensures content == Content(chunks)
  {
    ChunksRoundTrip(chunks, last, rest);
    EncodedTidy(chunks, last, rest);
    var connection := new Connection(slices);
    assert connection.Bytes() == Concat(slices);
    var error := connection.ReadChunked();
    content := connection.buffer;
  }

  /** The content read does not depend on the slicing exactly when nothing follows the body. */
  method ReadBothWays(bytes: string, slices: seq<string>, ghost chunks: seq<Chunk>, ghost last: Chunk, ghost rest: string)
    returns (same: bool)
    requires GoodChunks(chunks, last) && bytes == Encoded(chunks, last) + rest
    requires Concat(slices) == bytes && Bytewise(slices)
    ensures same <==> rest == ""
  {
    var whole := ReadPipelined(bytes, chunks, last, rest);
    var bytewise := ReadBytewise(slices, chunks, last, rest);
    same := whole == bytewise;
    assert |whole| == |rest| + |bytewise|;
    assert rest == "" ==> rest + Content(chunks) == Content(chunks);
  }
}
