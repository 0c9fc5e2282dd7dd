/**
 * gevent_fastcgi/base.py: the buffered reader over a socket's recv, the
 * Connection that writes and reads whole records, the FCGI_STDIN /
 * FCGI_DATA input stream, and the FCGI_STDOUT / FCGI_STDERR output
 * streams that cut what the application writes into records.
 */
module Base {
  import opened Results
  import opened Bytes
  import opened Protocol
  import Utils

  type pos = x: int | x > 0 witness 1

  // ---------------------------------------------------------------------
  // The peer

  /**
   * A connected stream socket, seen as the bytes the peer has still to
   * deliver and the bytes delivered to it so far.  A transfer moves at
   * most `chunk` bytes, so that reads and writes may come up short, as
   * on a real socket.
   */
  class Socket {
    var incoming: bytes
    var outgoing: bytes
    const chunk: pos

    constructor(incoming: bytes, chunk: pos)
      ensures this.incoming == incoming && outgoing == [] && this.chunk == chunk
    {
      this.incoming := incoming;
      this.outgoing := [];
      this.chunk := chunk;
    }

    /** recv(size): some of the pending bytes, never more than asked for, none only at end of stream. */
    method Recv(size: nat) returns (data: bytes)
      modifies this
      ensures old(incoming) == data + incoming && |data| <= size
      ensures size > 0 && old(incoming) != [] ==> data != []
      ensures outgoing == old(outgoing)
    {
      var n := if size < chunk then size else chunk;
      if |incoming| < n {
        n := |incoming|;
      }
      data := incoming[..n];
      incoming := incoming[n..];
    }

    /** send(data): how many leading bytes of `data` were delivered, at least one unless `data` is empty. */
    method Send(data: bytes) returns (n: nat)
      modifies this
      ensures n <= |data| && (data != [] ==> n > 0)
      ensures outgoing == old(outgoing) + data[..n] && incoming == old(incoming)
    {
      n := if |data| < chunk then |data| else chunk;
      outgoing := outgoing + data[..n];
    }

    /** sendall(data): the library call that sends `data` in full before it returns. */
    method SendAll(data: bytes)
      modifies this
      ensures outgoing == old(outgoing) + data && incoming == old(incoming)
    {
      outgoing := outgoing + data;
    }
  }

  // ---------------------------------------------------------------------
  // BufferedReader

  /** PartialRead(requested_size, partial_data), or the StopIteration of a reader whose generator has ended. */
  datatype ReadError = PartialRead(requestedSize: nat, partialData: bytes) | Exhausted

  /**
   * The size _reader_generator asks read() for when `blen` bytes are
   * buffered and `size` are wanted: the shortfall rounded up to a whole
   * number of buffers.
   */
  function RequestSize(size: nat, blen: nat, bufSize: pos): (r: nat)
    requires blen < size
    ensures r % bufSize == 0 && size - blen <= r < size - blen + bufSize
  {
    var x := size - blen + bufSize - 1;
    var q := x / bufSize;
    DivMod(x, bufSize);
    MultipleMod(q, bufSize);
    q * bufSize
  }

  lemma DivMod(x: nat, b: pos)
    ensures x == (x / b) * b + x % b && 0 <= x % b < b && x / b >= 0
  {
  }

  lemma MultipleMod(q: nat, b: pos)
    ensures (q * b) % b == 0
  {
    var d, m := (q * b) / b, (q * b) % b;
    DivMod(q * b, b);
    assert q * b - d * b == (q - d) * b;
    if q - d > 0 {
      MulBound(q - d, b);
    }
  }

  lemma MulBound(k: pos, b: pos)
    ensures k * b >= b
  {
  }

  /**
   * BufferedReader: the generator's `buf` is the field `buf`; `ended` is
   * set once the generator has raised, after which it cannot be resumed.
   */
  class BufferedReader {
    var buf: bytes
    var ended: bool
    const sock: Socket
    const bufferSize: pos

    constructor(sock: Socket, bufferSize: pos)
      ensures buf == [] && !ended && this.sock == sock && this.bufferSize == bufferSize
    {
      buf := [];
      ended := false;
      this.sock := sock;
      this.bufferSize := bufferSize;
    }

    /** Everything the reader can still hand out: its buffer, then what the peer has still to send. */
    ghost function Available(): bytes
      reads this, sock
    {
      buf + sock.incoming
    }

    /**
     * read_bytes(size): the next `size` bytes of the stream.  When fewer
     * remain, PartialRead carries all that remained and the generator
     * ends.  Nothing is received while the buffer holds enough.
     */
    method ReadBytes(size: nat) returns (r: Result<bytes, ReadError>)
      modifies this, sock
      ensures sock.outgoing == old(sock.outgoing)
      ensures old(ended) ==> r == Err(Exhausted) && ended && Available() == old(Available())
      ensures !old(ended) && size <= |old(Available())| ==>
                r == Ok(old(Available())[..size]) && Available() == old(Available())[size..] && !ended
      ensures !old(ended) && size > |old(Available())| ==>
                r == Err(PartialRead(size, old(Available()))) && ended && sock.incoming == []
      ensures !old(ended) && size <= |old(buf)| ==> sock.incoming == old(sock.incoming)
    {
      if ended {
        return Err(Exhausted);
      }
      ghost var avail := buf + sock.incoming;
      if |buf| >= size {
        r := Ok(buf[..size]);
        Assoc(buf[..size], buf[size..], sock.incoming);
        assert buf == buf[..size] + buf[size..];
        buf := buf[size..];
        return;
      }
      var chunks: seq<bytes> := [];
      var cur := buf;
      var blen := |buf|;
      assert Join(chunks) + cur + sock.incoming == avail;
      while blen < size
        invariant blen == |Join(chunks)| + |cur| && |Join(chunks)| < size
        invariant Join(chunks) + cur + sock.incoming == avail
        invariant sock.outgoing == old(sock.outgoing) && !ended
        decreases |sock.incoming|
      {
        JoinAppend(chunks, cur);
        chunks := chunks + [cur];
        cur := sock.Recv(RequestSize(size, blen, bufferSize));
        if cur == [] {
          AppendEmpty(Join(chunks));
          ended := true;
          buf := [];
          return Err(PartialRead(size, Join(chunks)));
        }
        Assoc(Join(chunks), cur, sock.incoming);
        blen := blen + |cur|;
      }
      var excess := blen - size;
      CutAt(Join(chunks), cur, sock.incoming, avail, size);
      JoinAppend(chunks, cur[..|cur| - excess]);
      if excess > 0 {
        chunks := chunks + [cur[..|cur| - excess]];
        buf := cur[|cur| - excess..];
      } else {
        assert cur[..|cur|] == cur && cur[|cur|..] == [];
        chunks := chunks + [cur];
        buf := [];
      }
      r := Ok(Join(chunks));
    }
  }

  // ---------------------------------------------------------------------
  // Records on the wire

  /** What write_record sends for a record: the header, with padding length 0, then the content. */
  function RecordBytes(rec: Record): (r: bytes)
    requires |rec.content| <= MaxContentLen
    ensures |r| == FcgiHeaderLen + |rec.content| && r[FcgiHeaderLen..] == rec.content
  {
    Utils.PackHeader(FcgiVersion, rec.recordType, rec.requestId, |rec.content|, 0).value + rec.content
  }

  /** The outcome of read_record on a stream: the peer closed cleanly, a record and what follows it, or an error. */
  datatype RecordRead = Closed | Got(record: Record, rest: bytes) | Broken(error: ReadError)

  /**
   * read_record on a stream holding `avail`: an 8-byte header (none at
   * all is the peer closing; part of one is PartialRead), content_len
   * bytes of content, then padding_length bytes skipped.  The version
   * byte is not checked.
   */
  function ParseRecord(avail: bytes): (r: RecordRead)
    ensures r.Got? ==> |r.rest| <= |avail| - FcgiHeaderLen
  {
    if |avail| < FcgiHeaderLen then
      if avail == [] then Closed else Broken(PartialRead(FcgiHeaderLen, avail))
    else
      var h := Utils.UnpackHeader(avail[..FcgiHeaderLen]).value;
      var body := avail[FcgiHeaderLen..];
      if |body| < h.contentLength then Broken(PartialRead(h.contentLength, body))
      else
        var after := body[h.contentLength..];
        if |after| < h.paddingLength then Broken(PartialRead(h.paddingLength, after))
        else Got(Record(h.recordType, body[..h.contentLength], h.requestId), after[h.paddingLength..])
  }

  /** A written record is read back as itself, whatever follows it on the stream. */
  lemma RecordRoundTrip(rec: Record, rest: bytes)
    requires |rec.content| <= MaxContentLen
    ensures ParseRecord(RecordBytes(rec) + rest) == Got(rec, rest)
  {
    var h := Header(FcgiVersion, rec.recordType, rec.requestId, |rec.content|, 0);
    Utils.HeaderRoundTrip(h, []);
    var header := Utils.PackHeader(FcgiVersion, rec.recordType, rec.requestId, |rec.content|, 0).value;
    AppendEmpty(header);
    var avail := RecordBytes(rec) + rest;
    assert avail == header + (rec.content + rest);
    assert avail[..FcgiHeaderLen] == header;
    assert avail[FcgiHeaderLen..] == rec.content + rest;
    assert (rec.content + rest)[..|rec.content|] == rec.content;
    assert (rec.content + rest)[|rec.content|..] == rest;
  }

  /** The records the peer reads off a stream, one read_record after another, and the error that ended them, if any. */
  function ParseRecords(avail: bytes): (seq<Record>, Option<ReadError>)
    decreases |avail|
  {
    match ParseRecord(avail)
    case Closed => ([], None)
    case Broken(e) => ([], Some(e))
    case Got(rec, rest) =>
      var (more, e) := ParseRecords(rest);
      ([rec] + more, e)
  }

  /** Records whose content fits the header's 16-bit length, such as write_record accepts. */
  predicate AllFit(recs: seq<Record>)
  {
    forall i :: 0 <= i < |recs| ==> |recs[i].content| <= MaxContentLen
  }

  /** The bytes write_record sends for each of `recs`, in order. */
  function Wire(recs: seq<Record>): bytes
    requires AllFit(recs)
  {
    if recs == [] then [] else RecordBytes(recs[0]) + Wire(recs[1..])
  }

  lemma {:induction false} WireAppend(a: seq<Record>, b: seq<Record>)
    requires AllFit(a) && AllFit(b)
    ensures AllFit(a + b) && Wire(a + b) == Wire(a) + Wire(b)
  {
    assert AllFit(a + b) by {
      forall i | 0 <= i < |a + b| ensures |(a + b)[i].content| <= MaxContentLen {
        if i >= |a| { assert (a + b)[i] == b[i - |a|]; }
      }
    }
    if a == [] {
      assert a + b == b;
    } else {
      assert (a + b)[1..] == a[1..] + b;
      assert AllFit(a[1..]) by {
        forall i | 0 <= i < |a| - 1 ensures |a[1..][i].content| <= MaxContentLen {
          assert a[1..][i] == a[i + 1];
        }
      }
      WireAppend(a[1..], b);
      Assoc(RecordBytes(a[0]), Wire(a[1..]), Wire(b));
    }
  }

  /** Whatever records were written, the peer reads exactly those records and then sees the connection closed. */
  lemma {:induction false} WireRoundTrip(recs: seq<Record>)
    requires AllFit(recs)
    ensures ParseRecords(Wire(recs)) == (recs, None)
  {
    if recs != [] {
      var tail := recs[1..];
      assert AllFit(tail) by {
        forall i | 0 <= i < |tail| ensures |tail[i].content| <= MaxContentLen {
          assert tail[i] == recs[i + 1];
        }
      }
      RecordRoundTrip(recs[0], Wire(tail));
      WireRoundTrip(tail);
      assert [recs[0]] + tail == recs;
    }
  }

  /** Records of one type and request id carrying each of `contents`, in order. */
  function Records(recordType: byte, contents: seq<bytes>, requestId: u16): (r: seq<Record>)
    ensures |r| == |contents|
    ensures forall i :: 0 <= i < |r| ==> r[i] == Record(recordType, contents[i], requestId)
  {
    if contents == [] then [] else [Record(recordType, contents[0], requestId)] + Records(recordType, contents[1..], requestId)
  }

  // ---------------------------------------------------------------------
  // Connection

  /** ValueError('Record content length exceeds 65535'). */
  datatype WriteError = ContentTooLong

  /**
   * Connection over a socket, reading through a BufferedReader on the
   * same socket.
   */
  class Connection {
    const sock: Socket
    const reader: BufferedReader

    predicate Valid()
    {
      reader.sock == sock
    }

    constructor(sock: Socket, bufferSize: pos)
      ensures Valid() && this.sock == sock
      ensures reader.buf == [] && !reader.ended && reader.bufferSize == bufferSize
    {
      this.sock := sock;
      reader := new BufferedReader(sock, bufferSize);
    }

    /** The `while sent < length: sent += send(buf[sent:])` loop: all of `data` is delivered, in order. */
    method SendAll(data: bytes)
      modifies sock
      ensures sock.outgoing == old(sock.outgoing) + data && sock.incoming == old(sock.incoming)
    {
      var sent := 0;
      while sent < |data|
        invariant sent <= |data|
        invariant sock.outgoing == old(sock.outgoing) + data[..sent] && sock.incoming == old(sock.incoming)
        decreases |data| - sent
      {
        var n := sock.Send(data[sent..]);
        assert data[..sent] + data[sent..][..n] == data[..sent + n];
        sent := sent + n;
      }
      assert data[..sent] == data;
    }

    /**
     * write_record: refuse content longer than FCGI_MAX_CONTENT_LEN;
     * otherwise send the header (version 1, padding 0), then the content.
     */
    method WriteRecord(rec: Record) returns (e: Option<WriteError>)
      modifies sock
      ensures sock.incoming == old(sock.incoming)
      ensures |rec.content| > MaxContentLen ==> e == Some(ContentTooLong) && sock.outgoing == old(sock.outgoing)
      ensures |rec.content| <= MaxContentLen ==> e == None && sock.outgoing == old(sock.outgoing) + RecordBytes(rec)
    {
      if |rec.content| > MaxContentLen {
        return Some(ContentTooLong);
      }
      var header := Utils.PackHeader(FcgiVersion, rec.recordType, rec.requestId, |rec.content|, 0).value;
      SendAll(header);
      SendAll(rec.content);
      Assoc(old(sock.outgoing), header, rec.content);
      e := None;
    }

    /**
     * read_record: the next record; None when the peer closed the
     * connection between records; PartialRead re-raised for a partial
     * header, and raised for short content or padding.
     */
    method ReadRecord() returns (r: Result<Option<Record>, ReadError>)
      requires Valid()
      modifies reader, sock
      ensures sock.outgoing == old(sock.outgoing)
      ensures old(reader.ended) ==> r == Err(Exhausted)
      ensures !old(reader.ended) ==>
                match ParseRecord(old(reader.Available()))
                case Closed => r == Ok(None)
                case Got(rec, rest) => r == Ok(Some(rec)) && reader.Available() == rest && !reader.ended
                case Broken(err) => r == Err(err)
    {
      ghost var avail := reader.Available();
      var header := reader.ReadBytes(FcgiHeaderLen);
      if header.Err? {
        if header.error.PartialRead? && header.error.partialData == [] {
          return Ok(None);
        }
        return Err(header.error);
      }
      var h := Utils.UnpackHeader(header.value).value;
      ghost var body := avail[FcgiHeaderLen..];
      var content: bytes := [];
      if h.contentLength > 0 {
        var c := reader.ReadBytes(h.contentLength);
        if c.Err? {
          return Err(c.error);
        }
        content := c.value;
      } else {
        assert body[..0] == [] && body[0..] == body;
      }
      ghost var after := body[h.contentLength..];
      if h.paddingLength > 0 {
        var p := reader.ReadBytes(h.paddingLength);
        if p.Err? {
          return Err(p.error);
        }
      } else {
        assert after[0..] == after;
      }
      return Ok(Some(Record(h.recordType, content, h.requestId)));
    }
  }

  // ---------------------------------------------------------------------
  // InputStream

  /** IOError('Feeding file beyond EOF mark'). */
  datatype FeedError = BeyondEof

  /**
   * InputStream: the spooled file's contents and position, and whether
   * the EOF mark (an empty chunk) has been fed.  Before it, data is
   * appended at the end; at it, the file is rewound for reading.
   */
  class InputStream {
    var contents: bytes
    var position: nat
    var eof: bool

    predicate Valid()
      reads this
    {
      position <= |contents| && (!eof ==> position == |contents|)
    }

    constructor()
      ensures Valid() && contents == [] && !eof
    {
      contents, position, eof := [], 0, false;
    }

    /** feed(data): after the EOF mark, IOError; an empty chunk is the EOF mark; any other is appended. */
    method Feed(data: bytes) returns (e: Option<FeedError>)
      requires Valid()
      modifies this
      ensures Valid()
      ensures old(eof) ==> e == Some(BeyondEof) && eof && contents == old(contents) && position == old(position)
      ensures !old(eof) && data == [] ==> e == None && eof && contents == old(contents) && position == 0
      ensures !old(eof) && data != [] ==> e == None && !eof && contents == old(contents) + data
    {
      if eof {
        return Some(BeyondEof);
      }
      if data == [] {
        position := 0;
        eof := true;
      } else {
        contents := contents + data;
        position := |contents|;
      }
      e := None;
    }

    /**
     * read(size), once the EOF mark has been fed (before it, read waits):
     * the next `size` bytes from the position, or all the rest when size
     * is negative or runs past the end.
     */
    method Read(size: int) returns (data: bytes)
      requires Valid() && eof
      modifies this
      ensures Valid() && eof && contents == old(contents) && old(position) <= position
      ensures data == contents[old(position)..position]
      ensures |data| == if 0 <= size <= |contents| - old(position) then size else |contents| - old(position)
    {
      var n := if 0 <= size <= |contents| - position then size else |contents| - position;
      data := contents[position..position + n];
      position := position + n;
    }
  }

  /**
   * The input stream's protocol: each non-empty chunk fed, then the EOF
   * mark; read() returns every byte fed, in order, and a further feed is
   * refused.
   */
  method FeedThenRead(chunks: seq<bytes>) returns (data: bytes, late: Option<FeedError>)
    requires forall i :: 0 <= i < |chunks| ==> chunks[i] != []
    ensures data == Join(chunks) && late == Some(BeyondEof)
  {
    var stream := new InputStream();
    var i := 0;
    while i < |chunks|
      invariant i <= |chunks| && stream.Valid() && !stream.eof
      invariant stream.contents == Join(chunks[..i])
      modifies stream
    {
      var _ := stream.Feed(chunks[i]);
      JoinAppend(chunks[..i], chunks[i]);
      assert chunks[..i + 1] == chunks[..i] + [chunks[i]];
      i := i + 1;
    }
    assert chunks[..i] == chunks;
    var _ := stream.Feed([]);
    data := stream.Read(-1);
    late := stream.Feed([0]);
  }

  // ---------------------------------------------------------------------
  // OutputStream, StdoutStream, StderrStream

  /** Record contents that each fit one record. */
  predicate Fits(cs: seq<bytes>)
  {
    forall i :: 0 <= i < |cs| ==> |cs[i]| <= MaxContentLen
  }

  /** The index of the first content too long for a record, or |cs| when all fit. */
  function FirstTooLong(cs: seq<bytes>): (k: nat)
    ensures k <= |cs| && Fits(cs[..k]) && (k < |cs| ==> |cs[k]| > MaxContentLen)
  {
    if cs == [] then 0
    else if |cs[0]| > MaxContentLen then 0
    else
      var k := 1 + FirstTooLong(cs[1..]);
      assert forall i :: 1 <= i < k ==> cs[..k][i] == cs[1..][..k - 1][i - 1];
      k
  }

  /** When `p` all fit and the content after them does not, the first content too long is the one after `p`. */
  lemma FirstTooLongAfter(cs: seq<bytes>, p: seq<bytes>)
    requires |p| < |cs| && cs[..|p|] == p && Fits(p) && |cs[|p|]| > MaxContentLen
    ensures FirstTooLong(cs) == |p|
  {
  }

  lemma AllFitFirstTooLong(cs: seq<bytes>)
    requires Fits(cs)
    ensures FirstTooLong(cs) == |cs|
  {
  }

  /** The contents the peer gets from a stream's records: b''.join(record.content for record in records). */
  function Payload(recs: seq<Record>): bytes
  {
    if recs == [] then [] else recs[0].content + Payload(recs[1..])
  }

  lemma {:induction false} RecordsAppend(recordType: byte, a: seq<bytes>, b: seq<bytes>, requestId: u16)
    ensures Records(recordType, a + b, requestId) == Records(recordType, a, requestId) + Records(recordType, b, requestId)
  {
    var l, r := Records(recordType, a + b, requestId), Records(recordType, a, requestId) + Records(recordType, b, requestId);
    assert |l| == |r|;
    forall i | 0 <= i < |l| ensures l[i] == r[i] {
      if i < |a| {
        assert (a + b)[i] == a[i];
      } else {
        assert (a + b)[i] == b[i - |a|];
      }
    }
  }

  /** Sending one more record after `cs` sends its bytes after theirs. */
  lemma SendOne(recordType: byte, cs: seq<bytes>, c: bytes, requestId: u16)
    requires Fits(cs) && |c| <= MaxContentLen
    ensures Fits(cs + [c])
    ensures Wire(Records(recordType, cs + [c], requestId))
         == Wire(Records(recordType, cs, requestId)) + RecordBytes(Record(recordType, c, requestId))
  {
    assert Fits(cs + [c]) by {
      forall i | 0 <= i < |cs + [c]| ensures |(cs + [c])[i]| <= MaxContentLen {
        if i < |cs| { assert (cs + [c])[i] == cs[i]; }
      }
    }
    RecordsAppend(recordType, cs, [c], requestId);
    var one := Records(recordType, [c], requestId);
    WireAppend(Records(recordType, cs, requestId), one);
    assert one[1..] == [];
    AppendEmpty(RecordBytes(one[0]));
  }

  lemma {:induction false} PayloadAppend(a: seq<Record>, b: seq<Record>)
    ensures Payload(a + b) == Payload(a) + Payload(b)
  {
    if a == [] {
      assert a + b == b;
    } else {
      assert (a + b)[1..] == a[1..] + b;
      PayloadAppend(a[1..], b);
      Assoc(a[0].content, Payload(a[1..]), Payload(b));
    }
  }

  /** The records of a content sequence carry, joined, the joined contents. */
  lemma {:induction false} PayloadRecords(recordType: byte, cs: seq<bytes>, requestId: u16)
    ensures Payload(Records(recordType, cs, requestId)) == Join(cs)
  {
    if cs != [] {
      PayloadRecords(recordType, cs[1..], requestId);
    }
  }

  // OutputStream.writelines, as written

  /**
   * writelines' state between lines: the contents of the records sent
   * so far, the list `buf`, and `remainder`.
   */
  datatype Batch = Batch(sent: seq<bytes>, buffered: seq<bytes>, remainder: nat)

  /**
   * One line of writelines' loop: an empty line is skipped; one at
   * least `remainder` long completes a record with its first `remainder`
   * bytes and leaves the rest in `buf`, out of which a fresh record of up
   * to FCGI_MAX_CONTENT_LEN is counted; a shorter one is buffered.
   */
  function Take(b: Batch, line: bytes): (r: Batch)
    ensures |b.sent| <= |r.sent| <= |b.sent| + 1 && r.sent[..|b.sent|] == b.sent
    ensures 0 < b.remainder <= MaxContentLen ==> 0 < r.remainder <= MaxContentLen
  {
    if line == [] then b
    else if |line| >= b.remainder then
      Batch(b.sent + [Join(b.buffered + [line[..b.remainder]])], [line[b.remainder..]], MaxContentLen)
    else Batch(b.sent, b.buffered + [line], b.remainder - |line|)
  }

  /** The state after the loop has taken `lines`. */
  function Batched(lines: seq<bytes>): (r: Batch)
    ensures |r.sent| <= |lines|
    ensures 0 < r.remainder <= MaxContentLen
  {
    if lines == [] then Batch([], [], MaxContentLen)
    else Take(Batched(lines[..|lines| - 1]), lines[|lines| - 1])
  }

  /** The contents of the records writelines sends, as written: those of the loop, then one for `buf` if it is non-empty. */
  function LinesContents(lines: seq<bytes>): (r: seq<bytes>)
    ensures lines == [] ==> r == []
    ensures |r| <= |lines| + 1
  {
    var b := Batched(lines);
    b.sent + (if b.buffered != [] then [Join(b.buffered)] else [])
  }

  lemma BatchedNext(lines: seq<bytes>, i: nat)
    requires i < |lines|
    ensures Batched(lines[..i + 1]) == Take(Batched(lines[..i]), lines[i])
  {
    assert lines[..i + 1][..i] == lines[..i];
  }

  /** The records sent as the loop goes are the first records of all it sends. */
  lemma {:induction false} BatchedPrefix(lines: seq<bytes>, i: nat)
    requires i <= |lines|
    ensures var p := Batched(lines[..i]).sent;
            |p| <= |LinesContents(lines)| && LinesContents(lines)[..|p|] == p
    decreases |lines| - i
  {
    if i == |lines| {
      assert lines[..i] == lines;
    } else {
      BatchedPrefix(lines, i + 1);
      BatchedNext(lines, i);
      var p, q := Batched(lines[..i]).sent, Batched(lines[..i + 1]).sent;
      assert |p| <= |q| && q[..|p|] == p;
      PrefixOfPrefix(p, q, LinesContents(lines));
    }
  }

  /** writelines refusing the record it completes after the first `j` lines: what went before is what it sent. */
  lemma RefusedAt(lines: seq<bytes>, j: nat, sent: seq<bytes>, content: bytes)
    requires j <= |lines| && Batched(lines[..j]).sent == sent + [content]
    requires Fits(sent) && |content| > MaxContentLen
    ensures var cs := LinesContents(lines);
            FirstTooLong(cs) == |sent| < |cs| && cs[..|sent|] == sent
  {
    BatchedPrefix(lines, j);
    var cs := LinesContents(lines);
    PrefixOfPrefix(sent, sent + [content], cs);
    assert cs[|sent|] == (sent + [content])[|sent|];
    FirstTooLongAfter(cs, sent);
  }

  /** What the end of writelines leaves to decide: whether the record for `buf`, if any, is refused. */
  lemma FlushOutcome(lines: seq<bytes>)
    requires Fits(Batched(lines).sent)
    ensures var b, cs := Batched(lines), LinesContents(lines);
            var k := FirstTooLong(cs);
            if b.buffered == [] then
              k == |cs| && cs[..k] == b.sent
            else
              cs == b.sent + [Join(b.buffered)]
              && (if |Join(b.buffered)| > MaxContentLen then k == |b.sent| < |cs| && cs[..k] == b.sent
                  else k == |cs| && cs[..k] == cs)
  {
    var b, cs := Batched(lines), LinesContents(lines);
    if b.buffered == [] {
      assert cs == b.sent + [];
      AllFitFirstTooLong(cs);
    } else {
      var c := Join(b.buffered);
      if |c| > MaxContentLen {
        assert cs[..|b.sent|] == b.sent;
        FirstTooLongAfter(cs, b.sent);
      } else {
        SendOne(0, b.sent, c, 0);
        AllFitFirstTooLong(cs);
      }
    }
    assert cs[..|cs|] == cs;
  }

  lemma PrefixOfPrefix<T>(p: seq<T>, q: seq<T>, r: seq<T>)
    requires |p| <= |q| <= |r| && q[..|p|] == p && r[..|q|] == q
    ensures r[..|p|] == p
  {
    assert r[..|p|] == r[..|q|][..|p|];
  }

  /** As written, writelines sends every byte of the lines, in order. */
  lemma {:induction false} BatchedKeepsData(lines: seq<bytes>)
    ensures Join(Batched(lines).sent) + Join(Batched(lines).buffered) == Join(lines)
  {
    if lines != [] {
      var init, line := lines[..|lines| - 1], lines[|lines| - 1];
      assert lines == init + [line];
      BatchedKeepsData(init);
      JoinAppend(init, line);
      var b := Batched(init);
      if line != [] {
        if |line| >= b.remainder {
          var head := Join(b.buffered + [line[..b.remainder]]);
          JoinAppend(b.sent, head);
          JoinAppend(b.buffered, line[..b.remainder]);
          JoinAppend([], line[b.remainder..]);
          assert line == line[..b.remainder] + line[b.remainder..];
        } else {
          JoinAppend(b.buffered, line);
        }
      }
    }
  }

  lemma LinesContentsKeepData(lines: seq<bytes>)
    ensures Join(LinesContents(lines)) == Join(lines)
  {
    BatchedKeepsData(lines);
    var b := Batched(lines);
    if b.buffered != [] {
      JoinAppend(b.sent, Join(b.buffered));
    } else {
      AppendEmpty(b.sent);
    }
  }

  /** A single line that exactly fills a record is sent as that record and then an empty one, which ends the stream early. */
  lemma FullLineSendsEmptyRecord()
    ensures LinesContents([Zeros(MaxContentLen)]) == [Zeros(MaxContentLen), []]
  {
    var line := Zeros(MaxContentLen);
    OneLine(line);
    assert line[..MaxContentLen] == line && line[MaxContentLen..] == [];
  }

  /** A line of three records' worth leaves two records' worth in `buf`: the last record is too long, and write_record refuses it. */
  lemma LongLineSendsOversizedRecord()
    ensures LinesContents([Zeros(3 * MaxContentLen)]) == [Zeros(MaxContentLen), Zeros(2 * MaxContentLen)]
    ensures FirstTooLong(LinesContents([Zeros(3 * MaxContentLen)])) == 1
  {
    var line := Zeros(3 * MaxContentLen);
    OneLine(line);
    assert line[..MaxContentLen] == Zeros(MaxContentLen);
    assert line[MaxContentLen..] == Zeros(2 * MaxContentLen);
    var cs := [Zeros(MaxContentLen), Zeros(2 * MaxContentLen)];
    assert cs[..1] == [Zeros(MaxContentLen)];
    FirstTooLongAfter(cs, [Zeros(MaxContentLen)]);
  }

  /** writelines of one line at least a record long: its first record's worth, then the rest of it. */
  lemma OneLine(line: bytes)
    requires |line| >= MaxContentLen
    ensures LinesContents([line]) == [line[..MaxContentLen], line[MaxContentLen..]]
  {
    var none: seq<bytes> := [];
    assert [line][..0] == none;
    var start := Batch(none, none, MaxContentLen);
    assert Batched([line]) == Take(start, line);
    assert none + [line[..MaxContentLen]] == [line[..MaxContentLen]];
    assert Join([line[..MaxContentLen]]) == line[..MaxContentLen];
    assert Join([line[MaxContentLen..]]) == line[MaxContentLen..];
  }

  // StdoutStream.writelines over an iterable, as written

  /** The non-empty lines, in order: one record each. */
  function NonEmpty(lines: seq<bytes>): (r: seq<bytes>)
    ensures forall i :: 0 <= i < |r| ==> r[i] != []
  {
    if lines == [] then []
    else NonEmpty(lines[..|lines| - 1]) + (if lines[|lines| - 1] == [] then [] else [lines[|lines| - 1]])
  }

  lemma NonEmptyNext(lines: seq<bytes>, i: nat)
    requires i < |lines|
    ensures NonEmpty(lines[..i + 1]) == NonEmpty(lines[..i]) + (if lines[i] == [] then [] else [lines[i]])
  {
    assert lines[..i + 1][..i] == lines[..i];
  }

  /** The records sent for the first lines are the first records of all. */
  lemma {:induction false} NonEmptyPrefix(lines: seq<bytes>, i: nat)
    requires i <= |lines|
    ensures var p := NonEmpty(lines[..i]);
            |p| <= |NonEmpty(lines)| && NonEmpty(lines)[..|p|] == p
    decreases |lines| - i
  {
    if i == |lines| {
      assert lines[..i] == lines;
    } else {
      NonEmptyPrefix(lines, i + 1);
      NonEmptyNext(lines, i);
      var p, q := NonEmpty(lines[..i]), NonEmpty(lines[..i + 1]);
      assert |p| <= |q| && q[..|p|] == p;
      PrefixOfPrefix(p, q, NonEmpty(lines));
    }
  }

  /** A line longer than one record makes write_record refuse it. */
  lemma LongLineRefused(line: bytes)
    requires |line| > MaxContentLen
    ensures FirstTooLong(NonEmpty([line])) == 0
  {
    var none: seq<bytes> := [];
    assert [line][..0] == none;
  }

  /** IOError('Writing to closed stream'), or the ValueError write_record raises for an oversized record. */
  datatype StreamError = StreamClosed | RecordTooLong

  /**
   * An output stream of one request: StdoutStream writes FCGI_STDOUT
   * records, StderrStream FCGI_STDERR, both through the connection.
   */
  class OutputStream {
    const conn: Connection
    const requestId: u16
    const recordType: byte
    var closed: bool

    constructor Stdout(conn: Connection, requestId: u16)
      ensures this.conn == conn && this.requestId == requestId && recordType == FcgiStdout && !closed
    {
      this.conn, this.requestId, recordType, closed := conn, requestId, FcgiStdout, false;
    }

    constructor Stderr(conn: Connection, requestId: u16)
      ensures this.conn == conn && this.requestId == requestId && recordType == FcgiStderr && !closed
    {
      this.conn, this.requestId, recordType, closed := conn, requestId, FcgiStderr, false;
    }

    /** The records of this stream carrying `contents`. */
    function Of(contents: seq<bytes>): seq<Record>
    {
      Records(recordType, contents, requestId)
    }

    /** What write(data) sends: data cut into records of at most FCGI_MAX_CONTENT_LEN bytes, none for no data. */
    function Chunked(data: bytes): (r: seq<Record>)
      ensures AllFit(r)
    {
      Of(Split(data, MaxContentLen))
    }

    /**
     * write(data): refused once closed; nothing for empty data; one
     * record when it fits, else consecutive FCGI_MAX_CONTENT_LEN slices.
     */
    method Write(data: bytes) returns (e: Option<StreamError>)
      modifies conn.sock
      ensures conn.sock.incoming == old(conn.sock.incoming)
      ensures closed ==> e == Some(StreamClosed) && conn.sock.outgoing == old(conn.sock.outgoing)
      ensures !closed ==> e == None && conn.sock.outgoing == old(conn.sock.outgoing) + Wire(Chunked(data))
    {
      if closed {
        return Some(StreamClosed);
      }
      e := None;
      if data == [] {
        return;
      }
      var size := |data|;
      if size <= MaxContentLen {
        var _ := conn.WriteRecord(Record(recordType, data, requestId));
        AppendEmpty(RecordBytes(Record(recordType, data, requestId)));
        return;
      }
      var sent := 0;
      while sent < size
        invariant sent <= size
        invariant conn.sock.incoming == old(conn.sock.incoming)
        invariant sent < size ==> old(conn.sock.outgoing) + Wire(Chunked(data)) == conn.sock.outgoing + Wire(Chunked(data[sent..]))
        invariant sent >= size ==> old(conn.sock.outgoing) + Wire(Chunked(data)) == conn.sock.outgoing
        decreases size - sent
      {
        var end := if sent + MaxContentLen < size then sent + MaxContentLen else size;
        SendFirst(data[sent..]);
        if end < size {
          assert data[sent..][MaxContentLen..] == data[end..];
        }
        sent := end;
      }
    }

    /**
     * One pass of write's loop, on the data from `sent` on: a record of
     * its first FCGI_MAX_CONTENT_LEN bytes, or of all of it when shorter.
     */
    method SendFirst(rest: bytes)
      requires rest != []
      modifies conn.sock
      ensures conn.sock.incoming == old(conn.sock.incoming)
      ensures conn.sock.outgoing + (if |rest| > MaxContentLen then Wire(Chunked(rest[MaxContentLen..])) else [])
           == old(conn.sock.outgoing) + Wire(Chunked(rest))
    {
      var first := if |rest| <= MaxContentLen then rest else rest[..MaxContentLen];
      ChunkedStep(rest);
      var _ := conn.WriteRecord(Record(recordType, first, requestId));
      if |rest| > MaxContentLen {
        Assoc(old(conn.sock.outgoing), RecordBytes(Record(recordType, first, requestId)), Wire(Chunked(rest[MaxContentLen..])));
      } else {
        AppendEmpty(conn.sock.outgoing);
      }
    }

    /** Writing non-empty data sends its first slice, then what writing the rest would. */
    lemma ChunkedStep(data: bytes)
      requires data != []
      ensures var first := if |data| <= MaxContentLen then data else data[..MaxContentLen];
              Wire(Chunked(data)) == RecordBytes(Record(recordType, first, requestId))
                + (if |data| <= MaxContentLen then [] else Wire(Chunked(data[MaxContentLen..])))
    {
      if |data| <= MaxContentLen {
        AppendEmpty(RecordBytes(Record(recordType, data, requestId)));
      } else {
        var rest := Split(data[MaxContentLen..], MaxContentLen);
        assert Split(data, MaxContentLen) == [data[..MaxContentLen]] + rest;
        assert Chunked(data)[1..] == Chunked(data[MaxContentLen..]);
      }
    }

    /** close(): the first call marks the stream closed and sends the empty record that ends it; later calls do nothing. */
    method Close()
      modifies this, conn.sock
      ensures closed && conn.sock.incoming == old(conn.sock.incoming)
      ensures conn.sock.outgoing == old(conn.sock.outgoing) + (if old(closed) then [] else RecordBytes(Record(recordType, [], requestId)))
    {
      if !closed {
        closed := true;
        var _ := conn.WriteRecord(Record(recordType, [], requestId));
      } else {
        AppendEmpty(conn.sock.outgoing);
      }
    }

    /**
     * OutputStream.writelines(lines), as written: refused once closed;
     * otherwise the records of LinesContents(lines) go out one by one
     * until one is too long, and write_record's ValueError for that one
     * ends the call.
     */
    method WriteLines(lines: seq<bytes>) returns (e: Option<StreamError>)
      modifies conn.sock
      ensures conn.sock.incoming == old(conn.sock.incoming)
      ensures closed ==> e == Some(StreamClosed) && conn.sock.outgoing == old(conn.sock.outgoing)
      ensures !closed ==>
                var cs := LinesContents(lines);
                var k := FirstTooLong(cs);
                conn.sock.outgoing == old(conn.sock.outgoing) + Wire(Of(cs[..k]))
                && e == (if k < |cs| then Some(RecordTooLong) else None)
    {
      if closed {
        return Some(StreamClosed);
      }
      ghost var start := conn.sock.outgoing;
      ghost var sent: seq<bytes> := [];
      var buf: seq<bytes> := [];
      var remainder: nat := MaxContentLen;
      var i := 0;
      while i < |lines|
        invariant i <= |lines|
        invariant Batched(lines[..i]) == Batch(sent, buf, remainder)
        invariant Fits(sent)
        invariant conn.sock.incoming == old(conn.sock.incoming)
        invariant conn.sock.outgoing == start + Wire(Of(sent))
      {
        var refused;
        sent, buf, remainder, refused := TakeLine(lines, i, start, sent, buf, remainder);
        if refused {
          return Some(RecordTooLong);
        }
        i := i + 1;
      }
      assert lines[..i] == lines;
      e := FlushLines(lines, start, sent, buf);
    }

    /**
     * One pass of writelines' loop over `lines[i]`: either the state after
     * it, or write_record refusing the record it completes.
     */
    method TakeLine(lines: seq<bytes>, i: nat, ghost start: bytes, ghost sent: seq<bytes>, buf: seq<bytes>, remainder: nat)
      returns (ghost sent': seq<bytes>, buf': seq<bytes>, remainder': nat, refused: bool)
      requires i < |lines| && Batched(lines[..i]) == Batch(sent, buf, remainder) && Fits(sent)
      requires conn.sock.outgoing == start + Wire(Of(sent))
      modifies conn.sock
      ensures conn.sock.incoming == old(conn.sock.incoming)
      ensures !refused ==>
                Batched(lines[..i + 1]) == Batch(sent', buf', remainder') && Fits(sent')
                && conn.sock.outgoing == start + Wire(Of(sent'))
      ensures refused ==> var cs := LinesContents(lines);
                FirstTooLong(cs) < |cs| && conn.sock.outgoing == start + Wire(Of(cs[..FirstTooLong(cs)]))
    {
      var line := lines[i];
      BatchedNext(lines, i);
      sent', buf', remainder', refused := sent, buf, remainder, false;
      if line != [] {
        if |line| >= remainder {
          var content := Join(buf + [line[..remainder]]);
          var err := conn.WriteRecord(Record(recordType, content, requestId));
          if err.Some? {
            RefusedAt(lines, i + 1, sent, content);
            return sent, buf, remainder, true;
          }
          SendOne(recordType, sent, content, requestId);
          Assoc(start, Wire(Of(sent)), RecordBytes(Record(recordType, content, requestId)));
          sent', buf', remainder' := sent + [content], [line[remainder..]], MaxContentLen;
        } else {
          buf', remainder' := buf + [line], remainder - |line|;
        }
      }
    }

    /** The end of writelines: the record for what is left in `buf`, if anything is. */
    method FlushLines(lines: seq<bytes>, ghost start: bytes, ghost sent: seq<bytes>, buf: seq<bytes>) returns (e: Option<StreamError>)
      requires Batched(lines).sent == sent && Batched(lines).buffered == buf && Fits(sent)
      requires conn.sock.outgoing == start + Wire(Of(sent))
      modifies conn.sock
      ensures conn.sock.incoming == old(conn.sock.incoming)
      ensures var cs := LinesContents(lines);
              var k := FirstTooLong(cs);
              conn.sock.outgoing == start + Wire(Of(cs[..k]))
              && e == (if k < |cs| then Some(RecordTooLong) else None)
    {
      FlushOutcome(lines);
      ghost var cs := LinesContents(lines);
      ghost var k := FirstTooLong(cs);
      if buf != [] {
        var content := Join(buf);
        var err := conn.WriteRecord(Record(recordType, content, requestId));
        if err.Some? {
          assert cs[..k] == sent;
          return Some(RecordTooLong);
        }
        SendOne(recordType, sent, content, requestId);
        assert cs[..k] == sent + [content];
        Assoc(start, Wire(Of(sent)), RecordBytes(Record(recordType, content, requestId)));
      } else {
        assert cs[..k] == sent;
      }
      e := None;
    }

    /**
     * writelines as evidently intended: the lines' bytes go out exactly
     * as write(b''.join(lines)) sends them, in full records with the
     * shorter rest last, no record empty and none too long.
     */
    method WriteLinesFixed(lines: seq<bytes>) returns (e: Option<StreamError>)
      modifies conn.sock
      ensures conn.sock.incoming == old(conn.sock.incoming)
      ensures closed ==> e == Some(StreamClosed) && conn.sock.outgoing == old(conn.sock.outgoing)
      ensures !closed ==> e == None && conn.sock.outgoing == old(conn.sock.outgoing) + Wire(Chunked(Join(lines)))
    {
      if closed {
        return Some(StreamClosed);
      }
      ghost var start := conn.sock.outgoing;
      ghost var full: bytes := [];
      ghost var k: nat := 0;
      var pending: bytes := [];
      var i := 0;
      while i < |lines|
        invariant i <= |lines|
        invariant |full| == k * MaxContentLen && |pending| < MaxContentLen
        invariant full + pending == Join(lines[..i])
        invariant conn.sock.incoming == old(conn.sock.incoming)
        invariant conn.sock.outgoing == start + Wire(Chunked(full))
      {
        assert lines[..i + 1] == lines[..i] + [lines[i]];
        JoinAppend(lines[..i], lines[i]);
        Assoc(full, pending, lines[i]);
        full, k, pending := SendFull(start, full, k, pending + lines[i]);
        i := i + 1;
      }
      assert lines[..i] == lines;
      if pending != [] {
        var _ := conn.WriteRecord(Record(recordType, pending, requestId));
        ChunkedAppendOne(full, k, pending);
        Assoc(start, Wire(Chunked(full)), RecordBytes(Record(recordType, pending, requestId)));
      } else {
        AppendEmpty(full);
      }
      e := None;
    }

    /** The full records' worth at the front of `pending` go out as full records; less than one is left. */
    method SendFull(ghost start: bytes, ghost full: bytes, ghost k: nat, pending: bytes) returns (ghost full': bytes, ghost k': nat, rest: bytes)
      requires |full| == k * MaxContentLen && conn.sock.outgoing == start + Wire(Chunked(full))
      modifies conn.sock
      ensures |full'| == k' * MaxContentLen && |rest| < MaxContentLen && full' + rest == full + pending
      ensures conn.sock.incoming == old(conn.sock.incoming)
      ensures conn.sock.outgoing == start + Wire(Chunked(full'))
    {
      full', k', rest := full, k, pending;
      while |rest| >= MaxContentLen
        invariant |full'| == k' * MaxContentLen && full' + rest == full + pending
        invariant conn.sock.incoming == old(conn.sock.incoming)
        invariant conn.sock.outgoing == start + Wire(Chunked(full'))
        decreases |rest|
      {
        var content := rest[..MaxContentLen];
        var _ := conn.WriteRecord(Record(recordType, content, requestId));
        ChunkedAppendOne(full', k', content);
        Assoc(start, Wire(Chunked(full')), RecordBytes(Record(recordType, content, requestId)));
        assert rest == content + rest[MaxContentLen..];
        Assoc(full', content, rest[MaxContentLen..]);
        full', k', rest := full' + content, k' + 1, rest[MaxContentLen..];
      }
    }

    /** After whole records' worth of data, a last piece of at most one record's worth is one more record. */
    lemma ChunkedAppendOne(full: bytes, k: nat, c: bytes)
      requires |full| == k * MaxContentLen && 0 < |c| <= MaxContentLen
      ensures Wire(Chunked(full + c)) == Wire(Chunked(full)) + RecordBytes(Record(recordType, c, requestId))
    {
      SplitWhole(full, c, MaxContentLen, k);
      var cs := Split(full, MaxContentLen);
      assert Split(c, MaxContentLen) == [c];
      SendOne(recordType, cs, c, requestId);
    }

    /**
     * StdoutStream.writelines over an iterator, as written: refused once
     * closed; otherwise one record per non-empty line, until a line too
     * long for one record, which write_record refuses.
     */
    method WriteEachLine(lines: seq<bytes>) returns (e: Option<StreamError>)
      modifies conn.sock
      ensures conn.sock.incoming == old(conn.sock.incoming)
      ensures closed ==> e == Some(StreamClosed) && conn.sock.outgoing == old(conn.sock.outgoing)
      ensures !closed ==>
                var cs := NonEmpty(lines);
                var k := FirstTooLong(cs);
                conn.sock.outgoing == old(conn.sock.outgoing) + Wire(Of(cs[..k]))
                && e == (if k < |cs| then Some(RecordTooLong) else None)
    {
      if closed {
        return Some(StreamClosed);
      }
      ghost var start := conn.sock.outgoing;
      ghost var sent: seq<bytes> := [];
      var i := 0;
      while i < |lines|
        invariant i <= |lines|
        invariant NonEmpty(lines[..i]) == sent
        invariant Fits(sent)
        invariant conn.sock.incoming == old(conn.sock.incoming)
        invariant conn.sock.outgoing == start + Wire(Of(sent))
      {
        var refused;
        sent, refused := SendLine(lines, i, start, sent);
        if refused {
          return Some(RecordTooLong);
        }
        i := i + 1;
      }
      assert lines[..i] == lines;
      AllFitFirstTooLong(sent);
      assert sent[..|sent|] == sent;
      e := None;
    }

    /** One pass of the loop over `lines[i]`: its record, unless write_record refuses it. */
    method SendLine(lines: seq<bytes>, i: nat, ghost start: bytes, ghost sent: seq<bytes>) returns (ghost sent': seq<bytes>, refused: bool)
      requires i < |lines| && NonEmpty(lines[..i]) == sent && Fits(sent)
      requires conn.sock.outgoing == start + Wire(Of(sent))
      modifies conn.sock
      ensures conn.sock.incoming == old(conn.sock.incoming)
      ensures !refused ==> NonEmpty(lines[..i + 1]) == sent' && Fits(sent') && conn.sock.outgoing == start + Wire(Of(sent'))
      ensures refused ==> var cs := NonEmpty(lines);
                FirstTooLong(cs) < |cs| && conn.sock.outgoing == start + Wire(Of(cs[..FirstTooLong(cs)]))
    {
      var line := lines[i];
      NonEmptyNext(lines, i);
      sent', refused := sent, false;
      if line != [] {
        var err := conn.WriteRecord(Record(recordType, line, requestId));
        if err.Some? {
          NonEmptyPrefix(lines, i + 1);
          ghost var cs := NonEmpty(lines);
          PrefixOfPrefix(sent, sent + [line], cs);
          assert cs[|sent|] == (sent + [line])[|sent|];
          FirstTooLongAfter(cs, sent);
          assert cs[..FirstTooLong(cs)] == sent;
          return sent, true;
        }
        SendOne(recordType, sent, line, requestId);
        Assoc(start, Wire(Of(sent)), RecordBytes(Record(recordType, line, requestId)));
        sent' := sent + [line];
      } else {
        AppendEmpty(sent);
      }
    }

    /** The records writing each line on its own sends: write(line) for every line, in order. */
    function ChunkedEach(lines: seq<bytes>): (r: seq<Record>)
      ensures AllFit(r)
    {
      if lines == [] then []
      else
        var init, last := ChunkedEach(lines[..|lines| - 1]), Chunked(lines[|lines| - 1]);
        WireAppend(init, last);
        init + last
    }

    /**
     * StdoutStream.writelines over an iterator as evidently intended:
     * every line goes out as write(line) sends it, so no line is refused.
     */
    method WriteEachLineFixed(lines: seq<bytes>) returns (e: Option<StreamError>)
      modifies conn.sock
      ensures conn.sock.incoming == old(conn.sock.incoming)
      ensures closed ==> e == Some(StreamClosed) && conn.sock.outgoing == old(conn.sock.outgoing)
      ensures !closed ==> e == None && conn.sock.outgoing == old(conn.sock.outgoing) + Wire(ChunkedEach(lines))
    {
      if closed {
        return Some(StreamClosed);
      }
      var i := 0;
      while i < |lines|
        invariant i <= |lines|
        invariant conn.sock.incoming == old(conn.sock.incoming)
        invariant conn.sock.outgoing == old(conn.sock.outgoing) + Wire(ChunkedEach(lines[..i]))
      {
        var _ := Write(lines[i]);
        assert lines[..i + 1][..i] == lines[..i];
        Assoc(old(conn.sock.outgoing), Wire(ChunkedEach(lines[..i])), Wire(Chunked(lines[i])));
        WireAppend(ChunkedEach(lines[..i]), Chunked(lines[i]));
        i := i + 1;
      }
      assert lines[..i] == lines;
      e := None;
    }

    /**
     * StdoutStream.writelines, with both paths corrected: a list or tuple
     * is sent as one run of data, any other iterable line by line.
     */
    method StdoutWriteLines(lines: seq<bytes>, isSequence: bool) returns (e: Option<StreamError>)
      modifies conn.sock
      ensures conn.sock.incoming == old(conn.sock.incoming)
      ensures closed ==> e == Some(StreamClosed) && conn.sock.outgoing == old(conn.sock.outgoing)
      ensures !closed ==>
                e == None
                && conn.sock.outgoing == old(conn.sock.outgoing) + Wire(if isSequence then Chunked(Join(lines)) else ChunkedEach(lines))
    {
      if isSequence {
        e := WriteLinesFixed(lines);
      } else {
        e := WriteEachLineFixed(lines);
      }
    }

    /** write sends every byte of its data, in order. */
    lemma WriteKeepsData(data: bytes)
      ensures Payload(Chunked(data)) == data
    {
      PayloadRecords(recordType, Split(data, MaxContentLen), requestId);
    }

    /** The as-written writelines, when nothing is refused, sends every byte of the lines, in order. */
    lemma WriteLinesKeepsData(lines: seq<bytes>)
      ensures Payload(Of(LinesContents(lines))) == Join(lines)
    {
      PayloadRecords(recordType, LinesContents(lines), requestId);
      LinesContentsKeepData(lines);
    }

    /** Writing line by line sends every byte of the lines, in order. */
    lemma {:induction false} EachLineKeepsData(lines: seq<bytes>)
      ensures Payload(ChunkedEach(lines)) == Join(lines)
    {
      if lines != [] {
        var init, last := lines[..|lines| - 1], lines[|lines| - 1];
        EachLineKeepsData(init);
        PayloadAppend(ChunkedEach(init), Chunked(last));
        WriteKeepsData(last);
        assert lines == init + [last];
        JoinAppend(init, last);
      }
    }
  }

  /** Cutting `a + c + rest` at a point inside `c`. */
  lemma CutAt<T>(a: seq<T>, c: seq<T>, rest: seq<T>, v: seq<T>, s: nat)
    requires a + c + rest == v && |a| <= s <= |a| + |c|
    ensures a + c[..s - |a|] == v[..s] && c[s - |a|..] + rest == v[s..]
  {
    assert c == c[..s - |a|] + c[s - |a|..];
    assert v == (a + c[..s - |a|]) + (c[s - |a|..] + rest);
  }
}
