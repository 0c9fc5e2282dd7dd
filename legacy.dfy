/**
 * The legacy single-module implementation, gevent_fastcgi.py: its
 * name-value pair packer and stream decoder, the record framing of
 * _Connection (content padded to a multiple of 8 bytes) and the 0xFFFF
 * slicing of ServerConnection.handle_output.
 */
module Legacy {
  import opened Results
  import opened Bytes
  import opened Pairs
  import opened Protocol
  import Utils
  import Base

  // ---------------------------------------------------------------------
  // pack_pairs, as written

  /**
   * _len(s): '!B' of a length below 128, else '!L' of it, with no bit
   * set to mark the 4-byte form; struct refuses a length of 2**32 or more.
   */
  function PackLength(s: bytes): (r: Result<bytes, Utils.StructError>)
    ensures |s| < 128 ==> r == Ok(EncodeLength(|s|))
    ensures 128 <= |s| < 0x1_0000_0000 ==> r.Ok? && |r.value| == 4 && Be32Value(r.value, 0) == |s|
    ensures |s| >= 0x1_0000_0000 ==> r.Err?
  {
    if |s| < 128 then Ok([|s|])
    else if |s| >= 0x1_0000_0000 then Err(Utils.StructError)
    else Ok(Be32(|s|))
  }

  /** One item of the generator: both lengths, then the name and the value. */
  function PackPair(p: Pair): Result<bytes, Utils.StructError>
  {
    match PackLength(p.name)
    case Err(e) => Err(e)
    case Ok(ln) =>
      match PackLength(p.value)
      case Err(e) => Err(e)
      case Ok(lv) => Ok(ln + lv + p.name + p.value)
  }

  /** Both lengths of every pair below 128, where the legacy prefix is the format's. */
  predicate AllShort(ps: seq<Pair>)
  {
    forall i :: 0 <= i < |ps| ==> |ps[i].name| < 128 && |ps[i].value| < 128
  }

  /**
   * pack_pairs(pairs): the generator's items, one per pair and in order;
   * consuming it raises at the first pair with a length struct refuses.
   */
  function PackPairs(ps: seq<Pair>): (r: Result<seq<bytes>, Utils.StructError>)
    ensures r.Ok? ==> |r.value| == |ps|
  {
    if ps == [] then Ok([])
    else
      match PackPair(ps[0])
      case Err(e) => Err(e)
      case Ok(head) =>
        match PackPairs(ps[1..])
        case Err(e) => Err(e)
        case Ok(tail) => Ok([head] + tail)
  }

  /** With every length below 128 the legacy packer writes exactly the format's encoding. */
  lemma {:induction false} ShortPairsEncode(ps: seq<Pair>)
    requires AllShort(ps)
    ensures AllEncodable(ps) && PackPairs(ps).Ok? && Join(PackPairs(ps).value) == EncodePairs(ps)
  {
    if ps != [] {
      assert AllShort(ps[1..]) by {
        forall i | 0 <= i < |ps[1..]| ensures |ps[1..][i].name| < 128 && |ps[1..][i].value| < 128 {
          assert ps[1..][i] == ps[i + 1];
        }
      }
      ShortPairsEncode(ps[1..]);
      assert PackPair(ps[0]) == Ok(EncodePair(ps[0]));
      assert AllEncodable(ps) by {
        forall i | 0 <= i < |ps| ensures Encodable(ps[i]) {
          if i > 0 {
            assert ps[i] == ps[1..][i - 1];
          }
        }
      }
    }
  }

  /** ...so those pairs come back from the decoder unchanged: the only case in which the legacy round trip holds. */
  lemma ShortPairsRoundTrip(ps: seq<Pair>)
    requires AllShort(ps)
    ensures PackPairs(ps).Ok? && Decode(Join(PackPairs(ps).value)) == Decoded(ps, None)
  {
    ShortPairsEncode(ps);
    RoundTrip(ps);
  }

  /** A 128-byte name of 'a's and an empty value. */
  function LongName(): (p: Pair)
    ensures |p.name| == 128 && p.value == []
  {
    Pair(seq(128, _ => 0x61), [])
  }

  /**
   * The legacy packer's bytes for that pair: '!L' 128 is 00 00 00 80, the
   * value's length 00, then the name.  Its own decoder reads them as an
   * empty pair and then a pair whose value length takes in the 'a's, and
   * fails for 24803 bytes it does not have.
   */
  lemma LongNameMisread()
    ensures var w := [0, 0, 0, 0x80, 0] + LongName().name;
            PackPairs([LongName()]) == Ok([w])
            && Decode(w) == Decoded([Pair([], [])], Some(PayloadShort(24803)))
  {
    var p := LongName();
    var w: bytes := [0, 0, 0, 0x80, 0] + p.name;
    var ln, lv := Be32(128), EncodeLength(0);
    assert ln == [0, 0, 0, 0x80] && lv == [0];
    assert PackLength(p.name) == Ok(ln) && PackLength(p.value) == Ok(lv);
    assert ln + lv + p.name + p.value == w;
    assert PackPair(p) == Ok(w);
    assert PackPairs([p][1..]) == Ok([]);
    assert [w] + [] == [w];
    assert w[..2] == [0, 0] && w[2..2] == [];
    assert DecodePair(w, 0) == Next(Pair([], []), 2);
    assert Be32Value(w, 3) == 0x80_00_61_61;
    assert DecodeLength(w, 3) == Length(0x6161, 7);
    assert DecodePair(w, 2) == Stop(PayloadShort(24803));
    DecodeFromNext(w, 0, Pair([], []), 2);
    DecodeFromStop(w, 2, PayloadShort(24803));
  }

  // pack_pairs, corrected

  /** _len with bit 31 set on the 4-byte form, as section 3.4 of the FastCGI Specification asks: utils.pack_len. */
  function PackPairsFixed(ps: seq<Pair>): (r: Result<seq<bytes>, Utils.TooLong>)
    ensures r.Ok? <==> AllEncodable(ps)
    ensures r.Ok? ==> |r.value| == |ps| && Join(r.value) == EncodePairs(ps)
  {
    if ps == [] then Ok([])
    else
      match Utils.PackPair(ps[0].name, ps[0].value)
      case Err(e) => Err(e)
      case Ok(head) =>
        match PackPairsFixed(ps[1..])
        case Err(e) => Err(e)
        case Ok(tail) =>
          assert AllEncodable(ps) by {
            forall i | 0 <= i < |ps| ensures Encodable(ps[i]) {
              if i > 0 {
                assert ps[i] == ps[1..][i - 1];
              }
            }
          }
          Ok([head] + tail)
  }

  /** The corrected packer round-trips every pair the format can carry. */
  lemma FixedRoundTrip(ps: seq<Pair>)
    requires AllEncodable(ps)
    ensures PackPairsFixed(ps).Ok? && Decode(Join(PackPairsFixed(ps).value)) == Decoded(ps, None)
  {
    RoundTrip(ps);
  }

  // ---------------------------------------------------------------------
  // unpack_pairs over a stream

  /** A StringIO over bytes: read(n) returns up to `n` bytes from the cursor and moves past them. */
  class StringStream {
    const data: bytes
    var pos: nat

    predicate Valid()
      reads this
    {
      pos <= |data|
    }

    constructor(data: bytes)
      ensures Valid() && this.data == data && pos == 0
    {
      this.data := data;
      pos := 0;
    }

    method Read(n: nat) returns (s: bytes)
      requires Valid()
      modifies this
      ensures Valid()
      ensures var end := if old(pos) + n <= |data| then old(pos) + n else |data|;
              s == data[old(pos)..end] && pos == end
    {
      var end := if pos + n <= |data| then pos + n else |data|;
      s := data[pos..end];
      pos := end;
    }
  }

  /** ProtocolError: 'Failed to read name length', 'Failed to read value length', 'Failed to read %s bytes', 'Unsopported FastCGI version'. */
  datatype ProtocolError = LengthShort | ValueLengthMissing | StringShort | UnsupportedVersion(version: byte)

  /**
   * read_len: None at the end of the stream; a byte with bit 7 clear is
   * the length; otherwise 3 more bytes are read, and the 4 masked with
   * 0x7fffffff, unless fewer than 4 could be read.
   */
  method ReadLen(stream: StringStream) returns (r: Result<Option<nat>, ProtocolError>)
    requires stream.Valid()
    modifies stream
    ensures stream.Valid()
    ensures old(stream.pos) == |stream.data| ==> r == Ok(None)
    ensures old(stream.pos) < |stream.data| ==>
              match DecodeLength(stream.data, old(stream.pos))
              case Length(n, next) => r == Ok(Some(n)) && stream.pos == next
              case Short(_) => r == Err(LengthShort)
  {
    ghost var start := stream.pos;
    var b := stream.Read(1);
    if b == [] {
      return Ok(None);
    }
    Utils.UnpackLenAgrees(stream.data, start);
    var l: nat := b[0];
    if l >= 128 {
      var more := stream.Read(3);
      b := b + more;
      if |b| != 4 {
        return Err(LengthShort);
      }
      assert b == stream.data[start..start + 4];
      assert Be32Value(b, 0) == Be32Value(stream.data, start);
      l := Be32Value(b, 0) % 0x8000_0000;
    }
    return Ok(Some(l));
  }

  /** read_str(l): exactly `l` bytes, or ProtocolError when the stream has fewer. */
  method ReadStr(stream: StringStream, l: nat) returns (r: Result<bytes, ProtocolError>)
    requires stream.Valid()
    modifies stream
    ensures stream.Valid()
    ensures old(stream.pos) + l <= |stream.data| ==>
              r == Ok(stream.data[old(stream.pos)..old(stream.pos) + l]) && stream.pos == old(stream.pos) + l
    ensures old(stream.pos) + l > |stream.data| ==> r == Err(StringShort)
  {
    var s := stream.Read(l);
    if |s| != l {
      return Err(StringShort);
    }
    return Ok(s);
  }

  /**
   * One pass of unpack_pairs' loop: None at the end of the stream, else
   * the pair the format's decoder reads at the cursor, or the error for
   * the read that came up short.
   */
  method ReadPair(stream: StringStream) returns (r: Result<Option<Pair>, ProtocolError>)
    requires stream.Valid()
    modifies stream
    ensures stream.Valid()
    ensures old(stream.pos) == |stream.data| ==> r == Ok(None)
    ensures old(stream.pos) < |stream.data| ==>
              match DecodePair(stream.data, old(stream.pos))
              case Next(p, next) => r == Ok(Some(p)) && stream.pos == next
              case Stop(f) => r.Err? && (f.PayloadShort? <==> r.error == StringShort)
  {
    var nameLen := ReadLen(stream);
    if nameLen.Err? {
      return Err(nameLen.error);
    }
    if nameLen.value.None? {
      return Ok(None);
    }
    var valueLen := ReadLen(stream);
    if valueLen.Err? {
      return Err(valueLen.error);
    }
    if valueLen.value.None? {
      return Err(ValueLengthMissing);
    }
    var name := ReadStr(stream, nameLen.value.value);
    if name.Err? {
      return Err(name.error);
    }
    var value := ReadStr(stream, valueLen.value.value);
    if value.Err? {
      return Err(value.error);
    }
    return Ok(Some(Pair(name.value, value.value)));
  }

  /**
   * unpack_pairs(stream), the fallback generator: the pairs it yields, in
   * order, and the ProtocolError it then raises, if any.  It yields what
   * the format's decoder reads from the cursor on, and raises exactly
   * when that decoder fails, a short name or value as 'Failed to read'.
   */
  method UnpackPairs(stream: StringStream) returns (yielded: seq<Pair>, error: Option<ProtocolError>)
    requires stream.Valid()
    modifies stream
    ensures var d := DecodeFrom(stream.data, old(stream.pos));
            yielded == d.pairs && (error.None? <==> d.failure.None?)
            && (error.Some? ==> (d.failure.value.PayloadShort? <==> error.value == StringShort))
  {
    ghost var start := stream.pos;
    yielded := [];
    assert [] + DecodeFrom(stream.data, start).pairs == DecodeFrom(stream.data, start).pairs;
    while true
      invariant stream.Valid()
      invariant DecodeFrom(stream.data, start).pairs == yielded + DecodeFrom(stream.data, stream.pos).pairs
      invariant DecodeFrom(stream.data, start).failure == DecodeFrom(stream.data, stream.pos).failure
      decreases |stream.data| - stream.pos
    {
      ghost var here := stream.pos;
      var r := ReadPair(stream);
      if r.Err? {
        DecodeFromStop(stream.data, here, DecodePair(stream.data, here).failure);
        AppendEmpty(yielded);
        return yielded, Some(r.error);
      }
      if r.value.None? {
        AppendEmpty(yielded);
        return yielded, None;
      }
      var p := r.value.value;
      DecodeFromNext(stream.data, here, p, stream.pos);
      Assoc(yielded, [p], DecodeFrom(stream.data, stream.pos).pairs);
      yielded := yielded + [p];
    }
  }

  /** unpack_pairs on a byte string, which it wraps in a StringIO first: the pairs of the whole buffer. */
  method UnpackBytes(data: bytes) returns (yielded: seq<Pair>, error: Option<ProtocolError>)
    ensures yielded == Decode(data).pairs && (error.None? <==> Decode(data).failure.None?)
  {
    var stream := new StringStream(data);
    yielded, error := UnpackPairs(stream);
  }

  // ---------------------------------------------------------------------
  // _Connection.write_record, read_record

  /** padding = -content_len & 7 (Python's & on a negative int is two's complement, which for 7 is the non-negative remainder). */
  function Padding(n: nat): (p: nat)
    ensures p < 8 && (n + p) % 8 == 0
  {
    var p := (-(n as int)) % 8;
    assert 0 <= p;
    p
  }

  /** The padding is the fewest zero bytes that make the record a multiple of 8 bytes long. */
  lemma PaddingLeast(n: nat, q: nat)
    requires (n + q) % 8 == 0
    ensures Padding(n) <= q
  {
  }

  /**
   * What write_record hands to sendall: the header (version 1, the
   * padding length), the content, then that many zero bytes; struct
   * refuses content longer than the 16-bit length field.
   */
  function RecordBytes(rec: Record): (r: Result<bytes, Utils.StructError>)
    ensures r.Ok? <==> |rec.content| <= MaxContentLen
    ensures r.Ok? ==> |r.value| == FcgiHeaderLen + |rec.content| + Padding(|rec.content|) && |r.value| % 8 == 0
  {
    var padding := Padding(|rec.content|);
    match Utils.PackHeader(FcgiVersion, rec.recordType, rec.requestId, |rec.content|, padding)
    case Err(e) => Err(e)
    case Ok(header) => Ok(header + rec.content + Zeros(padding))
  }

  /**
   * What write_record is handed as a record's content: a str, or a slice
   * of the builtin memoryview, which handle_output's slicing loop passes
   * on Python 2.7.
   */
  datatype Content = Str(data: bytes) | View(data: bytes)

  /** Why write_record raises: struct.error from pack, or the TypeError of ''.join for an item that is not a str. */
  datatype WriteFailure = PackFailed | NotAString

  /**
   * The bytes write_record sends for `content` on Python 2.7: pack
   * refuses a length over 0xFFFF first, then ''.join accepts str items
   * only, so a memoryview slice of any length never goes out.
   */
  function ContentBytes(recordType: byte, content: Content, requestId: u16): (r: Result<bytes, WriteFailure>)
    ensures r.Ok? <==> content.Str? && |content.data| <= MaxContentLen
    ensures r.Ok? ==> r.value == RecordBytes(Record(recordType, content.data, requestId)).value
    ensures |content.data| > MaxContentLen ==> r == Err(PackFailed)
  {
    match RecordBytes(Record(recordType, content.data, requestId))
    case Err(_) => Err(PackFailed)
    case Ok(w) => if content.View? then Err(NotAString) else Ok(w)
  }

  /** struct.error for a header of fewer than 8 bytes, or a ProtocolError. */
  datatype ReadError = HeaderShort | Protocol(error: ProtocolError)

  /** What read_record returns, and the bytes it leaves unread. */
  datatype RecordRead = RecordRead(result: Result<Option<Record>, ReadError>, rest: bytes)

  /**
   * read_record over the bytes the peer will still send: None if there
   * are none; struct.error for a partial header; ProtocolError for a
   * version other than 1; else the record, whose content is whatever of
   * content_len bytes arrived, the padding skipped.
   */
  function ParseRecord(avail: bytes): (r: RecordRead)
    ensures |r.rest| <= |avail| && r.rest == avail[|avail| - |r.rest|..]
    ensures r.result == Ok(None) <==> avail == []
  {
    if avail == [] then RecordRead(Ok(None), [])
    else if |avail| < FcgiHeaderLen then RecordRead(Err(HeaderShort), [])
    else
      var h := Utils.UnpackHeader(avail).value;
      var body := avail[FcgiHeaderLen..];
      if h.version != FcgiVersion then RecordRead(Err(Protocol(UnsupportedVersion(h.version))), body)
      else
        var n := if h.contentLength <= |body| then h.contentLength else |body|;
        var after := body[n..];
        var pad := if h.paddingLength <= |after| then h.paddingLength else |after|;
        assert after[pad..] == avail[|avail| - |after[pad..]|..];
        RecordRead(Ok(Some(Record(h.recordType, body[..n], h.requestId))), after[pad..])
  }

  /** A record as write_record sends it is read back whole, padding and all, whatever follows. */
  lemma RecordRoundTrip(rec: Record, rest: bytes)
    requires |rec.content| <= MaxContentLen
    ensures ParseRecord(RecordBytes(rec).value + rest) == RecordRead(Ok(Some(rec)), rest)
  {
    var padding := Padding(|rec.content|);
    var header := Utils.PackHeader(FcgiVersion, rec.recordType, rec.requestId, |rec.content|, padding).value;
    var w := header + rec.content + Zeros(padding) + rest;
    Utils.HeaderRoundTrip(Header(FcgiVersion, rec.recordType, rec.requestId, |rec.content|, padding), rec.content + Zeros(padding) + rest);
    assert w == header + (rec.content + Zeros(padding) + rest);
    var body := w[FcgiHeaderLen..];
    assert body == rec.content + Zeros(padding) + rest;
    assert body[..|rec.content|] == rec.content;
    assert body[|rec.content|..] == Zeros(padding) + rest;
    assert (Zeros(padding) + rest)[padding..] == rest;
  }

  /**
   * A record cut short by the peer closing the connection is accepted
   * with the content that arrived: read_bytes returns short and
   * read_record does not check.
   */
  lemma CutContentAccepted(rec: Record, k: nat)
    requires |rec.content| <= MaxContentLen && k < |rec.content|
    ensures ParseRecord(RecordBytes(rec).value[..FcgiHeaderLen + k])
         == RecordRead(Ok(Some(Record(rec.recordType, rec.content[..k], rec.requestId))), [])
  {
    var padding := Padding(|rec.content|);
    var header := Utils.PackHeader(FcgiVersion, rec.recordType, rec.requestId, |rec.content|, padding).value;
    var w := RecordBytes(rec).value[..FcgiHeaderLen + k];
    assert w == header + rec.content[..k];
    Utils.HeaderRoundTrip(Header(FcgiVersion, rec.recordType, rec.requestId, |rec.content|, padding), rec.content[..k]);
    var body := w[FcgiHeaderLen..];
    assert body == rec.content[..k];
    assert body[..k] == rec.content[..k] && body[k..] == [];
  }

  /**
   * _Connection and ServerConnection over a socket: write_record,
   * read_bytes, read_record and the record slicing of handle_output.
   */
  class Connection {
    const sock: Base.Socket

    constructor(sock: Base.Socket)
      ensures this.sock == sock
    {
      this.sock := sock;
    }

    /** write_record: struct.error for content over 0xFFFF bytes, else the padded record in one sendall. */
    method WriteRecord(rec: Record) returns (e: Option<Utils.StructError>)
      modifies sock
      ensures sock.incoming == old(sock.incoming)
      ensures |rec.content| > MaxContentLen ==> e.Some? && sock.outgoing == old(sock.outgoing)
      ensures |rec.content| <= MaxContentLen ==> e.None? && sock.outgoing == old(sock.outgoing) + RecordBytes(rec).value
    {
      var r := RecordBytes(rec);
      if r.Err? {
        return Some(r.error);
      }
      sock.SendAll(r.value);
      e := None;
    }

    /** read_bytes(num): recv until `num` bytes came or the peer closed; what came, fewer bytes when it closed. */
    method ReadBytes(num: nat) returns (data: bytes)
      modifies sock
      ensures var n := if num <= |old(sock.incoming)| then num else |old(sock.incoming)|;
              data == old(sock.incoming)[..n] && sock.incoming == old(sock.incoming)[n..]
      ensures sock.outgoing == old(sock.outgoing)
    {
      var chunks: seq<bytes> := [];
      var left: nat := num;
      while left > 0
        invariant Join(chunks) + sock.incoming == old(sock.incoming)
        invariant |Join(chunks)| + left == num
        invariant sock.outgoing == old(sock.outgoing)
        decreases left
      {
        var chunk := sock.Recv(left);
        if chunk == [] {
          data := Join(chunks);
          AppendEmpty(data);
          assert old(sock.incoming)[..|data|] == data;
          return;
        }
        JoinAppend(chunks, chunk);
        Assoc(Join(chunks), chunk, sock.incoming);
        left := left - |chunk|;
        chunks := chunks + [chunk];
      }
      data := Join(chunks);
      assert old(sock.incoming)[..|data|] == data && old(sock.incoming)[|data|..] == sock.incoming;
    }

    /** read_record: the record the peer sent next, as ParseRecord describes it, reading no further. */
    method ReadRecord() returns (r: Result<Option<Record>, ReadError>)
      modifies sock
      ensures RecordRead(r, sock.incoming) == ParseRecord(old(sock.incoming))
      ensures sock.outgoing == old(sock.outgoing)
    {
      var header := ReadBytes(FcgiHeaderLen);
      if header == [] {
        return Ok(None);
      }
      var h := Utils.UnpackHeader(header);
      if h.Err? {
        return Err(HeaderShort);
      }
      ghost var avail := old(sock.incoming);
      assert header == avail[..FcgiHeaderLen];
      assert Utils.UnpackHeader(header) == Utils.UnpackHeader(avail);
      var hd := h.value;
      if hd.version != FcgiVersion {
        return Err(Protocol(UnsupportedVersion(hd.version)));
      }
      var content := ReadBytes(hd.contentLength);
      if hd.paddingLength != 0 {
        var _ := ReadBytes(hd.paddingLength);
      }
      return Ok(Some(Record(hd.recordType, content, hd.requestId)));
    }

    /**
     * The body of handle_output's loop for one queued record: content of
     * at most 0xFFFF bytes goes out as that record, even when empty;
     * longer content as consecutive slices of 0xFFFF, the last shorter.
     */
    method SendRecord(rec: Record)
      modifies sock
      ensures sock.incoming == old(sock.incoming)
      ensures sock.outgoing == old(sock.outgoing) + Wire(Sliced(rec))
    {
      var length := |rec.content|;
      if length <= MaxContentLen {
        var _ := WriteRecord(rec);
        AppendEmpty(RecordBytes(rec).value);
        return;
      }
      var offset := 0;
      while offset < length
        invariant offset <= length
        invariant sock.incoming == old(sock.incoming)
        invariant offset < length ==> old(sock.outgoing) + Wire(Sliced(rec)) == sock.outgoing + Wire(Slices(rec, rec.content[offset..]))
        invariant offset >= length ==> old(sock.outgoing) + Wire(Sliced(rec)) == sock.outgoing
        decreases length - offset
      {
        var end := if offset + MaxContentLen < length then offset + MaxContentLen else length;
        SendSlice(rec, rec.content[offset..]);
        if end < length {
          assert rec.content[offset..][MaxContentLen..] == rec.content[end..];
        }
        offset := end;
      }
    }

    /** One write_record of the slicing loop: the first 0xFFFF bytes of what is left, or all of it when shorter. */
    method SendSlice(rec: Record, left: bytes)
      requires left != []
      modifies sock
      ensures sock.incoming == old(sock.incoming)
      ensures sock.outgoing + (if |left| > MaxContentLen then Wire(Slices(rec, left[MaxContentLen..])) else [])
           == old(sock.outgoing) + Wire(Slices(rec, left))
    {
      var first := if |left| <= MaxContentLen then left else left[..MaxContentLen];
      SlicesStep(rec, left);
      var _ := WriteRecord(Record(rec.recordType, first, rec.requestId));
      if |left| > MaxContentLen {
        Assoc(old(sock.outgoing), RecordBytes(Record(rec.recordType, first, rec.requestId)).value, Wire(Slices(rec, left[MaxContentLen..])));
      } else {
        AppendEmpty(sock.outgoing);
      }
    }

    /** write_record on Python 2.7: it raises, sending nothing, unless handed a str of at most 0xFFFF bytes. */
    method WriteContent(recordType: byte, content: Content, requestId: u16) returns (e: Option<WriteFailure>)
      modifies sock
      ensures sock.incoming == old(sock.incoming)
      ensures e.Some? <==> ContentBytes(recordType, content, requestId).Err?
      ensures e.Some? ==> e.value == ContentBytes(recordType, content, requestId).error && sock.outgoing == old(sock.outgoing)
      ensures e.None? ==> sock.outgoing == old(sock.outgoing) + ContentBytes(recordType, content, requestId).value
    {
      var r := ContentBytes(recordType, content, requestId);
      if r.Err? {
        return Some(r.error);
      }
      sock.SendAll(r.value);
      e := None;
    }

    /**
     * handle_output's loop body for one record on Python 2.7, where
     * memoryview is the builtin: content of at most 0xFFFF bytes goes out
     * as that record, but longer content is sliced through memoryview,
     * and the first write_record raises TypeError before sending
     * anything, which ends the slicing loop and handle_output with it.
     */
    method SendRecordBuiltinView(rec: Record) returns (e: Option<WriteFailure>)
      modifies sock
      ensures sock.incoming == old(sock.incoming)
      ensures |rec.content| <= MaxContentLen ==> e.None? && sock.outgoing == old(sock.outgoing) + RecordBytes(rec).value
      ensures |rec.content| > MaxContentLen ==> e == Some(NotAString) && sock.outgoing == old(sock.outgoing)
    {
      var length := |rec.content|;
      if length <= MaxContentLen {
        var _ := WriteRecord(rec);
        return None;
      }
      var offset := 0;
      e := None;
      while offset < length && e.None?
        invariant offset <= length
        invariant sock.incoming == old(sock.incoming) && sock.outgoing == old(sock.outgoing)
        invariant e.None? ==> offset == 0
        invariant e.Some? ==> e == Some(NotAString)
        decreases length - offset
      {
        var end := if offset + MaxContentLen < length then offset + MaxContentLen else length;
        e := WriteContent(rec.recordType, View(rec.content[offset..end]), rec.requestId);
        offset := end;
      }
    }
  }

  /** The bytes write_record sends for each of `recs`, in order. */
  function Wire(recs: seq<Record>): bytes
    requires Base.AllFit(recs)
  {
    if recs == [] then [] else RecordBytes(recs[0]).value + Wire(recs[1..])
  }

  /** Slices of 0xFFFF bytes of `data`, as records of the type and request of `rec`. */
  function Slices(rec: Record, data: bytes): (r: seq<Record>)
    ensures Base.AllFit(r)
  {
    Base.Records(rec.recordType, Split(data, MaxContentLen), rec.requestId)
  }

  /** The records handle_output sends for `rec`. */
  function Sliced(rec: Record): (r: seq<Record>)
    ensures Base.AllFit(r)
  {
    if |rec.content| <= MaxContentLen then [rec] else Slices(rec, rec.content)
  }

  lemma SlicesStep(rec: Record, data: bytes)
    requires data != []
    ensures var first := if |data| <= MaxContentLen then data else data[..MaxContentLen];
            Wire(Slices(rec, data)) == RecordBytes(Record(rec.recordType, first, rec.requestId)).value
              + (if |data| <= MaxContentLen then [] else Wire(Slices(rec, data[MaxContentLen..])))
  {
    if |data| <= MaxContentLen {
      AppendEmpty(RecordBytes(Record(rec.recordType, data, rec.requestId)).value);
    } else {
      var rest := Split(data[MaxContentLen..], MaxContentLen);
      assert Split(data, MaxContentLen) == [data[..MaxContentLen]] + rest;
      assert Slices(rec, data)[1..] == Slices(rec, data[MaxContentLen..]);
    }
  }

  /**
   * handle_output loses nothing: the records it sends for `rec` carry,
   * joined, its content, and each has the type and request of `rec`.
   */
  lemma SlicedKeepsContent(rec: Record)
    ensures Base.Payload(Sliced(rec)) == rec.content
    ensures forall i :: 0 <= i < |Sliced(rec)| ==>
              Sliced(rec)[i].recordType == rec.recordType && Sliced(rec)[i].requestId == rec.requestId
  {
    if |rec.content| <= MaxContentLen {
      assert Sliced(rec)[1..] == [];
      AppendEmpty(rec.content);
    } else {
      Base.PayloadRecords(rec.recordType, Split(rec.content, MaxContentLen), rec.requestId);
    }
  }

  /**
   * Content of 65536 bytes: with the builtin memoryview the first slice
   * handle_output writes cannot be joined, while with slices that are
   * str it goes out as two records, 0xFFFF bytes and then the last one.
   */
  lemma {:induction false} BuiltinViewDropsLongContent(rec: Record)
    requires |rec.content| == 0x1_0000
    ensures ContentBytes(rec.recordType, View(rec.content[..MaxContentLen]), rec.requestId) == Err(NotAString)
    ensures Sliced(rec) == [Record(rec.recordType, rec.content[..MaxContentLen], rec.requestId),
                            Record(rec.recordType, rec.content[MaxContentLen..], rec.requestId)]
  {
    SplitLong(rec.content, MaxContentLen);
    assert Split(rec.content[MaxContentLen..], MaxContentLen) == [rec.content[MaxContentLen..]];
  }
}
