# gevent-fastcgi: the FastCGI wire codec and its buffer plumbing, in Dafny

This project models the byte-level core of gevent-fastcgi, a FastCGI
server for WSGI applications on gevent. It covers three things:

- the name-value pair codec of section 3.4 of the FastCGI Specification.
  The C fast path (`speedups.c`), the pure-Python fallback (`utils.py`)
  and the legacy single-module copy (`gevent_fastcgi.py`) are each proved
  against one reference definition;
- the fixed 8-byte structs: the record header (section 3.3) and the
  FCGI_BEGIN_REQUEST (section 5.1), FCGI_END_REQUEST (section 5.5) and
  FCGI_UNKNOWN_TYPE (section 4.2) bodies;
- the stream plumbing of `base.py`: the buffered reader over `recv`,
  `Connection.write_record` / `read_record`, the FCGI_STDIN input stream,
  and the FCGI_STDOUT / FCGI_STDERR output streams that cut application
  output into records. The legacy `_Connection`, with its 8-byte padding
  and its 0xFFFF slicing in `handle_output`, is modelled as well.

Modules, one per source file, plus shared definitions:

| file | module | models |
|---|---|---|
| `results.dfy` | `Results` | `Option`, `Result` |
| `bytes.dfy` | `Bytes` | bytes, big-endian 16/32-bit fields, `Join`, `Split` into pieces of at most `max` |
| `protocol.dfy` | `Protocol` | the constants of `const.py`, `Header`, `Record` |
| `pairs.dfy` | `Pairs` | the reference pair format: `EncodeLength`, `EncodePairs`, and a cursor decoder `DecodeFrom` that stops at the first short read |
| `speedups.dfy` | `Speedups` | `gevent_fastcgi/speedups.c` |
| `utils.dfy` | `Utils` | `gevent_fastcgi/utils.py` |
| `base.dfy` | `Base` | `gevent_fastcgi/base.py` |
| `legacy.dfy` | `Legacy` | `gevent_fastcgi.py` |

Modelling choices:

- Bytes are `seq<byte>` and lengths are unbounded `nat`s.
- The C code's range limits are written out. Examples: the 0x7fffffff
  length check, the `% 0x1_0000` of the unchecked `H` conversion, and the
  range check of `b`.
- `speedups.c` is imperative, so it becomes methods:
  - `PackLen` and `PackPair` write through a cursor into an `array`, as
    `PACK_LEN` and `memcpy` do;
  - `UnpackPairs` is a `while` loop over a cursor, proved equal to the
    reference decoder.
- `utils.py` is mixed. Its packers are functions. Its `unpack_pairs`
  generator is a method returning the pairs it yields and the ValueError
  it raises, if any.
- `base.py` is classes:
  - a `Socket` holds the peer's pending input and the bytes sent to it.
    Its `recv` and `send` may move fewer bytes than asked, as a real
    socket may;
  - `BufferedReader` keeps the generator's `buf`;
  - `InputStream` keeps the spooled file's contents and position and the
    EOF flag;
  - `OutputStream` keeps `closed`.

  Each method's `ensures` ties the new socket state to a specification
  function: `ParseRecord`, `Wire(records)`, `Chunked(data)`, and so on.
- Exceptions are `Err`/`Some(error)` results with one constructor per
  exception the code raises.
- `FCGI_MAX_CONTENT_LEN` is imported by `base.py` but defined nowhere in
  `gevent_fastcgi/const.py`. It is `Protocol.MaxContentLen = 0xFFFF`, the
  limit of the header's 16-bit content length field and the literal that
  `gevent_fastcgi.py` uses.

Three behaviours of the code that a caller might not expect are modelled
as written:

- The Python `unpack_pairs` is a generator. It hands out the pairs before
  a short one and only then raises, so on failure a partial result *is*
  exposed (`Utils.UnpackPairs`). The C version returns no list.
- The C `pack_header` never writes its reserved byte; it copies whatever
  the allocated memory held (`Speedups.PackHeader`, parameter `reserved`).
  That header codec is not the one `utils.py` exports. Where the byte is
  0, it agrees with the live `struct` codec
  (`Utils.SpeedupsPackHeaderAgrees`).
- The C `pack_header` does not range-check the two 16-bit fields; it
  takes them modulo 2^16.

## Model

| member | source | states |
|---|---|---|
| Pairs.EncodeLength | gevent_fastcgi/speedups.c:88-95 | a length up to 127 is one byte below 0x80; a longer one is four bytes, the first with bit 7 set |
| Pairs.EncodePair | gevent_fastcgi/speedups.c:118-128 | the pair's name length, value length, name and value back to back, at least 2 bytes |
| Pairs.EncodePairs | gevent_fastcgi/utils.py:52-55 | the pairs' encodings joined in order, at least 2 bytes a pair |
| Pairs.DecodeLength | gevent_fastcgi/speedups.c:40-46 | a read prefix moves the cursor by 1 or 4 without passing the end of the buffer and yields at most 0x7fffffff; a short one lacks 1 to 4 bytes |
| Pairs.DecodePair | gevent_fastcgi/speedups.c:63-69 | a pair read at a cursor moves it by at least 2 and never past the end of the buffer |
| Pairs.DecodeFrom | gevent_fastcgi/speedups.c:62-82 | the pairs read from a cursor until the buffer is used up or a pair cannot be read, each taking at least 2 bytes |
| Pairs.Decode | gevent_fastcgi/speedups.c:58-85 | decoding a whole buffer; an empty buffer holds no pairs and no failure |
| Pairs.DecodeEncodeLength | gevent_fastcgi/speedups.c:40-46 | PARSE_LEN reads back exactly the length PACK_LEN wrote, whatever surrounds it |
| Pairs.DecodePairEncoded | gevent_fastcgi/speedups.c:62-69 | an encoded pair anywhere in a buffer is read back at its cursor, which then points just past it |
| Pairs.DecodeEncodedPairs | gevent_fastcgi/speedups.c:62-82 | encoded pairs between two cursors decode to those pairs in order, followed by whatever the bytes after them decode to |
| Pairs.RoundTrip | tests/base/test_utils.py:11-22 | decoding the encoding of any pairs whose lengths fit 31 bits gives the same pairs, in order, with no failure |
| Pairs.TruncatedPairFails | gevent_fastcgi/speedups.c:35-38 | every strict non-empty prefix of one encoded pair at the end of the buffer stops the decoder |
| Pairs.TruncationDetected | gevent_fastcgi/speedups.c:62-82 | without its last byte, an encoded buffer fails to decode, and the pairs read before the failure are exactly all but the last pair |
| Pairs.TruncatedAfter | gevent_fastcgi/speedups.c:62-82 | encoded pairs followed by a cut-short pair decode to the former, then fail |
| Pairs.EncodePairsAppend | gevent_fastcgi/utils.py:52-55 | encoding one more pair appends its encoding |
| Speedups.ParseLen | gevent_fastcgi/speedups.c:40-46 | PARSE_LEN at a cursor is the reference prefix decoder, including the count of missing bytes ENSURE_LEN reports |
| Speedups.ReadPair | gevent_fastcgi/speedups.c:63-69 | one pass of the loop body reads the reference decoder's pair and cursor, or stops where it stops |
| Speedups.UnpackPairs | gevent_fastcgi/speedups.c:48-86 | returns a list exactly when the whole buffer decodes, and then it holds the pairs in order (empty for an empty buffer); otherwise only the number of bytes missing |
| Speedups.PackLen | gevent_fastcgi/speedups.c:88-95 | writes exactly the reference prefix at the cursor, leaves the other bytes of the buffer alone, and advances the cursor by that prefix's length |
| Speedups.PackLens | gevent_fastcgi/speedups.c:123-124 | the two prefixes, name's then value's, fill the start of the buffer |
| Speedups.CopyPayload | gevent_fastcgi/speedups.c:125-126 | name then value fill the buffer from the cursor to its end |
| Speedups.PackPair | gevent_fastcgi/speedups.c:97-132 | refuses a name, then a value, longer than 0x7fffffff; otherwise returns prefix, prefix, name, value, of length nlen + vlen + (nlen > 127 ? 4 : 1) + (vlen > 127 ? 4 : 1) |
| Speedups.PackHeader | gevent_fastcgi/speedups.c:142-163 | fails exactly when version, type or padding is outside 0..255; otherwise 8 bytes whose last is the uninitialised reserved byte |
| Speedups.UnpackHeader | gevent_fastcgi/speedups.c:166-188 | fails exactly on fewer than 8 bytes, reporting 8 and the length passed |
| Speedups.HeaderRoundTrip | gevent_fastcgi/speedups.c:134-139 | unpacking a packed header gives its fields back (the 16-bit ones modulo 2^16), ignoring bytes after the 8th |
| Utils.PackHeader | gevent_fastcgi/utils.py:36 | fails exactly when a field is out of its width; otherwise 8 bytes with a zero pad byte |
| Utils.UnpackHeader | gevent_fastcgi/utils.py:41-49 | fails exactly on fewer than 8 bytes |
| Utils.HeaderRoundTrip | gevent_fastcgi/test/base/test_utils.py:18-23 | every header packs and unpacks to itself, whatever bytes follow it |
| Utils.HeaderRepack | gevent_fastcgi/utils.py:36 | re-packing the fields of 8 bytes gives them back exactly when the pad byte is zero |
| Utils.PackBeginRequest | gevent_fastcgi/utils.py:37 | fails exactly for a role beyond 16 bits or flags beyond 8; otherwise 8 bytes ending in 5 zero bytes |
| Utils.UnpackBeginRequest | gevent_fastcgi/utils.py:41-49 | fails exactly on fewer than 8 bytes |
| Utils.BeginRequestRoundTrip | gevent_fastcgi/test/base/test_utils.py:25-30 | every begin-request body packs and unpacks to itself |
| Utils.BeginRequestRepack | gevent_fastcgi/utils.py:37 | re-packing gives the 8 bytes back exactly when the 5 pad bytes are zero |
| Utils.PackEndRequest | gevent_fastcgi/utils.py:38 | fails exactly for an app status beyond 32 bits or a protocol status beyond 8; otherwise 8 bytes ending in 3 zero bytes |
| Utils.UnpackEndRequest | gevent_fastcgi/utils.py:41-49 | fails exactly on fewer than 8 bytes |
| Utils.EndRequestRoundTrip | gevent_fastcgi/test/base/test_utils.py:32-37 | every end-request body packs and unpacks to itself |
| Utils.EndRequestRepack | gevent_fastcgi/utils.py:38 | re-packing gives the 8 bytes back exactly when the 3 pad bytes are zero |
| Utils.PackUnknownType | gevent_fastcgi/utils.py:39 | fails exactly for a type beyond 8 bits; otherwise the type and 7 zero bytes |
| Utils.UnpackUnknownType | gevent_fastcgi/utils.py:41-49 | fails exactly on fewer than 8 bytes |
| Utils.UnknownTypeRoundTrip | gevent_fastcgi/test/base/test_utils.py:39-43 | every unknown-type body packs and unpacks to itself |
| Utils.SpeedupsPackHeaderAgrees | gevent_fastcgi/speedups.c:142-163 | for in-range fields and a zero reserved byte, the C header bytes are the struct header bytes |
| Utils.SpeedupsUnpackHeaderAgrees | gevent_fastcgi/speedups.c:166-188 | the C and struct header decoders fail on the same buffers and otherwise read the same fields |
| Utils.PackLenEncodes | gevent_fastcgi/utils.py:66-76 | pack_len is the reference prefix for lengths up to 0x7fffffff and raises for longer ones |
| Utils.Be32HighBit | gevent_fastcgi/utils.py:76 | '!L' of l with bit 31 set is the reference 4-byte prefix of l |
| Utils.PackPair | gevent_fastcgi/utils.py:78-83 | the reference encoding of the pair when both lengths fit 31 bits, ValueError otherwise |
| Utils.PackPairs | gevent_fastcgi/utils.py:52-55 | succeeds exactly when every pair fits, and is then the reference encoding of the pairs in order |
| Utils.PackPairsRoundTrip | tests/base/test_utils.py:11-30 | packed pairs unpack to themselves with no error |
| Utils.UnpackLenAgrees | gevent_fastcgi/utils.py:85-95 | unpack_len succeeds exactly where the reference prefix decoder does, with the same length and cursor |
| Utils.Reported | gevent_fastcgi/utils.py:101-109 | a short prefix is 'Buffer is too short', a short payload 'Buffer is N bytes short' with its count; no failure, no error |
| Utils.ReadPair | gevent_fastcgi/utils.py:101-114 | one pass of the loop is the reference decoder's step |
| Utils.UnpackPairs | gevent_fastcgi/utils.py:97-114 | yields the reference decoder's pairs in order and raises the error for its failure, if any |
| Utils.UnpackEitherWay | gevent_fastcgi/utils.py:58-63 | the C and the Python unpack_pairs agree: same pairs when neither fails, failing on the same buffers, with the same short count for a payload |
| Utils.PackThenUnpack | tests/base/test_utils.py:11-30 | pack_pairs succeeds exactly when every length fits, and unpack_pairs then yields the pairs and raises nothing |
| Base.RequestSize | gevent_fastcgi/base.py:100-101 | each read asks for a multiple of buffer_size that covers the shortfall, by less than one buffer more |
| Base.BufferedReader.constructor | gevent_fastcgi/base.py:79-81 | the reader starts with an empty buffer |
| Base.BufferedReader.ReadBytes | gevent_fastcgi/base.py:83-118 | the next `size` bytes in stream order, the surplus kept; no recv when the buffer holds enough; PartialRead with all remaining bytes when the stream ends first, after which the generator is finished |
| Base.RecordBytes | gevent_fastcgi/base.py:143-154 | the header is 8 bytes followed by the content |
| Base.ParseRecord | gevent_fastcgi/base.py:156-180 | a record read leaves at least the 8 header bytes fewer unread |
| Base.RecordRoundTrip | tests/base/test_connection.py:27-42 | a written record is read back as its type, content and request id, whatever follows |
| Base.WireRoundTrip | gevent_fastcgi/base.py:182-183 | iterating a connection reads back every record written, in order, then stops cleanly |
| Base.Connection.constructor | gevent_fastcgi/base.py:132-134 | the connection reads through a fresh buffered reader on its socket |
| Base.Connection.SendAll | gevent_fastcgi/base.py:152-154 | the `sent` loop delivers all of the buffer, in order, however short each send is |
| Base.Connection.WriteRecord | gevent_fastcgi/base.py:136-154 | content over FCGI_MAX_CONTENT_LEN raises and sends nothing; otherwise the header, with padding 0, then the content are sent |
| Base.Connection.ReadRecord | gevent_fastcgi/base.py:156-180 | None at end of stream, PartialRead for a partial header or short content or padding, else the next record, with the reader left just past it |
| Base.InputStream.constructor | gevent_fastcgi/base.py:200-202 | a new stream is empty and before its EOF mark |
| Base.InputStream.Feed | gevent_fastcgi/base.py:204-211 | after the EOF mark, IOError and no change; an empty chunk is the EOF mark and rewinds; other data is appended |
| Base.InputStream.Read | gevent_fastcgi/base.py:217-219 | after EOF, the next `size` bytes, or all the rest for a negative or too large size |
| Base.FeedThenRead | tests/base/test_input_stream.py:24-35 | after feeding chunks and the EOF mark, read() returns every byte fed, in order, and a further feed raises |
| Base.OutputStream.Stdout | gevent_fastcgi/base.py:309-311 | a new FCGI_STDOUT stream of the request, open |
| Base.OutputStream.Stderr | gevent_fastcgi/base.py:330-332 | a new FCGI_STDERR stream of the request, open |
| Base.OutputStream.Chunked | gevent_fastcgi/base.py:255-266 | the records write sends all fit a record |
| Base.OutputStream.Write | gevent_fastcgi/base.py:243-266 | IOError once closed; otherwise the data goes out as Chunked(data): nothing for no data, one record if it fits, else consecutive full slices and a shorter last one |
| Base.OutputStream.SendFirst | gevent_fastcgi/base.py:261-266 | one pass of write's loop sends the first slice of what is left |
| Base.OutputStream.WriteKeepsData | tests/base/test_output_stream.py:62-75 | the records write sends carry, joined, exactly the data |
| Base.OutputStream.Close | gevent_fastcgi/base.py:302-306 | the first close sends exactly one empty record; later ones send nothing; the stream is closed |
| Base.OutputStream.WriteLines | gevent_fastcgi/base.py:268-297 | IOError once closed; otherwise, as written, the records of LinesContents(lines) in order up to the first too long for write_record, whose ValueError ends the call |
| Base.OutputStream.TakeLine | gevent_fastcgi/base.py:278-293 | one pass of the loop moves the batch state one line on, or stops at a record write_record refuses |
| Base.OutputStream.FlushLines | gevent_fastcgi/base.py:295-297 | the last record, for what is left in `buf`, is sent if there is any and it fits |
| Base.OutputStream.WriteLinesKeepsData | tests/base/test_output_stream.py:77-90 | as written, when nothing is refused, the records carry, joined, the joined lines |
| Base.BatchedKeepsData | gevent_fastcgi/base.py:278-297 | the loop's records and its `buf` hold, joined, the joined lines: no byte lost, none reordered |
| Base.Take | gevent_fastcgi/base.py:278-293 | one line of the loop appends at most one record to those sent, keeps the earlier ones, and keeps `remainder` between 1 and FCGI_MAX_CONTENT_LEN |
| Base.Batched | gevent_fastcgi/base.py:275-293 | after the loop, at most one record per line has been sent and `remainder` is between 1 and FCGI_MAX_CONTENT_LEN |
| Base.LinesContents | gevent_fastcgi/base.py:275-297 | the records writelines sends, as written: the loop's, then one for a non-empty `buf`; none for no lines, at most one more than there are lines |
| Base.NonEmpty | gevent_fastcgi/base.py:324-327 | the lines StdoutStream.writelines sends one record each for: the non-empty ones, in order |
| Base.LinesContentsKeepData | gevent_fastcgi/base.py:268-297 | the contents of all records writelines produces, joined, are the joined lines |
| Base.FullLineSendsEmptyRecord | gevent_fastcgi/base.py:285-290 | one line of exactly FCGI_MAX_CONTENT_LEN bytes gives that record, then an empty one |
| Base.LongLineSendsOversizedRecord | gevent_fastcgi/base.py:289-290 | one line of three records' worth gives a full record, then one of two records' worth, which write_record refuses |
| Base.OutputStream.WriteLinesFixed | gevent_fastcgi/base.py:268-297 | corrected: never raises once open, and sends exactly what write(b''.join(lines)) sends |
| Base.OutputStream.WriteEachLine | gevent_fastcgi/base.py:318-327 | IOError once closed; otherwise, as written, one record per non-empty line, in order, up to the first line too long, whose ValueError ends the call |
| Base.OutputStream.SendLine | gevent_fastcgi/base.py:324-327 | one pass of the loop sends the line's record, skips an empty line, or stops at a line write_record refuses |
| Base.LongLineRefused | gevent_fastcgi/base.py:324-327 | a line longer than one record is refused at once |
| Base.OutputStream.ChunkedEach | gevent_fastcgi/base.py:324-327 | the records of writing each line on its own all fit |
| Base.OutputStream.WriteEachLineFixed | gevent_fastcgi/base.py:318-327 | corrected: never raises once open, and sends write(line) for each line in order |
| Base.OutputStream.EachLineKeepsData | gevent_fastcgi/base.py:324-327 | the records of writing line by line carry, joined, the joined lines |
| Base.OutputStream.StdoutWriteLines | gevent_fastcgi/base.py:313-327 | a list or tuple goes out as one run of data; any other iterable goes out line by line; both corrected |
| Legacy.PackLength | gevent_fastcgi.py:120-122 | below 128 the one-byte prefix; up to 2^32 - 1 four big-endian bytes of the plain length, no bit marking the form; struct.error beyond |
| Legacy.PackPairs | gevent_fastcgi.py:119-126 | one item per pair, in order, unless a length is refused |
| Legacy.ShortPairsEncode | gevent_fastcgi.py:119-126 | with every length below 128, the joined items are the reference encoding |
| Legacy.ShortPairsRoundTrip | gevent_fastcgi.py:122 | with every length below 128, the items decode back to the pairs |
| Legacy.LongNameMisread | gevent_fastcgi.py:122 | a 128-byte name packs to 00 00 00 80 00 and the name, which decodes to an empty pair and then a failure 24803 bytes short |
| Legacy.PackPairsFixed | gevent_fastcgi.py:119-126 | corrected: succeeds exactly when every length fits 31 bits, one item per pair, joined the reference encoding |
| Legacy.FixedRoundTrip | gevent_fastcgi.py:119-126 | corrected: every encodable pair list packs and decodes back to itself |
| Legacy.StringStream.constructor | gevent_fastcgi.py:153-154 | a byte string is wrapped in a stream positioned at its start |
| Legacy.StringStream.Read | gevent_fastcgi.py:136 | read(n) returns up to n bytes from the position and moves past them |
| Legacy.ReadLen | gevent_fastcgi.py:135-145 | None at end of input; otherwise the reference prefix decoder's length and cursor, or ProtocolError when the 4-byte form is cut short |
| Legacy.ReadStr | gevent_fastcgi.py:147-151 | exactly `l` bytes from the position, or ProtocolError when fewer remain |
| Legacy.ReadPair | gevent_fastcgi.py:156-163 | None at end of input, else the reference decoder's pair and cursor, or a ProtocolError that is the short-string one exactly for a short payload |
| Legacy.UnpackPairs | gevent_fastcgi.py:133-163 | yields the reference decoder's pairs from the cursor, in order, and raises exactly when it fails; a short name or value as 'Failed to read' |
| Legacy.UnpackBytes | gevent_fastcgi.py:153-154 | on a byte string, the pairs of the whole buffer; nothing for an empty one |
| Legacy.Padding | gevent_fastcgi.py:295 | the padding is below 8 and makes content plus padding a multiple of 8 |
| Legacy.PaddingLeast | gevent_fastcgi.py:295 | no smaller padding makes the length a multiple of 8 |
| Legacy.RecordBytes | gevent_fastcgi.py:292-297 | struct.error exactly for content over 0xFFFF; otherwise header, content and padding, a multiple of 8 bytes |
| Legacy.ParseRecord | gevent_fastcgi.py:309-328 | None exactly when no bytes remain; what is left unread is a suffix of the input |
| Legacy.RecordRoundTrip | gevent_fastcgi.py:292-322 | a written record, padding and all, is read back as itself, whatever follows |
| Legacy.CutContentAccepted | gevent_fastcgi.py:318-322 | a record whose content is cut short by the end of the stream is accepted with the content that arrived |
| Legacy.Connection.constructor | gevent_fastcgi.py:289-290 | the connection keeps its socket |
| Legacy.Connection.WriteRecord | gevent_fastcgi.py:292-297 | struct.error and nothing sent for content over 0xFFFF; otherwise the padded record in one sendall |
| Legacy.Connection.ReadBytes | gevent_fastcgi.py:299-307 | the next `num` bytes in order, or all that remained when the peer closed first |
| Legacy.Connection.ReadRecord | gevent_fastcgi.py:309-324 | the record ParseRecord describes, the socket left just past what it read |
| Legacy.Connection.SendRecord | gevent_fastcgi.py:439-447 | corrected, and as written with the pre-2.7 `memoryview` of lines 46-51: content up to 0xFFFF goes out as the record; longer content as consecutive 0xFFFF slices, the last shorter |
| Legacy.Connection.SendSlice | gevent_fastcgi.py:445-447 | one pass of the slicing loop sends the first slice of what is left |
| Legacy.Slices | gevent_fastcgi.py:443-447 | the slices all fit a record |
| Legacy.Sliced | gevent_fastcgi.py:439-447 | every record handle_output sends fits a record |
| Legacy.SlicedKeepsContent | gevent_fastcgi.py:439-447 | the slices carry, joined, the content, each with the record's type and request id |
| Legacy.ContentBytes | gevent_fastcgi.py:292-297 | on Python 2.7, struct.error for content over 0xFFFF, else TypeError for a memoryview slice; a str goes out as RecordBytes has it |
| Legacy.Connection.WriteContent | gevent_fastcgi.py:292-297 | write_record on Python 2.7 sends what ContentBytes describes, or raises and sends nothing |
| Legacy.Connection.SendRecordBuiltinView | gevent_fastcgi.py:439-447 | as written on Python 2.7: content up to 0xFFFF goes out as the record; longer content raises TypeError at its first slice, with nothing sent |
| Legacy.BuiltinViewDropsLongContent | gevent_fastcgi.py:439-447 | for 65536 bytes of content the first memoryview slice is refused, where str slices would be two records of 0xFFFF bytes and 1 byte |

## Left out

- Sockets are the `Base.Socket` class, with the peer's pending input and the bytes sent to it as sequences. Blocking, timeouts, `socket.error`, `shutdown` (`Connection.done_writing`) and `close` are not modelled.
- `_Connection.read_record` in `gevent_fastcgi.py` catches `socket.error`, closes and returns None. The model's socket never fails, so that branch is not modelled.
- Greenlets, queues and `Event`: the exit logic of `handle_output` and the blocking of `InputStream.read` until EOF are not modelled. The EOF mark is a precondition of `Base.InputStream.Read`.
- `SpooledTemporaryFile` spilling to disk is not modelled. The file is its contents and position.
- `InputStream.readline`, `readlines` and `__iter__` are not modelled: they split the file's contents into lines, and only `read` is part of this model. The `eof_received` property is the `eof` field.
- `OutputStream.flush` does nothing, and `Record.__str__` only formats text; neither is modelled.
- ISO-8859-1 encoding of text arguments is not modelled: names, values and contents are bytes.
- The Python glue of `speedups.c` is not modelled: reference counts, `PyArg_ParseTuple`, `Py_BuildValue` allocation failure, `PyMem_Free` and module init.
- `_speedups.c` is not part of this model. It is a superseded draft whose 4-byte length formula is undefined behaviour.
- `const.py` supplies constants only. `gevent_fastcgi/server.py`, `wsgi.py`, `client.py`, the adapters and `interfaces.py` are glue and I/O, not codec.
- The legacy `InputStream`, `OutputStream`, `WSGIServer`, `ServerConnection.run` and `ClientConnection` are not modelled.
- Record type and request id are typed `byte` and `u16` in `Protocol.Record`. So the `struct.error` that `write_record` raises for an out-of-range type or id is not modelled.
- Base.Connection.ReadRecord: a record whose content length is 0 has the empty byte string as content, where the source's is the text `''`.
- Legacy.ReadPair: states only whether the ProtocolError is the short-string one. It does not say which of 'Failed to read name length' and 'Failed to read value length' a short length prefix raises.
- Legacy.UnpackPairs: the same weakening as `Legacy.ReadPair` for the error raised.
- Legacy.UnpackBytes: states only whether an error is raised, not which one.
- Legacy.ParseRecord: its own contract only bounds what is left unread. The record it reads is stated by `Legacy.RecordRoundTrip` and `Legacy.CutContentAccepted`.
- Base.ParseRecord: its own contract only bounds what is left unread. The record it reads is stated by `Base.RecordRoundTrip` and `Base.WireRoundTrip`.
- Legacy.Connection.SendRecord: models `handle_output` with `memoryview` as the pre-2.7 identity function of `gevent_fastcgi.py` lines 46-51, under which each slice is a str. With the builtin `memoryview` of Python 2.7 the slices are refused, which `Legacy.Connection.SendRecordBuiltinView` models (see Findings). That the output greenlet then ends without calling `close()` is not modelled.
- Base.OutputStream.WriteLines, Base.OutputStream.TakeLine, Base.OutputStream.FlushLines: model the `''.join(buf)` of `base.py` lines 287 and 296 as Python 2 has it, joining byte strings. Python 3 text lines, after the ISO-8859-1 encoding left out above, come to the same bytes. Python 3 also raises TypeError for `''.join` over byte lines; that is not modelled. The same holds for `Base.BatchedKeepsData` and `Base.LinesContents`.
- Speedups.ReadPair: assumes a 64-bit `Py_ssize_t`, where `nlen + vlen` at `speedups.c` line 65 cannot overflow, as each length is at most 0x7fffffff. With a 32-bit `Py_ssize_t` the input `ff ff ff ff ff ff ff ff` overflows that sum, which is undefined behaviour, and `ENSURE_LEN` no longer keeps the reads inside the buffer. That is not modelled.
- Speedups.UnpackPairs: the same 64-bit `Py_ssize_t` assumption as `Speedups.ReadPair`.

## Findings

| source | as written | input that shows it | evidently intended | confidence | as-written member | corrected member |
|---|---|---|---|---|---|---|
| gevent_fastcgi/base.py:285-290 | a line that exactly fills the remaining space completes a record and leaves an empty string in `buf`, so an empty record is sent, and an empty FCGI_STDOUT record marks the end of the stream | `writelines([b'\0' * 65535])` sends a full record, then an empty one | no empty record; the data goes out as `write(b''.join(lines))` would send it | not executed | Base.FullLineSendsEmptyRecord | Base.OutputStream.WriteLinesFixed |
| gevent_fastcgi/base.py:289-290 | the leftover of a long line is kept whole in `buf` while `remainder` is reset to the full record size, so the next record can exceed FCGI_MAX_CONTENT_LEN and `write_record` raises ValueError | `writelines([b'\0' * (3 * 65535)])` sends one record, then fails on a 131070-byte one | records of at most FCGI_MAX_CONTENT_LEN, carrying every byte | not executed | Base.LongLineSendsOversizedRecord | Base.OutputStream.WriteLinesFixed |
| gevent_fastcgi/base.py:324-327 | on a non-list iterable, each non-empty line is one record, so a line over FCGI_MAX_CONTENT_LEN makes `write_record` raise ValueError | `writelines(iter([b'\0' * 65536]))` on a StdoutStream | each line sent as `write(line)` sends it, in slices | not executed | Base.LongLineRefused | Base.OutputStream.WriteEachLineFixed |
| gevent_fastcgi.py:122 | lengths of 128 and more are packed with '!L' and no top bit, so the decoder takes the first byte, 0x00, as a one-byte length | a pair with a 128-byte name: its own `unpack_pairs` reads an empty pair, then fails | the 4-byte form with bit 31 set, as section 3.4 of the FastCGI Specification and `utils.pack_len` have it | not executed | Legacy.LongNameMisread | Legacy.PackPairsFixed |
| gevent_fastcgi.py:439-447 | content over 0xFFFF bytes is sliced through `memoryview` and each slice is handed to `write_record`, whose `''.join` at line 297 takes only str items; from Python 2.7 on, `memoryview` is the builtin, whose slices are not str | a record with 65536 bytes of content: TypeError at its first slice, nothing sent, and the output greenlet ends | each slice sent as its own record, as with the pre-2.7 `memoryview` of lines 46-51 | not executed | Legacy.Connection.SendRecordBuiltinView, Legacy.BuiltinViewDropsLongContent | Legacy.Connection.SendRecord, Legacy.SlicedKeepsContent |
