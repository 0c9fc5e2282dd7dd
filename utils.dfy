/**
 * gevent_fastcgi/utils.py: the struct codecs of the fixed-size record
 * parts (pack_X = Struct.pack, unpack_X = Struct.unpack_from), pack_pairs,
 * and the pure-Python fallback pack_len/pack_pair/unpack_len/unpack_pairs
 * used when speedups cannot be imported.
 */
module Utils {
  import opened Results
  import opened Bytes
  import opened Pairs
  import opened Protocol
  import Speedups

  // ---------------------------------------------------------------------
  // The struct codecs

  /** struct.error: an argument out of range for its format code, or a buffer shorter than the struct. */
  datatype StructError = StructError

  predicate IsByte(x: int) { 0 <= x < 0x100 }
  predicate IsU16(x: int) { 0 <= x < 0x1_0000 }
  predicate IsU32(x: int) { 0 <= x < 0x1_0000_0000 }

  /** header_struct.pack, format '!BBHHBx': two bytes, two big-endian shorts, a byte and a zero pad byte. */
  function PackHeader(version: int, recordType: int, requestId: int, contentLength: int, paddingLength: int)
    : (r: Result<bytes, StructError>)
    ensures r.Ok? <==> IsByte(version) && IsByte(recordType) && IsU16(requestId) && IsU16(contentLength) && IsByte(paddingLength)
    ensures r.Ok? ==> |r.value| == FcgiHeaderLen && r.value[7] == 0
  {
    if !(IsByte(version) && IsByte(recordType) && IsU16(requestId) && IsU16(contentLength) && IsByte(paddingLength))
    then Err(StructError)
    else Ok([version, recordType] + Be16(requestId) + Be16(contentLength) + [paddingLength] + Zeros(1))
  }

  /** header_struct.unpack_from: the fields of the first 8 bytes; the pad byte and any later bytes are not read. */
  function UnpackHeader(buf: bytes): (r: Result<Header, StructError>)
    ensures r.Ok? <==> |buf| >= FcgiHeaderLen
  {
    if |buf| < FcgiHeaderLen then Err(StructError)
    else Ok(Header(buf[0], buf[1], Be16Value(buf, 2), Be16Value(buf, 4), buf[6]))
  }

  /** A packed header unpacks to its fields, whatever follows it. */
  lemma HeaderRoundTrip(h: Header, rest: bytes)
    ensures PackHeader(h.version, h.recordType, h.requestId, h.contentLength, h.paddingLength).Ok?
    ensures UnpackHeader(PackHeader(h.version, h.recordType, h.requestId, h.contentLength, h.paddingLength).value + rest)
         == Ok(h)
  {
    var b := PackHeader(h.version, h.recordType, h.requestId, h.contentLength, h.paddingLength).value + rest;
    assert b[2..4] == Be16(h.requestId);
    assert b[4..6] == Be16(h.contentLength);
  }

  /** Re-packing the fields of 8 bytes gives those 8 bytes back exactly when their pad byte is zero. */
  lemma HeaderRepack(buf: bytes)
    requires |buf| >= FcgiHeaderLen
    ensures var h := UnpackHeader(buf).value;
            PackHeader(h.version, h.recordType, h.requestId, h.contentLength, h.paddingLength) == Ok(buf[..8])
            <==> buf[7] == 0
  {
    Be16Bytes(buf, 2);
    Be16Bytes(buf, 4);
    var h := UnpackHeader(buf).value;
    var p := PackHeader(h.version, h.recordType, h.requestId, h.contentLength, h.paddingLength).value;
    if buf[7] == 0 {
      assert p == buf[..8];
    }
  }

  /** The body of an FCGI_BEGIN_REQUEST record (section 5.1 of the FastCGI Specification). */
  datatype BeginRequestBody = BeginRequestBody(role: u16, flags: byte)

  /** begin_request_struct.pack, format '!HB5x'. */
  function PackBeginRequest(role: int, flags: int): (r: Result<bytes, StructError>)
    ensures r.Ok? <==> IsU16(role) && IsByte(flags)
    ensures r.Ok? ==> |r.value| == 8 && r.value[3..] == Zeros(5)
  {
    if !(IsU16(role) && IsByte(flags)) then Err(StructError)
    else Ok(Be16(role) + [flags] + Zeros(5))
  }

  /** begin_request_struct.unpack_from. */
  function UnpackBeginRequest(buf: bytes): (r: Result<BeginRequestBody, StructError>)
    ensures r.Ok? <==> |buf| >= 8
  {
    if |buf| < 8 then Err(StructError) else Ok(BeginRequestBody(Be16Value(buf, 0), buf[2]))
  }

  lemma BeginRequestRoundTrip(b: BeginRequestBody, rest: bytes)
    ensures PackBeginRequest(b.role, b.flags).Ok?
    ensures UnpackBeginRequest(PackBeginRequest(b.role, b.flags).value + rest) == Ok(b)
  {
    var buf := PackBeginRequest(b.role, b.flags).value + rest;
    assert buf[0..2] == Be16(b.role);
  }

  lemma BeginRequestRepack(buf: bytes)
    requires |buf| >= 8
    ensures var b := UnpackBeginRequest(buf).value;
            PackBeginRequest(b.role, b.flags) == Ok(buf[..8]) <==> buf[3..8] == Zeros(5)
  {
    Be16Bytes(buf, 0);
    var b := UnpackBeginRequest(buf).value;
    var p := PackBeginRequest(b.role, b.flags).value;
    if buf[3..8] == Zeros(5) {
      assert p == buf[..8];
    } else {
      assert p[3..8] != buf[..8][3..8];
    }
  }

  /** The body of an FCGI_END_REQUEST record (section 5.5 of the FastCGI Specification). */
  datatype EndRequestBody = EndRequestBody(appStatus: u32, protocolStatus: byte)

  /** end_request_struct.pack, format '!LB3x'. */
  function PackEndRequest(appStatus: int, protocolStatus: int): (r: Result<bytes, StructError>)
    ensures r.Ok? <==> IsU32(appStatus) && IsByte(protocolStatus)
    ensures r.Ok? ==> |r.value| == 8 && r.value[5..] == Zeros(3)
  {
    if !(IsU32(appStatus) && IsByte(protocolStatus)) then Err(StructError)
    else Ok(Be32(appStatus) + [protocolStatus] + Zeros(3))
  }

  /** end_request_struct.unpack_from. */
  function UnpackEndRequest(buf: bytes): (r: Result<EndRequestBody, StructError>)
    ensures r.Ok? <==> |buf| >= 8
  {
    if |buf| < 8 then Err(StructError) else Ok(EndRequestBody(Be32Value(buf, 0), buf[4]))
  }

  lemma EndRequestRoundTrip(e: EndRequestBody, rest: bytes)
    ensures PackEndRequest(e.appStatus, e.protocolStatus).Ok?
    ensures UnpackEndRequest(PackEndRequest(e.appStatus, e.protocolStatus).value + rest) == Ok(e)
  {
    var buf := PackEndRequest(e.appStatus, e.protocolStatus).value + rest;
    assert buf[0..4] == Be32(e.appStatus);
    assert Be32Value(buf, 0) == Be32Value(Be32(e.appStatus), 0);
  }

  lemma EndRequestRepack(buf: bytes)
    requires |buf| >= 8
    ensures var e := UnpackEndRequest(buf).value;
            PackEndRequest(e.appStatus, e.protocolStatus) == Ok(buf[..8]) <==> buf[5..8] == Zeros(3)
  {
    Be32Bytes(buf, 0);
    var e := UnpackEndRequest(buf).value;
    var p := PackEndRequest(e.appStatus, e.protocolStatus).value;
    if buf[5..8] == Zeros(3) {
      assert p == buf[..8];
    } else {
      assert p[5..8] != buf[..8][5..8];
    }
  }

  /** unknown_type_struct.pack, format '!B7x': the body of an FCGI_UNKNOWN_TYPE record (section 4.2). */
  function PackUnknownType(recordType: int): (r: Result<bytes, StructError>)
    ensures r.Ok? <==> IsByte(recordType)
    ensures r.Ok? ==> |r.value| == 8 && r.value[1..] == Zeros(7)
  {
    if !IsByte(recordType) then Err(StructError) else Ok([recordType] + Zeros(7))
  }

  /** unknown_type_struct.unpack_from. */
  function UnpackUnknownType(buf: bytes): (r: Result<byte, StructError>)
    ensures r.Ok? <==> |buf| >= 8
  {
    if |buf| < 8 then Err(StructError) else Ok(buf[0])
  }

  lemma UnknownTypeRoundTrip(t: byte, rest: bytes)
    ensures PackUnknownType(t).Ok?
    ensures UnpackUnknownType(PackUnknownType(t).value + rest) == Ok(t)
  {
  }

  // ---------------------------------------------------------------------
  // The header codec of speedups.c against the struct codec

  /**
   * In the struct's ranges, the C pack_header with its reserved byte zero
   * lays out the same 8 bytes as header_struct.pack.
   */
  lemma SpeedupsPackHeaderAgrees(version: int, recordType: int, requestId: int, contentLength: int, paddingLength: int)
    requires PackHeader(version, recordType, requestId, contentLength, paddingLength).Ok?
    ensures Speedups.PackHeader(version, recordType, requestId, contentLength, paddingLength, 0)
         == Ok(PackHeader(version, recordType, requestId, contentLength, paddingLength).value)
  {
    var a := [version, recordType] + Be16(requestId) + Be16(contentLength);
    assert requestId % 0x1_0000 == requestId && contentLength % 0x1_0000 == contentLength;
    assert [paddingLength] + Zeros(1) == [paddingLength, 0];
    Assoc(a, [paddingLength], Zeros(1));
  }

  /** The C unpack_header reads the same fields as header_struct.unpack_from, and fails on the same buffers. */
  lemma SpeedupsUnpackHeaderAgrees(buf: bytes)
    ensures Speedups.UnpackHeader(buf).Ok? <==> UnpackHeader(buf).Ok?
    ensures UnpackHeader(buf).Ok? ==> Speedups.UnpackHeader(buf).value == UnpackHeader(buf).value
  {
  }

  // ---------------------------------------------------------------------
  // pack_len, pack_pair, pack_pairs

  /** ValueError('Maximum name or value length is 2147483647'). */
  datatype TooLong = TooLong

  /**
   * pack_len: a length below 128 is one byte; one above 0x7fffffff is
   * refused; any other is struct '!L' of the length with bit 31 set
   * (`l | 0x80000000`, which for l < 2^31 is l + 2^31).
   */
  function PackLen(s: bytes): Result<bytes, TooLong>
  {
    var l := |s|;
    if l < 128 then Ok([l])
    else if l > 0x7fff_ffff then Err(TooLong)
    else Ok(Be32(l + 0x8000_0000))
  }

  /** pack_len is the length prefix of the format, refusing exactly the lengths it cannot carry. */
  lemma PackLenEncodes(s: bytes)
    ensures PackLen(s) == if |s| <= MaxLength then Ok(EncodeLength(|s|)) else Err(TooLong)
  {
    var l := |s|;
    if 128 <= l <= MaxLength {
      Be32HighBit(l);
    }
  }

  /** '!L' of a 31-bit length with bit 31 set is the 4-byte prefix of the format. */
  lemma Be32HighBit(l: nat)
    requires 128 <= l <= MaxLength
    ensures Be32(l + 0x8000_0000) == EncodeLength(l)
  {
    var x := l + 0x8000_0000;
    HighHalf(l);
    HighHalfBytes(l / 0x1_0000);
    TopByte(l);
    LowHalfBytes(l);
    assert Be16(x / 0x1_0000) == [0x80 + l / 0x100_0000, (l / 0x1_0000) % 0x100];
    assert Be16(x % 0x1_0000) == [(l / 0x100) % 0x100, l % 0x100];
  }

  lemma HighHalf(l: nat)
    requires l <= MaxLength
    ensures (l + 0x8000_0000) / 0x1_0000 == 0x8000 + l / 0x1_0000
    ensures (l + 0x8000_0000) % 0x1_0000 == l % 0x1_0000
  {
  }

  lemma HighHalfBytes(h: nat)
    requires h < 0x8000
    ensures (0x8000 + h) / 0x100 == 0x80 + h / 0x100 && (0x8000 + h) % 0x100 == h % 0x100
  {
  }

  lemma TopByte(l: nat)
    ensures (l / 0x1_0000) / 0x100 == l / 0x100_0000
  {
  }

  lemma LowHalfBytes(l: nat)
    ensures (l % 0x1_0000) / 0x100 == (l / 0x100) % 0x100 && (l % 0x1_0000) % 0x100 == l % 0x100
  {
  }

  /** pack_pair on byte strings: both prefixes, then the name and the value. */
  function PackPair(name: bytes, value: bytes): (r: Result<bytes, TooLong>)
    ensures r == if Encodable(Pair(name, value)) then Ok(EncodePair(Pair(name, value))) else Err(TooLong)
  {
    PackLenEncodes(name);
    PackLenEncodes(value);
    match PackLen(name)
    case Err(e) => Err(e)
    case Ok(ln) =>
      match PackLen(value)
      case Err(e) => Err(e)
      case Ok(lv) => Ok(ln + lv + name + value)
  }

  /**
   * pack_pairs over a sequence of pairs: the join of pack_pair of each,
   * in order; the first pair that cannot be packed raises.
   */
  function PackPairs(ps: seq<Pair>): (r: Result<bytes, TooLong>)
    ensures r.Ok? <==> AllEncodable(ps)
    ensures r.Ok? ==> r.value == EncodePairs(ps)
  {
    if ps == [] then Ok([])
    else
      match PackPair(ps[0].name, ps[0].value)
      case Err(e) => Err(e)
      case Ok(head) =>
        match PackPairs(ps[1..])
        case Err(e) => Err(e)
        case Ok(tail) =>
          assert AllEncodable(ps) by {
            forall i | 0 <= i < |ps| ensures Encodable(ps[i]) {
              if i > 0 { assert ps[i] == ps[1..][i - 1]; }
            }
          }
          Ok(head + tail)
  }

  /** Packed pairs decode to themselves: the round trip of the module's tests. */
  lemma PackPairsRoundTrip(ps: seq<Pair>)
    requires AllEncodable(ps)
    ensures PackPairs(ps).Ok? && Decode(PackPairs(ps).value) == Decoded(ps, None)
  {
    RoundTrip(ps);
  }

  // ---------------------------------------------------------------------
  // unpack_len, unpack_pairs

  /** unpack_len's failures: buf[pos] past the end (IndexError), or fewer than 4 bytes for '!L' (struct.error). */
  datatype LenError = IndexError | StructShort

  /**
   * unpack_len: the byte at `pos`; if its bit 7 is set, '!L' at `pos`
   * masked with 0x7fffffff and the cursor advanced by 4, else by 1.
   */
  function UnpackLen(buf: bytes, pos: nat): Result<(nat, nat), LenError>
    requires pos <= |buf|
  {
    if pos >= |buf| then Err(IndexError)
    else if buf[pos] >= 0x80 then
      if pos + 4 > |buf| then Err(StructShort) else Ok((Be32Value(buf, pos) % 0x8000_0000, pos + 4))
    else Ok((buf[pos], pos + 1))
  }

  /** unpack_len reads the same prefix as the format's decoder, and fails where it finds the prefix short. */
  lemma UnpackLenAgrees(buf: bytes, pos: nat)
    requires pos <= |buf|
    ensures UnpackLen(buf, pos).Ok? <==> DecodeLength(buf, pos).Length?
    ensures UnpackLen(buf, pos).Ok? ==>
              UnpackLen(buf, pos).value == (DecodeLength(buf, pos).value, DecodeLength(buf, pos).next)
  {
    if pos < |buf| && buf[pos] >= 0x80 && pos + 4 <= |buf| {
      var b0, b1, b2, b3 := buf[pos] as int, buf[pos + 1] as int, buf[pos + 2] as int, buf[pos + 3] as int;
      assert Be32Value(buf, pos) == b0 * 0x100_0000 + b1 * 0x1_0000 + b2 * 0x100 + b3;
      assert Be32Value(buf, pos) == (b0 - 0x80) * 0x100_0000 + b1 * 0x1_0000 + b2 * 0x100 + b3 + 0x8000_0000;
    }
  }

  /** The ValueErrors unpack_pairs raises: 'Buffer is too short' for a prefix, 'Buffer is N bytes short' for a payload. */
  datatype UnpackError = BufferTooShort | BytesShort(missing: nat)

  /** The error unpack_pairs raises for the failure the format's decoder stops at. */
  function Reported(f: Option<Failure>): (r: Option<UnpackError>)
    ensures r.None? <==> f.None?
  {
    match f
    case None => None
    case Some(PrefixShort(_)) => Some(BufferTooShort)
    case Some(PayloadShort(m)) => Some(BytesShort(m))
  }

  /**
   * One pass of unpack_pairs' loop body: the two unpack_len calls (their
   * IndexError or struct.error caught), the check that name_len +
   * value_len bytes remain, and the slices.
   */
  method ReadPair(data: bytes, pos: nat) returns (s: Step)
    requires pos <= |data|
    ensures s == DecodePair(data, pos)
  {
    UnpackLenAgrees(data, pos);
    var nameLen := UnpackLen(data, pos);
    if nameLen.Err? {
      return Stop(PrefixShort(DecodeLength(data, pos).missing));
    }
    var (n, p) := nameLen.value;
    UnpackLenAgrees(data, p);
    var valueLen := UnpackLen(data, p);
    if valueLen.Err? {
      return Stop(PrefixShort(DecodeLength(data, p).missing));
    }
    var (v, q) := valueLen.value;
    if |data| - q < n + v {
      return Stop(PayloadShort(n + v - (|data| - q)));
    }
    var name := data[q..q + n];
    q := q + n;
    var value := data[q..q + v];
    q := q + v;
    return Next(Pair(name, value), q);
  }

  /**
   * unpack_pairs, a generator: the pairs it yields before it stops, and
   * the ValueError it then raises, if any.
   */
  method UnpackPairs(data: bytes) returns (yielded: seq<Pair>, error: Option<UnpackError>)
    ensures yielded == Decode(data).pairs
    ensures error == Reported(Decode(data).failure)
  {
    var pos := 0;
    yielded := [];
    assert [] + Decode(data).pairs == Decode(data).pairs;
    while pos < |data|
      invariant pos <= |data|
      invariant Decode(data).pairs == yielded + DecodeFrom(data, pos).pairs
      invariant Decode(data).failure == DecodeFrom(data, pos).failure
      decreases |data| - pos
    {
      var step := ReadPair(data, pos);
      if step.Stop? {
        DecodeFromStop(data, pos, step.failure);
        AppendEmpty(yielded);
        return yielded, Reported(Some(step.failure));
      }
      DecodeFromNext(data, pos, step.pair, step.next);
      Assoc(yielded, [step.pair], DecodeFrom(data, step.next).pairs);
      yielded := yielded + [step.pair];
      pos := step.next;
    }
    AppendEmpty(yielded);
    error := None;
  }

  // ---------------------------------------------------------------------
  // Clients

  /**
   * utils.py exports speedups' unpack_pairs when it can be imported and
   * the Python one otherwise: on every buffer the C version returns the
   * pairs the generator yields when it completes, and fails exactly when
   * it raises, with the same byte count for a short payload.
   */
  method UnpackEitherWay(data: bytes) returns (c: Result<seq<Pair>, nat>, py: seq<Pair>, pyError: Option<UnpackError>)
    ensures c.Ok? <==> pyError.None?
    ensures c.Ok? ==> c.value == py
    ensures pyError.Some? && pyError.value.BytesShort? ==> c == Err(pyError.value.missing)
  {
    c := Speedups.UnpackPairs(data);
    py, pyError := UnpackPairs(data);
  }

  /** The pack/unpack round trip of the tests: unpack_pairs(pack_pairs(pairs)) yields the pairs and raises nothing. */
  method PackThenUnpack(ps: seq<Pair>) returns (packed: Result<bytes, TooLong>, yielded: seq<Pair>, error: Option<UnpackError>)
    ensures packed.Ok? <==> AllEncodable(ps)
    ensures packed.Ok? ==> yielded == ps && error.None?
  {
    packed := PackPairs(ps);
    yielded, error := [], None;
    if packed.Ok? {
      PackPairsRoundTrip(ps);
      yielded, error := UnpackPairs(packed.value);
    }
  }
}
