/**
 * gevent_fastcgi/speedups.c: the C implementations of unpack_pairs and
 * pack_pair (the ENSURE_LEN, PARSE_LEN and PACK_LEN macros), and its
 * header codec over record_header_t.
 */
module Speedups {
  import opened Results
  import opened Bytes
  import opened Pairs
  import opened Protocol

  // ---------------------------------------------------------------------
  // unpack_pairs

  /**
   * PARSE_LEN at the cursor `pos` into `buf`, whose end is |buf|:
   * ENSURE_LEN(1), take a byte; if its top bit is set, ENSURE_LEN(3) and
   * combine it with the next three bytes as
   * ((len & 0x7f) << 24) + (b0 << 16) + (b1 << 8) + b2.  A failed
   * ENSURE_LEN(req) reports req minus the bytes left.
   */
  method ParseLen(buf: bytes, pos: nat) returns (r: LengthRead)
    requires pos <= |buf|
    ensures r == DecodeLength(buf, pos)
  {
    if |buf| - pos < 1 {
      return Short(1 - (|buf| - pos));
    }
    var len := buf[pos];
    var p := pos + 1;
    if len >= 0x80 {
      if |buf| - p < 3 {
        return Short(3 - (|buf| - p));
      }
      var n := (len % 0x80) * 0x100_0000 + (buf[p] as int) * 0x1_0000 + (buf[p + 1] as int) * 0x100 + buf[p + 2];
      return Length(n, p + 3);
    }
    return Length(len, p);
  }

  /**
   * One pass of py_unpack_pairs' loop body from the cursor `pos`:
   * PARSE_LEN(nlen), PARSE_LEN(vlen), ENSURE_LEN(nlen + vlen), then the
   * name and value slices and the advanced cursor.
   */
  method ReadPair(buf: bytes, pos: nat) returns (s: Step)
    requires pos <= |buf|
    ensures s == DecodePair(buf, pos)
  {
    var nlen := ParseLen(buf, pos);
    if nlen.Short? {
      return Stop(PrefixShort(nlen.missing));
    }
    var p := nlen.next;
    var vlen := ParseLen(buf, p);
    if vlen.Short? {
      return Stop(PrefixShort(vlen.missing));
    }
    p := vlen.next;
    if |buf| - p < nlen.value + vlen.value {
      return Stop(PayloadShort(nlen.value + vlen.value - (|buf| - p)));
    }
    var name := buf[p..p + nlen.value];
    p := p + nlen.value;
    var value := buf[p..p + vlen.value];
    p := p + vlen.value;
    return Next(Pair(name, value), p);
  }

  /**
   * py_unpack_pairs: walk the cursor to the end of the buffer, appending
   * (name, value) to the result list.  On a short buffer it returns no list,
   * only ValueError("Buffer is N byte(s) short"), here Err(N).
   */
  method UnpackPairs(buf: bytes) returns (r: Result<seq<Pair>, nat>)
    ensures r.Ok? <==> Decode(buf).failure.None?
    ensures r.Ok? ==> r.value == Decode(buf).pairs
    ensures r.Err? ==> r.error == Decode(buf).failure.value.Missing()
  {
    var pos := 0;
    var result: seq<Pair> := [];
    assert [] + Decode(buf).pairs == Decode(buf).pairs;
    while pos < |buf|
      invariant pos <= |buf|
      invariant Decode(buf).pairs == result + DecodeFrom(buf, pos).pairs
      invariant Decode(buf).failure == DecodeFrom(buf, pos).failure
      decreases |buf| - pos
    {
      var step := ReadPair(buf, pos);
      if step.Stop? {
        DecodeFromStop(buf, pos, step.failure);
        return Err(step.failure.Missing());
      }
      DecodeFromNext(buf, pos, step.pair, step.next);
      Assoc(result, [step.pair], DecodeFrom(buf, step.next).pairs);
      result := result + [step.pair];
      pos := step.next;
    }
    AppendEmpty(result);
    r := Ok(result);
  }

  // ---------------------------------------------------------------------
  // pack_pair

  /**
   * PACK_LEN: write the length prefix through the cursor `ptr` of the
   * allocated buffer and advance it.  The first 4-byte-form byte is
   * 0x80 + ((len >> 24) & 0xff); it fits a byte because len <= 0x7fffffff.
   */
  method PackLen(buf: array<byte>, ptr: nat, len: nat) returns (next: nat)
    requires len <= MaxLength && ptr + |EncodeLength(len)| <= buf.Length
    modifies buf
    ensures next == ptr + |EncodeLength(len)|
    ensures buf[..] == old(buf[..ptr]) + EncodeLength(len) + old(buf[next..])
  {
    if len > 127 {
      buf[ptr] := 0x80 + (len / 0x100_0000) % 0x100;
      buf[ptr + 1] := (len / 0x1_0000) % 0x100;
      buf[ptr + 2] := (len / 0x100) % 0x100;
      buf[ptr + 3] := len % 0x100;
      next := ptr + 4;
    } else {
      buf[ptr] := len;
      next := ptr + 1;
    }
  }

  /** memcpy(buf + at, src, |src|). */
  method Memcpy(buf: array<byte>, at: nat, src: bytes)
    requires at + |src| <= buf.Length
    modifies buf
    ensures buf[..] == old(buf[..at]) + src + old(buf[at + |src|..])
  {
    forall i | 0 <= i < |src| {
      buf[at + i] := src[i];
    }
  }

  /** py_pack_pair's ValueErrors. */
  datatype PackError = NameTooLong | ValueTooLong

  /**
   * py_pack_pair: reject a name, then a value, longer than 0x7fffffff;
   * otherwise allocate buf_len bytes, write both prefixes through the
   * cursor and copy name and value after them.
   */
  method PackPair(name: bytes, value: bytes) returns (r: Result<bytes, PackError>)
    ensures |name| > MaxLength ==> r == Err(NameTooLong)
    ensures |name| <= MaxLength && |value| > MaxLength ==> r == Err(ValueTooLong)
    ensures |name| <= MaxLength && |value| <= MaxLength ==> r == Ok(EncodePair(Pair(name, value)))
    ensures r.Ok? ==> |r.value| == |name| + |value| + (if |name| > 127 then 4 else 1) + (if |value| > 127 then 4 else 1)
  {
    if |name| > MaxLength {
      return Err(NameTooLong);
    }
    if |value| > MaxLength {
      return Err(ValueTooLong);
    }
    var bufLen := |name| + |value| + (if |name| > 127 then 4 else 1) + (if |value| > 127 then 4 else 1);
    var buf := new byte[bufLen];
    var ptr := PackLens(buf, |name|, |value|);
    CopyPayload(buf, ptr, name, value);
    r := Ok(buf[..]);
  }

  /** The two PACK_LEN steps of py_pack_pair, from the start of the buffer. */
  method PackLens(buf: array<byte>, nameLen: nat, valueLen: nat) returns (ptr: nat)
    requires nameLen <= MaxLength && valueLen <= MaxLength
    requires |EncodeLength(nameLen)| + |EncodeLength(valueLen)| <= buf.Length
    modifies buf
    ensures ptr == |EncodeLength(nameLen)| + |EncodeLength(valueLen)|
    ensures buf[..] == EncodeLength(nameLen) + EncodeLength(valueLen) + old(buf[ptr..])
  {
    ghost var ln, lv := EncodeLength(nameLen), EncodeLength(valueLen);
    ghost var junk := buf[..];
    ptr := PackLen(buf, 0, nameLen);
    OverwriteFirst(junk, ln, buf[..]);
    ghost var before := buf[..];
    ptr := PackLen(buf, ptr, valueLen);
    Overwrite(ln, junk, lv, before, buf[..]);
  }

  /** The two memcpy steps of py_pack_pair: name, then value, from the cursor `ptr`, filling the buffer. */
  method CopyPayload(buf: array<byte>, ptr: nat, name: bytes, value: bytes)
    requires ptr + |name| + |value| == buf.Length
    modifies buf
    ensures buf[..] == old(buf[..ptr]) + name + value
  {
    ghost var w := buf[..ptr];
    ghost var junk := buf[..];
    ghost var before := buf[..];
    assert junk == w + junk[|w|..];
    Memcpy(buf, ptr, name);
    Overwrite(w, junk, name, before, buf[..]);
    before := buf[..];
    Memcpy(buf, ptr + |name|, value);
    Overwrite(w + name, junk, value, before, buf[..]);
    AppendEmpty(w + name + value);
  }

  /** Writing `s` at the start of `junk` leaves `s` and then the rest of `junk`. */
  lemma OverwriteFirst<T>(junk: seq<T>, s: seq<T>, after: seq<T>)
    requires |s| <= |junk| && after == junk[..0] + s + junk[|s|..]
    ensures after == s + junk[|s|..]
  {
    assert junk[..0] == [];
  }

  /**
   * A buffer holding `w` and then the rest of `junk`, after `s` is written
   * just past `w`, holds `w + s` and then the rest of `junk`.
   */
  lemma Overwrite<T>(w: seq<T>, junk: seq<T>, s: seq<T>, before: seq<T>, after: seq<T>)
    requires |w| + |s| <= |junk|
    requires before == w + junk[|w|..]
    requires after == before[..|w|] + s + before[|w| + |s|..]
    ensures after == (w + s) + junk[|w + s|..]
  {
    assert before[..|w|] == w;
    assert before[|w| + |s|..] == junk[|w| + |s|..];
  }

  // ---------------------------------------------------------------------
  // pack_header / unpack_header over record_header_t

  /** The header codec's failures: a 'b' argument outside 0..255 (OverflowError), or a buffer shorter than the struct. */
  datatype HeaderError = ByteOutOfRange | TooShort(required: nat, passed: nat)

  /**
   * py_pack_header: the "bbHHb" format range-checks the three byte fields
   * but converts request_id and content_len to unsigned short without an
   * overflow check (taken modulo 2^16); both are then stored through htons
   * (big-endian).  The struct has no padding, so it is 8 bytes.  Its
   * reserved byte is never written: the freshly allocated memory's byte,
   * `reserved`, is copied out as it is.
   */
  function PackHeader(version: int, recordType: int, requestId: int, contentLen: int, padding: int, reserved: byte)
    : (r: Result<bytes, HeaderError>)
    ensures r.Ok? <==> 0 <= version < 0x100 && 0 <= recordType < 0x100 && 0 <= padding < 0x100
    ensures r.Ok? ==> |r.value| == FcgiHeaderLen && r.value[7] == reserved
  {
    if !(0 <= version < 0x100 && 0 <= recordType < 0x100 && 0 <= padding < 0x100) then Err(ByteOutOfRange)
    else Ok([version, recordType] + Be16(requestId % 0x1_0000) + Be16(contentLen % 0x1_0000) + [padding, reserved])
  }

  /** py_unpack_header: refuse fewer bytes than the struct, else read its fields, converting the 16-bit ones with ntohs. */
  function UnpackHeader(buf: bytes): (r: Result<Header, HeaderError>)
    ensures r.Err? <==> |buf| < FcgiHeaderLen
    ensures r.Err? ==> r.error == TooShort(FcgiHeaderLen, |buf|)
  {
    if |buf| < FcgiHeaderLen then Err(TooShort(FcgiHeaderLen, |buf|))
    else Ok(Header(buf[0], buf[1], Be16Value(buf, 2), Be16Value(buf, 4), buf[6]))
  }

  /** Unpacking what was packed gives the fields back, the 16-bit ones modulo 2^16; bytes after the first 8 are ignored. */
  lemma HeaderRoundTrip(version: byte, recordType: byte, requestId: int, contentLen: int, padding: byte,
                        reserved: byte, rest: bytes)
    ensures PackHeader(version, recordType, requestId, contentLen, padding, reserved).Ok?
    ensures UnpackHeader(PackHeader(version, recordType, requestId, contentLen, padding, reserved).value + rest)
         == Ok(Header(version, recordType, requestId % 0x1_0000, contentLen % 0x1_0000, padding))
  {
    var b := PackHeader(version, recordType, requestId, contentLen, padding, reserved).value + rest;
    assert b[2..4] == Be16(requestId % 0x1_0000);
    assert b[4..6] == Be16(contentLen % 0x1_0000);
  }
}
