/**
 * The name-value pair format of section 3.4 of the FastCGI Specification
 * (Open Market, 1996), stated once as a reference: the length prefix, the
 * encoding of pairs, and what a decoder that walks a buffer from a cursor
 * to its end yields.  The implementations in speedups.c, utils.py and the
 * legacy gevent_fastcgi.py are proved against it.
 */
module Pairs {
  import opened Results
  import opened Bytes

  /** The largest length a prefix can carry: 31 bits. */
  const MaxLength: nat := 0x7fff_ffff

  datatype Pair = Pair(name: bytes, value: bytes)

  predicate Encodable(p: Pair)
  {
    |p.name| <= MaxLength && |p.value| <= MaxLength
  }

  predicate AllEncodable(ps: seq<Pair>)
  {
    forall i :: 0 <= i < |ps| ==> Encodable(ps[i])
  }

  /**
   * A length of at most 127 is one byte holding it; a longer one is four
   * bytes, big-endian, with the top bit of the first byte set.
   */
  function EncodeLength(n: nat): (r: bytes)
    requires n <= MaxLength
    ensures |r| == (if n <= 127 then 1 else 4)
    ensures (r[0] < 0x80) == (n <= 127)
  {
    if n <= 127 then [n]
    else [0x80 + n / 0x100_0000, (n / 0x1_0000) % 0x100, (n / 0x100) % 0x100, n % 0x100]
  }

  function EncodePair(p: Pair): (r: bytes)
    requires Encodable(p)
    ensures |r| >= 2
  {
    EncodeLength(|p.name|) + EncodeLength(|p.value|) + p.name + p.value
  }

  function EncodePairs(ps: seq<Pair>): (r: bytes)
    requires AllEncodable(ps)
    ensures |r| >= 2 * |ps|
  {
    if ps == [] then [] else EncodePair(ps[0]) + EncodePairs(ps[1..])
  }

  /** A length prefix read at a cursor: its value and the cursor after it, or how many bytes are missing. */
  datatype LengthRead = Length(value: nat, next: nat) | Short(missing: nat)

  /**
   * The length prefix at `pos`: one byte below 0x80 is the length itself;
   * otherwise four bytes, the top bit of the first cleared.  A prefix that
   * runs past the end of the buffer is short by the bytes it lacks.
   */
  function DecodeLength(buf: bytes, pos: nat): (r: LengthRead)
    requires pos <= |buf|
    ensures r.Length? ==> (r.next == pos + 1 || r.next == pos + 4) && r.next <= |buf| && r.value <= MaxLength
    ensures r.Short? ==> 0 < r.missing <= 4
  {
    if |buf| - pos == 0 then Short(1)
    else if buf[pos] < 0x80 then Length(buf[pos], pos + 1)
    else if |buf| - pos < 4 then Short(4 - (|buf| - pos))
    else Length((buf[pos] - 0x80) * 0x100_0000 + (buf[pos + 1] as int) * 0x1_0000
                + (buf[pos + 2] as int) * 0x100 + buf[pos + 3], pos + 4)
  }

  /** Why decoding stopped early: a length prefix or the pair's payload ran past the end, by `missing` bytes. */
  datatype Failure = PrefixShort(missing: nat) | PayloadShort(missing: nat)
  {
    function Missing(): nat
    {
      match this
      case PrefixShort(m) => m
      case PayloadShort(m) => m
    }
  }

  /** The pairs decoded in order, and the failure that stopped decoding, if any. */
  datatype Decoded = Decoded(pairs: seq<Pair>, failure: Option<Failure>)

  function Prepend(p: Pair, d: Decoded): Decoded
  {
    Decoded([p] + d.pairs, d.failure)
  }

  /** One step of decoding: the pair at the cursor and the cursor after it, or why it cannot be read. */
  datatype Step = Next(pair: Pair, next: nat) | Stop(failure: Failure)

  /**
   * The pair at `pos`: a name length, a value length, then
   * `name_len + value_len` bytes split into name and value.  Each read is
   * checked against the end of the buffer first.
   */
  function DecodePair(buf: bytes, pos: nat): (r: Step)
    requires pos <= |buf|
    ensures r.Next? ==> pos + 2 <= r.next <= |buf| && Encodable(r.pair)
  {
    match DecodeLength(buf, pos)
    case Short(m) => Stop(PrefixShort(m))
    case Length(n, p1) =>
      match DecodeLength(buf, p1)
      case Short(m) => Stop(PrefixShort(m))
      case Length(v, p2) =>
        if |buf| - p2 < n + v then Stop(PayloadShort(n + v - (|buf| - p2)))
        else Next(Pair(buf[p2..p2 + n], buf[p2 + n..p2 + n + v]), p2 + n + v)
  }

  /** Decode pairs from `pos` until the buffer is used up exactly; stop at the first pair that cannot be read. */
  function DecodeFrom(buf: bytes, pos: nat): (r: Decoded)
    requires pos <= |buf|
    ensures 2 * |r.pairs| <= |buf| - pos
    decreases |buf| - pos
  {
    if pos == |buf| then Decoded([], None)
    else
      match DecodePair(buf, pos)
      case Stop(f) => Decoded([], Some(f))
      case Next(p, next) => Prepend(p, DecodeFrom(buf, next))
  }

  /** Decoding a whole buffer. */
  function Decode(buf: bytes): (r: Decoded)
    ensures buf == [] ==> r == Decoded([], None)
    ensures 2 * |r.pairs| <= |buf|
  {
    DecodeFrom(buf, 0)
  }

  // ---------------------------------------------------------------------
  // Stepping the decoder

  /** A pair read at the cursor is the first one decoded, and decoding resumes after it. */
  lemma DecodeFromNext(buf: bytes, pos: nat, p: Pair, next: nat)
    requires pos < |buf| && DecodePair(buf, pos) == Next(p, next)
    ensures DecodeFrom(buf, pos) == Prepend(p, DecodeFrom(buf, next))
  {
    var rest := DecodeFrom(buf, next);
    assert DecodeFrom(buf, pos) == Prepend(p, rest);
  }

  /** A pair that cannot be read at the cursor ends decoding with no further pairs. */
  lemma DecodeFromStop(buf: bytes, pos: nat, f: Failure)
    requires pos < |buf| && DecodePair(buf, pos) == Stop(f)
    ensures DecodeFrom(buf, pos) == Decoded([], Some(f))
  {
  }

  // ---------------------------------------------------------------------
  // Properties of the format

  /** The length prefix is read back exactly, whatever surrounds it. */
  lemma {:induction false} DecodeEncodeLength(buf: bytes, pos: nat, n: nat)
    requires n <= MaxLength
    requires pos + |EncodeLength(n)| <= |buf| && buf[pos..pos + |EncodeLength(n)|] == EncodeLength(n)
    ensures DecodeLength(buf, pos) == Length(n, pos + |EncodeLength(n)|)
  {
    var e := EncodeLength(n);
    assert buf[pos] == e[0];
    if n > 127 {
      assert buf[pos + 1] == e[1] && buf[pos + 2] == e[2] && buf[pos + 3] == e[3];
      assert n / 0x1_0000 == (n / 0x100_0000) * 0x100 + (n / 0x1_0000) % 0x100;
      assert n / 0x100 == (n / 0x1_0000) * 0x100 + (n / 0x100) % 0x100;
    }
  }

  /** One encoded pair in a buffer is read back at its cursor, whatever surrounds it. */
  lemma DecodePairEncoded(buf: bytes, pos: nat, p: Pair)
    requires Encodable(p)
    requires pos + |EncodePair(p)| <= |buf| && buf[pos..pos + |EncodePair(p)|] == EncodePair(p)
    ensures DecodePair(buf, pos) == Next(p, pos + |EncodePair(p)|)
  {
    var p1 := pos + |EncodeLength(|p.name|)|;
    var p2 := p1 + |EncodeLength(|p.value|)|;
    PairLayout(buf, pos, p, p1, p2);
    DecodeEncodeLength(buf, pos, |p.name|);
    DecodeEncodeLength(buf, p1, |p.value|);
    DecodePairAt(buf, pos, p, p1, p2);
  }

  /** Where the four parts of an encoded pair sit in a buffer that holds it at `pos`. */
  lemma PairLayout(buf: bytes, pos: nat, p: Pair, p1: nat, p2: nat)
    requires Encodable(p)
    requires pos + |EncodePair(p)| <= |buf| && buf[pos..pos + |EncodePair(p)|] == EncodePair(p)
    requires p1 == pos + |EncodeLength(|p.name|)| && p2 == p1 + |EncodeLength(|p.value|)|
    ensures buf[pos..p1] == EncodeLength(|p.name|)
    ensures buf[p1..p2] == EncodeLength(|p.value|)
    ensures p2 + |p.name| + |p.value| == pos + |EncodePair(p)|
    ensures buf[p2..p2 + |p.name|] == p.name
    ensures buf[p2 + |p.name|..p2 + |p.name| + |p.value|] == p.value
  {
    var a, b := EncodeLength(|p.name|), EncodeLength(|p.value|);
    var n, v := p.name, p.value;
    assert EncodePair(p) == a + b + n + v;
    Slices4(buf, pos, a, b, n, v);
  }

  /** DecodePair, when both prefixes read and the payload, name then value, is present. */
  lemma DecodePairAt(buf: bytes, pos: nat, p: Pair, p1: nat, p2: nat)
    requires pos <= |buf| && DecodeLength(buf, pos) == Length(|p.name|, p1)
    requires DecodeLength(buf, p1) == Length(|p.value|, p2)
    requires p2 + |p.name| + |p.value| <= |buf|
    requires buf[p2..p2 + |p.name|] == p.name
    requires buf[p2 + |p.name|..p2 + |p.name| + |p.value|] == p.value
    ensures DecodePair(buf, pos) == Next(p, p2 + |p.name| + |p.value|)
  {
  }

  /** Encoded pairs in a buffer, from `pos` to `end`, decode to those pairs, in order, then to what follows them. */
  lemma {:induction false} DecodeEncodedPairs(buf: bytes, pos: nat, ps: seq<Pair>, end: nat)
    requires AllEncodable(ps)
    requires end == pos + |EncodePairs(ps)| && end <= |buf| && buf[pos..end] == EncodePairs(ps)
    ensures DecodeFrom(buf, pos).pairs == ps + DecodeFrom(buf, end).pairs
    ensures DecodeFrom(buf, pos).failure == DecodeFrom(buf, end).failure
    decreases ps
  {
    var tail := DecodeFrom(buf, end);
    if ps == [] {
      assert ps + tail.pairs == tail.pairs;
    } else {
      var mid := EncodedPairsStep(buf, pos, ps, end);
      DecodeEncodedPairs(buf, mid, ps[1..], end);
      ConsAppend(ps, tail.pairs);
    }
  }

  /** The first of several encoded pairs is read at the cursor; the others follow it up to `end`. */
  lemma EncodedPairsStep(buf: bytes, pos: nat, ps: seq<Pair>, end: nat) returns (mid: nat)
    requires AllEncodable(ps) && ps != []
    requires end == pos + |EncodePairs(ps)| && end <= |buf| && buf[pos..end] == EncodePairs(ps)
    ensures pos < mid <= end && AllEncodable(ps[1..])
    ensures end == mid + |EncodePairs(ps[1..])| && buf[mid..end] == EncodePairs(ps[1..])
    ensures DecodeFrom(buf, pos) == Prepend(ps[0], DecodeFrom(buf, mid))
  {
    var e := EncodePair(ps[0]);
    mid := pos + |e|;
    Slices2(buf, pos, e, EncodePairs(ps[1..]));
    DecodePairEncoded(buf, pos, ps[0]);
    DecodeFromNext(buf, pos, ps[0], mid);
  }

  /** Round trip: decoding the encoding of any encodable pairs gives them back, with no failure. */
  lemma RoundTrip(ps: seq<Pair>)
    requires AllEncodable(ps)
    ensures Decode(EncodePairs(ps)) == Decoded(ps, None)
  {
    var buf := EncodePairs(ps);
    assert buf[0..|buf|] == buf;
    DecodeEncodedPairs(buf, 0, ps, |buf|);
    assert ps + [] == ps;
  }

  /** A strict, non-empty prefix of one encoded pair, at the end of a buffer, fails to decode. */
  lemma TruncatedPairFails(buf: bytes, pos: nat, p: Pair, k: nat)
    requires Encodable(p) && 0 < k < |EncodePair(p)|
    requires pos + k == |buf| && buf[pos..] == EncodePair(p)[..k]
    ensures DecodePair(buf, pos).Stop?
  {
    var ln, lv := EncodeLength(|p.name|), EncodeLength(|p.value|);
    Slices4(EncodePair(p), 0, ln, lv, p.name, p.value);
    if k < |ln| {
      NameLengthCut(buf, pos, p, k);
    } else if k < |ln| + |lv| {
      ValueLengthCut(buf, pos, p, k);
    } else {
      PayloadCut(buf, pos, p, k);
    }
  }

  /** The cut falls inside the name's length prefix. */
  lemma NameLengthCut(buf: bytes, pos: nat, p: Pair, k: nat)
    requires Encodable(p) && 0 < k < |EncodeLength(|p.name|)| && k <= |EncodePair(p)|
    requires EncodePair(p)[0..|EncodeLength(|p.name|)|] == EncodeLength(|p.name|)
    requires pos + k == |buf| && buf[pos..] == EncodePair(p)[..k]
    ensures DecodePair(buf, pos).Stop?
  {
    PrefixAt(buf, pos, EncodePair(p), k, 0, k);
    assert EncodePair(p)[0] == EncodePair(p)[0..|EncodeLength(|p.name|)|][0];
    LengthTruncated(buf, pos, |p.name|);
  }

  /** The cut falls after the name's length prefix, inside the value's. */
  lemma ValueLengthCut(buf: bytes, pos: nat, p: Pair, k: nat)
    requires Encodable(p)
    requires |EncodeLength(|p.name|)| <= k < |EncodeLength(|p.name|)| + |EncodeLength(|p.value|)| <= |EncodePair(p)|
    requires EncodePair(p)[0..|EncodeLength(|p.name|)|] == EncodeLength(|p.name|)
    requires EncodePair(p)[|EncodeLength(|p.name|)|..|EncodeLength(|p.name|)| + |EncodeLength(|p.value|)|]
      == EncodeLength(|p.value|)
    requires pos + k == |buf| && buf[pos..] == EncodePair(p)[..k]
    ensures DecodePair(buf, pos).Stop?
  {
    var e, i := EncodePair(p), |EncodeLength(|p.name|)|;
    PrefixAt(buf, pos, e, k, 0, i);
    DecodeEncodeLength(buf, pos, |p.name|);
    if k > i {
      PrefixAt(buf, pos, e, k, i, k);
      assert e[i] == e[i..i + |EncodeLength(|p.value|)|][0];
      LengthTruncated(buf, pos + i, |p.value|);
    }
  }

  /** The cut falls after both length prefixes, inside the name and value. */
  lemma PayloadCut(buf: bytes, pos: nat, p: Pair, k: nat)
    requires Encodable(p)
    requires |EncodeLength(|p.name|)| + |EncodeLength(|p.value|)| <= k < |EncodePair(p)|
    requires EncodePair(p)[0..|EncodeLength(|p.name|)|] == EncodeLength(|p.name|)
    requires EncodePair(p)[|EncodeLength(|p.name|)|..|EncodeLength(|p.name|)| + |EncodeLength(|p.value|)|]
      == EncodeLength(|p.value|)
    requires pos + k == |buf| && buf[pos..] == EncodePair(p)[..k]
    ensures DecodePair(buf, pos).Stop?
  {
    var e, i, j := EncodePair(p), |EncodeLength(|p.name|)|, |EncodeLength(|p.name|)| + |EncodeLength(|p.value|)|;
    PrefixAt(buf, pos, e, k, 0, i);
    PrefixAt(buf, pos, e, k, i, j);
    DecodeEncodeLength(buf, pos, |p.name|);
    DecodeEncodeLength(buf, pos + i, |p.value|);
  }

  /** A long length prefix cut short by the end of the buffer is reported short. */
  lemma LengthTruncated(buf: bytes, pos: nat, n: nat)
    requires n <= MaxLength && pos < |buf| < pos + |EncodeLength(n)| && buf[pos] == EncodeLength(n)[0]
    ensures DecodeLength(buf, pos).Short?
  {
  }

  /**
   * Truncation: dropping the last byte of a non-empty encoded buffer makes
   * decoding fail, and the pairs decoded before the failure are exactly
   * the pairs before the last one: never a wrong or partial pair.
   */
  lemma TruncationDetected(init: seq<Pair>, last: Pair)
    requires AllEncodable(init) && Encodable(last)
    ensures AllEncodable(init + [last])
    ensures Decode(EncodePairs(init + [last])[..|EncodePairs(init + [last])| - 1]).failure.Some?
    ensures Decode(EncodePairs(init + [last])[..|EncodePairs(init + [last])| - 1]).pairs == init
  {
    EncodePairsAppend(init, last);
    TruncatedAfter(EncodePairs(init + [last]), init, last);
  }

  /** Encoded pairs followed by all but the last byte of one more encoded pair decode to the former, and fail. */
  lemma TruncatedAfter(full: bytes, init: seq<Pair>, last: Pair)
    requires AllEncodable(init) && Encodable(last)
    requires full == EncodePairs(init) + EncodePair(last)
    ensures Decode(full[..|full| - 1]).failure.Some? && Decode(full[..|full| - 1]).pairs == init
  {
    var t, mid := full[..|full| - 1], |EncodePairs(init)|;
    DropLast(EncodePairs(init), EncodePair(last));
    DecodeEncodedPairs(t, 0, init, mid);
    TruncatedPairFails(t, mid, last, |EncodePair(last)| - 1);
    DecodeFromStop(t, mid, DecodePair(t, mid).failure);
    AppendEmpty(init);
  }

  lemma {:induction false} EncodePairsAppend(ps: seq<Pair>, p: Pair)
    requires AllEncodable(ps) && Encodable(p)
    ensures AllEncodable(ps + [p])
    ensures EncodePairs(ps + [p]) == EncodePairs(ps) + EncodePair(p)
  {
    var q := ps + [p];
    if ps == [] {
      assert q == [p] && q[1..] == [];
    } else {
      SnocTail(ps, p);
      EncodePairsAppend(ps[1..], p);
      Assoc(EncodePair(ps[0]), EncodePairs(ps[1..]), EncodePair(p));
    }
  }
}
