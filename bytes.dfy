/**
 * Byte-level vocabulary shared by every codec: bytes and fixed-width
 * unsigned fields, big-endian (network order) encodings of 16- and 32-bit
 * values, zero padding, and joining and splitting byte strings.
 */
module Bytes {

  type byte = x: int | 0 <= x < 0x100
  type u16 = x: int | 0 <= x < 0x1_0000
  type u32 = x: int | 0 <= x < 0x1_0000_0000
  type bytes = seq<byte>

  /** The 2-byte big-endian encoding of a 16-bit value, as struct's 'H' or htons lays it out. */
  function Be16(x: u16): (r: bytes)
    ensures |r| == 2 && Be16Value(r, 0) == x
  {
    [x / 0x100, x % 0x100]
  }

  /** The 16-bit value held big-endian in b[i], b[i+1]. */
  function Be16Value(b: bytes, i: nat): u16
    requires i + 2 <= |b|
  {
    (b[i] as int) * 0x100 + b[i + 1]
  }

  /** The 4-byte big-endian encoding of a 32-bit value, as struct's 'L' lays it out: high half, then low half. */
  function Be32(x: u32): (r: bytes)
    ensures |r| == 4 && Be32Value(r, 0) == x
  {
    var r := Be16(x / 0x1_0000) + Be16(x % 0x1_0000);
    assert Be16Value(r, 2) == Be16Value(Be16(x % 0x1_0000), 0);
    r
  }

  /** The 32-bit value held big-endian in b[i..i+4]. */
  function Be32Value(b: bytes, i: nat): u32
    requires i + 4 <= |b|
  {
    Be16Value(b, i) * 0x1_0000 + Be16Value(b, i + 2)
  }

  /** The two bytes at b[i] re-encoded from their value are those two bytes. */
  lemma Be16Bytes(b: bytes, i: nat)
    requires i + 2 <= |b|
    ensures Be16(Be16Value(b, i)) == b[i..i + 2]
  {
  }

  /** The four bytes at b[i] re-encoded from their value are those four bytes. */
  lemma Be32Bytes(b: bytes, i: nat)
    requires i + 4 <= |b|
    ensures Be32(Be32Value(b, i)) == b[i..i + 4]
  {
    var x := Be32Value(b, i);
    assert x / 0x1_0000 == Be16Value(b, i) && x % 0x1_0000 == Be16Value(b, i + 2);
    Be16Bytes(b, i);
    Be16Bytes(b, i + 2);
  }

  /** n zero bytes: struct's 'x' pad bytes and record padding. */
  function Zeros(n: nat): (r: bytes)
    ensures |r| == n && forall i :: 0 <= i < n ==> r[i] == 0
  {
    seq(n, _ => 0)
  }

  /** b''.join(chunks). */
  function Join(chunks: seq<bytes>): bytes
  {
    if chunks == [] then [] else chunks[0] + Join(chunks[1..])
  }

  lemma {:induction false} JoinAppend(chunks: seq<bytes>, last: bytes)
    ensures Join(chunks + [last]) == Join(chunks) + last
  {
    if chunks == [] {
      assert chunks + [last] == [last];
    } else {
      assert (chunks + [last])[1..] == chunks[1..] + [last];
      JoinAppend(chunks[1..], last);
    }
  }

  lemma {:induction false} JoinConcat(a: seq<bytes>, b: seq<bytes>)
    ensures Join(a + b) == Join(a) + Join(b)
  {
    if a == [] {
      assert a + b == b;
    } else {
      assert (a + b)[1..] == a[1..] + b;
      JoinConcat(a[1..], b);
    }
  }

  /**
   * The consecutive slices data[0:max], data[max:2*max], ... of a byte
   * string, the last one possibly shorter; none for empty data.
   */
  function Split(data: bytes, max: nat): (r: seq<bytes>)
    requires max > 0
    ensures forall i :: 0 <= i < |r| ==> 0 < |r[i]| <= max
    ensures Join(r) == data
    ensures |data| <= max ==> r == if data == [] then [] else [data]
    decreases |data|
  {
    if data == [] then []
    else if |data| <= max then [data]
    else [data[..max]] + Split(data[max..], max)
  }

  /** Data longer than `max` is cut after its first `max` bytes. */
  lemma SplitLong(x: bytes, max: nat)
    requires 0 < max < |x|
    ensures Split(x, max) == [x[..max]] + Split(x[max..], max)
  {
  }

  /** Splitting after `k` whole slices cuts no slice. */
  lemma {:induction false} SplitWhole(a: bytes, b: bytes, max: nat, k: nat)
    requires max > 0 && |a| == k * max
    ensures Split(a + b, max) == Split(a, max) + Split(b, max)
    decreases k
  {
    if k == 0 {
      assert a == [] && a + b == b;
    } else {
      assert |a| == (k - 1) * max + max;
      if |a| == max {
        SplitOneSlice(a, b, max);
      } else {
        SplitWhole(a[max..], b, max, k - 1);
        SplitAfterFirst(a, b, max);
      }
    }
  }

  /** One slice's worth, then more: the slice, then what the more splits into. */
  lemma SplitOneSlice(a: bytes, b: bytes, max: nat)
    requires 0 < max == |a|
    ensures Split(a + b, max) == Split(a, max) + Split(b, max)
  {
    if b == [] {
      assert a + b == a;
      AppendEmpty(Split(a, max));
    } else {
      SplitLong(a + b, max);
      CutConcat(a, b, max);
      assert a[..max] == a && a[max..] == [];
      assert a[max..] + b == b;
    }
  }

  /** More than a slice's worth, then more: the first slice is cut off the same way. */
  lemma SplitAfterFirst(a: bytes, b: bytes, max: nat)
    requires 0 < max < |a|
    requires Split(a[max..] + b, max) == Split(a[max..], max) + Split(b, max)
    ensures Split(a + b, max) == Split(a, max) + Split(b, max)
  {
    SplitLong(a + b, max);
    SplitLong(a, max);
    CutConcat(a, b, max);
    ConsChain(Split(a + b, max), a[..max], Split(a[max..] + b, max), Split(a[max..], max), Split(b, max), Split(a, max));
  }

  /** Cutting `a + b` at a point inside `a`. */
  lemma CutConcat<T>(a: seq<T>, b: seq<T>, n: nat)
    requires n <= |a|
    ensures (a + b)[..n] == a[..n] && (a + b)[n..] == a[n..] + b
  {
  }

  lemma ConsChain<T>(whole: seq<T>, h: T, r: seq<T>, p: seq<T>, q: seq<T>, first: seq<T>)
    requires whole == [h] + r && r == p + q && first == [h] + p
    ensures whole == first + q
  {
  }

  // ---------------------------------------------------------------------
  // Slicing identities, stated once for any element type so that they are
  // proved away from the facts of the codec.

  /** Any part of a sequence `t` held in `s` at `pos`. */
  lemma SubSlice<T>(s: seq<T>, pos: nat, t: seq<T>, i: nat, j: nat)
    requires pos + |t| <= |s| && s[pos..pos + |t|] == t && i <= j <= |t|
    ensures s[pos + i..pos + j] == t[i..j]
  {
    forall k | 0 <= k < j - i
      ensures s[pos + i..pos + j][k] == t[i..j][k]
    {
      assert t[i..j][k] == t[i + k] == s[pos..pos + |t|][i + k];
    }
  }

  /** The four consecutive parts of `a + b + c + d` held in `s` at `pos`. */
  lemma Slices4<T>(s: seq<T>, pos: nat, a: seq<T>, b: seq<T>, c: seq<T>, d: seq<T>)
    requires pos + |a + b + c + d| <= |s| && s[pos..pos + |a + b + c + d|] == a + b + c + d
    ensures var i, j, k := pos + |a|, pos + |a| + |b|, pos + |a| + |b| + |c|;
            s[pos..i] == a && s[i..j] == b && s[j..k] == c && s[k..k + |d|] == d
  {
    var t := a + b + c + d;
    var i, j, k := |a|, |a| + |b|, |a| + |b| + |c|;
    SubSlice(s, pos, t, 0, i);
    SubSlice(s, pos, t, i, j);
    SubSlice(s, pos, t, j, k);
    SubSlice(s, pos, t, k, |t|);
    assert t[0..i] == a && t[i..j] == b && t[j..k] == c && t[k..|t|] == d;
  }

  /** The two consecutive parts of `a + b` held in `s` at `pos`. */
  lemma Slices2<T>(s: seq<T>, pos: nat, a: seq<T>, b: seq<T>)
    requires pos + |a + b| <= |s| && s[pos..pos + |a + b|] == a + b
    ensures s[pos..pos + |a|] == a
    ensures s[pos + |a|..pos + |a| + |b|] == b
  {
    SubSlice(s, pos, a + b, 0, |a|);
    SubSlice(s, pos, a + b, |a|, |a + b|);
    assert (a + b)[0..|a|] == a && (a + b)[|a|..|a + b|] == b;
  }

  /** Where `s` holds the first `k` elements of `t` from `pos` to its end, any part of them. */
  lemma PrefixAt<T>(s: seq<T>, pos: nat, t: seq<T>, k: nat, i: nat, j: nat)
    requires k <= |t| && pos + k == |s| && s[pos..] == t[..k] && i <= j <= k
    ensures s[pos + i..pos + j] == t[i..j]
    ensures i < j ==> s[pos + i] == t[i]
  {
    forall m | 0 <= m < j - i
      ensures s[pos + i..pos + j][m] == t[i..j][m]
    {
      assert t[i..j][m] == t[i + m] == t[..k][i + m] == s[pos..][i + m];
    }
    if i < j {
      assert s[pos + i] == s[pos..][i] == t[..k][i];
    }
  }

  lemma ConsAppend<T>(x: seq<T>, y: seq<T>)
    requires x != []
    ensures [x[0]] + (x[1..] + y) == x + y
  {
  }

  lemma SnocTail<T>(x: seq<T>, y: T)
    requires x != []
    ensures (x + [y])[0] == x[0] && (x + [y])[1..] == x[1..] + [y]
  {
  }

  lemma Assoc<T>(a: seq<T>, b: seq<T>, c: seq<T>)
    ensures a + b + c == a + (b + c)
  {
  }

  lemma AppendEmpty<T>(x: seq<T>)
    ensures x + [] == x
  {
  }

  /** Dropping the last element of `a + b`, for a non-empty `b`, leaves `a` and `b` without its last. */
  lemma DropLast<T>(a: seq<T>, b: seq<T>)
    requires b != []
    ensures (a + b)[..|a + b| - 1][0..|a|] == a
    ensures (a + b)[..|a + b| - 1][|a|..] == b[..|b| - 1]
  {
    assert (a + b)[..|a + b| - 1] == a + b[..|b| - 1];
  }
}
