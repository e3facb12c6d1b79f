/** Octets and the fixed-width big-endian integers that Python's `struct`
    module reads and writes with the formats '!B', '!H', '!I', '!Q', '!h'
    and '!i'. */
module Bytes {

  /** An element of a Python `bytes` object: indexing one yields an int in 0..255. */
  type byte = x: int | 0 <= x < 256

  function Pow256(n: nat): (r: nat)
    ensures r >= 1
  {
    if n == 0 then 1 else 256 * Pow256(n - 1)
  }

  /** The unsigned big-endian value of `s` (`struct.unpack('!H'|'!I'|'!Q', s)`
      when `|s|` is 2, 4 or 8; a single byte for '!B'). */
  function BeUint(s: seq<byte>): nat
  {
    if s == [] then 0 else BeUint(s[..|s| - 1]) * 256 + s[|s| - 1]
  }

  /** The `w`-byte big-endian value that starts at `off` in `d`, read in place;
      `BeAtSlice` shows it is `BeUint(d[off .. off + w])`, the unpack of the
      slice `data[off:off+w]`. */
  function BeAt(d: seq<byte>, off: nat, w: nat): nat
    requires off + w <= |d|
    decreases w
  {
    if w == 0 then 0 else BeAt(d, off, w - 1) * 256 + d[off + w - 1]
  }

  lemma {:induction false} BeAtSlice(d: seq<byte>, off: nat, w: nat)
    requires off + w <= |d|
    ensures BeAt(d, off, w) == BeUint(d[off .. off + w])
    decreases w
  {
    if w > 0 {
      BeAtSlice(d, off, w - 1);
      assert d[off .. off + w][..w - 1] == d[off .. off + w - 1];
    }
  }

  /** Bytes appended after a value do not change it. */
  lemma {:induction false} BeAtAppend(d: seq<byte>, t: seq<byte>, off: nat, w: nat)
    requires off + w <= |d|
    ensures BeAt(d + t, off, w) == BeAt(d, off, w)
    decreases w
  {
    if w > 0 {
      BeAtAppend(d, t, off, w - 1);
    }
  }

  /** A value written after `pre` reads back at position `|pre|`. */
  lemma {:induction false} BeAtPrefix(pre: seq<byte>, v: seq<byte>)
    ensures BeAt(pre + v, |pre|, |v|) == BeUint(v)
  {
    BeAtSlice(pre + v, |pre|, |v|);
    assert (pre + v)[|pre| .. |pre| + |v|] == v;
  }

  /** An `n`-byte big-endian value is below 256^n. */
  lemma {:induction false} BeUintBound(s: seq<byte>)
    ensures BeUint(s) < Pow256(|s|)
  {
    if s != [] {
      BeUintBound(s[..|s| - 1]);
      assert BeUint(s[..|s| - 1]) <= Pow256(|s| - 1) - 1;
    }
  }

  /** The `n` low-order bytes of `v`, most significant first (`struct.pack`). */
  function BeBytes(v: nat, n: nat): (r: seq<byte>)
    ensures |r| == n
  {
    if n == 0 then [] else BeBytes(v / 256, n - 1) + [v % 256]
  }

  /** `struct.pack('!I', v)`: the 4-byte acknowledgement and frame length. */
  function U32Be(v: nat): (r: seq<byte>)
    requires v < 0x1_0000_0000
    ensures |r| == 4 && BeUint(r) == v
  {
    assert Pow256(4) == 0x1_0000_0000;
    BeBytesRoundTrip(v, 4);
    BeBytes(v, 4)
  }

  /** Two's-complement reading of an unsigned 32-bit value ('!i'). */
  function Int32(u: nat): (r: int)
    ensures u < 0x1_0000_0000 ==> -0x8000_0000 <= r < 0x8000_0000
    ensures r == u <==> u < 0x8000_0000
  {
    if u < 0x8000_0000 then u else u - 0x1_0000_0000
  }

  /** Two's-complement reading of an unsigned 16-bit value ('!h'). */
  function Int16(u: nat): (r: int)
    ensures u < 0x1_0000 ==> -0x8000 <= r < 0x8000
    ensures r == u <==> u < 0x8000
  {
    if u < 0x8000 then u else u - 0x1_0000
  }

  /** The unsigned 32-bit pattern of a signed value. */
  function Uint32Of(x: int): nat
    requires -0x8000_0000 <= x < 0x8000_0000
  {
    if x < 0 then x + 0x1_0000_0000 else x
  }

  /** The unsigned 16-bit pattern of a signed value. */
  function Uint16Of(x: int): nat
    requires -0x8000 <= x < 0x8000
  {
    if x < 0 then x + 0x1_0000 else x
  }

  lemma {:induction false} BeBytesRoundTrip(v: nat, n: nat)
    requires v < Pow256(n)
    ensures BeUint(BeBytes(v, n)) == v
  {
    if n > 0 {
      var s := BeBytes(v, n);
      assert s[..n - 1] == BeBytes(v / 256, n - 1) && s[n - 1] == v % 256;
      assert v / 256 < Pow256(n - 1);
      BeBytesRoundTrip(v / 256, n - 1);
      assert BeUint(s) == BeUint(s[..n - 1]) * 256 + v % 256;
    }
  }

  lemma {:induction false} BeUintRoundTrip(s: seq<byte>)
    ensures BeBytes(BeUint(s), |s|) == s
  {
    if s != [] {
      var p := s[..|s| - 1];
      var v := BeUint(s);
      assert v / 256 == BeUint(p) && v % 256 == s[|s| - 1];
      BeUintRoundTrip(p);
      assert s == p + [s[|s| - 1]];
    }
  }

  lemma {:induction false} Int32RoundTrip(x: int)
    requires -0x8000_0000 <= x < 0x8000_0000
    ensures Uint32Of(x) < 0x1_0000_0000 && Int32(Uint32Of(x)) == x
  {
  }

  lemma {:induction false} Int16RoundTrip(x: int)
    requires -0x8000 <= x < 0x8000
    ensures Uint16Of(x) < 0x1_0000 && Int16(Uint16Of(x)) == x
  {
  }

  // ---------------------------------------------------------------------
  // Concatenation

  /** Concatenation regroups freely. */
  lemma {:induction false} Assoc<T>(a: seq<T>, b: seq<T>, c: seq<T>)
    ensures a + (b + c) == a + b + c
  {
  }

  /** Appending nothing leaves a sequence as it is. */
  lemma {:induction false} AppendEmpty<T>(a: seq<T>)
    ensures a + [] == a
  {
  }
}
