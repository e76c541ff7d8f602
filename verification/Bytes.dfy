/** Bytes, all-zero buffers and files as byte sequences. */
module Bytes {

  type byte = x: int | 0 <= x < 256

  function Zeros(n: nat): (z: seq<byte>)
    ensures |z| == n && AllZero(z)
  {
    seq(n, _ => 0)
  }

  predicate AllZero(s: seq<byte>) {
    forall i :: 0 <= i < |s| ==> s[i] == 0
  }

  /** The early-exit scan `is_zero` over the first `size` bytes of a buffer. */
  method IsZero(buffer: seq<byte>, size: nat) returns (zero: bool)
    requires size <= |buffer|
    ensures zero <==> AllZero(buffer[..size])
  {
    var i := 0;
    while i < size
      invariant i <= size
      invariant forall k :: 0 <= k < i ==> buffer[k] == 0
    {
      if buffer[i] != 0 {
        assert buffer[..size][i] != 0;
        return false;
      }
      i := i + 1;
    }
    return true;
  }

  /** The C string at the start of a buffer: the bytes before the first NUL. */
  function CString(b: seq<byte>): (s: seq<byte>)
    ensures s <= b && 0 !in s && (|s| < |b| ==> b[|s|] == 0)
  {
    if b == [] || b[0] == 0 then [] else [b[0]] + CString(b[1..])
  }

  /** The NUL ends the string, whatever follows it. */
  lemma {:induction false} CStringOf(s: seq<byte>, rest: seq<byte>)
    requires 0 !in s && (rest == [] || rest[0] == 0)
    ensures CString(s + rest) == s
  {
    if s == [] {
      assert s + rest == rest;
    } else {
      assert (s + rest)[1..] == s[1..] + rest;
      CStringOf(s[1..], rest);
    }
  }

  /** A file after `ftruncate`: cut, or extended with a hole that reads as zeros. */
  function Truncate(f: seq<byte>, n: nat): (r: seq<byte>)
    ensures |r| == n
    ensures forall i :: 0 <= i < n ==> r[i] == if i < |f| then f[i] else 0
  {
    if n <= |f| then f[..n] else f + Zeros(n - |f|)
  }

  /** A file after one byte was written at `off`; a gap past the old end reads as zeros. */
  function Poke(f: seq<byte>, off: nat, b: byte): seq<byte> {
    if off < |f| then f[off := b] else f + Zeros(off - |f|) + [b]
  }

  /** A file after writing `d` at `off`. */
  function WriteAt(f: seq<byte>, off: nat, d: seq<byte>): seq<byte>
    decreases |d|
  {
    if d == [] then f else WriteAt(Poke(f, off, d[0]), off + 1, d[1..])
  }

  /** What a write means, byte by byte. */
  predicate IsWrite(f: seq<byte>, off: nat, d: seq<byte>, r: seq<byte>) {
    && |r| == (if d != [] && off + |d| > |f| then off + |d| else |f|)
    && forall i :: 0 <= i < |r| ==>
         r[i] == if off <= i < off + |d| then d[i - off] else if i < |f| then f[i] else 0
  }

  lemma {:induction false} WriteAtBytes(f: seq<byte>, off: nat, d: seq<byte>)
    ensures IsWrite(f, off, d, WriteAt(f, off, d))
    decreases |d|
  {
    if d != [] {
      var g, r := Poke(f, off, d[0]), WriteAt(f, off, d);
      WriteAtBytes(g, off + 1, d[1..]);
      forall i | 0 <= i < |r|
        ensures r[i] == if off <= i < off + |d| then d[i - off] else if i < |f| then f[i] else 0
      {
        if off + 1 <= i < off + |d| {
          assert d[1..][i - (off + 1)] == d[i - off];
        }
      }
    }
  }

  /** Two adjacent writes are one longer write. */
  lemma {:induction false} WriteAtAppend(f: seq<byte>, off: nat, d: seq<byte>, e: seq<byte>)
    ensures WriteAt(WriteAt(f, off, d), off + |d|, e) == WriteAt(f, off, d + e)
    decreases |d|
  {
    if d == [] {
      assert d + e == e;
    } else {
      WriteAtAppend(Poke(f, off, d[0]), off + 1, d[1..], e);
      assert (d + e)[1..] == d[1..] + e && (d + e)[0] == d[0];
    }
  }
}
