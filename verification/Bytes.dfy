/** Bytes, big-endian 32-bit fields (struct.pack(">I")), and the binary streams that
    the sealing code reads from and writes to. */
module Bytes {
  type byte = x: int | 0 <= x < 256 witness 0
  type bytes = seq<byte>

  const LIMIT32: nat := 0x1_0000_0000

  function BE32(n: nat): (b: bytes)
    requires n < LIMIT32
    ensures |b| == 4 && UnBE32(b) == n
  {
    var (hi, lo) := (n / 0x1_0000, n % 0x1_0000);
    [hi / 0x100, hi % 0x100, lo / 0x100, lo % 0x100]
  }

  function UnBE32(b: bytes): (n: nat)
    requires |b| == 4
    ensures n < LIMIT32
  {
    (b[0] as int * 0x100 + b[1] as int) * 0x1_0000 + (b[2] as int * 0x100 + b[3] as int)
  }

  /** The most significant byte comes first, and only one field reads as a number. */
  lemma BigEndian(n: nat, b: bytes)
    requires n < LIMIT32 && |b| == 4
    ensures BE32(n) == b
        <==> n == b[0] as int * 0x100_0000 + b[1] as int * 0x1_0000 + b[2] as int * 0x100 + b[3] as int
  {
    hide BE32;
    BE32OfUnBE32(b);
  }

  lemma BE32OfUnBE32(b: bytes)
    requires |b| == 4
    ensures BE32(UnBE32(b)) == b
  {
    var n, b0: int, b1: int, b2: int, b3: int := UnBE32(b), b[0], b[1], b[2], b[3];
    assert n / 0x1_0000 == b0 * 0x100 + b1;
    assert n % 0x1_0000 == b2 * 0x100 + b3;
  }

  /** The first n bytes, or all of them when there are fewer. */
  function Take(s: bytes, n: nat): (t: bytes)
    ensures |t| <= n && t <= s
  {
    if |s| <= n then s else s[..n]
  }

  function Drop(s: bytes, n: nat): bytes {
    if |s| <= n then [] else s[n..]
  }

  /** A readable stream. One read returns any non-empty part of what was asked for, as a pipe does. */
  class Source {
    var rest: bytes

    constructor (data: bytes)
      ensures rest == data
    {
      rest := data;
    }

    method Read(n: nat) returns (b: bytes)
      modifies this
      ensures b + rest == old(rest) && |b| <= n
      ensures b == [] <==> n == 0 || old(rest) == []
    {
      if n == 0 || rest == [] {
        return [];
      }
      assert 1 <= 1 <= n && 1 <= |rest|;
      var k: nat :| 1 <= k <= n && k <= |rest|;
      b, rest := rest[..k], rest[k..];
    }

    /** `_read`: short reads are repeated until n bytes are there or the stream ends. */
    method ReadFully(n: nat) returns (buf: bytes)
      modifies this
      ensures buf == Take(old(rest), n) && rest == Drop(old(rest), n)
    {
      buf := [];
      while |buf| < n
        invariant |buf| <= n
        invariant buf + rest == old(rest)
        decreases n - |buf|
      {
        var b := Read(n - |buf|);
        if b == [] {
          break;
        }
        assert (buf + b) + rest == buf + (b + rest);
        buf := buf + b;
      }
    }
  }

  /** A writable stream, as the bytes written to it. */
  class Sink {
    var written: bytes

    constructor ()
      ensures written == []
    {
      written := [];
    }

    method Write(b: bytes)
      modifies this
      ensures written == old(written) + b
    {
      written := written + b;
    }
  }
}
