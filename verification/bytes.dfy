/** Bytes, the little-endian order in which the machine stores numbers, and copying bytes. */
module Bytes {

  // uint8_t, uint16_t, uint32_t
  type Byte = n: nat | n < 256
  type Word16 = n: nat | n < 65536
  type Word32 = n: nat | n < 0x1_0000_0000

  // How many numbers n bytes can hold.
  function Capacity(n: nat): nat {
    if n == 0 then 1 else 256 * Capacity(n - 1)
  }

  function Le(v: nat, n: nat): (bytes: seq<Byte>)
    ensures |bytes| == n
  {
    if n == 0 then [] else [v % 256] + Le(v / 256, n - 1)
  }

  function FromLe(bytes: seq<Byte>): nat {
    if bytes == [] then 0 else bytes[0] + 256 * FromLe(bytes[1..])
  }

  lemma {:induction false} LeRoundTrip(v: nat, n: nat)
    requires v < Capacity(n)
    ensures FromLe(Le(v, n)) == v
  {
    if n > 0 {
      LeRoundTrip(v / 256, n - 1);
      assert Le(v, n)[1..] == Le(v / 256, n - 1);
    }
  }

  lemma {:induction false} ShortFits(v: Word16, n: nat)
    requires n >= 2
    ensures v < Capacity(n)
  {
    if n > 2 {
      ShortFits(v, n - 1);
    } else {
      assert Capacity(1) == 256;
    }
  }

  // The bytes of a number, the least significant one first.
  lemma ShortBytes(v: Word16)
    ensures Le(v, 2) == [v % 256, v / 256]
  {
  }

  lemma WordBytes(v: Word32, b: seq<Byte>)
    requires |b| == 4 && v == b[0] as int + 256 * b[1] as int + 65536 * b[2] as int + 16777216 * b[3] as int
    ensures Le(v, 4) == b
  {
    assert v / 256 == b[1] as int + 256 * b[2] as int + 65536 * b[3] as int;
    assert v / 256 / 256 == b[2] as int + 256 * b[3] as int;
    ShortBytes(v / 256 / 256);
    assert Le(v / 256, 3) == [v / 256 % 256] + Le(v / 256 / 256, 2);
    assert Le(v, 4) == [v % 256] + Le(v / 256, 3);
  }

  // ---------- copying ----------

  // The bytes with some of them replaced.
  function Splice(d: seq<Byte>, at: nat, bytes: seq<Byte>): (r: seq<Byte>)
    requires at + |bytes| <= |d|
    ensures |r| == |d|
  {
    d[..at] + bytes + d[at + |bytes|..]
  }

  lemma SpliceOutside(d: seq<Byte>, at: nat, bytes: seq<Byte>, lo: nat, hi: nat)
    requires at + |bytes| <= |d| && lo <= hi <= |d| && (hi <= at || at + |bytes| <= lo)
    ensures Splice(d, at, bytes)[lo..hi] == d[lo..hi]
  {
  }

  lemma SpliceInside(d: seq<Byte>, at: nat, bytes: seq<Byte>, lo: nat, hi: nat)
    requires at + |bytes| <= |d| && lo <= hi <= |bytes|
    ensures Splice(d, at, bytes)[at + lo..at + hi] == bytes[lo..hi]
  {
  }

  lemma SliceOfSlice(d: seq<Byte>, from: nat, to: nat, lo: nat, hi: nat)
    requires from <= to <= |d| && lo <= hi <= to - from
    ensures d[from..to][lo..hi] == d[from + lo..from + hi]
  {
    var x, y := d[from..to][lo..hi], d[from + lo..from + hi];
    assert |x| == |y|;
    forall k | 0 <= k < |x| ensures x[k] == y[k] {
      assert x[k] == d[from..to][lo + k] == d[from + (lo + k)];
    }
  }

  // memcpy
  method CopyIn(data: array<Byte>, at: nat, bytes: seq<Byte>)
    requires at + |bytes| <= data.Length
    modifies data
    ensures data[..] == Splice(old(data[..]), at, bytes)
  {
    for i := 0 to |bytes|
      invariant data[..at] == old(data[..at]) && data[at..at + i] == bytes[..i]
      invariant data[at + i..] == old(data[at + i..])
    {
      data[at + i] := bytes[i];
    }
  }
}
