/** Bytes and the little-endian integers that the packed records and netlink headers use. */
module Bytes {

  type Byte = x: int | 0 <= x < 256

  const U16 := 0x1_0000
  const U32 := 0x1_0000_0000

  /** ASCII text as bytes. */
  function Text(s: string): (bytes: seq<Byte>)
    ensures |bytes| == |s|
  {
    seq(|s|, i requires 0 <= i < |s| => s[i] as int % 256)
  }

  /** A 16-bit word; higher bits are cut off, as by a Rust `as` cast. */
  function Encode16(n: nat): (bytes: seq<Byte>)
    ensures |bytes| == 2
  {
    [n % 256, n / 256 % 256]
  }

  function Word16At(bytes: seq<Byte>, at: nat): (n: nat)
    requires at + 2 <= |bytes|
    ensures n < U16
  {
    bytes[at] as int + 256 * (bytes[at + 1] as int)
  }

  /** A 32-bit word; higher bits are cut off, as by a Rust `as` cast. */
  function Encode32(n: nat): (bytes: seq<Byte>)
    ensures |bytes| == 4
  {
    [n % 256, n / 256 % 256, n / 65536 % 256, n / 16777216 % 256]
  }

  function Word32At(bytes: seq<Byte>, at: nat): (n: nat)
    requires at + 4 <= |bytes|
    ensures n < U32
  {
    bytes[at] as int + 256 * (bytes[at + 1] as int) + 65536 * (bytes[at + 2] as int) + 16777216 * (bytes[at + 3] as int)
  }

  /** Reading a written word gives the number, truncated to the width of the word. */
  lemma Word16(n: nat)
    ensures Word16At(Encode16(n), 0) == n % U16
    ensures n < U16 ==> Word16At(Encode16(n), 0) == n
  {
    var low, high := n % 256, n / 256;
    assert n == low + 256 * (high % 256) + U16 * (high / 256);
  }

  lemma Word32(n: nat)
    requires n < U32
    ensures Word32At(Encode32(n), 0) == n
  {
    var low, high := n % 65536, n / 65536;
    assert low == n % 256 + 256 * (n / 256 % 256);
    assert high == high % 256 + 256 * (high / 256 % 256);
    assert high / 256 == n / 16777216;
  }

  /** Two's complement view of an unsigned 32-bit word. */
  function ToI32(n: nat): (i: int)
    requires n < U32
    ensures -0x8000_0000 <= i < 0x8000_0000
  {
    if n < 0x8000_0000 then n else n - U32
  }

  function FromI32(i: int): (n: nat)
    requires -0x8000_0000 <= i < 0x8000_0000
    ensures n < U32 && ToI32(n) == i
  {
    if i >= 0 then i else i + U32
  }

  // Slices of concatenations and of slices.

  lemma SliceAppend<T>(a: seq<T>, b: seq<T>, i: nat, j: nat)
    requires i <= j <= |a|
    ensures (a + b)[i..j] == a[i..j]
  {
  }

  lemma DropAppend<T>(a: seq<T>, b: seq<T>, i: nat)
    requires i <= |a|
    ensures (a + b)[i..] == a[i..] + b
  {
  }

  lemma SliceSlice<T>(s: seq<T>, low: nat, high: nat, i: nat, j: nat)
    requires low <= high <= |s| && i <= j <= high - low
    ensures s[low..high][i..j] == s[low + i..low + j]
  {
    var left, right := s[low..high][i..j], s[low + i..low + j];
    assert forall k :: 0 <= k < |left| ==> left[k] == s[low..high][i + k] == s[low + (i + k)] == right[k];
  }

  /** Overwriting part of a buffer. */
  function Patch(bytes: seq<Byte>, at: nat, data: seq<Byte>): (patched: seq<Byte>)
    requires at + |data| <= |bytes|
    ensures |patched| == |bytes|
  {
    seq(|bytes|, i requires 0 <= i < |bytes| => if at <= i < at + |data| then data[i - at] else bytes[i])
  }

  lemma PatchInside(bytes: seq<Byte>, at: nat, data: seq<Byte>, i: nat, j: nat)
    requires at + |data| <= |bytes| && i <= j <= |data|
    ensures Patch(bytes, at, data)[at + i..at + j] == data[i..j]
  {
  }

  lemma PatchOutside(bytes: seq<Byte>, at: nat, data: seq<Byte>, i: nat, j: nat)
    requires at + |data| <= |bytes| && i <= j <= |bytes| && (j <= at || at + |data| <= i)
    ensures Patch(bytes, at, data)[i..j] == bytes[i..j]
  {
  }

  lemma WholeSlice<T>(s: seq<T>)
    ensures s[..|s|] == s
  {
  }

  lemma SplitSlice<T>(s: seq<T>, i: nat, j: nat, k: nat)
    requires i <= j <= k <= |s|
    ensures s[i..k] == s[i..j] + s[j..k]
  {
  }
}
