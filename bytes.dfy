/**
  Little-endian integers as they sit in the loaded image: the 4-byte REL32
  displacement fields and the 8-byte external pointer slots.
 */
module Bytes {

  const Two32: nat := 0x1_0000_0000
  const Two64: nat := 0x1_0000_0000_0000_0000

  /** One byte of an object file or of the loaded image. */
  type Byte = b: int | 0 <= b < 256

  /** A 64-bit absolute address (what `PVOID` holds on x64). */
  type Address = x: nat | x < Two64

  /** The number of values an unsigned integer `n` bytes wide can hold. */
  function Pow256(n: nat): (r: nat)
    ensures r >= 1
  {
    if n == 0 then 1 else 256 * Pow256(n - 1)
  }

  /** The `n` low-order bytes of `x`, least significant first (what `memcpy`
      of an integer copies on a little-endian machine). */
  function EncodeLE(x: nat, n: nat): (bs: seq<Byte>)
    ensures |bs| == n
  {
    if n == 0 then [] else [x % 256] + EncodeLE(x / 256, n - 1)
  }

  /** The unsigned integer stored little-endian in `bs`. */
  function DecodeLE(bs: seq<Byte>): (x: nat)
    ensures x < Pow256(|bs|)
  {
    if bs == [] then 0
    else
      var rest := DecodeLE(bs[1..]);
      assert 256 * rest <= 256 * (Pow256(|bs| - 1) - 1);
      bs[0] + 256 * rest
  }

  lemma {:induction false} DecodeEncode(x: nat, n: nat)
    requires x < Pow256(n)
    ensures DecodeLE(EncodeLE(x, n)) == x
  {
    if n > 0 {
      assert x / 256 < Pow256(n - 1);
      DecodeEncode(x / 256, n - 1);
      var bs := EncodeLE(x, n);
      assert bs[1..] == EncodeLE(x / 256, n - 1);
      assert bs[0] == x % 256;
      assert DecodeLE(bs) == x % 256 + 256 * (x / 256);
    }
  }

  lemma {:induction false} EncodeDecode(bs: seq<Byte>)
    ensures EncodeLE(DecodeLE(bs), |bs|) == bs
  {
    if bs != [] {
      EncodeDecode(bs[1..]);
      var x := DecodeLE(bs);
      assert x % 256 == bs[0];
      assert x / 256 == DecodeLE(bs[1..]);
    }
  }

  lemma Widths()
    ensures Pow256(4) == Two32 && Pow256(8) == Two64
  {
  }

  /** The value of a REL32 field at image offset `site` that makes the
      processor reach `target`: the displacement is measured from the end of
      the 4-byte field and kept modulo 2^32, as the low half of the 64-bit
      difference `target - site - 4` is. */
  function Displacement(target: int, site: int): (d: nat)
    ensures d < Two32
    ensures (site + 4 + d - target) % Two32 == 0
  {
    var d := (target - site - 4) % Two32;
    assert (target - site - 4) - d == Two32 * ((target - site - 4) / Two32);
    d
  }
}
