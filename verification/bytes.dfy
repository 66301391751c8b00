/**
 Bytes, the fixed-width integers that travel over the event loop's control
 socket, and their little-endian encodings.

 The control channel writes C `int`, `unsigned int` and pointer values with
 `write(fd, &value, sizeof value)`, i.e. in host byte order. The model fixes
 the host: little-endian, 4-byte `int`/`unsigned int`, 8-byte pointers.
 */
module Bytes {

  newtype byte = b: int | 0 <= b < 0x100

  type Int32 = x: int | -0x8000_0000 <= x < 0x8000_0000
  type Uint32 = x: int | 0 <= x < 0x1_0000_0000
  /** A pointer value (an opaque library handle) on a 64-bit host. */
  type Uint64 = x: int | 0 <= x < 0x1_0000_0000_0000_0000

  function Pow256(n: nat): (r: nat)
    ensures r >= 1
  {
    if n == 0 then 1 else 0x100 * Pow256(n - 1)
  }

  /** The `n` low-order bytes of `x`, least significant first. */
  function EncodeLE(x: nat, n: nat): (s: seq<byte>)
    requires x < Pow256(n)
    ensures |s| == n
    ensures n > 0 ==> s[0] as int == x % 0x100
  {
    if n == 0 then [] else [(x % 0x100) as byte] + EncodeLE(x / 0x100, n - 1)
  }

  /** The unsigned value of a little-endian byte string. */
  function DecodeLE(s: seq<byte>): (x: nat)
    ensures x < Pow256(|s|)
  {
    if |s| == 0 then 0 else s[0] as int + 0x100 * DecodeLE(s[1..])
  }

  lemma {:induction false} DecodeEncodeLE(x: nat, n: nat)
    requires x < Pow256(n)
    ensures DecodeLE(EncodeLE(x, n)) == x
  {
    if n > 0 {
      var s := EncodeLE(x, n);
      assert s[1..] == EncodeLE(x / 0x100, n - 1);
      DecodeEncodeLE(x / 0x100, n - 1);
    }
  }

  lemma {:induction false} EncodeDecodeLE(s: seq<byte>)
    ensures EncodeLE(DecodeLE(s), |s|) == s
  {
    if |s| > 0 {
      var x := DecodeLE(s);
      assert x / 0x100 == DecodeLE(s[1..]);
      EncodeDecodeLE(s[1..]);
    }
  }

  /** A C `int` as four bytes, two's complement. */
  function EncodeInt32(v: Int32): (s: seq<byte>)
    ensures |s| == 4
  {
    EncodeLE(if v < 0 then v + 0x1_0000_0000 else v, 4)
  }

  function DecodeInt32(s: seq<byte>): (v: Int32)
    requires |s| == 4
    ensures 0 <= v ==> DecodeLE(s) == v
    ensures v < 0 ==> DecodeLE(s) == v + 0x1_0000_0000
  {
    var u := DecodeLE(s);
    if u < 0x8000_0000 then u else u - 0x1_0000_0000
  }

  lemma DecodeEncodeInt32(v: Int32)
    ensures DecodeInt32(EncodeInt32(v)) == v
  {
    DecodeEncodeLE(if v < 0 then v + 0x1_0000_0000 else v, 4);
  }

  function EncodeUint32(v: Uint32): (s: seq<byte>)
    ensures |s| == 4
  {
    EncodeLE(v, 4)
  }

  function DecodeUint32(s: seq<byte>): (v: Uint32)
    requires |s| == 4
  {
    DecodeLE(s)
  }

  function EncodeUint64(v: Uint64): (s: seq<byte>)
    ensures |s| == 8
  {
    EncodeLE(v, 8)
  }

  function DecodeUint64(s: seq<byte>): (v: Uint64)
    requires |s| == 8
  {
    DecodeLE(s)
  }

  lemma DecodeEncodeUint32(v: Uint32)
    ensures DecodeUint32(EncodeUint32(v)) == v
  {
    DecodeEncodeLE(v, 4);
  }

  lemma DecodeEncodeUint64(v: Uint64)
    ensures DecodeUint64(EncodeUint64(v)) == v
  {
    DecodeEncodeLE(v, 8);
  }

  /** Four bytes read as an `int` and written back are the same bytes. */
  lemma EncodeDecodeInt32(s: seq<byte>)
    requires |s| == 4
    ensures EncodeInt32(DecodeInt32(s)) == s
  {
    assert Pow256(4) == 0x1_0000_0000;
    EncodeDecodeLE(s);
  }

  lemma EncodeDecodeUint32(s: seq<byte>)
    requires |s| == 4
    ensures EncodeUint32(DecodeUint32(s)) == s
  {
    EncodeDecodeLE(s);
  }

  lemma EncodeDecodeUint64(s: seq<byte>)
    requires |s| == 8
    ensures EncodeUint64(DecodeUint64(s)) == s
  {
    EncodeDecodeLE(s);
  }
}
