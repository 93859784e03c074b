/** Fixed-width integers, their byte encodings and the failure wrappers shared by the model. */
module Bytes {

  type uint8 = x: int | 0 <= x < 0x100
  type uint32 = x: int | 0 <= x < 0x1_0000_0000
  type uint64 = x: int | 0 <= x < 0x1_0000_0000_0000_0000
  type int32 = x: int | -0x8000_0000 <= x < 0x8000_0000
  type int64 = x: int | -0x8000_0000_0000_0000 <= x < 0x8000_0000_0000_0000

  const TWO_32: nat := 0x1_0000_0000
  const TWO_64: nat := 0x1_0000_0000_0000_0000

  datatype Option<+T> = None | Some(value: T)

  datatype Result<+T, +E> = Ok(value: T) | Err(error: E)

  function Min(a: int, b: int): int { if a <= b then a else b }

  lemma Assoc<T>(x: seq<T>, y: seq<T>, z: seq<T>)
    ensures x + y + z == x + (y + z)
  {
  }

  /** 256 to the power n: the number of values n bytes can hold. */
  function Pow256(n: nat): (r: nat)
    ensures r > 0
  {
    if n == 0 then 1 else 256 * Pow256(n - 1)
  }

  lemma Pow256Values()
    ensures Pow256(4) == TWO_32 && Pow256(8) == TWO_64
  {
    assert Pow256(2) == 0x1_0000;
    assert Pow256(4) == 0x1_0000 * Pow256(2);
  }

  /** Four and eight little-endian bytes decode to 32- and 64-bit values. */
  lemma FromLEBound(s: seq<uint8>)
    ensures |s| == 4 ==> FromLE(s) < TWO_32
    ensures |s| == 8 ==> FromLE(s) < TWO_64
  {
    Pow256Values();
  }

  function Zeros(n: nat): (r: seq<uint8>)
    ensures |r| == n && forall i :: 0 <= i < n ==> r[i] == 0
  {
    seq(n, _ => 0)
  }

  // ----- little-endian: the native byte order of the x86-64 builds (memcpy/fwrite of integers)

  function LE(x: nat, width: nat): (r: seq<uint8>)
    requires x < Pow256(width)
    ensures |r| == width
  {
    if width == 0 then [] else [x % 256] + LE(x / 256, width - 1)
  }

  function FromLE(s: seq<uint8>): (r: nat)
    ensures r < Pow256(|s|)
  {
    if s == [] then 0 else s[0] + 256 * FromLE(s[1..])
  }

  lemma {:induction false} FromLEOfLE(x: nat, width: nat)
    requires x < Pow256(width)
    ensures FromLE(LE(x, width)) == x
  {
    if width > 0 {
      FromLEOfLE(x / 256, width - 1);
      assert LE(x, width)[1..] == LE(x / 256, width - 1);
    }
  }

  lemma {:induction false} LEOfFromLE(s: seq<uint8>)
    ensures LE(FromLE(s), |s|) == s
  {
    if s != [] {
      LEOfFromLE(s[1..]);
      assert FromLE(s) % 256 == s[0] && FromLE(s) / 256 == FromLE(s[1..]);
    }
  }

  /** Two values with the same little-endian encoding are equal. */
  lemma LEInjective(x: nat, y: nat, width: nat)
    requires x < Pow256(width) && y < Pow256(width)
    requires LE(x, width) == LE(y, width)
    ensures x == y
  {
    FromLEOfLE(x, width);
    FromLEOfLE(y, width);
  }

  // ----- big-endian: network byte order (htonl/ntohl)

  function BE(x: nat, width: nat): (r: seq<uint8>)
    requires x < Pow256(width)
    ensures |r| == width
  {
    if width == 0 then [] else BE(x / 256, width - 1) + [x % 256]
  }

  function FromBE(s: seq<uint8>): (r: nat)
    ensures r < Pow256(|s|)
  {
    if s == [] then 0 else 256 * FromBE(s[..|s| - 1]) + s[|s| - 1]
  }

  lemma {:induction false} FromBEOfBE(x: nat, width: nat)
    requires x < Pow256(width)
    ensures FromBE(BE(x, width)) == x
  {
    if width > 0 {
      FromBEOfBE(x / 256, width - 1);
      assert BE(x, width)[..width - 1] == BE(x / 256, width - 1);
    }
  }

  lemma {:induction false} BEOfFromBE(s: seq<uint8>)
    ensures BE(FromBE(s), |s|) == s
  {
    if s != [] {
      BEOfFromBE(s[..|s| - 1]);
      assert FromBE(s) % 256 == s[|s| - 1] && FromBE(s) / 256 == FromBE(s[..|s| - 1]);
    }
  }

  /** Reading a concatenation big-endian: the first part supplies the high digits. */
  lemma {:induction false} FromBEAppend(a: seq<uint8>, b: seq<uint8>)
    ensures FromBE(a + b) == FromBE(a) * Pow256(|b|) + FromBE(b)
  {
    if b == [] {
      assert a + b == a;
    } else {
      var b' := b[..|b| - 1];
      assert (a + b)[..|a + b| - 1] == a + b';
      FromBEAppend(a, b');
      var p := Pow256(|b'|);
      assert Pow256(|b|) == 256 * p;
      assert FromBE(b) == 256 * FromBE(b') + b[|b| - 1];
      assert FromBE(a + b) == 256 * FromBE(a + b') + b[|b| - 1];
      MulAssoc(FromBE(a), p);
    }
  }

  lemma MulAssoc(x: nat, y: nat)
    ensures 256 * (x * y) == x * (256 * y)
  {
  }

  /** A 64-bit value sent as its high word then its low word is its 8-byte big-endian encoding. */
  lemma BEWords(x: uint64)
    ensures x / TWO_32 < TWO_32
    ensures BE(x, 8) == BE(x / TWO_32, 4) + BE(x % TWO_32, 4)
  {
    Pow256Values();
    var hi, lo := x / TWO_32, x % TWO_32;
    var s := BE(hi, 4) + BE(lo, 4);
    FromBEAppend(BE(hi, 4), BE(lo, 4));
    FromBEOfBE(hi, 4);
    FromBEOfBE(lo, 4);
    assert FromBE(s) == hi * TWO_32 + lo == x;
    BEOfFromBE(s);
  }

  // ----- two's complement casts between signed and unsigned words

  function Unsigned32(x: int32): (r: uint32)
    ensures (r - x) % TWO_32 == 0
  {
    if x < 0 then x + TWO_32 else x
  }

  function Signed32(u: uint32): (r: int32)
    ensures (u - r) % TWO_32 == 0
  {
    if u < 0x8000_0000 then u else u - TWO_32
  }

  function Unsigned64(x: int64): (r: uint64)
    ensures (r - x) % TWO_64 == 0
  {
    if x < 0 then x + TWO_64 else x
  }

  function Signed64(u: uint64): (r: int64)
    ensures (u - r) % TWO_64 == 0
  {
    if u < 0x8000_0000_0000_0000 then u else u - TWO_64
  }

  lemma CastRoundTrips(x: int32, u: uint32, y: int64, v: uint64)
    ensures Signed32(Unsigned32(x)) == x && Unsigned32(Signed32(u)) == u
    ensures Signed64(Unsigned64(y)) == y && Unsigned64(Signed64(v)) == v
  {
  }
}
