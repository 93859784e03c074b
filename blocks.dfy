/**
 * A ledger block (CBlock): a 32-byte hash, the predecessor's hash, a creation
 * timestamp, a 32-bit nonce and a growable payload. SHA-256 is an OpenSSL call
 * outside this model: every operation that hashes takes it as a parameter `sha`.
 */
module Blocks {
  import opened Bytes

  const DIGEST_LENGTH: nat := 32
  /** sizeof(time_t) on the 64-bit builds the source targets. */
  const TIME_SIZE: nat := 8
  const NONCE_SIZE: nat := 4
  /**
   * The hash buffer's size is computed into a uint32: prevHash, timestamp and
   * nonce take 44 bytes, so a payload longer than this makes the size wrap.
   */
  const MAX_PAYLOAD: nat := TWO_32 - 1 - (DIGEST_LENGTH + TIME_SIZE + NONCE_SIZE)

  type Digest = s: seq<uint8> | |s| == DIGEST_LENGTH witness seq(32, _ => 0)

  /** An abstract SHA-256: any function from bytes to 32-byte digests. */
  type Hasher = seq<uint8> -> Digest

  const ZERO_DIGEST: Digest := Zeros(DIGEST_LENGTH)

  predicate IsZero(s: seq<uint8>) {
    forall i :: 0 <= i < |s| ==> s[i] == 0
  }

  lemma ZeroDigestIsOnlyZero(d: Digest)
    ensures IsZero(d) <==> d == ZERO_DIGEST
  {
    if IsZero(d) {
      assert forall i :: 0 <= i < 32 ==> d[i] == ZERO_DIGEST[i];
    }
  }

  /** The bytes fed to the hash: prevHash, the timestamp's bytes, the payload, the nonce's bytes. */
  function HashInput(prevHash: Digest, createdTS: int64, data: seq<uint8>, nonce: uint32): (r: seq<uint8>)
    ensures |r| == DIGEST_LENGTH + TIME_SIZE + |data| + NONCE_SIZE
  {
    Pow256Values();
    prevHash + LE(Unsigned64(createdTS), TIME_SIZE) + data + LE(nonce, NONCE_SIZE)
  }

  /** The hash input determines every field it is built from: no two blocks share one. */
  lemma HashInputInjective(p1: Digest, t1: int64, d1: seq<uint8>, n1: uint32,
                           p2: Digest, t2: int64, d2: seq<uint8>, n2: uint32)
    requires HashInput(p1, t1, d1, n1) == HashInput(p2, t2, d2, n2)
    ensures p1 == p2 && t1 == t2 && d1 == d2 && n1 == n2
  {
    Pow256Values();
    var s := HashInput(p1, t1, d1, n1);
    var k := |d1|;
    assert |d2| == k;
    var e1, e2 := LE(Unsigned64(t1), 8), LE(Unsigned64(t2), 8);
    var f1, f2 := LE(n1, 4), LE(n2, 4);
    assert s == p1 + e1 + d1 + f1;
    assert s == p2 + e2 + d2 + f2;
    assert p1 == s[..32] == p2;
    assert e1 == s[32..40] == e2;
    assert d1 == s[40..40 + k] == d2;
    assert f1 == s[40 + k..] == f2;
    LEInjective(Unsigned64(t1), Unsigned64(t2), 8);
    LEInjective(n1, n2, 4);
    CastRoundTrips(0, 0, t1, 0);
    CastRoundTrips(0, 0, t2, 0);
  }

  /** The difficulty test: the first `difficulty` bytes of the hash are zero. */
  predicate LeadingZeros(h: Digest, difficulty: nat)
    requires difficulty <= DIGEST_LENGTH
  {
    forall n :: 0 <= n < difficulty ==> h[n] == 0
  }

  lemma NoDifficultyAlwaysHolds(h: Digest)
    ensures LeadingZeros(h, 0)
  {
  }

  // ----- lowercase hex rendering (sprintf "%02x" per byte)

  function HexDigit(v: nat): (c: char)
    requires v < 16
    ensures IsHexChar(c)
  {
    if v < 10 then (('0' as int) + v) as char else (('a' as int) + v - 10) as char
  }

  predicate IsHexChar(c: char) {
    '0' <= c <= '9' || 'a' <= c <= 'f'
  }

  /** The numeric value of a hex digit, the inverse of HexDigit. */
  function HexValue(c: char): (v: nat)
    requires IsHexChar(c)
    ensures v < 16 && HexDigit(v) == c
  {
    if c <= '9' then c as int - '0' as int else c as int - 'a' as int + 10
  }

  function Hex(s: seq<uint8>): (r: string)
    ensures |r| == 2 * |s|
    ensures forall i :: 0 <= i < |r| ==> IsHexChar(r[i])
    ensures forall i :: 0 <= i < |s| ==> r[2 * i] == HexDigit(s[i] / 16) && r[2 * i + 1] == HexDigit(s[i] % 16)
  {
    if s == [] then [] else [HexDigit(s[0] / 16), HexDigit(s[0] % 16)] + Hex(s[1..])
  }

  /** Reads a hex string back into bytes, two digits per byte. */
  function Unhex(r: string): (s: seq<uint8>)
    requires |r| % 2 == 0 && forall i :: 0 <= i < |r| ==> IsHexChar(r[i])
    ensures |s| == |r| / 2
  {
    if r == [] then [] else [16 * HexValue(r[0]) + HexValue(r[1])] + Unhex(r[2..])
  }

  /** Unhex inverts Hex, so the rendering is injective. */
  lemma {:induction false} UnhexOfHex(s: seq<uint8>)
    ensures Unhex(Hex(s)) == s
  {
    if s != [] {
      UnhexOfHex(s[1..]);
      assert Hex(s)[2..] == Hex(s[1..]);
    }
  }

  lemma HexInjective(a: seq<uint8>, b: seq<uint8>)
    requires Hex(a) == Hex(b)
    ensures a == b
  {
    UnhexOfHex(a);
    UnhexOfHex(b);
  }

  /** getHashStr's loop: two lowercase hex digits per byte, in byte order. */
  method HexString(bytes: seq<uint8>) returns (str: string)
    ensures str == Hex(bytes)
  {
    str := "";
    var n := 0;
    assert bytes[0..] == bytes;
    while n < |bytes|
      invariant 0 <= n <= |bytes|
      invariant str + Hex(bytes[n..]) == Hex(bytes)
    {
      var digits := [HexDigit(bytes[n] / 16), HexDigit(bytes[n] % 16)];
      HexFrom(bytes, n);
      Assoc(str, digits, Hex(bytes[n + 1..]));
      str := str + digits;
      n := n + 1;
    }
    assert bytes[n..] == [];
    assert str + [] == str;
  }

  /** The digits of a suffix: those of its first byte, then the rest. */
  lemma HexFrom(bytes: seq<uint8>, n: nat)
    requires n < |bytes|
    ensures Hex(bytes[n..]) == [HexDigit(bytes[n] / 16), HexDigit(bytes[n] % 16)] + Hex(bytes[n + 1..])
  {
    assert bytes[n..][1..] == bytes[n + 1..];
  }

  /** The "some byte is non-zero" loop shared by hasHash and hasPrevHash. */
  method AnyNonZero(bytes: seq<uint8>) returns (found: bool)
    ensures found <==> !IsZero(bytes)
  {
    var n := 0;
    while n < |bytes|
      invariant 0 <= n <= |bytes|
      invariant forall k :: 0 <= k < n ==> bytes[k] == 0
    {
      if bytes[n] != 0 {
        return true;
      }
      n := n + 1;
    }
    return false;
  }

  /** A snapshot of a block's fields. */
  datatype BlockValue = BlockValue(hash: Digest, prevHash: Digest, createdTS: int64, nonce: uint32, data: seq<uint8>)

  function NextNonce(n: uint32): uint32 {
    (n + 1) % TWO_32
  }

  /** The nonce after k increments, wrapping at 2^32. */
  function NonceAfter(n: uint32, k: nat): uint32 {
    (n + k) % TWO_32
  }

  lemma NonceStep(n: uint32, k: nat)
    ensures NextNonce(NonceAfter(n, k)) == NonceAfter(n, k + 1)
  {
  }

  class Block {
    var hash: Digest
    var prevHash: Digest
    var prevBlock: Block?
    var data: seq<uint8>
    var createdTS: int64
    var nonce: uint32

    /** The payload fits the hash buffer (and mDataSize). */
    predicate Valid()
      reads this
    {
      |data| <= MAX_PAYLOAD
    }

    function Input(): seq<uint8>
      reads this
    {
      HashInput(prevHash, createdTS, data, nonce)
    }

    /** The stored hash is the hash of the current fields. */
    predicate Sealed(sha: Hasher)
      reads this
    {
      hash == sha(Input())
    }

    function Value(): BlockValue
      reads this
    {
      BlockValue(hash, prevHash, createdTS, nonce, data)
    }

    /**
     * A new block after `prev` (null for a genesis block), created at `now`.
     * With `givenHash` the hash is taken as given, otherwise it is computed.
     */
    constructor (prev: Block?, givenHash: Option<Digest>, now: int64, sha: Hasher)
      ensures prevBlock == prev
      ensures prevHash == if prev == null then ZERO_DIGEST else prev.hash
      ensures createdTS == now && nonce == 0 && data == []
      ensures givenHash.Some? ==> hash == givenHash.value
      ensures givenHash.None? ==> Sealed(sha)
      ensures Valid()
    {
      prevBlock := prev;
      hash := if givenHash.Some? then givenHash.value else ZERO_DIGEST;
      prevHash := if prev != null then prev.hash else ZERO_DIGEST;
      createdTS := now;
      nonce := 0;
      data := [];
      new;
      if givenHash.None? {
        CalculateHash(sha);
      }
    }

    /** calculateHash(): serialises the fields and stores their digest as the hash. */
    method CalculateHash(sha: Hasher)
      requires Valid()
      modifies this`hash
      ensures hash == sha(Input())
    {
      Pow256Values();
      var buf := prevHash;
      buf := buf + LE(Unsigned64(createdTS), TIME_SIZE);
      if |data| != 0 {
        buf := buf + data;
      }
      buf := buf + LE(nonce, NONCE_SIZE);
      assert buf == Input();
      hash := sha(buf);
    }

    /** calculateHash(ret) with a result buffer: the digest of the fields, the stored hash untouched. */
    method ComputeHash(sha: Hasher) returns (digest: Digest)
      requires Valid()
      ensures digest == sha(HashInput(prevHash, createdTS, data, nonce))
    {
      Pow256Values();
      var buf := prevHash + LE(Unsigned64(createdTS), TIME_SIZE);
      if |data| != 0 {
        buf := buf + data;
      }
      buf := buf + LE(nonce, NONCE_SIZE);
      assert buf == HashInput(prevHash, createdTS, data, nonce);
      digest := sha(buf);
    }

    method GetHashStr() returns (str: string)
      ensures str == Hex(hash) && |str| == 2 * DIGEST_LENGTH
    {
      str := HexString(hash);
    }

    method GetPrevHashStr() returns (str: string)
      ensures str == Hex(prevHash) && |str| == 2 * DIGEST_LENGTH
    {
      str := HexString(prevHash);
    }

    method AppendData(bytes: seq<uint8>)
      requires Valid() && |data| + |bytes| <= MAX_PAYLOAD
      modifies this`data
      ensures data == old(data) + bytes && Valid()
    {
      var grown := [];
      if |data| != 0 {
        grown := data;
      }
      grown := grown + bytes;
      data := grown;
    }

    /**
     * isDifficulty: the first `difficulty` bytes of the stored hash are zero.
     * The source compares an unsigned index with the int difficulty, so a negative
     * difficulty or one above 32 reads past the hash; callers keep it in 0..32.
     */
    method IsDifficulty(difficulty: int) returns (ok: bool)
      requires 0 <= difficulty <= DIGEST_LENGTH
      ensures ok <==> LeadingZeros(hash, difficulty)
    {
      var n := 0;
      while n < difficulty
        invariant 0 <= n <= difficulty
        invariant forall k :: 0 <= k < n ==> hash[k] == 0
      {
        if hash[n] != 0 {
          return false;
        }
        n := n + 1;
      }
      return true;
    }

    /**
     * mine: while the hash misses the difficulty, increment the nonce and rehash.
     * The source's loop is unbounded; here at most `fuel` attempts are made and
     * `mined` says whether the difficulty was reached. `attempts` counts them.
     */
    method Mine(sha: Hasher, difficulty: int, fuel: nat) returns (mined: bool, attempts: nat)
      requires Valid() && 0 <= difficulty <= DIGEST_LENGTH
      modifies this`nonce, this`hash
      ensures mined <==> LeadingZeros(hash, difficulty)
      ensures attempts <= fuel && (!mined ==> attempts == fuel)
      ensures nonce == NonceAfter(old(nonce), attempts)
      ensures attempts == 0 ==> hash == old(hash)
      ensures attempts > 0 ==> Sealed(sha) && !LeadingZeros(old(hash), difficulty)
      ensures forall j :: 0 < j < attempts ==>
        !LeadingZeros(sha(HashInput(prevHash, createdTS, data, NonceAfter(old(nonce), j))), difficulty)
    {
      attempts := 0;
      mined := IsDifficulty(difficulty);
      while !mined && attempts < fuel
        invariant attempts <= fuel
        invariant mined <==> LeadingZeros(hash, difficulty)
        invariant nonce == NonceAfter(old(nonce), attempts)
        invariant attempts == 0 ==> hash == old(hash)
        invariant attempts > 0 ==> Sealed(sha) && !LeadingZeros(old(hash), difficulty)
        invariant forall j :: 0 < j < attempts ==>
          !LeadingZeros(sha(HashInput(prevHash, createdTS, data, NonceAfter(old(nonce), j))), difficulty)
        decreases fuel - attempts
      {
        ghost var failed := hash;
        assert attempts > 0 ==> failed == sha(HashInput(prevHash, createdTS, data, NonceAfter(old(nonce), attempts)));
        NonceStep(old(nonce), attempts);
        nonce := NextNonce(nonce);
        CalculateHash(sha);
        attempts := attempts + 1;
        mined := IsDifficulty(difficulty);
      }
    }

    method HasHash() returns (found: bool)
      ensures found <==> hash != ZERO_DIGEST
    {
      found := AnyNonZero(hash);
      ZeroDigestIsOnlyZero(hash);
    }

    method HasPrevHash() returns (found: bool)
      ensures found <==> prevHash != ZERO_DIGEST
    {
      found := AnyNonZero(prevHash);
      ZeroDigestIsOnlyZero(prevHash);
    }

    method SetPrevHash(h: Digest)
      modifies this`prevHash
      ensures prevHash == h
    {
      prevHash := h;
    }

    method SetPrevBlock(b: Block)
      modifies this`prevBlock, this`prevHash
      ensures prevBlock == b && prevHash == old(b.hash)
    {
      prevBlock := b;
      SetPrevHash(b.hash);
    }

    method SetCreatedTS(ts: int64)
      modifies this`createdTS
      ensures createdTS == ts
    {
      createdTS := ts;
    }

    method SetNonce(n: uint32)
      modifies this`nonce
      ensures nonce == n
    {
      nonce := n;
    }

    /** Replaces the payload with an already allocated buffer of `|bytes|` bytes. */
    method SetAllocatedData(bytes: seq<uint8>)
      requires |bytes| < TWO_32
      modifies this`data
      ensures data == bytes
      ensures Valid() <==> |bytes| <= MAX_PAYLOAD
    {
      data := bytes;
    }

    /** isValid: the stored hash equals the hash recomputed from the current fields. */
    method IsValid(sha: Hasher) returns (ok: bool)
      requires Valid()
      ensures ok <==> hash == sha(HashInput(prevHash, createdTS, data, nonce))
    {
      var digest := ComputeHash(sha);
      ok := digest == hash;
    }
  }
}
