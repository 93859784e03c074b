/**
 * The local block store (CStorageLocal): one file per block, named by the hex
 * form of its hash under a base directory, and a metadata file holding the
 * manifest. The directory is a map from path to contents; multi-byte integers
 * are written in the machine's little-endian order.
 */
module Storage {
  import opened Bytes
  import opened Blocks
  import Manifest

  // ----- manifest keys

  /** The bytes of a character string, one per character (of its low 8 bits). */
  function Latin1(s: string): (r: seq<uint8>)
    ensures |r| == |s| && forall i :: 0 <= i < |s| ==> r[i] == s[i] as int % 256
  {
    seq(|s|, i requires 0 <= i < |s| => s[i] as int % 256)
  }

  const LAST_BLOCK_HASH: Manifest.Bytestring := Latin1("LAST_BLOCK_HASH")
  const LAST_BLOCK_HASH_STR: Manifest.Bytestring := Latin1("LAST_BLOCK_HASH_STR")
  const BLOCK_COUNT: Manifest.Bytestring := Latin1("BLOCK_COUNT")

  /** The three keys the store writes are distinct and none is empty. */
  lemma KeysDistinct()
    ensures |LAST_BLOCK_HASH| == 15 && |LAST_BLOCK_HASH_STR| == 19 && |BLOCK_COUNT| == 11
    ensures LAST_BLOCK_HASH != LAST_BLOCK_HASH_STR && LAST_BLOCK_HASH != BLOCK_COUNT
    ensures LAST_BLOCK_HASH_STR != BLOCK_COUNT
  {
  }

  // ----- the block file

  const FILE_VERSION: uint32 := 1
  /** mChunkSize: the payload is read in reads of at most this many bytes. */
  const CHUNK_SIZE: nat := 2048
  /** Version, hash, prevHash, timestamp, nonce and payload size. */
  const HEADER_SIZE: nat := 84

  /** A block file as save writes it. */
  function BlockFile(v: BlockValue): (r: seq<uint8>)
    requires |v.data| < TWO_32
    ensures |r| == HEADER_SIZE + |v.data|
  {
    Pow256Values();
    LE(FILE_VERSION, 4) + v.hash + v.prevHash + LE(Unsigned64(v.createdTS), TIME_SIZE)
      + LE(v.nonce, NONCE_SIZE) + LE(|v.data|, 4) + v.data
  }

  /** The timestamp field of a block file, as the 8-byte time_t it holds. */
  function CreatedTSAt(f: seq<uint8>): int64
    requires |f| >= 76
  {
    FromLEBound(f[68..76]);
    Signed64(FromLE(f[68..76]))
  }

  datatype LoadError =
    | NotFound | ReadVersion | ReadHash | ReadPrevHash | ReadCreatedTS | ReadNonce | ReadDataSize
    | ReadDataChunk
      /** A read that would write past the payload buffer. */
    | BufferOverrun

  /** What load stores into the block: the hash field of the file is read but not used. */
  datatype Loaded = Loaded(prevHash: Digest, createdTS: int64, nonce: uint32, data: seq<uint8>)

  /**
   * The chunk loop of load: `n` counts in 32 bits from 0 by CHUNK_SIZE while it is
   * below `size`; each read takes what is left of the file, up to CHUNK_SIZE bytes,
   * into a buffer with `room` bytes still free. The result is the bytes read.
   */
  function ReadChunks(rest: seq<uint8>, n: uint32, size: uint32, room: nat): (r: Result<seq<uint8>, LoadError>)
    ensures r.Ok? ==> r.value <= rest && |r.value| <= room
    decreases |rest|
  {
    if n >= size then Ok([])
    else
      var k := Min(CHUNK_SIZE, |rest|);
      if k == 0 then Err(ReadDataChunk)
      else if k > room then Err(BufferOverrun)
      else
        match ReadChunks(rest[k..], (n + CHUNK_SIZE) % TWO_32, size, room - k)
        case Err(e) => Err(e)
        case Ok(more) => Ok(rest[..k] + more)
  }

  /** The bytes of a fresh buffer from `from` on, before anything is read into them. */
  function Uninitialized(uninit: nat -> uint8, from: nat, count: nat): (r: seq<uint8>)
    ensures |r| == count
  {
    seq(count, i requires 0 <= i < count => uninit(from + i))
  }

  /** The effect of load on a block file (None when the file does not exist). */
  function ParseBlockFile(file: Option<seq<uint8>>, uninit: nat -> uint8): (r: Result<Loaded, LoadError>)
    ensures r.Ok? ==> file.Some? && |file.value| >= HEADER_SIZE
    ensures r.Ok? ==> |r.value.data| == FromLE(file.value[80..84]) <= TWO_32 - CHUNK_SIZE
  {
    if file.None? then Err(NotFound)
    else
      var f := file.value;
      if |f| < 4 then Err(ReadVersion)
      else if |f| < 36 then Err(ReadHash)
      else if |f| < 68 then Err(ReadPrevHash)
      else if |f| < 76 then Err(ReadCreatedTS)
      else if |f| < 80 then Err(ReadNonce)
      else if |f| < HEADER_SIZE then Err(ReadDataSize)
      else
        FromLEBound(f[76..80]);
        FromLEBound(f[80..84]);
        var size := FromLE(f[80..84]);
        match ReadChunks(f[HEADER_SIZE..], 0, size, size)
        case Err(e) => Err(e)
        case Ok(got) =>
          NoLoadAboveLimit(f[HEADER_SIZE..], 0, size, size);
          Ok(Loaded(f[36..68], CreatedTSAt(f), FromLE(f[76..80]),
                    got + Uninitialized(uninit, |got|, size - |got|)))
  }

  // ----- properties of the chunk loop

  /**
   * The chunk loop on a file whose payload part `rest` is no longer than what the
   * counter still has to cover (size - n), with the size clear of the counter's
   * 32-bit wrap. Every read but the last takes a full chunk, so the loop succeeds,
   * reading all of `rest`, exactly when the file still has bytes at the start of
   * the last chunk; otherwise a read returns nothing.
   */
  lemma {:induction false} ReadChunksOfPrefix(rest: seq<uint8>, n: uint32, size: uint32)
    requires n <= size <= TWO_32 - CHUNK_SIZE && |rest| <= size - n
    ensures ReadChunks(rest, n, size, size - n)
         == if n == size || (size - n - 1) / CHUNK_SIZE * CHUNK_SIZE < |rest| then Ok(rest) else Err(ReadDataChunk)
    decreases size - n
  {
    if n < size {
      var k := Min(CHUNK_SIZE, |rest|);
      var n' := (n + CHUNK_SIZE) % TWO_32;
      assert n' == n + CHUNK_SIZE;
      if |rest| >= CHUNK_SIZE {
        ReadChunksOfPrefix(rest[CHUNK_SIZE..], n', size);
        if n' < size {
          assert (size - n' - 1) / CHUNK_SIZE == (size - n - 1) / CHUNK_SIZE - 1;
        }
        assert rest[..CHUNK_SIZE] + rest[CHUNK_SIZE..] == rest;
      } else if k > 0 {
        assert rest[k..] == [] && rest[..k] == rest;
        if size - n > CHUNK_SIZE {
          var q := (size - n - 1) / CHUNK_SIZE;
          assert q >= 1 && q * CHUNK_SIZE >= CHUNK_SIZE;
          assert ReadChunks(rest[k..], n', size, size - n - k) == Err(ReadDataChunk);
        } else {
          assert (size - n - 1) / CHUNK_SIZE == 0;
          assert ReadChunks(rest[k..], n', size, size - n - k) == Ok([]);
          assert rest[..k] + [] == rest;
        }
      }
    }
  }

  /**
   * The chunk loop on a file with bytes after the payload: the reads take the
   * payload chunk by chunk, and the last one runs past the buffer exactly when the
   * payload does not end on a chunk boundary.
   */
  lemma {:induction false} ReadChunksPastPayload(data: seq<uint8>, extra: seq<uint8>, n: uint32, size: uint32)
    requires n <= size <= TWO_32 - CHUNK_SIZE && |data| == size - n && extra != []
    ensures ReadChunks(data + extra, n, size, size - n)
         == if (size - n) % CHUNK_SIZE == 0 then Ok(data) else Err(BufferOverrun)
    decreases size - n
  {
    var rest := data + extra;
    if n < size {
      if |data| >= CHUNK_SIZE {
        var n' := (n + CHUNK_SIZE) % TWO_32;
        assert n' == n + CHUNK_SIZE;
        assert rest[CHUNK_SIZE..] == data[CHUNK_SIZE..] + extra;
        ReadChunksPastPayload(data[CHUNK_SIZE..], extra, n', size);
        assert rest[..CHUNK_SIZE] == data[..CHUNK_SIZE];
        assert data[..CHUNK_SIZE] + data[CHUNK_SIZE..] == data;
      } else {
        assert Min(CHUNK_SIZE, |rest|) > |data|;
      }
    } else {
      assert data == [];
    }
  }

  /**
   * With a payload size above 2^32 - CHUNK_SIZE the counter wraps before it reaches
   * the size, so the loop can only end by running out of file or of buffer.
   */
  lemma {:induction false} NoLoadAboveLimit(rest: seq<uint8>, n: uint32, size: uint32, room: nat)
    requires n % CHUNK_SIZE == 0
    ensures ReadChunks(rest, n, size, room).Ok? ==> size <= TWO_32 - CHUNK_SIZE
    decreases |rest|
  {
    if size > TWO_32 - CHUNK_SIZE {
      assert n < size;
      var k := Min(CHUNK_SIZE, |rest|);
      if k != 0 && k <= room {
        NoLoadAboveLimit(rest[k..], (n + CHUNK_SIZE) % TWO_32, size, room - k);
      }
    }
  }

  /** A file that starts like the saved file of `v` has v's header fields. */
  lemma HeaderFields(v: BlockValue, f: seq<uint8>)
    requires |v.data| < TWO_32 && |f| >= HEADER_SIZE && f[..HEADER_SIZE] == BlockFile(v)[..HEADER_SIZE]
    ensures f[36..68] == v.prevHash && CreatedTSAt(f) == v.createdTS
    ensures FromLE(f[76..80]) == v.nonce && FromLE(f[80..84]) == |v.data|
  {
    var b := BlockFile(v);
    BlockFileLayout(v);
    FromLEOfLE(Unsigned64(v.createdTS), 8);
    FromLEOfLE(v.nonce, 4);
    FromLEOfLE(|v.data|, 4);
    CastRoundTrips(0, 0, v.createdTS, 0);
    assert f[36..68] == f[..HEADER_SIZE][36..68] == b[36..68];
    assert f[68..76] == f[..HEADER_SIZE][68..76] == b[68..76];
    assert f[76..80] == f[..HEADER_SIZE][76..80] == b[76..80];
    assert f[80..84] == f[..HEADER_SIZE][80..84] == b[80..84];
  }

  /**
   * A saved block file cut `t` bytes into its payload: it loads exactly when the
   * cut falls in the last chunk (or the payload is empty), with the bytes that were
   * never read left as the allocation had them; otherwise a chunk read fails.
   */
  lemma LoadOfTruncatedFile(v: BlockValue, t: nat, uninit: nat -> uint8)
    requires |v.data| <= TWO_32 - CHUNK_SIZE && t <= |v.data|
    ensures var r := ParseBlockFile(Some(BlockFile(v)[..HEADER_SIZE + t]), uninit);
      if |v.data| == 0 || (|v.data| - 1) / CHUNK_SIZE * CHUNK_SIZE < t
      then r == Ok(Loaded(v.prevHash, v.createdTS, v.nonce, v.data[..t] + Uninitialized(uninit, t, |v.data| - t)))
      else r == Err(ReadDataChunk)
  {
    var f := BlockFile(v);
    var g := f[..HEADER_SIZE + t];
    assert g[..HEADER_SIZE] == f[..HEADER_SIZE];
    HeaderFields(v, g);
    BlockFileLayout(v);
    assert g[HEADER_SIZE..] == f[HEADER_SIZE..][..t] == v.data[..t];
    ReadChunksOfPrefix(v.data[..t], 0, |v.data|);
  }

  /**
   * A saved block file with bytes appended: it loads as the block exactly when the
   * payload ends on a chunk boundary; otherwise the last read overruns the buffer.
   */
  lemma LoadWithTrailingBytes(v: BlockValue, extra: seq<uint8>, uninit: nat -> uint8)
    requires |v.data| <= TWO_32 - CHUNK_SIZE && extra != []
    ensures ParseBlockFile(Some(BlockFile(v) + extra), uninit)
         == if |v.data| % CHUNK_SIZE == 0 then Ok(Loaded(v.prevHash, v.createdTS, v.nonce, v.data)) else Err(BufferOverrun)
  {
    var f := BlockFile(v) + extra;
    assert f[..HEADER_SIZE] == BlockFile(v)[..HEADER_SIZE];
    HeaderFields(v, f);
    BlockFileLayout(v);
    assert f[HEADER_SIZE..] == BlockFile(v)[HEADER_SIZE..] + extra == v.data + extra;
    ReadChunksPastPayload(v.data, extra, 0, |v.data|);
    assert v.data + Uninitialized(uninit, |v.data|, 0) == v.data;
  }

  /** A block saved with a payload clear of the counter's wrap loads back as it was saved. */
  lemma ParseOfBlockFile(v: BlockValue, uninit: nat -> uint8)
    requires |v.data| <= TWO_32 - CHUNK_SIZE
    ensures ParseBlockFile(Some(BlockFile(v)), uninit) == Ok(Loaded(v.prevHash, v.createdTS, v.nonce, v.data))
  {
    Pow256Values();
    var f := BlockFile(v);
    var ts, nonce, size := LE(Unsigned64(v.createdTS), 8), LE(v.nonce, 4), LE(|v.data|, 4);
    BlockFileLayout(v);
    FromLEOfLE(Unsigned64(v.createdTS), 8);
    FromLEOfLE(v.nonce, 4);
    FromLEOfLE(|v.data|, 4);
    CastRoundTrips(0, 0, v.createdTS, 0);
    ReadChunksOfPrefix(v.data, 0, |v.data|);
    assert v.data + Uninitialized(uninit, |v.data|, 0) == v.data;
  }

  /** The fields of a block file, at their offsets. */
  lemma BlockFileLayout(v: BlockValue)
    requires |v.data| < TWO_32
    ensures Pow256(4) == TWO_32 && Pow256(8) == TWO_64
    ensures var f := BlockFile(v);
      f[36..68] == v.prevHash && f[68..76] == LE(Unsigned64(v.createdTS), 8)
      && f[76..80] == LE(v.nonce, 4) && f[80..84] == LE(|v.data|, 4) && f[84..] == v.data
  {
    Pow256Values();
    var f := BlockFile(v);
    var ts, nonce, size := LE(Unsigned64(v.createdTS), 8), LE(v.nonce, 4), LE(|v.data|, 4);
    var head := LE(FILE_VERSION, 4) + v.hash;
    assert f == head + v.prevHash + ts + nonce + size + v.data;
    assert |head| == 36;
  }

  // ----- the directory and the chain walk

  /** The files of the store's directory tree, by path. */
  type Disk = map<string, seq<uint8>>

  function FileAt(disk: Disk, path: string): Option<seq<uint8>> {
    if path in disk then Some(disk[path]) else None
  }

  /** The file of the block with this hash. */
  function BlockPath(base: string, hash: Digest): string {
    base + Hex(hash)
  }

  function MetaPath(base: string): string {
    base + "metadata"
  }

  /** Different hashes have different files, and no block file is the metadata file. */
  lemma BlockPathInjective(base: string, a: Digest, b: Digest)
    ensures BlockPath(base, a) == BlockPath(base, b) ==> a == b
    ensures BlockPath(base, a) != MetaPath(base)
  {
    if BlockPath(base, a) == BlockPath(base, b) {
      assert Hex(a) == BlockPath(base, a)[|base|..];
      HexInjective(a, b);
    }
    assert |BlockPath(base, a)| != |MetaPath(base)|;
  }

  function ValueOf(hash: Digest, l: Loaded): BlockValue {
    BlockValue(hash, l.prevHash, l.createdTS, l.nonce, l.data)
  }

  /**
   * A chain oldest block first: the first block has the zero previous hash, and
   * every later one names its predecessor's (non-zero) hash.
   */
  predicate Linked(vs: seq<BlockValue>) {
    |vs| > 0 && vs[0].prevHash == ZERO_DIGEST
    && forall i :: 0 < i < |vs| ==> vs[i].prevHash == vs[i - 1].hash && vs[i].prevHash != ZERO_DIGEST
  }

  predicate DistinctHashes(vs: seq<BlockValue>) {
    forall i, j :: 0 <= i < j < |vs| ==> vs[i].hash != vs[j].hash
  }

  /** Every block of `vs` is the block its file loads as. */
  predicate LoadsAs(disk: Disk, base: string, vs: seq<BlockValue>, uninit: nat -> uint8) {
    forall i :: 0 <= i < |vs| ==>
      ParseBlockFile(FileAt(disk, BlockPath(base, vs[i].hash)), uninit).Ok?
      && ValueOf(vs[i].hash, ParseBlockFile(FileAt(disk, BlockPath(base, vs[i].hash)), uninit).value) == vs[i]
  }

  datatype ChainError =
    | BlockLoad(error: LoadError)
      /** LAST_BLOCK_HASH shorter than a digest: the source copies bytes past its end. */
    | MalformedLastHash
      /** BLOCK_COUNT missing or shorter than 8 bytes: the source copies bytes past its end. */
    | MalformedCount
      /** The hash links lead back to a block already loaded: the source never returns. */
    | Diverged
    | CountMismatch

  /**
   * The blocks loadChain's backward walk loads, starting from the block with `hash`,
   * oldest first. `visited` holds the files already loaded.
   */
  function Walk(disk: Disk, base: string, hash: Digest, visited: set<string>, uninit: nat -> uint8): Result<seq<BlockValue>, ChainError>
    decreases |disk.Keys - visited|
  {
    var path := BlockPath(base, hash);
    if path in visited then Err(Diverged)
    else
      match ParseBlockFile(FileAt(disk, path), uninit)
      case Err(e) => Err(BlockLoad(e))
      case Ok(l) =>
        var v := ValueOf(hash, l);
        if l.prevHash == ZERO_DIGEST then Ok([v])
        else
          FewerUnvisited(disk.Keys, visited, path);
          match Walk(disk, base, l.prevHash, visited + {path}, uninit)
          case Err(e) => Err(e)
          case Ok(older) => Ok(older + [v])
  }

  /**
   * What the walk loads is a linked chain ending at `hash`, with distinct hashes,
   * each block being what its file loads as, and none of them among the visited files.
   */
  lemma {:induction false} WalkSound(disk: Disk, base: string, hash: Digest, visited: set<string>, uninit: nat -> uint8)
    ensures var r := Walk(disk, base, hash, visited, uninit);
      r.Ok? ==>
        && Linked(r.value) && r.value[|r.value| - 1].hash == hash
        && DistinctHashes(r.value) && LoadsAs(disk, base, r.value, uninit)
        && forall i :: 0 <= i < |r.value| ==> BlockPath(base, r.value[i].hash) !in visited
    decreases |disk.Keys - visited|
  {
    var path := BlockPath(base, hash);
    if path !in visited {
      var p := ParseBlockFile(FileAt(disk, path), uninit);
      if p.Ok? {
        var v := ValueOf(hash, p.value);
        if p.value.prevHash != ZERO_DIGEST {
          FewerUnvisited(disk.Keys, visited, path);
          WalkSound(disk, base, p.value.prevHash, visited + {path}, uninit);
          var w := Walk(disk, base, p.value.prevHash, visited + {path}, uninit);
          if w.Ok? {
            WalkStep(disk, base, w.value, v, path, visited, uninit);
          }
        }
      }
    }
  }

  lemma FewerUnvisited(keys: set<string>, visited: set<string>, path: string)
    requires path in keys && path !in visited
    ensures |keys - (visited + {path})| < |keys - visited|
  {
    assert keys - (visited + {path}) == (keys - visited) - {path};
  }

  /** The walk's properties carry over when one more block is added at the new end. */
  lemma WalkStep(disk: Disk, base: string, older: seq<BlockValue>, v: BlockValue, path: string,
                 visited: set<string>, uninit: nat -> uint8)
    requires Linked(older) && older[|older| - 1].hash == v.prevHash != ZERO_DIGEST
    requires DistinctHashes(older) && LoadsAs(disk, base, older, uninit)
    requires forall i :: 0 <= i < |older| ==> BlockPath(base, older[i].hash) !in visited + {path}
    requires path == BlockPath(base, v.hash) && path !in visited
    requires ParseBlockFile(FileAt(disk, path), uninit).Ok?
    requires ValueOf(v.hash, ParseBlockFile(FileAt(disk, path), uninit).value) == v
    ensures var vs := older + [v];
      Linked(vs) && DistinctHashes(vs) && LoadsAs(disk, base, vs, uninit)
      && forall i :: 0 <= i < |vs| ==> BlockPath(base, vs[i].hash) !in visited
  {
    var vs := older + [v];
    LinkedStep(older, v);
    LoadsAsStep(disk, base, older, v, uninit);
    forall i, j | 0 <= i < j < |vs|
      ensures vs[i].hash != vs[j].hash
    {
      if j == |older| {
        assert BlockPath(base, vs[i].hash) != path;
      } else {
        assert vs[i] == older[i] && vs[j] == older[j];
      }
    }
    forall i | 0 <= i < |vs|
      ensures BlockPath(base, vs[i].hash) !in visited
    {
      if i < |older| {
        assert vs[i] == older[i];
      }
    }
  }

  lemma LinkedStep(older: seq<BlockValue>, v: BlockValue)
    requires Linked(older) && older[|older| - 1].hash == v.prevHash != ZERO_DIGEST
    ensures Linked(older + [v])
  {
    var vs := older + [v];
    forall i | 0 < i < |vs|
      ensures vs[i].prevHash == vs[i - 1].hash && vs[i].prevHash != ZERO_DIGEST
    {
      if i < |older| {
        assert vs[i] == older[i] && vs[i - 1] == older[i - 1];
      }
    }
  }

  lemma LoadsAsStep(disk: Disk, base: string, older: seq<BlockValue>, v: BlockValue, uninit: nat -> uint8)
    requires LoadsAs(disk, base, older, uninit) && LoadsAs(disk, base, [v], uninit)
    ensures LoadsAs(disk, base, older + [v], uninit)
  {
    var vs := older + [v];
    forall i | 0 <= i < |vs|
      ensures ParseBlockFile(FileAt(disk, BlockPath(base, vs[i].hash)), uninit).Ok?
      ensures ValueOf(vs[i].hash, ParseBlockFile(FileAt(disk, BlockPath(base, vs[i].hash)), uninit).value) == vs[i]
    {
      if i < |older| {
        assert vs[i] == older[i];
      } else {
        assert vs[i] == [v][0];
      }
    }
  }

  /** Every block of `vs` has its file, as save writes it, with a payload load can read back. */
  predicate Stored(disk: Disk, base: string, vs: seq<BlockValue>) {
    forall i :: 0 <= i < |vs| ==>
      |vs[i].data| <= TWO_32 - CHUNK_SIZE && FileAt(disk, BlockPath(base, vs[i].hash)) == Some(BlockFile(vs[i]))
  }

  /** The files of the blocks after position k. */
  function Later(base: string, vs: seq<BlockValue>, k: nat): set<string> {
    set i | k < i < |vs| :: BlockPath(base, vs[i].hash)
  }

  /** The walk from the newest stored block of a linked chain with distinct hashes loads the whole chain. */
  lemma WalkOfStored(disk: Disk, base: string, vs: seq<BlockValue>, uninit: nat -> uint8)
    requires Linked(vs) && DistinctHashes(vs) && Stored(disk, base, vs)
    ensures Walk(disk, base, vs[|vs| - 1].hash, {}, uninit) == Ok(vs)
  {
    StoredLoads(disk, base, vs, uninit);
    WalkOfLoaded(disk, base, vs, uninit);
  }

  /** Stored blocks load as themselves. */
  lemma StoredLoads(disk: Disk, base: string, vs: seq<BlockValue>, uninit: nat -> uint8)
    requires Stored(disk, base, vs)
    ensures LoadsAs(disk, base, vs, uninit)
  {
    forall i | 0 <= i < |vs|
      ensures ParseBlockFile(FileAt(disk, BlockPath(base, vs[i].hash)), uninit)
        == Ok(Loaded(vs[i].prevHash, vs[i].createdTS, vs[i].nonce, vs[i].data))
    {
      ParseOfBlockFile(vs[i], uninit);
    }
  }

  /**
   * The converse of WalkSound: a linked chain with distinct hashes whose files load
   * as its blocks is what the walk from its newest block loads.
   */
  lemma WalkOfLoaded(disk: Disk, base: string, vs: seq<BlockValue>, uninit: nat -> uint8)
    requires Linked(vs) && DistinctHashes(vs) && LoadsAs(disk, base, vs, uninit)
    ensures Walk(disk, base, vs[|vs| - 1].hash, {}, uninit) == Ok(vs)
  {
    WalkFrom(disk, base, vs, |vs| - 1, uninit);
    assert Later(base, vs, |vs| - 1) == {};
    assert vs[..|vs|] == vs;
  }

  lemma {:induction false} WalkFrom(disk: Disk, base: string, vs: seq<BlockValue>, k: nat, uninit: nat -> uint8)
    requires Linked(vs) && DistinctHashes(vs) && LoadsAs(disk, base, vs, uninit) && k < |vs|
    ensures Walk(disk, base, vs[k].hash, Later(base, vs, k), uninit) == Ok(vs[..k + 1])
    decreases k
  {
    NotLater(base, vs, k);
    var l := LoadedAt(disk, base, vs, k, uninit);
    if k == 0 {
      WalkFirst(disk, base, vs, l, uninit);
    } else {
      var j := k - 1;
      WalkFrom(disk, base, vs, j, uninit);
      LinkAt(vs, j, k);
      WalkNext(disk, base, vs, j, k, l, uninit);
    }
  }

  /** What the file of block k loads as. */
  lemma LoadedAt(disk: Disk, base: string, vs: seq<BlockValue>, k: nat, uninit: nat -> uint8) returns (l: Loaded)
    requires LoadsAs(disk, base, vs, uninit) && k < |vs|
    ensures ParseBlockFile(FileAt(disk, BlockPath(base, vs[k].hash)), uninit) == Ok(l)
    ensures ValueOf(vs[k].hash, l) == vs[k]
  {
    l := ParseBlockFile(FileAt(disk, BlockPath(base, vs[k].hash)), uninit).value;
  }

  lemma LinkAt(vs: seq<BlockValue>, j: nat, k: nat)
    requires Linked(vs) && k == j + 1 && k < |vs|
    ensures vs[k].prevHash == vs[j].hash && vs[k].prevHash != ZERO_DIGEST
  {
  }

  lemma WalkFirst(disk: Disk, base: string, vs: seq<BlockValue>, l: Loaded, uninit: nat -> uint8)
    requires Linked(vs)
    requires BlockPath(base, vs[0].hash) !in Later(base, vs, 0)
    requires ParseBlockFile(FileAt(disk, BlockPath(base, vs[0].hash)), uninit) == Ok(l)
    requires ValueOf(vs[0].hash, l) == vs[0]
    ensures Walk(disk, base, vs[0].hash, Later(base, vs, 0), uninit) == Ok(vs[..1])
  {
    WalkLast(disk, base, vs[0].hash, Later(base, vs, 0), uninit, l);
    assert vs[..1] == [vs[0]];
  }

  lemma WalkNext(disk: Disk, base: string, vs: seq<BlockValue>, j: nat, k: nat, l: Loaded, uninit: nat -> uint8)
    requires k == j + 1 && k < |vs|
    requires BlockPath(base, vs[k].hash) !in Later(base, vs, k)
    requires ParseBlockFile(FileAt(disk, BlockPath(base, vs[k].hash)), uninit) == Ok(l)
    requires ValueOf(vs[k].hash, l) == vs[k]
    requires vs[k].prevHash == vs[j].hash && vs[k].prevHash != ZERO_DIGEST
    requires Walk(disk, base, vs[j].hash, Later(base, vs, j), uninit) == Ok(vs[..j + 1])
    ensures Walk(disk, base, vs[k].hash, Later(base, vs, k), uninit) == Ok(vs[..k + 1])
  {
    var v, path, visited := vs[k], BlockPath(base, vs[k].hash), Later(base, vs, k);
    var prev := vs[j].hash;
    assert vs[..j + 1] == vs[..k];
    LaterStep(base, vs, j, k);
    assert l.prevHash == v.prevHash == prev;
    assert Walk(disk, base, prev, visited + {path}, uninit) == Ok(vs[..k]);
    assert vs[..k + 1] == vs[..k] + [v];
    WalkPast(disk, base, v.hash, visited, uninit, l, vs[..k], v);
  }

  lemma WalkPast(disk: Disk, base: string, hash: Digest, visited: set<string>, uninit: nat -> uint8, l: Loaded,
                 older: seq<BlockValue>, v: BlockValue)
    requires BlockPath(base, hash) !in visited
    requires ParseBlockFile(FileAt(disk, BlockPath(base, hash)), uninit) == Ok(l)
    requires l.prevHash != ZERO_DIGEST
    requires Walk(disk, base, l.prevHash, visited + {BlockPath(base, hash)}, uninit) == Ok(older)
    requires v == BlockValue(hash, l.prevHash, l.createdTS, l.nonce, l.data)
    ensures Walk(disk, base, hash, visited, uninit) == Ok(older + [v])
  {
    WalkOne(disk, base, hash, visited, uninit, l, older);
  }

  /** The file of block k is not among those of the blocks after it. */
  lemma NotLater(base: string, vs: seq<BlockValue>, k: nat)
    requires DistinctHashes(vs) && k < |vs|
    ensures BlockPath(base, vs[k].hash) !in Later(base, vs, k)
  {
    if BlockPath(base, vs[k].hash) in Later(base, vs, k) {
      var i :| k < i < |vs| && BlockPath(base, vs[i].hash) == BlockPath(base, vs[k].hash);
      BlockPathInjective(base, vs[i].hash, vs[k].hash);
    }
  }

  lemma LaterStep(base: string, vs: seq<BlockValue>, j: nat, k: nat)
    requires k == j + 1 && k < |vs|
    ensures Later(base, vs, j) == Later(base, vs, k) + {BlockPath(base, vs[k].hash)}
  {
  }

  /** One step of the walk that reaches the genesis block. */
  lemma WalkLast(disk: Disk, base: string, hash: Digest, visited: set<string>, uninit: nat -> uint8, l: Loaded)
    requires BlockPath(base, hash) !in visited
    requires ParseBlockFile(FileAt(disk, BlockPath(base, hash)), uninit) == Ok(l)
    requires l.prevHash == ZERO_DIGEST
    ensures Walk(disk, base, hash, visited, uninit) == Ok([ValueOf(hash, l)])
  {
  }

  /** One step of the walk past a later block. */
  lemma WalkOne(disk: Disk, base: string, hash: Digest, visited: set<string>, uninit: nat -> uint8, l: Loaded,
                older: seq<BlockValue>)
    requires BlockPath(base, hash) !in visited
    requires ParseBlockFile(FileAt(disk, BlockPath(base, hash)), uninit) == Ok(l)
    requires l.prevHash != ZERO_DIGEST
    requires Walk(disk, base, l.prevHash, visited + {BlockPath(base, hash)}, uninit) == Ok(older)
    ensures Walk(disk, base, hash, visited, uninit) == Ok(older + [ValueOf(hash, l)])
  {
  }

  // ----- what loadChain loads

  /** A walk result with `tail` added after the blocks it loaded. */
  function Followed(r: Result<seq<BlockValue>, ChainError>, tail: seq<BlockValue>): (q: Result<seq<BlockValue>, ChainError>)
    ensures q.Ok? <==> r.Ok?
    ensures r.Err? ==> q == r
    ensures r.Ok? ==> |q.value| == |r.value| + |tail|
    ensures r.Ok? ==> q.value[..|r.value|] == r.value && q.value[|r.value|..] == tail
  {
    if r.Ok? then Ok(r.value + tail) else r
  }

  /** One step of the walk, case by case. */
  lemma WalkCases(disk: Disk, base: string, hash: Digest, visited: set<string>, uninit: nat -> uint8)
    ensures var path, p := BlockPath(base, hash), ParseBlockFile(FileAt(disk, BlockPath(base, hash)), uninit);
      var r := Walk(disk, base, hash, visited, uninit);
      && (path in visited ==> r == Err(Diverged))
      && (path !in visited && p.Err? ==> r == Err(BlockLoad(p.error)))
      && (path !in visited && p.Ok? && p.value.prevHash == ZERO_DIGEST ==> r == Ok([ValueOf(hash, p.value)]))
      && (path !in visited && p.Ok? && p.value.prevHash != ZERO_DIGEST ==>
            path in disk && r == Followed(Walk(disk, base, p.value.prevHash, visited + {path}, uninit), [ValueOf(hash, p.value)]))
  {
  }

  lemma FollowedTwice(r: Result<seq<BlockValue>, ChainError>, a: seq<BlockValue>, b: seq<BlockValue>)
    ensures Followed(Followed(r, a), b) == Followed(r, a + b)
  {
    if r.Ok? {
      Assoc(r.value, a, b);
    }
  }

  /**
   * A walk that reaches a block it can load goes on from that block's previous
   * hash, or ends there at the genesis block.
   */
  lemma WalkFurther(disk: Disk, base: string, hash: Digest, visited: set<string>, uninit: nat -> uint8,
                    tail: seq<BlockValue>, v: BlockValue)
    requires BlockPath(base, hash) !in visited
    requires ParseBlockFile(FileAt(disk, BlockPath(base, hash)), uninit).Ok?
    requires v == ValueOf(hash, ParseBlockFile(FileAt(disk, BlockPath(base, hash)), uninit).value)
    ensures v.prevHash != ZERO_DIGEST ==>
      Followed(Walk(disk, base, hash, visited, uninit), tail)
        == Followed(Walk(disk, base, v.prevHash, visited + {BlockPath(base, hash)}, uninit), [v] + tail)
    ensures v.prevHash == ZERO_DIGEST ==> Followed(Walk(disk, base, hash, visited, uninit), tail) == Ok([v] + tail)
  {
    WalkCases(disk, base, hash, visited, uninit);
    if v.prevHash != ZERO_DIGEST {
      FollowedTwice(Walk(disk, base, v.prevHash, visited + {BlockPath(base, hash)}, uninit), [v], tail);
    }
  }

  /**
   * What loadChain makes of the manifest and the directory: Ok(None) when there is no
   * LAST_BLOCK_HASH (the chain is left as it was), otherwise the blocks from the
   * genesis block to the last saved one, or the error the source throws (or, for
   * MalformedLastHash, MalformedCount and Diverged, fails by).
   */
  function ChainOnDisk(meta: Manifest.Meta, disk: Disk, base: string, uninit: nat -> uint8): (r: Result<Option<seq<BlockValue>>, ChainError>)
    ensures r == Ok(None) <==> LAST_BLOCK_HASH !in meta
  {
    if LAST_BLOCK_HASH !in meta then Ok(None)
    else
      var last := meta[LAST_BLOCK_HASH];
      if |last| < DIGEST_LENGTH then Err(MalformedLastHash)
      else
        match Walk(disk, base, last[..DIGEST_LENGTH], {}, uninit)
        case Err(e) => Err(e)
        case Ok(vs) =>
          if BLOCK_COUNT !in meta || |meta[BLOCK_COUNT]| < 8 then Err(MalformedCount)
          else if |vs| != FromLE(meta[BLOCK_COUNT][..8]) then Err(CountMismatch)
          else Ok(Some(vs))
  }

  /**
   * A chain loadChain loads is linked from the genesis block to the block the manifest
   * names as the last, has no hash twice, is what the block files hold, and is as long
   * as the manifest's count says.
   */
  lemma ChainOnDiskSound(meta: Manifest.Meta, disk: Disk, base: string, uninit: nat -> uint8)
    ensures var r := ChainOnDisk(meta, disk, base, uninit);
      r.Ok? && r.value.Some? ==>
      var vs := r.value.value;
      && LAST_BLOCK_HASH in meta && |meta[LAST_BLOCK_HASH]| >= DIGEST_LENGTH
      && Linked(vs) && vs[|vs| - 1].hash == meta[LAST_BLOCK_HASH][..DIGEST_LENGTH]
      && DistinctHashes(vs) && LoadsAs(disk, base, vs, uninit)
      && BLOCK_COUNT in meta && |meta[BLOCK_COUNT]| >= 8 && |vs| == FromLE(meta[BLOCK_COUNT][..8])
  {
    if LAST_BLOCK_HASH in meta && |meta[LAST_BLOCK_HASH]| >= DIGEST_LENGTH {
      WalkSound(disk, base, meta[LAST_BLOCK_HASH][..DIGEST_LENGTH], {}, uninit);
    }
  }

  /**
   * A chain whose blocks are all stored, with a manifest naming its last block and
   * holding its length as save writes them, is what loadChain loads back.
   */
  lemma ChainOnDiskOfSaved(meta: Manifest.Meta, disk: Disk, base: string, vs: seq<BlockValue>, uninit: nat -> uint8)
    requires Linked(vs) && DistinctHashes(vs) && Stored(disk, base, vs) && |vs| < Pow256(8)
    requires LAST_BLOCK_HASH in meta && meta[LAST_BLOCK_HASH] == vs[|vs| - 1].hash
    requires BLOCK_COUNT in meta && meta[BLOCK_COUNT] == LE(|vs|, 8)
    ensures ChainOnDisk(meta, disk, base, uninit) == Ok(Some(vs))
  {
    var last, count := meta[LAST_BLOCK_HASH], meta[BLOCK_COUNT];
    assert last[..DIGEST_LENGTH] == last;
    WalkOfStored(disk, base, vs, uninit);
    CountField(count, |vs|);
    ChainOnDiskOfWalk(meta, disk, base, vs, uninit);
  }

  /** The BLOCK_COUNT value save writes reads back as the count. */
  lemma CountField(count: seq<uint8>, n: nat)
    requires n < Pow256(8) && count == LE(n, 8)
    ensures |count| >= 8 && FromLE(count[..8]) == n
  {
    assert count[..8] == count;
    FromLEOfLE(n, 8);
  }

  lemma ChainOnDiskOfWalk(meta: Manifest.Meta, disk: Disk, base: string, vs: seq<BlockValue>, uninit: nat -> uint8)
    requires LAST_BLOCK_HASH in meta && |meta[LAST_BLOCK_HASH]| >= DIGEST_LENGTH
    requires Walk(disk, base, meta[LAST_BLOCK_HASH][..DIGEST_LENGTH], {}, uninit) == Ok(vs)
    requires BLOCK_COUNT in meta && |meta[BLOCK_COUNT]| >= 8 && FromLE(meta[BLOCK_COUNT][..8]) == |vs|
    ensures ChainOnDisk(meta, disk, base, uninit) == Ok(Some(vs))
  {
  }
}
