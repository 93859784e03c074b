/**
 * CStorageLocal as an object: the class-wide default base directory, and a store
 * whose directory and in-memory manifest its methods read and update.
 */
module Store {
  import opened Bytes
  import opened Blocks
  import opened Storage
  import Manifest

  // ----- the default base directory

  /** setDefaultBasePath: a path longer than one character gets a trailing '/'. */
  function DefaultBasePath(path: string): (r: string)
    ensures r == path || r == path + "/"
    ensures |path| > 1 ==> r[|r| - 1] == '/'
    ensures |path| <= 1 || path[|path| - 1] == '/' ==> r == path
  {
    if |path| > 1 && path[|path| - 1] != '/' then path + "/" else path
  }

  /** Setting the default again to the value it has changes nothing. */
  lemma DefaultBasePathIdempotent(path: string)
    ensures DefaultBasePath(DefaultBasePath(path)) == DefaultBasePath(path)
  {
  }

  /** The class-wide default directory new stores open. */
  class Defaults {
    var basePath: string

    constructor ()
      ensures basePath == "data/"
    {
      basePath := "data/";
    }

    method SetDefaultBasePath(path: string)
      modifies this
      ensures basePath == DefaultBasePath(path)
    {
      basePath := path;
      if |path| > 1 && path[|path| - 1] != '/' {
        basePath := basePath + "/";
      }
    }
  }

  // ----- the metadata file

  /** A record that cannot be read ends the decoding with its error. */
  lemma DecodeFails(g: seq<uint8>, count: nat, acc: Manifest.Meta)
    requires count > 0 && Manifest.ReadRecord(g).Err?
    ensures Manifest.DecodeEntries(g, count, acc) == Manifest.Decoded(acc, Some(Manifest.ReadRecord(g).error))
  {
  }

  /** A record read merges into the manifest and decoding goes on after it. */
  lemma DecodeRecord(g: seq<uint8>, rest: seq<uint8>, count: nat, left: nat, acc: Manifest.Meta,
                     name: Manifest.Bytestring, value: Manifest.Bytestring)
    requires count > 0 && left == count - 1
    requires Manifest.ReadRecord(g) == Ok((name, value, rest))
    ensures Manifest.DecodeEntries(g, count, acc) == Manifest.DecodeEntries(rest, left, acc[name := value])
  {
  }

  /**
   * The body of loadMetaData's loop: reads one record from the unread bytes `g`
   * field by field, giving its name, its value and the bytes after it, or the read
   * that failed.
   */
  method ReadVariable(g: seq<uint8>) returns (r: Result<(Manifest.Bytestring, Manifest.Bytestring, seq<uint8>), Manifest.ManifestError>)
    ensures r == Manifest.ReadRecord(g)
  {
    if |g| < 4 {
      return Err(Manifest.ReadVarSize);
    }
    var varSize := FromLE(g[..4]);
    var afterSize := g[4..];
    if |afterSize| < varSize {
      return Err(Manifest.ReadVarName);
    }
    var varName := afterSize[..varSize];
    var afterName := afterSize[varSize..];
    if |afterName| < 4 {
      return Err(Manifest.ReadValSize);
    }
    var valSize := FromLE(afterName[..4]);
    var afterValSize := afterName[4..];
    var varVal: seq<uint8> := [];
    if valSize != 0 {
      if |afterValSize| < valSize {
        return Err(Manifest.ReadVarVal);
      }
      varVal := afterValSize[..valSize];
    }
    return Ok((varName, varVal, afterValSize[valSize..]));
  }

  /**
   * The loop of loadMetaData: reads `count` records from offset 12 on, merging each
   * into `acc`, and stops at the first read that fails.
   */
  method ReadVariables(f: seq<uint8>, count: nat, acc: Manifest.Meta) returns (meta: Manifest.Meta, err: Option<Manifest.ManifestError>)
    requires 12 <= |f|
    ensures Manifest.Decoded(meta, err) == Manifest.DecodeEntries(f[12..], count, acc)
  {
    var unread, n := f[12..], 0;
    meta := acc;
    ghost var decoded := Manifest.DecodeEntries(unread, count, acc);
    while n < count
      invariant n <= count
      invariant decoded == Manifest.DecodeEntries(unread, count - n, meta)
      decreases count - n
    {
      var record := ReadVariable(unread);
      if record.Err? {
        DecodeFails(unread, count - n, meta);
        return meta, Some(record.error);
      }
      var (varName, varVal, rest) := record.value;
      DecodeRecord(unread, rest, count - n, count - (n + 1), meta, varName, varVal);
      meta := meta[varName := varVal];
      unread, n := rest, n + 1;
    }
    return meta, None;
  }

  // ----- the store

  /** A local store: its base directory, the directory's files and the manifest in memory. */
  class LocalStorage {
    const basePath: string
    var files: Disk
    var metaData: Manifest.Meta

    /** The store before loadMetaData: the member initialisers only. */
    constructor (base: string, disk: Disk)
      ensures basePath == base && files == disk && metaData == map[]
    {
      basePath := base;
      files := disk;
      metaData := map[];
    }

    /**
     * loadMetaData: without a metadata file nothing happens; otherwise its records are
     * merged into the manifest in memory, up to the first one that cannot be read.
     */
    method LoadMetaData() returns (err: Option<Manifest.ManifestError>)
      modifies this`metaData
      ensures MetaPath(basePath) !in files ==> metaData == old(metaData) && err == None
      ensures MetaPath(basePath) in files ==>
        Manifest.Decode(files[MetaPath(basePath)], old(metaData)) == Manifest.Decoded(metaData, err)
    {
      var path := MetaPath(basePath);
      if path !in files {
        return None;
      }
      var f := files[path];
      if |f| < 4 {
        return Some(Manifest.ReadVersion);
      }
      if |f| < 12 {
        return Some(Manifest.ReadVarCount);
      }
      var meta;
      meta, err := ReadVariables(f, FromLE(f[4..12]), metaData);
      metaData := meta;
    }

    /** saveMetaData: the metadata file becomes the encoding of the manifest in memory. */
    method SaveMetaData()
      modifies this`files
      ensures files == old(files)[MetaPath(basePath) := Manifest.Encode(metaData)]
    {
      Pow256Values();
      var out := LE(Manifest.MANIFEST_VERSION, 4);
      var varCount := |metaData| % TWO_64;
      out := out + LE(varCount, 8);
      ghost var head := out;
      if varCount != 0 {
        var remaining := metaData;
        while remaining != map[]
          invariant files == old(files)
          invariant out + Manifest.Entries(remaining) == head + Manifest.Entries(metaData)
          decreases |remaining|
        {
          Manifest.LeastExists(remaining.Keys);
          var name :| Manifest.IsLeast(name, remaining.Keys);
          Manifest.LeastUnique(name, remaining.Keys);
          Manifest.EntriesFirst(remaining, []);
          Assoc(out, Manifest.Entry(name, remaining[name]), Manifest.Entries(remaining - {name}));
          out := out + Manifest.Entry(name, remaining[name]);
          remaining := remaining - {name};
        }
        assert Manifest.Entries(remaining) == [];
        assert out + [] == out;
      }
      assert Manifest.Encode(metaData) == head + (if varCount != 0 then Manifest.Entries(metaData) else []);
      assert out == Manifest.Encode(metaData);
      files := files[basePath + "metadata" := out];
    }

    /**
     * save: writes the block's file under its hex hash, records it in the manifest as
     * the last block with `blockCount` as the count, and saves the manifest.
     */
    method Save(block: Block, blockCount: uint64)
      requires block.Valid()
      modifies this`files, this`metaData
      ensures metaData == SavedMeta(old(metaData), block.hash, blockCount)
      ensures files == SavedFiles(old(files), basePath, block.Value(), metaData)
    {
      Pow256Values();
      var hashStr := block.GetHashStr();
      var path := basePath + hashStr;
      var file := LE(FILE_VERSION, 4) + block.hash + block.prevHash;
      file := file + LE(Unsigned64(block.createdTS), TIME_SIZE);
      file := file + LE(block.nonce, NONCE_SIZE);
      file := file + LE(|block.data|, 4);
      file := file + block.data;
      assert file == BlockFile(block.Value());
      files := files[path := file];
      metaData := metaData[LAST_BLOCK_HASH := block.hash];
      metaData := metaData[LAST_BLOCK_HASH_STR := Latin1(hashStr)];
      metaData := metaData[BLOCK_COUNT := LE(blockCount, 8)];
      SaveMetaData();
    }

    /**
     * load: fills the block from the file named by its hash. Each field is set as soon
     * as it is read, so a failed read leaves the fields before it set; the payload is
     * set last. `uninit` gives the bytes a fresh buffer holds before anything is read.
     */
    method Load(block: Block, uninit: nat -> uint8) returns (err: Option<LoadError>)
      modifies block`prevHash, block`createdTS, block`nonce, block`data
      ensures var p := ParseBlockFile(FileAt(files, BlockPath(basePath, block.hash)), uninit);
        && (p.Err? ==> err == Some(p.error) && block.data == old(block.data))
        && (p.Ok? ==> err == None && block.Value() == ValueOf(block.hash, p.value))
      ensures var file := FileAt(files, BlockPath(basePath, block.hash));
        var size := if file.Some? then |file.value| else 0;
        && (size >= 68 ==> block.prevHash == file.value[36..68])
        && (size < 68 ==> block.prevHash == old(block.prevHash))
        && (size >= 76 ==> block.createdTS == CreatedTSAt(file.value))
        && (size < 76 ==> block.createdTS == old(block.createdTS))
        && (size >= 80 ==> block.nonce == FromLE(file.value[76..80]))
        && (size < 80 ==> block.nonce == old(block.nonce))
    {
      Pow256Values();
      var hashStr := block.GetHashStr();
      var path := basePath + hashStr;
      if path !in files {
        return Some(NotFound);
      }
      var f := files[path];
      if |f| < 4 {
        return Some(ReadVersion);
      }
      if |f| < 36 {
        return Some(ReadHash);
      }
      if |f| < 68 {
        return Some(ReadPrevHash);
      }
      block.SetPrevHash(f[36..68]);
      if |f| < 76 {
        return Some(ReadCreatedTS);
      }
      block.SetCreatedTS(Signed64(FromLE(f[68..76])));
      if |f| < 80 {
        return Some(ReadNonce);
      }
      block.SetNonce(FromLE(f[76..80]));
      if |f| < HEADER_SIZE {
        return Some(ReadDataSize);
      }
      var dataSize: uint32 := FromLE(f[80..84]);
      var got := ReadPayload(f[HEADER_SIZE..], dataSize);
      if got.Err? {
        return Some(got.error);
      }
      NoLoadAboveLimit(f[HEADER_SIZE..], 0, dataSize, dataSize);
      var data := got.value + Uninitialized(uninit, |got.value|, dataSize - |got.value|);
      block.SetAllocatedData(data);
      return None;
    }

    /**
     * One block of loadChain's walk: a new block with the given hash, loaded from its
     * file, unless that file was already loaded.
     */
    method LoadLink(hash: Digest, visited: set<string>, now: int64, sha: Hasher, uninit: nat -> uint8)
      returns (r: Result<Block, ChainError>, path: string)
      ensures path == BlockPath(basePath, hash)
      ensures var p := ParseBlockFile(FileAt(files, path), uninit);
        && (path in visited ==> r == Err(Diverged))
        && (path !in visited && p.Err? ==> r == Err(BlockLoad(p.error)))
        && (path !in visited && p.Ok? ==>
              && r.Ok? && fresh(r.value) && path in files
              && r.value.Value() == ValueOf(hash, p.value) && r.value.prevBlock == null && r.value.Valid())
    {
      var block := new Block(null, Some(hash), now, sha);
      var hashStr := block.GetHashStr();
      path := basePath + hashStr;
      if path in visited {
        return Err(Diverged), path;
      }
      var err := Load(block, uninit);
      if err.Some? {
        return Err(BlockLoad(err.value)), path;
      }
      return Ok(block), path;
    }

    /**
     * The loop of loadChain from the last block `first` back: loads the block each
     * previous hash names and links the one after it to it, until the genesis block.
     */
    method LoadBack(first: Block, path: string, ghost disk: Disk, ghost walk: Result<seq<BlockValue>, ChainError>,
                    now: int64, sha: Hasher, uninit: nat -> uint8)
      returns (r: Result<seq<Block>, ChainError>)
      requires disk == files && first.prevBlock == null && first.Valid() && path in files
      requires first.prevHash != ZERO_DIGEST ==>
        walk == Followed(Walk(disk, basePath, first.prevHash, {path}, uninit), [first.Value()])
      requires first.prevHash == ZERO_DIGEST ==> walk == Ok([first.Value()])
      modifies first
      ensures r.Err? ==> walk == Err(r.error)
      ensures r.Ok? ==> walk.Ok? && BlocksHold(r.value, walk.value)
      ensures r.Ok? ==> |r.value| > 0 && Tip(r.value) == first
    {
      var visited := {path};
      var cur := first;
      var blocks := [cur];
      ghost var values := [cur.Value()];
      var more := cur.HasPrevHash();
      ghost var keys := files.Keys;
      while more
        invariant |blocks| == |values| > 0 && cur == blocks[0] && (cur == first || fresh(cur))
        invariant Tip(blocks) == first
        invariant BlocksHold(blocks, values)
        invariant visited <= keys && keys == files.Keys && disk == files
        invariant more <==> cur.prevHash != ZERO_DIGEST
        invariant more ==> walk == Followed(Walk(disk, basePath, cur.prevHash, visited, uninit), values)
        invariant !more ==> walk == Ok(values)
        decreases |keys - visited|
      {
        var next, path, linked;
        ghost var linkedValues;
        next, path, more, linked, linkedValues := LoadOlder(cur, blocks, values, visited, keys, disk, walk, now, sha, uninit);
        if next.Err? {
          return Err(next.error);
        }
        FewerUnvisited(keys, visited, path);
        blocks, values := linked, linkedValues;
        visited := visited + {path};
        cur := next.value;
      }
      return Ok(blocks);
    }

    /**
     * One turn of the loop of loadChain: loads the block `cur` names as its previous
     * one and links `cur` to it.
     */
    method LoadOlder(cur: Block, blocks: seq<Block>, ghost values: seq<BlockValue>, visited: set<string>,
                     ghost keys: set<string>, ghost disk: Disk, ghost walk: Result<seq<BlockValue>, ChainError>,
                     now: int64, sha: Hasher, uninit: nat -> uint8)
      returns (r: Result<Block, ChainError>, path: string, more: bool, linked: seq<Block>, ghost linkedValues: seq<BlockValue>)
      requires BlocksHold(blocks, values) && |blocks| > 0 && cur == blocks[0]
      requires disk == files && visited <= keys && keys == files.Keys && cur.prevHash != ZERO_DIGEST
      requires walk == Followed(Walk(disk, basePath, cur.prevHash, visited, uninit), values)
      modifies cur`prevBlock, cur`prevHash
      ensures r.Err? ==> walk == Err(r.error)
      ensures r.Ok? ==> && fresh(r.value) && BlocksHold(linked, linkedValues)
                        && |linked| == |blocks| + 1 && linked[0] == r.value && Tip(linked) == Tip(blocks)
                        && path in keys && path !in visited
      ensures r.Ok? ==> (more <==> r.value.prevHash != ZERO_DIGEST)
      ensures r.Ok? && r.value.prevHash != ZERO_DIGEST ==>
        walk == Followed(Walk(disk, basePath, r.value.prevHash, visited + {path}, uninit), linkedValues)
      ensures r.Ok? && r.value.prevHash == ZERO_DIGEST ==> walk == Ok(linkedValues)
    {
      r, path := LoadLink(cur.prevHash, visited, now, sha, uninit);
      if r.Err? {
        WalkCases(files, basePath, cur.prevHash, visited, uninit);
        return r, path, false, blocks, values;
      }
      var block := r.value;
      WalkFurther(disk, basePath, cur.prevHash, visited, uninit, values, block.Value());
      linked, linkedValues := LinkFront(cur, block, blocks, values);
      more := block.HasPrevHash();
    }

    /**
     * loadChain: when the manifest names a last block, loads it, then each block its
     * previous hash names back to the genesis block, linking each to the one before
     * it, and checks the count against BLOCK_COUNT. Ok(None) leaves the chain as it
     * was. `visited` holds the files loaded so far, so that hash links leading back
     * to one of them end in Diverged.
     */
    method LoadChain(now: int64, sha: Hasher, uninit: nat -> uint8) returns (r: Result<Option<seq<Block>>, ChainError>)
      ensures Delivers(r, ChainOnDisk(metaData, files, basePath, uninit))
      ensures r.Ok? && r.value.Some? ==> |r.value.value| > 0 && fresh(r.value.value[|r.value.value| - 1])
    {
      if LAST_BLOCK_HASH !in metaData {
        return Ok(None);
      }
      var last := metaData[LAST_BLOCK_HASH];
      if |last| < DIGEST_LENGTH {
        return Err(MalformedLastHash);
      }
      ghost var walk := Walk(files, basePath, last[..DIGEST_LENGTH], {}, uninit);
      var first, path := LoadLink(last[..DIGEST_LENGTH], {}, now, sha, uninit);
      if first.Err? {
        return Err(first.error);
      }
      WalkCases(files, basePath, last[..DIGEST_LENGTH], {}, uninit);
      assert {} + {path} == {path};
      var loaded := LoadBack(first.value, path, files, walk, now, sha, uninit);
      if loaded.Err? {
        return Err(loaded.error);
      }
      var blocks := loaded.value;
      if BLOCK_COUNT !in metaData || |metaData[BLOCK_COUNT]| < 8 {
        return Err(MalformedCount);
      }
      var chainSize := FromLE(metaData[BLOCK_COUNT][..8]);
      if |blocks| != chainSize {
        return Err(CountMismatch);
      }
      return Ok(Some(blocks));
    }
  }

  /**
   * The CStorageLocal constructor: a store on `base` over the directory `disk` loads
   * the metadata file, if there is one, into its empty manifest.
   */
  method OpenStorage(base: string, disk: Disk) returns (s: LocalStorage, err: Option<Manifest.ManifestError>)
    ensures fresh(s) && s.basePath == base && s.files == disk
    ensures MetaPath(base) !in disk ==> s.metaData == map[] && err == None
    ensures MetaPath(base) in disk ==> Manifest.Decode(disk[MetaPath(base)], map[]) == Manifest.Decoded(s.metaData, err)
  {
    s := new LocalStorage(base, disk);
    err := s.LoadMetaData();
  }

  /**
   * The manifest after save: the block's hash as LAST_BLOCK_HASH, its hex form as
   * LAST_BLOCK_HASH_STR and `count` as the 8-byte BLOCK_COUNT.
   */
  function SavedMeta(meta: Manifest.Meta, hash: Digest, count: uint64): Manifest.Meta {
    meta[LAST_BLOCK_HASH := hash][LAST_BLOCK_HASH_STR := Latin1(Hex(hash))][BLOCK_COUNT := LE(count, 8)]
  }

  /** The directory after save: the block's file under its hex hash, and the manifest file for `meta`. */
  ghost function SavedFiles(files: Disk, base: string, v: BlockValue, meta: Manifest.Meta): Disk
    requires |v.data| < TWO_32
  {
    files[BlockPath(base, v.hash) := BlockFile(v)][MetaPath(base) := Manifest.Encode(meta)]
  }

  /** A block file save writes, with a payload clear of the chunk counter's wrap, loads back as the block. */
  lemma SavedBlockLoads(files: Disk, base: string, v: BlockValue, meta: Manifest.Meta, uninit: nat -> uint8)
    requires |v.data| <= TWO_32 - CHUNK_SIZE
    ensures ParseBlockFile(FileAt(SavedFiles(files, base, v, meta), BlockPath(base, v.hash)), uninit)
         == Ok(Loaded(v.prevHash, v.createdTS, v.nonce, v.data))
  {
    BlockPathInjective(base, v.hash, v.hash);
    ParseOfBlockFile(v, uninit);
  }

  /**
   * Saving the next block of a chain whose earlier blocks are all stored, with the
   * chain's new length as the count, leaves a directory from which loadChain loads
   * the longer chain.
   */
  lemma SaveExtendsStored(files: Disk, base: string, meta: Manifest.Meta, vs: seq<BlockValue>, v: BlockValue,
                          uninit: nat -> uint8)
    requires Linked(vs + [v]) && DistinctHashes(vs + [v]) && Stored(files, base, vs)
    requires |v.data| <= TWO_32 - CHUNK_SIZE && |vs| + 1 < TWO_64
    ensures var saved := SavedMeta(meta, v.hash, |vs| + 1);
      ChainOnDisk(saved, SavedFiles(files, base, v, saved), base, uninit) == Ok(Some(vs + [v]))
  {
    var saved := SavedMeta(meta, v.hash, |vs| + 1);
    SavedMetaFields(meta, v.hash, |vs| + 1);
    StoredAfterWrite(files, base, vs, v, Manifest.Encode(saved));
    ChainOnDiskOfSaved(saved, SavedFiles(files, base, v, saved), base, vs + [v], uninit);
  }

  /** The manifest after save names the block as the last one and holds the count. */
  lemma SavedMetaFields(meta: Manifest.Meta, hash: Digest, count: uint64)
    ensures var saved := SavedMeta(meta, hash, count);
      && LAST_BLOCK_HASH in saved && saved[LAST_BLOCK_HASH] == hash
      && BLOCK_COUNT in saved && saved[BLOCK_COUNT] == LE(count, 8)
  {
    KeysDistinct();
  }

  /** Writing one more block's file, and the manifest, keeps the files of the others. */
  lemma StoredAfterWrite(files: Disk, base: string, vs: seq<BlockValue>, v: BlockValue, manifest: seq<uint8>)
    requires DistinctHashes(vs + [v]) && Stored(files, base, vs) && |v.data| <= TWO_32 - CHUNK_SIZE
    ensures Stored(files[BlockPath(base, v.hash) := BlockFile(v)][MetaPath(base) := manifest], base, vs + [v])
  {
    var disk := files[BlockPath(base, v.hash) := BlockFile(v)][MetaPath(base) := manifest];
    var ws := vs + [v];
    forall i | 0 <= i < |ws|
      ensures |ws[i].data| <= TWO_32 - CHUNK_SIZE && FileAt(disk, BlockPath(base, ws[i].hash)) == Some(BlockFile(ws[i]))
    {
      BlockPathInjective(base, ws[i].hash, v.hash);
      if i < |vs| {
        assert ws[i] == vs[i] && ws[|vs|] == v;
      }
    }
  }

  /**
   * The block objects hold the values `vs`, oldest first: distinct objects, each
   * linked to the one before it, the first to none.
   */
  predicate BlocksHold(bs: seq<Block>, vs: seq<BlockValue>)
    reads bs
  {
    && |bs| == |vs|
    && (forall i :: 0 <= i < |bs| ==> bs[i].Value() == vs[i])
    && LinkedBlocks(bs)
  }

  /**
   * What loadChain hands back, against what the directory holds: the same error,
   * nothing when the manifest names no last block, otherwise block objects holding
   * the stored chain.
   */
  predicate Delivers(r: Result<Option<seq<Block>>, ChainError>, spec: Result<Option<seq<BlockValue>>, ChainError>)
    reads if r.Ok? && r.value.Some? then r.value.value else []
  {
    && (spec.Err? ==> r == Err(spec.error))
    && (spec == Ok(None) ==> r == Ok(None))
    && (spec.Ok? && spec.value.Some? ==> r.Ok? && r.value.Some? && BlocksHold(r.value.value, spec.value.value))
  }

  /** The newest of `bs`. */
  function Tip(bs: seq<Block>): Block
    requires |bs| > 0
  {
    bs[|bs| - 1]
  }

  /** Distinct block objects with payloads that fit, each linked to the one before it, the first to none. */
  predicate LinkedBlocks(bs: seq<Block>)
    reads bs
  {
    && (forall i :: 0 <= i < |bs| ==> bs[i].Valid())
    && (|bs| > 0 ==> bs[0].prevBlock == null)
    && (forall i :: 0 < i < |bs| ==> bs[i].prevBlock == bs[i - 1])
    && (forall i, j :: 0 <= i < j < |bs| ==> bs[i] != bs[j])
  }

  /** setPrevBlock on the oldest block loaded so far, and the new block put in front of it. */
  method LinkFront(cur: Block, block: Block, blocks: seq<Block>, ghost values: seq<BlockValue>)
    returns (linked: seq<Block>, ghost linkedValues: seq<BlockValue>)
    requires BlocksHold(blocks, values) && |blocks| > 0 && blocks[0] == cur
    requires block !in blocks && block.prevBlock == null && block.Valid() && block.hash == cur.prevHash
    modifies cur`prevBlock, cur`prevHash
    ensures linked == [block] + blocks && linkedValues == [block.Value()] + values
    ensures BlocksHold(linked, linkedValues)
  {
    cur.SetPrevBlock(block);
    linked := [block] + blocks;
    linkedValues := [block.Value()] + values;
    forall i | 0 <= i < |blocks|
      ensures blocks[i].Value() == values[i]
    {
      if i > 0 {
        assert blocks[i] != cur;
      }
    }
  }

  /** Reads `head` ahead of what the rest of the chunk loop reads. */
  function Preceded(head: seq<uint8>, r: Result<seq<uint8>, LoadError>): (q: Result<seq<uint8>, LoadError>)
    ensures r.Err? ==> q == r
    ensures r.Ok? ==> q == Ok(head + r.value)
  {
    if r.Ok? then Ok(head + r.value) else r
  }

  /**
   * The chunk loop of load: reads up to CHUNK_SIZE bytes at a time from the bytes
   * after the header into a buffer of `size` bytes, while the 32-bit counter `n`
   * is below `size`.
   */
  method ReadPayload(payload: seq<uint8>, size: uint32) returns (r: Result<seq<uint8>, LoadError>)
    ensures r == ReadChunks(payload, 0, size, size)
  {
    var got: seq<uint8> := [];
    var unread := payload;
    var n: uint32, room: nat := 0, size;
    ghost var all := ReadChunks(payload, 0, size, size);
    if all.Ok? {
      assert [] + all.value == all.value;
    }
    while n < size
      invariant all == Preceded(got, ReadChunks(unread, n, size, room))
      decreases |unread|
    {
      var k := Min(CHUNK_SIZE, |unread|);
      if k == 0 {
        return Err(ReadDataChunk);
      }
      if k > room {
        return Err(BufferOverrun);
      }
      ChunkStep(got, unread, n, size, room);
      got := got + unread[..k];
      unread, n, room := unread[k..], (n + CHUNK_SIZE) % TWO_32, room - k;
    }
    assert got + [] == got;
    return Ok(got);
  }

  /** One pass of the chunk loop: the chunk read joins the bytes before it. */
  lemma ChunkStep(got: seq<uint8>, unread: seq<uint8>, n: uint32, size: uint32, room: nat)
    requires n < size && 0 < Min(CHUNK_SIZE, |unread|) <= room
    ensures var k := Min(CHUNK_SIZE, |unread|);
      Preceded(got, ReadChunks(unread, n, size, room))
        == Preceded(got + unread[..k], ReadChunks(unread[k..], (n + CHUNK_SIZE) % TWO_32, size, room - k))
  {
    var k := Min(CHUNK_SIZE, |unread|);
    var more := ReadChunks(unread[k..], (n + CHUNK_SIZE) % TWO_32, size, room - k);
    if more.Ok? {
      Assoc(got, unread[..k], more.value);
    }
  }
}
