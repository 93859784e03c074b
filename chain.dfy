/**
 * CChain: the ledger in memory. It keeps its blocks oldest first with the
 * current block (the tip, still being filled) last, mines every new block to the
 * chain's difficulty and hands finished blocks to its storage backend.
 */
module Chains {
  import opened Bytes
  import opened Blocks
  import opened Storage
  import opened Store

  /** The values the block objects hold, in order. */
  function Values(bs: seq<Block>): (vs: seq<BlockValue>)
    reads bs
    ensures |vs| == |bs| && forall i {:trigger vs[i]} :: 0 <= i < |bs| ==> vs[i] == bs[i].Value()
  {
    seq(|bs|, i reads bs requires 0 <= i < |bs| => bs[i].Value())
  }

  /** The hash the block's fields hash to. */
  function HashOf(v: BlockValue, sha: Hasher): Digest {
    sha(HashInput(v.prevHash, v.createdTS, v.data, v.nonce))
  }

  /** The block with its stored hash replaced by the hash of its fields (calculateHash). */
  function Resealed(v: BlockValue, sha: Hasher): (w: BlockValue)
    ensures w.hash == HashOf(w, sha)
    ensures w.prevHash == v.prevHash && w.createdTS == v.createdTS && w.nonce == v.nonce && w.data == v.data
  {
    v.(hash := HashOf(v, sha))
  }

  /** What isValid checks on block values: every block before the tip stores the hash of its fields. */
  predicate SealedBeforeTip(vs: seq<BlockValue>, sha: Hasher) {
    forall i :: 0 <= i < |vs| - 1 ==> vs[i].hash == HashOf(vs[i], sha)
  }

  /**
   * Changing the payload of a block before the tip while keeping its hash: the chain
   * still checks out exactly when the old and the new fields, which differ, hash
   * alike (a SHA-256 collision).
   */
  lemma TamperDetected(vs: seq<BlockValue>, k: nat, d: seq<uint8>, sha: Hasher)
    requires SealedBeforeTip(vs, sha) && k < |vs| - 1 && d != vs[k].data
    ensures var w := vs[k].(data := d);
      && HashInput(w.prevHash, w.createdTS, w.data, w.nonce) != HashInput(vs[k].prevHash, vs[k].createdTS, vs[k].data, vs[k].nonce)
      && (SealedBeforeTip(vs[k := w], sha) <==> HashOf(w, sha) == HashOf(vs[k], sha))
  {
    var w := vs[k].(data := d);
    var t := vs[k := w];
    if HashInput(w.prevHash, w.createdTS, w.data, w.nonce) == HashInput(vs[k].prevHash, vs[k].createdTS, vs[k].data, vs[k].nonce) {
      HashInputInjective(w.prevHash, w.createdTS, w.data, w.nonce, vs[k].prevHash, vs[k].createdTS, vs[k].data, vs[k].nonce);
    }
    if HashOf(w, sha) == HashOf(vs[k], sha) {
      forall i | 0 <= i < |t| - 1
        ensures t[i].hash == HashOf(t[i], sha)
      {
        if i != k {
          assert t[i] == vs[i];
        }
      }
    } else {
      assert t[k] == w;
    }
  }

  /** Whatever the tip holds, isValid's verdict is the same: it never checks the tip. */
  lemma {:induction false} TipUnchecked(vs: seq<BlockValue>, v: BlockValue, sha: Hasher)
    requires |vs| > 0
    ensures SealedBeforeTip(vs[|vs| - 1 := v], sha) <==> SealedBeforeTip(vs, sha)
  {
    var t := vs[|vs| - 1 := v];
    assert forall i :: 0 <= i < |vs| - 1 ==> t[i] == vs[i];
  }

  /**
   * nextBlock keeps isValid's verdict: the old tip, now checked, is resealed first,
   * and the new tip is not checked.
   */
  lemma {:induction false} NextKeepsSealed(vs: seq<BlockValue>, v: BlockValue, sha: Hasher)
    requires |vs| > 0
    ensures SealedBeforeTip(vs[|vs| - 1 := Resealed(vs[|vs| - 1], sha)] + [v], sha) <==> SealedBeforeTip(vs, sha)
  {
    var t := vs[|vs| - 1 := Resealed(vs[|vs| - 1], sha)] + [v];
    assert forall i :: 0 <= i < |vs| - 1 ==> t[i] == vs[i];
    assert t[|vs| - 1].hash == HashOf(t[|vs| - 1], sha);
  }

  /** The block values load goes on with: those found in storage, otherwise the chain's own `kept`. */
  function Found(kept: seq<BlockValue>, loaded: Result<Option<seq<BlockValue>>, ChainError>): seq<BlockValue> {
    if loaded.Ok? && loaded.value.Some? then loaded.value.value else kept
  }

  /**
   * No nonce among the first fuel + 1 that mine tries, nonce 0 first, makes an empty
   * block after `prevHash` created at `now` meet the difficulty.
   */
  predicate Exhausted(prevHash: Digest, now: int64, sha: Hasher, difficulty: nat, fuel: nat)
    requires difficulty <= DIGEST_LENGTH
  {
    forall j :: 0 <= j <= fuel ==> !LeadingZeros(sha(HashInput(prevHash, now, [], NonceAfter(0, j))), difficulty)
  }

  /** new CBlock(prev) followed by mine(difficulty), with at most `fuel` attempts. */
  method NewMinedBlock(prev: Block?, now: int64, sha: Hasher, difficulty: int, fuel: nat) returns (block: Block, mined: bool)
    requires 0 <= difficulty <= DIGEST_LENGTH
    ensures fresh(block) && block.Valid() && block.prevBlock == prev
    ensures block.prevHash == (if prev == null then ZERO_DIGEST else prev.hash)
    ensures block.createdTS == now && block.data == [] && block.Sealed(sha)
    ensures mined <==> LeadingZeros(block.hash, difficulty)
    ensures !mined ==> Exhausted(block.prevHash, now, sha, difficulty, fuel)
  {
    block := new Block(prev, None, now, sha);
    ghost var first := block.hash;
    var attempts;
    mined, attempts := block.Mine(sha, difficulty, fuel);
    if !mined {
      forall j | 0 <= j <= fuel
        ensures !LeadingZeros(sha(HashInput(block.prevHash, now, [], NonceAfter(0, j))), difficulty)
      {
        if j == 0 {
          assert sha(HashInput(block.prevHash, now, [], NonceAfter(0, j))) == first;
        }
      }
    }
  }

  class Chain {
    /** mChain: the blocks, oldest first. */
    var blocks: seq<Block>
    /** mCurrentBlock: the tip. */
    var current: Block
    const difficulty: int
    /** The storage backend; null stands for CStorageNone, whose operations do nothing. */
    const store: LocalStorage?

    /** The tip is the last block, and each block links to the one before it. */
    predicate Valid()
      reads this, blocks
    {
      && 0 <= difficulty <= DIGEST_LENGTH
      && |blocks| > 0 && current == blocks[|blocks| - 1]
      && LinkedBlocks(blocks)
    }

    /**
     * The genesis part of the constructor: one new block with no predecessor, mined
     * to the difficulty, is the whole chain and its tip.
     */
    constructor (difficulty: int, store: LocalStorage?, now: int64, sha: Hasher, fuel: nat)
      requires 0 <= difficulty <= DIGEST_LENGTH
      ensures Valid() && this.difficulty == difficulty && this.store == store
      ensures |blocks| == 1 && fresh(current)
      ensures current.prevBlock == null && current.prevHash == ZERO_DIGEST
      ensures current.createdTS == now && current.data == [] && current.Sealed(sha)
      ensures LeadingZeros(current.hash, difficulty) || Exhausted(ZERO_DIGEST, now, sha, difficulty, fuel)
    {
      var genesis, mined := NewMinedBlock(null, now, sha, difficulty, fuel);
      this.difficulty := difficulty;
      this.store := store;
      blocks := [genesis];
      current := genesis;
    }

    /** appendToCurrentBlock: the tip's payload grows by `bytes`; nothing else changes. */
    method AppendToCurrentBlock(bytes: seq<uint8>)
      requires Valid() && |current.data| + |bytes| <= MAX_PAYLOAD
      modifies current`data
      ensures Valid()
      ensures Values(blocks) == old(Values(blocks))[|blocks| - 1 := old(current.Value()).(data := old(current.data) + bytes)]
    {
      current.AppendData(bytes);
      assert forall i :: 0 <= i < |blocks| - 1 ==> blocks[i] != current;
    }

    /**
     * nextBlock: reseals the tip, saves it when asked with the chain's length as the
     * count, and appends a new block after it, mined to the difficulty, as the tip.
     */
    method NextBlock(save: bool, now: int64, sha: Hasher, fuel: nat) returns (mined: bool)
      requires Valid()
      modifies this`blocks, this`current, current`hash, if save && store != null then {store} else {}
      ensures Valid() && fresh(current)
      ensures blocks == old(blocks) + [current]
      ensures Values(old(blocks)) == old(Values(blocks))[|old(blocks)| - 1 := Resealed(old(current.Value()), sha)]
      ensures current.prevBlock == old(current) && current.prevHash == HashOf(old(current.Value()), sha)
      ensures current.createdTS == now && current.data == [] && current.Sealed(sha)
      ensures mined <==> LeadingZeros(current.hash, difficulty)
      ensures !mined ==> Exhausted(current.prevHash, now, sha, difficulty, fuel)
      ensures save && store != null ==>
        var tip := Resealed(old(current.Value()), sha);
        && store.metaData == SavedMeta(old(store.metaData), tip.hash, |old(blocks)| % TWO_64)
        && store.files == SavedFiles(old(store.files), store.basePath, tip, store.metaData)
    {
      ResealTip(sha);
      SaveTip(save);
      mined := Grow(now, sha, fuel);
    }

    /** calculateHash on the tip: only the tip's hash changes, to the hash of its fields. */
    method ResealTip(sha: Hasher)
      requires Valid()
      modifies current`hash
      ensures Valid() && current.Sealed(sha)
      ensures Values(blocks) == old(Values(blocks))[|blocks| - 1 := Resealed(old(current.Value()), sha)]
    {
      ghost var before := Values(blocks);
      current.CalculateHash(sha);
      assert forall i :: 0 <= i < |blocks| - 1 ==> blocks[i] != current && blocks[i].Value() == before[i];
    }

    /** save(mCurrentBlock, mChain.size()) when asked and the backend is local storage. */
    method SaveTip(save: bool)
      requires Valid()
      modifies if save && store != null then {store} else {}
      ensures Valid() && Values(blocks) == old(Values(blocks))
      ensures save && store != null ==>
        && store.metaData == SavedMeta(old(store.metaData), current.hash, |blocks| % TWO_64)
        && store.files == SavedFiles(old(store.files), store.basePath, current.Value(), store.metaData)
    {
      if save && store != null {
        store.Save(current, |blocks| % TWO_64);
      }
    }

    /** The second half of nextBlock: a new block after the tip, mined, pushed, made the tip. */
    method Grow(now: int64, sha: Hasher, fuel: nat) returns (mined: bool)
      requires Valid()
      modifies this`blocks, this`current
      ensures Valid() && fresh(current) && blocks == old(blocks) + [current]
      ensures current.prevBlock == old(current) && current.prevHash == old(current.hash)
      ensures current.createdTS == now && current.data == [] && current.Sealed(sha)
      ensures mined <==> LeadingZeros(current.hash, difficulty)
      ensures !mined ==> Exhausted(current.prevHash, now, sha, difficulty, fuel)
    {
      var block;
      block, mined := NewMinedBlock(current, now, sha, difficulty, fuel);
      AppendFresh(blocks, block);
      blocks := blocks + [block];
      current := block;
    }

    /**
     * load: takes the blocks loadChain finds in storage, if any, makes the last one the
     * tip and, when there is more than one block, starts a new block after it.
     */
    method Load(now: int64, sha: Hasher, uninit: nat -> uint8, fuel: nat)
      returns (err: Option<ChainError>, extended: Option<bool>)
      requires Valid()
      modifies this`blocks, this`current, current`hash
      ensures Valid()
      ensures err.Some? <==> OnDisk(uninit).Err?
      ensures err.Some? ==> OnDisk(uninit) == Err(err.value) && blocks == old(blocks) && Values(blocks) == old(Values(blocks))
      ensures err.None? ==>
        var vs := Found(old(Values(blocks)), OnDisk(uninit));
        && |vs| > 0
        && (extended.Some? <==> |vs| > 1)
        && (|vs| == 1 ==> Values(blocks) == vs)
        && (|vs| > 1 ==> && |blocks| == |vs| + 1
                          && Values(blocks[..|vs|]) == vs[|vs| - 1 := Resealed(vs[|vs| - 1], sha)]
                          && fresh(current) && current.prevBlock == blocks[|vs| - 1]
                          && current.prevHash == HashOf(vs[|vs| - 1], sha)
                          && current.createdTS == now && current.data == [] && current.Sealed(sha)
                          && (extended.value <==> LeadingZeros(current.hash, difficulty))
                          && (!extended.value ==> Exhausted(current.prevHash, now, sha, difficulty, fuel)))
      ensures err.Some? ==> extended.None?
    {
      extended := None;
      err := TakeLoaded(now, sha, uninit);
      if err.Some? {
        return;
      }
      current := blocks[|blocks| - 1];
      if |blocks| > 1 {
        ghost var before := blocks;
        var mined := NextBlock(false, now, sha, fuel);
        extended := Some(mined);
        assert blocks[..|before|] == before;
      }
    }

    /** loadChain into mChain: the blocks found in storage, if any, replace the chain's. */
    method TakeLoaded(now: int64, sha: Hasher, uninit: nat -> uint8) returns (err: Option<ChainError>)
      requires Valid()
      modifies this`blocks, this`current
      ensures Valid() && (current == old(current) || fresh(current))
      ensures err.Some? <==> OnDisk(uninit).Err?
      ensures err.Some? ==> OnDisk(uninit) == Err(err.value) && blocks == old(blocks)
      ensures Values(blocks) == Found(old(Values(blocks)), OnDisk(uninit))
    {
      if store != null {
        var r := store.LoadChain(now, sha, uninit);
        err := Adopt(r, OnDisk(uninit));
      } else {
        err := None;
      }
    }

    /** The rest of load's call of loadChain: the blocks it found, if any, replace the chain's. */
    method Adopt(r: Result<Option<seq<Block>>, ChainError>, ghost spec: Result<Option<seq<BlockValue>>, ChainError>)
      returns (err: Option<ChainError>)
      requires Valid() && Delivers(r, spec)
      requires r.Ok? && r.value.Some? ==> |r.value.value| > 0
      modifies this`blocks, this`current
      ensures Valid()
      ensures err.Some? <==> spec.Err?
      ensures err.Some? ==> spec == Err(err.value) && blocks == old(blocks)
      ensures Values(blocks) == Found(old(Values(blocks)), spec)
      ensures if r.Ok? && r.value.Some? then current == r.value.value[|r.value.value| - 1] else current == old(current)
    {
      if r.Err? {
        return Some(r.error);
      }
      if r.value.Some? {
        var loaded := r.value.value;
        assert Values(loaded) == spec.value.value;
        blocks := loaded;
        current := blocks[|blocks| - 1];
      }
      return None;
    }

    /** What loadChain reads from the backend; CStorageNone finds nothing. */
    ghost function OnDisk(uninit: nat -> uint8): Result<Option<seq<BlockValue>>, ChainError>
      reads store
    {
      if store == null then Ok(None) else ChainOnDisk(store.metaData, store.files, store.basePath, uninit)
    }

    /** getBlockCount: the number of blocks in the chain. */
    method GetBlockCount() returns (n: nat)
      ensures n == |blocks|
    {
      n := |blocks|;
    }

    /**
     * isValid: walks from the tip back through the previous-block links and checks
     * each block it reaches, which is every block but the tip.
     */
    method IsValid(sha: Hasher) returns (ok: bool)
      requires Valid()
      ensures ok <==> SealedBeforeTip(Values(blocks), sha)
      ensures |blocks| == 1 ==> ok
    {
      var cur := current;
      ghost var i := |blocks| - 1;
      while cur.prevBlock != null
        invariant 0 <= i < |blocks| && cur == blocks[i] && LinkedBlocks(blocks)
        invariant i > 0 ==> cur.prevBlock == blocks[i - 1]
        invariant forall j :: i <= j < |blocks| - 1 ==> blocks[j].Sealed(sha)
        decreases i
      {
        assert i > 0;
        cur := cur.prevBlock;
        i := i - 1;
        assert cur == blocks[i];
        var valid := cur.IsValid(sha);
        if !valid {
          assert Values(blocks)[i] == cur.Value();
          return false;
        }
      }
      return true;
    }
  }

  /**
   * The CChain constructor from the genesis block to load(): a chain of one mined
   * genesis block created at `created`, which load then replaces by what storage
   * holds, starting a new block at `now` when that is more than one block.
   */
  method Start(difficulty: int, store: LocalStorage?, created: int64, now: int64, sha: Hasher,
               uninit: nat -> uint8, fuel: nat)
    returns (c: Chain, err: Option<ChainError>, extended: Option<bool>)
    requires 0 <= difficulty <= DIGEST_LENGTH
    ensures fresh(c) && c.Valid() && c.difficulty == difficulty && c.store == store
    ensures err.Some? <==> c.OnDisk(uninit).Err?
    ensures err.Some? || c.OnDisk(uninit) == Ok(None) ==>
      && extended.None? && |c.blocks| == 1 && c.current.prevBlock == null && c.current.prevHash == ZERO_DIGEST
      && c.current.createdTS == created && c.current.data == [] && c.current.Sealed(sha)
      && (LeadingZeros(c.current.hash, difficulty) || Exhausted(ZERO_DIGEST, created, sha, difficulty, fuel))
    ensures err.None? && c.OnDisk(uninit).Ok? && c.OnDisk(uninit).value.Some? ==>
      var vs := c.OnDisk(uninit).value.value;
      && (extended.Some? <==> |vs| > 1)
      && (|vs| == 1 ==> Values(c.blocks) == vs)
      && (|vs| > 1 ==> && |c.blocks| == |vs| + 1
                        && Values(c.blocks[..|vs|]) == vs[|vs| - 1 := Resealed(vs[|vs| - 1], sha)]
                        && c.current.prevBlock == c.blocks[|vs| - 1]
                        && c.current.prevHash == HashOf(vs[|vs| - 1], sha)
                        && c.current.createdTS == now && c.current.data == [] && c.current.Sealed(sha)
                        && (extended.value <==> LeadingZeros(c.current.hash, difficulty))
                        && (!extended.value ==> Exhausted(c.current.prevHash, now, sha, difficulty, fuel)))
  {
    c := new Chain(difficulty, store, created, sha, fuel);
    ghost var genesis := c.current.Value();
    err, extended := c.Load(now, sha, uninit, fuel);
    if err.Some? || c.OnDisk(uninit) == Ok(None) {
      assert Values(c.blocks)[0] == c.current.Value() == genesis;
    }
  }

  /** A fresh block put after linked blocks, linked to the last of them, keeps them linked. */
  lemma AppendFresh(bs: seq<Block>, b: Block)
    requires LinkedBlocks(bs) && |bs| > 0 && b !in bs
    requires b.prevBlock == bs[|bs| - 1] && b.Valid()
    ensures LinkedBlocks(bs + [b])
  {
    var t := bs + [b];
    assert forall i :: 0 <= i < |bs| ==> t[i] == bs[i];
  }
}
