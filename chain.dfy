/** The chain store of blockchain/blockchain.go: one key-value bucket mapping each block
    hash to the serialized block, plus the key "l" holding the hash of the tip. */
module Chain {
  import opened Wrappers
  import opened Encoding
  import opened Blocks
  import opened ProofOfWork
  import opened Mining

  /** The "blocks" bucket of the database file. */
  type Bucket = map<seq<byte>, seq<byte>>

  /** The key `"l"`, under which the bucket keeps the tip hash. */
  const TipKey: seq<byte> := [0x6C]

  /** `Bucket.Get`: nil, here the empty byte string, for a missing key. */
  function Get(b: Bucket, key: seq<byte>): seq<byte> {
    if key in b then b[key] else []
  }

  /** The open database, shared by a chain and its iterators. `bucket` is `None` while
      the "blocks" bucket does not exist. */
  class Db {
    var bucket: Option<Bucket>

    constructor Open(contents: Option<Bucket>)
      ensures bucket == contents
    {
      bucket := contents;
    }
  }

  /** `hist`, oldest first, starts with a genesis block, each later block links to the
      hash of the one before it, and every block is stored under its own 32-byte hash. */
  ghost predicate Linked(b: Bucket, hist: seq<Block>, p: Primitives) {
    && |hist| > 0
    && hist[0].prevHash == []
    && (forall i :: 0 < i < |hist| ==> hist[i].prevHash == hist[i - 1].hash)
    && (forall i :: 0 <= i < |hist| ==> |hist[i].hash| == 32 && Get(b, hist[i].hash) == p.serialize(hist[i]))
  }

  /** The bucket holds the linked chain `hist` and both the tip key and `tip` name its
      newest block. */
  ghost predicate Stored(b: Bucket, hist: seq<Block>, tip: seq<byte>, p: Primitives) {
    Linked(b, hist, p) && tip == hist[|hist| - 1].hash && Get(b, TipKey) == tip
  }

  /** What one `Next` reads at cursor `cur`: the block decoded from the value stored there. */
  function Step(bucket: Option<Bucket>, cur: seq<byte>, p: Primitives): Option<Block> {
    if bucket.None? then None else DeserializeBlock(Get(bucket.value, cur), p)
  }

  /** The blocks `n` successive calls of `Next` yield from cursor `cur`, and the cursor
      they leave behind; `None` if one of them panics. */
  function Walk(bucket: Option<Bucket>, cur: seq<byte>, n: nat, p: Primitives): Option<(seq<Block>, seq<byte>)>
    decreases n
  {
    if n == 0 then Some(([], cur))
    else
      match Step(bucket, cur, p)
      case None => None
      case Some(blk) =>
        match Walk(bucket, blk.prevHash, n - 1, p)
        case None => None
        case Some((rest, end)) => Some(([blk] + rest, end))
  }

  function Reversed<T>(s: seq<T>): (r: seq<T>)
    ensures |r| == |s| && forall k :: 0 <= k < |s| ==> r[k] == s[|s| - 1 - k]
  {
    if s == [] then [] else [s[|s| - 1]] + Reversed(s[..|s| - 1])
  }

  lemma {:induction false} WalkFromNewest(b: Bucket, hist: seq<Block>, p: Primitives)
    requires GobRoundTrip(p) && Linked(b, hist, p)
    ensures Walk(Some(b), hist[|hist| - 1].hash, |hist|, p) == Some((Reversed(hist), []))
  {
    var n := |hist|;
    var last := hist[n - 1];
    assert Step(Some(b), last.hash, p) == Some(last);
    if n > 1 {
      var init := hist[..n - 1];
      assert Linked(b, init, p);
      WalkFromNewest(b, init, p);
      assert last.prevHash == init[n - 2].hash;
    }
  }

  /** Iterating a stored chain from its tip, one `Next` per block, yields the blocks
      newest first, each linked by `PrevHash` to the hash of the next one yielded, and
      ends with the genesis block and an empty cursor. */
  lemma IteratorYieldsChain(b: Bucket, hist: seq<Block>, tip: seq<byte>, p: Primitives)
    requires GobRoundTrip(p) && Stored(b, hist, tip, p)
    ensures var w := Walk(Some(b), tip, |hist|, p);
            && w.Some? && w.value.1 == []
            && var blocks := w.value.0;
            && blocks == Reversed(hist)
            && blocks[0].hash == tip
            && (forall i :: 0 <= i < |blocks| - 1 ==> blocks[i].prevHash == blocks[i + 1].hash)
            && blocks[|blocks| - 1].prevHash == []
  {
    WalkFromNewest(b, hist, p);
  }

  /** Storing a freshly mined block on top of a stored chain, then pointing the tip key
      at it, stores the extended chain, provided the new hash is not already taken. */
  lemma AppendKeepsStored(b: Bucket, hist: seq<Block>, block: Block, p: Primitives)
    requires Stored(b, hist, Get(b, TipKey), p)
    requires block.prevHash == Get(b, TipKey) && |block.hash| == 32
    requires forall i :: 0 <= i < |hist| ==> hist[i].hash != block.hash
    ensures Stored(b[block.hash := p.serialize(block)][TipKey := block.hash], hist + [block], block.hash, p)
  {
    var b' := b[block.hash := p.serialize(block)][TipKey := block.hash];
    var hist' := hist + [block];
    forall i | 0 <= i < |hist'|
      ensures |hist'[i].hash| == 32 && Get(b', hist'[i].hash) == p.serialize(hist'[i])
    {
      if i < |hist| {
        assert hist'[i] == hist[i];
        assert hist[i].hash != TipKey;
      }
    }
  }

  /** `BlockchainIterator`: a cursor over the same database as its chain. */
  class BlockchainIterator {
    var currentHash: seq<byte>
    const db: Db

    constructor (currentHash: seq<byte>, db: Db)
      ensures this.currentHash == currentHash && this.db == db
    {
      this.currentHash := currentHash;
      this.db := db;
    }

    /** `Next`: the block stored at the cursor; the cursor moves to its `PrevHash`.
        `None` where the Go code panics (no bucket, or a value that does not decode). */
    method Next(p: Primitives) returns (block: Option<Block>)
      modifies this
      ensures block == Step(db.bucket, old(currentHash), p)
      ensures currentHash == if block.Some? then block.value.prevHash else old(currentHash)
    {
      if db.bucket.None? {
        block := None;
        return;
      }
      var encoded := Get(db.bucket.value, currentHash);
      block := DeserializeBlock(encoded, p);
      if block.Some? {
        currentHash := block.value.prevHash;
      }
    }
  }

  /** `BlockChain`: the tip hash and the database. `history` is the proof's record of the
      blocks appended so far, oldest first. */
  class BlockChain {
    var tip: seq<byte>
    const db: Db
    ghost var history: seq<Block>

    ghost predicate Valid(p: Primitives)
      reads this, db
    {
      db.bucket.Some? && Stored(db.bucket.value, history, tip, p)
    }

    /** `InitBlockChain`: without a bucket, mines the genesis block and stores it with
        the tip key; with one, only reads the tip key. `stored` describes what an
        existing bucket holds, when it holds a chain. */
    constructor Init(db: Db, now: int64, p: Primitives, ghost stored: seq<Block>)
      modifies db
      ensures this.db == db && db.bucket.Some?
      ensures old(db.bucket).None? ==>
                && |history| == 1
                && history[0].prevHash == [] && history[0].data == GenesisData
                && history[0].timestamp == now
                && (history[0].nonce < MaxNonce ==>
                      Validate(NewProofOfWork(history[0]), p)
                      && history[0].hash == HashAt(NewProofOfWork(history[0]), p, history[0].nonce))
                && db.bucket == Some(map[history[0].hash := p.serialize(history[0]), TipKey := history[0].hash])
                && tip == history[0].hash
                && Valid(p)
      ensures old(db.bucket).Some? ==>
                && db.bucket == old(db.bucket)
                && tip == Get(db.bucket.value, TipKey)
                && history == stored
                && (Linked(db.bucket.value, stored, p) && stored[|stored| - 1].hash == tip ==> Valid(p))
    {
      this.db := db;
      if db.bucket.None? {
        var genesis := Genesis(now, p);
        db.bucket := Some(map[]);
        db.bucket := Some(db.bucket.value[genesis.hash := Serialize(genesis, p)]);
        db.bucket := Some(db.bucket.value[TipKey := genesis.hash]);
        tip := genesis.hash;
        history := [genesis];
      } else {
        tip := Get(db.bucket.value, TipKey);
        history := stored;
      }
    }

    /** `Iterator`: a fresh cursor at the tip, over the same database. */
    method Iterator() returns (it: BlockchainIterator)
      ensures fresh(it) && it.currentHash == tip && it.db == db
    {
      it := new BlockchainIterator(tip, db);
    }

    /** `AddBlock`: mines a block on top of the hash under the tip key, stores it under
        its hash, points the tip key and `tip` at it, and changes no other key. The chain
        stays valid as long as the new hash differs from every earlier one. */
    method AddBlock(data: seq<byte>, now: int64, p: Primitives) returns (ghost newBlock: Block)
      requires db.bucket.Some?
      modifies this, db
      ensures db.bucket.Some?
      ensures newBlock.prevHash == Get(old(db.bucket.value), TipKey)
      ensures newBlock.data == data && newBlock.timestamp == now && |newBlock.hash| == 32
      ensures newBlock.nonce < MaxNonce ==>
                Validate(NewProofOfWork(newBlock), p)
                && newBlock.hash == HashAt(NewProofOfWork(newBlock), p, newBlock.nonce)
      ensures db.bucket.value
           == old(db.bucket.value)[newBlock.hash := p.serialize(newBlock)][TipKey := newBlock.hash]
      ensures tip == newBlock.hash
      ensures history == old(history) + [newBlock]
      ensures old(Valid(p)) && (forall i :: 0 <= i < |old(history)| ==> old(history)[i].hash != newBlock.hash)
              ==> Valid(p)
    {
      ghost var before, wasValid := db.bucket.value, Valid(p);
      var lastHash := Get(db.bucket.value, TipKey);
      var block := CreateBlock(data, lastHash, now, p);
      db.bucket := Some(db.bucket.value[block.hash := Serialize(block, p)]);
      db.bucket := Some(db.bucket.value[TipKey := block.hash]);
      tip := block.hash;
      if wasValid && (forall i :: 0 <= i < |history| ==> history[i].hash != block.hash) {
        AppendKeepsStored(before, history, block, p);
      }
      history := history + [block];
      newBlock := block;
    }
  }
}
