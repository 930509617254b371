/** Block construction of blockchain/block.go: a block is assembled, mined with the
    proof-of-work engine, and the result is installed in its `Hash` and `Nonce`. */
module Mining {
  import opened Encoding
  import opened Blocks
  import opened ProofOfWork

  /** `[]byte("Genesis")`. */
  const GenesisData: seq<byte> := [0x47, 0x65, 0x6E, 0x65, 0x73, 0x69, 0x73]

  /** `CreateBlock`: the block carries `data` and `prevHash`, is stamped with `now`
      (`time.Now().Unix()`), and holds exactly the nonce and hash `Run` found for it:
      every smaller nonce fails the target, and when the search succeeded the block
      passes `Validate` and its hash is the digest of its header material. */
  method CreateBlock(data: seq<byte>, prevHash: seq<byte>, now: int64, p: Primitives)
    returns (block: Block)
    ensures block.timestamp == now && block.data == data && block.prevHash == prevHash
    ensures |block.hash| == 32
    ensures 0 <= block.nonce <= MaxNonce
    ensures forall n: int64 :: 0 <= n < block.nonce ==> !MeetsTarget(NewProofOfWork(block), p, n)
    ensures block.nonce < MaxNonce ==>
              Validate(NewProofOfWork(block), p)
              && block.hash == HashAt(NewProofOfWork(block), p, block.nonce)
    ensures block.nonce == MaxNonce ==> block.hash == HashAt(NewProofOfWork(block), p, MaxNonce - 1)
  {
    var initial := Block(now, [], data, prevHash, 0);
    var pow := NewProofOfWork(initial);
    var nonce, hash := Run(pow, p);
    block := initial.(hash := hash, nonce := nonce);
    assert NewProofOfWork(block) == Pow(block, pow.target);
    forall n: int64
      ensures HashAt(NewProofOfWork(block), p, n) == HashAt(pow, p, n)
      ensures MeetsTarget(NewProofOfWork(block), p, n) == MeetsTarget(pow, p, n)
    {
      PrepareDataIgnoresHashAndNonce(pow, p, hash, nonce, n);
    }
  }

  /** `Genesis`: the block with no predecessor whose payload is "Genesis". */
  method Genesis(now: int64, p: Primitives) returns (block: Block)
    ensures block.prevHash == [] && block.data == GenesisData && block.timestamp == now
    ensures |block.hash| == 32
    ensures block.nonce < MaxNonce ==>
              Validate(NewProofOfWork(block), p)
              && block.hash == HashAt(NewProofOfWork(block), p, block.nonce)
  {
    block := CreateBlock(GenesisData, [], now, p);
  }
}
