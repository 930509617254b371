/** The proof-of-work engine of blockchain/proof.go. */
module ProofOfWork {
  import opened Encoding
  import opened Blocks

  /** Number of leading zero bits a block hash must have. */
  const TargetBits: nat := 24

  /** `utils.IntToHex(int64(targetBits))`, written out; `DifficultyBytesEncodeTargetBits`
      shows it is that value. */
  const DifficultyBytes: seq<byte> := [0, 0, 0, 0, 0, 0, 0, 24]

  lemma DifficultyBytesEncodeTargetBits()
    ensures DifficultyBytes == IntToHex(TargetBits as int64)
  {
  }

  /** Upper bound of the nonce search, `math.MaxInt64`. */
  const MaxNonce: int64 := MaxInt64

  /** The zero value of a `[32]byte`, which `Run` returns if it tries no nonce. */
  const ZeroDigest: Digest := seq(32, _ => 0)

  /** `ProofOfWork`: the block being mined and the numeric target. */
  datatype Pow = Pow(block: Block, target: nat)

  /** `NewProofOfWork`: the target is 1 shifted left by 256 - targetBits. */
  function NewProofOfWork(b: Block): (pow: Pow)
    ensures pow.block == b
    ensures pow.target == Pow256(29) && pow.target == Pow2(232)
  {
    Pow2Bytes(29);
    Pow(b, Pow2(256 - TargetBits))
  }

  /** `prepareData`: previous hash, transactions digest, timestamp, difficulty and nonce,
      concatenated with no separator. */
  function PrepareData(pow: Pow, p: Primitives, nonce: int64): seq<byte> {
    pow.block.prevHash + p.hashTransactions(pow.block.data)
      + IntToHex(pow.block.timestamp) + DifficultyBytes + IntToHex(nonce)
  }

  /** The layout of the header material: the previous hash first, and the last 24 bytes
      decode to the timestamp, the difficulty and the nonce. */
  lemma PrepareDataLayout(pow: Pow, p: Primitives, nonce: int64)
    ensures var r := PrepareData(pow, p, nonce);
            && |r| == |pow.block.prevHash| + |p.hashTransactions(pow.block.data)| + 24
            && r[..|pow.block.prevHash|] == pow.block.prevHash
            && Int64FromBytes(r[|r| - 8..]) == nonce
            && Int64FromBytes(r[|r| - 16..|r| - 8]) == TargetBits as int64
            && Int64FromBytes(r[|r| - 24..|r| - 16]) == pow.block.timestamp
  {
    var r := PrepareData(pow, p, nonce);
    DifficultyBytesEncodeTargetBits();
    assert r[|r| - 8..] == IntToHex(nonce);
    assert r[|r| - 16..|r| - 8] == DifficultyBytes;
    assert r[|r| - 24..|r| - 16] == IntToHex(pow.block.timestamp);
  }

  /** The digest computed for one nonce. */
  function HashAt(pow: Pow, p: Primitives, nonce: int64): Digest {
    p.sha256(PrepareData(pow, p, nonce))
  }

  /** `hashInt.Cmp(pow.target) == -1`: the digest, read as an unsigned big-endian
      number, is strictly below the target. */
  predicate MeetsTarget(pow: Pow, p: Primitives, nonce: int64) {
    BigEndian(HashAt(pow, p, nonce)) < pow.target
  }

  /** The header material does not depend on the block's own hash or nonce, so installing
      the mining result in the block leaves it unchanged. */
  lemma PrepareDataIgnoresHashAndNonce(pow: Pow, p: Primitives, hash: seq<byte>, n: int64, nonce: int64)
    ensures PrepareData(Pow(pow.block.(hash := hash, nonce := n), pow.target), p, nonce)
         == PrepareData(pow, p, nonce)
  {
  }

  /** Distinct nonces give distinct header material: the search never re-hashes the same input. */
  lemma PrepareDataDistinguishesNonces(pow: Pow, p: Primitives, m: int64, n: int64)
    requires m != n
    ensures PrepareData(pow, p, m) != PrepareData(pow, p, n)
  {
    var a, b := PrepareData(pow, p, m), PrepareData(pow, p, n);
    PrepareDataLayout(pow, p, m);
    PrepareDataLayout(pow, p, n);
    assert Int64FromBytes(a[|a| - 8..]) != Int64FromBytes(b[|b| - 8..]);
  }

  /** `Run`: tries the nonces 0, 1, 2, ... below `maxNonce` and stops at the first whose
      hash meets the target. If none does, the result is `maxNonce` with the hash of
      the last nonce tried. */
  method Run(pow: Pow, p: Primitives) returns (nonce: int64, hash: Digest)
    ensures 0 <= nonce <= MaxNonce
    ensures forall n: int64 :: 0 <= n < nonce ==> !MeetsTarget(pow, p, n)
    ensures nonce < MaxNonce ==> MeetsTarget(pow, p, nonce) && hash == HashAt(pow, p, nonce)
    ensures nonce == MaxNonce ==> hash == HashAt(pow, p, MaxNonce - 1)
  {
    hash := ZeroDigest;
    nonce := 0;
    while nonce < MaxNonce
      invariant 0 <= nonce <= MaxNonce
      invariant forall n: int64 :: 0 <= n < nonce ==> !MeetsTarget(pow, p, n)
      invariant nonce > 0 ==> hash == HashAt(pow, p, nonce - 1)
      decreases MaxNonce - nonce
    {
      var data := PrepareData(pow, p, nonce);
      hash := p.sha256(data);
      if BigEndian(hash) < pow.target {
        break;
      } else {
        assert hash == HashAt(pow, p, nonce) && !MeetsTarget(pow, p, nonce);
        nonce := nonce + 1;
      }
    }
  }

  /** `Validate`: recomputes the hash for the block's stored nonce and compares it with
      the target; the block's `Hash` field is not consulted. */
  predicate Validate(pow: Pow, p: Primitives) {
    MeetsTarget(pow, p, pow.block.nonce)
  }

  /** Only the all-zero string has value zero. */
  lemma {:induction false} BigEndianZero(s: seq<byte>)
    ensures BigEndian(s) == 0 <==> forall i :: 0 <= i < |s| ==> s[i] == 0
  {
    if s != [] {
      var init := s[..|s| - 1];
      BigEndianZero(init);
      assert forall i :: 0 <= i < |init| ==> init[i] == s[i];
    }
  }

  /** A (3 + k)-byte value is below 256^k exactly when its first three bytes are zero. */
  lemma HighBytesZeroIffBelow(h: seq<byte>, k: nat)
    requires |h| == 3 + k
    ensures BigEndian(h) < Pow256(k) <==> h[0] == 0 && h[1] == 0 && h[2] == 0
  {
    var high, low := h[..3], h[3..];
    assert h == high + low;
    BigEndianAppend(high, low);
    BigEndianBound(low);
    BigEndianZero(high);
    assert high[0] == h[0] && high[1] == h[1] && high[2] == h[2];
    var hi, lo, bound := BigEndian(high), BigEndian(low), Pow256(k);
    assert BigEndian(h) == hi * bound + lo;
    if hi > 0 {
      AtLeastOnce(hi, bound);
    }
  }

  lemma AtLeastOnce(a: nat, b: nat)
    requires a >= 1
    ensures a * b >= b
  {
  }

  /** A 32-byte value is below the target 2^232 exactly when its first three bytes are
      zero, which is what "the first few bytes must contain 0s" asks of a block hash. */
  lemma BelowTargetIffLeadingZeros(h: seq<byte>)
    requires |h| == 32
    ensures BigEndian(h) < Pow2(256 - TargetBits) <==> h[0] == 0 && h[1] == 0 && h[2] == 0
  {
    Pow2Bytes(29);
    HighBytesZeroIffBelow(h, 29);
  }

  /** `Validate` holds exactly when the recomputed hash starts with three zero bytes. */
  lemma ValidateIffLeadingZeros(b: Block, p: Primitives)
    ensures var h := HashAt(NewProofOfWork(b), p, b.nonce);
            Validate(NewProofOfWork(b), p) <==> h[0] == 0 && h[1] == 0 && h[2] == 0
  {
    BelowTargetIffLeadingZeros(HashAt(NewProofOfWork(b), p, b.nonce));
  }
}
