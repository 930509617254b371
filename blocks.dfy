/** The block record of blockchain/block.go and the foreign functions the core
    calls but does not define. */
module Blocks {
  import opened Wrappers
  import opened Encoding

  /** `Block`: every field is a Go value; `Nonce` is a Go `int` (64 bits). */
  datatype Block = Block(
    timestamp: int64,
    hash: seq<byte>,
    data: seq<byte>,
    prevHash: seq<byte>,
    nonce: int64)

  /** The functions the core calls into: `sha256.Sum256`, `Block.HashTransactions`
      (called at blockchain/proof.go:46 but not defined in package blockchain; a function
      of the block's payload here), and gob encoding and decoding of a block (`None`
      where `DeserializeBlock` panics). */
  datatype Primitives = Primitives(
    sha256: seq<byte> -> Digest,
    hashTransactions: seq<byte> -> seq<byte>,
    serialize: Block -> seq<byte>,
    deserialize: seq<byte> -> Option<Block>)

  /** What the chain store relies on when it reloads blocks: decoding the encoding of a
      block gives that block back. */
  ghost predicate GobRoundTrip(p: Primitives) {
    forall b :: p.deserialize(p.serialize(b)) == Some(b)
  }

  function Serialize(b: Block, p: Primitives): seq<byte> {
    p.serialize(b)
  }

  function DeserializeBlock(d: seq<byte>, p: Primitives): Option<Block> {
    p.deserialize(d)
  }

  lemma DeserializeSerialize(b: Block, p: Primitives)
    requires GobRoundTrip(p)
    ensures DeserializeBlock(Serialize(b, p), p) == Some(b)
  {
  }

  /** The header `DeriveHash` digests: decimal timestamp, payload, previous hash. */
  function Header(b: Block): seq<byte> {
    FormatInt(b.timestamp as int) + b.data + b.prevHash
  }

  /** `DeriveHash`: replaces the hash by the digest of the header and keeps every
      other field. */
  function DeriveHash(b: Block, p: Primitives): (r: Block)
    ensures r.hash == p.sha256(Header(b))
    ensures r.(hash := b.hash) == b
  {
    b.(hash := p.sha256(Header(b)))
  }

  /** The header is a plain concatenation with no separators, so the decimal timestamp
      can absorb a leading digit of the payload: a block with positive timestamp `t`
      whose payload starts with the digit `d` has the same header, hence the same
      derived hash, as the block with timestamp `10 t + d` and the rest of the payload. */
  lemma DeriveHashHeaderAmbiguous(t: int64, d: byte, rest: seq<byte>, prevHash: seq<byte>,
                                  hash: seq<byte>, nonce: int64, p: Primitives)
    requires t >= 1 && IsDigit(d)
    requires 10 * t as int + (d as int - Zero as int) <= MaxInt64 as int
    ensures var b1 := Block(t, hash, [d] + rest, prevHash, nonce);
            var b2 := Block((10 * t as int + (d as int - Zero as int)) as int64, hash, rest, prevHash, nonce);
            b1 != b2 && DeriveHash(b1, p).hash == DeriveHash(b2, p).hash
  {
    var v := d as int - Zero as int;
    var n := 10 * t as int + v;
    var b1 := Block(t, hash, [d] + rest, prevHash, nonce);
    var b2 := Block(n as int64, hash, rest, prevHash, nonce);
    assert n / 10 == t as int && n % 10 == v;
    assert Zero + (n % 10) as byte == d;
    assert Digits(n) == Digits(t as int) + [d];
    assert Header(b1) == Digits(t as int) + [d] + rest + prevHash;
  }
}
