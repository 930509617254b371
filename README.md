# A verified model of the core of a toy proof-of-work blockchain

This project models the core of the Go repository `PNKDuy/blockchain-example` in Dafny:

- the block record and its hash derivation (`blockchain/block.go`);
- the proof-of-work engine that searches for a nonce (`blockchain/proof.go`);
- the chain store over a key-value bucket, with its iterator (`blockchain/blockchain.go`);
- the transaction records, the coinbase transaction and payment assembly (`blockchain/transaction.go`).

Modules follow the source files:

| module | file | contents |
|---|---|---|
| `Wrappers` | `wrappers.dfy` | `Option` and `Result` |
| `Encoding` | `encoding.dfy` | Go's `int64`, the big-endian reading of a digest (`big.Int.SetBytes`), the fixed-width encoding `utils.IntToHex`, `strconv.FormatInt` and base16 from section 8 of RFC 4648 (`hex.DecodeString`) |
| `Blocks` | `blocks.dfy` | the `Block` record, `DeriveHash`, and the foreign functions the core calls (SHA-256, `HashTransactions`, gob encoding) |
| `ProofOfWork` | `proof.dfy` | the target, `prepareData`, the nonce search `Run` and `Validate` |
| `Mining` | `mining.dfy` | `CreateBlock` and `Genesis` |
| `Chain` | `chain.dfy` | the `Db`, `BlockChain` and `BlockchainIterator` classes |
| `Transactions` | `transaction.dfy` | transactions, the coinbase, ownership predicates and `NewUTXOTransaction` |

Modelling choices:

- **Foreign functions are parameters.** SHA-256, `Block.HashTransactions` and gob encoding and decoding are function values. Blocks use the `Primitives` record and transactions use the `TxHashing` record. The gob round trip is the hypothesis `GobRoundTrip`. The model assumes nothing else about these functions, in particular neither collision resistance nor preimage resistance.
- **The clock is a parameter.** `time.Now().Unix()` is the `now` argument.
- **Database.** The BoltDB "blocks" bucket is a `map<seq<byte>, seq<byte>>`, held in a `Db` object that a chain and its iterators share. `Get` of a missing key is the empty string, which stands for Go's `nil`.
- **Panics.** Where `Next` panics on a missing bucket or undecodable data, and where `NewUTXOTransaction` panics on insufficient funds or a non-hex key, the model returns `None` or a `Failure`. The exception is `AddBlock`: its panic on a missing bucket is excluded by a precondition, which every chain built by `Init` meets.
- **Value semantics.** `Block` and `Transaction` are values. The in-place writes of `CreateBlock` and `SetId` are functional updates.
- **Iteration order.** Go's random map iteration order in `NewUTXOTransaction` is an explicit parameter `order`. It is any duplicate-free listing of the map's keys.
- **State.** The classes keep the state the Go structs keep: `tip` and `db` for the chain, `currentHash` and `db` for the iterator. `BlockChain.history` is ghost. It records the blocks appended so far, so that the invariant `Valid` can state that the bucket holds a hash-linked chain.

Points where the code departs from how such a ledger is usually described; the model follows the code:

- A block carries a byte payload `Data`, not a list of transactions.
- `Genesis` stores the payload `"Genesis"`, not a coinbase transaction.
- The iterator does not stop by itself at the genesis block. `Walk` performs a given number of `Next` calls.

Two further points about the code itself:

- `Block.HashTransactions` is called at `blockchain/proof.go:46` but not defined in package blockchain. It is modelled as an abstract function of the block's payload.
- `utils.IntToHex` (package utils) is modelled as the 8-byte big-endian two's-complement encoding of an `int64`.

## Model

| member | source | states |
|---|---|---|
| Encoding.IntToHex | blockchain/proof.go:47-49 | The encoding of an integer is 8 bytes long and reads back, as a two's-complement big-endian number, to the same integer. |
| Encoding.IntToHexInjective | blockchain/proof.go:47-49 | Distinct integers get distinct encodings, so the timestamp, difficulty and nonce fields of the header material are unambiguous. |
| Encoding.BigEndianBound | blockchain/proof.go:66 | A k-byte string read as an unsigned big-endian number is below 256^k. |
| Encoding.BigEndianAppend | blockchain/proof.go:66 | The value of a concatenation is the value of the high part shifted past the low part, plus the value of the low part. |
| Encoding.FormatInt | blockchain/block.go:21 | The decimal spelling starts with a minus sign exactly for negative numbers. After it come one or more decimal digits with no leading zero, which parse back to the absolute value. |
| Encoding.DecodeHex | blockchain/transaction.go:81-84 | A successful decode of a string yields half as many bytes as the string has characters. |
| Encoding.DecodeHexSucceedsIff | blockchain/transaction.go:81-84 | Decoding succeeds exactly when the string has even length and every character is a hexadecimal digit of either case. |
| Encoding.DecodeHexValues | blockchain/transaction.go:81-84 | Byte i of a decoded string is 16 times the value of digit 2i plus the value of digit 2i+1. |
| Encoding.DecodeEncodeHex | blockchain/transaction.go:81-84 | Decoding the lower-case hex spelling of any byte string gives that byte string back. |
| Blocks.DeserializeSerialize | blockchain/block.go:45-67 | Under the gob round-trip hypothesis, deserializing a serialized block gives back the same block. |
| Blocks.Serialize | blockchain/block.go:45-55 | The encoding of a block is the gob encoder parameter applied to it. |
| Blocks.DeserializeBlock | blockchain/block.go:57-67 | The decoding of a byte string is the gob decoder parameter applied to it; None where the Go code panics. |
| Blocks.DeriveHash | blockchain/block.go:20-25 | The new hash is the SHA-256 of the header: decimal timestamp, then payload, then previous hash. Every other field is unchanged. |
| Blocks.DeriveHashHeaderAmbiguous | blockchain/block.go:21-22 | The header has no separators. For every timestamp t >= 1 and digit d, the block with timestamp t and payload d ++ rest derives the same hash as the distinct block with timestamp 10t + d and payload rest. |
| ProofOfWork.DifficultyBytesEncodeTargetBits | blockchain/proof.go:48 | The difficulty field of the header material is the 8-byte encoding of targetBits = 24. |
| ProofOfWork.NewProofOfWork | blockchain/proof.go:33-40 | The proof of work keeps the block. Its target is 1 shifted left by 256 - 24, that is 2^232 = 256^29. |
| ProofOfWork.PrepareData | blockchain/proof.go:42-54 | The header material for a nonce is PrevHash, then HashTransactions of the payload, then IntToHex of the timestamp, of 24 and of the nonce, joined with no separator. |
| ProofOfWork.PrepareDataLayout | blockchain/proof.go:42-54 | The header material starts with the previous hash, is 24 bytes longer than the previous hash and the transactions digest together, and its last three 8-byte fields decode to the timestamp, 24 and the nonce. |
| ProofOfWork.PrepareDataIgnoresHashAndNonce | blockchain/proof.go:42-54 | The header material depends neither on the block's stored hash nor on its stored nonce. |
| ProofOfWork.PrepareDataDistinguishesNonces | blockchain/proof.go:42-54 | Different nonces give different header material. |
| ProofOfWork.Run | blockchain/proof.go:56-77 | The returned nonce is at most maxNonce and every smaller nonce fails the target. A nonce below maxNonce meets the target and comes with its own hash. A nonce equal to maxNonce means no nonce succeeded, and the hash is the one for maxNonce - 1. |
| ProofOfWork.BelowTargetIffLeadingZeros | blockchain/proof.go:20-23 | A 32-byte hash is below the target exactly when its first three bytes (24 bits) are zero. |
| ProofOfWork.HighBytesZeroIffBelow | blockchain/proof.go:66-68 | A (3+k)-byte value is below 256^k exactly when its first three bytes are zero. |
| ProofOfWork.Validate | blockchain/proof.go:79-89 | A proof of work is valid when the SHA-256 of the header material for the block's stored nonce, read as an unsigned big-endian number, is strictly below the target. |
| ProofOfWork.ValidateIffLeadingZeros | blockchain/proof.go:79-89 | Validate holds exactly when the hash recomputed for the block's stored nonce starts with three zero bytes. |
| Mining.CreateBlock | blockchain/block.go:27-36 | The block carries the given payload, previous hash and timestamp, and exactly the nonce and hash the search found. Every smaller nonce fails. If the search succeeded, the block passes Validate and its hash is the digest of its header material. |
| Mining.Genesis | blockchain/block.go:40-42 | The genesis block has an empty previous hash, the payload "Genesis" and a 32-byte hash, and it passes Validate whenever the search succeeded. |
| Chain.Db.Open | blockchain/blockchain.go:77-80 | The opened database holds the given bucket contents, or no bucket. |
| Chain.WalkFromNewest | blockchain/blockchain.go:24-40 | Starting at the newest block of a linked chain, one Next per block yields the chain in reverse and leaves an empty cursor. |
| Chain.IteratorYieldsChain | blockchain/blockchain.go:18-40 | Iterating a stored chain from its tip yields every block, newest first. The first block yielded is the tip, each block's PrevHash is the next block's hash, and the last block yielded is the genesis block. |
| Chain.AppendKeepsStored | blockchain/blockchain.go:58-70 | Storing a block that links to the tip under its own fresh hash, then moving the tip key to it, stores the extended chain. |
| Chain.BlockchainIterator.constructor | blockchain/blockchain.go:13-16 | The iterator starts at the given cursor over the given database. |
| Chain.BlockchainIterator.Next | blockchain/blockchain.go:24-40 | The result is the block decoded from the value stored at the cursor, and the cursor moves to that block's PrevHash. A missing bucket or undecodable data is None and leaves the cursor unchanged. |
| Chain.BlockChain.Iterator | blockchain/blockchain.go:18-22 | The new iterator is fresh, starts at the chain's tip and shares the chain's database. |
| Chain.BlockChain.Init | blockchain/blockchain.go:75-107 | Without a bucket, the genesis block is mined. It has an empty previous hash, the payload "Genesis" and the timestamp, and when the search succeeded it passes Validate with its hash the digest of its header material. The bucket then holds exactly that block under its hash plus the tip key, and the chain is valid. With a bucket, nothing is written and tip is the stored tip key. |
| Chain.BlockChain.AddBlock | blockchain/blockchain.go:42-72 | The new block links to the hash under the tip key and carries the payload and the timestamp. The bucket gains exactly the block under its hash and the updated tip key, and tip is the new hash. A valid chain stays valid when the new hash is fresh. |
| Transactions.SetId | blockchain/transaction.go:20-31 | Only the id changes. It becomes the SHA-256 of the encoding of the transaction as it stood. |
| Transactions.CanUnlockOutputWith | blockchain/transaction.go:57-59 | An input can be unlocked with a string exactly when its ScriptSig equals that string. |
| Transactions.CanBeLockedWith | blockchain/transaction.go:61-63 | An output can be locked with a string exactly when its ScriptPubKey equals that string. |
| Transactions.IsCoinbase | blockchain/transaction.go:65-67 | A transaction is a coinbase exactly when it has one input, and that input has an empty TxId and Vout == -1. |
| Transactions.NewCoinbaseTX | blockchain/transaction.go:44-55 | The result is a coinbase transaction with a single input referring to no transaction with index -1, and the single output (20, to), which `to` can lock. The input's ScriptSig is `data` when it is non-empty and "Reward to '<to>'" otherwise. Its id is the digest of the transaction with a nil id. |
| Transactions.FailureIsFinal | blockchain/transaction.go:80-84 | Once a key fails to decode, the loop's outcome is that failure whatever keys follow. |
| Transactions.NewUTXOTransaction | blockchain/transaction.go:69-102 | The nested loops and the output appends compute exactly Payment: the insufficient-funds panic, the first undecodable key, or the transaction with the assembled inputs and outputs. |
| Transactions.AssembleInputsOutcome | blockchain/transaction.go:80-84 | Input assembly succeeds exactly when every key decodes. Otherwise it fails on the first key, in iteration order, that does not. |
| Transactions.AssembleInputsLength | blockchain/transaction.go:80-90 | There are exactly as many inputs as listed output indices. |
| Transactions.AssembleInputsAt | blockchain/transaction.go:80-90 | The j-th output index under the key visited m-th becomes the input at offset RefCount(keys[..m]) + j, carrying the decoded key, that index and the sender. |
| Transactions.AssembleInputsPositions | blockchain/transaction.go:80-90 | The inputs are the groups of all keys, back to back in iteration order, and there is one input per listed index. |
| Transactions.AssembleInputsSources | blockchain/transaction.go:86-89 | Every input is signed by the sender and spends a listed (key, index) pair. |
| Transactions.PaymentOutcome | blockchain/transaction.go:75-84 | The payment fails with NotEnoughFunds exactly when acc < amount. Otherwise it succeeds exactly when every key is hexadecimal, and fails on the first key that is not. |
| Transactions.PaymentOutputs | blockchain/transaction.go:92-99 | There are one or two outputs. The first is (amount, to). A second output (acc - amount, from) exists exactly when acc > amount. The values sum to acc, and the id is the digest of the transaction with a nil id. |
| Transactions.PaymentInputs | blockchain/transaction.go:79-90 | The inputs correspond to the listed (key, index) pairs: one per pair, grouped by key in iteration order. Each is unlockable by `from` and spends a listed pair. |
| Transactions.PaymentIsNotCoinbase | blockchain/transaction.go:65-67 | A payment spending only non-negative output indices is never a coinbase transaction. |

## Left out

- `blockchain/cli.go`, the command-line front end, is not part of this model.
- SHA-256, gob encoding and `HashTransactions` are foreign functions given as parameters. Their cryptographic properties are not modelled.
- `time.Now()` is a parameter.
- Opening the database file, BoltDB's `View`/`Update` transactions and bucket creation are not modelled. The bucket is a map held in a `Db` object.
- Ignored errors are treated as success: the `Put` of the tip key and the results of `Update` in `AddBlock` and `InitBlockChain`.
- Concurrency is not modelled. The chain is used by one thread, and the read-tip, write-block, write-tip sequence of `AddBlock` is not atomic in the source.
- The progress printing in `Run` is left out.
- The commented-out in-memory chain at `blockchain/blockchain.go:43-45` is left out.
- `FindSpendableOutputs` and `FindUTXO` are called but not defined in package blockchain. `NewUTXOTransaction` therefore takes their result `(acc, validOutputs)` as parameters.
- `Block` and `Transaction` are values, so no aliasing through `*Block` or `*Transaction` pointers is modelled. `CreateBlock` (`blockchain/block.go:29-33`) does write `block.Hash` and `block.Nonce` while `pow.block` still points at the block, but nothing reads `pow` after `Run` returns, so the value model loses nothing observable.
- The encoder panics are not modelled: `Serialize` panics on a gob encoding error (`blockchain/block.go:49-52`) and so does `SetId` (`blockchain/transaction.go:25-28`). The `serialize` and `encode` parameters are total functions.
- Transaction values are unbounded integers: the 64-bit wrap-around that `acc - amount` could hit for extreme inputs is not modelled.
- `Chain.BlockChain.AddBlock`: requires the bucket to exist. `Init` guarantees that, and the Go code panics without it. Its preservation of `Valid` is conditional on the new hash differing from every earlier block hash. A SHA-256 collision would overwrite an earlier block.
- `Chain.BlockChain.Init`: with an existing bucket, the model cannot see what the file holds. `Valid` follows only when the caller-supplied description `stored` of the bucket is a linked chain ending at the tip.
- `Chain.BlockchainIterator.Next`: gob decoding of a missing key is whatever the `deserialize` parameter returns for the empty string.
- `Transactions.NewUTXOTransaction`: the order of the inputs depends on Go's random map order. The model proves the result for every iteration order without fixing one.
