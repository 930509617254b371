/** Transactions of blockchain/transaction.go: the records, the coinbase transaction,
    the ownership predicates and the assembly of a payment from spendable outputs. */
module Transactions {
  import opened Wrappers
  import opened Encoding

  /** The reward a coinbase transaction pays. */
  const Subsidy: int := 20

  datatype TXOutput = TXOutput(value: int, scriptPubKey: string)

  datatype TXInput = TXInput(txId: seq<byte>, vout: int, scriptSig: string)

  /** An `id` of `[]` stands for both nil and the empty slice, which gob does not distinguish. */
  datatype Transaction = Transaction(id: seq<byte>, vin: seq<TXInput>, vout: seq<TXOutput>)

  /** The foreign functions `SetId` uses: gob encoding of a transaction and SHA-256. */
  datatype TxHashing = TxHashing(encode: Transaction -> seq<byte>, sha256: seq<byte> -> Digest)

  /** `SetId`: the id becomes the digest of the encoding of the transaction as it stands;
      inputs and outputs are untouched. */
  function SetId(tx: Transaction, h: TxHashing): (r: Transaction)
    ensures r.vin == tx.vin && r.vout == tx.vout
    ensures r.id == h.sha256(h.encode(tx))
  {
    tx.(id := h.sha256(h.encode(tx)))
  }

  /** `CanUnlockOutputWith` */
  predicate CanUnlockOutputWith(input: TXInput, unlockingData: string) {
    input.scriptSig == unlockingData
  }

  /** `CanBeLockedWith` */
  predicate CanBeLockedWith(output: TXOutput, unlockingData: string) {
    output.scriptPubKey == unlockingData
  }

  /** `IsCoinbase`: one input, referring to no transaction, with output index -1. */
  predicate IsCoinbase(tx: Transaction) {
    |tx.vin| == 1 && |tx.vin[0].txId| == 0 && tx.vin[0].vout == -1
  }

  /** `NewCoinbaseTX`: one sentinel input carrying the memo `data`, or a default memo
      naming the recipient when `data` is empty, and one output paying the subsidy to
      `to`; the id is the digest of the transaction with an empty id. */
  function NewCoinbaseTX(to: string, data: string, h: TxHashing): (tx: Transaction)
    ensures IsCoinbase(tx)
    ensures |tx.vin| == 1 && tx.vin[0].txId == [] && tx.vin[0].vout == -1
    ensures data != "" ==> tx.vin[0].scriptSig == data
    ensures data == "" ==> tx.vin[0].scriptSig == "Reward to '" + to + "'"
    ensures tx.vout == [TXOutput(Subsidy, to)] && CanBeLockedWith(tx.vout[0], to)
    ensures tx.id == h.sha256(h.encode(Transaction([], tx.vin, tx.vout)))
  {
    var memo := if data == "" then "Reward to '" + to + "'" else data;
    var txin := TXInput([], -1, memo);
    var txout := TXOutput(Subsidy, to);
    SetId(Transaction([], [txin], [txout]), h)
  }

  // ---- NewUTXOTransaction ----

  datatype TxError =
    | NotEnoughFunds          // "ERROR: Not enough funds"
    | InvalidTxId(txid: string)  // a key of the spendable-output map that is not hexadecimal

  /** `range validOutputs` visits every key exactly once, in an order the runtime picks;
      `order` is that order. */
  ghost predicate IsIterationOrder(order: seq<string>, validOutputs: map<string, seq<int>>) {
    && (forall i, j :: 0 <= i < j < |order| ==> order[i] != order[j])
    && (forall k :: k in validOutputs <==> k in order)
  }

  /** The inputs built for one key: one per output index, in the listed order. */
  function KeyInputs(txId: seq<byte>, outs: seq<int>, from: string): (r: seq<TXInput>)
    ensures |r| == |outs|
  {
    seq(|outs|, j requires 0 <= j < |outs| => TXInput(txId, outs[j], from))
  }

  /** The inputs the outer loop has built after visiting `keys`, or the failure of the
      first key that does not decode. */
  function AssembleInputs(keys: seq<string>, validOutputs: map<string, seq<int>>, from: string)
    : Result<seq<TXInput>, TxError>
    requires forall k :: k in keys ==> k in validOutputs
  {
    if keys == [] then Success([])
    else
      var k := keys[|keys| - 1];
      match AssembleInputs(keys[..|keys| - 1], validOutputs, from)
      case Failure(e) => Failure(e)
      case Success(prefix) =>
        match DecodeHex(k)
        case None => Failure(InvalidTxId(k))
        case Some(txId) => Success(prefix + KeyInputs(txId, validOutputs[k], from))
  }

  /** The payment output, then the change output when the accumulated amount exceeds it. */
  function Outputs(amount: int, to: string, acc: int, from: string): seq<TXOutput> {
    [TXOutput(amount, to)] + if acc > amount then [TXOutput(acc - amount, from)] else []
  }

  /** The transaction `NewUTXOTransaction` returns, or the panic it raises. */
  function Payment(from: string, to: string, amount: int, acc: int,
                   validOutputs: map<string, seq<int>>, order: seq<string>, h: TxHashing)
    : Result<Transaction, TxError>
    requires IsIterationOrder(order, validOutputs)
  {
    if acc < amount then Failure(NotEnoughFunds)
    else
      match AssembleInputs(order, validOutputs, from)
      case Failure(e) => Failure(e)
      case Success(vin) => Success(SetId(Transaction([], vin, Outputs(amount, to, acc, from)), h))
  }

  /** Once a prefix of the keys has failed, visiting more keys keeps that failure. */
  lemma {:induction false} FailureIsFinal(keys: seq<string>, m: nat, validOutputs: map<string, seq<int>>, from: string)
    requires m <= |keys| && forall k :: k in keys ==> k in validOutputs
    requires AssembleInputs(keys[..m], validOutputs, from).Failure?
    ensures AssembleInputs(keys, validOutputs, from) == AssembleInputs(keys[..m], validOutputs, from)
  {
    if m < |keys| {
      var init := keys[..|keys| - 1];
      assert init[..m] == keys[..m];
      FailureIsFinal(init, m, validOutputs, from);
    } else {
      assert keys[..m] == keys;
    }
  }

  /** One turn of the outer loop: visiting the key at position `i` either appends its
      group of inputs or fails on that key. */
  lemma AssembleInputsStep(keys: seq<string>, i: nat, validOutputs: map<string, seq<int>>, from: string)
    requires i < |keys| && forall k :: k in keys ==> k in validOutputs
    requires AssembleInputs(keys[..i], validOutputs, from).Success?
    ensures DecodeHex(keys[i]).None? ==>
              AssembleInputs(keys[..i + 1], validOutputs, from) == Failure(InvalidTxId(keys[i]))
    ensures DecodeHex(keys[i]).Some? ==>
              AssembleInputs(keys[..i + 1], validOutputs, from)
              == Success(AssembleInputs(keys[..i], validOutputs, from).value
                         + KeyInputs(DecodeHex(keys[i]).value, validOutputs[keys[i]], from))
  {
    assert keys[..i + 1][..i] == keys[..i];
  }

  /** `NewUTXOTransaction`, given the result `(acc, validOutputs)` of
      `FindSpendableOutputs` and the order in which `range` visits the keys. */
  method NewUTXOTransaction(from: string, to: string, amount: int, acc: int,
                            validOutputs: map<string, seq<int>>, order: seq<string>, h: TxHashing)
    returns (r: Result<Transaction, TxError>)
    requires IsIterationOrder(order, validOutputs)
    ensures r == Payment(from, to, amount, acc, validOutputs, order, h)
  {
    var inputs: seq<TXInput> := [];
    var outputs: seq<TXOutput> := [];
    if acc < amount {
      return Failure(NotEnoughFunds);
    }
    var i := 0;
    while i < |order|
      invariant 0 <= i <= |order|
      invariant AssembleInputs(order[..i], validOutputs, from) == Success(inputs)
    {
      var txid := order[i];
      AssembleInputsStep(order, i, validOutputs, from);
      var txID := DecodeHex(txid);
      if txID.None? {
        FailureIsFinal(order, i + 1, validOutputs, from);
        return Failure(InvalidTxId(txid));
      }
      var outs := validOutputs[txid];
      ghost var before := inputs;
      var j := 0;
      while j < |outs|
        invariant 0 <= j <= |outs|
        invariant inputs == before + KeyInputs(txID.value, outs[..j], from)
      {
        inputs := inputs + [TXInput(txID.value, outs[j], from)];
        j := j + 1;
      }
      assert outs[..j] == outs;
      i := i + 1;
    }
    assert order[..i] == order;
    outputs := outputs + [TXOutput(amount, to)];
    if acc > amount {
      outputs := outputs + [TXOutput(acc - amount, from)];
    }
    assert outputs == Outputs(amount, to, acc, from);
    var tx := Transaction([], inputs, outputs);
    tx := SetId(tx, h);
    r := Success(tx);
  }

  // ---- Properties of a payment ----

  /** Number of output indices listed under `keys`. */
  function RefCount(keys: seq<string>, validOutputs: map<string, seq<int>>): nat
    requires forall k :: k in keys ==> k in validOutputs
  {
    if keys == [] then 0
    else RefCount(keys[..|keys| - 1], validOutputs) + |validOutputs[keys[|keys| - 1]]|
  }

  /** Input assembly succeeds exactly when every key decodes; otherwise it reports the
      first key that does not. */
  lemma {:induction false} AssembleInputsOutcome(keys: seq<string>, validOutputs: map<string, seq<int>>, from: string)
    requires forall k :: k in keys ==> k in validOutputs
    ensures var r := AssembleInputs(keys, validOutputs, from);
            && (r.Success? <==> forall i :: 0 <= i < |keys| ==> DecodeHex(keys[i]).Some?)
            && (r.Failure? ==> exists i :: 0 <= i < |keys| && DecodeHex(keys[i]).None?
                                   && (forall j :: 0 <= j < i ==> DecodeHex(keys[j]).Some?)
                                   && r.error == InvalidTxId(keys[i]))
  {
    if keys != [] {
      var n := |keys|;
      var init := keys[..n - 1];
      AssembleInputsOutcome(init, validOutputs, from);
      assert forall i :: 0 <= i < n - 1 ==> init[i] == keys[i];
      var r := AssembleInputs(keys, validOutputs, from);
      if AssembleInputs(init, validOutputs, from).Failure? {
        var i :| 0 <= i < |init| && DecodeHex(init[i]).None?
                 && (forall j :: 0 <= j < i ==> DecodeHex(init[j]).Some?)
                 && AssembleInputs(init, validOutputs, from).error == InvalidTxId(init[i]);
        assert DecodeHex(keys[i]).None? && r.error == InvalidTxId(keys[i]);
      } else if DecodeHex(keys[n - 1]).None? {
        assert r.error == InvalidTxId(keys[n - 1]);
      }
    }
  }

  /** How a successful assembly over non-empty `keys` ends: the inputs of the earlier keys,
      then the group of the last key. */
  lemma AssembleInputsLast(keys: seq<string>, validOutputs: map<string, seq<int>>, from: string, vin: seq<TXInput>)
    requires keys != [] && forall k :: k in keys ==> k in validOutputs
    requires AssembleInputs(keys, validOutputs, from) == Success(vin)
    ensures var init, k := keys[..|keys| - 1], keys[|keys| - 1];
            && AssembleInputs(init, validOutputs, from).Success?
            && DecodeHex(k).Some?
            && vin == AssembleInputs(init, validOutputs, from).value
                      + KeyInputs(DecodeHex(k).value, validOutputs[k], from)
  {
  }

  /** There are as many assembled inputs as listed output indices. */
  lemma {:induction false} AssembleInputsLength(keys: seq<string>, validOutputs: map<string, seq<int>>,
                                                from: string, vin: seq<TXInput>)
    requires forall k :: k in keys ==> k in validOutputs
    requires AssembleInputs(keys, validOutputs, from) == Success(vin)
    ensures |vin| == RefCount(keys, validOutputs)
  {
    if keys != [] {
      AssembleInputsLast(keys, validOutputs, from, vin);
      var init := keys[..|keys| - 1];
      AssembleInputsLength(init, validOutputs, from, AssembleInputs(init, validOutputs, from).value);
    }
  }

  /** The key at position `m` contributes, starting at offset `RefCount(keys[..m])`, one
      input per listed output index, in list order: its `j`-th input carries the decoded
      key, the `j`-th index and the sender. */
  lemma {:induction false} AssembleInputsAt(keys: seq<string>, validOutputs: map<string, seq<int>>,
                                            from: string, vin: seq<TXInput>, m: nat, j: nat)
    requires forall k :: k in keys ==> k in validOutputs
    requires AssembleInputs(keys, validOutputs, from) == Success(vin)
    requires m < |keys| && j < |validOutputs[keys[m]]|
    ensures InputAt(vin, RefCount(keys[..m], validOutputs) + j, DecodeHex(keys[m]), validOutputs[keys[m]][j], from)
  {
    var n := |keys|;
    var init, k := keys[..n - 1], keys[n - 1];
    AssembleInputsLast(keys, validOutputs, from, vin);
    var prefix := AssembleInputs(init, validOutputs, from).value;
    var group := KeyInputs(DecodeHex(k).value, validOutputs[k], from);
    if m < n - 1 {
      assert keys[..m] == init[..m] && keys[m] == init[m];
      AssembleInputsAt(init, validOutputs, from, prefix, m, j);
      assert vin[RefCount(init[..m], validOutputs) + j] == prefix[RefCount(init[..m], validOutputs) + j];
    } else {
      assert keys[..m] == init;
      AssembleInputsLength(init, validOutputs, from, prefix);
      assert vin[|prefix| + j] == group[j];
    }
  }

  /** All positions at once: the inputs are the groups of the keys, back to back. */
  lemma AssembleInputsPositions(keys: seq<string>, validOutputs: map<string, seq<int>>,
                                from: string, vin: seq<TXInput>)
    requires forall k :: k in keys ==> k in validOutputs
    requires AssembleInputs(keys, validOutputs, from) == Success(vin)
    ensures |vin| == RefCount(keys, validOutputs)
    ensures forall m, j :: 0 <= m < |keys| && 0 <= j < |validOutputs[keys[m]]| ==>
              InputAt(vin, RefCount(keys[..m], validOutputs) + j, DecodeHex(keys[m]), validOutputs[keys[m]][j], from)
  {
    AssembleInputsLength(keys, validOutputs, from, vin);
    forall m, j | 0 <= m < |keys| && 0 <= j < |validOutputs[keys[m]]|
      ensures InputAt(vin, RefCount(keys[..m], validOutputs) + j, DecodeHex(keys[m]), validOutputs[keys[m]][j], from)
    {
      AssembleInputsAt(keys, validOutputs, from, vin, m, j);
    }
  }

  /** `vin[offset]` exists and is the input for output `index` of the transaction whose
      id `txId` decodes to. */
  ghost predicate InputAt(vin: seq<TXInput>, offset: int, txId: Option<seq<byte>>, index: int, from: string) {
    0 <= offset < |vin| && txId.Some? && vin[offset] == TXInput(txId.value, index, from)
  }

  /** Every assembled input is signed by the sender and spends a listed (key, index) pair. */
  lemma {:induction false} AssembleInputsSources(keys: seq<string>, validOutputs: map<string, seq<int>>,
                                                 from: string, vin: seq<TXInput>)
    requires forall k :: k in keys ==> k in validOutputs
    requires AssembleInputs(keys, validOutputs, from) == Success(vin)
    ensures forall i :: 0 <= i < |vin| ==> vin[i].scriptSig == from && Spends(vin[i], keys, validOutputs)
  {
    if keys != [] {
      var n := |keys|;
      var init, k := keys[..n - 1], keys[n - 1];
      AssembleInputsLast(keys, validOutputs, from, vin);
      var prefix := AssembleInputs(init, validOutputs, from).value;
      var group := KeyInputs(DecodeHex(k).value, validOutputs[k], from);
      AssembleInputsSources(init, validOutputs, from, prefix);
      forall i | 0 <= i < |vin|
        ensures vin[i].scriptSig == from && Spends(vin[i], keys, validOutputs)
      {
        if i < |prefix| {
          assert vin[i] == prefix[i] && Spends(prefix[i], init, validOutputs);
          var k', j :| k' in init && 0 <= j < |validOutputs[k']|
                       && DecodeHex(k') == Some(prefix[i].txId) && prefix[i].vout == validOutputs[k'][j];
          assert k' in keys;
        } else {
          var j := i - |prefix|;
          assert vin[i] == group[j];
          assert k in keys && DecodeHex(k) == Some(vin[i].txId) && vin[i].vout == validOutputs[k][j];
        }
      }
    }
  }

  /** `input` refers to output `index` of a transaction whose hexadecimal id is one of
      `keys`, for an `index` listed under that key. */
  ghost predicate Spends(input: TXInput, keys: seq<string>, validOutputs: map<string, seq<int>>)
    requires forall k :: k in keys ==> k in validOutputs
  {
    exists k, j :: k in keys && 0 <= j < |validOutputs[k]|
                   && DecodeHex(k) == Some(input.txId) && input.vout == validOutputs[k][j]
  }

  /** `NewUTXOTransaction` panics with "Not enough funds" exactly when `acc < amount`;
      otherwise it succeeds exactly when every key is hexadecimal, and otherwise it
      panics on the first key, in iteration order, that is not. */
  lemma PaymentOutcome(from: string, to: string, amount: int, acc: int,
                       validOutputs: map<string, seq<int>>, order: seq<string>, h: TxHashing)
    requires IsIterationOrder(order, validOutputs)
    ensures var r := Payment(from, to, amount, acc, validOutputs, order, h);
            && (r == Failure(NotEnoughFunds) <==> acc < amount)
            && (r.Success? <==> acc >= amount && forall i :: 0 <= i < |order| ==> DecodeHex(order[i]).Some?)
            && (r.Failure? && acc >= amount ==>
                  exists i :: 0 <= i < |order| && DecodeHex(order[i]).None?
                              && (forall j :: 0 <= j < i ==> DecodeHex(order[j]).Some?)
                              && r.error == InvalidTxId(order[i]))
  {
    AssembleInputsOutcome(order, validOutputs, from);
  }

  /** Sum of the values of a list of outputs. */
  function TotalValue(outs: seq<TXOutput>): int {
    if outs == [] then 0 else TotalValue(outs[..|outs| - 1]) + outs[|outs| - 1].value
  }

  /** The outputs of a payment: first `amount` locked to `to`, then, exactly when there is
      change, `acc - amount` locked to `from`; together they carry exactly `acc`. The id
      is the digest of the transaction with its id still empty. */
  lemma PaymentOutputs(from: string, to: string, amount: int, acc: int,
                       validOutputs: map<string, seq<int>>, order: seq<string>, h: TxHashing, tx: Transaction)
    requires IsIterationOrder(order, validOutputs)
    requires Payment(from, to, amount, acc, validOutputs, order, h) == Success(tx)
    ensures 1 <= |tx.vout| <= 2
    ensures tx.vout[0] == TXOutput(amount, to) && CanBeLockedWith(tx.vout[0], to)
    ensures |tx.vout| == 2 <==> acc > amount
    ensures |tx.vout| == 2 ==> tx.vout[1] == TXOutput(acc - amount, from) && CanBeLockedWith(tx.vout[1], from)
    ensures TotalValue(tx.vout) == acc
    ensures tx.id == h.sha256(h.encode(Transaction([], tx.vin, tx.vout)))
  {
    var outs := Outputs(amount, to, acc, from);
    assert TotalValue([outs[0]]) == amount;
    if acc > amount {
      assert outs[..1] == [outs[0]];
    }
  }

  /** The inputs of a payment correspond to the listed (key, output index) pairs: there are
      as many as pairs, the key visited `m`-th fills the block of positions starting at
      `RefCount(order[..m])` in list order, and every input is unlockable by `from` and
      spends a listed pair. */
  lemma PaymentInputs(from: string, to: string, amount: int, acc: int,
                      validOutputs: map<string, seq<int>>, order: seq<string>, h: TxHashing, tx: Transaction)
    requires IsIterationOrder(order, validOutputs)
    requires Payment(from, to, amount, acc, validOutputs, order, h) == Success(tx)
    ensures |tx.vin| == RefCount(order, validOutputs)
    ensures forall m, j :: 0 <= m < |order| && 0 <= j < |validOutputs[order[m]]| ==>
              InputAt(tx.vin, RefCount(order[..m], validOutputs) + j, DecodeHex(order[m]), validOutputs[order[m]][j], from)
    ensures forall i :: 0 <= i < |tx.vin| ==> CanUnlockOutputWith(tx.vin[i], from) && Spends(tx.vin[i], order, validOutputs)
  {
    var vin := AssembleInputs(order, validOutputs, from).value;
    assert tx.vin == vin;
    AssembleInputsPositions(order, validOutputs, from, vin);
    AssembleInputsSources(order, validOutputs, from, vin);
  }

  /** A payment spending only genuine output indices (none negative) is never mistaken
      for a coinbase transaction. */
  lemma PaymentIsNotCoinbase(from: string, to: string, amount: int, acc: int,
                             validOutputs: map<string, seq<int>>, order: seq<string>, h: TxHashing, tx: Transaction)
    requires IsIterationOrder(order, validOutputs)
    requires forall k, j :: k in validOutputs && 0 <= j < |validOutputs[k]| ==> validOutputs[k][j] >= 0
    requires Payment(from, to, amount, acc, validOutputs, order, h) == Success(tx)
    ensures !IsCoinbase(tx)
  {
    PaymentInputs(from, to, amount, acc, validOutputs, order, h, tx);
    if |tx.vin| == 1 {
      assert Spends(tx.vin[0], order, validOutputs);
      var k, j :| k in order && 0 <= j < |validOutputs[k]|
                  && DecodeHex(k) == Some(tx.vin[0].txId) && tx.vin[0].vout == validOutputs[k][j];
      assert k in validOutputs;
    }
  }
}
