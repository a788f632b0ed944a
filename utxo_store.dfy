/**
  The UTXO store of utxo_store.go: cursor scans over the storage bucket and
  the two writers, `Update` and `Reindex`. The bucket is held here as a
  field; the store reaches it through the chain's database in the source.
*/
module UtxoStores {
  import opened Wrappers
  import opened Bytes
  import opened Records
  import opened TxOut
  import opened Bucket
  import opened UtxoIndex
  import opened Blocks

  class UtxoStore {
    /** The contents of the UTXO bucket, in key order. */
    var bucket: seq<Entry>

    predicate Valid()
      reads this
    {
      Sorted(bucket)
    }

    constructor (bucket: seq<Entry>)
      ensures this.bucket == bucket
    {
      this.bucket := bucket;
    }

    /** Every stored output owned by the key hash, in key order and then list position. */
    method FindUtxo(pubKeyHash: Bytes) returns (res: seq<TxOutput>)
      ensures res == Owned(bucket, pubKeyHash)
    {
      res := [];
      for i := 0 to |bucket|
        invariant res == Owned(bucket[..i], pubKeyHash)
      {
        var outs := bucket[i].outs;
        ghost var before := res;
        for j := 0 to |outs|
          invariant res == before + OwnedOf(outs[..j], pubKeyHash)
        {
          assert outs[..j + 1][..j] == outs[..j];
          if CanOutputBeUnlocked(outs[j], pubKeyHash) {
            res := res + [outs[j]];
          }
        }
        assert outs[..|outs|] == outs;
        assert bucket[..i + 1][..i] == bucket[..i];
      }
      assert bucket[..|bucket|] == bucket;
    }

    /**
      Scans the bucket taking owned outputs while the total is below
      `amount`; returns the total and, per hex transaction id, the positions
      taken.
    */
    method FindSpendableOutputs(pubKeyHash: Bytes, amount: int) returns (total: int, unspent: map<string, seq<int>>)
      ensures total == Greedy(Slots(bucket), pubKeyHash, amount).total
      ensures unspent == Group(Greedy(Slots(bucket), pubKeyHash, amount).chosen)
    {
      total := 0;
      unspent := map[];
      for i := 0 to |bucket|
        invariant total == Greedy(Slots(bucket[..i]), pubKeyHash, amount).total
        invariant unspent == Group(Greedy(Slots(bucket[..i]), pubKeyHash, amount).chosen)
      {
        total, unspent := ScanEntry(bucket[i], pubKeyHash, amount, Slots(bucket[..i]), total, unspent);
        assert bucket[..i + 1][..i] == bucket[..i];
        assert Slots(bucket[..i + 1]) == Slots(bucket[..i]) + EntrySlots(bucket[i]);
      }
      assert bucket[..|bucket|] == bucket;
    }

    /**
      Applies a block in one storage transaction: for every input of every
      transaction, the referenced list loses position `Vout` (the entry is
      deleted when that empties it) and the transaction's outputs are stored
      under its id. A referenced id that is not stored panics and rolls the
      transaction back: `false`, with the bucket unchanged.
    */
    method Update(block: Block) returns (ok: bool)
      modifies this
      ensures ok <==> ApplyBlock(old(bucket), block.transactions).Some?
      ensures ok ==> bucket == ApplyBlock(old(bucket), block.transactions).value
      ensures !ok ==> bucket == old(bucket)
      ensures old(Valid()) && ok ==> Valid()
    {
      var txs := block.transactions;
      var b := bucket;
      for t := 0 to |txs|
        invariant bucket == old(bucket)
        invariant ApplyBlock(bucket, txs[..t]) == Some(b)
      {
        assert txs[..t + 1][..t] == txs[..t];
        var next := ApplyTransaction(b, txs[t]);
        if next.None? {
          assert ApplyBlock(bucket, txs[..t + 1]).None?;
          ApplyBlockStopsAtFailure(bucket, txs, t + 1);
          return false;
        }
        b := next.value;
      }
      assert txs[..|txs|] == txs;
      if Sorted(bucket) {
        ApplyBlockSorted(bucket, txs);
      }
      bucket := b;
      return true;
    }

    /**
      Empties the bucket (committed on its own), then stores the outputs of
      every entry of the supplied UTXO map under the hex-decoded id, in the
      map's unspecified iteration order. A key that does not decode, or that
      decodes to the empty id bolt refuses, panics and rolls back the second
      transaction only: `false`, with the bucket left empty. The map is what
      the chain's own `FindUtxo` returns, which is not part of this model.
    */
    method Reindex(utxo: map<string, seq<TxOutput>>) returns (ok: bool)
      modifies this
      ensures ok <==> forall s | s in utxo :: Decodable(s)
      ensures ok ==> Valid() && ReindexedFrom(bucket, utxo, utxo.Keys)
      ensures !ok ==> bucket == []
    {
      bucket := [];
      var b;
      ok, b := ReindexBucket(utxo);
      if ok {
        bucket := b;
      }
    }
  }

  /**
    The inner loop of `FindSpendableOutputs` over one entry: continues the
    greedy scan from the selection made over the slots before it.
  */
  method ScanEntry(e: Entry, pubKeyHash: Bytes, amount: int, ghost scanned: seq<Slot>,
                   total0: int, unspent0: map<string, seq<int>>)
    returns (total: int, unspent: map<string, seq<int>>)
    requires total0 == Greedy(scanned, pubKeyHash, amount).total
    requires unspent0 == Group(Greedy(scanned, pubKeyHash, amount).chosen)
    ensures total == Greedy(scanned + EntrySlots(e), pubKeyHash, amount).total
    ensures unspent == Group(Greedy(scanned + EntrySlots(e), pubKeyHash, amount).chosen)
  {
    total, unspent := total0, unspent0;
    var txID := Hex(e.key);
    ghost var row := EntrySlots(e);
    ghost var sel := Greedy(scanned, pubKeyHash, amount);
    assert scanned + row[..0] == scanned;
    for outIdx := 0 to |e.outs|
      invariant sel == Greedy(scanned + row[..outIdx], pubKeyHash, amount)
      invariant total == sel.total && unspent == Group(sel.chosen)
    {
      GreedyRowStep(scanned, row, outIdx, pubKeyHash, amount);
      total, unspent := TakeSlot(e, outIdx, txID, pubKeyHash, amount, sel, total, unspent);
      sel := Step(sel, row[outIdx], pubKeyHash, amount);
    }
    assert row[..|e.outs|] == row;
  }

  /** One output of the scan: taken when owned and the total is still below `amount`. */
  method TakeSlot(e: Entry, outIdx: nat, txID: string, pubKeyHash: Bytes, amount: int, ghost sel: Selection,
                  total0: int, unspent0: map<string, seq<int>>)
    returns (total: int, unspent: map<string, seq<int>>)
    requires outIdx < |e.outs| && txID == Hex(e.key)
    requires total0 == sel.total && unspent0 == Group(sel.chosen)
    ensures total == Step(sel, Slot(e.key, outIdx, e.outs[outIdx]), pubKeyHash, amount).total
    ensures unspent == Group(Step(sel, Slot(e.key, outIdx, e.outs[outIdx]), pubKeyHash, amount).chosen)
  {
    total, unspent := total0, unspent0;
    var out := e.outs[outIdx];
    if CanOutputBeUnlocked(out, pubKeyHash) && total < amount {
      GroupSnoc(sel.chosen, Slot(e.key, outIdx, out));
      total := total + out.value;
      unspent := unspent[txID := (if txID in unspent then unspent[txID] else []) + [outIdx]];
    }
  }

  /** The inner loop of `Update`: the outputs except the one at position `vout`. */
  method RemovePosition(outs: seq<TxOutput>, vout: int) returns (updatedOuts: seq<TxOutput>)
    ensures updatedOuts == Without(outs, vout)
  {
    updatedOuts := [];
    for oi := 0 to |outs|
      invariant updatedOuts == Without(outs[..oi], vout)
    {
      assert outs[..oi + 1][..oi] == outs[..oi];
      if oi != vout {
        updatedOuts := updatedOuts + [outs[oi]];
      }
    }
    assert outs[..|outs|] == outs;
  }

  /** One input of `Update`: the referenced list loses position `vout`, or the entry goes when that empties it. */
  method SpendOne(b: seq<Entry>, vin: TxInput) returns (r: Option<seq<Entry>>)
    ensures r == SpendInput(b, vin.txid, vin.vout)
  {
    var stored := Get(b, vin.txid);
    if stored.None? {
      return None;
    }
    var updatedOuts := RemovePosition(stored.value, vin.vout);
    if |updatedOuts| == 0 {
      return Some(Delete(b, vin.txid));
    }
    return Some(Put(b, vin.txid, updatedOuts));
  }

  /** One transaction of `Update` on the bucket contents `b`; None where the source panics. */
  method ApplyTransaction(b: seq<Entry>, tx: Transaction) returns (r: Option<seq<Entry>>)
    ensures r == ApplyTx(b, tx)
  {
    var cur := b;
    for k := 0 to |tx.vin|
      invariant ApplyInputs(b, tx, k) == Some(cur)
    {
      var spent := SpendOne(cur, tx.vin[k]);
      if spent.None? {
        ApplyInputsStopsAtFailure(b, tx, k + 1, |tx.vin|);
        return None;
      }
      cur := Put(spent.value, tx.id, tx.vout);
    }
    return Some(cur);
  }

  /**
    The second storage transaction of `Reindex`: the outputs of every map
    entry stored under the decoded key, in an unspecified order; `false` at
    the first key that does not decode to a non-empty id.
  */
  method ReindexBucket(utxo: map<string, seq<TxOutput>>) returns (ok: bool, b: seq<Entry>)
    ensures ok <==> forall s | s in utxo :: Decodable(s)
    ensures ok ==> Sorted(b) && ReindexedFrom(b, utxo, utxo.Keys)
  {
    b := [];
    var todo := utxo.Keys;
    ghost var done: set<string> := {};
    while todo != {}
      invariant todo + done == utxo.Keys && todo !! done
      invariant forall s | s in done :: Decodable(s)
      invariant Sorted(b) && ReindexedFrom(b, utxo, done)
      decreases |todo|
    {
      var s :| s in todo;
      var key := HexDecode(s);
      if key.None? || key.value == [] {
        assert s in utxo && !Decodable(s);
        return false, b;
      }
      ReindexLoopStep(b, utxo, done, s);
      b := Put(b, key.value, utxo[s]);
      todo := todo - {s};
      done := done + {s};
    }
    return true, b;
  }
}
