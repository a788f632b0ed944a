/**
  What the UTXO index of utxo_store.go computes, as functions of the bucket
  contents: the owned outputs in scan order, the greedy selection of
  spendable outputs, the effect of a block and of a full reindex.
*/
module UtxoIndex {
  import opened Wrappers
  import opened Bytes
  import opened Records
  import opened TxOut
  import opened Bucket

  // ---------------------------------------------------------------------
  // FindUtxo

  /** The outputs of `outs` owned by `pubKeyHash`, in list order. */
  function OwnedOf(outs: seq<TxOutput>, pubKeyHash: Bytes): seq<TxOutput> {
    if outs == [] then []
    else
      var last := outs[|outs| - 1];
      OwnedOf(outs[..|outs| - 1], pubKeyHash) + (if CanOutputBeUnlocked(last, pubKeyHash) then [last] else [])
  }

  /** The owned outputs of the whole bucket, in key order and then list position. */
  function Owned(b: seq<Entry>, pubKeyHash: Bytes): seq<TxOutput> {
    if b == [] then []
    else Owned(b[..|b| - 1], pubKeyHash) + OwnedOf(b[|b| - 1].outs, pubKeyHash)
  }

  lemma {:induction false} OwnedOfMembers(outs: seq<TxOutput>, pubKeyHash: Bytes, o: TxOutput)
    ensures o in OwnedOf(outs, pubKeyHash) <==> o in outs && CanOutputBeUnlocked(o, pubKeyHash)
  {
    if outs != [] {
      var init := outs[..|outs| - 1];
      OwnedOfMembers(init, pubKeyHash, o);
      assert outs == init + [outs[|outs| - 1]];
    }
  }

  /** An output is reported exactly when it is stored somewhere and owned by the key hash. */
  lemma {:induction false} OwnedMembers(b: seq<Entry>, pubKeyHash: Bytes, o: TxOutput)
    ensures o in Owned(b, pubKeyHash) <==>
      CanOutputBeUnlocked(o, pubKeyHash) && exists i | 0 <= i < |b| :: o in b[i].outs
  {
    if b != [] {
      var init := b[..|b| - 1];
      OwnedMembers(init, pubKeyHash, o);
      OwnedOfMembers(b[|b| - 1].outs, pubKeyHash, o);
      if exists i | 0 <= i < |b| :: o in b[i].outs {
        var i :| 0 <= i < |b| && o in b[i].outs;
        if i < |b| - 1 {
          assert init[i] == b[i];
        }
      }
      if exists i | 0 <= i < |init| :: o in init[i].outs {
        var i :| 0 <= i < |init| && o in init[i].outs;
        assert b[i] == init[i];
      }
    }
  }

  // ---------------------------------------------------------------------
  // FindSpendableOutputs

  /** One stored output: its transaction id, its position in the list, the output. */
  datatype Slot = Slot(key: Bytes, idx: int, out: TxOutput)

  /** The outputs of one entry as slots, in list order. */
  function EntrySlots(e: Entry): (r: seq<Slot>)
    ensures |r| == |e.outs|
    ensures forall j | 0 <= j < |r| :: r[j] == Slot(e.key, j, e.outs[j])
  {
    seq(|e.outs|, j requires 0 <= j < |e.outs| => Slot(e.key, j, e.outs[j]))
  }

  /** Every stored output as a slot, in the order of the cursor scan. */
  function Slots(b: seq<Entry>): seq<Slot> {
    if b == [] then [] else Slots(b[..|b| - 1]) + EntrySlots(b[|b| - 1])
  }

  /** The running total and the slots taken so far. */
  datatype Selection = Selection(total: int, chosen: seq<Slot>)

  /** One iteration: an owned output is taken while the total is below the amount. */
  function Step(sel: Selection, s: Slot, pubKeyHash: Bytes, amount: int): Selection {
    if CanOutputBeUnlocked(s.out, pubKeyHash) && sel.total < amount
    then Selection(sel.total + s.out.value, sel.chosen + [s])
    else sel
  }

  /** The greedy scan over `slots` from a zero total. */
  function Greedy(slots: seq<Slot>, pubKeyHash: Bytes, amount: int): Selection {
    if slots == [] then Selection(0, [])
    else Step(Greedy(slots[..|slots| - 1], pubKeyHash, amount), slots[|slots| - 1], pubKeyHash, amount)
  }

  lemma GreedySnoc(slots: seq<Slot>, s: Slot, pubKeyHash: Bytes, amount: int)
    ensures Greedy(slots + [s], pubKeyHash, amount) == Step(Greedy(slots, pubKeyHash, amount), s, pubKeyHash, amount)
  {
    assert (slots + [s])[..|slots|] == slots;
  }

  /** Scanning one more slot of a row is one more greedy step. */
  lemma GreedyRowStep(scanned: seq<Slot>, row: seq<Slot>, j: int, pubKeyHash: Bytes, amount: int)
    requires 0 <= j < |row|
    ensures Greedy(scanned + row[..j + 1], pubKeyHash, amount)
         == Step(Greedy(scanned + row[..j], pubKeyHash, amount), row[j], pubKeyHash, amount)
  {
    assert scanned + row[..j + 1] == (scanned + row[..j]) + [row[j]];
    GreedySnoc(scanned + row[..j], row[j], pubKeyHash, amount);
  }

  /** The map from hex transaction id to the positions taken, in the order taken. */
  function Group(chosen: seq<Slot>): map<string, seq<int>> {
    if chosen == [] then map[]
    else
      var g := Group(chosen[..|chosen| - 1]);
      var s := chosen[|chosen| - 1];
      var id := Hex(s.key);
      g[id := (if id in g then g[id] else []) + [s.idx]]
  }

  lemma GroupSnoc(chosen: seq<Slot>, s: Slot)
    ensures Group(chosen + [s]) ==
      var g := Group(chosen);
      g[Hex(s.key) := (if Hex(s.key) in g then g[Hex(s.key)] else []) + [s.idx]]
  {
    assert (chosen + [s])[..|chosen|] == chosen;
  }

  function SumValues(chosen: seq<Slot>): int {
    if chosen == [] then 0 else SumValues(chosen[..|chosen| - 1]) + chosen[|chosen| - 1].out.value
  }

  /** The slots of `slots` owned by the key hash, in order. */
  function OwnedSlots(slots: seq<Slot>, pubKeyHash: Bytes): seq<Slot> {
    if slots == [] then []
    else
      var last := slots[|slots| - 1];
      OwnedSlots(slots[..|slots| - 1], pubKeyHash) + (if CanOutputBeUnlocked(last.out, pubKeyHash) then [last] else [])
  }

  /** The returned total is the sum of the values taken. */
  lemma {:induction false} GreedyTotal(slots: seq<Slot>, pubKeyHash: Bytes, amount: int)
    ensures var sel := Greedy(slots, pubKeyHash, amount); sel.total == SumValues(sel.chosen)
  {
    if slots != [] {
      var init := slots[..|slots| - 1];
      GreedyTotal(init, pubKeyHash, amount);
      var prev := Greedy(init, pubKeyHash, amount);
      var s := slots[|slots| - 1];
      if CanOutputBeUnlocked(s.out, pubKeyHash) && prev.total < amount {
        assert (prev.chosen + [s])[..|prev.chosen|] == prev.chosen;
      }
    }
  }

  /** Every slot of `chosen` is owned by the key hash and is one of `slots`. */
  predicate OwnedFrom(chosen: seq<Slot>, slots: seq<Slot>, pubKeyHash: Bytes) {
    forall k | 0 <= k < |chosen| :: chosen[k] in slots && CanOutputBeUnlocked(chosen[k].out, pubKeyHash)
  }

  /** Every output taken is owned by the key hash and is one of the scanned slots. */
  lemma {:induction false} GreedyChosenOwned(slots: seq<Slot>, pubKeyHash: Bytes, amount: int)
    ensures OwnedFrom(Greedy(slots, pubKeyHash, amount).chosen, slots, pubKeyHash)
  {
    if slots != [] {
      var init := slots[..|slots| - 1];
      GreedyChosenOwned(init, pubKeyHash, amount);
      var prev := Greedy(init, pubKeyHash, amount);
      var sel := Greedy(slots, pubKeyHash, amount);
      assert OwnedFrom(prev.chosen, init, pubKeyHash);
      forall k | 0 <= k < |sel.chosen|
        ensures sel.chosen[k] in slots && CanOutputBeUnlocked(sel.chosen[k].out, pubKeyHash)
      {
        var last := slots[|slots| - 1];
        if k < |prev.chosen| {
          assert sel.chosen[k] == prev.chosen[k];
          assert prev.chosen[k] in init;
          var p :| 0 <= p < |init| && init[p] == prev.chosen[k];
          assert slots[p] == init[p];
        } else {
          assert CanOutputBeUnlocked(last.out, pubKeyHash) && prev.total < amount;
          assert sel.chosen == prev.chosen + [last];
          assert sel.chosen[k] == last;
        }
      }
    }
  }

  /** A non-positive amount selects nothing. */
  lemma {:induction false} GreedyNothingBelowZero(slots: seq<Slot>, pubKeyHash: Bytes, amount: int)
    requires amount <= 0
    ensures Greedy(slots, pubKeyHash, amount) == Selection(0, [])
  {
    if slots != [] {
      GreedyNothingBelowZero(slots[..|slots| - 1], pubKeyHash, amount);
    }
  }

  /**
    Once the total reaches the amount nothing more is taken, so a total
    still below the amount at the end means every owned output was taken.
  */
  lemma {:induction false} GreedyShortfallTakesAll(slots: seq<Slot>, pubKeyHash: Bytes, amount: int)
    requires Greedy(slots, pubKeyHash, amount).total < amount
    ensures Greedy(slots, pubKeyHash, amount).chosen == OwnedSlots(slots, pubKeyHash)
  {
    if slots != [] {
      var init := slots[..|slots| - 1];
      GreedyShortfallTakesAll(init, pubKeyHash, amount);
    }
  }

  /** The slot names an entry of the bucket, a valid position in it and the output there. */
  predicate StoredIn(b: seq<Entry>, s: Slot) {
    exists i | 0 <= i < |b| :: b[i].key == s.key && 0 <= s.idx < |b[i].outs| && b[i].outs[s.idx] == s.out
  }

  lemma {:induction false} SlotsStored(b: seq<Entry>)
    ensures forall p | 0 <= p < |Slots(b)| :: StoredIn(b, Slots(b)[p])
  {
    if b != [] {
      var init := b[..|b| - 1];
      var e := b[|b| - 1];
      SlotsStored(init);
      var xs := Slots(b);
      assert xs == Slots(init) + EntrySlots(e);
      forall p | 0 <= p < |xs|
        ensures StoredIn(b, xs[p])
      {
        if p < |Slots(init)| {
          assert xs[p] == Slots(init)[p];
          assert StoredIn(init, xs[p]);
          var i :| 0 <= i < |init| &&
            init[i].key == xs[p].key && 0 <= xs[p].idx < |init[i].outs| && init[i].outs[xs[p].idx] == xs[p].out;
          assert b[i] == init[i];
        } else {
          assert xs[p] == EntrySlots(e)[p - |Slots(init)|];
          assert b[|b| - 1] == e;
        }
      }
    }
  }

  /** Within the scan, slots with the same key come in ascending position order. */
  predicate InPositionOrder(xs: seq<Slot>) {
    forall p, q | 0 <= p < q < |xs| :: xs[p].key == xs[q].key ==> xs[p].idx < xs[q].idx
  }

  lemma {:induction false} SlotsInPositionOrder(b: seq<Entry>)
    requires Sorted(b)
    ensures InPositionOrder(Slots(b))
  {
    if b != [] {
      var init := b[..|b| - 1];
      var e := b[|b| - 1];
      assert Sorted(init);
      SlotsInPositionOrder(init);
      SlotsStored(init);
      var xs := Slots(b);
      var n := |Slots(init)|;
      forall p, q | 0 <= p < q < |xs| && xs[p].key == xs[q].key
        ensures xs[p].idx < xs[q].idx
      {
        if q < n {
          assert xs[p] == Slots(init)[p] && xs[q] == Slots(init)[q];
        } else if p < n {
          assert xs[p] == Slots(init)[p];
          assert StoredIn(init, xs[p]);
          var i :| 0 <= i < |init| && init[i].key == xs[p].key;
          assert xs[q] == EntrySlots(e)[q - n];
          assert Below(b[i].key, b[|b| - 1].key);
          BelowIrreflexive(e.key);
          assert false;
        } else {
          assert xs[p] == EntrySlots(e)[p - n] && xs[q] == EntrySlots(e)[q - n];
        }
      }
    }
  }

  /** The greedy scan takes slots in scan order, so it keeps the position order. */
  lemma {:induction false} GreedyInPositionOrder(slots: seq<Slot>, pubKeyHash: Bytes, amount: int)
    requires InPositionOrder(slots)
    ensures InPositionOrder(Greedy(slots, pubKeyHash, amount).chosen)
  {
    if slots != [] {
      var init := slots[..|slots| - 1];
      var s := slots[|slots| - 1];
      assert InPositionOrder(init);
      GreedyInPositionOrder(init, pubKeyHash, amount);
      GreedyChosenOwned(init, pubKeyHash, amount);
      var cs := Greedy(init, pubKeyHash, amount).chosen;
      assert OwnedFrom(cs, init, pubKeyHash);
      if CanOutputBeUnlocked(s.out, pubKeyHash) && Greedy(init, pubKeyHash, amount).total < amount {
        var ys := cs + [s];
        forall p, q | 0 <= p < q < |ys| && ys[p].key == ys[q].key
          ensures ys[p].idx < ys[q].idx
        {
          if q < |cs| {
            assert ys[p] == cs[p] && ys[q] == cs[q];
          } else {
            assert ys[p] == cs[p];
            assert cs[p] in init;
            var r :| 0 <= r < |init| && init[r] == cs[p];
            assert slots[r] == init[r];
          }
        }
      }
    }
  }

  /** Some taken slot has hex id `id` and position `x`. */
  predicate TakenAs(chosen: seq<Slot>, id: string, x: int) {
    exists k | 0 <= k < |chosen| :: Hex(chosen[k].key) == id && chosen[k].idx == x
  }

  /** Every position listed under a hex id comes from a taken slot with that id. */
  lemma {:induction false} GroupFrom(chosen: seq<Slot>)
    ensures forall id | id in Group(chosen) :: forall a | 0 <= a < |Group(chosen)[id]| ::
      TakenAs(chosen, id, Group(chosen)[id][a])
  {
    if chosen != [] {
      var init := chosen[..|chosen| - 1];
      GroupFrom(init);
      var g := Group(init);
      var s := chosen[|chosen| - 1];
      var h := Hex(s.key);
      var g' := Group(chosen);
      assert g' == g[h := (if h in g then g[h] else []) + [s.idx]];
      forall id, a | id in g' && 0 <= a < |g'[id]|
        ensures TakenAs(chosen, id, g'[id][a])
      {
        if id == h && a == |g'[id]| - 1 {
          assert Hex(chosen[|chosen| - 1].key) == id && chosen[|chosen| - 1].idx == g'[id][a];
        } else {
          assert id in g && a < |g[id]|;
          assert g'[id][a] == g[id][a];
          assert TakenAs(init, id, g[id][a]);
          var k :| 0 <= k < |init| && Hex(init[k].key) == id && init[k].idx == g[id][a];
          assert chosen[k] == init[k];
        }
      }
    }
  }

  /** Positions taken in position order are listed in strictly ascending order per id. */
  lemma {:induction false} GroupAscending(chosen: seq<Slot>)
    requires InPositionOrder(chosen)
    ensures forall id | id in Group(chosen) :: forall a, d | 0 <= a < d < |Group(chosen)[id]| ::
      Group(chosen)[id][a] < Group(chosen)[id][d]
  {
    if chosen != [] {
      var init := chosen[..|chosen| - 1];
      var s := chosen[|chosen| - 1];
      assert InPositionOrder(init);
      GroupAscending(init);
      GroupFrom(init);
      var g := Group(init);
      var h := Hex(s.key);
      if h in g {
        forall a | 0 <= a < |g[h]|
          ensures g[h][a] < s.idx
        {
          assert TakenAs(init, h, g[h][a]);
          var k :| 0 <= k < |init| && Hex(init[k].key) == h && init[k].idx == g[h][a];
          HexInjective(init[k].key, s.key);
          assert chosen[k] == init[k];
        }
      }
    }
  }

  /** A position taken under a hex id is a valid position of an owned output stored under that id. */
  lemma TakenStored(b: seq<Entry>, pubKeyHash: Bytes, amount: int, id: string, x: int)
    requires TakenAs(Greedy(Slots(b), pubKeyHash, amount).chosen, id, x)
    ensures exists i | 0 <= i < |b| ::
      Hex(b[i].key) == id && 0 <= x < |b[i].outs| && CanOutputBeUnlocked(b[i].outs[x], pubKeyHash)
  {
    var xs := Slots(b);
    var cs := Greedy(xs, pubKeyHash, amount).chosen;
    GreedyChosenOwned(xs, pubKeyHash, amount);
    assert OwnedFrom(cs, xs, pubKeyHash);
    SlotsStored(b);
    var k :| 0 <= k < |cs| && Hex(cs[k].key) == id && cs[k].idx == x;
    assert cs[k] in xs && CanOutputBeUnlocked(cs[k].out, pubKeyHash);
    var p :| 0 <= p < |xs| && xs[p] == cs[k];
    assert StoredIn(b, xs[p]);
    var i :| 0 <= i < |b| && b[i].key == xs[p].key && 0 <= xs[p].idx < |b[i].outs| && b[i].outs[xs[p].idx] == xs[p].out;
    assert b[i].outs[x] == cs[k].out;
    assert Hex(b[i].key) == id && 0 <= x < |b[i].outs| && CanOutputBeUnlocked(b[i].outs[x], pubKeyHash);
  }

  /**
    The selection as `FindSpendableOutputs` reports it, for a sorted bucket:
    every listed position is a valid position of an owned output stored
    under that hex id, and positions are strictly ascending per id.
  */
  lemma SpendableIndicesValid(b: seq<Entry>, pubKeyHash: Bytes, amount: int)
    requires Sorted(b)
    ensures var g := Group(Greedy(Slots(b), pubKeyHash, amount).chosen);
      && (forall id | id in g :: forall a | 0 <= a < |g[id]| ::
            exists i | 0 <= i < |b| ::
              Hex(b[i].key) == id && 0 <= g[id][a] < |b[i].outs| &&
              CanOutputBeUnlocked(b[i].outs[g[id][a]], pubKeyHash))
      && (forall id | id in g :: forall a, d | 0 <= a < d < |g[id]| :: g[id][a] < g[id][d])
  {
    var xs := Slots(b);
    var cs := Greedy(xs, pubKeyHash, amount).chosen;
    var g := Group(cs);
    GroupFrom(cs);
    SlotsInPositionOrder(b);
    GreedyInPositionOrder(xs, pubKeyHash, amount);
    GroupAscending(cs);
    forall id | id in g
      ensures forall a | 0 <= a < |g[id]| ::
            exists i | 0 <= i < |b| ::
              Hex(b[i].key) == id && 0 <= g[id][a] < |b[i].outs| &&
              CanOutputBeUnlocked(b[i].outs[g[id][a]], pubKeyHash)
    {
      forall a | 0 <= a < |g[id]|
        ensures exists i | 0 <= i < |b| ::
              Hex(b[i].key) == id && 0 <= g[id][a] < |b[i].outs| &&
              CanOutputBeUnlocked(b[i].outs[g[id][a]], pubKeyHash)
      {
        TakenStored(b, pubKeyHash, amount, id, g[id][a]);
      }
    }
  }

  // ---------------------------------------------------------------------
  // Update

  /** The outputs without the one at position `vout`; an out-of-range position removes nothing. */
  function Without(outs: seq<TxOutput>, vout: int): (r: seq<TxOutput>)
    ensures 0 <= vout < |outs| ==> r == outs[..vout] + outs[vout + 1..]
    ensures !(0 <= vout < |outs|) ==> r == outs
  {
    if outs == [] then []
    else
      var init := outs[..|outs| - 1];
      var rest := Without(init, vout);
      if |outs| - 1 != vout then
        assert 0 <= vout < |init| ==> init[..vout] + init[vout + 1..] + [outs[|outs| - 1]] == outs[..vout] + outs[vout + 1..];
        assert init + [outs[|outs| - 1]] == outs;
        rest + [outs[|outs| - 1]]
      else
        rest
  }

  /**
    Spending one input: the referenced list must be stored (decoding a nil
    entry panics, None). The list without position `vout` is stored back,
    or the entry is deleted when that leaves it empty.
  */
  function SpendInput(b: seq<Entry>, txid: Bytes, vout: int): Option<seq<Entry>> {
    match Get(b, txid)
    case None => None
    case Some(outs) =>
      var updated := Without(outs, vout);
      if |updated| == 0 then Some(Delete(b, txid)) else Some(Put(b, txid, updated))
  }

  /** The first `k` inputs of `tx`, each followed by storing the outputs of `tx` under its id. */
  function ApplyInputs(b: seq<Entry>, tx: Transaction, k: nat): Option<seq<Entry>>
    requires k <= |tx.vin|
  {
    if k == 0 then Some(b)
    else
      match ApplyInputs(b, tx, k - 1)
      case None => None
      case Some(b1) =>
        match SpendInput(b1, tx.vin[k - 1].txid, tx.vin[k - 1].vout)
        case None => None
        case Some(b2) => Some(Put(b2, tx.id, tx.vout))
  }

  function ApplyTx(b: seq<Entry>, tx: Transaction): Option<seq<Entry>> {
    ApplyInputs(b, tx, |tx.vin|)
  }

  /** The transactions of a block in order; None when any input fails (the bolt transaction rolls back). */
  function ApplyBlock(b: seq<Entry>, txs: seq<Transaction>): Option<seq<Entry>> {
    if txs == [] then Some(b)
    else
      match ApplyBlock(b, txs[..|txs| - 1])
      case None => None
      case Some(b1) => ApplyTx(b1, txs[|txs| - 1])
  }

  lemma {:induction false} ApplyInputsStopsAtFailure(b: seq<Entry>, tx: Transaction, k: nat, m: nat)
    requires k <= m <= |tx.vin| && ApplyInputs(b, tx, k).None?
    ensures ApplyInputs(b, tx, m).None?
    decreases m - k
  {
    if k < m {
      ApplyInputsStopsAtFailure(b, tx, k + 1, m);
    }
  }

  lemma {:induction false} ApplyBlockStopsAtFailure(b: seq<Entry>, txs: seq<Transaction>, t: nat)
    requires t <= |txs| && ApplyBlock(b, txs[..t]).None?
    ensures ApplyBlock(b, txs).None?
    decreases |txs| - t
  {
    if t < |txs| {
      assert txs[..t + 1][..t] == txs[..t];
      ApplyBlockStopsAtFailure(b, txs, t + 1);
    } else {
      assert txs[..t] == txs;
    }
  }

  /**
    Spending an input removes exactly position `vout` from the referenced
    list (deleting the entry when it empties) and leaves every other key as
    it was; the bucket stays sorted.
  */
  lemma SpendInputEffect(b: seq<Entry>, txid: Bytes, vout: int, k: Bytes)
    requires Sorted(b) && Get(b, txid).Some?
    ensures SpendInput(b, txid, vout).Some?
    ensures var b' := SpendInput(b, txid, vout).value;
      var updated := Without(Get(b, txid).value, vout);
      && Sorted(b')
      && Get(b', txid) == (if updated == [] then None else Some(updated))
      && (k != txid ==> Get(b', k) == Get(b, k))
  {
    var updated := Without(Get(b, txid).value, vout);
    assert txid != [];
    if updated == [] {
      DeleteSorted(b, txid);
      GetDelete(b, txid, k);
      GetDelete(b, txid, txid);
    } else {
      PutSorted(b, txid, updated);
      GetPut(b, txid, updated, k);
      GetPut(b, txid, updated, txid);
    }
  }

  /** A referenced id that is not stored makes the whole block fail. */
  lemma MissingInputFails(b: seq<Entry>, tx: Transaction)
    requires |tx.vin| > 0 && Get(b, tx.vin[0].txid).None?
    ensures ApplyTx(b, tx).None?
  {
    assert ApplyInputs(b, tx, 1).None?;
    ApplyInputsStopsAtFailure(b, tx, 1, |tx.vin|);
  }

  /**
    A coinbase input names the empty id, which a sorted bucket never holds,
    so applying a coinbase transaction always fails.
  */
  lemma CoinbaseUpdateFails(b: seq<Entry>, tx: Transaction)
    requires Sorted(b) && |tx.vin| == 1 && tx.vin[0].txid == [] && tx.vin[0].vout == -1
    ensures ApplyTx(b, tx).None?
  {
    MissingInputFails(b, tx);
  }

  /**
    After a transaction with at least one input (and a non-empty id) its
    outputs are stored under its id; a transaction without inputs changes
    nothing and gets no entry.
  */
  lemma ApplyTxStoresOutputs(b: seq<Entry>, tx: Transaction)
    ensures |tx.vin| == 0 ==> ApplyTx(b, tx) == Some(b)
    ensures |tx.vin| > 0 && tx.id != [] && ApplyTx(b, tx).Some? ==>
      Get(ApplyTx(b, tx).value, tx.id) == Some(tx.vout)
  {
    var n := |tx.vin|;
    if n > 0 && ApplyTx(b, tx).Some? {
      var b1 := ApplyInputs(b, tx, n - 1).value;
      var b2 := SpendInput(b1, tx.vin[n - 1].txid, tx.vin[n - 1].vout).value;
      GetPut(b2, tx.id, tx.vout, tx.id);
    }
  }

  lemma {:induction false} ApplyInputsSorted(b: seq<Entry>, tx: Transaction, k: nat)
    requires Sorted(b) && k <= |tx.vin| && ApplyInputs(b, tx, k).Some?
    ensures Sorted(ApplyInputs(b, tx, k).value)
  {
    if k > 0 {
      ApplyInputsSorted(b, tx, k - 1);
      var b1 := ApplyInputs(b, tx, k - 1).value;
      SpendInputEffect(b1, tx.vin[k - 1].txid, tx.vin[k - 1].vout, []);
      PutSorted(SpendInput(b1, tx.vin[k - 1].txid, tx.vin[k - 1].vout).value, tx.id, tx.vout);
    }
  }

  /** Applying a block keeps the bucket sorted. */
  lemma {:induction false} ApplyBlockSorted(b: seq<Entry>, txs: seq<Transaction>)
    requires Sorted(b) && ApplyBlock(b, txs).Some?
    ensures Sorted(ApplyBlock(b, txs).value)
  {
    if txs != [] {
      ApplyBlockSorted(b, txs[..|txs| - 1]);
      var tx := txs[|txs| - 1];
      ApplyInputsSorted(ApplyBlock(b, txs[..|txs| - 1]).value, tx, |tx.vin|);
    }
  }

  // ---------------------------------------------------------------------
  // Reindex

  /** A map key that `hex.DecodeString` accepts and that gives a non-empty bucket key. */
  predicate Decodable(s: string) {
    HexDecode(s).Some? && HexDecode(s).value != []
  }

  /**
    Key `k` is stored iff some key of `keys` (a subset of the map's keys)
    decodes to it, and then with the outputs of such a map key.
  */
  ghost predicate KeyReindexed(b: seq<Entry>, utxo: map<string, seq<TxOutput>>, keys: set<string>, k: Bytes) {
    && (Get(b, k).Some? <==> exists s | s in keys :: HexDecode(s) == Some(k))
    && (Get(b, k).Some? ==> exists s | s in keys && s in utxo :: HexDecode(s) == Some(k) && Get(b, k).value == utxo[s])
  }

  /** The bucket holds one entry per decoded key of `keys` and nothing else. */
  ghost predicate ReindexedFrom(b: seq<Entry>, utxo: map<string, seq<TxOutput>>, keys: set<string>) {
    forall k :: KeyReindexed(b, utxo, keys, k)
  }

  /** One iteration of the reindex loop keeps the bucket sorted and extends the reindexed part. */
  lemma ReindexLoopStep(b: seq<Entry>, utxo: map<string, seq<TxOutput>>, done: set<string>, s: string)
    requires Sorted(b) && ReindexedFrom(b, utxo, done) && s in utxo && Decodable(s)
    ensures Sorted(Put(b, HexDecode(s).value, utxo[s]))
    ensures ReindexedFrom(Put(b, HexDecode(s).value, utxo[s]), utxo, done + {s})
  {
    PutSorted(b, HexDecode(s).value, utxo[s]);
    ReindexedStep(b, utxo, done, s);
  }

  /** Storing the outputs of one more decodable map key extends the reindexed part by that key. */
  lemma ReindexedStep(b: seq<Entry>, utxo: map<string, seq<TxOutput>>, done: set<string>, s: string)
    requires ReindexedFrom(b, utxo, done) && s in utxo && Decodable(s)
    ensures ReindexedFrom(Put(b, HexDecode(s).value, utxo[s]), utxo, done + {s})
  {
    var key := HexDecode(s).value;
    var b' := Put(b, key, utxo[s]);
    forall k
      ensures KeyReindexed(b', utxo, done + {s}, k)
    {
      GetPut(b, key, utxo[s], k);
      assert KeyReindexed(b, utxo, done, k);
      if k != key && Get(b', k).Some? {
        var s' :| s' in done && s' in utxo && HexDecode(s') == Some(k) && Get(b, k).value == utxo[s'];
        assert s' in done + {s};
      }
    }
  }

  /**
    With lowercase keys, as `hex.EncodeToString` writes them, the reindexed
    bucket is exactly the decoded map: each key reads back its outputs and
    every stored key is the decoding of a map key.
  */
  lemma ReindexCanonical(b: seq<Entry>, utxo: map<string, seq<TxOutput>>)
    requires ReindexedFrom(b, utxo, utxo.Keys)
    requires forall s | s in utxo :: HexDecode(s).Some? && Hex(HexDecode(s).value) == s
    ensures forall s | s in utxo :: Get(b, HexDecode(s).value) == Some(utxo[s])
    ensures forall k :: Get(b, k).Some? ==> Hex(k) in utxo
  {
    forall s | s in utxo
      ensures Get(b, HexDecode(s).value) == Some(utxo[s])
    {
      var k := HexDecode(s).value;
      assert KeyReindexed(b, utxo, utxo.Keys, k);
      assert Get(b, k).Some?;
      var s' :| s' in utxo && HexDecode(s') == Some(k) && Get(b, k).value == utxo[s'];
      assert s' == Hex(k) == s;
    }
    forall k | Get(b, k).Some?
      ensures Hex(k) in utxo
    {
      assert KeyReindexed(b, utxo, utxo.Keys, k);
      var s :| s in utxo && HexDecode(s) == Some(k);
    }
  }
}
