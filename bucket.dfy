/**
  The storage bucket that holds the unspent outputs: a list of entries kept
  in strictly ascending bytewise key order, as a bolt cursor visits them.
  `Put` with an empty key is refused by bolt; the UTXO code ignores that
  error, so here it leaves the bucket as it was.
*/
module Bucket {
  import opened Wrappers
  import opened Bytes
  import opened Records

  /** A key (a transaction id) and the outputs stored under it. */
  datatype Entry = Entry(key: Bytes, outs: seq<TxOutput>)

  /** Every key of `b` lies strictly above `k`. */
  predicate AllAbove(k: Bytes, b: seq<Entry>) {
    forall i | 0 <= i < |b| :: Below(k, b[i].key)
  }

  /** Keys strictly ascending, hence distinct, and none of them empty. */
  predicate Sorted(b: seq<Entry>) {
    && (forall i, j | 0 <= i < j < |b| :: Below(b[i].key, b[j].key))
    && (forall i | 0 <= i < |b| :: b[i].key != [])
  }

  /** The outputs stored under `key`, None when absent (bolt's nil). */
  function Get(b: seq<Entry>, key: Bytes): (r: Option<seq<TxOutput>>)
    ensures r.None? <==> forall i | 0 <= i < |b| :: b[i].key != key
  {
    if b == [] then None
    else if b[0].key == key then Some(b[0].outs)
    else Get(b[1..], key)
  }

  /** In a sorted bucket, `Get` finds the entry at any position by its key. */
  lemma {:induction false} GetAt(b: seq<Entry>, i: int)
    requires Sorted(b) && 0 <= i < |b|
    ensures Get(b, b[i].key) == Some(b[i].outs)
  {
    if i > 0 {
      BelowIrreflexive(b[0].key);
      GetAt(b[1..], i - 1);
    }
  }

  /** Places `key` at its position, replacing an existing entry with that key. */
  function Insert(b: seq<Entry>, key: Bytes, outs: seq<TxOutput>): seq<Entry> {
    if b == [] then [Entry(key, outs)]
    else if b[0].key == key then [Entry(key, outs)] + b[1..]
    else if Below(key, b[0].key) then [Entry(key, outs)] + b
    else [b[0]] + Insert(b[1..], key, outs)
  }

  /** `bucket.Put`; an empty key is refused and the bucket is unchanged. */
  function Put(b: seq<Entry>, key: Bytes, outs: seq<TxOutput>): seq<Entry> {
    if key == [] then b else Insert(b, key, outs)
  }

  /** `bucket.Delete`; an absent key is not an error. */
  function Delete(b: seq<Entry>, key: Bytes): seq<Entry> {
    if b == [] then []
    else if b[0].key == key then Delete(b[1..], key)
    else [b[0]] + Delete(b[1..], key)
  }

  lemma {:induction false} InsertAbove(k: Bytes, b: seq<Entry>, key: Bytes, outs: seq<TxOutput>)
    requires AllAbove(k, b) && Below(k, key)
    ensures AllAbove(k, Insert(b, key, outs))
  {
    if b != [] && b[0].key != key && !Below(key, b[0].key) {
      InsertAbove(k, b[1..], key, outs);
    }
  }

  lemma {:induction false} InsertSorted(b: seq<Entry>, key: Bytes, outs: seq<TxOutput>)
    requires Sorted(b) && key != []
    ensures Sorted(Insert(b, key, outs))
  {
    if b == [] {
    } else if b[0].key == key {
    } else if Below(key, b[0].key) {
      forall j | 0 < j < |b|
        ensures Below(key, b[j].key)
      {
        BelowTransitive(key, b[0].key, b[j].key);
      }
    } else {
      var rest := Insert(b[1..], key, outs);
      InsertSorted(b[1..], key, outs);
      BelowTotal(key, b[0].key);
      assert AllAbove(b[0].key, b[1..]);
      InsertAbove(b[0].key, b[1..], key, outs);
      var r := [b[0]] + rest;
      forall i, j | 0 <= i < j < |r|
        ensures Below(r[i].key, r[j].key)
      {
        if i > 0 {
          assert r[i] == rest[i - 1] && r[j] == rest[j - 1];
        }
      }
    }
  }

  lemma PutSorted(b: seq<Entry>, key: Bytes, outs: seq<TxOutput>)
    requires Sorted(b)
    ensures Sorted(Put(b, key, outs))
  {
    if key != [] {
      InsertSorted(b, key, outs);
    }
  }

  /** After `Put`, the key reads back the stored outputs and no other key changes. */
  lemma {:induction false} GetPut(b: seq<Entry>, key: Bytes, outs: seq<TxOutput>, k: Bytes)
    ensures Get(Put(b, key, outs), k) == if k == key && key != [] then Some(outs) else Get(b, k)
  {
    if key != [] {
      GetInsert(b, key, outs, k);
    }
  }

  lemma {:induction false} GetInsert(b: seq<Entry>, key: Bytes, outs: seq<TxOutput>, k: Bytes)
    ensures Get(Insert(b, key, outs), k) == if k == key then Some(outs) else Get(b, k)
  {
    if b != [] && b[0].key != key && !Below(key, b[0].key) {
      GetInsert(b[1..], key, outs, k);
      assert Insert(b, key, outs)[1..] == Insert(b[1..], key, outs);
    } else if b != [] && b[0].key == key {
      assert Insert(b, key, outs)[1..] == b[1..];
    } else if b != [] {
      assert Insert(b, key, outs)[1..] == b;
    }
  }

  lemma {:induction false} DeleteAbove(k: Bytes, b: seq<Entry>, key: Bytes)
    requires AllAbove(k, b)
    ensures AllAbove(k, Delete(b, key))
  {
    if b != [] {
      DeleteAbove(k, b[1..], key);
    }
  }

  lemma {:induction false} DeleteSorted(b: seq<Entry>, key: Bytes)
    requires Sorted(b)
    ensures Sorted(Delete(b, key))
  {
    if b != [] {
      DeleteSorted(b[1..], key);
      if b[0].key != key {
        var rest := Delete(b[1..], key);
        assert AllAbove(b[0].key, b[1..]);
        DeleteAbove(b[0].key, b[1..], key);
        var r := [b[0]] + rest;
        forall i, j | 0 <= i < j < |r|
          ensures Below(r[i].key, r[j].key)
        {
          if i > 0 {
            assert r[i] == rest[i - 1] && r[j] == rest[j - 1];
          }
        }
      }
    }
  }

  /** After `Delete`, the key is absent and no other key changes. */
  lemma {:induction false} GetDelete(b: seq<Entry>, key: Bytes, k: Bytes)
    ensures Get(Delete(b, key), k) == if k == key then None else Get(b, k)
  {
    if b != [] {
      GetDelete(b[1..], key, k);
      if b[0].key != key {
        assert Delete(b, key)[1..] == Delete(b[1..], key);
      }
    }
  }
}
