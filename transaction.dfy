/**
  Transaction identity, the signing payload, and signing and verification
  of inputs (transaction.go). Prior transactions are looked up in a map
  keyed by the hex text of their ids.
*/
module Transactions {
  import opened Wrappers
  import opened Bytes
  import opened Crypto
  import opened Records
  import opened Utils
  import opened TxOut

  /** Exactly one input, with an empty transaction id and output index -1. */
  predicate IsCoinbase(tx: Transaction)
    ensures IsCoinbase(tx) ==> forall prev :: !InputsResolve(tx, prev)
  {
    |tx.vin| == 1 && |tx.vin[0].txid| == 0 && tx.vin[0].vout == -1
  }

  /** SHA-256 of the encoding of a copy whose `id` is emptied. */
  function Hash(c: Primitives, tx: Transaction): (h: Digest)
    ensures h == c.sha256(c.gobTransaction(Transaction([], tx.vin, tx.vout)))
  {
    c.sha256(c.gobTransaction(tx.(id := [])))
  }

  /** Transactions that differ only in `id` have the same hash. */
  lemma HashIgnoresId(c: Primitives, tx: Transaction, id: Bytes)
    ensures Hash(c, tx.(id := id)) == Hash(c, tx)
  {
  }

  /**
    A reward transaction: one input with no prior output that carries the
    memo bytes as its key, one output of `reward` locked to `to`, and an id
    stamped from its own hash.
  */
  function NewCoinbaseTransaction(c: Primitives, to: string, data: Bytes, reward: int): (tx: Transaction)
    requires Lockable(c, to)
    ensures IsCoinbase(tx)
    ensures tx.vin == [TxInput([], -1, [], data)]
    ensures |tx.vout| == 1 && tx.vout[0].value == reward
    ensures PubKeyHash(c, to) == Ok(tx.vout[0].pubKeyHash)
    ensures tx.id == Hash(c, tx)
  {
    var txin := TxInput([], -1, [], data);
    var txout := NewTxOutput(c, reward, to);
    var unstamped := Transaction([], [txin], [txout]);
    HashIgnoresId(c, unstamped, Hash(c, unstamped));
    unstamped.(id := Hash(c, unstamped))
  }

  /** An input with its signature and public key removed. */
  function Unsigned(txin: TxInput): TxInput {
    TxInput(txin.txid, txin.vout, [], [])
  }

  function UnsignedInputs(ins: seq<TxInput>): (r: seq<TxInput>)
    ensures |r| == |ins|
    ensures forall i | 0 <= i < |ins| :: r[i] == Unsigned(ins[i])
  {
    if ins == [] then [] else UnsignedInputs(ins[..|ins| - 1]) + [Unsigned(ins[|ins| - 1])]
  }

  /**
    The copy that is signed: same id, same outputs, and every input
    reduced to its reference, in the same order.
  */
  function AsSignaturePayload(tx: Transaction): (r: Transaction)
    ensures r.id == tx.id && r.vout == tx.vout && |r.vin| == |tx.vin|
    ensures forall i | 0 <= i < |tx.vin| ::
      r.vin[i].txid == tx.vin[i].txid && r.vin[i].vout == tx.vin[i].vout
      && r.vin[i].signature == [] && r.vin[i].pubKey == []
  {
    Transaction(tx.id, UnsignedInputs(tx.vin), tx.vout)
  }

  /** The payload does not depend on signatures or public keys of the inputs. */
  lemma PayloadIgnoresUnlockingData(a: Transaction, b: Transaction)
    requires a.id == b.id && a.vout == b.vout && |a.vin| == |b.vin|
    requires forall i | 0 <= i < |a.vin| :: a.vin[i].txid == b.vin[i].txid && a.vin[i].vout == b.vin[i].vout
    ensures AsSignaturePayload(a) == AsSignaturePayload(b)
  {
    var pa, pb := AsSignaturePayload(a), AsSignaturePayload(b);
    assert forall i | 0 <= i < |pa.vin| :: pa.vin[i] == pb.vin[i];
  }

  // ---------------------------------------------------------------------
  // Prior outputs

  /** The prior transaction is in the map and the index names one of its outputs. */
  predicate PriorResolves(prev: map<string, Transaction>, txin: TxInput) {
    Hex(txin.txid) in prev && 0 <= txin.vout < |prev[Hex(txin.txid)].vout|
  }

  /** Every input resolves to a prior output. */
  predicate InputsResolve(tx: Transaction, prev: map<string, Transaction>) {
    forall j | 0 <= j < |tx.vin| :: PriorResolves(prev, tx.vin[j])
  }

  /** The key hash of the output an input spends. */
  function PriorPubKeyHash(prev: map<string, Transaction>, txin: TxInput): Bytes
    requires PriorResolves(prev, txin)
  {
    prev[Hex(txin.txid)].vout[txin.vout].pubKeyHash
  }

  /**
    The payload after the first `n` rounds of the signing loop; its inputs
    are described by `PartialPayloadInput`.
  */
  function PartialPayload(tx: Transaction, prev: map<string, Transaction>, n: nat): (r: Transaction)
    requires InputsResolve(tx, prev) && n <= |tx.vin|
    ensures r.id == tx.id && r.vout == tx.vout && |r.vin| == |tx.vin|
    decreases n
  {
    if n == 0 then AsSignaturePayload(tx)
    else
      var p := PartialPayload(tx, prev, n - 1);
      p.(vin := p.vin[n - 1 := p.vin[n - 1].(signature := [], pubKey := PriorPubKeyHash(prev, tx.vin[n - 1]))])
  }

  /**
    In the payload after `n` rounds every input keeps its reference and has
    no signature; inputs before `n` carry the key hash of the output they
    spend and later inputs an empty key.
  */
  lemma {:induction false} PartialPayloadInput(tx: Transaction, prev: map<string, Transaction>, n: nat, j: nat)
    requires InputsResolve(tx, prev) && n <= |tx.vin| && j < |tx.vin|
    ensures PartialPayload(tx, prev, n).vin[j] ==
      TxInput(tx.vin[j].txid, tx.vin[j].vout, [], if j < n then PriorPubKeyHash(prev, tx.vin[j]) else [])
    decreases n
  {
    if n > 0 {
      PartialPayloadInput(tx, prev, n - 1, j);
    }
  }

  /** The digest signed for, and verified against, input `k`. */
  function InputDigest(c: Primitives, tx: Transaction, prev: map<string, Transaction>, k: nat): Digest
    requires k < |tx.vin| && InputsResolve(tx, prev)
  {
    Hash(c, PartialPayload(tx, prev, k + 1))
  }

  /** Transactions that agree on everything but unlocking data have the same digests. */
  lemma {:induction false} PartialPayloadIgnoresUnlockingData(a: Transaction, b: Transaction, prev: map<string, Transaction>, n: nat)
    requires a.id == b.id && a.vout == b.vout && |a.vin| == |b.vin|
    requires forall i | 0 <= i < |a.vin| :: a.vin[i].txid == b.vin[i].txid && a.vin[i].vout == b.vin[i].vout
    requires InputsResolve(a, prev) && n <= |a.vin|
    ensures InputsResolve(b, prev)
    ensures PartialPayload(a, prev, n) == PartialPayload(b, prev, n)
    decreases n
  {
    forall j | 0 <= j < |b.vin|
      ensures PriorResolves(prev, b.vin[j])
    {
      assert PriorResolves(prev, a.vin[j]);
    }
    if n == 0 {
      PayloadIgnoresUnlockingData(a, b);
    } else {
      PartialPayloadIgnoresUnlockingData(a, b, prev, n - 1);
    }
  }

  // ---------------------------------------------------------------------
  // Signing

  /** `append(r.Bytes(), s.Bytes()...)`: a signature (r, s) as `Sign` stores it. */
  function SignatureBytes(sig: (nat, nat)): Bytes {
    MinimalBytes(sig.0) + MinimalBytes(sig.1)
  }

  /** The signature bytes `Sign` stores in input `k`: its digest signed with the randomness `entropy(k)`. */
  function InputSignature(c: Primitives, tx: Transaction, privateKey: Bytes, prev: map<string, Transaction>,
                          entropy: nat -> Bytes, k: nat): Bytes
    requires k < |tx.vin| && InputsResolve(tx, prev)
  {
    SignatureBytes(c.ecdsaSign(privateKey, InputDigest(c, tx, prev, k), entropy(k)))
  }

  /**
    The transaction after the first `n` rounds of `Sign`; its inputs are
    described by `SignedPrefixInput`.
  */
  function SignedPrefix(c: Primitives, tx: Transaction, privateKey: Bytes, prev: map<string, Transaction>,
                        entropy: nat -> Bytes, n: nat): (r: Transaction)
    requires InputsResolve(tx, prev) && n <= |tx.vin|
    ensures r.id == tx.id && r.vout == tx.vout && |r.vin| == |tx.vin|
    decreases n
  {
    if n == 0 then tx
    else
      var p := SignedPrefix(c, tx, privateKey, prev, entropy, n - 1);
      p.(vin := p.vin[n - 1 := p.vin[n - 1].(signature := InputSignature(c, tx, privateKey, prev, entropy, n - 1))])
  }

  /**
    After `n` rounds, exactly the inputs before `n` carry the ECDSA signature
    of their input digest, drawn with the randomness `entropy(k)`; every
    other field of every input is as it was.
  */
  lemma {:induction false} SignedPrefixInput(c: Primitives, tx: Transaction, privateKey: Bytes, prev: map<string, Transaction>,
                                             entropy: nat -> Bytes, n: nat, k: nat)
    requires InputsResolve(tx, prev) && n <= |tx.vin| && k < |tx.vin|
    ensures SignedPrefix(c, tx, privateKey, prev, entropy, n).vin[k] ==
      if k < n then tx.vin[k].(signature := InputSignature(c, tx, privateKey, prev, entropy, k)) else tx.vin[k]
    decreases n
  {
    if n > 0 {
      SignedPrefixInput(c, tx, privateKey, prev, entropy, n - 1, k);
    }
  }

  /** The transaction `Sign` leaves behind: a coinbase untouched, otherwise every input signed. */
  function SignedTx(c: Primitives, tx: Transaction, privateKey: Bytes, prev: map<string, Transaction>,
                    entropy: nat -> Bytes): (r: Transaction)
    requires !IsCoinbase(tx) ==> InputsResolve(tx, prev)
    ensures IsCoinbase(tx) ==> r == tx
    ensures r.id == tx.id && r.vout == tx.vout && |r.vin| == |tx.vin|
  {
    if IsCoinbase(tx) then tx else SignedPrefix(c, tx, privateKey, prev, entropy, |tx.vin|)
  }

  /**
    Every input of a signed non-coinbase transaction keeps its reference and
    key and carries the signature of its own input digest.
  */
  lemma SignedTxInput(c: Primitives, tx: Transaction, privateKey: Bytes, prev: map<string, Transaction>,
                      entropy: nat -> Bytes, k: nat)
    requires !IsCoinbase(tx) && InputsResolve(tx, prev) && k < |tx.vin|
    ensures SignedTx(c, tx, privateKey, prev, entropy).vin[k] ==
      tx.vin[k].(signature := InputSignature(c, tx, privateKey, prev, entropy, k))
  {
    SignedPrefixInput(c, tx, privateKey, prev, entropy, |tx.vin|, k);
  }

  /**
    One round of the payload rebuild that `Sign` and `Verify` share: input
    `ii` loses its signature and takes the key hash of the output it spends,
    and the payload id becomes the payload hash, which is the input digest.
  */
  method NextPayload(c: Primitives, tx: Transaction, prev: map<string, Transaction>, payload: Transaction, ii: nat)
    returns (next: Transaction)
    requires ii < |tx.vin| && InputsResolve(tx, prev)
    requires payload.(id := tx.id) == PartialPayload(tx, prev, ii)
    ensures next.(id := tx.id) == PartialPayload(tx, prev, ii + 1)
    ensures next.id == InputDigest(c, tx, prev, ii)
  {
    PartialPayloadInput(tx, prev, ii, ii);
    var i := payload.vin[ii];
    var previousTx := prev[Hex(i.txid)];
    next := payload.(vin := payload.vin[ii := payload.vin[ii].(signature := [])]);
    next := next.(vin := next.vin[ii := next.vin[ii].(pubKey := previousTx.vout[i.vout].pubKeyHash)]);
    ghost var p := PartialPayload(tx, prev, ii);
    assert next.(id := tx.id) == p.(vin := p.vin[ii := p.vin[ii].(signature := [], pubKey := PriorPubKeyHash(prev, tx.vin[ii]))]);
    HashIgnoresId(c, next, tx.id);
    next := next.(id := Hash(c, next));
  }

  /**
    Signs every input of a non-coinbase transaction. The loop rebuilds the
    payload input by input and signs each digest. The result is returned
    rather than written through the pointer.
  */
  method Sign(c: Primitives, tx: Transaction, privateKey: Bytes, prev: map<string, Transaction>,
              entropy: nat -> Bytes) returns (signed: Transaction)
    requires !IsCoinbase(tx) ==> InputsResolve(tx, prev)
    ensures signed == SignedTx(c, tx, privateKey, prev, entropy)
  {
    if IsCoinbase(tx) {
      return tx;
    }
    signed := tx;
    var payload := AsSignaturePayload(tx);
    for ii := 0 to |tx.vin|
      invariant payload.(id := tx.id) == PartialPayload(tx, prev, ii)
      invariant signed == SignedPrefix(c, tx, privateKey, prev, entropy, ii)
    {
      payload, signed := SignRound(c, tx, privateKey, prev, entropy, payload, signed, ii);
    }
  }

  /** One round of `Sign`: the next payload, and input `ii` signed over its digest. */
  method SignRound(c: Primitives, tx: Transaction, privateKey: Bytes, prev: map<string, Transaction>,
                   entropy: nat -> Bytes, payload: Transaction, signed: Transaction, ii: nat)
    returns (nextPayload: Transaction, nextSigned: Transaction)
    requires ii < |tx.vin| && InputsResolve(tx, prev)
    requires payload.(id := tx.id) == PartialPayload(tx, prev, ii)
    requires signed == SignedPrefix(c, tx, privateKey, prev, entropy, ii)
    ensures nextPayload.(id := tx.id) == PartialPayload(tx, prev, ii + 1)
    ensures nextSigned == SignedPrefix(c, tx, privateKey, prev, entropy, ii + 1)
  {
    nextPayload := NextPayload(c, tx, prev, payload, ii);
    var signature := SignatureBytes(c.ecdsaSign(privateKey, nextPayload.id, entropy(ii)));
    nextSigned := signed.(vin := signed.vin[ii := signed.vin[ii].(signature := signature)]);
  }

  // ---------------------------------------------------------------------
  // Verification

  /**
    The two numbers `Verify` reads from a key or a signature: the bytes
    before and from half the length (rounded down), each big-endian.
  */
  function SplitHalves(bs: Bytes): (nat, nat) {
    (BigEndian(bs[..|bs| / 2]), BigEndian(bs[|bs| / 2..]))
  }

  /**
    Two parts of equal length, or a second part one byte longer, are read
    back as they were: half the total, rounded down, is the first length.
  */
  lemma HalvesSplit(a: Bytes, b: Bytes)
    requires |b| == |a| || |b| == |a| + 1
    ensures SplitHalves(a + b) == (BigEndian(a), BigEndian(b))
  {
    assert (a + b)[..|a + b| / 2] == a;
    assert (a + b)[|a + b| / 2..] == b;
  }

  /** `ecdsa.Verify` on the key halves X, Y and the signature halves r, s. */
  predicate KeyAccepts(c: Primitives, pubKey: Bytes, digest: Bytes, signature: Bytes) {
    var key, sig := SplitHalves(pubKey), SplitHalves(signature);
    c.ecdsaVerify(key.0, key.1, digest, sig.0, sig.1)
  }

  /** Input `k`'s signature verifies against its input digest under its own key. */
  predicate InputVerifies(c: Primitives, tx: Transaction, prev: map<string, Transaction>, k: nat)
    requires k < |tx.vin| && InputsResolve(tx, prev)
  {
    KeyAccepts(c, tx.vin[k].pubKey, InputDigest(c, tx, prev, k), tx.vin[k].signature)
  }

  /** The first `n` inputs verify. */
  predicate VerifiesBelow(c: Primitives, tx: Transaction, prev: map<string, Transaction>, n: nat)
    requires n <= |tx.vin| && InputsResolve(tx, prev)
  {
    n == 0 || (VerifiesBelow(c, tx, prev, n - 1) && InputVerifies(c, tx, prev, n - 1))
  }

  /** Every input verifies (`VerifiesInput`, `VerifiesFromInputs`). */
  predicate Verifies(c: Primitives, tx: Transaction, prev: map<string, Transaction>)
    requires InputsResolve(tx, prev)
  {
    VerifiesBelow(c, tx, prev, |tx.vin|)
  }

  /** When the first `n` inputs verify, so does each of them. */
  lemma {:induction false} VerifiesInput(c: Primitives, tx: Transaction, prev: map<string, Transaction>, n: nat, k: nat)
    requires k < n <= |tx.vin| && InputsResolve(tx, prev)
    ensures VerifiesBelow(c, tx, prev, n) ==> InputVerifies(c, tx, prev, k)
  {
    if k < n - 1 {
      VerifiesInput(c, tx, prev, n - 1, k);
    }
  }

  /** When each of the first `n` inputs verifies, the first `n` inputs verify. */
  lemma {:induction false} VerifiesFromInputs(c: Primitives, tx: Transaction, prev: map<string, Transaction>, n: nat)
    requires n <= |tx.vin| && InputsResolve(tx, prev)
    requires forall k | 0 <= k < n :: InputVerifies(c, tx, prev, k)
    ensures VerifiesBelow(c, tx, prev, n)
  {
    if n > 0 {
      VerifiesFromInputs(c, tx, prev, n - 1);
      assert InputVerifies(c, tx, prev, n - 1);
    }
  }

  /**
    Rebuilds the same payloads as `Sign` and checks each input in order,
    returning false at the first input that fails; true when all pass,
    including when there are no inputs.
  */
  method Verify(c: Primitives, tx: Transaction, prev: map<string, Transaction>) returns (ok: bool)
    requires InputsResolve(tx, prev)
    ensures ok == Verifies(c, tx, prev)
  {
    var payload := AsSignaturePayload(tx);
    for ii := 0 to |tx.vin|
      invariant payload.(id := tx.id) == PartialPayload(tx, prev, ii)
      invariant VerifiesBelow(c, tx, prev, ii)
    {
      var i := tx.vin[ii];
      payload := NextPayload(c, tx, prev, payload, ii);
      assert KeyAccepts(c, i.pubKey, payload.id, i.signature) == InputVerifies(c, tx, prev, ii);
      if !KeyAccepts(c, i.pubKey, payload.id, i.signature) {
        VerifiesInput(c, tx, prev, |tx.vin|, ii);
        return false;
      }
    }
    return true;
  }

  // ---------------------------------------------------------------------

  /**
    ECDSA over P-256 is correct for a key pair: every signature (r, s) made
    with the private key is a pair of numbers below 2^256 and verifies
    under the public point (x, y).
  */
  ghost predicate SignatureSchemeCorrect(c: Primitives, privateKey: Bytes, x: nat, y: nat) {
    forall digest: Bytes, entropy: Bytes ::
      var sig := c.ecdsaSign(privateKey, digest, entropy);
      sig.0 < Pow256(32) && sig.1 < Pow256(32) && c.ecdsaVerify(x, y, digest, sig.0, sig.1)
  }

  /**
    The minimal encoding of s is as long as that of r or one byte longer,
    so that half the stored length is where r ends.
  */
  predicate SignatureSplitsBack(sig: (nat, nat)) {
    var lr, ls := |MinimalBytes(sig.0)|, |MinimalBytes(sig.1)|;
    ls == lr || ls == lr + 1
  }

  /** Signing leaves every input digest as it was, so the verifier sees the signed digests. */
  lemma SigningKeepsDigests(c: Primitives, tx: Transaction, privateKey: Bytes, prev: map<string, Transaction>,
                            entropy: nat -> Bytes, k: nat)
    requires InputsResolve(tx, prev) && k < |tx.vin|
    ensures InputsResolve(SignedTx(c, tx, privateKey, prev, entropy), prev)
    ensures InputDigest(c, SignedTx(c, tx, privateKey, prev, entropy), prev, k) == InputDigest(c, tx, prev, k)
  {
    var signed := SignedTx(c, tx, privateKey, prev, entropy);
    if !IsCoinbase(tx) {
      forall i | 0 <= i < |tx.vin|
        ensures tx.vin[i].txid == signed.vin[i].txid && tx.vin[i].vout == signed.vin[i].vout
      {
        SignedTxInput(c, tx, privateKey, prev, entropy, i);
      }
    }
    PartialPayloadIgnoresUnlockingData(tx, signed, prev, k + 1);
  }

  /**
    A non-coinbase transaction whose inputs all carry a public key whose
    halves are the signing key's point verifies after `Sign`, provided
    ECDSA is correct for that key pair and every signature drawn has r and
    s that split back (`SignatureSplitsBackIff` shows the other case
    fails).
  */
  lemma SignThenVerify(c: Primitives, tx: Transaction, privateKey: Bytes, pubKey: Bytes, x: nat, y: nat,
                       prev: map<string, Transaction>, entropy: nat -> Bytes)
    requires !IsCoinbase(tx) && InputsResolve(tx, prev)
    requires forall k | 0 <= k < |tx.vin| :: tx.vin[k].pubKey == pubKey
    requires SplitHalves(pubKey) == (x, y) && SignatureSchemeCorrect(c, privateKey, x, y)
    requires forall k | 0 <= k < |tx.vin| ::
      SignatureSplitsBack(c.ecdsaSign(privateKey, InputDigest(c, tx, prev, k), entropy(k)))
    ensures InputsResolve(SignedTx(c, tx, privateKey, prev, entropy), prev)
    ensures Verifies(c, SignedTx(c, tx, privateKey, prev, entropy), prev)
  {
    var signed := SignedTx(c, tx, privateKey, prev, entropy);
    forall k | 0 <= k < |tx.vin|
      ensures PriorResolves(prev, signed.vin[k])
    {
      SignedTxInput(c, tx, privateKey, prev, entropy, k);
    }
    forall k | 0 <= k < |tx.vin|
      ensures InputVerifies(c, signed, prev, k)
    {
      SigningKeepsDigests(c, tx, privateKey, prev, entropy, k);
      SignedTxInput(c, tx, privateKey, prev, entropy, k);
      var sig := c.ecdsaSign(privateKey, InputDigest(c, tx, prev, k), entropy(k));
      HalvesSplit(MinimalBytes(sig.0), MinimalBytes(sig.1));
      MinimalBytesReadsBack(sig.0);
      MinimalBytesReadsBack(sig.1);
    }
    VerifiesFromInputs(c, signed, prev, |tx.vin|);
  }

  // ---------------------------------------------------------------------
  // The signature encoding

  /** When the first part is longer, the first half read is a strict prefix of it and holds less. */
  lemma FirstHalfShort(a: Bytes, b: Bytes)
    requires |b| < |a| && a[0] != 0
    ensures SplitHalves(a + b).0 < BigEndian(a)
  {
    var h := |a + b| / 2;
    assert (a + b)[..h] == a[..h];
    PrefixBelow(a, h);
  }

  /** A strict prefix of a byte string with a non-zero first byte holds less than the whole. */
  lemma PrefixBelow(a: Bytes, h: nat)
    requires h < |a| && a[0] != 0
    ensures BigEndian(a[..h]) < BigEndian(a)
  {
    BigEndianBelow(a[..h]);
    BigEndianLeadingByte(a);
    Pow256Monotone(h, |a| - 1);
  }

  /**
    When the second part is at least two bytes longer, the first half read
    is the first part followed by a leading byte of the second, and holds more.
  */
  lemma FirstHalfLong(a: Bytes, b: Bytes)
    requires |b| >= |a| + 2 && b[0] != 0
    ensures SplitHalves(a + b).0 > BigEndian(a)
  {
    var h := |a + b| / 2;
    assert |a| < h < |a| + |b|;
    var q := b[..h - |a|];
    assert (a + b)[..h] == a + q;
    assert SplitHalves(a + b).0 == BigEndian(a + q);
    AppendAbove(a, q);
  }

  /** Appending bytes that start with a non-zero byte gives a larger number. */
  lemma AppendAbove(a: Bytes, q: Bytes)
    requires q != [] && q[0] != 0
    ensures BigEndian(a + q) > BigEndian(a)
  {
    BigEndianAppend(a, q);
    BigEndianLeadingByte(q);
    Pow256Monotone(0, |q|);
    Pow256Monotone(0, |q| - 1);
    ShiftedAbove(BigEndian(a), Pow256(|q|), BigEndian(q));
  }

  lemma ShiftedAbove(r: nat, p: nat, q: nat)
    requires p >= 1 && q >= 1
    ensures r * p + q > r
  {
  }

  /**
    `Verify` reads back the (r, s) that `Sign` stored exactly when the
    signature splits back. Otherwise the first half it reads is not r:
    a strict prefix of r's encoding (no leading zero) holds less than r,
    and r's encoding followed by a leading byte of s's holds more.
  */
  lemma SignatureSplitsBackIff(sig: (nat, nat))
    ensures SplitHalves(SignatureBytes(sig)) == sig <==> SignatureSplitsBack(sig)
  {
    var a, b := MinimalBytes(sig.0), MinimalBytes(sig.1);
    MinimalBytesReadsBack(sig.0);
    MinimalBytesReadsBack(sig.1);
    if SignatureSplitsBack(sig) {
      HalvesSplit(a, b);
    } else if |b| < |a| {
      FirstHalfShort(a, b);
    } else {
      FirstHalfLong(a, b);
    }
  }

  /** r = 256, s = 1 is stored as [1, 0, 1], which `Verify` reads as r = 1, s = 1. */
  lemma SignatureMisreadExample()
    ensures SignatureBytes((256, 1)) == [1, 0, 1]
    ensures SplitHalves([1, 0, 1]) == (1, 1)
    ensures !SignatureSplitsBack((256, 1))
  {
    MinimalBytesOfExample();
    SplitOfExample();
  }

  lemma MinimalBytesOfExample()
    ensures MinimalBytes(1) == [1] && MinimalBytes(256) == [1, 0]
  {
    assert MinimalBytes(1) == MinimalBytes(0) + [1];
    assert MinimalBytes(256) == MinimalBytes(1) + [0];
  }

  lemma SplitOfExample()
    ensures SplitHalves([1, 0, 1]) == (1, 1)
  {
    assert BigEndian([1]) == 1 by {
      assert [1][..0] == [];
    }
    assert BigEndian([0, 1]) == 1 by {
      assert [0, 1][..1] == [0] && [0][..0] == [];
    }
    assert [1, 0, 1][..1] == [1] && [1, 0, 1][1..] == [0, 1];
  }

  /**
    The corrected encoding: r and s in 32 bytes each, zero-padded on the
    left. A P-256 signature is below 2^256, so this always splits back.
  */
  function FixedSignatureBytes(sig: (nat, nat)): (r: Bytes)
    requires sig.0 < Pow256(32) && sig.1 < Pow256(32)
    ensures |r| == 64 && SplitHalves(r) == sig
  {
    var a, b := FixedBytes(sig.0, 32), FixedBytes(sig.1, 32);
    HalvesSplit(a, b);
    a + b
  }

  /** Under the corrected encoding every signature of a correct key pair verifies, whatever r and s are. */
  lemma FixedSignatureVerifies(c: Primitives, privateKey: Bytes, pubKey: Bytes, x: nat, y: nat,
                               digest: Bytes, entropy: Bytes)
    requires SplitHalves(pubKey) == (x, y) && SignatureSchemeCorrect(c, privateKey, x, y)
    ensures var sig := c.ecdsaSign(privateKey, digest, entropy);
      KeyAccepts(c, pubKey, digest, FixedSignatureBytes(sig))
  {
  }
}
