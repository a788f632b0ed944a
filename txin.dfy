/** Spending authority of an input (txin.go). */
module TxIn {
  import opened Wrappers
  import opened Bytes
  import opened Crypto
  import opened Records
  import opened Utils
  import opened Wallets
  import opened TxOut

  /** The input's public key hashes to the given key hash (bytewise). */
  predicate CanUnlockOutput(c: Primitives, txin: TxInput, pubKeyHash: Bytes)
    ensures CanUnlockOutput(c, txin, pubKeyHash) ==> |pubKeyHash| == 20
  {
    pubKeyHash == RipeMd160Sha256(c, txin.pubKey)
  }

  /** Only the public key matters: the reference and the signature are never read. */
  lemma UnlockReadsOnlyPublicKey(c: Primitives, a: TxInput, b: TxInput, pubKeyHash: Bytes)
    requires a.pubKey == b.pubKey
    ensures CanUnlockOutput(c, a, pubKeyHash) == CanUnlockOutput(c, b, pubKeyHash)
  {
  }

  /** An input unlocks an output exactly when the output accepts the input's key hash. */
  lemma InputUnlocksOutput(c: Primitives, txin: TxInput, txout: TxOutput)
    ensures CanUnlockOutput(c, txin, txout.pubKeyHash)
        <==> CanOutputBeUnlocked(txout, RipeMd160Sha256(c, txin.pubKey))
  {
  }

  /**
    An input carrying a wallet's public key unlocks every output locked to
    that wallet's address, given the base58 round trip.
  */
  lemma {:induction false} WalletInputUnlocksOwnOutputs(c: Primitives, w: Wallet, txin: TxInput, value: int)
    requires Base58RoundTrip(c)
    requires txin.pubKey == w.publicKey
    ensures DecodedLongEnough(c, GetAddress(c, w)) && PubKeyHash(c, GetAddress(c, w)).Ok?
    ensures CanUnlockOutput(c, txin, PubKeyHash(c, GetAddress(c, w)).value)
    ensures Lockable(c, GetAddress(c, w))
    ensures CanUnlockOutput(c, txin, NewTxOutput(c, value, GetAddress(c, w)).pubKeyHash)
  {
    PubKeyHashOfAddress(c, w);
  }
}
