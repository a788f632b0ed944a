/** Locking an output to an address and testing ownership (txout.go). */
module TxOut {
  import opened Wrappers
  import opened Bytes
  import opened Crypto
  import opened Records
  import opened Utils

  /** `base58.Decode` with its error dropped: a failed decode yields a nil slice. */
  function DecodedOrNil(c: Primitives, address: string): Bytes {
    match c.base58Decode(address)
    case Some(d) => d
    case None => []
  }

  /** The slice `[1 : len-4]` of the decoded address is in bounds. */
  predicate Lockable(c: Primitives, address: string) {
    |DecodedOrNil(c, address)| >= 1 + AddressChecksumLength
  }

  /**
    Sets the output's key hash to the decoded address minus its version
    byte and checksum; the value is kept. The decode error is ignored, so an
    undecodable or too short address fails the slice (not Lockable).
  */
  function LockOutput(c: Primitives, txout: TxOutput, address: string): (r: TxOutput)
    requires Lockable(c, address)
    ensures r.value == txout.value
    ensures var d := DecodedOrNil(c, address);
      |r.pubKeyHash| == |d| - 5 && d == [d[0]] + r.pubKeyHash + d[|d| - AddressChecksumLength..]
  {
    var pubKeyHash := DecodedOrNil(c, address);
    var d := pubKeyHash;
    assert d == [d[0]] + d[1..|d| - AddressChecksumLength] + d[|d| - AddressChecksumLength..];
    txout.(pubKeyHash := pubKeyHash[1..|pubKeyHash| - AddressChecksumLength])
  }

  /** A new output of `value` locked to `address`. */
  function NewTxOutput(c: Primitives, value: int, address: string): (r: TxOutput)
    requires Lockable(c, address)
    ensures r.value == value
    ensures PubKeyHash(c, address) == Ok(r.pubKeyHash)
  {
    LockOutputAgreesWithPubKeyHash(c, TxOutput(value, []), address);
    LockOutput(c, TxOutput(value, []), address)
  }

  /** Byte equality of the output's key hash with the given one. */
  predicate CanOutputBeUnlocked(txout: TxOutput, pubKeyHash: Bytes)
    ensures CanOutputBeUnlocked(txout, pubKeyHash) <==>
      |txout.pubKeyHash| == |pubKeyHash| && forall i | 0 <= i < |pubKeyHash| :: txout.pubKeyHash[i] == pubKeyHash[i]
  {
    txout.pubKeyHash == pubKeyHash
  }

  /** Where decoding succeeds, locking and `PubKeyHash` extract the same key hash. */
  lemma LockOutputAgreesWithPubKeyHash(c: Primitives, txout: TxOutput, address: string)
    requires Lockable(c, address)
    ensures c.base58Decode(address).Some?
    ensures DecodedLongEnough(c, address)
    ensures PubKeyHash(c, address) == Ok(LockOutput(c, txout, address).pubKeyHash)
  {
  }

  /** An output locked to an address is unlocked by that address's key hash. */
  lemma {:induction false} LockedOutputUnlocks(c: Primitives, txout: TxOutput, address: string)
    requires Lockable(c, address)
    ensures DecodedLongEnough(c, address) && PubKeyHash(c, address).Ok?
    ensures CanOutputBeUnlocked(LockOutput(c, txout, address), PubKeyHash(c, address).value)
  {
    LockOutputAgreesWithPubKeyHash(c, txout, address);
  }
}
