/**
  The ledger's value records: transaction inputs and outputs (txin.go,
  txout.go), transactions (transaction.go) and wallets (wallet.go). A Go
  nil slice and an empty slice are the same empty sequence here.
*/
module Records {
  import opened Bytes

  /** A reference to output `vout` of transaction `txid`, with its unlocking data. */
  datatype TxInput = TxInput(txid: Bytes, vout: int, signature: Bytes, pubKey: Bytes)

  /** An amount locked to the RIPEMD-160(SHA-256(public key)) of its owner. */
  datatype TxOutput = TxOutput(value: int, pubKeyHash: Bytes)

  datatype Transaction = Transaction(id: Bytes, vin: seq<TxInput>, vout: seq<TxOutput>)

  /** A key pair; the public key is the concatenation X ‖ Y of the curve point. */
  datatype Wallet = Wallet(privateKey: Bytes, publicKey: Bytes)
}
