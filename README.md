# gochain ledger core in Dafny

A Dafny model of the core of gochain, a small proof-of-work ledger. It covers:

- the Merkle tree builder;
- the nonce search that seals a block, and its validation;
- the in-memory chain of blocks;
- transactions, their ids, and the signing and verification of their inputs;
- output locking and input unlocking by public-key hash;
- wallet addresses and their checksums;
- the UTXO index kept in a key-ordered storage bucket: the owned-output scan, the greedy selection of spendable outputs, block application and full reindexing;
- the wallet store;
- the 12-byte command framing of the peer protocol, the shared list of known peers, and the message handlers of a node.

Foreign primitives are never given an implementation:

- SHA-256 (FIPS 180-4);
- RIPEMD-160;
- base58;
- ECDSA over P-256 (FIPS 186-4, section 6);
- the gob encoding of a transaction.

Each is a field of `Crypto.Primitives` and is an arbitrary total function, so every property holds for every choice of them. A fact about a primitive is a hypothesis of the lemma that needs it:

- `Crypto.Base58RoundTrip`: base58 decoding undoes encoding;
- `Transactions.SignatureSchemeCorrect`: every signature (r, s) made with the private key is a pair of numbers below 2^256 that verifies under the public point (x, y). It is stated on numbers. How `Sign` stores r and s as bytes, and how `Verify` reads them back, is modelled separately, and it does not always round-trip (see Findings). `Transactions.SignThenVerify` also assumes, as a separate requirement, that the public key's halves encode the point.

The model follows the form of the code:

- Expressions become functions.
- Objects whose fields the code updates become classes: `Blocks.Block`, `Chain.Blockchain`, `UtxoStores.UtxoStore`, `WalletStores.WalletStore`, `NodeProtocol.PeerList` for the package-level `nodes`, and `Nodes.Node`.
- Loops become methods proved against specification functions, and those functions have their own lemmas.

A Go panic becomes one of two things:

- a precondition, where the caller must prevent it (an index or slice out of range);
- an explicit failure outcome, where the panic is part of the behaviour:
  - `false` from the nonce search;
  - `None` from the Merkle builder and from a transaction applied to the UTXO bucket;
  - `false` from `Update` and `Reindex`, with the storage transaction rolled back.

## Model

| member | source | states |
|---|---|---|
| Bytes.AsciiBytes | core/pow.go:42 | an ASCII Go string converts to one byte per character, each equal to the character's code |
| Bytes.DigitValue | core/utxo_store.go:85 | a character accepted as a hexadecimal digit, of either case, has a value in 0..15 |
| Bytes.DigitValueOfHexDigit | core/utxo_store.go:85 | reading the lowercase digit printed for a nibble gives the nibble back |
| Bytes.HexDigitIsZeroChar | core/pow.go:19-20 | a nibble prints as the character '0' exactly when it is zero |
| Bytes.Hex | core/utxo_store.go:49 | the `%x` / `hex.EncodeToString` text of a byte string has two characters per byte |
| Bytes.HexRoundTrip | core/utxo_store.go:85 | `hex.DecodeString` of the lowercase hex text of any byte string returns that byte string |
| Bytes.HexInjective | core/utxo_store.go:49 | distinct transaction ids have distinct hex keys |
| Bytes.HexNumeral | core/pow.go:42 | the `%x` numeral of a nonce is a non-empty ASCII string |
| Bytes.HexNumeralRoundTrip | core/pow.go:42 | parsing the numeral back gives the nonce |
| Bytes.HexNumeralInjective | core/pow.go:42 | distinct nonces print as distinct numerals |
| Bytes.BelowIrreflexive | core/utxo_store.go:23 | under the `bytes.Compare` order of the cursor, no key is below itself |
| Bytes.BelowTotal | core/utxo_store.go:23 | any two distinct keys are ordered one way or the other |
| Bytes.BelowAsymmetric | core/utxo_store.go:23 | two keys are never below each other |
| Bytes.BelowTransitive | core/utxo_store.go:23 | the key order is transitive |
| Bytes.MinimalBytesReadsBack | core/transaction.go:81 | `big.Int.Bytes()` (the function `MinimalBytes`): big-endian bytes that read back as the number, with no leading zero byte (zero is empty) |
| Bytes.FixedBytes | core/transaction.go:81 | a number below 256^width in exactly `width` big-endian bytes that read back as the number |
| Bytes.BigEndianAppend | core/transaction.go:96-101 | reading a concatenation shifts the first part left by the length of the second |
| Bytes.BigEndianBelow | core/transaction.go:96-101 | `k` bytes hold a number below 256^k |
| Bytes.BigEndianLeadingByte | core/transaction.go:96-101 | `k` bytes with a non-zero first byte hold at least 256^(k-1) |
| Utils.RipeMd160Sha256 | core/utils.go:12-21 | the key hash is a 20-byte RIPEMD-160 digest (of the SHA-256 of the payload) |
| Utils.ShaChecksum | core/utils.go:24-28 | for 0 <= length <= 32, the checksum has exactly `length` bytes and is a prefix of the double SHA-256 |
| Utils.PubKeyHash | core/utils.go:31-37 | an error exactly when base58 decoding fails; otherwise the decoded bytes are one version byte, the result, then the 4-byte checksum; an address decoding to fewer than 5 bytes is excluded, as there the slice panics |
| Wallets.AddressBytes | core/wallet.go:39-43 | the bytes under the base58 text are 25 long: version 0x01, the 20-byte key hash of the public key, then the 4-byte checksum of those 21 bytes |
| Wallets.GetAddressIgnoresPrivateKey | core/wallet.go:39-44 | the address depends only on the public key |
| Wallets.IsValidAddress | core/wallet.go:48-57 | true exactly when the last four decoded bytes equal the checksum of everything before them, version byte included; the address must decode to at least four bytes, as the source panics otherwise |
| Wallets.GetAddress | core/wallet.go:39-44 | the address is the base58 text of the 25 address bytes: given the base58 round trip it decodes to exactly those bytes (partners: Wallets.GetAddressIgnoresPrivateKey, Wallets.EveryAddressIsValid, Wallets.PubKeyHashOfAddress) |
| Wallets.EveryAddressIsValid | core/wallet.go:48-57 | given the base58 round trip, every wallet's address decodes and passes validation |
| Wallets.PubKeyHashOfAddress | core/utils.go:31-37 | given the base58 round trip, `PubKeyHash` of a wallet's address is the key hash of its public key |
| TxOut.LockOutput | core/txout.go:26-31 | the value is kept; the key hash is the decoded address without its first byte and last four bytes (the decode error is ignored, so too short a decoding is excluded) |
| TxOut.NewTxOutput | core/txout.go:19-23 | a new output carries the value and is locked to the key hash `PubKeyHash` reads from the address |
| TxOut.LockOutputAgreesWithPubKeyHash | core/txout.go:27-28 | where locking succeeds, decoding succeeded and `PubKeyHash` returns the same key hash |
| TxOut.LockedOutputUnlocks | core/txout.go:34-36 | an output locked to an address is unlocked by that address's `PubKeyHash` |
| TxOut.CanOutputBeUnlocked | core/txout.go:34-36 | an output is unlocked by a key hash exactly when the two agree byte for byte, length included (partners: TxOut.LockedOutputUnlocks, TxIn.InputUnlocksOutput) |
| TxIn.UnlockReadsOnlyPublicKey | core/txin.go:18-21 | whether an input unlocks depends only on its public key, not on its reference or signature |
| TxIn.CanUnlockOutput | core/txin.go:18-21 | only a 20-byte key hash can be unlocked, namely the key hash of the input's public key (partners: TxIn.UnlockReadsOnlyPublicKey, TxIn.InputUnlocksOutput) |
| TxIn.InputUnlocksOutput | core/txin.go:19-20 | an input unlocks an output's key hash exactly when the output accepts the key hash of the input's public key |
| TxIn.WalletInputUnlocksOwnOutputs | core/txin.go:18-21 | given the base58 round trip, an input carrying a wallet's public key unlocks that address's key hash and every output newly locked to the address |
| Transactions.HashIgnoresId | core/transaction.go:49-54 | transactions that differ only in `ID` have the same hash |
| Transactions.Hash | core/transaction.go:49-54 | the hash is SHA-256 of the encoding of the inputs and outputs under an empty id: the id itself never enters (partner: Transactions.HashIgnoresId) |
| Transactions.IsCoinbase | core/transaction.go:44-46 | a coinbase's input references no prior output, so no map of prior transactions resolves its inputs (partners: Transactions.NewCoinbaseTransaction, Transactions.SignedTx, UtxoIndex.CoinbaseUpdateFails) |
| Transactions.NewCoinbaseTransaction | core/transaction.go:24-30 | the result is a coinbase: one input with an empty id, index -1 and the data as key; one output of value `reward` locked to the address's key hash; and its id equals its own hash |
| Transactions.UnsignedInputs | core/transaction.go:60-62 | one input per input, in order, each keeping `Txid` and `Vout` with signature and key removed |
| Transactions.AsSignaturePayload | core/transaction.go:57-67 | the copy keeps the id, the outputs and every input's reference, in order and count, and strips every signature and public key |
| Transactions.PayloadIgnoresUnlockingData | core/transaction.go:57-67 | transactions that agree on id, outputs and input references have the same payload |
| Transactions.PartialPayload | core/transaction.go:74-79 | the payload after `n` rounds of the loop keeps the id, the outputs and the input count |
| Transactions.PartialPayloadInput | core/transaction.go:76-78 | in the payload after `n` rounds, input `j` has its reference and no signature; its key is the prior output's key hash for `j < n` (kept from earlier rounds, never reset) and empty otherwise |
| Transactions.PartialPayloadIgnoresUnlockingData | core/transaction.go:74-79 | the digests do not depend on the inputs' signatures or keys |
| Transactions.SignedPrefix | core/transaction.go:75-82 | after `n` signing rounds the id, the outputs and the input count are unchanged |
| Transactions.SignedPrefixInput | core/transaction.go:80-81 | after `n` rounds, input `k < n` carries the signature over digest `k` and is otherwise untouched; later inputs are untouched |
| Transactions.SignedTx | core/transaction.go:70-83 | a coinbase is left as it is; signing never changes the id, the outputs or the input count |
| Transactions.SignedTxInput | core/transaction.go:75-82 | each input of a signed transaction is the original with only its signature replaced by the signature over its digest |
| Transactions.NextPayload | core/transaction.go:76-79 | one loop round turns the payload after `ii` rounds into the payload after `ii + 1` rounds and stamps the digest of input `ii` as its id |
| Transactions.Sign | core/transaction.go:70-83 | the loop computes exactly `SignedTx`: a coinbase unchanged, otherwise every input signed over its own digest |
| Transactions.SignRound | core/transaction.go:75-82 | one round advances both the payload and the signed transaction by one input |
| Transactions.VerifiesInput | core/transaction.go:89-108 | when the first `n` inputs verify, each of them verifies |
| Transactions.VerifiesFromInputs | core/transaction.go:89-108 | when each of the first `n` inputs verifies, the first `n` inputs verify |
| Transactions.Verify | core/transaction.go:86-110 | the result is true exactly when every input's signature verifies against its digest under its own key (true with no inputs), stopping at the first failure; every input must resolve to a prior output, as the source indexes it unconditionally |
| Transactions.SigningKeepsDigests | core/transaction.go:74-93 | signing leaves every input digest unchanged, so `Sign` and `Verify` build the same digest sequence |
| Transactions.SignThenVerify | core/transaction.go:70-110 | a non-coinbase transaction verifies after `Sign` when all of these hold: its inputs carry a public key whose halves are the signing key's point; ECDSA is correct for that key pair; and each signature drawn splits back (s's minimal encoding is as long as r's or one byte longer) |
| Transactions.HalvesSplit | core/transaction.go:96-101 | a concatenation whose second part is as long as the first, or one byte longer, is read back by the half-length split as its two parts |
| Transactions.SignatureSplitsBackIff | core/transaction.go:81-101 | `Verify` reads back the (r, s) that `Sign` stored exactly when s's minimal encoding is as long as r's or one byte longer; otherwise the r it reads is different |
| Transactions.SignatureMisreadExample | core/transaction.go:81-101 | r = 256, s = 1 is stored as [1, 0, 1], which the verifier reads as r = 1, s = 1 |
| Transactions.FixedSignatureBytes | core/transaction.go:81 | the corrected encoding is 64 bytes and the half-length split reads back exactly r and s |
| Transactions.FixedSignatureVerifies | core/transaction.go:81-107 | under the corrected encoding, every signature made with a key pair for which ECDSA is correct verifies, whatever r and s are |
| Merkle.NewMerkleNode | core/merkle.go:42-53 | a node is a leaf exactly when it has no children; a leaf holds the SHA-256 of its datum, an inner node the SHA-256 of its children's data concatenated |
| Merkle.Pad | core/merkle.go:21-23 | an odd list gets its last element repeated; an even list is unchanged |
| Merkle.Leaves | core/merkle.go:24-27 | one leaf per datum, in order |
| Merkle.Pairs | core/merkle.go:29-34 | one parent per adjacent pair, in order, halving the length |
| Merkle.MakeLeaves | core/merkle.go:24-27 | the leaf loop builds exactly the leaves of the data |
| Merkle.PairLevel | core/merkle.go:29-34 | a pairing round gives the pairs of an even level and fails on an odd one, where `nodes[j+1]` is out of range |
| Merkle.PairsSnoc | core/merkle.go:30-33 | two more nodes add their parent at the end of the level |
| Merkle.NewMerkleTree | core/merkle.go:19-37 | the builder as written: pad, one leaf per datum, `len/2` rounds, then the first node; failing when a round reads past an odd level or no node is left |
| Merkle.RunRounds | core/merkle.go:28-35 | the round loop runs `count` rounds and stops at the first odd level |
| Merkle.RoundsStopAtFailure | core/merkle.go:28-35 | once a round fails, every longer run fails |
| Merkle.RoundsFailBelowPow2 | core/merkle.go:28-35 | a non-empty level shorter than 2^k meets an odd level within k rounds |
| Merkle.RoundsFromFront | core/merkle.go:28-35 | a run of rounds is its first round followed by the remaining rounds |
| Merkle.RoundsOnTwo | core/merkle.go:28-35 | two nodes pair into one root in one round |
| Merkle.RoundsOnFour | core/merkle.go:28-35 | four nodes pair into two and then into one root in two rounds |
| Merkle.NewMerkleTreeSucceedsIff | core/merkle.go:19-37 | the builder as written returns a tree exactly for 1 to 4 data |
| Merkle.OddPaddingRepeatsLast | core/merkle.go:21-23 | an odd list is built exactly as the list with its last datum repeated |
| Merkle.SingleDatumRoot | core/merkle.go:19-37 | one datum a yields the root sha256(sha256(a) ‖ sha256(a)) |
| Merkle.FiveDataOutOfRange | core/merkle.go:28-36 | five data fail: the second round starts on three nodes |
| Merkle.NextLevel | core/merkle.go:29-34 | a corrected level halves the length, rounding up |
| Merkle.IntendedTree | core/merkle.go:19-37 | the intended tree exists exactly for non-empty data |
| Merkle.BuildMerkleTree | core/merkle.go:19-37 | the corrected builder computes the intended tree, returning one exactly for non-empty data |
| Merkle.AsWrittenAgreesWhereDefined | core/merkle.go:19-37 | for 1 to 4 data the builder as written returns the intended tree |
| Merkle.ReduceTwo | core/merkle.go:29-34 | the intended reduction of two nodes is their parent |
| Merkle.ReduceFour | core/merkle.go:29-34 | the intended reduction of four nodes is the parent of the two pair parents |
| Merkle.IntendedFiveDataHasRoot | core/merkle.go:28-36 | for five data the intended builder returns a root where the builder as written fails |
| ProofOfWork.ZeroPrefixIffZeroBytes | core/pow.go:31-35 | the first four hex digits of a hash are '0' exactly when its first two bytes are zero |
| ProofOfWork.Join | core/pow.go:37-44 | the preimage is the previous hash, the data and the stored hash, followed by the ASCII hex numeral of the nonce, with no separators |
| ProofOfWork.JoinInjectiveInNonce | core/pow.go:37-44 | distinct nonces give distinct preimages |
| Blocks.JoinedIdsAppend | core/block.go:31-34 | joining ids distributes over concatenation of transaction lists |
| Blocks.JoinedIdsReadsOnlyIds | core/block.go:31-33 | the joined ids depend only on the transactions' ids |
| Blocks.IdsDigestReadsOnlyIds | core/block.go:29-36 | blocks with the same ids in the same order have the same transaction digest |
| Blocks.IdsDigestOfNone | core/block.go:29-36 | with no transactions the digest is the SHA-256 of the empty byte string |
| Blocks.Block.constructor | core/block.go:13-19 | a block holds exactly the given fields |
| Blocks.Block.ValidatePOW | core/pow.go:31-35 | validation holds exactly when the stored hash begins with two zero bytes; it does not recompute the hash; a hash of fewer than two bytes is excluded, as the slice panics |
| Blocks.Block.HashTransactions | core/block.go:29-36 | the loop's result is the SHA-256 of the block's transaction ids joined in block order with no separator, the digest `IdsDigest` defines (not a Merkle root) |
| Blocks.Block.POW | core/pow.go:15-28 | nonces are tried from 0 upward; on success the least sealing nonce is stored with the hash of its preimage; only the nonce and the hash change; with no nonce below MaxInt64 it reports failure with the block unchanged |
| Blocks.SealedBlockValidates | core/pow.go:18-24 | a sealing nonce's hash begins with two zero bytes, so a sealed block validates |
| Blocks.NewBlock | core/block.go:22-26 | a fresh block keeps the transactions and previous hash, starts from an empty hash and nonce 0, and is sealed with the least nonce so that it validates, or failure is reported |
| Chain.Blockchain.constructor | core/blockchain.go:4-6 | the chain holds exactly the given blocks |
| Chain.Blockchain.AddBlock | core/blockchain.go:9-13 | on a non-empty chain, exactly one fresh block is appended; it links to the last block's hash and earlier blocks are untouched; the link-and-validity invariant is preserved |
| Chain.InitChain | core/blockchain.go:16-18 | the chain has exactly one sealed block with an empty previous hash and satisfies the invariant, or no genesis nonce exists |
| Bucket.Get | core/utxo_store.go:109 | absent exactly when no entry has the key |
| Bucket.GetAt | core/utxo_store.go:109 | in a sorted bucket every stored entry is found by its key |
| Bucket.InsertAbove | core/utxo_store.go:118 | inserting a key above a bound keeps every key above it |
| Bucket.InsertSorted | core/utxo_store.go:118 | inserting a non-empty key keeps the bucket sorted |
| Bucket.PutSorted | core/utxo_store.go:118 | `Put` keeps the bucket sorted |
| Bucket.GetPut | core/utxo_store.go:118 | after `Put`, the key reads back the stored outputs (an empty key is refused) and every other key is unchanged |
| Bucket.GetInsert | core/utxo_store.go:118 | after inserting, the key reads back its outputs and no other key changes |
| Bucket.DeleteAbove | core/utxo_store.go:116 | deleting keeps every key above a bound |
| Bucket.DeleteSorted | core/utxo_store.go:116 | `Delete` keeps the bucket sorted |
| Bucket.GetDelete | core/utxo_store.go:116 | after `Delete`, the key is absent and every other key is unchanged |
| UtxoIndex.OwnedOfMembers | core/utxo_store.go:25-29 | an output is reported from a list exactly when it is in the list and owned by the key hash |
| UtxoIndex.OwnedMembers | core/utxo_store.go:23-29 | an output is reported exactly when some entry stores it and it is owned by the key hash |
| UtxoIndex.EntrySlots | core/utxo_store.go:51 | each output of an entry is seen with its key and list position, in order |
| UtxoIndex.GreedySnoc | core/utxo_store.go:51-55 | scanning one more output is one more greedy step |
| UtxoIndex.GreedyRowStep | core/utxo_store.go:51-55 | scanning one more output of an entry is one more greedy step |
| UtxoIndex.GroupSnoc | core/utxo_store.go:54 | taking one more output appends its position under its hex id |
| UtxoIndex.GreedyTotal | core/utxo_store.go:49-55 | the returned total is the sum of the values of the outputs taken |
| UtxoIndex.GreedyChosenOwned | core/utxo_store.go:52 | every output taken is owned by the key hash and is one of the scanned outputs |
| UtxoIndex.GreedyNothingBelowZero | core/utxo_store.go:52 | an amount of at most 0 selects nothing, with total 0 |
| UtxoIndex.GreedyShortfallTakesAll | core/utxo_store.go:52 | if the total stays below the amount, every owned output was taken |
| UtxoIndex.SlotsStored | core/utxo_store.go:48-51 | every scanned output names an entry, a valid position and the output stored there |
| UtxoIndex.SlotsInPositionOrder | core/utxo_store.go:48-51 | in a sorted bucket, outputs of the same id are scanned in ascending position |
| UtxoIndex.GreedyInPositionOrder | core/utxo_store.go:51-55 | the selection keeps that position order |
| UtxoIndex.GroupFrom | core/utxo_store.go:54 | every position listed under a hex id comes from a taken output with that id |
| UtxoIndex.GroupAscending | core/utxo_store.go:54 | positions taken in position order are listed in strictly ascending order per id |
| UtxoIndex.TakenStored | core/utxo_store.go:49-54 | a position taken under a hex id is a valid position of an owned output stored under that id |
| UtxoIndex.SpendableIndicesValid | core/utxo_store.go:40-64 | in the returned map, every position is a valid position of an owned output stored under that hex id, and positions ascend strictly per id |
| UtxoIndex.Without | core/utxo_store.go:110-114 | the list without position `vout`, order kept; an out-of-range position removes nothing |
| UtxoIndex.ApplyInputsStopsAtFailure | core/utxo_store.go:107-122 | once an input fails, the whole transaction fails |
| UtxoIndex.ApplyBlockStopsAtFailure | core/utxo_store.go:103-125 | once a transaction fails, the whole block fails (the storage transaction rolls back) |
| UtxoIndex.SpendInputEffect | core/utxo_store.go:108-119 | spending an input removes exactly position `vout` from the referenced list, deletes the entry if that empties it, keeps the bucket sorted and leaves every other key unchanged |
| UtxoIndex.MissingInputFails | core/utxo_store.go:109 | an input whose id is not stored makes the transaction fail, since decoding a nil entry panics |
| UtxoIndex.CoinbaseUpdateFails | core/utxo_store.go:106-109 | with the coinbase guard commented out, applying a coinbase always fails: its empty id is never stored |
| UtxoIndex.ApplyTxStoresOutputs | core/utxo_store.go:105-123 | a transaction with inputs ends with exactly its outputs under its id; one without inputs changes nothing |
| UtxoIndex.ApplyInputsSorted | core/utxo_store.go:107-122 | applying inputs keeps the bucket sorted |
| UtxoIndex.ApplyBlockSorted | core/utxo_store.go:103-125 | applying a block keeps the bucket sorted |
| UtxoIndex.ReindexLoopStep | core/utxo_store.go:84-93 | storing one more decodable map key keeps the bucket sorted and extends the reindexed part by that key |
| UtxoIndex.ReindexedStep | core/utxo_store.go:84-93 | storing one more decodable key extends the reindexed part by that key |
| UtxoIndex.ReindexCanonical | core/utxo_store.go:70-94 | with lowercase hex keys, the reindexed bucket is exactly the decoded map: each key reads back its outputs and every stored key is a map key |
| UtxoStores.UtxoStore.constructor | core/utxo_store.go:11-13 | the store holds exactly the given bucket contents |
| UtxoStores.UtxoStore.FindUtxo | core/utxo_store.go:16-37 | exactly the outputs owned by the key hash, in key order and then list position |
| UtxoStores.UtxoStore.FindSpendableOutputs | core/utxo_store.go:40-64 | the total and the per-hex-id position lists of the greedy scan over every stored output in cursor order |
| UtxoStores.ScanEntry | core/utxo_store.go:49-56 | the inner loop over one entry continues the greedy scan from the outputs before it |
| UtxoStores.TakeSlot | core/utxo_store.go:52-55 | one output is taken when it is owned and the total is below the amount, and its position is appended under its hex id |
| UtxoStores.RemovePosition | core/utxo_store.go:108-114 | the inner loop of `Update` keeps every output except position `vout` |
| UtxoStores.SpendOne | core/utxo_store.go:108-119 | one input: fails on a missing id; otherwise the list without `vout` is stored back, or the entry is deleted when empty |
| UtxoStores.ApplyTransaction | core/utxo_store.go:105-123 | one transaction: each input spent, then the transaction's outputs stored under its id |
| UtxoStores.UtxoStore.Update | core/utxo_store.go:100-127 | succeeds exactly when every referenced id is present when its input is processed; then the bucket is the block applied, and sortedness is kept; otherwise the bucket is unchanged |
| UtxoStores.ReindexBucket | core/utxo_store.go:79-95 | succeeds exactly when every map key decodes to a non-empty id; then the bucket is sorted and holds exactly the decoded entries |
| UtxoStores.UtxoStore.Reindex | core/utxo_store.go:67-97 | on success the bucket holds exactly the decoded entries of the map and nothing from before; on an undecodable key it is left empty |
| WalletStores.WalletStore.constructor | core/wallet_store.go:18-20 | a new store has an empty map; the wallet file keeps what it held |
| WalletStores.WalletStore.Save | core/wallet_store.go:62-75 | the file then holds exactly the map, which is unchanged |
| WalletStores.WalletStore.GetWallet | core/wallet_store.go:34-36 | the stored wallet under the address, absent (nil) exactly when the address is not a key |
| WalletStores.WalletStore.CreateWallet | core/wallet_store.go:39-48 | the new wallet is stored under its own address, overwriting any wallet there, and returned; the file then matches the map |
| WalletStores.WalletStore.DeleteWallet | core/wallet_store.go:51-59 | an absent address leaves the map and the file untouched; a present one removes only that key and saves; the address is absent afterwards |
| WalletStores.WalletStore.ClearAll | core/wallet_store.go:94-97 | the map is empty and saved |
| WalletStores.WalletStore.Reset | core/wallet_store.go:23-31 | without a file the map is saved unchanged; with one it is cleared; the file then matches the map; no error is returned |
| NodeProtocol.Chars | core/node_protocol.go:71 | the string of a byte slice has one character per byte, each with that byte's code |
| NodeProtocol.Zeros | core/node_protocol.go:56 | the zeroed command array holds only zeros |
| NodeProtocol.ToBytes | core/node_protocol.go:55-61 | exactly 12 bytes: the command's bytes, then zero padding; commands of more than 12 characters are excluded, as they write past the array |
| NodeProtocol.NonZero | core/node_protocol.go:64-72 | the kept bytes are the non-zero bytes, none longer than the input; a byte string without zeros is kept whole |
| NodeProtocol.NonZeroAppend | core/node_protocol.go:66-70 | dropping zeros distributes over concatenation |
| NodeProtocol.DropsEveryZero | core/node_protocol.go:66-70 | a zero byte is dropped wherever it stands, not only in the trailing padding |
| NodeProtocol.FromBytes | core/node_protocol.go:64-72 | the command read from a tag is the string of its non-zero bytes |
| NodeProtocol.NonZeroOfZeros | core/node_protocol.go:64-72 | the padding reads back as nothing |
| NodeProtocol.TagRoundTrip | core/node_protocol.go:55-72 | an ASCII command of at most 12 characters without NUL reads back from its tag |
| NodeProtocol.ExtractCommand | core/node_protocol.go:75-77 | the tag is the first 12 bytes of a payload of at least 12 bytes |
| NodeProtocol.ExtractFramed | core/node_protocol.go:75-77 | the tag a request was framed with is the tag extracted from it |
| NodeProtocol.VersionReplyFor | core/node_protocol.go:42-48 | a lower local height asks for blocks, a higher one announces the version, equal heights send nothing |
| NodeProtocol.Registered | core/node_protocol.go:49-51 | the origin is appended exactly when it is unknown; the list keeps its order and gains nothing else |
| NodeProtocol.RegisteredDistinct | core/node_protocol.go:49-51 | registering never introduces a duplicate peer |
| NodeProtocol.PeerList.constructor | core/node_protocol.go:13 | the list holds exactly the given addresses |
| NodeProtocol.PeerList.KnownNode | core/node_protocol.go:91-98 | true exactly when the address is in the list |
| NodeProtocol.PeerList.ReceiveVersionCommand | core/node_protocol.go:33-52 | the height comparison decides the reply, and the origin is registered exactly when unknown |
| Nodes.Name | core/node.go:67-79 | every command name the dispatcher matches fits a tag and reads back from it |
| Nodes.Dispatch | core/node.go:65-82 | a request goes to the command whose name its tag reads as; no command matches otherwise, which the source turns into a panic |
| Nodes.DispatchTagged | core/node.go:65-82 | a request framed with a command's tag is dispatched to that command, whatever follows the tag |
| Nodes.Pruned | core/node.go:91-97 | pruning leaves every element except the address, in order, and nothing when the address is absent |
| Nodes.PrunedAppend | core/node.go:91-97 | pruning keeps order: it distributes over concatenation |
| Nodes.Deliver | core/node.go:87-105 | a reachable destination gets the envelope appended to the outbox with the peers unchanged; an unreachable one is removed from the peers and nothing is sent |
| Nodes.RelayExtends | core/node.go:266-269 | a relay only appends to the outbox |
| Nodes.RelaySendsOnly | core/node.go:266-269 | every envelope a relay adds carries the message under its tag, to a reachable peer that is not excluded |
| Nodes.RelayReaches | core/node.go:266-269 | every reachable peer that is not excluded receives the message |
| Nodes.RelayPrunes | core/node.go:266-269 | a relay drops from the peers exactly the targets it could not reach |
| Nodes.Lookup | core/node.go:331-334 | the mempool entry under the hex id, or the zero transaction when absent |
| Nodes.Node.constructor | core/node.go:27-35 | a new node has an empty mempool and nothing in transit, sent or asked of the chain |
| Nodes.Node.SendData | core/node.go:87-105 | the envelope is delivered, or the address is pruned from the peers when it cannot be dialled; the node's own state is unchanged |
| Nodes.Node.Send | core/node.go:108-153 | a message is sent framed with its own command's tag |
| Nodes.Node.Broadcast | core/node.go:266-269 | one message to each listed peer not excluded, in list order |
| Nodes.Node.ReceiveVersionCommand | core/node.go:156-178 | the reply the heights call for is sent, then the origin is registered exactly when unknown |
| Nodes.Node.ReceiveGetBlocksCommand | core/node.go:181-192 | the origin receives an inventory of every block hash |
| Nodes.Node.ReceiveInventoryCommand | core/node.go:195-224 | a block inventory requests its first hash, and the in-transit queue becomes the list without any copy of it; a transaction inventory requests its first id only when the mempool holds no entry with a non-nil id under its hex key; both need a non-empty list |
| Nodes.Node.ReceiveBlockCommand | core/node.go:227-250 | the block goes to the chain; then the head of the queue is requested and dropped, or, with the queue empty, a single reindex follows |
| Nodes.Node.CollectVerified | core/node.go:274-280 | each transaction collected is the mempool entry under its own hex id and verifies, every entry that verifies is collected, and no entry is collected twice |
| Nodes.Node.MineTransactions | core/node.go:273-310 | with nothing verifying, the mempool, the chain and the traffic are unchanged; otherwise exactly one block is mined (every verifying entry once, then the coinbase) and followed by a reindex, the mempool keeps exactly the entries that fail verification bar one under the coinbase's key, and the traffic is the relay of an inventory of the mined block's hash to every peer but this node; the coinbase is built (and the miner address must decode) only when something verifies |
| Nodes.Node.MiningRound | core/node.go:287-306 | the chain mines the collected entries followed by the coinbase and then reindexes, the mempool keeps exactly the entries that fail verification bar the coinbase's key, and the traffic is the relay of an inventory of the mined block's hash to every peer but this node |
| Nodes.Node.AnnounceBlock | core/node.go:302-306 | the traffic is exactly the relay of one inventory of the block hash to every peer in the list but this node; mempool and chain are unchanged |
| Nodes.Node.DeleteMined | core/node.go:298-301 | the mempool becomes the old one without the hex ids of the mined transactions |
| Nodes.Node.ReceiveTransactionCommand | core/node.go:253-312 | the transaction is stored under its hex id, overwriting; the root node relays an inventory to every peer except itself and the origin; another node with at least two entries and a miner address runs the mining loop on the updated pool, with the same outcome as Nodes.Node.MineTransactions; otherwise nothing else changes; the miner address need only decode when a block is actually mined |
| Nodes.Node.ReceiveGetDataCommand | core/node.go:315-336 | a block found is sent and an unknown block is ignored; a transaction is sent from the mempool, as the zero value when absent |
| Nodes.CollectedRemoval | core/node.go:298-301 | deleting the hex ids of the collected verifying entries and of the coinbase leaves exactly the entries that fail verification, bar the one under the coinbase's key |
| Nodes.Unmined | core/node.go:282-301 | what a round leaves: a sub-map of the old pool without the coinbase's key, in which nothing verifies, holding every other entry that fails verification |

## Left out

- Cryptography: SHA-256, RIPEMD-160, base58, ECDSA and key generation are parameters with no implementation (`Crypto.Primitives`). The base58 round trip and ECDSA correctness are hypotheses of the lemmas that need them, not axioms.
- `NewWallet`: the key pair drawn from the random source is a parameter of `CreateWallet`. The randomness `ecdsa.Sign` draws is the `entropy` parameter of `Sign`.
- gob: `Serialize`, `Deserialize`, `SerializeOutputs`, `DeserializeOutputs`, `EncodeData`, wallet `Load`, and the decoding of every handler's payload. The bucket stores output lists directly, and handlers receive decoded messages. The gob encoding of a transaction appears only as the input of its hash.
- Networking: `Start`, `handleConnection` (except its dispatch on the tag), `net.Dial`, `io.Copy` and one goroutine per connection. Whether an address can be dialled is the `reachable` parameter. A send is an envelope appended to the node's outbox.
- The persistent chain: best height, block hashes, `GetBlock`, `VerifyTransaction`, `MineBlock`, `AddBlock(block)` and the chain-level `FindUtxo`. Their source is not part of this model. A handler reads them from a `ChainView` and records what it asks of the chain as `ChainOp` entries. `Reindex` takes the UTXO map it stores as a parameter.
- `ProtocolVersion`, `GetBlocksCommand`, `InventoryCommand`, `GetDataCommand`, `BlockCommand` and `TransactionCommand`: these are used by node.go but not declared in the files shown. The protocol version is a constant of the node; the commands are the `Message` constructors.
- bolt: storage transactions, bucket creation and deletion, and limits on key size. The bucket is a key-sorted list. An empty key, which bolt refuses, leaves the bucket unchanged. A rollback is modelled only as the returned outcome.
- The iteration order of Go maps: `Reindex` picks keys in an unspecified order, and `CollectVerified` collects transactions in an unspecified order. Their contracts hold for every order.
- `Nodes.Node.MineTransactions`: verification is a fixed function across rounds, so the loop's second pass never finds anything to mine; in the source, verification reads the chain, which the first round extends. `MineBlock` cannot fail here; the source panics on a mining error.
- `NodeProtocol.ToBytes`: commands with non-ASCII characters (one rune written as one truncated byte) and commands longer than 12 bytes (a write past the array) are not modelled.
- Utils.RipeMd160Sha256: the contract states only the 20-byte length; the composition of RIPEMD-160 with SHA-256 is its definition, which the lemmas about key hashes use.
- `UtxoStores.UtxoStore.FindSpendableOutputs`: Go's `int` is 64 bits wide and the model's integers are unbounded. `total += out.Value` (core/utxo_store.go:53) can wrap around to a negative total, after which `total < amount` keeps taking outputs. The model's total never wraps.
- `UtxoIndex.GreedyTotal`: the total is the exact sum of the values taken, with no 64-bit wrap-around; `UtxoStores.ScanEntry` and `UtxoStores.TakeSlot` are in the same position.
- Integer width elsewhere: output values, `Vout` indices, chain heights, the protocol version and the coinbase `reward` are unbounded integers. They are only compared, used as indices or copied, never added to, so no wrap-around arises in the modelled code. The nonce search's bound `MaxInt64` is modelled explicitly.
- `Transactions.Sign`: it returns the signed copy rather than writing the caller's transaction through the pointer.
- `TxOut.LockOutput`: it returns the updated output rather than writing through the pointer receiver, and it always succeeds (the source always returns nil).
- Version skew between files: pow.go hashes `block.Data`, a field `Block` lacks, so the data is a parameter. blockchain.go calls `NewBlock` with a string, so `AddBlock` seals a block without transactions over that data.
- The clock (`time.Now`) is a parameter. The console output of every `Log` method and of the handlers is not modelled. Also not modelled: `FileExists`, the environment configuration, and the CLI and HTTP front ends.
- The wallet file is a ghost snapshot of the map; nothing is written to disk.

## Findings

| source | as written | input that shows it | evidently intended | confidence | as-written member | corrected member |
|---|---|---|---|---|---|---|
| core/transaction.go:81-101 | `Sign` stores `append(r.Bytes(), s.Bytes()...)`, each in its minimal length, and `Verify` splits the signature at half its length; the public key from core/wallet.go:33 is built and split the same way | r = 256, s = 1: stored as [1, 0, 1] and read back as r = 1, s = 1. In general this happens whenever s's minimal encoding is shorter than r's, or at least two bytes longer; on P-256, for instance, whenever s has a leading zero byte and r does not | r and s in fixed-width 32-byte fields, which always split back | not executed | Transactions.SignatureSplitsBackIff | Transactions.FixedSignatureVerifies |
| core/merkle.go:28-36 | the builder runs `len/2` pairing rounds on the padded leaves, and pads only the leaf level; from five data on, a round starts on an odd level and reads `nodes[j+1]` out of range (and empty input reads `nodes[0]` of an empty list) | five data a, b, c, d, e: six padded leaves pair into three nodes, and the second round reads a fourth | pair level by level, repeating the last node of an odd level, until a single root remains, for any non-empty data | not executed | Merkle.FiveDataOutOfRange | Merkle.IntendedFiveDataHasRoot |
