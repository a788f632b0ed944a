/**
  The block of block.go together with the nonce search and the validation
  of pow.go, which are methods of the same Go type. The block data that
  pow.go hashes is not a field of this `Block`, so it is passed in.
*/
module Blocks {
  import opened Bytes
  import opened Crypto
  import opened Records
  import opened ProofOfWork

  /** The transaction ids of a block, concatenated in block order with no separator. */
  function JoinedIds(txs: seq<Transaction>): Bytes {
    if txs == [] then [] else JoinedIds(txs[..|txs| - 1]) + txs[|txs| - 1].id
  }

  /** Joining distributes over concatenation of transaction lists. */
  lemma {:induction false} JoinedIdsAppend(a: seq<Transaction>, b: seq<Transaction>)
    ensures JoinedIds(a + b) == JoinedIds(a) + JoinedIds(b)
    decreases |b|
  {
    if b == [] {
      assert a + b == a;
    } else {
      var b' := b[..|b| - 1];
      assert (a + b)[..|a + b| - 1] == a + b';
      JoinedIdsAppend(a, b');
      calc {
        JoinedIds(a + b);
        JoinedIds(a + b') + b[|b| - 1].id;
        (JoinedIds(a) + JoinedIds(b')) + b[|b| - 1].id;
        JoinedIds(a) + (JoinedIds(b') + b[|b| - 1].id);
        JoinedIds(a) + JoinedIds(b);
      }
    }
  }

  /** The joined ids depend only on each transaction's id, not on its inputs or outputs. */
  lemma {:induction false} JoinedIdsReadsOnlyIds(a: seq<Transaction>, b: seq<Transaction>)
    requires |a| == |b|
    requires forall k | 0 <= k < |a| :: a[k].id == b[k].id
    ensures JoinedIds(a) == JoinedIds(b)
    decreases |a|
  {
    if a != [] {
      JoinedIdsReadsOnlyIds(a[..|a| - 1], b[..|b| - 1]);
    }
  }

  /**
    The digest `HashTransactions` returns: SHA-256 of the joined ids. It is
    not the Merkle root of the transactions.
  */
  function IdsDigest(c: Primitives, txs: seq<Transaction>): Digest {
    c.sha256(JoinedIds(txs))
  }

  /** Blocks with the same transaction ids in the same order have the same digest. */
  lemma IdsDigestReadsOnlyIds(c: Primitives, a: seq<Transaction>, b: seq<Transaction>)
    requires |a| == |b|
    requires forall k | 0 <= k < |a| :: a[k].id == b[k].id
    ensures IdsDigest(c, a) == IdsDigest(c, b)
  {
    JoinedIdsReadsOnlyIds(a, b);
  }

  /** With no transactions the digest is SHA-256 of the empty string. */
  lemma IdsDigestOfNone(c: Primitives)
    ensures IdsDigest(c, []) == c.sha256([])
  {
  }

  class Block {
    var timestamp: int
    var transactions: seq<Transaction>
    var prevBlockHash: Bytes
    var hash: Bytes
    var nonce: int

    constructor (timestamp: int, transactions: seq<Transaction>, prevBlockHash: Bytes, hash: Bytes, nonce: int)
      ensures this.timestamp == timestamp && this.transactions == transactions
      ensures this.prevBlockHash == prevBlockHash && this.hash == hash && this.nonce == nonce
    {
      this.timestamp := timestamp;
      this.transactions := transactions;
      this.prevBlockHash := prevBlockHash;
      this.hash := hash;
      this.nonce := nonce;
    }

    /**
      The stored hash shows the zero prefix. The hash is not recomputed:
      whatever the nonce, a stored hash starting with two zero bytes passes.
    */
    function ValidatePOW(): (r: bool)
      reads this
      requires |hash| >= 2
      ensures r <==> hash[0] == 0 && hash[1] == 0
    {
      ZeroPrefixIffZeroBytes(hash);
      ZeroPrefix(hash)
    }

    /**
      Collects the transaction ids in block order and hashes them joined
      with an empty separator.
    */
    method HashTransactions(c: Primitives) returns (r: Digest)
      ensures r == IdsDigest(c, transactions)
    {
      var joined: Bytes := [];
      for i := 0 to |transactions|
        invariant joined == JoinedIds(transactions[..i])
      {
        assert transactions[..i + 1][..i] == transactions[..i];
        joined := joined + transactions[i].id;
      }
      assert transactions[..|transactions|] == transactions;
      r := c.sha256(joined);
    }

    /**
      The nonce search: nonces 0, 1, 2, ... below `MaxInt64` are tried in
      order against the hash stored before the search, and the first whose
      preimage hashes to a zero prefix is stored with that hash. `false`
      stands for the panic when no nonce below `MaxInt64` works.
    */
    method POW(c: Primitives, data: Bytes) returns (found: bool)
      modifies this
      ensures timestamp == old(timestamp) && transactions == old(transactions)
      ensures prevBlockHash == old(prevBlockHash)
      ensures found ==>
        0 <= nonce < MaxInt64 &&
        hash == c.sha256(Join(prevBlockHash, data, old(hash), nonce)) &&
        Seals(c, prevBlockHash, data, old(hash), nonce)
      ensures found ==> forall n: nat | n < nonce :: !Seals(c, prevBlockHash, data, old(hash), n)
      ensures !found ==> hash == old(hash) && nonce == old(nonce)
      ensures !found ==> forall n: nat | n < MaxInt64 :: !Seals(c, prevBlockHash, data, old(hash), n)
    {
      var n: nat := 0;
      while n < MaxInt64
        invariant n <= MaxInt64
        invariant forall m: nat | m < n :: !Seals(c, prevBlockHash, data, hash, m)
      {
        var h := c.sha256(Join(prevBlockHash, data, hash, n));
        if Hex(h)[..Difficulty] == PrefixTarget {
          nonce := n;
          hash := h;
          return true;
        }
        n := n + 1;
      }
      return false;
    }
  }

  /** After a successful search the stored hash passes validation. */
  lemma SealedBlockValidates(c: Primitives, prevBlockHash: Bytes, data: Bytes, preHash: Bytes, nonce: nat)
    requires Seals(c, prevBlockHash, data, preHash, nonce)
    ensures c.sha256(Join(prevBlockHash, data, preHash, nonce))[0] == 0
    ensures c.sha256(Join(prevBlockHash, data, preHash, nonce))[1] == 0
  {
    ZeroPrefixIffZeroBytes(c.sha256(Join(prevBlockHash, data, preHash, nonce)));
  }

  /**
    A new block holds the given transactions and previous hash, starts from
    an empty hash and nonce 0, and is then sealed; `sealed` is false where
    the search would panic. The clock reading is a parameter.
  */
  method NewBlock(c: Primitives, transactions: seq<Transaction>, prevBlockHash: Bytes, data: Bytes, now: int)
    returns (block: Block, sealed: bool)
    ensures fresh(block)
    ensures block.timestamp == now && block.transactions == transactions
    ensures block.prevBlockHash == prevBlockHash
    ensures sealed ==>
      0 <= block.nonce < MaxInt64 &&
      block.hash == c.sha256(Join(prevBlockHash, data, [], block.nonce)) &&
      |block.hash| >= 2 && block.ValidatePOW()
    ensures sealed ==> forall n: nat | n < block.nonce :: !Seals(c, prevBlockHash, data, [], n)
    ensures !sealed ==> forall n: nat | n < MaxInt64 :: !Seals(c, prevBlockHash, data, [], n)
  {
    block := new Block(now, transactions, prevBlockHash, [], 0);
    sealed := block.POW(c, data);
    if sealed {
      SealedBlockValidates(c, prevBlockHash, data, [], block.nonce);
    }
  }
}
