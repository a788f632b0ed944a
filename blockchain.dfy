/**
  The in-memory chain of blockchain.go: a list of sealed blocks, each
  pointing at the hash of the one before it.
*/
module Chain {
  import opened Wrappers
  import opened Bytes
  import opened Crypto
  import opened Records
  import opened ProofOfWork
  import opened Blocks

  /** The data hashed into the genesis block: the ASCII text "genesis". */
  const GenesisData: Bytes := [0x67, 0x65, 0x6e, 0x65, 0x73, 0x69, 0x73]

  class Blockchain {
    var blocks: seq<Block>

    /**
      The chain invariant: the first block has an empty previous hash, every
      later block names the hash of the block before it, and every block
      passes proof-of-work validation.
    */
    predicate Valid()
      reads this, blocks
    {
      && |blocks| > 0
      && blocks[0].prevBlockHash == []
      && (forall i | 0 < i < |blocks| :: blocks[i].prevBlockHash == blocks[i - 1].hash)
      && (forall i | 0 <= i < |blocks| :: |blocks[i].hash| >= 2 && blocks[i].ValidatePOW())
    }

    constructor (blocks: seq<Block>)
      ensures this.blocks == blocks
    {
      this.blocks := blocks;
    }

    /**
      Seals a new block on top of the last one and appends it; `false`
      stands for the panic of a failed search, with the chain unchanged.
      The chain must not be empty: the last block is read unconditionally.
      The block carries no transactions; its data and the clock reading are
      parameters.
    */
    method AddBlock(c: Primitives, data: Bytes, now: int) returns (ok: bool)
      requires |blocks| > 0
      modifies this
      ensures ok ==>
        |blocks| == |old(blocks)| + 1 && blocks[..|old(blocks)|] == old(blocks) &&
        fresh(blocks[|blocks| - 1]) &&
        blocks[|blocks| - 1].prevBlockHash == old(blocks[|blocks| - 1].hash) &&
        blocks[|blocks| - 1].transactions == []
      ensures !ok ==> blocks == old(blocks)
      ensures old(Valid()) ==> Valid()
    {
      var last := blocks[|blocks| - 1];
      var block, sealed := NewBlock(c, [], last.hash, data, now);
      if !sealed {
        return false;
      }
      blocks := blocks + [block];
      return true;
    }
  }

  /**
    A chain of exactly one sealed genesis block with an empty previous hash;
    None stands for the panic of a failed search.
  */
  method InitChain(c: Primitives, now: int) returns (chain: Option<Blockchain>)
    ensures chain.Some? ==> fresh(chain.value) && |chain.value.blocks| == 1 && chain.value.Valid()
    ensures chain.Some? ==> chain.value.blocks[0].transactions == []
    ensures chain.None? ==> forall n: nat | n < MaxInt64 :: !Seals(c, [], GenesisData, [], n)
  {
    var genesis, sealed := NewBlock(c, [], [], GenesisData, now);
    if !sealed {
      return None;
    }
    var bc := new Blockchain([genesis]);
    return Some(bc);
  }
}
