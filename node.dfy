/**
  The peer of node.go: command dispatch, the sends and the six message
  handlers, with their effects on the node's mempool and in-transit queue,
  on the shared peer list and on the traffic the node produces. A send is
  an envelope appended to `outbox`; whether an address can be dialled is a
  parameter. Sockets, gob and the persistent chain are not part of this
  model: what a handler reads from the chain is a `ChainView` parameter
  and what it asks the chain to do is appended to `chainOps`.
*/
module Nodes {
  import opened Wrappers
  import opened Bytes
  import opened Crypto
  import opened Records
  import opened TxOut
  import opened Transactions
  import opened NodeProtocol

  // ---------------------------------------------------------------------
  // Commands and dispatch

  datatype Command = VersionCmd | GetBlocksCmd | InventoryCmd | GetDataCmd | BlockCmd | TransactionCmd

  /** The name a command travels under; every name fits a tag and reads back. */
  function Name(cmd: Command): (name: string)
    ensures Framable(name)
  {
    match cmd
    case VersionCmd => "version"
    case GetBlocksCmd => "getblocks"
    case InventoryCmd => "inventory"
    case GetDataCmd => "getdata"
    case BlockCmd => "block"
    case TransactionCmd => "transaction"
  }

  /**
    The switch of `handleConnection` over the command read from the head of
    a request; None is its "unknown command" panic.
  */
  function Dispatch(payload: Bytes): (r: Option<Command>)
    requires |payload| >= CommandLength
    ensures r.Some? ==> Name(r.value) == Chars(NonZero(ExtractCommand(payload)))
    ensures r.None? ==> forall cmd: Command :: Name(cmd) != Chars(NonZero(ExtractCommand(payload)))
  {
    var command := Chars(NonZero(ExtractCommand(payload)));
    if command == "version" then Some(VersionCmd)
    else if command == "getblocks" then Some(GetBlocksCmd)
    else if command == "inventory" then Some(InventoryCmd)
    else if command == "getdata" then Some(GetDataCmd)
    else if command == "block" then Some(BlockCmd)
    else if command == "transaction" then Some(TransactionCmd)
    else None
  }

  /** A request framed with a command's tag is dispatched to that command, whatever follows the tag. */
  lemma DispatchTagged(cmd: Command, body: Bytes)
    ensures Dispatch(Padded(Name(cmd)) + body) == Some(cmd)
  {
    ExtractFramed(Padded(Name(cmd)), body);
    TagRoundTrip(Name(cmd));
  }

  // ---------------------------------------------------------------------
  // Messages and traffic

  /** The decoded messages; the origin is the sender's address. */
  datatype Message =
    | VersionMsg(data: VersionCommand)
    | GetBlocksMsg(origin: string)
    | InventoryMsg(origin: string, kind: string, items: seq<Bytes>)
    | GetDataMsg(origin: string, kind: string, id: Bytes)
    | BlockMsg(origin: string, block: Bytes)
    | TransactionMsg(origin: string, tx: Transaction)

  function CommandOf(m: Message): Command {
    match m
    case VersionMsg(_) => VersionCmd
    case GetBlocksMsg(_) => GetBlocksCmd
    case InventoryMsg(_, _, _) => InventoryCmd
    case GetDataMsg(_, _, _) => GetDataCmd
    case BlockMsg(_, _) => BlockCmd
    case TransactionMsg(_, _) => TransactionCmd
  }

  /** The tag a message is sent under. */
  function Frame(m: Message): Bytes {
    Padded(Name(CommandOf(m)))
  }

  /** A request as it leaves the node: destination, tag and message. */
  datatype Envelope = Envelope(to: string, tag: Bytes, message: Message)

  /** The known peers and everything sent so far. */
  datatype Traffic = Traffic(nodes: seq<string>, outbox: seq<Envelope>)

  /** `s` without any copy of `x`, the rest in order. */
  function Pruned<T(==,!new)>(s: seq<T>, x: T): (r: seq<T>)
    ensures x !in r
    ensures forall y :: y in r <==> y in s && y != x
    ensures |r| <= |s|
    ensures x !in s ==> r == s
  {
    if s == [] then []
    else
      var last := s[|s| - 1];
      Pruned(s[..|s| - 1], x) + (if last != x then [last] else [])
  }

  /** Pruning keeps order: it distributes over concatenation. */
  lemma {:induction false} PrunedAppend<T(!new)>(a: seq<T>, b: seq<T>, x: T)
    ensures Pruned(a + b, x) == Pruned(a, x) + Pruned(b, x)
  {
    if b != [] {
      var b' := b[..|b| - 1];
      assert (a + b)[..|a + b| - 1] == a + b';
      PrunedAppend(a, b', x);
    } else {
      assert a + b == a;
    }
  }

  /**
    One `SendData`: a reachable destination receives the envelope; one that
    cannot be dialled is dropped from the peer list and nothing is sent.
  */
  function Deliver(t: Traffic, e: Envelope, reachable: string -> bool): (r: Traffic)
    ensures reachable(e.to) ==> r.outbox == t.outbox + [e] && r.nodes == t.nodes
    ensures !reachable(e.to) ==> r.outbox == t.outbox && e.to !in r.nodes
  {
    if reachable(e.to) then Traffic(t.nodes, t.outbox + [e])
    else Traffic(Pruned(t.nodes, e.to), t.outbox)
  }

  /** A message sent to `to` under its own tag. */
  function Posted(t: Traffic, to: string, m: Message, reachable: string -> bool): Traffic {
    Deliver(t, Envelope(to, Frame(m), m), reachable)
  }

  /** Sending `m` to every target not excluded, in order. */
  function Relay(t: Traffic, targets: seq<string>, excluded: set<string>, m: Message,
                 reachable: string -> bool): Traffic
  {
    if targets == [] then t
    else
      var before := Relay(t, targets[..|targets| - 1], excluded, m, reachable);
      var n := targets[|targets| - 1];
      if n in excluded then before else Posted(before, n, m, reachable)
  }

  /** A member of a non-empty list is its last element or a member of the rest. */
  lemma InFrontOrLast<T>(s: seq<T>, x: T)
    requires |s| > 0
    ensures x in s <==> x in s[..|s| - 1] || x == s[|s| - 1]
  {
    assert s == s[..|s| - 1] + [s[|s| - 1]];
  }

  /** A relay only appends to the outbox. */
  lemma {:induction false} RelayExtends(t: Traffic, targets: seq<string>, excluded: set<string>, m: Message,
                                        reachable: string -> bool)
    ensures var r := Relay(t, targets, excluded, m, reachable);
      |t.outbox| <= |r.outbox| && r.outbox[..|t.outbox|] == t.outbox
  {
    if targets != [] {
      RelayExtends(t, targets[..|targets| - 1], excluded, m, reachable);
    }
  }

  /** Every envelope a relay adds carries `m` under its tag, to a reachable target that is not excluded. */
  lemma {:induction false} RelaySendsOnly(t: Traffic, targets: seq<string>, excluded: set<string>, m: Message,
                                          reachable: string -> bool)
    ensures var r := Relay(t, targets, excluded, m, reachable);
      forall i | |t.outbox| <= i < |r.outbox| ::
        && r.outbox[i] == Envelope(r.outbox[i].to, Frame(m), m)
        && r.outbox[i].to in targets && r.outbox[i].to !in excluded && reachable(r.outbox[i].to)
  {
    if targets != [] {
      var front := targets[..|targets| - 1];
      var last := targets[|targets| - 1];
      var before := Relay(t, front, excluded, m, reachable);
      var r := Relay(t, targets, excluded, m, reachable);
      RelaySendsOnly(t, front, excluded, m, reachable);
      RelayExtends(t, front, excluded, m, reachable);
      forall i | |t.outbox| <= i < |r.outbox|
        ensures r.outbox[i] == Envelope(r.outbox[i].to, Frame(m), m)
        ensures r.outbox[i].to in targets && r.outbox[i].to !in excluded && reachable(r.outbox[i].to)
      {
        if i < |before.outbox| {
          assert r.outbox[i] == before.outbox[i];
          InFrontOrLast(targets, r.outbox[i].to);
        } else {
          assert r.outbox == before.outbox + [Envelope(last, Frame(m), m)];
        }
      }
    }
  }

  /** Every reachable target that is not excluded receives an envelope. */
  lemma {:induction false} RelayReaches(t: Traffic, targets: seq<string>, excluded: set<string>, m: Message,
                                        reachable: string -> bool, n: string)
    requires n in targets && n !in excluded && reachable(n)
    ensures var r := Relay(t, targets, excluded, m, reachable);
      |t.outbox| <= |r.outbox| && Envelope(n, Frame(m), m) in r.outbox[|t.outbox|..]
  {
    var front := targets[..|targets| - 1];
    var last := targets[|targets| - 1];
    var before := Relay(t, front, excluded, m, reachable);
    var r := Relay(t, targets, excluded, m, reachable);
    RelayExtends(t, front, excluded, m, reachable);
    InFrontOrLast(targets, n);
    if n == last {
      assert r.outbox == before.outbox + [Envelope(last, Frame(m), m)];
      assert r.outbox[|t.outbox|..] == before.outbox[|t.outbox|..] + [Envelope(last, Frame(m), m)];
    } else {
      RelayReaches(t, front, excluded, m, reachable, n);
      if last in excluded || !reachable(last) {
        assert r.outbox == before.outbox;
      } else {
        assert r.outbox[|t.outbox|..] == before.outbox[|t.outbox|..] + [Envelope(last, Frame(m), m)];
      }
    }
  }

  /** A relay drops from the peer list exactly the targets it could not reach. */
  lemma {:induction false} RelayPrunes(t: Traffic, targets: seq<string>, excluded: set<string>, m: Message,
                                       reachable: string -> bool)
    ensures var r := Relay(t, targets, excluded, m, reachable);
      forall a :: a in r.nodes <==> a in t.nodes && !(a in targets && a !in excluded && !reachable(a))
  {
    if targets != [] {
      var front := targets[..|targets| - 1];
      RelayPrunes(t, front, excluded, m, reachable);
      forall a {
        InFrontOrLast(targets, a);
      }
    }
  }

  // ---------------------------------------------------------------------
  // The node

  /** What the node asks of the persistent chain, in order. */
  datatype ChainOp = AddBlockOp(block: Bytes) | MineBlockOp(txs: seq<Transaction>) | ReindexOp

  /**
    What the handlers read from the persistent chain: its best height, its
    block hashes, a block by hash (None for the lookup error), transaction
    verification, the hash of the block mined from a list of transactions,
    and the block reward from the configuration.
  */
  datatype ChainView = ChainView(
    bestHeight: int,
    blockHashes: seq<Bytes>,
    getBlock: Bytes -> Option<Bytes>,
    verify: Transaction -> bool,
    mine: seq<Transaction> -> Bytes,
    reward: int)

  /** The transaction a getdata serves: the mempool entry, or the zero value when absent. */
  function Lookup(mempool: map<string, Transaction>, id: Bytes): (tx: Transaction)
    ensures Hex(id) !in mempool ==> tx == Transaction([], [], [])
    ensures Hex(id) in mempool ==> tx == mempool[Hex(id)]
  {
    if Hex(id) in mempool then mempool[Hex(id)] else Transaction([], [], [])
  }

  /** The mempool holds no transaction with a non-nil id under the hex key of `id`. */
  predicate Unseen(mempool: map<string, Transaction>, id: Bytes) {
    Lookup(mempool, id).id == []
  }

  /** Every entry of `pool` sits under the hex encoding of its own id. */
  predicate Keyed(pool: map<string, Transaction>) {
    forall key | key in pool :: key == Hex(pool[key].id)
  }

  /** No entry of `pool` verifies. */
  predicate NothingVerifies(pool: map<string, Transaction>, verify: Transaction -> bool) {
    forall key | key in pool :: !verify(pool[key])
  }

  /**
    `txs` lists the verifying entries of `pool`, each once: every element
    verifies and is the entry under its own hex id, every entry that
    verifies is among them, and no two elements share a hex id.
  */
  predicate Collected(txs: seq<Transaction>, pool: map<string, Transaction>, verify: Transaction -> bool) {
    && (forall i | 0 <= i < |txs| :: Hex(txs[i].id) in pool && pool[Hex(txs[i].id)] == txs[i] && verify(txs[i]))
    && (forall key | key in pool && verify(pool[key]) :: pool[key] in txs)
    && (forall i, j | 0 <= i < j < |txs| :: Hex(txs[i].id) != Hex(txs[j].id))
  }

  /** What a mining round leaves of `pool`: the entries that do not verify, bar one under the coinbase's key. */
  function Unmined(pool: map<string, Transaction>, verify: Transaction -> bool, coinbaseKey: string)
    : (r: map<string, Transaction>)
    ensures r.Keys <= pool.Keys && coinbaseKey !in r
    ensures forall key | key in r :: r[key] == pool[key]
    ensures NothingVerifies(r, verify)
    ensures forall key | key in pool && !verify(pool[key]) && key != coinbaseKey :: key in r
  {
    map key | key in pool && !verify(pool[key]) && key != coinbaseKey :: pool[key]
  }

  /**
    The chain operations of one mining round over `pool`: the block of the
    collected verifying entries followed by the coinbase, then a reindex.
  */
  predicate MiningRecord(ops: seq<ChainOp>, pool: map<string, Transaction>, verify: Transaction -> bool,
                         coinbase: Transaction) {
    && |ops| == 2 && ops[0].MineBlockOp? && ops[1] == ReindexOp
    && |ops[0].txs| > 0 && ops[0].txs[|ops[0].txs| - 1] == coinbase
    && Collected(ops[0].txs[..|ops[0].txs| - 1], pool, verify)
  }

  class Node {
    const address: string
    const minersAdds: string
    const protocolVersion: int
    /** The package-level peer list, shared with node_protocol.go. */
    const peers: PeerList
    var mempool: map<string, Transaction>
    var transit: seq<Bytes>
    var outbox: seq<Envelope>
    var chainOps: seq<ChainOp>

    /** Every mempool entry sits under the hex encoding of its own id. */
    predicate Valid()
      reads this
    {
      Keyed(mempool)
    }

    function Net(): Traffic
      reads this, peers
    {
      Traffic(peers.nodes, outbox)
    }

    /** `NewNode` after its set-up: an empty mempool and nothing in transit. */
    constructor (address: string, minersAdds: string, protocolVersion: int, peers: PeerList)
      ensures this.address == address && this.minersAdds == minersAdds
      ensures this.protocolVersion == protocolVersion && this.peers == peers
      ensures mempool == map[] && transit == [] && outbox == [] && chainOps == []
      ensures Valid()
    {
      this.address := address;
      this.minersAdds := minersAdds;
      this.protocolVersion := protocolVersion;
      this.peers := peers;
      mempool := map[];
      transit := [];
      outbox := [];
      chainOps := [];
    }

    /**
      `SendData`: dials and sends; when the dial fails, every copy of the
      address is removed from the peer list and nothing is sent.
    */
    method SendData(to: string, tag: Bytes, message: Message, reachable: string -> bool)
      modifies this, peers
      ensures Net() == Deliver(old(Net()), Envelope(to, tag, message), reachable)
      ensures mempool == old(mempool) && transit == old(transit) && chainOps == old(chainOps)
    {
      if !reachable(to) {
        var updated: seq<string> := [];
        var nodes := peers.nodes;
        for i := 0 to |nodes|
          invariant updated == Pruned(nodes[..i], to)
        {
          assert nodes[..i + 1][..i] == nodes[..i];
          if nodes[i] != to {
            updated := updated + [nodes[i]];
          }
        }
        assert nodes[..|nodes|] == nodes;
        peers.nodes := updated;
        return;
      }
      outbox := outbox + [Envelope(to, tag, message)];
    }

    /** The `Send*` helpers: the message framed with its command's tag and sent. */
    method Send(to: string, message: Message, reachable: string -> bool)
      modifies this, peers
      ensures Net() == Posted(old(Net()), to, message, reachable)
      ensures mempool == old(mempool) && transit == old(transit) && chainOps == old(chainOps)
    {
      var tag := ToBytes(Name(CommandOf(message)));
      SendData(to, tag, message, reachable);
    }

    /** One message to each target not excluded, over a snapshot of the list. */
    method Broadcast(targets: seq<string>, excluded: set<string>, message: Message, reachable: string -> bool)
      modifies this, peers
      ensures Net() == Relay(old(Net()), targets, excluded, message, reachable)
      ensures mempool == old(mempool) && transit == old(transit) && chainOps == old(chainOps)
    {
      for i := 0 to |targets|
        invariant Net() == Relay(old(Net()), targets[..i], excluded, message, reachable)
        invariant mempool == old(mempool) && transit == old(transit) && chainOps == old(chainOps)
      {
        assert targets[..i + 1][..i] == targets[..i];
        if targets[i] !in excluded {
          Send(targets[i], message, reachable);
        }
      }
      assert targets[..|targets|] == targets;
    }

    /**
      A version message: the reply its height calls for, then the origin
      registered if unknown (after any pruning the reply caused).
    */
    method ReceiveVersionCommand(data: VersionCommand, chain: ChainView, reachable: string -> bool)
      modifies this, peers
      ensures var replied := match VersionReplyFor(chain.bestHeight, data.height)
          case RequestBlocks => Posted(old(Net()), data.origin, GetBlocksMsg(address), reachable)
          case AnnounceVersion =>
            Posted(old(Net()), data.origin, VersionMsg(VersionCommand(protocolVersion, address, chain.bestHeight)), reachable)
          case NoReply => old(Net());
        Net() == Traffic(Registered(replied.nodes, data.origin), replied.outbox)
      ensures mempool == old(mempool) && transit == old(transit) && chainOps == old(chainOps)
    {
      var reply := VersionReplyFor(chain.bestHeight, data.height);
      if reply == RequestBlocks {
        Send(data.origin, GetBlocksMsg(address), reachable);
      } else if reply == AnnounceVersion {
        Send(data.origin, VersionMsg(VersionCommand(protocolVersion, address, chain.bestHeight)), reachable);
      }
      var known := peers.KnownNode(data.origin);
      if !known {
        peers.nodes := peers.nodes + [data.origin];
      }
    }

    /** A getblocks message is answered with an inventory of every block hash. */
    method ReceiveGetBlocksCommand(origin: string, chain: ChainView, reachable: string -> bool)
      modifies this, peers
      ensures Net() == Posted(old(Net()), origin, InventoryMsg(address, "block", chain.blockHashes), reachable)
      ensures mempool == old(mempool) && transit == old(transit) && chainOps == old(chainOps)
    {
      Send(origin, InventoryMsg(address, "block", chain.blockHashes), reachable);
    }

    /**
      An inventory message. Of blocks: the first hash is requested and the
      in-transit queue becomes the list without any copy of it. Of
      transactions: the first id is requested unless the mempool already
      holds it. Both kinds read the first item, which must exist.
    */
    method ReceiveInventoryCommand(origin: string, kind: string, data: seq<Bytes>, reachable: string -> bool)
      requires kind == "block" || kind == "transaction" ==> |data| > 0
      modifies this, peers
      ensures kind == "block" ==>
        && transit == Pruned(data, data[0])
        && Net() == Posted(old(Net()), origin, GetDataMsg(address, "block", data[0]), reachable)
      ensures kind == "transaction" ==>
        && transit == old(transit)
        && Net() == if Unseen(mempool, data[0])
                    then Posted(old(Net()), origin, GetDataMsg(address, "transaction", data[0]), reachable)
                    else old(Net())
      ensures kind != "block" && kind != "transaction" ==> transit == old(transit) && Net() == old(Net())
      ensures mempool == old(mempool) && chainOps == old(chainOps)
    {
      if kind == "block" {
        transit := data;
        var blockHash := data[0];
        Send(origin, GetDataMsg(address, "block", blockHash), reachable);
        var newInTransit: seq<Bytes> := [];
        for i := 0 to |transit|
          invariant newInTransit == Pruned(data[..i], blockHash)
          invariant transit == data
        {
          assert data[..i + 1][..i] == data[..i];
          if transit[i] != blockHash {
            newInTransit := newInTransit + [transit[i]];
          }
        }
        assert data[..|data|] == data;
        transit := newInTransit;
      }
      if kind == "transaction" {
        var txID := data[0];
        if Lookup(mempool, txID).id == [] {
          Send(origin, GetDataMsg(address, "transaction", txID), reachable);
        }
      }
    }

    /**
      A block message: the block goes to the chain; then the head of the
      in-transit queue is requested and dropped, or, with the queue empty,
      the UTXO set is rebuilt once.
    */
    method ReceiveBlockCommand(origin: string, block: Bytes, reachable: string -> bool)
      modifies this, peers
      ensures |old(transit)| > 0 ==>
        && chainOps == old(chainOps) + [AddBlockOp(block)]
        && transit == old(transit)[1..]
        && Net() == Posted(old(Net()), origin, GetDataMsg(address, "block", old(transit)[0]), reachable)
      ensures |old(transit)| == 0 ==>
        chainOps == old(chainOps) + [AddBlockOp(block), ReindexOp] && transit == [] && Net() == old(Net())
      ensures mempool == old(mempool)
    {
      chainOps := chainOps + [AddBlockOp(block)];
      if |transit| > 0 {
        var blockHash := transit[0];
        Send(origin, GetDataMsg(address, "block", blockHash), reachable);
        transit := transit[1..];
      } else {
        chainOps := chainOps + [ReindexOp];
      }
    }

    /**
      The verified transactions of the mempool, in the map's unspecified
      iteration order: each one is the entry under its own hex id, every
      entry that verifies is among them, and none is taken twice.
    */
    method CollectVerified(verify: Transaction -> bool) returns (txs: seq<Transaction>)
      requires Valid()
      ensures Collected(txs, mempool, verify)
    {
      txs := [];
      var todo := mempool.Keys;
      while todo != {}
        invariant todo <= mempool.Keys
        invariant forall i | 0 <= i < |txs| ::
          Hex(txs[i].id) in mempool && mempool[Hex(txs[i].id)] == txs[i] && verify(txs[i]) && Hex(txs[i].id) !in todo
        invariant forall key | key in mempool && key !in todo && verify(mempool[key]) :: mempool[key] in txs
        invariant forall i, j | 0 <= i < j < |txs| :: Hex(txs[i].id) != Hex(txs[j].id)
        decreases |todo|
      {
        var key :| key in todo;
        var tx := mempool[key];
        if verify(tx) {
          txs := txs + [tx];
        }
        todo := todo - {key};
      }
    }

    /**
      The mining loop of the transaction handler. When no mempool entry
      verifies, nothing changes. Otherwise one block is mined: the verifying
      entries followed by a coinbase for the miner; the UTXO set is rebuilt,
      the mined ids are deleted, so that only the entries that fail
      verification stay (bar one under the coinbase's key), and the block's
      hash is announced to every known peer but this node. The loop goes
      round again while the mempool is not empty; with verification fixed
      across rounds the second pass finds nothing to mine.
    */
    method MineTransactions(c: Primitives, chain: ChainView, reachable: string -> bool)
      requires Valid()
      requires !NothingVerifies(mempool, chain.verify) ==> Lockable(c, minersAdds)
      modifies this, peers
      ensures Valid() && transit == old(transit)
      ensures NothingVerifies(old(mempool), chain.verify) ==>
        mempool == old(mempool) && chainOps == old(chainOps) && Net() == old(Net())
      ensures !NothingVerifies(old(mempool), chain.verify) ==>
        var coinbase := NewCoinbaseTransaction(c, minersAdds, [], chain.reward);
        && |old(chainOps)| <= |chainOps| && chainOps[..|old(chainOps)|] == old(chainOps)
        && MiningRecord(chainOps[|old(chainOps)|..], old(mempool), chain.verify, coinbase)
        && mempool == Unmined(old(mempool), chain.verify, Hex(coinbase.id))
        && Net() == Relay(old(Net()), old(peers.nodes), {address},
                          InventoryMsg(address, "block", [chain.mine(chainOps[|old(chainOps)|].txs)]), reachable)
    {
      ghost var mined := false;
      while true
        invariant Valid() && transit == old(transit)
        invariant !mined ==> mempool == old(mempool) && chainOps == old(chainOps) && Net() == old(Net())
        invariant mined ==> NothingVerifies(mempool, chain.verify) && !NothingVerifies(old(mempool), chain.verify)
        invariant mined ==>
          var coinbase := NewCoinbaseTransaction(c, minersAdds, [], chain.reward);
          && |old(chainOps)| <= |chainOps| && chainOps[..|old(chainOps)|] == old(chainOps)
          && MiningRecord(chainOps[|old(chainOps)|..], old(mempool), chain.verify, coinbase)
          && mempool == Unmined(old(mempool), chain.verify, Hex(coinbase.id))
          && Net() == Relay(old(Net()), old(peers.nodes), {address},
                            InventoryMsg(address, "block", [chain.mine(chainOps[|old(chainOps)|].txs)]), reachable)
        decreases if mined then 0 else 1
      {
        var txs := CollectVerified(chain.verify);
        if |txs| == 0 {
          return;
        }
        assert mempool[Hex(txs[0].id)] == txs[0];
        ghost var ops := chainOps;
        MiningRound(c, chain, reachable, txs);
        ghost var block := txs + [NewCoinbaseTransaction(c, minersAdds, [], chain.reward)];
        assert chainOps[|ops|..] == [MineBlockOp(block), ReindexOp];
        assert block[..|block| - 1] == txs;
        mined := true;
        if |mempool| == 0 {
          return;
        }
      }
    }

    /**
      One round of the mining loop, given the collected verifying entries:
      the block of them and the coinbase is mined, the UTXO set rebuilt,
      the mined ids deleted and the block's hash announced to every known
      peer but this node.
    */
    method MiningRound(c: Primitives, chain: ChainView, reachable: string -> bool, txs: seq<Transaction>)
      requires Valid() && Lockable(c, minersAdds) && Collected(txs, mempool, chain.verify)
      modifies this, peers
      ensures Valid() && transit == old(transit)
      ensures var block := txs + [NewCoinbaseTransaction(c, minersAdds, [], chain.reward)];
        && chainOps == old(chainOps) + [MineBlockOp(block), ReindexOp]
        && mempool == Unmined(old(mempool), chain.verify, Hex(block[|txs|].id))
        && Net() == Relay(old(Net()), old(peers.nodes), {address},
                          InventoryMsg(address, "block", [chain.mine(block)]), reachable)
    {
      var cbTx := NewCoinbaseTransaction(c, minersAdds, [], chain.reward);
      var block := txs + [cbTx];
      var hash := chain.mine(block);
      chainOps := chainOps + [MineBlockOp(block), ReindexOp];
      DeleteMined(block);
      CollectedRemoval(old(mempool), txs, chain.verify, cbTx);
      AnnounceBlock(hash, reachable);
    }

    /** An inventory of the mined block to every known peer but this node. */
    method AnnounceBlock(hash: Bytes, reachable: string -> bool)
      modifies this, peers
      ensures Net() == Relay(old(Net()), old(peers.nodes), {address}, InventoryMsg(address, "block", [hash]), reachable)
      ensures mempool == old(mempool) && transit == old(transit) && chainOps == old(chainOps)
    {
      Broadcast(peers.nodes, {address}, InventoryMsg(address, "block", [hash]), reachable);
    }

    /** Deletes the hex id of every mined transaction from the mempool. */
    method DeleteMined(mined: seq<Transaction>)
      requires Valid()
      modifies this
      ensures Valid()
      ensures mempool == old(mempool) - HexIds(mined)
      ensures transit == old(transit) && outbox == old(outbox) && chainOps == old(chainOps)
    {
      assert mined[..0] == [];
      for j := 0 to |mined|
        invariant mempool == old(mempool) - HexIds(mined[..j])
        invariant transit == old(transit) && outbox == old(outbox) && chainOps == old(chainOps)
      {
        HexIdsSnoc(mined, j);
        mempool := mempool - {Hex(mined[j].id)};
      }
      assert mined[..|mined|] == mined;
    }

    /**
      A transaction message: the transaction is stored under its hex id.
      The root node (the first known peer) relays an inventory of it to
      every peer but itself and the origin. Any other node with at least two
      mempool entries and a miner address runs the mining loop.
    */
    method ReceiveTransactionCommand(c: Primitives, origin: string, tx: Transaction, chain: ChainView,
                                     reachable: string -> bool)
      requires Valid() && |peers.nodes| > 0
      requires var pool := mempool[Hex(tx.id) := tx];
        address != peers.nodes[0] && |pool| >= 2 && |minersAdds| > 0 && !NothingVerifies(pool, chain.verify) ==>
          Lockable(c, minersAdds)
      modifies this, peers
      ensures Valid() && transit == old(transit)
      ensures var pool := old(mempool)[Hex(tx.id) := tx];
        address == old(peers.nodes[0]) ==>
          && mempool == pool && chainOps == old(chainOps)
          && Net() == Relay(old(Net()), old(peers.nodes), {address, origin},
                            InventoryMsg(address, "transaction", [tx.id]), reachable)
      ensures var pool := old(mempool)[Hex(tx.id) := tx];
        address != old(peers.nodes[0]) && (!(|pool| >= 2 && |minersAdds| > 0) || NothingVerifies(pool, chain.verify)) ==>
          mempool == pool && chainOps == old(chainOps) && Net() == old(Net())
      ensures var pool := old(mempool)[Hex(tx.id) := tx];
        address != old(peers.nodes[0]) && |pool| >= 2 && |minersAdds| > 0 && !NothingVerifies(pool, chain.verify) ==>
          var coinbase := NewCoinbaseTransaction(c, minersAdds, [], chain.reward);
          && |old(chainOps)| <= |chainOps| && chainOps[..|old(chainOps)|] == old(chainOps)
          && MiningRecord(chainOps[|old(chainOps)|..], pool, chain.verify, coinbase)
          && mempool == Unmined(pool, chain.verify, Hex(coinbase.id))
          && Net() == Relay(old(Net()), old(peers.nodes), {address},
                            InventoryMsg(address, "block", [chain.mine(chainOps[|old(chainOps)|].txs)]), reachable)
    {
      mempool := mempool[Hex(tx.id) := tx];
      if address == peers.nodes[0] {
        var targets := peers.nodes;
        Broadcast(targets, {address, origin}, InventoryMsg(address, "transaction", [tx.id]), reachable);
      } else if |mempool| >= 2 && |minersAdds| > 0 {
        MineTransactions(c, chain, reachable);
      }
    }

    /**
      A getdata message. For a block: the block is sent, or nothing when
      the chain does not find it. For a transaction: the mempool entry is
      sent, the zero transaction when there is none.
    */
    method ReceiveGetDataCommand(origin: string, kind: string, id: Bytes, chain: ChainView,
                                 reachable: string -> bool)
      modifies this, peers
      ensures kind == "block" ==>
        Net() == match chain.getBlock(id)
                 case Some(block) => Posted(old(Net()), origin, BlockMsg(address, block), reachable)
                 case None => old(Net())
      ensures kind == "transaction" ==>
        Net() == Posted(old(Net()), origin, TransactionMsg(address, Lookup(mempool, id)), reachable)
      ensures kind != "block" && kind != "transaction" ==> Net() == old(Net())
      ensures mempool == old(mempool) && transit == old(transit) && chainOps == old(chainOps)
    {
      if kind == "block" {
        var block := chain.getBlock(id);
        if block.None? {
          return;
        }
        Send(origin, BlockMsg(address, block.value), reachable);
      }
      if kind == "transaction" {
        var tx := Lookup(mempool, id);
        Send(origin, TransactionMsg(address, tx), reachable);
      }
    }
  }

  /**
    Deleting the hex ids of the collected entries and of the coinbase
    leaves exactly the entries that fail verification, bar the one under
    the coinbase's key.
  */
  lemma CollectedRemoval(pool: map<string, Transaction>, txs: seq<Transaction>, verify: Transaction -> bool,
                         coinbase: Transaction)
    requires Keyed(pool) && Collected(txs, pool, verify)
    ensures pool - HexIds(txs + [coinbase]) == Unmined(pool, verify, Hex(coinbase.id))
  {
    var block := txs + [coinbase];
    forall key | key in pool
      ensures key in HexIds(block) <==> verify(pool[key]) || key == Hex(coinbase.id)
    {
      if verify(pool[key]) {
        var i :| 0 <= i < |txs| && txs[i] == pool[key];
        assert block[i] == txs[i];
      }
      if key == Hex(coinbase.id) {
        assert block[|txs|] == coinbase;
      }
      if key in HexIds(block) && key != Hex(coinbase.id) {
        var i :| 0 <= i < |block| && key == Hex(block[i].id);
        assert block[i] == txs[i];
      }
    }
    assert (pool - HexIds(block)).Keys == Unmined(pool, verify, Hex(coinbase.id)).Keys;
  }

  /** The hex keys of a list of transactions. */
  function HexIds(txs: seq<Transaction>): set<string> {
    set j | 0 <= j < |txs| :: Hex(txs[j].id)
  }

  lemma HexIdsSnoc(txs: seq<Transaction>, j: int)
    requires 0 <= j < |txs|
    ensures HexIds(txs[..j + 1]) == HexIds(txs[..j]) + {Hex(txs[j].id)}
  {
    var a, b := txs[..j + 1], txs[..j];
    forall k | k in HexIds(a)
      ensures k in HexIds(b) + {Hex(txs[j].id)}
    {
      var i :| 0 <= i < |a| && k == Hex(a[i].id);
      if i < j {
        assert b[i] == a[i];
      }
    }
    forall k | k in HexIds(b)
      ensures k in HexIds(a)
    {
      var i :| 0 <= i < |b| && k == Hex(b[i].id);
      assert a[i] == b[i];
    }
    assert a[j] == txs[j];
  }
}
