/**
  The Merkle tree builder of merkle.go. `NewMerkleTree` is modelled as
  written (a fixed number of pairing rounds, padding only the leaf level),
  together with a corrected builder that pairs until one node remains.
*/
module Merkle {
  import opened Wrappers
  import opened Bytes
  import opened Crypto

  /** A node; a leaf has neither child. */
  datatype MerkleNode = MerkleNode(left: Option<MerkleNode>, right: Option<MerkleNode>, data: Bytes)

  datatype MerkleTree = MerkleTree(root: MerkleNode)

  predicate IsLeaf(n: MerkleNode) {
    n.left.None? && n.right.None?
  }

  /**
    A leaf is labelled with the hash of its datum, an inner node with the
    hash of its children's labels, left first. Exactly one child present
    would dereference nil, so both or neither are given.
  */
  function NewMerkleNode(c: Primitives, left: Option<MerkleNode>, right: Option<MerkleNode>, datum: Bytes): (n: MerkleNode)
    requires left.None? <==> right.None?
    ensures n.left == left && n.right == right
    ensures IsLeaf(n) <==> left.None?
    ensures IsLeaf(n) ==> n.data == c.sha256(datum)
    ensures !IsLeaf(n) ==> n.data == c.sha256(left.value.data + right.value.data)
  {
    if left.None? && right.None? then MerkleNode(left, right, c.sha256(datum))
    else MerkleNode(left, right, c.sha256(left.value.data + right.value.data))
  }

  function Parent(c: Primitives, l: MerkleNode, r: MerkleNode): MerkleNode {
    NewMerkleNode(c, Some(l), Some(r), [])
  }

  /** An odd list of data gets its last datum repeated. */
  function Pad<T>(data: seq<T>): (r: seq<T>)
    ensures |r| % 2 == 0
    ensures |data| % 2 == 0 ==> r == data
    ensures |data| % 2 != 0 ==> r == data + [data[|data| - 1]]
  {
    if |data| % 2 != 0 then data + [data[|data| - 1]] else data
  }

  /** One leaf per datum, in order. */
  function Leaves(c: Primitives, data: seq<Bytes>): (r: seq<MerkleNode>)
    ensures |r| == |data|
    ensures forall k | 0 <= k < |data| :: r[k] == NewMerkleNode(c, None, None, data[k])
  {
    if data == [] then [] else Leaves(c, data[..|data| - 1]) + [NewMerkleNode(c, None, None, data[|data| - 1])]
  }

  /** One parent per adjacent pair, in order: the next level of an even level. */
  function Pairs(c: Primitives, nodes: seq<MerkleNode>): (r: seq<MerkleNode>)
    requires |nodes| % 2 == 0
    ensures |r| == |nodes| / 2
    ensures forall k | 0 <= k < |r| :: r[k] == Parent(c, nodes[2 * k], nodes[2 * k + 1])
  {
    if nodes == [] then []
    else Pairs(c, nodes[..|nodes| - 2]) + [Parent(c, nodes[|nodes| - 2], nodes[|nodes| - 1])]
  }

  /** One pairing round of the source loop: an odd level reads past its end. */
  function Level(c: Primitives, nodes: seq<MerkleNode>): Option<seq<MerkleNode>> {
    if |nodes| % 2 == 0 then Some(Pairs(c, nodes)) else None
  }

  /** `k` pairing rounds, failing as soon as a round starts on an odd level. */
  function Rounds(c: Primitives, nodes: seq<MerkleNode>, k: nat): Option<seq<MerkleNode>> {
    if k == 0 then Some(nodes)
    else
      match Rounds(c, nodes, k - 1)
      case None => None
      case Some(level) => Level(c, level)
  }

  /**
    What `NewMerkleTree` returns: None where the source indexes out of
    range (an odd level during the `len/2` rounds, or no node at all).
  */
  function TreeAsWritten(c: Primitives, data: seq<Bytes>): Option<MerkleTree> {
    var padded := Pad(data);
    match Rounds(c, Leaves(c, padded), |padded| / 2)
    case None => None
    case Some(nodes) => if |nodes| == 0 then None else Some(MerkleTree(nodes[0]))
  }

  /** The leaf loop of the builder: one leaf per datum. */
  method MakeLeaves(c: Primitives, data: seq<Bytes>) returns (nodes: seq<MerkleNode>)
    ensures nodes == Leaves(c, data)
  {
    nodes := [];
    for k := 0 to |data|
      invariant nodes == Leaves(c, data[..k])
    {
      assert data[..k + 1][..k] == data[..k];
      nodes := nodes + [NewMerkleNode(c, None, None, data[k])];
    }
    assert data[..|data|] == data;
  }

  /**
    The inner loop of one round: a parent for the nodes at `j` and `j + 1`
    for every even `j`; on an odd level the last `j + 1` is out of range.
  */
  method PairLevel(c: Primitives, nodes: seq<MerkleNode>) returns (level: Option<seq<MerkleNode>>)
    ensures level == Level(c, nodes)
  {
    var next: seq<MerkleNode> := [];
    var j := 0;
    while j < |nodes|
      invariant 0 <= j <= |nodes| && j % 2 == 0
      invariant next == Pairs(c, nodes[..j])
    {
      if j + 1 >= |nodes| {
        return None;
      }
      PairsSnoc(c, nodes, j);
      next := next + [Parent(c, nodes[j], nodes[j + 1])];
      j := j + 2;
    }
    assert nodes[..j] == nodes;
    return Some(next);
  }

  /** Extending an even prefix by two nodes extends its pairing by their parent. */
  lemma PairsSnoc(c: Primitives, nodes: seq<MerkleNode>, j: nat)
    requires j % 2 == 0 && j + 2 <= |nodes|
    ensures Pairs(c, nodes[..j + 2]) == Pairs(c, nodes[..j]) + [Parent(c, nodes[j], nodes[j + 1])]
  {
    var s := nodes[..j + 2];
    assert s[..|s| - 2] == nodes[..j];
  }

  /**
    The builder as written: pad the data, make the leaves, then run
    `len(data)/2` rounds that each replace the node list with one parent per
    adjacent pair. None stands for the index-out-of-range panic.
  */
  method NewMerkleTree(c: Primitives, data: seq<Bytes>) returns (tree: Option<MerkleTree>)
    ensures tree == TreeAsWritten(c, data)
  {
    var padded := data;
    if |padded| % 2 != 0 {
      padded := padded + [padded[|padded| - 1]];
    }
    assert padded == Pad(data);
    var leaves := MakeLeaves(c, padded);
    var rounds := RunRounds(c, leaves, |padded| / 2);
    if rounds.None? || |rounds.value| == 0 {
      return None;
    }
    return Some(MerkleTree(rounds.value[0]));
  }

  /** The round loop of `NewMerkleTree`: `count` rounds, stopping at the first odd level. */
  method RunRounds(c: Primitives, leaves: seq<MerkleNode>, count: nat) returns (r: Option<seq<MerkleNode>>)
    ensures r == Rounds(c, leaves, count)
  {
    var nodes := leaves;
    for i := 0 to count
      invariant Rounds(c, leaves, i) == Some(nodes)
    {
      var level := PairLevel(c, nodes);
      assert Rounds(c, leaves, i + 1) == level;
      if level.None? {
        RoundsStopAtFailure(c, leaves, i + 1, count);
        return None;
      }
      nodes := level.value;
    }
    return Some(nodes);
  }

  /** Once a round fails, every longer run of rounds fails. */
  lemma {:induction false} RoundsStopAtFailure(c: Primitives, nodes: seq<MerkleNode>, k: nat, m: nat)
    requires Rounds(c, nodes, k).None? && k <= m
    ensures Rounds(c, nodes, m).None?
    decreases m - k
  {
    if k < m {
      RoundsStopAtFailure(c, nodes, k + 1, m);
    }
  }

  function Pow2(k: nat): (r: nat)
    ensures r >= 1
  {
    if k == 0 then 1 else 2 * Pow2(k - 1)
  }

  /** A non-empty list shorter than 2^k reaches an odd level within k rounds. */
  lemma {:induction false} RoundsFailBelowPow2(c: Primitives, nodes: seq<MerkleNode>, k: nat)
    requires 0 < |nodes| < Pow2(k)
    ensures Rounds(c, nodes, k).None?
    decreases k
  {
    RoundsFromFront(c, nodes, k);
    if |nodes| % 2 == 0 {
      assert k > 0;
      RoundsFailBelowPow2(c, Pairs(c, nodes), k - 1);
    }
  }

  /** Rounds may equally be peeled from the front: first one round, then the rest. */
  lemma {:induction false} RoundsFromFront(c: Primitives, nodes: seq<MerkleNode>, k: nat)
    requires k > 0
    ensures Rounds(c, nodes, k) == if |nodes| % 2 == 0 then Rounds(c, Pairs(c, nodes), k - 1) else None
  {
    if k > 1 {
      RoundsFromFront(c, nodes, k - 1);
    }
  }

  lemma {:induction false} EvenBelowPow2(n: nat)
    requires n >= 6 && n % 2 == 0
    ensures n < Pow2(n / 2)
    decreases n
  {
    if n > 6 {
      EvenBelowPow2(n - 2);
      assert Pow2(n / 2) == 2 * Pow2(n / 2 - 1);
    } else {
      assert Pow2(3) == 8;
    }
  }

  /** Two nodes are paired into one root in one round. */
  lemma RoundsOnTwo(c: Primitives, nodes: seq<MerkleNode>)
    requires |nodes| == 2
    ensures Rounds(c, nodes, 1) == Some([Parent(c, nodes[0], nodes[1])])
  {
    assert Rounds(c, nodes, 0) == Some(nodes);
    assert Pairs(c, nodes) == [Parent(c, nodes[0], nodes[1])];
  }

  /** Four nodes are paired into two and then into one root in two rounds. */
  lemma RoundsOnFour(c: Primitives, nodes: seq<MerkleNode>)
    requires |nodes| == 4
    ensures Rounds(c, nodes, 2)
         == Some([Parent(c, Parent(c, nodes[0], nodes[1]), Parent(c, nodes[2], nodes[3]))])
  {
    var l1 := Pairs(c, nodes);
    assert l1 == [Parent(c, nodes[0], nodes[1]), Parent(c, nodes[2], nodes[3])];
    assert Rounds(c, nodes, 0) == Some(nodes);
    assert Rounds(c, nodes, 1) == Some(l1);
    assert Pairs(c, l1) == [Parent(c, l1[0], l1[1])];
  }

  /**
    The bound: the builder reaches a single root exactly for one to four
    data. Empty input has no node to return, and five or more data reach an
    odd level before the `len/2` rounds are over.
  */
  lemma NewMerkleTreeSucceedsIff(c: Primitives, data: seq<Bytes>)
    ensures TreeAsWritten(c, data).Some? <==> 1 <= |data| <= 4
  {
    var padded := Pad(data);
    var leaves := Leaves(c, padded);
    if |data| == 0 {
      assert Rounds(c, leaves, 0) == Some([]);
    } else if |padded| == 2 {
      RoundsOnTwo(c, leaves);
    } else if |padded| == 4 {
      RoundsOnFour(c, leaves);
    } else {
      EvenBelowPow2(|padded|);
      RoundsFailBelowPow2(c, leaves, |padded| / 2);
    }
  }

  /** An odd list is built exactly as the list with its last datum repeated. */
  lemma OddPaddingRepeatsLast(c: Primitives, data: seq<Bytes>)
    requires |data| % 2 != 0
    ensures TreeAsWritten(c, data) == TreeAsWritten(c, data + [data[|data| - 1]])
  {
  }

  /** One datum `a` yields the root sha256(sha256(a) ‖ sha256(a)). */
  lemma SingleDatumRoot(c: Primitives, a: Bytes)
    ensures TreeAsWritten(c, [a]).Some?
    ensures TreeAsWritten(c, [a]).value.root.data == c.sha256(c.sha256(a) + c.sha256(a))
  {
    assert Pad([a]) == [a, a];
    var leaves := Leaves(c, [a, a]);
    RoundsOnTwo(c, leaves);
  }

  /** Five data: the second round starts on three nodes and reads a fourth. */
  lemma FiveDataOutOfRange(c: Primitives, a: Bytes, b: Bytes, d: Bytes, e: Bytes, f: Bytes)
    ensures TreeAsWritten(c, [a, b, d, e, f]).None?
  {
    NewMerkleTreeSucceedsIff(c, [a, b, d, e, f]);
  }

  // ---------------------------------------------------------------------
  // Corrected builder

  /** A level of odd length gets its last node repeated before pairing. */
  function NextLevel(c: Primitives, nodes: seq<MerkleNode>): (r: seq<MerkleNode>)
    ensures |r| == (|nodes| + 1) / 2
  {
    Pairs(c, Pad(nodes))
  }

  /** Pair level by level until one node is left. */
  function Reduce(c: Primitives, nodes: seq<MerkleNode>): MerkleNode
    requires |nodes| > 0
    decreases |nodes|
  {
    if |nodes| == 1 then nodes[0] else Reduce(c, NextLevel(c, nodes))
  }

  /** The intended tree: padded leaves reduced to a single root; none for no data. */
  function IntendedTree(c: Primitives, data: seq<Bytes>): (r: Option<MerkleTree>)
    ensures r.Some? <==> |data| > 0
  {
    if data == [] then None else Some(MerkleTree(Reduce(c, Leaves(c, Pad(data)))))
  }

  /**
    Corrected `NewMerkleTree`: the leaf level is padded as before, and the
    rounds continue while more than one node remains, each odd level
    repeating its last node.
  */
  method BuildMerkleTree(c: Primitives, data: seq<Bytes>) returns (tree: Option<MerkleTree>)
    ensures tree == IntendedTree(c, data)
    ensures tree.Some? <==> |data| > 0
  {
    if |data| == 0 {
      return None;
    }
    var padded := Pad(data);
    var nodes := MakeLeaves(c, padded);
    while |nodes| > 1
      invariant |nodes| > 0
      invariant Reduce(c, nodes) == Reduce(c, Leaves(c, padded))
      decreases |nodes|
    {
      var even := nodes;
      if |even| % 2 != 0 {
        even := even + [even[|even| - 1]];
      }
      var level := PairLevel(c, even);
      assert level == Some(NextLevel(c, nodes));
      nodes := level.value;
    }
    return Some(MerkleTree(nodes[0]));
  }

  /** Where the source returns a root, for one to four data, it is the intended root. */
  lemma AsWrittenAgreesWhereDefined(c: Primitives, data: seq<Bytes>)
    requires 1 <= |data| <= 4
    ensures TreeAsWritten(c, data) == IntendedTree(c, data)
  {
    var leaves := Leaves(c, Pad(data));
    if |leaves| == 2 {
      RoundsOnTwo(c, leaves);
      ReduceTwo(c, leaves);
    } else {
      RoundsOnFour(c, leaves);
      ReduceFour(c, leaves);
    }
  }

  lemma ReduceTwo(c: Primitives, nodes: seq<MerkleNode>)
    requires |nodes| == 2
    ensures Reduce(c, nodes) == Parent(c, nodes[0], nodes[1])
  {
    var root := Parent(c, nodes[0], nodes[1]);
    assert Pad(nodes) == nodes;
    assert NextLevel(c, nodes) == [root];
  }

  lemma ReduceFour(c: Primitives, nodes: seq<MerkleNode>)
    requires |nodes| == 4
    ensures Reduce(c, nodes) == Parent(c, Parent(c, nodes[0], nodes[1]), Parent(c, nodes[2], nodes[3]))
  {
    var l1 := [Parent(c, nodes[0], nodes[1]), Parent(c, nodes[2], nodes[3])];
    assert Pad(nodes) == nodes;
    assert NextLevel(c, nodes) == l1;
    ReduceTwo(c, l1);
  }

  /** For five data the intended builder still returns a root. */
  lemma IntendedFiveDataHasRoot(c: Primitives, a: Bytes, b: Bytes, d: Bytes, e: Bytes, f: Bytes)
    ensures IntendedTree(c, [a, b, d, e, f]).Some?
    ensures TreeAsWritten(c, [a, b, d, e, f]).None?
  {
    FiveDataOutOfRange(c, a, b, d, e, f);
  }
}
