/**
  The wire framing and the peer list of node_protocol.go. A request starts
  with a 12-byte command tag, the command name's bytes padded with zeros,
  followed by the gob-encoded message (the encoding is not part of this
  model). The package-level list of known peers is a `PeerList` object that
  the node's handlers share.
*/
module NodeProtocol {
  import opened Bytes

  const CommandLength := 12

  /** A Go string built from raw bytes: one character per byte. */
  function Chars(bs: Bytes): (s: string)
    ensures |s| == |bs|
    ensures forall i | 0 <= i < |bs| :: s[i] as int == bs[i]
  {
    seq(|bs|, i requires 0 <= i < |bs| => bs[i] as char)
  }

  /** `n` zero bytes. */
  function Zeros(n: nat): (r: Bytes)
    ensures |r| == n && forall i | 0 <= i < n :: r[i] == 0
  {
    seq(n, _ => 0)
  }

  /** The tag of a command: its bytes, then zeros up to `CommandLength`. */
  function Padded(command: string): Bytes
    requires IsAscii(command) && |command| <= CommandLength
  {
    AsciiBytes(command) + Zeros(CommandLength - |command|)
  }

  /** A command name that survives the round trip through its tag. */
  predicate Framable(command: string) {
    IsAscii(command) && |command| <= CommandLength && forall i | 0 <= i < |command| :: command[i] != 0 as char
  }

  /**
    `ToBytes`: the command written rune by rune into a zeroed 12-byte
    array. Only ASCII commands of at most 12 characters are modelled; a
    longer one writes past the array.
  */
  method ToBytes(command: string) returns (tag: Bytes)
    requires IsAscii(command) && |command| <= CommandLength
    ensures |tag| == CommandLength
    ensures forall i | 0 <= i < |command| :: tag[i] == command[i] as int
    ensures forall i | |command| <= i < CommandLength :: tag[i] == 0
    ensures tag == Padded(command)
  {
    var buf := new byte[CommandLength](_ => 0);
    for i := 0 to |command|
      invariant forall j | 0 <= j < i :: buf[j] == command[j] as int
      invariant forall j | i <= j < CommandLength :: buf[j] == 0
    {
      buf[i] := command[i] as int;
    }
    tag := buf[..];
  }

  /** The bytes of `bs` that are not zero, in order. */
  function NonZero(bs: Bytes): (r: Bytes)
    ensures |r| <= |bs|
    ensures forall i | 0 <= i < |r| :: r[i] != 0
    ensures (forall i | 0 <= i < |bs| :: bs[i] != 0) ==> r == bs
  {
    if bs == [] then []
    else
      var last := bs[|bs| - 1];
      NonZero(bs[..|bs| - 1]) + (if last != 0 then [last] else [])
  }

  lemma {:induction false} NonZeroAppend(a: Bytes, b: Bytes)
    ensures NonZero(a + b) == NonZero(a) + NonZero(b)
  {
    if b != [] {
      var b' := b[..|b| - 1];
      assert (a + b)[..|a + b| - 1] == a + b';
      NonZeroAppend(a, b');
    } else {
      assert a + b == a;
    }
  }

  /** `FromBytes` drops every zero byte, wherever it stands, not only trailing padding. */
  lemma DropsEveryZero(a: Bytes, b: Bytes)
    ensures NonZero(a + [0] + b) == NonZero(a + b)
  {
    NonZeroAppend(a + [0], b);
    NonZeroAppend(a, [0]);
    NonZeroAppend(a, b);
    assert [0][..0] == [];
    calc {
      NonZero(a + [0] + b);
      NonZero(a + [0]) + NonZero(b);
      NonZero(a) + NonZero([0]) + NonZero(b);
      NonZero(a) + NonZero(b);
    }
  }

  /** `FromBytes`: the string of the non-zero bytes. */
  method FromBytes(bs: Bytes) returns (command: string)
    ensures command == Chars(NonZero(bs))
  {
    var kept: Bytes := [];
    for i := 0 to |bs|
      invariant kept == NonZero(bs[..i])
    {
      assert bs[..i + 1][..i] == bs[..i];
      if bs[i] != 0 {
        kept := kept + [bs[i]];
      }
    }
    assert bs[..|bs|] == bs;
    command := Chars(kept);
  }

  lemma {:induction false} NonZeroOfZeros(n: nat)
    ensures NonZero(Zeros(n)) == []
  {
    if n > 0 {
      assert Zeros(n)[..n - 1] == Zeros(n - 1);
      NonZeroOfZeros(n - 1);
    }
  }

  /** Reading a tag back gives the command, for every ASCII command of at most 12 bytes without NUL. */
  lemma TagRoundTrip(command: string)
    requires Framable(command)
    ensures Chars(NonZero(Padded(command))) == command
  {
    var body := AsciiBytes(command);
    NonZeroAppend(body, Zeros(CommandLength - |command|));
    NonZeroOfZeros(CommandLength - |command|);
    assert NonZero(body) == body;
  }

  /** `ExtractCommand`: the tag at the head of a payload of at least 12 bytes. */
  function ExtractCommand(payload: Bytes): (tag: Bytes)
    requires |payload| >= CommandLength
    ensures |tag| == CommandLength && tag <= payload
  {
    payload[..CommandLength]
  }

  /** The tag a request was framed with is the tag extracted from it. */
  lemma ExtractFramed(tag: Bytes, body: Bytes)
    requires |tag| == CommandLength
    ensures ExtractCommand(tag + body) == tag
  {
    assert (tag + body)[..CommandLength] == tag;
  }

  /** The version message: protocol version, sender address, best height. */
  datatype VersionCommand = VersionCommand(version: int, origin: string, height: int)

  /** The reply a version message calls for. */
  datatype VersionReply = RequestBlocks | AnnounceVersion | NoReply

  /** A shorter local chain asks for blocks, a longer one announces its version, equal heights are silent. */
  function VersionReplyFor(localHeight: int, remoteHeight: int): (r: VersionReply)
    ensures r == RequestBlocks <==> localHeight < remoteHeight
    ensures r == AnnounceVersion <==> localHeight > remoteHeight
    ensures r == NoReply <==> localHeight == remoteHeight
  {
    if localHeight < remoteHeight then RequestBlocks
    else if localHeight > remoteHeight then AnnounceVersion
    else NoReply
  }

  /** The peer list after registering `origin`: appended only when unknown. */
  function Registered(nodes: seq<string>, origin: string): (r: seq<string>)
    ensures origin in r
    ensures forall a :: a in r <==> a in nodes || a == origin
    ensures |nodes| <= |r| <= |nodes| + 1 && r[..|nodes|] == nodes
  {
    if origin in nodes then nodes else nodes + [origin]
  }

  predicate Distinct(s: seq<string>) {
    forall i, j | 0 <= i < j < |s| :: s[i] != s[j]
  }

  /** Registering never introduces a duplicate peer. */
  lemma RegisteredDistinct(nodes: seq<string>, origin: string)
    requires Distinct(nodes)
    ensures Distinct(Registered(nodes, origin))
  {
    if origin !in nodes {
      var r := nodes + [origin];
      forall i, j | 0 <= i < j < |r|
        ensures r[i] != r[j]
      {
        if j == |nodes| {
          assert r[i] == nodes[i];
        }
      }
    }
  }

  /** The package-level list of known peer addresses (`nodes`). */
  class PeerList {
    var nodes: seq<string>

    constructor (nodes: seq<string>)
      ensures this.nodes == nodes
    {
      this.nodes := nodes;
    }

    /** `KnownNode`: a linear search of the list. */
    method KnownNode(address: string) returns (known: bool)
      ensures known <==> address in nodes
    {
      for i := 0 to |nodes|
        invariant address !in nodes[..i]
      {
        if nodes[i] == address {
          return true;
        }
        assert nodes[..i + 1] == nodes[..i] + [nodes[i]];
      }
      assert nodes[..|nodes|] == nodes;
      return false;
    }

    /**
      The package-level version handler: the reply it calls for (both send
      functions here are empty), then the origin registered if unknown.
      The decoded message and the local best height are parameters.
    */
    method ReceiveVersionCommand(localHeight: int, data: VersionCommand) returns (reply: VersionReply)
      modifies this
      ensures reply == VersionReplyFor(localHeight, data.height)
      ensures nodes == Registered(old(nodes), data.origin)
    {
      reply := VersionReplyFor(localHeight, data.height);
      var known := KnownNode(data.origin);
      if !known {
        nodes := nodes + [data.origin];
      }
    }
  }
}
