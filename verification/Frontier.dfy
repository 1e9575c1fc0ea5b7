/**
  The serialized commitment-tree frontier: two parsers of it, and the frontier that appending builds.

  Appending is the incremental Merkle tree of section 3.8 of the Zcash Protocol Specification, with
  the Pedersen hash a parameter.
 */
module Frontier {
  import opened Base
  import opened Proto

  const NODE_SIZE: nat := 32
  const MAX_LEVELS: nat := 32

  type Node = n: seq<Byte> | |n| == 32 witness seq(32, _ => 0)

  datatype Frontier = Frontier(left: Option<Node>, right: Option<Node>, parents: seq<Option<Node>>)

  // ---------------------------------------------------------------- the encoding

  function EncodeNode(node: Option<Node>): (r: seq<Byte>)
    ensures |r| == if node.Some? then 33 else 1
  {
    if node.None? then [0] else [1] + node.value
  }

  function EncodeNodes(nodes: seq<Option<Node>>): seq<Byte> {
    if nodes == [] then [] else EncodeNode(nodes[0]) + EncodeNodes(nodes[1..])
  }

  /** Only frontiers of at most 32 levels have an encoding. */
  function Encode(f: Frontier): seq<Byte>
    requires |f.parents| <= MAX_LEVELS
  {
    EncodeNode(f.left) + EncodeNode(f.right) + [|f.parents|] + EncodeNodes(f.parents)
  }

  function ReadNode(s: seq<Byte>): (r: Option<Taken<Option<Node>>>)
    ensures r.Some? ==> 1 <= r.value.length <= |s|
  {
    if s == [] then None
    else if s[0] == 0 then Some(Taken(None, 1))
    else if s[0] != 1 || |s| < 33 then None
    else Some(Taken(Some(s[1..33]), 33))
  }

  function ReadNodes(s: seq<Byte>, count: nat): (r: Option<Taken<seq<Option<Node>>>>)
    ensures r.Some? ==> r.value.length <= |s| && |r.value.value| == count
    decreases count
  {
    if count == 0 then Some(Taken([], 0))
    else
      match ReadNode(s)
      case None => None
      case Some(first) =>
        match ReadNodes(s[first.length..], count - 1)
        case None => None
        case Some(rest) => Some(Taken([first.value] + rest.value, first.length + rest.length))
  }

  lemma ReadEncodedNode(node: Option<Node>, rest: seq<Byte>)
    ensures ReadNode(EncodeNode(node) + rest) == Some(Taken(node, |EncodeNode(node)|))
  {
    if node.Some? {
      assert ([1] + node.value + rest)[1..33] == node.value;
    }
  }

  lemma {:induction false} ReadEncodedNodes(nodes: seq<Option<Node>>, rest: seq<Byte>)
    ensures ReadNodes(EncodeNodes(nodes) + rest, |nodes|) == Some(Taken(nodes, |EncodeNodes(nodes)|))
    decreases |nodes|
  {
    hide ReadNode, EncodeNode;
    if nodes != [] {
      var first, tail := EncodeNode(nodes[0]), EncodeNodes(nodes[1..]);
      ReadEncodedNode(nodes[0], tail + rest);
      ReadEncodedNodes(nodes[1..], rest);
      TwoParts(first, tail, rest);
      assert [nodes[0]] + nodes[1..] == nodes;
    }
  }

  lemma TwoParts(first: seq<Byte>, tail: seq<Byte>, rest: seq<Byte>)
    ensures first + tail + rest == first + (tail + rest) && (first + (tail + rest))[|first|..] == tail + rest
  {
  }

  lemma NodeReadIsEncoded(s: seq<Byte>)
    ensures ReadNode(s).Some? ==> s == EncodeNode(ReadNode(s).value.value) + s[ReadNode(s).value.length..]
  {
    if ReadNode(s).Some? && s[0] == 1 {
      assert s == [s[0]] + s[1..33] + s[33..];
    }
  }

  lemma {:induction false} NodesReadAreEncoded(s: seq<Byte>, count: nat)
    ensures ReadNodes(s, count).Some? ==>
      s == EncodeNodes(ReadNodes(s, count).value.value) + s[ReadNodes(s, count).value.length..]
    decreases count
  {
    hide ReadNode, EncodeNode;
    if count > 0 && ReadNodes(s, count).Some? {
      var first := ReadNode(s).value;
      NodeReadIsEncoded(s);
      NodesReadAreEncoded(s[first.length..], count - 1);
      var rest := ReadNodes(s[first.length..], count - 1).value;
      assert ([first.value] + rest.value)[1..] == rest.value;
      assert s[first.length..][rest.length..] == s[first.length + rest.length..];
    }
  }

  /** What both parsers accept: two optional nodes, a level count, that many optional nodes, and nothing more. */
  function Parsed(s: seq<Byte>): (r: Option<Frontier>)
    ensures r.Some? ==> |r.value.parents| <= MAX_LEVELS
  {
    match ReadNode(s)
    case None => None
    case Some(left) =>
      var afterLeft := s[left.length..];
      match ReadNode(afterLeft)
      case None => None
      case Some(right) =>
        var afterRight := afterLeft[right.length..];
        if afterRight == [] || afterRight[0] > MAX_LEVELS then None
        else
          match ReadNodes(afterRight[1..], afterRight[0])
          case None => None
          case Some(parents) =>
            if parents.length != |afterRight| - 1 then None
            else Some(Frontier(left.value, right.value, parents.value))
  }

  /** The three reads, each from where the one before it ended. */
  lemma ParsedBySteps(s: seq<Byte>)
    ensures ReadNode(s).None? ==> Parsed(s) == None
    ensures ReadNode(s).Some? ==>
      var left, rest := ReadNode(s).value, s[ReadNode(s).value.length..];
      if ReadNode(rest).None? then Parsed(s) == None
      else
        var right, more := ReadNode(rest).value, rest[ReadNode(rest).value.length..];
        if more == [] || more[0] > MAX_LEVELS || ReadNodes(more[1..], more[0]).None? then Parsed(s) == None
        else
          var parents := ReadNodes(more[1..], more[0]).value;
          Parsed(s) == if more[1..][parents.length..] != [] then None
            else Some(Frontier(left.value, right.value, parents.value))
  {
    hide ReadNode, ReadNodes;
  }

  lemma ParsedHead(f: Frontier)
    requires |f.parents| <= MAX_LEVELS
    ensures var rest := [|f.parents|] + EncodeNodes(f.parents);
      && ReadNode(Encode(f)) == Some(Taken(f.left, |EncodeNode(f.left)|))
      && Encode(f)[|EncodeNode(f.left)|..] == EncodeNode(f.right) + rest
      && ReadNode(EncodeNode(f.right) + rest) == Some(Taken(f.right, |EncodeNode(f.right)|))
      && (EncodeNode(f.right) + rest)[|EncodeNode(f.right)|..] == rest
  {
    hide ReadNode, EncodeNode, EncodeNodes;
    var left, right, rest := EncodeNode(f.left), EncodeNode(f.right), [|f.parents|] + EncodeNodes(f.parents);
    assert Encode(f) == left + (right + rest);
    ReadEncodedNode(f.left, right + rest);
    ReadEncodedNode(f.right, rest);
  }

  /** Every frontier of at most 32 levels is read back from its encoding, which is consumed exactly. */
  lemma EncodedParses(f: Frontier)
    requires |f.parents| <= MAX_LEVELS
    ensures Parsed(Encode(f)) == Some(f)
  {
    ParsedHead(f);
    hide ReadNode, EncodeNode, EncodeNodes, ReadNodes, Encode;
    var nodes := EncodeNodes(f.parents);
    ReadEncodedNodes(f.parents, []);
    assert nodes + [] == nodes && ([|f.parents|] + nodes)[1..] == nodes;
  }

  /** And nothing else is accepted: a blob that parses is the encoding of what it parses to. */
  lemma ParsedIsEncoded(s: seq<Byte>)
    ensures Parsed(s).Some? ==> Encode(Parsed(s).value) == s
  {
    hide ReadNode, EncodeNode, EncodeNodes, ReadNodes;
    if Parsed(s).Some? {
      var left := ReadNode(s).value;
      NodeReadIsEncoded(s);
      var afterLeft := s[left.length..];
      NodeReadIsEncoded(afterLeft);
      var afterRight := afterLeft[ReadNode(afterLeft).value.length..];
      NodesReadAreEncoded(afterRight[1..], afterRight[0]);
      var parents := ReadNodes(afterRight[1..], afterRight[0]).value;
      assert afterRight[1..][parents.length..] == [];
      assert afterRight == [afterRight[0]] + EncodeNodes(parents.value);
      FourParts(EncodeNode(left.value), EncodeNode(ReadNode(afterLeft).value.value), [afterRight[0]], EncodeNodes(parents.value));
    }
  }

  lemma FourParts(a: seq<Byte>, b: seq<Byte>, c: seq<Byte>, d: seq<Byte>)
    ensures a + b + c + d == a + (b + (c + d))
  {
  }

  // ---------------------------------------------------------------- counting leaves

  function Present(node: Option<Node>): nat {
    if node.Some? then 1 else 0
  }

  /** A filled parent at level `i` stands for `2^(i+1)` leaves. */
  function ParentLeaves(parents: seq<Option<Node>>): nat {
    if parents == [] then 0
    else
      var n := |parents| - 1;
      ParentLeaves(parents[..n]) + Present(parents[n]) * Pow2(n + 1)
  }

  function LeafCount(f: Frontier): nat {
    Present(f.left) + Present(f.right) + ParentLeaves(f.parents)
  }

  lemma {:induction false} ParentLeavesBound(parents: seq<Option<Node>>)
    ensures ParentLeaves(parents) + 2 <= 2 * Pow2(|parents|)
  {
    if parents != [] {
      ParentLeavesBound(parents[..|parents| - 1]);
    }
  }

  lemma ThirtyTwoLevels()
    ensures Pow2(32) == 0x1_0000_0000
  {
    assert Pow2(8) == 256;
    assert Pow2(16) == 65536;
    assert Pow2(24) == 0x100_0000;
  }

  /** No accepted blob counts more than 2^33 leaves. */
  lemma CountIsBounded(s: seq<Byte>)
    requires Parsed(s).Some?
    ensures LeafCount(Parsed(s).value) <= 0x2_0000_0000
  {
    var f := Parsed(s).value;
    ParentLeavesBound(f.parents);
    Pow2Monotone(|f.parents|, 32);
    ThirtyTwoLevels();
  }

  // ---------------------------------------------------------------- the counting parser

  class FrontierReader {
    const bytes: seq<Byte>
    var offset: nat

    ghost predicate Valid()
      reads this`offset
    {
      offset <= |bytes|
    }

    ghost function Rest(): seq<Byte>
      requires Valid()
      reads this`offset
    {
      bytes[offset..]
    }

    constructor (input: seq<Byte>)
      ensures bytes == input && Valid() && Rest() == input && offset == 0
    {
      bytes, offset := input, 0;
    }

    /** `00`, or `01` and a 32-byte node: how many nodes were present. */
    method OptionalNode() returns (r: Option<nat>)
      requires Valid()
      modifies this`offset
      ensures Valid()
      ensures var read := ReadNode(old(Rest()));
        if read.None? then r.None?
        else r == Some(Present(read.value.value)) && Rest() == old(Rest())[read.value.length..]
    {
      if offset >= |bytes| {
        return None;
      }
      var tag := bytes[offset];
      offset := offset + 1;
      if tag == 0 {
        return Some(0);
      } else if tag == 1 {
        if offset + NODE_SIZE > |bytes| {
          return None;
        }
        offset := offset + NODE_SIZE;
        return Some(1);
      }
      return None;
    }

    /** Only the one-byte form of a CompactSize can be a level count. */
    method CompactSize() returns (r: Option<nat>)
      requires Valid()
      modifies this`offset
      ensures Valid()
      ensures var rest := old(Rest());
        if rest == [] || rest[0] >= 0xfd then r.None? else r == Some(rest[0]) && Rest() == rest[1..]
    {
      if offset >= |bytes| {
        return None;
      }
      var first := bytes[offset];
      offset := offset + 1;
      return if first < 0xfd then Some(first) else None;
    }

    /** The loop over the parents, which counts a filled one at level `i` as `1 << (i + 1)`. */
    method CountParents(parents: nat, start: nat) returns (r: Option<nat>)
      requires Valid()
      modifies this`offset
      ensures Valid()
      ensures var read := ReadNodes(old(Rest()), parents);
        if read.None? then r.None?
        else r == Some(start + ParentLeaves(read.value.value)) && Rest() == old(Rest())[read.value.length..]
    {
      hide ReadNode, ParentLeaves;
      ghost var all := Rest();
      ReadsOnStart(all, parents);
      ghost var seen: seq<Option<Node>> := [];
      NoParents();
      var count := start;
      for level := 0 to parents
        invariant Valid() && |seen| == level && count == start + ParentLeaves(seen)
        invariant ReadsOn(all, parents, seen, Rest())
      {
        ReadsOnNext(all, parents, seen, Rest());
        ghost var node := ReadNode(Rest());
        var present := OptionalNode();
        if present.None? {
          return None;
        }
        SeenNext(seen, node.value.value);
        if present.value == 1 {
          count := count + Pow2(level + 1);
        }
        seen := seen + [node.value.value];
      }
      ReadsOnEnd(all, parents, seen, Rest());
      return Some(count);
    }
  }

  lemma NoParents()
    ensures ParentLeaves([]) == 0
  {
  }

  lemma SeenNext(seen: seq<Option<Node>>, node: Option<Node>)
    ensures ParentLeaves(seen + [node]) == ParentLeaves(seen) + if Present(node) == 1 then Pow2(|seen| + 1) else 0
  {
    hide Pow2;
    var all := seen + [node];
    assert all[..|seen|] == seen && all[|seen|] == node;
    assert Present(node) * Pow2(|seen| + 1) == if Present(node) == 1 then Pow2(|seen| + 1) else 0;
  }

  /** After reading `seen`, with `rest` to go, reading all of `all` comes to reading on from `rest`. */
  ghost predicate ReadsOn(all: seq<Byte>, count: nat, seen: seq<Option<Node>>, rest: seq<Byte>) {
    && |seen| <= count && |rest| <= |all| && rest == all[|all| - |rest|..]
    && var left := ReadNodes(rest, count - |seen|);
      ReadNodes(all, count) == if left.None? then None else Some(Taken(seen + left.value.value, |all| - |rest| + left.value.length))
  }

  lemma ReadsOnStart(all: seq<Byte>, count: nat)
    ensures ReadsOn(all, count, [], all)
  {
    hide ReadNode;
    if ReadNodes(all, count).Some? {
      assert [] + ReadNodes(all, count).value.value == ReadNodes(all, count).value.value;
    }
  }

  lemma ReadsOnEnd(all: seq<Byte>, count: nat, seen: seq<Option<Node>>, rest: seq<Byte>)
    requires ReadsOn(all, count, seen, rest) && |seen| == count
    ensures ReadNodes(all, count) == Some(Taken(seen, |all| - |rest|))
  {
    assert seen + [] == seen;
  }

  lemma ReadsOnNext(all: seq<Byte>, count: nat, seen: seq<Option<Node>>, rest: seq<Byte>)
    requires ReadsOn(all, count, seen, rest) && |seen| < count
    ensures ReadNode(rest).None? ==> ReadNodes(all, count).None?
    ensures ReadNode(rest).Some? ==>
      ReadsOn(all, count, seen + [ReadNode(rest).value.value], rest[ReadNode(rest).value.length..])
  {
    hide ReadNode;
    if ReadNode(rest).Some? {
      var first := ReadNode(rest).value;
      var left := ReadNodes(rest[first.length..], count - |seen| - 1);
      if left.Some? {
        assert seen + ([first.value] + left.value.value) == seen + [first.value] + left.value.value;
      }
    }
  }

  /** `TreeState::leaf_count`, on the decoded bytes. */
  method CountLeaves(bytes: seq<Byte>) returns (r: Option<nat>)
    ensures r == if Parsed(bytes).None? then None else Some(LeafCount(Parsed(bytes).value))
  {
    hide ReadNode, ReadNodes, ParentLeaves, Present;
    var reader := new FrontierReader(bytes);
    var left := reader.OptionalNode();
    if left.None? {
      return None;
    }
    var right := reader.OptionalNode();
    if right.None? {
      return None;
    }
    var parents := reader.CompactSize();
    if parents.None? || parents.value > MAX_LEVELS {
      return None;
    }
    var count := reader.CountParents(parents.value, left.value + right.value);
    if count.None? || reader.offset != |bytes| {
      return None;
    }
    return count;
  }

  // ---------------------------------------------------------------- the node-keeping parser

  class TreeReader {
    const bytes: seq<Byte>
    var offset: nat

    ghost predicate Valid()
      reads this`offset
    {
      offset <= |bytes|
    }

    ghost function Rest(): seq<Byte>
      requires Valid()
      reads this`offset
    {
      bytes[offset..]
    }

    constructor (input: seq<Byte>)
      ensures bytes == input && Valid() && Rest() == input && offset == 0
    {
      bytes, offset := input, 0;
    }

    method NextByte() returns (r: Option<Byte>)
      requires Valid()
      modifies this`offset
      ensures Valid()
      ensures if old(Rest()) == [] then r.None? else r == Some(old(Rest())[0]) && Rest() == old(Rest())[1..]
    {
      if offset >= |bytes| {
        return None;
      }
      r := Some(bytes[offset]);
      offset := offset + 1;
    }

    method OptionalNode() returns (r: Option<Option<Node>>)
      requires Valid()
      modifies this`offset
      ensures Valid()
      ensures var read := ReadNode(old(Rest()));
        if read.None? then r.None? else r == Some(read.value.value) && Rest() == old(Rest())[read.value.length..]
    {
      ghost var rest := Rest();
      var tag := NextByte();
      if tag.None? {
        return None;
      }
      if tag.value == 0 {
        return Some(None);
      } else if tag.value == 1 {
        var end := offset + NODE_SIZE;
        if end > |bytes| {
          return None;
        }
        var node := bytes[offset..end];
        assert node == rest[1..33];
        offset := end;
        return Some(Some(node));
      }
      return None;
    }

    method KeepParents(count: nat) returns (r: Option<seq<Option<Node>>>)
      requires Valid()
      modifies this`offset
      ensures Valid()
      ensures var read := ReadNodes(old(Rest()), count);
        if read.None? then r.None? else r == Some(read.value.value) && Rest() == old(Rest())[read.value.length..]
    {
      hide ReadNode;
      ghost var all := Rest();
      ReadsOnStart(all, count);
      var parents: seq<Option<Node>> := [];
      for level := 0 to count
        invariant Valid() && |parents| == level
        invariant ReadsOn(all, count, parents, Rest())
      {
        ReadsOnNext(all, count, parents, Rest());
        var node := OptionalNode();
        if node.None? {
          return None;
        }
        parents := parents + [node.value];
      }
      ReadsOnEnd(all, count, parents, Rest());
      return Some(parents);
    }
  }

  /** `TreeStateBefore::from_serialized`. The two parsers accept the same blobs and agree on their size. */
  method FromSerialized(bytes: seq<Byte>) returns (r: Option<Frontier>)
    ensures r == Parsed(bytes)
  {
    hide ReadNode, ReadNodes, Parsed;
    ParsedBySteps(bytes);
    var reader := new TreeReader(bytes);
    var left := reader.OptionalNode();
    if left.None? {
      return None;
    }
    var right := reader.OptionalNode();
    if right.None? {
      return None;
    }
    var count := reader.NextByte();
    if count.None? || count.value >= 0xfd || count.value > MAX_LEVELS {
      return None;
    }
    var parents := reader.KeepParents(count.value);
    if parents.None? || reader.offset != |bytes| {
      return None;
    }
    return Some(Frontier(left.value, right.value, parents.value));
  }

  // ---------------------------------------------------------------- appending

  /** The Merkle hash of two nodes whose children are `level` levels above the leaves. */
  type Combine = (nat, Node, Node) -> Node

  /** The carry chain: `carry`, a node standing for `2^(level+1)` leaves, goes into the first free slot. */
  function Carry(parents: seq<Option<Node>>, level: nat, carry: Node, combine: Combine): seq<Option<Node>>
    requires level <= |parents|
    decreases |parents| - level
  {
    if level == |parents| then parents + [Some(carry)]
    else if parents[level].None? then parents[level := Some(carry)]
    else Carry(parents[level := None], level + 1, combine(level + 1, parents[level].value, carry), combine)
  }

  function Append(f: Frontier, leaf: Node, combine: Combine): Frontier {
    if f.left.None? then f.(left := Some(leaf))
    else if f.right.None? then f.(right := Some(leaf))
    else Frontier(Some(leaf), None, Carry(f.parents, 0, combine(0, f.left.value, f.right.value), combine))
  }

  const EMPTY := Frontier(None, None, [])

  function AppendAll(leaves: seq<Node>, combine: Combine): Frontier {
    if leaves == [] then EMPTY else Append(AppendAll(leaves[..|leaves| - 1], combine), leaves[|leaves| - 1], combine)
  }

  /** The Merkle root of `2^depth` leaves. */
  function Root(leaves: seq<Node>, depth: nat, combine: Combine): Node
    requires |leaves| == Pow2(depth)
    decreases depth
  {
    if depth == 0 then leaves[0]
    else
      var half := Pow2(depth - 1);
      combine(depth - 1, Root(leaves[..half], depth - 1, combine), Root(leaves[half..], depth - 1, combine))
  }

  /** From `level` up, the filled parents are the roots of consecutive complete subtrees over exactly `leaves`, the larger ones first. */
  ghost predicate Holds(parents: seq<Option<Node>>, level: nat, leaves: seq<Node>, combine: Combine)
    requires level <= |parents|
    decreases |parents| - level
  {
    if level == |parents| then leaves == []
    else if parents[level].None? then Holds(parents, level + 1, leaves, combine)
    else
      var size := Pow2(level + 1);
      && |leaves| >= size
      && parents[level].value == Root(leaves[|leaves| - size..], level + 1, combine)
      && Holds(parents, level + 1, leaves[..|leaves| - size], combine)
  }

  lemma {:induction false} HoldsSame(a: seq<Option<Node>>, b: seq<Option<Node>>, level: nat, leaves: seq<Node>, combine: Combine)
    requires level <= |a| == |b| && a[level..] == b[level..] && Holds(a, level, leaves, combine)
    ensures Holds(b, level, leaves, combine)
    decreases |a| - level
  {
    if level < |a| {
      assert a[level] == a[level..][0] == b[level];
      assert a[level + 1..] == a[level..][1..] == b[level + 1..];
      HoldsSame(a, b, level + 1,
        if a[level].None? then leaves else leaves[..|leaves| - Pow2(level + 1)], combine);
    }
  }

  /** `parents` below `level` is empty, so what it holds starts there. */
  ghost predicate EmptyBelow(parents: seq<Option<Node>>, level: nat) {
    forall i :: 0 <= i < level && i < |parents| ==> parents[i].None?
  }

  lemma {:induction false} HoldsFromEmpty(parents: seq<Option<Node>>, level: nat, leaves: seq<Node>, combine: Combine)
    requires level <= |parents| && EmptyBelow(parents, level)
    ensures Holds(parents, 0, leaves, combine) == Holds(parents, level, leaves, combine)
  {
    if level > 0 {
      HoldsFromEmpty(parents, level - 1, leaves, combine);
    }
  }

  lemma {:induction false} CarryHolds(parents: seq<Option<Node>>, level: nat, before: seq<Node>, block: seq<Node>, combine: Combine)
    requires level <= |parents| && EmptyBelow(parents, level) && Holds(parents, level, before, combine)
    requires |block| == Pow2(level + 1)
    ensures var after := Carry(parents, level, Root(block, level + 1, combine), combine);
      Holds(after, 0, before + block, combine)
    decreases |parents| - level
  {
    hide Root;
    var carry := Root(block, level + 1, combine);
    var after := Carry(parents, level, carry, combine);
    var all := before + block;
    if level == |parents| {
      assert all[|all| - |block|..] == block && all[..|all| - |block|] == before;
      HoldsFromEmpty(after, level, all, combine);
    } else if parents[level].None? {
      assert all[|all| - |block|..] == block && all[..|all| - |block|] == before;
      assert after[level + 1..] == parents[level + 1..];
      HoldsSame(parents, after, level + 1, before, combine);
      HoldsFromEmpty(after, level, all, combine);
    } else {
      var size := Pow2(level + 1);
      var older, left := before[..|before| - size], before[|before| - size..];
      var next := parents[level := None];
      assert next[level + 1..] == parents[level + 1..];
      HoldsSame(parents, next, level + 1, older, combine);
      RootOfTwo(left, block, level + 1, combine);
      CarryHolds(next, level + 1, older, left + block, combine);
      assert older + (left + block) == all;
    }
  }

  lemma RootOfTwo(left: seq<Node>, right: seq<Node>, depth: nat, combine: Combine)
    requires |left| == |right| == Pow2(depth)
    ensures Root(left + right, depth + 1, combine) == combine(depth, Root(left, depth, combine), Root(right, depth, combine))
  {
    assert (left + right)[..Pow2(depth)] == left && (left + right)[Pow2(depth)..] == right;
  }

  /** The last parent is always filled, and none is kept before two leaves are. */
  ghost predicate Trimmed(parents: seq<Option<Node>>) {
    parents != [] ==> parents[|parents| - 1].Some?
  }

  lemma {:induction false} CarryTrimmed(parents: seq<Option<Node>>, level: nat, carry: Node, combine: Combine)
    requires level <= |parents| && (Trimmed(parents) || level == |parents|)
    ensures Trimmed(Carry(parents, level, carry, combine))
    decreases |parents| - level
  {
    if level < |parents| && parents[level].Some? {
      CarryTrimmed(parents[level := None], level + 1, combine(level + 1, parents[level].value, carry), combine);
    }
  }

  /** The last leaves that are not yet in any parent. */
  function Tip(f: Frontier): seq<Node> {
    (if f.left.Some? then [f.left.value] else []) + (if f.right.Some? then [f.right.value] else [])
  }

  /** What a frontier of `leaves` is: its parents hold all but the last one or two, which it keeps as they are. */
  ghost predicate IsFrontierOf(f: Frontier, leaves: seq<Node>, combine: Combine) {
    && (f.right.Some? ==> f.left.Some?) && (leaves != [] ==> f.left.Some?)
    && |Tip(f)| <= |leaves|
    && Tip(f) == leaves[|leaves| - |Tip(f)|..]
    && Holds(f.parents, 0, leaves[..|leaves| - |Tip(f)|], combine)
    && Trimmed(f.parents)
  }

  lemma AppendKeeps(f: Frontier, leaves: seq<Node>, leaf: Node, combine: Combine)
    requires IsFrontierOf(f, leaves, combine)
    ensures IsFrontierOf(Append(f, leaf, combine), leaves + [leaf], combine)
  {
    hide Holds, Root, Carry;
    var all := leaves + [leaf];
    if f.left.None? {
      assert leaves == [] && all[..0] == leaves[..0] && all[0..] == [leaf];
    } else if f.right.None? {
      var n := |leaves| - 1;
      assert leaves[n..] == [f.left.value];
      assert all[..n] == leaves[..n] && all[n..] == [f.left.value, leaf];
    } else {
      var n := |leaves| - 2;
      var block := leaves[n..];
      assert block == [f.left.value, f.right.value];
      PairRoot(f.left.value, f.right.value, combine);
      CarryHolds(f.parents, 0, leaves[..n], block, combine);
      CarryTrimmed(f.parents, 0, combine(0, f.left.value, f.right.value), combine);
      assert all[|all| - 1..] == [leaf] && all[..|all| - 1] == leaves == leaves[..n] + block;
    }
  }

  lemma PairRoot(left: Node, right: Node, combine: Combine)
    ensures |[left, right]| == Pow2(1) && Root([left, right], 1, combine) == combine(0, left, right)
  {
    assert [left, right] == [left] + [right];
    RootOfTwo([left], [right], 0, combine);
  }

  /** The frontier after any appends holds exactly the leaves appended, in order. */
  lemma {:induction false} AppendAllKeeps(leaves: seq<Node>, combine: Combine)
    ensures IsFrontierOf(AppendAll(leaves, combine), leaves, combine)
  {
    hide Append, Carry;
    if leaves != [] {
      var n := |leaves| - 1;
      AppendAllKeeps(leaves[..n], combine);
      assert leaves == leaves[..n] + [leaves[n]];
      AppendKeeps(AppendAll(leaves[..n], combine), leaves[..n], leaves[n], combine);
    }
  }

  lemma {:induction false} HoldsCounts(parents: seq<Option<Node>>, level: nat, leaves: seq<Node>, combine: Combine)
    requires level <= |parents| && Holds(parents, level, leaves, combine)
    ensures |leaves| + ParentLeaves(parents[..level]) == ParentLeaves(parents)
    decreases |parents| - level
  {
    hide Root;
    if level == |parents| {
      assert parents[..level] == parents;
    } else {
      assert parents[..level + 1][..level] == parents[..level];
      HoldsCounts(parents, level + 1,
        if parents[level].None? then leaves else leaves[..|leaves| - Pow2(level + 1)], combine);
    }
  }

  lemma LevelsBound(f: Frontier, leaves: seq<Node>, combine: Combine)
    requires IsFrontierOf(f, leaves, combine) && |leaves| <= 0x1_0000_0000
    ensures |f.parents| <= MAX_LEVELS && LeafCount(f) == |leaves|
  {
    hide Holds;
    HoldsCounts(f.parents, 0, leaves[..|leaves| - |Tip(f)|], combine);
    assert f.parents[..0] == [];
    ThirtyTwoLevels();
    if |f.parents| > MAX_LEVELS {
      Pow2Monotone(32, |f.parents|);
    }
  }

  /** One leaf: present on the left, nothing on the right, no parents. */
  lemma OneLeafIs(leaf: Node, combine: Combine)
    ensures AppendAll([leaf], combine).parents == []
    ensures Encode(AppendAll([leaf], combine)) == [1] + leaf + [0, 0]
  {
    assert [leaf][..0] == [] && AppendAll([leaf], combine) == Frontier(Some(leaf), None, []);
  }

  /**
    For a frontier built from the empty tree by any number of appends that a 32-level tree can hold,
    the count of its serialization is the number of leaves appended, and both parsers accept it whole.
   */
  lemma CountIsLeaves(leaves: seq<Node>, combine: Combine)
    requires |leaves| <= 0x1_0000_0000
    ensures var f := AppendAll(leaves, combine);
      && |f.parents| <= MAX_LEVELS
      && Parsed(Encode(f)) == Some(f)
      && LeafCount(f) == |leaves|
  {
    hide IsFrontierOf, AppendAll, LeafCount, Parsed, Encode;
    var f := AppendAll(leaves, combine);
    AppendAllKeeps(leaves, combine);
    LevelsBound(f, leaves, combine);
    EncodedParses(f);
  }
}
