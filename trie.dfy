/** The lookup decoder and the node traversal engine.

    A node is a 7-byte header `{u32 lookupListPosition, u16 deviceIndex,
    u8 numberOfChildren}` in the node-tree segment, followed by
    `numberOfChildren` 32-bit child offsets relative to the root (offset 0).
    A lookup record `{u8 lowest, u8 highest, u8 table[]}` in the lookup-list
    segment maps one input byte to a child index, or to the sentinel 255.
    The input string is consumed one byte at a time; past its end the NUL
    terminator is read as byte 0. */
module Trie {
  import opened Bytes
  import opened DataFile

  const NodeSizeBytes: nat := 7
  const ByteMax: byte := 255

  /** The record at `position` is inside the lookup-list segment: its two
      header bytes and, when `lowest <= highest`, its whole table. */
  predicate LookupFits(lookupList: seq<byte>, position: nat) {
    && position + 2 <= |lookupList|
    && (lookupList[position] <= lookupList[position + 1] ==>
          position + 3 + (lookupList[position + 1] - lookupList[position]) as nat <= |lookupList|)
  }

  /** `getChildIndex`: the child index for `value` from the lookup record at
      `position`, or 255 when `value` is outside `[lowest, highest]`;
      otherwise the table entry for `value`. */
  function ChildIndex(lookupList: seq<byte>, value: byte, position: nat): (childIndex: byte)
    requires LookupFits(lookupList, position)
    ensures value < lookupList[position] || lookupList[position + 1] < value ==> childIndex == ByteMax
    ensures lookupList[position] <= value <= lookupList[position + 1] ==>
      childIndex == lookupList[position + 2 + (value as int - lookupList[position] as int)]
  {
    var lowest, highest := lookupList[position], lookupList[position + 1];
    if value < lowest || value > highest then ByteMax
    else lookupList[position + 2 + (value as int - lowest as int)]
  }

  /** A lookup record as it is stored: `lowest`, `highest`, then the table. */
  function LookupRecord(lowest: byte, table: seq<byte>): (r: seq<byte>)
    requires 0 < |table| && lowest as int + |table| <= 256
    ensures |r| == 2 + |table|
  {
    [lowest, (lowest as int + |table| - 1) as byte] + table
  }

  /** Decoding a record written by `LookupRecord`, wherever it sits in the
      lookup list, maps each byte in range to its table entry and every
      other byte to 255. */
  lemma LookupRoundTrip(before: seq<byte>, lowest: byte, table: seq<byte>, after: seq<byte>, value: byte)
    requires 0 < |table| && lowest as int + |table| <= 256
    ensures LookupFits(before + LookupRecord(lowest, table) + after, |before|)
    ensures ChildIndex(before + LookupRecord(lowest, table) + after, value, |before|) ==
              if lowest <= value && (value as int) < lowest as int + |table|
              then table[value as int - lowest as int] else ByteMax
  {
    var list := before + LookupRecord(lowest, table) + after;
    var p := |before|;
    assert list[p] == lowest && list[p + 1] as int == lowest as int + |table| - 1;
    if lowest <= value && (value as int) < lowest as int + |table| {
      assert list[p + 2 + (value as int - lowest as int)] == table[value as int - lowest as int];
    }
  }

  /** The node header at `node` and its child offsets are inside the tree. */
  predicate NodeFits(tree: seq<byte>, node: nat) {
    node + NodeSizeBytes <= |tree| && node + NodeSizeBytes + 4 * tree[node + 6] as nat <= |tree|
  }

  function LookupListPosition(tree: seq<byte>, node: nat): nat
    requires node + NodeSizeBytes <= |tree|
  {
    U32At(tree, node)
  }

  function DeviceIndexOf(tree: seq<byte>, node: nat): nat
    requires node + NodeSizeBytes <= |tree|
  {
    U16At(tree, node + 4)
  }

  function NumberOfChildren(tree: seq<byte>, node: nat): byte
    requires node + NodeSizeBytes <= |tree|
  {
    tree[node + 6]
  }

  /** `getNextNode`: the offset, relative to the root, stored in the child
      slot `childIndex` after the node's header. */
  function NextNode(tree: seq<byte>, node: nat, childIndex: nat): (next: nat)
    requires NodeFits(tree, node) && childIndex < NumberOfChildren(tree, node) as nat
    ensures next < 0x1_0000_0000
  {
    U32At(tree, node + NodeSizeBytes + 4 * childIndex)
  }

  /** The offset `NextNode` gives is exactly the one stored, little-endian,
      in child slot `childIndex`. */
  lemma NextNodeStored(tree: seq<byte>, node: nat, childIndex: nat)
    requires NodeFits(tree, node) && childIndex < NumberOfChildren(tree, node) as nat
    ensures var slot := node + NodeSizeBytes + 4 * childIndex;
      U32Bytes(NextNode(tree, node, childIndex)) == tree[slot..slot + 4]
  {
    U32BytesAt(tree, node + NodeSizeBytes + 4 * childIndex);
  }

  /** Device `device` has a whole row of the devices matrix. */
  predicate RowFits(ds: Dataset, device: nat) {
    device * PropertiesCount(ds) + PropertiesCount(ds) <= |ds.devices| / 4
  }

  /** One node read on its own: header, children and lookup record inside
      their segments, its device's row inside the devices matrix, and the
      NUL terminator (byte 0) never selecting a child. */
  predicate NodeOk(ds: Dataset, node: nat) {
    && NodeFits(ds.tree, node)
    && LookupFits(ds.lookupList, LookupListPosition(ds.tree, node))
    && RowFits(ds, DeviceIndexOf(ds.tree, node))
    && ChildIndex(ds.lookupList, Nul, LookupListPosition(ds.tree, node)) >= NumberOfChildren(ds.tree, node)
  }

  /** `node` and every node reachable from it in at most `depth` steps are Ok. */
  predicate ValidNode(ds: Dataset, node: nat, depth: nat)
    decreases depth
  {
    && NodeOk(ds, node)
    && (depth > 0 ==>
          forall i :: 0 <= i < NumberOfChildren(ds.tree, node) as nat ==>
            ValidNode(ds, NextNode(ds.tree, node, i), depth - 1))
  }

  /** Every node reachable from the root is Ok. */
  ghost predicate TreeWellFormed(ds: Dataset) {
    forall depth: nat :: ValidNode(ds, 0, depth)
  }

  /** The byte the C code reads at the front of the remaining input. */
  function Head(userAgent: seq<byte>): byte {
    if |userAgent| == 0 then Nul else userAgent[0]
  }

  /** `getChildDevice`: the device index reached from `node` by the remaining
      input `userAgent`. The node's own device is the answer as soon as the
      next byte selects no child; reading the NUL terminator always stops. */
  function ChildDevice(ds: Dataset, userAgent: seq<byte>, node: nat): (device: nat)
    requires ValidNode(ds, node, |userAgent|)
    ensures RowFits(ds, device)
    decreases |userAgent|
  {
    var childIndex := ChildIndex(ds.lookupList, Head(userAgent), LookupListPosition(ds.tree, node));
    if childIndex >= NumberOfChildren(ds.tree, node) then DeviceIndexOf(ds.tree, node)
    else ChildDevice(ds, userAgent[1..], NextNode(ds.tree, node, childIndex as nat))
  }

  /** The device index matched by a whole user agent, from the root. */
  function DeviceIndex(ds: Dataset, userAgent: seq<byte>): (device: nat)
    requires TreeWellFormed(ds)
    ensures RowFits(ds, device)
  {
    assert ValidNode(ds, 0, |userAgent|);
    ChildDevice(ds, userAgent, 0)
  }

  /** The lookup sentinel 255 always falls back to the node's own device:
      no node has more than 255 children. */
  lemma SentinelFallsBack(ds: Dataset, userAgent: seq<byte>, node: nat)
    requires ValidNode(ds, node, |userAgent|)
    requires ChildIndex(ds.lookupList, Head(userAgent), LookupListPosition(ds.tree, node)) == ByteMax
    ensures ChildDevice(ds, userAgent, node) == DeviceIndexOf(ds.tree, node)
  {
  }

  /** At the end of the input the NUL terminator is read, and the match is
      the current node's device. */
  lemma EndOfInputStops(ds: Dataset, node: nat)
    requires ValidNode(ds, node, 0)
    ensures ChildDevice(ds, [], node) == DeviceIndexOf(ds.tree, node)
  {
  }

  /** The node reached from `node` after every byte of `path` selected a
      child, or None when some byte selected none. */
  function Walk(ds: Dataset, path: seq<byte>, node: nat): (reached: Option<nat>)
    requires ValidNode(ds, node, |path|)
    ensures reached.Some? ==> NodeOk(ds, reached.value)
    decreases |path|
  {
    if path == [] then Some(node)
    else
      var childIndex := ChildIndex(ds.lookupList, path[0], LookupListPosition(ds.tree, node));
      if childIndex >= NumberOfChildren(ds.tree, node) then None
      else Walk(ds, path[1..], NextNode(ds.tree, node, childIndex as nat))
  }

  lemma {:induction false} ValidNodeShallower(ds: Dataset, node: nat, depth: nat, shallower: nat)
    requires ValidNode(ds, node, depth) && shallower <= depth
    ensures ValidNode(ds, node, shallower)
    decreases depth
  {
    if shallower > 0 {
      forall i | 0 <= i < NumberOfChildren(ds.tree, node) as nat
        ensures ValidNode(ds, NextNode(ds.tree, node, i), shallower - 1)
      {
        ValidNodeShallower(ds, NextNode(ds.tree, node, i), depth - 1, shallower - 1);
      }
    }
  }

  /** Traversal composes along the trie: once a prefix `path` has been
      matched to node `reached`, the rest of the input is matched from
      `reached` exactly as if it were the whole input. */
  lemma {:induction false} TraversalComposes(ds: Dataset, path: seq<byte>, rest: seq<byte>, node: nat, reached: nat)
    requires ValidNode(ds, node, |path| + |rest|)
    requires ValidNode(ds, node, |path|) && Walk(ds, path, node) == Some(reached)
    ensures ValidNode(ds, reached, |rest|)
    ensures ChildDevice(ds, path + rest, node) == ChildDevice(ds, rest, reached)
    decreases |path|
  {
    if path == [] {
      assert path + rest == rest;
    } else {
      var input := path + rest;
      var position := LookupListPosition(ds.tree, node);
      assert Head(input) == path[0];
      var childIndex := ChildIndex(ds.lookupList, path[0], position);
      var child := NextNode(ds.tree, node, childIndex as nat);
      assert input[1..] == path[1..] + rest;
      ValidNodeShallower(ds, child, |path| + |rest| - 1, |path| - 1);
      TraversalComposes(ds, path[1..], rest, child, reached);
    }
  }

  /** A user agent matched byte for byte down to node `reached` resolves to
      that node's device: the end of the input is not an error but yields
      the best match so far. */
  lemma WholeInputMatched(ds: Dataset, userAgent: seq<byte>, reached: nat)
    requires TreeWellFormed(ds)
    requires ValidNode(ds, 0, |userAgent|) && Walk(ds, userAgent, 0) == Some(reached)
    ensures DeviceIndex(ds, userAgent) == DeviceIndexOf(ds.tree, reached)
  {
    assert ValidNode(ds, 0, |userAgent| + 0);
    TraversalComposes(ds, userAgent, [], 0, reached);
    assert userAgent + [] == userAgent;
  }

  /** Once a byte selects no child at the node reached so far, the match is
      that node's device, whatever follows: bytes after the first unmatched
      one are never examined. */
  lemma UnmatchedByteStops(ds: Dataset, path: seq<byte>, unmatched: byte, rest: seq<byte>, reached: nat)
    requires TreeWellFormed(ds)
    requires ValidNode(ds, 0, |path|) && Walk(ds, path, 0) == Some(reached)
    requires ChildIndex(ds.lookupList, unmatched, LookupListPosition(ds.tree, reached)) >= NumberOfChildren(ds.tree, reached)
    ensures DeviceIndex(ds, path + [unmatched] + rest) == DeviceIndexOf(ds.tree, reached)
  {
    var tail := [unmatched] + rest;
    assert ValidNode(ds, 0, |path| + |tail|);
    TraversalComposes(ds, path, tail, 0, reached);
    assert path + [unmatched] + rest == path + tail;
    assert Head(tail) == unmatched;
  }

  /** A minimal crafted dataset: one property; two devices; a root whose
      lookup record maps 'a' (97) to child 0 and whose own device is 0; that
      child, with no children of its own, has device 1. */
  function Crafted(): Dataset {
    Dataset(
      copyright := [],
      strings := [0],
      properties := [0, 0, 0, 0],
      devices := [0, 0, 0, 0, 0, 0, 0, 0],
      lookupList := [97, 97, 0],
      tree := [0, 0, 0, 0, 0, 0, 1, 11, 0, 0, 0] + [0, 0, 0, 0, 1, 0, 0])
  }

  lemma CraftedWellFormed()
    ensures TreeWellFormed(Crafted())
  {
    var ds := Crafted();
    assert NextNode(ds.tree, 0, 0) == 11;
    forall depth: nat ensures ValidNode(ds, 0, depth) {
      assert ValidNode(ds, 11, 0);
      if depth > 0 {
        assert ValidNode(ds, 11, depth - 1);
      }
    }
  }

  /** "apple" follows 'a' to the child and stops there (device 1); "xyz"
      matches nothing at the root and falls back to the root's device 0. */
  lemma CraftedMatches()
    ensures TreeWellFormed(Crafted())
    ensures DeviceIndex(Crafted(), [97, 112, 112, 108, 101]) == 1
    ensures DeviceIndex(Crafted(), [120, 121, 122]) == 0
  {
    CraftedWellFormed();
    var ds := Crafted();
    var apple: seq<byte> := [97, 112, 112, 108, 101];
    assert Walk(ds, [97], 0) == Some(11);
    UnmatchedByteStops(ds, [97], 112, apple[2..], 11);
    assert [97] + [112 as byte] + apple[2..] == apple;
    UnmatchedByteStops(ds, [], 120, [121, 122], 0);
    assert [] + [120 as byte] + [121, 122] == [120, 121, 122];
  }
}
