// Saving a flattened tree and loading it at another address.
module ModelStream {
  import opened BoxTree
  import opened FlatTree
  import opened NodeBytes

  // Machine words that hold addresses.
  const WORD64: nat := 0x1_0000_0000_0000_0000

  function Minus64(a: nat, b: nat): nat { (a - b) % WORD64 }

  function Plus64(a: nat, b: nat): nat { (a + b) % WORD64 }

  type Word32 = w: nat | w < WORD32

  // A word of four bytes at a position of the stream.
  function WordAt(s: Bytes, at: nat): nat
    requires at + 4 <= |s|
  {
    Decode(s[at..at + 4])
  }

  // Two format flags and the number of nodes come first, four bytes each.
  const HEADER: nat := 12

  predicate Headed(s: Bytes) { |s| >= HEADER }

  // A stream of the supported format.
  predicate Supported(s: Bytes)
    requires Headed(s)
  {
    WordAt(s, 0) != 0 && WordAt(s, 4) == 0
  }

  // The bytes its nodes take.
  function Size(s: Bytes): nat
    requires Headed(s)
  {
    NOLEAF_NODE_SIZE * WordAt(s, 8)
  }

  // The checksum of a piece of memory, whose length it takes as a word.
  type Checksum = Bytes -> Word32

  function Summed(crc: Checksum, image: Bytes): Word32 { crc(image[..|image| % WORD32]) }

  function Header(n: nat): Bytes { Encode(1, 4) + Encode(0, 4) + Encode(n, 4) }

  // A stream as it is saved, and one as it may be without a checksum.
  function Saved(image: Bytes, n: nat, crc: Checksum): Bytes {
    Header(n) + Encode(Summed(crc, image), 4) + image
  }

  function Unsummed(image: Bytes, n: nat): Bytes { Header(n) + image }

  // An address becomes an offset from the first node; a tagged primitive stays.
  function Relative(w: nat, base: nat): nat { if IsLeafWord(w) then w else Minus64(w, base) }

  function Absolute(w: nat, base: nat): nat { if IsLeafWord(w) then w else Plus64(w, base) }

  function RelativeNode(n: NoLeafNode, base: nat): NoLeafNode {
    NoLeafNode(n.box, Relative(n.data, base), Relative(n.data2, base))
  }

  function RelativeNodes(nodes: seq<NoLeafNode>, base: nat): (r: seq<NoLeafNode>)
    ensures |r| == |nodes|
  {
    seq(|nodes|, k requires 0 <= k < |nodes| => RelativeNode(nodes[k], base))
  }

  function AbsoluteNode(n: NoLeafNode, base: nat): NoLeafNode {
    NoLeafNode(n.box, Absolute(n.data, base), Absolute(n.data2, base))
  }

  // Copies the nodes and turns addresses into offsets, one node at a time.
  method Save(nodes: array<NoLeafNode>, base: nat, crc: Checksum, c: BoxCodec)
    returns (s: Bytes)
    requires nodes.Length < WORD32 && c.Sized()
    ensures s == Saved(Image(c, RelativeNodes(nodes[..], base)), nodes.Length, crc)
  {
    hide Relative, Image, Encode, Summed;
    s := Encode(1, 4);
    s := s + Encode(0, 4);
    s := s + Encode(nodes.Length, 4);
    var copy := new NoLeafNode[nodes.Length](i requires 0 <= i < nodes.Length reads nodes => nodes[i]);
    var i := 0;
    while i < copy.Length
      invariant 0 <= i <= copy.Length
      invariant forall k :: 0 <= k < i ==> copy[k] == RelativeNode(nodes[k], base)
      invariant forall k :: i <= k < copy.Length ==> copy[k] == nodes[k]
    {
      RelativeWord(copy[i].data, base);
      RelativeWord(copy[i].data2, base);
      if !IsLeafWord(copy[i].data) {
        copy[i] := copy[i].(data := Minus64(copy[i].data, base));
      }
      if !IsLeafWord(copy[i].data2) {
        copy[i] := copy[i].(data2 := Minus64(copy[i].data2, base));
      }
      i := i + 1;
    }
    assert copy[..] == RelativeNodes(nodes[..], base);
    var image := Image(c, copy[..]);
    s := s + Encode(Summed(crc, image), 4);
    s := s + image;
  }

  lemma RelativeWord(w: nat, base: nat)
    ensures Relative(w, base) == if IsLeafWord(w) then w else Minus64(w, base)
  {
  }

  lemma AbsoluteWord(w: nat, base: nat)
    ensures Absolute(w, base) == if IsLeafWord(w) then w else Plus64(w, base)
  {
  }

  // What loading comes to: a refusal, or reading on where the stream has ended.
  datatype Status = Loaded | Refused | PastEnd

  // Where the nodes begin, as the caller says whether a checksum comes first.
  function Start(readCrc: bool): nat { if readCrc then HEADER + 4 else HEADER }

  // The nodes of the stream are all there.
  predicate Whole(s: Bytes, readCrc: bool)
    requires Headed(s)
  {
    Start(readCrc) + Size(s) <= |s|
  }

  predicate Matches(s: Bytes, crc: Checksum)
    requires Headed(s) && Whole(s, true)
  {
    WordAt(s, HEADER) == Summed(crc, s[HEADER + 4..HEADER + 4 + Size(s)])
  }

  // The node count is compared with the bytes left before the checksum is read, and the checksum
  // with that of the nodes.
  method Load(s: Bytes, base: nat, crc: Checksum, skipCrc: bool, readCrc: bool, c: BoxCodec)
    returns (status: Status, nodes: array<NoLeafNode>)
    requires Headed(s)
    ensures status == Loaded <==> Supported(s) && Whole(s, readCrc) && (readCrc && !skipCrc ==> Matches(s, crc))
    ensures status == PastEnd <==> Supported(s) && HEADER + Size(s) <= |s| && !Whole(s, readCrc)
    ensures fresh(nodes)
    ensures status == Loaded ==>
              var data := NodesAt(c, s, Start(readCrc), WordAt(s, 8));
              nodes.Length == |data| && forall k :: 0 <= k < |data| ==> nodes[k] == AbsoluteNode(data[k], base)
  {
    hide Absolute, NodesAt, Decode, Summed;
    nodes := new NoLeafNode[0];
    var noLeaf, quantized, nodesNum := WordAt(s, 0), WordAt(s, 4), WordAt(s, 8);
    if !(noLeaf != 0 && quantized == 0) {
      return Refused, nodes;
    }
    var at, size := HEADER, NOLEAF_NODE_SIZE * nodesNum;
    if size > |s| - at {
      return Refused, nodes;
    }
    if readCrc {
      if at + 4 + size > |s| {
        return PastEnd, nodes;
      }
      var stored := WordAt(s, at);
      at := at + 4;
      var actualCrc := if skipCrc then stored else Summed(crc, s[at..at + size]);
      if stored != actualCrc {
        return Refused, nodes;
      }
    }
    var data := NodesAt(c, s, at, nodesNum);
    nodes := new NoLeafNode[nodesNum](i requires 0 <= i < nodesNum => data[i]);
    var i := 0;
    while i < nodesNum
      invariant 0 <= i <= nodesNum
      invariant forall k :: 0 <= k < i ==> nodes[k] == AbsoluteNode(data[k], base)
      invariant forall k :: i <= k < nodesNum ==> nodes[k] == data[k]
    {
      AbsoluteWord(nodes[i].data, base);
      AbsoluteWord(nodes[i].data2, base);
      if !IsLeafWord(nodes[i].data) {
        nodes[i] := nodes[i].(data := Plus64(nodes[i].data, base));
      }
      if !IsLeafWord(nodes[i].data2) {
        nodes[i] := nodes[i].(data2 := Plus64(nodes[i].data2, base));
      }
      i := i + 1;
    }
    status := Loaded;
  }

  // ---- streams with and without a checksum, whole and cut short

  lemma HeaderReads(n: nat, rest: Bytes)
    requires n < WORD32
    ensures var s := Header(n) + rest; Headed(s) && Supported(s) && WordAt(s, 8) == n
  {
    hide Encode, Decode, Power256;
    var s := Header(n) + rest;
    assert s[0..4] == Encode(1, 4) && s[4..8] == Encode(0, 4) && s[8..12] == Encode(n, 4);
    Widths();
    WordBytes(1, 4);
    WordBytes(0, 4);
    WordBytes(n, 4);
  }

  lemma SavedParts(image: Bytes, n: nat, crc: Checksum, after: Bytes)
    ensures var s, sum := Saved(image, n, crc) + after, Encode(Summed(crc, image), 4);
            && s == Header(n) + (sum + image + after) && s == (Header(n) + sum) + image + after
            && |s| == HEADER + 4 + |image| + |after|
            && s[HEADER..HEADER + 4] == sum && s[HEADER + 4..HEADER + 4 + |image|] == image
  {
    hide Encode, Summed;
    var sum := Encode(Summed(crc, image), 4);
    assert Header(n) + (sum + image + after) == (Header(n) + sum) + image + after;
  }

  lemma SavedMatches(image: Bytes, n: nat, crc: Checksum, after: Bytes)
    requires n < WORD32 && |image| == NOLEAF_NODE_SIZE * n
    ensures var s := Saved(image, n, crc) + after;
            Headed(s) && Supported(s) && WordAt(s, 8) == n && Whole(s, true) && Matches(s, crc)
  {
    hide Encode, Decode, Power256, Summed, Saved, Header, Supported;
    SavedParts(image, n, crc, after);
    HeaderReads(n, Encode(Summed(crc, image), 4) + image + after);
    Widths();
    WordBytes(Summed(crc, image), 4);
  }

  // A saved stream, whatever follows it, is whole, its checksum matches, and its nodes are found.
  lemma SavedReads(c: BoxCodec, nodes: seq<NoLeafNode>, crc: Checksum, after: Bytes)
    requires c.Sized() && |nodes| < WORD32 && forall k :: 0 <= k < |nodes| ==> Storable(c, nodes[k])
    ensures var s := Saved(Image(c, nodes), |nodes|, crc) + after;
            && Headed(s) && Supported(s) && Whole(s, true) && Matches(s, crc) && WordAt(s, 8) == |nodes|
            && NodesAt(c, s, Start(true), |nodes|) == nodes
  {
    hide Encode, Image, NodesAt, BoxCodec.Sized, Storable, Summed, Saved, Supported, WordAt, Matches;
    var image := Image(c, nodes);
    SavedMatches(image, |nodes|, crc, after);
    SavedParts(image, |nodes|, crc, after);
    ImageRoundTrip(c, Header(|nodes|) + Encode(Summed(crc, image), 4), nodes, after);
  }

  // A stream without a checksum holds the nodes for a caller who says so.
  lemma UnsummedReads(c: BoxCodec, nodes: seq<NoLeafNode>, after: Bytes)
    requires c.Sized() && |nodes| < WORD32 && forall k :: 0 <= k < |nodes| ==> Storable(c, nodes[k])
    ensures var s := Unsummed(Image(c, nodes), |nodes|) + after;
            && Headed(s) && Supported(s) && Whole(s, false) && WordAt(s, 8) == |nodes|
            && NodesAt(c, s, Start(false), |nodes|) == nodes
  {
    hide Encode, Decode, Image, NodesAt, BoxCodec.Sized, Storable;
    var image := Image(c, nodes);
    assert Unsummed(image, |nodes|) + after == Header(|nodes|) + (image + after);
    HeaderReads(|nodes|, image + after);
    ImageRoundTrip(c, Header(|nodes|), nodes, after);
  }

  // The checksum is that of all node bytes while their number fits a word; beyond that its length wraps
  // around and it covers only the first of them.
  lemma ChecksumCovers(s: Bytes, crc: Checksum)
    requires Headed(s) && Whole(s, true)
    ensures Size(s) < WORD32 ==>
              (Matches(s, crc) <==> WordAt(s, HEADER) == crc(s[HEADER + 4..HEADER + 4 + Size(s)]))
    ensures Matches(s, crc) <==> WordAt(s, HEADER) == crc(s[HEADER + 4..HEADER + 4 + Size(s) % WORD32])
  {
    hide Decode;
    var image := s[HEADER + 4..HEADER + 4 + Size(s)];
    assert image[..|image| % WORD32] == s[HEADER + 4..HEADER + 4 + Size(s) % WORD32];
  }

  // Other node bytes after the header and the checksum of a saved stream match just when they have the
  // same checksum.
  lemma ChangedMatches(image: Bytes, other: Bytes, n: nat, crc: Checksum)
    requires n < WORD32 && |image| == |other| == NOLEAF_NODE_SIZE * n < WORD32
    ensures var s := Saved(image, n, crc)[..HEADER + 4] + other;
            && Headed(s) && Supported(s) && Whole(s, true) && WordAt(s, 8) == n
            && (Matches(s, crc) <==> crc(other) == crc(image))
  {
    hide Encode, Decode, Power256, Supported;
    var sum := Encode(Summed(crc, image), 4);
    var s := Saved(image, n, crc)[..HEADER + 4] + other;
    assert s == Header(n) + (sum + other);
    HeaderReads(n, sum + other);
    assert s[HEADER..HEADER + 4] == sum && s[HEADER + 4..HEADER + 4 + |other|] == other;
    Widths();
    WordBytes(Summed(crc, image), 4);
    assert image[..|image|] == image && other[..|other|] == other;
    ChecksumCovers(s, crc);
  }

  // So a saved stream whose nodes were changed is refused whenever the checksum tells them apart, and
  // accepted otherwise.
  method LoadChanged(image: Bytes, other: Bytes, n: nat, base: nat, crc: Checksum, c: BoxCodec)
    returns (status: Status)
    requires n < WORD32 && |image| == |other| == NOLEAF_NODE_SIZE * n < WORD32
    ensures status == if crc(other) == crc(image) then Loaded else Refused
  {
    hide NodesAt, Supported, Matches, WordAt, Size, Encode;
    ChangedMatches(image, other, n, crc);
    ghost var nodes;
    status, nodes := Load(Saved(image, n, crc)[..HEADER + 4] + other, base, crc, false, true, c);
  }

  // A saved stream cut short is refused, unless only bytes of the checksum's size are missing: then
  // the comparison of sizes passes and the nodes are read past the end.
  lemma CutShort(image: Bytes, n: nat, crc: Checksum, k: nat)
    requires n < WORD32 && |image| == NOLEAF_NODE_SIZE * n && HEADER <= k < |Saved(image, n, crc)|
    ensures var s := Saved(image, n, crc)[..k];
            && Headed(s) && Supported(s) && !Whole(s, true)
            && (HEADER + Size(s) <= |s| <==> k + 4 >= |Saved(image, n, crc)|)
  {
    hide Encode, Decode, Summed;
    var rest := Encode(Summed(crc, image), 4) + image;
    assert Saved(image, n, crc)[..k] == Header(n) + rest[..k - HEADER];
    HeaderReads(n, rest[..k - HEADER]);
  }

  // Reading a saved stream as one without a checksum succeeds, and takes the checksum for the first
  // bytes of the nodes: they are those that were saved if and only if these repeat the checksum.
  lemma ReadEarly(image: Bytes, n: nat, crc: Checksum)
    requires n < WORD32 && |image| == NOLEAF_NODE_SIZE * n
    ensures var s := Saved(image, n, crc);
            && Headed(s) && Supported(s) && Whole(s, false) && Size(s) == |image|
            && (s[HEADER..HEADER + Size(s)] == image <==>
                forall i :: 0 <= i < |image| ==> image[i] == Encode(Summed(crc, image), 4)[i % 4])
  {
    hide Encode, Decode, Summed;
    var sum := Encode(Summed(crc, image), 4);
    var s := Saved(image, n, crc);
    assert s == Header(n) + (sum + image);
    HeaderReads(n, sum + image);
    assert s[HEADER..HEADER + |image|] == (sum + image)[..|image|];
    Repeats(sum, image);
  }

  lemma Repeats(sum: Bytes, image: Bytes)
    requires |sum| == 4
    ensures (sum + image)[..|image|] == image <==> forall i :: 0 <= i < |image| ==> image[i] == sum[i % 4]
  {
    if (sum + image)[..|image|] == image {
      forall i | 0 <= i < |image| ensures image[i] == sum[i % 4] {
        RepeatsAt(sum, image, i);
      }
    } else if forall i :: 0 <= i < |image| ==> image[i] == sum[i % 4] {
      forall i | 0 <= i < |image| ensures (sum + image)[i] == image[i] {
        assert i >= 4 ==> image[i - 4] == sum[(i - 4) % 4] && (i - 4) % 4 == i % 4;
      }
      assert false;
    }
  }

  lemma {:induction false} RepeatsAt(sum: Bytes, image: Bytes, i: nat)
    requires |sum| == 4 && (sum + image)[..|image|] == image && i < |image|
    ensures image[i] == sum[i % 4]
    decreases i
  {
    assert image[i] == (sum + image)[i];
    if i >= 4 {
      RepeatsAt(sum, image, i - 4);
      assert (i - 4) % 4 == i % 4;
    }
  }

  // ---- the round trip

  // An offset from an even address is even, so it is never taken for a leaf, nor is a leaf changed.
  lemma WordRoundTrip(w: nat, base: nat, newBase: nat)
    requires w < WORD64 && base < WORD64 && base % 2 == 0
    ensures IsLeafWord(Relative(w, base)) == IsLeafWord(w)
    ensures IsLeafWord(w) ==> Absolute(Relative(w, base), newBase) == w
    ensures !IsLeafWord(w) ==> Absolute(Relative(w, base), newBase) == (w - base + newBase) % WORD64
  {
    if !IsLeafWord(w) {
      assert Relative(w, base) == if w >= base then w - base else w - base + WORD64;
    }
  }

  // What is saved for an address is how far it lies behind the first node.
  lemma RelativeIsOffset(base: nat, k: nat)
    requires base % 2 == 0 && base + k * NOLEAF_NODE_SIZE < WORD64
    ensures Relative(base + k * NOLEAF_NODE_SIZE, base) == k * NOLEAF_NODE_SIZE
    ensures Absolute(k * NOLEAF_NODE_SIZE, base) == base + k * NOLEAF_NODE_SIZE
  {
  }

  ghost predicate Moves(nodes: seq<NoLeafNode>, base: nat, nodes': seq<NoLeafNode>, base': nat) {
    && |nodes| == |nodes'|
    && forall k :: 0 <= k < |nodes| ==> nodes'[k] == AbsoluteNode(RelativeNode(nodes[k], base), base')
  }

  // The array and both places it may lie fit the address space, at even addresses.
  ghost predicate Placeable(n: nat, base: nat, base': nat) {
    && base % 2 == 0 && base' % 2 == 0
    && base + n * NOLEAF_NODE_SIZE <= WORD64 && base' + n * NOLEAF_NODE_SIZE <= WORD64
  }

  lemma PointerMoves(ptr: nat, n: nat, base: nat, base': nat)
    requires Placeable(n, base, base')
    requires ptr >= base && (ptr - base) % NOLEAF_NODE_SIZE == 0 && (ptr - base) / NOLEAF_NODE_SIZE < n
    requires !IsLeafWord(ptr)
    ensures Absolute(Relative(ptr, base), base') == ptr - base + base'
    ensures !IsLeafWord(ptr - base + base')
  {
    var k := (ptr - base) / NOLEAF_NODE_SIZE;
    assert ptr - base == k * NOLEAF_NODE_SIZE;
    WordRoundTrip(ptr, base, base');
  }

  // Following the words from any node finds the same tree before and after.
  lemma {:induction false} MovedHolds(nodes: seq<NoLeafNode>, base: nat, nodes': seq<NoLeafNode>, base': nat,
                                      ptr: nat, t: Tree)
    requires Placeable(|nodes|, base, base') && Moves(nodes, base, nodes', base')
    requires NoLeafFlat(nodes, base).Holds(ptr, t)
    ensures NoLeafFlat(nodes', base').Holds(ptr - base + base', t)
    decreases t, 0
  {
    hide Absolute, Relative;
    var n := NoLeafFlat(nodes, base).At(ptr);
    MovedChildHolds(nodes, base, nodes', base', n.data, t.pos);
    MovedChildHolds(nodes, base, nodes', base', n.data2, t.neg);
  }

  lemma {:induction false} MovedChildHolds(nodes: seq<NoLeafNode>, base: nat, nodes': seq<NoLeafNode>, base': nat,
                                           word: nat, t: Tree)
    requires Placeable(|nodes|, base, base') && Moves(nodes, base, nodes', base')
    requires NoLeafFlat(nodes, base).HoldsChild(word, t)
    ensures NoLeafFlat(nodes', base').HoldsChild(Absolute(Relative(word, base), base'), t)
    decreases t, 1
  {
    if t.Leaf? {
      assert Absolute(Relative(word, base), base') == word;
    } else {
      PointerMoves(word, |nodes|, base, base');
      MovedHolds(nodes, base, nodes', base', word, t);
    }
  }

  // The nodes are words and floats, and relative ones are too.
  lemma RelativeStorable(c: BoxCodec, n: NoLeafNode, base: nat)
    requires Storable(c, n)
    ensures Storable(c, RelativeNode(n, base))
  {
  }

  // Saved from one address and loaded at another, the array holds the same tree.
  method SaveThenLoad(nodes: array<NoLeafNode>, base: nat, base': nat, crc: Checksum, c: BoxCodec, ghost t: Tree)
    returns (status: Status, loaded: array<NoLeafNode>)
    requires nodes.Length < WORD32 && c.Sized()
    requires forall k :: 0 <= k < nodes.Length ==> Storable(c, nodes[k])
    requires Placeable(nodes.Length, base, base') && NoLeafFlat(nodes[..], base).Holds(base, t)
    ensures status == Loaded && NoLeafFlat(loaded[..], base').Holds(base', t)
  {
    hide RelativeNode, AbsoluteNode, NoLeafFlat.Holds, NodesAt, Image, Saved, Storable, Supported, Whole, Matches;
    var s := Save(nodes, base, crc, c);
    ghost var written := RelativeNodes(nodes[..], base);
    forall k | 0 <= k < nodes.Length ensures Storable(c, written[k]) {
      RelativeStorable(c, nodes[k], base);
    }
    SavedReads(c, written, crc, []);
    assert s + [] == s;
    status, loaded := Load(s, base', crc, false, true, c);
    assert Moves(nodes[..], base, loaded[..], base');
    MovedHolds(nodes[..], base, loaded[..], base', base, t);
  }
}
