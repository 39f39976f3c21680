// Words and nodes as the bytes they are saved in.
module NodeBytes {
  import opened Geometry
  import opened FlatTree

  type Byte = b: nat | b < 256

  type Bytes = seq<Byte>

  function Power256(width: nat): nat { if width == 0 then 1 else 256 * Power256(width - 1) }

  // The lowest byte first.
  function Encode(n: nat, width: nat): (r: Bytes)
    ensures |r| == width
    decreases width
  {
    if width == 0 then [] else [n % 256] + Encode(n / 256, width - 1)
  }

  function Decode(s: Bytes): nat { if s == [] then 0 else s[0] + 256 * Decode(s[1..]) }

  // A word comes back reduced to its width.
  lemma {:induction false} WordBytes(n: nat, width: nat)
    ensures Power256(width) > 0 && Decode(Encode(n, width)) == n % Power256(width)
    decreases width
  {
    if width > 0 {
      WordBytes(n / 256, width - 1);
      assert Encode(n, width)[1..] == Encode(n / 256, width - 1);
      HighAndLow(n, Power256(width - 1));
    }
  }

  // Byte i holds the bits from 8 i on.
  lemma {:induction false} ByteOfWord(n: nat, width: nat, i: nat)
    requires i < width
    ensures Power256(i) > 0 && Encode(n, width)[i] == (n / Power256(i)) % 256
    decreases width
  {
    if i > 0 {
      ByteOfWord(n / 256, width - 1, i - 1);
      QuotientOfQuotient(n, Power256(i - 1));
    }
  }

  lemma QuotientOfQuotient(n: nat, k: nat)
    requires k > 0
    ensures (n / 256) / k == n / (256 * k)
  {
    var h, low := n / 256, n % 256;
    var q, r := h / k, h % k;
    assert n == (256 * k) * q + (low + 256 * r) by {
      assert h == k * q + r;
      assert n == 256 * h + low;
      Associates(k, q);
    }
    OnlyQuotient(n, 256 * k, q, low + 256 * r);
  }

  lemma OnlyQuotient(n: nat, d: nat, q: nat, r: nat)
    requires n == d * q + r && r < d
    ensures n / d == q
  {
    var q', r' := n / d, n % d;
    assert d * (q - q') == r' - r;
    if q > q' {
      Multiples(d, q - q');
    } else if q < q' {
      Multiples(d, q' - q);
    }
  }

  lemma HighAndLow(n: nat, k: nat)
    requires k > 0
    ensures n % 256 + 256 * ((n / 256) % k) == n % (256 * k)
  {
    var h, low := n / 256, n % 256;
    var q, r := h / k, h % k;
    assert n == (256 * k) * q + (low + 256 * r) by {
      assert h == k * q + r;
      assert n == 256 * h + low;
      Associates(k, q);
    }
    OnlyRemainder(n, 256 * k, q, low + 256 * r);
  }

  lemma Associates(k: nat, q: nat)
    ensures 256 * (k * q) == (256 * k) * q
  {
  }

  lemma OnlyRemainder(n: nat, d: nat, q: nat, r: nat)
    requires n == d * q + r && r < d
    ensures n % d == r
  {
    var q', r' := n / d, n % d;
    assert d * (q - q') == r' - r;
    if q > q' {
      Multiples(d, q - q');
    } else if q < q' {
      Multiples(d, q' - q);
    }
  }

  lemma Multiples(d: nat, k: nat)
    requires k >= 1
    ensures d * k >= d
  {
  }

  lemma Widths()
    ensures Power256(4) == WORD32 && Power256(8) == 0x1_0000_0000_0000_0000
  {
    assert Power256(1) == 256 && Power256(2) == 65536 && Power256(3) == 256 * 65536;
    assert Power256(5) == 256 * WORD32 && Power256(6) == 65536 * WORD32;
  }

  // Six floats for a box.
  const BOX_SIZE: nat := 24

  // How a box of floats lies in memory.
  datatype BoxCodec = BoxCodec(encode: Box -> Bytes, decode: Bytes -> Box) {
    ghost predicate Sized() { forall b: Box :: |encode(b)| == BOX_SIZE }
  }

  function NodeImage(c: BoxCodec, n: NoLeafNode): (r: Bytes)
    requires c.Sized()
    ensures |r| == NOLEAF_NODE_SIZE
  {
    c.encode(n.box) + Encode(n.data, 8) + Encode(n.data2, 8)
  }

  function NodeOf(c: BoxCodec, s: Bytes): NoLeafNode
    requires |s| == NOLEAF_NODE_SIZE
  {
    NoLeafNode(c.decode(s[..BOX_SIZE]), Decode(s[BOX_SIZE..BOX_SIZE + 8]), Decode(s[BOX_SIZE + 8..]))
  }

  // A node whose box is made of floats and whose words are machine words.
  ghost predicate Storable(c: BoxCodec, n: NoLeafNode) {
    && c.decode(c.encode(n.box)) == n.box
    && n.data < 0x1_0000_0000_0000_0000 && n.data2 < 0x1_0000_0000_0000_0000
  }

  lemma {:induction false} ImageAt(c: BoxCodec, nodes: seq<NoLeafNode>, k: nat)
    requires c.Sized() && k < |nodes|
    ensures var s, at := Image(c, nodes), NOLEAF_NODE_SIZE * k;
            at + NOLEAF_NODE_SIZE <= |s| && s[at..at + NOLEAF_NODE_SIZE] == NodeImage(c, nodes[k])
    decreases k
  {
    hide NodeImage, Image, BoxCodec.Sized;
    ImageUnfolds(c, nodes);
    var first, rest := NodeImage(c, nodes[0]), Image(c, nodes[1..]);
    if k > 0 {
      ImageAt(c, nodes[1..], k - 1);
      SliceAfter(first, rest, NOLEAF_NODE_SIZE * (k - 1), NOLEAF_NODE_SIZE * k);
    } else {
      assert (first + rest)[0..NOLEAF_NODE_SIZE] == first;
    }
  }

  lemma SliceAfter(a: Bytes, b: Bytes, i: nat, j: nat)
    requires i <= j <= |b|
    ensures (a + b)[|a| + i..|a| + j] == b[i..j]
  {
  }

  // Node k of an image lies at its place: its box first, then the words of its children.
  lemma NodeInImage(c: BoxCodec, nodes: seq<NoLeafNode>, k: nat)
    requires c.Sized() && k < |nodes|
    ensures var s, at := Image(c, nodes), NOLEAF_NODE_SIZE * k;
            && at + NOLEAF_NODE_SIZE <= |s|
            && s[at..at + NOLEAF_NODE_SIZE] ==
               c.encode(nodes[k].box) + Encode(nodes[k].data, 8) + Encode(nodes[k].data2, 8)
  {
    ImageAt(c, nodes, k);
    hide Image, Encode;
  }

  lemma NodeRoundTrip(c: BoxCodec, n: NoLeafNode)
    requires c.Sized() && Storable(c, n)
    ensures NodeOf(c, NodeImage(c, n)) == n
  {
    hide Encode, Decode, Power256;
    var s := NodeImage(c, n);
    assert s[..BOX_SIZE] == c.encode(n.box);
    assert s[BOX_SIZE..BOX_SIZE + 8] == Encode(n.data, 8);
    assert s[BOX_SIZE + 8..] == Encode(n.data2, 8);
    Widths();
    WordBytes(n.data, 8);
    WordBytes(n.data2, 8);
  }

  // The nodes one after the other, as the array lies in memory.
  function Image(c: BoxCodec, nodes: seq<NoLeafNode>): (r: Bytes)
    requires c.Sized()
    ensures |r| == NOLEAF_NODE_SIZE * |nodes|
  {
    if nodes == [] then [] else NodeImage(c, nodes[0]) + Image(c, nodes[1..])
  }

  // The nodes found from a position on.
  function NodesAt(c: BoxCodec, s: Bytes, at: nat, n: nat): (r: seq<NoLeafNode>)
    requires at + NOLEAF_NODE_SIZE * n <= |s|
    ensures |r| == n
    decreases n
  {
    if n == 0 then []
    else
      [NodeOf(c, s[at..at + NOLEAF_NODE_SIZE])] + NodesAt(c, s, at + NOLEAF_NODE_SIZE, n - 1)
  }

  // Nodes written somewhere among other bytes are found there.
  lemma {:induction false} ImageRoundTrip(c: BoxCodec, before: Bytes, nodes: seq<NoLeafNode>, after: Bytes)
    requires c.Sized() && forall k :: 0 <= k < |nodes| ==> Storable(c, nodes[k])
    ensures NodesAt(c, before + Image(c, nodes) + after, |before|, |nodes|) == nodes
    decreases |nodes|
  {
    hide NodeImage, NodeOf, Storable, BoxCodec.Sized, Image, NodesAt;
    ImageUnfolds(c, nodes);
    NodesUnfold(c, before + Image(c, nodes) + after, |before|, |nodes|);
    if nodes != [] {
      var first, rest := NodeImage(c, nodes[0]), Image(c, nodes[1..]);
      Regions(before, first, rest, after);
      NodeRoundTrip(c, nodes[0]);
      ImageRoundTrip(c, before + first, nodes[1..], after);
    }
  }

  lemma ImageUnfolds(c: BoxCodec, nodes: seq<NoLeafNode>)
    requires c.Sized()
    ensures Image(c, nodes) == if nodes == [] then [] else NodeImage(c, nodes[0]) + Image(c, nodes[1..])
  {
  }

  lemma NodesUnfold(c: BoxCodec, s: Bytes, at: nat, n: nat)
    requires at + NOLEAF_NODE_SIZE * n <= |s|
    ensures NodesAt(c, s, at, n) ==
            if n == 0 then []
            else [NodeOf(c, s[at..at + NOLEAF_NODE_SIZE])] + NodesAt(c, s, at + NOLEAF_NODE_SIZE, n - 1)
  {
  }

  lemma Regions(before: Bytes, first: Bytes, rest: Bytes, after: Bytes)
    ensures before + (first + rest) + after == (before + first) + rest + after
    ensures (before + (first + rest) + after)[|before|..|before| + |first|] == first
  {
    assert before + (first + rest) + after == before + first + (rest + after);
  }
}
