/**
 How an ext2 inode addresses its blocks: twelve direct pointers and index trees of depth one,
 two and three, whose leaves in order are the blocks of the file.
*/
module Ext2Tree {
  import opened Arith

  type byte = x: int | 0 <= x < 256
  type Block = seq<byte>
  type Disk = map<nat, Block>

  const DIRECT: nat := 12

  datatype Inode = Inode(size: nat, blocksCount: nat, direct: seq<nat>, indirect: nat, doubly: nat, trebly: nat)

  // The k-th 32-bit little-endian word of a block.
  function Word(b: Block, k: nat): nat
    requires 4 * k + 3 < |b|
  {
    b[4 * k] as int + 0x100 * b[4 * k + 1] as int + 0x1_0000 * b[4 * k + 2] as int + 0x100_0000 * b[4 * k + 3] as int
  }

  function Pow(p: nat, d: nat): nat {
    if d == 0 then 1 else p * Pow(p, d - 1)
  }

  // v stands at word k of a block, least significant byte first.
  ghost predicate Stores(b: Block, k: nat, v: nat) {
    4 * k + 3 < |b| && v < Pow(256, 4) && forall j :: 0 <= j < 4 ==> b[4 * k + j] == v / Pow(256, j) % 256
  }

  lemma Bytes4()
    ensures Pow(256, 0) == 1 && Pow(256, 1) == 0x100 && Pow(256, 2) == 0x1_0000 && Pow(256, 3) == 0x100_0000
    ensures Pow(256, 4) == 0x1_0000_0000
  {
    assert Pow(256, 1) == 256 * Pow(256, 0);
    assert Pow(256, 2) == 256 * Pow(256, 1);
    assert Pow(256, 3) == 256 * Pow(256, 2);
    assert Pow(256, 4) == 256 * Pow(256, 3);
  }

  lemma Digits4(v: nat)
    requires v < 0x1_0000_0000
    ensures v == v % 256 + 0x100 * (v / 0x100 % 256) + 0x1_0000 * (v / 0x1_0000 % 256) +
                 0x100_0000 * (v / 0x100_0000 % 256)
  {
    var a, b, c := v / 0x100, v / 0x1_0000, v / 0x100_0000;
    assert a / 0x100 == b && b / 0x100 == c && c < 0x100;
    assert v == v % 256 + 0x100 * a && a == a % 256 + 0x100 * b && b == b % 256 + 0x100 * c && c == c % 256;
  }

  // Reading a word that was stored gives it back.
  lemma WordIsStored(b: Block, k: nat, v: nat)
    requires 4 * k + 3 < |b|
    ensures Stores(b, k, v) ==> Word(b, k) == v
  {
    if Stores(b, k, v) {
      Bytes4();
      assert b[4 * k + 0] == v / Pow(256, 0) % 256 && b[4 * k + 1] == v / Pow(256, 1) % 256;
      assert b[4 * k + 2] == v / Pow(256, 2) % 256 && b[4 * k + 3] == v / Pow(256, 3) % 256;
      Digits4(v);
    }
  }

  // p pointers to a block: blocks have 1024, 2048 or 4096 bytes.
  ghost predicate Geometry(disk: Disk, p: nat) {
    (p == 256 || p == 512 || p == 1024) && forall b :: b in disk ==> |disk[b]| == 4 * p
  }

  // ---- the reference: the leaves of the index trees, in order -----------------------------

  // Whether ext2_read_block can read a block; pointer 0 stands for a hole.
  predicate There(disk: Disk, node: nat) {
    node != 0 && node in disk
  }

  // Pointer k of an index block, 0 if that block is missing.
  ghost function Child(disk: Disk, node: nat, k: nat): nat {
    if There(disk, node) && 4 * k + 3 < |disk[node]| then Word(disk[node], k) else 0
  }

  ghost function Leaves(disk: Disk, p: nat, depth: nat, node: nat): seq<nat>
    decreases depth, p + 1
  {
    if depth == 0 then [node] else LeavesBelow(disk, p, depth, node, p)
  }

  // The leaves below the first k children.
  ghost function LeavesBelow(disk: Disk, p: nat, depth: nat, node: nat, k: nat): seq<nat>
    requires depth > 0
    decreases depth, k
  {
    if k == 0 then []
    else LeavesBelow(disk, p, depth, node, k - 1) + Leaves(disk, p, depth - 1, Child(disk, node, k - 1))
  }

  // All blocks of a file, in order; a hole is 0.
  ghost function FileBlocks(disk: Disk, p: nat, inode: Inode): seq<nat> {
    inode.direct + Leaves(disk, p, 1, inode.indirect) + Leaves(disk, p, 2, inode.doubly) +
    Leaves(disk, p, 3, inode.trebly)
  }

  lemma {:induction false} LeavesLength(disk: Disk, p: nat, depth: nat, node: nat)
    ensures |Leaves(disk, p, depth, node)| == Pow(p, depth)
    decreases depth, p + 1
  {
    if depth > 0 {
      LeavesBelowLength(disk, p, depth, node, p);
    }
  }

  lemma {:induction false} LeavesBelowLength(disk: Disk, p: nat, depth: nat, node: nat, k: nat)
    requires depth > 0
    ensures |LeavesBelow(disk, p, depth, node, k)| == k * Pow(p, depth - 1)
    decreases depth, k
  {
    if k > 0 {
      LeavesBelowLength(disk, p, depth, node, k - 1);
      LeavesLength(disk, p, depth - 1, Child(disk, node, k - 1));
      assert (k - 1) * Pow(p, depth - 1) + Pow(p, depth - 1) == k * Pow(p, depth - 1);
    }
  }

  // Child c of a node holds the leaves from c * p^(depth-1) on.
  lemma {:induction false} LeafBelow(disk: Disk, p: nat, depth: nat, node: nat, k: nat, c: nat, r: nat)
    requires depth > 0 && c < k && r < Pow(p, depth - 1)
    ensures 0 <= c * Pow(p, depth - 1) + r < |LeavesBelow(disk, p, depth, node, k)|
    ensures r < |Leaves(disk, p, depth - 1, Child(disk, node, c))|
    ensures LeavesBelow(disk, p, depth, node, k)[c * Pow(p, depth - 1) + r]
            == Leaves(disk, p, depth - 1, Child(disk, node, c))[r]
  {
    var q := Pow(p, depth - 1);
    LeavesBelowLength(disk, p, depth, node, k);
    LeavesBelowLength(disk, p, depth, node, k - 1);
    LeavesLength(disk, p, depth - 1, Child(disk, node, c));
    assert 0 <= c * q by { MulMonotone(0, c, q); }
    assert c * q + q == (c + 1) * q;
    MulMonotone(c + 1, k, q);
    if c < k - 1 {
      MulMonotone(c + 1, k - 1, q);
      LeafBelow(disk, p, depth, node, k - 1, c, r);
    }
  }

  lemma LeafAt(disk: Disk, p: nat, depth: nat, node: nat, c: nat, r: nat)
    requires depth > 0 && c < p && r < Pow(p, depth - 1)
    ensures 0 <= c * Pow(p, depth - 1) + r < |Leaves(disk, p, depth, node)|
    ensures r < |Leaves(disk, p, depth - 1, Child(disk, node, c))|
    ensures Leaves(disk, p, depth, node)[c * Pow(p, depth - 1) + r]
            == Leaves(disk, p, depth - 1, Child(disk, node, c))[r]
  {
    LeafBelow(disk, p, depth, node, p, c, r);
  }

  // ---- ext2_get_real_block_index ----------------------------------------------------------

  // The limits that ext2_mount computes.
  function IndirectLimit(p: nat): nat { DIRECT + p }
  function DoublyLimit(p: nat): nat { DIRECT + p * (p + 1) }
  function TreblyLimit(p: nat): nat { DoublyLimit(p) + p * p * (p + 1) }

  // The number of blocks that the trees really hold.
  function Capacity(p: nat): nat { DIRECT + p + p * p + p * p * p }

  lemma LimitOrder(p: nat)
    ensures DoublyLimit(p) == DIRECT + p + p * p && TreblyLimit(p) == Capacity(p) + p * p
    ensures IndirectLimit(p) <= DoublyLimit(p) <= Capacity(p) <= TreblyLimit(p)
  {
    assert p * (p + 1) == p * p + p;
    assert p * p * (p + 1) == p * p * p + p * p;
    MulMonotone(0, p, p);
    MulMonotone(0, p * p, p);
  }

  // ext2_read_block: a failed read leaves the cache as it was.
  function ReadInto(disk: Disk, block: nat, cache: Block): Block {
    if There(disk, block) then disk[block] else cache
  }

  // The digit that the code takes off an index, and the rest.
  function High(c: nat, q: nat): nat
    requires q > 0
  {
    c / q
  }

  lemma HighLow(c: nat, q: nat)
    requires q > 0
    ensures c == c / q * q + (c - c / q * q) && 0 <= c - c / q * q < q
  {
  }

  function Low(c: nat, q: nat): (r: nat)
    requires q > 0
  {
    HighLow(c, q);
    c - c / q * q
  }

  lemma Recombine(c: nat, q: nat)
    requires q > 0
    ensures c == High(c, q) * q + Low(c, q) && Low(c, q) < q
  {
    HighLow(c, q);
  }

  lemma HighBelow(c: nat, q: nat, p: nat)
    requires q > 0 && c < p * q
    ensures High(c, q) < p
  {
    hide High, Low;
    Recombine(c, q);
    if High(c, q) >= p { MulMonotone(p, High(c, q), q); }
  }

  lemma PowSmall(p: nat)
    ensures Pow(p, 0) == 1 && Pow(p, 1) == p && Pow(p, 2) == p * p && Pow(p, 3) == p * p * p
  {
    assert Pow(p, 1) == p * Pow(p, 0);
    assert Pow(p, 2) == p * Pow(p, 1);
    assert Pow(p, 3) == p * Pow(p, 2) == p * (p * p) == p * p * p;
  }

  lemma Leaf1(disk: Disk, p: nat, node: nat, a: nat)
    requires a < p
    ensures |Leaves(disk, p, 1, node)| == p && Leaves(disk, p, 1, node)[a] == Child(disk, node, a)
  {
    PowSmall(p);
    LeavesLength(disk, p, 1, node);
    LeafAt(disk, p, 1, node, a, 0);
  }

  // Leaf b of a tree of depth two, by the digits of b.
  lemma Leaf2(disk: Disk, p: nat, node: nat, b: nat)
    requires 0 < p && b < Pow(p, 2)
    ensures High(b, p) < p && Low(b, p) < p
    ensures b < |Leaves(disk, p, 2, node)| &&
            Leaves(disk, p, 2, node)[b] == Child(disk, Child(disk, node, High(b, p)), Low(b, p))
  {
    hide Leaves, LeavesBelow, Child, Pow, High, Low;
    var c, d := High(b, p), Low(b, p);
    PowSmall(p);
    Recombine(b, p);
    HighBelow(b, p, p);
    MulSame(c, Pow(p, 1), p);
    LeafAt(disk, p, 2, node, c, d);
    Leaf1(disk, p, Child(disk, node, c), d);
  }

  // Leaf c of a tree of depth three.
  lemma Leaf3(disk: Disk, p: nat, node: nat, q: nat, c: nat)
    requires 0 < p && 0 < q == Pow(p, 2) && c < p * q
    ensures High(c, q) < p && High(Low(c, q), p) < p && Low(Low(c, q), p) < p
    ensures c < |Leaves(disk, p, 3, node)|
    ensures Leaves(disk, p, 3, node)[c]
            == Child(disk, Child(disk, Child(disk, node, High(c, q)), High(Low(c, q), p)), Low(Low(c, q), p))
  {
    hide Leaves, LeavesBelow, Child, Pow, High, Low;
    var d, e := High(c, q), Low(c, q);
    Recombine(c, q);
    HighBelow(c, q, p);
    LeafAt(disk, p, 3, node, d, e);
    Leaf2(disk, p, Child(disk, node, d), e);
  }

  lemma FileLength(disk: Disk, p: nat, inode: Inode)
    requires |inode.direct| == DIRECT
    ensures |FileBlocks(disk, p, inode)| == Capacity(p)
    ensures forall n :: 0 <= n < DIRECT ==> FileBlocks(disk, p, inode)[n] == inode.direct[n]
  {
    hide Leaves, Pow;
    PowSmall(p);
    LeavesLength(disk, p, 1, inode.indirect);
    LeavesLength(disk, p, 2, inode.doubly);
    LeavesLength(disk, p, 3, inode.trebly);
  }

  // Block n of the file behind the direct ones, as a leaf of the tree that holds it.
  lemma InIndirect(disk: Disk, p: nat, inode: Inode, n: nat)
    requires |inode.direct| == DIRECT && n < |Leaves(disk, p, 1, inode.indirect)|
    ensures DIRECT + n < |FileBlocks(disk, p, inode)|
    ensures FileBlocks(disk, p, inode)[DIRECT + n] == Leaves(disk, p, 1, inode.indirect)[n]
  {
    hide Leaves;
  }

  lemma InDoubly(disk: Disk, p: nat, inode: Inode, n: nat)
    requires |inode.direct| == DIRECT && n < |Leaves(disk, p, 2, inode.doubly)|
    ensures DIRECT + p + n < |FileBlocks(disk, p, inode)|
    ensures FileBlocks(disk, p, inode)[DIRECT + p + n] == Leaves(disk, p, 2, inode.doubly)[n]
  {
    hide Leaves, Pow;
    PowSmall(p);
    LeavesLength(disk, p, 1, inode.indirect);
  }

  lemma InTrebly(disk: Disk, p: nat, q: nat, inode: Inode, n: nat)
    requires |inode.direct| == DIRECT && n < |Leaves(disk, p, 3, inode.trebly)| && q == p * p
    ensures DIRECT + p + q + n < |FileBlocks(disk, p, inode)|
    ensures FileBlocks(disk, p, inode)[DIRECT + p + q + n] == Leaves(disk, p, 3, inode.trebly)[n]
  {
    hide Leaves, Pow;
    PowSmall(p);
    LeavesLength(disk, p, 1, inode.indirect);
    LeavesLength(disk, p, 2, inode.doubly);
  }

  lemma DoublyIndex(disk: Disk, p: nat, inode: Inode, n: nat)
    requires 0 < p && |inode.direct| == DIRECT && IndirectLimit(p) <= n < DoublyLimit(p)
    ensures var b := n - DIRECT - p;
            && High(b, p) < p && Low(b, p) < p
            && |FileBlocks(disk, p, inode)| == Capacity(p) && n < Capacity(p)
            && FileBlocks(disk, p, inode)[n] == Child(disk, Child(disk, inode.doubly, High(b, p)), Low(b, p))
  {
    hide FileBlocks, Child, Leaves, DoublyLimit, TreblyLimit, Capacity, Pow, High, Low;
    var b := n - DIRECT - p;
    LimitOrder(p);
    PowSmall(p);
    FileLength(disk, p, inode);
    Leaf2(disk, p, inode.doubly, b);
    InDoubly(disk, p, inode, b);
  }

  lemma TreblyRange(p: nat, q: nat, n: nat)
    requires 0 < p && q == p * p && DoublyLimit(p) <= n < Capacity(p)
    ensures 0 <= n - DIRECT - p - q < p * q && 0 < q == Pow(p, 2)
  {
    LimitOrder(p);
    PowSmall(p);
    MulMonotone(1, p, p);
    assert p * (p * p) == p * p * p;
  }

  lemma TreblyIndex(disk: Disk, p: nat, q: nat, inode: Inode, n: nat)
    requires 0 < p && 0 < q == p * p && |inode.direct| == DIRECT && DoublyLimit(p) <= n < Capacity(p)
    ensures n - DIRECT - p - q >= 0
    ensures var c: nat := n - DIRECT - p - q;
            var d, e := High(c, q), Low(c, q);
            && d < p && High(e, p) < p && Low(e, p) < p
            && |FileBlocks(disk, p, inode)| == Capacity(p)
            && FileBlocks(disk, p, inode)[n]
              == Child(disk, Child(disk, Child(disk, inode.trebly, d), High(e, p)), Low(e, p))
  {
    hide FileBlocks, Child, Leaves, DoublyLimit, TreblyLimit, Capacity, Pow, High, Low;
    TreblyRange(p, q, n);
    FileLength(disk, p, inode);
    Leaf3(disk, p, inode.trebly, q, n - DIRECT - p - q);
    InTrebly(disk, p, q, inode, n - DIRECT - p - q);
  }

  // ---- holes ------------------------------------------------------------------------------

  // The cache holds the index block `held`, or zeros if that is 0.
  ghost predicate Holds(disk: Disk, p: nat, held: nat, cache: Block) {
    |cache| == 4 * p && forall k :: 0 <= k < p ==> Word(cache, k) == Child(disk, held, k)
  }

  // The block that the cache holds after an attempt to read `node`: a failed read leaves it.
  ghost function Held(disk: Disk, held: nat, node: nat): nat {
    if There(disk, node) then node else held
  }

  lemma Descend(disk: Disk, p: nat, held: nat, cache: Block, node: nat)
    requires Geometry(disk, p) && Holds(disk, p, held, cache)
    ensures Holds(disk, p, Held(disk, held, node), ReadInto(disk, node, cache))
  {
  }

  lemma Zeroed(disk: Disk, p: nat, cache: Block)
    requires |cache| == 4 * p && forall k :: 0 <= k < |cache| ==> cache[k] == 0
    ensures Holds(disk, p, 0, cache)
  {
  }

  // A hole below an index block that is there.  The cache still holds that block, and the code
  // takes pointer d of it.
  ghost predicate Stale2(disk: Disk, node: nat, c: nat, d: nat) {
    There(disk, node) && !There(disk, Child(disk, node, c)) && Child(disk, node, d) != 0
  }

  ghost predicate Stale3(disk: Disk, node: nat, d: nat, f: nat, g: nat) {
    && There(disk, node)
    && if There(disk, Child(disk, node, d)) then Stale2(disk, Child(disk, node, d), f, g)
       else Child(disk, Held(disk, node, Child(disk, node, f)), g) != 0
  }

  // The pointers that the code ends up with, two and three index blocks down.
  ghost function Walk2(disk: Disk, node: nat, c: nat, d: nat): nat {
    var h := Held(disk, 0, node);
    Child(disk, Held(disk, h, Child(disk, h, c)), d)
  }

  ghost function Walk3(disk: Disk, node: nat, d: nat, f: nat, g: nat): nat {
    var h := Held(disk, 0, node);
    var i := Held(disk, h, Child(disk, h, d));
    Child(disk, Held(disk, i, Child(disk, i, f)), g)
  }

  // The pointer at the end of a path of stale and fresh blocks is the leaf unless it is stale.
  lemma Path2(disk: Disk, node: nat, c: nat, d: nat)
    ensures Walk2(disk, node, c, d) == Child(disk, Child(disk, node, c), d) <==> !Stale2(disk, node, c, d)
  {
  }

  lemma Path3(disk: Disk, node: nat, d: nat, f: nat, g: nat)
    ensures Walk3(disk, node, d, f, g) == Child(disk, Child(disk, Child(disk, node, d), f), g)
            <==> !Stale3(disk, node, d, f, g)
  {
  }

  // The holes for which the code takes a stale pointer for the index of block n.
  ghost predicate Misread(disk: Disk, p: nat, inode: Inode, n: nat)
    requires 0 < p
  {
    if IndirectLimit(p) <= n < DoublyLimit(p) then
      var b := n - DIRECT - p;
      Stale2(disk, inode.doubly, High(b, p), Low(b, p))
    else if DoublyLimit(p) <= n < Capacity(p) then
      TreblyRange(p, p * p, n);
      var c := n - DIRECT - p - p * p;
      var e := Low(c, p * p);
      Stale3(disk, inode.trebly, High(c, p * p), High(e, p), Low(e, p))
    else false
  }

  // The index that the code finds for block n, holes included.
  ghost function Fetched(disk: Disk, p: nat, inode: Inode, n: nat): nat
    requires 0 < p && |inode.direct| == DIRECT && n < Capacity(p)
  {
    if n < DIRECT then inode.direct[n]
    else if n < IndirectLimit(p) then Child(disk, inode.indirect, n - DIRECT)
    else if n < DoublyLimit(p) then
      var b := n - DIRECT - p;
      Walk2(disk, inode.doubly, High(b, p), Low(b, p))
    else
      TreblyRange(p, p * p, n);
      var c := n - DIRECT - p - p * p;
      var e := Low(c, p * p);
      Walk3(disk, inode.trebly, High(c, p * p), High(e, p), Low(e, p))
  }

  // ---- the lookup by the bytes on disk ----------------------------------------------------

  // Index block `node` holds the pointer v at position k.
  ghost predicate Points(disk: Disk, node: nat, k: nat, v: nat) {
    There(disk, node) && Stores(disk[node], k, v)
  }

  ghost predicate PointsOnly(disk: Disk, node: nat, k: nat, index: nat) {
    forall v :: Points(disk, node, k, v) ==> v == index
  }

  lemma PointsToChild(disk: Disk, node: nat, k: nat, v: nat)
    requires Points(disk, node, k, v)
    ensures Child(disk, node, k) == v && Held(disk, 0, node) == node
  {
    WordIsStored(disk[node], k, v);
  }

  lemma HeldThere(disk: Disk, held: nat, node: nat)
    ensures Held(disk, 0, node) == node != 0 ==> Held(disk, held, node) == node
  {
  }

  lemma DigitsOf(c: nat, d: nat, p: nat)
    requires d < p
    ensures c * p >= 0 && High(c * p + d, p) == c && Low(c * p + d, p) == d
  {
    MulMonotone(0, c, p);
    DivModUnique(c * p + d, p, c, d);
  }

  // The blocks behind the direct ones are those that the pointers on disk lead to, one, two and
  // three index blocks down.
  lemma FetchedIndirect(disk: Disk, p: nat, inode: Inode, a: nat, v: nat)
    requires 0 < p && |inode.direct| == DIRECT && a < p && Points(disk, inode.indirect, a, v)
    ensures 12 + a < Capacity(p) && Fetched(disk, p, inode, 12 + a) == v
  {
    LimitOrder(p);
    PointsToChild(disk, inode.indirect, a, v);
  }

  lemma FetchedDoubly(disk: Disk, p: nat, inode: Inode, a: nat, b: nat, u: nat, v: nat)
    requires 0 < p && |inode.direct| == DIRECT && a < p && b < p
    requires Points(disk, inode.doubly, a, u) && Points(disk, u, b, v)
    ensures 12 + p + (a * p + b) < Capacity(p) && Fetched(disk, p, inode, 12 + p + (a * p + b)) == v
  {
    hide High, Low, Child, Held, DoublyLimit, Capacity;
    LimitOrder(p);
    DigitsOf(a, b, p);
    MulMonotone(a + 1, p, p);
    MulSucc(a, p);
    PointsToChild(disk, inode.doubly, a, u);
    PointsToChild(disk, u, b, v);
    HeldThere(disk, inode.doubly, u);
    assert Walk2(disk, inode.doubly, a, b) == v;
  }

  lemma TreblyInside(p: nat, q: nat, c: nat)
    requires q == p * p && c < p * q
    ensures DoublyLimit(p) <= 12 + p + q + c < Capacity(p)
  {
    LimitOrder(p);
    assert p * (p * p) == p * p * p;
  }

  lemma FetchedBehind(disk: Disk, p: nat, q: nat, inode: Inode, c: nat)
    requires 0 < p && 0 < q == p * p && |inode.direct| == DIRECT && c < p * q
    ensures 12 + p + q + c < Capacity(p)
    ensures Fetched(disk, p, inode, 12 + p + q + c)
            == Walk3(disk, inode.trebly, High(c, q), High(Low(c, q), p), Low(Low(c, q), p))
  {
    hide High, Low, Walk3, Walk2, DoublyLimit, Capacity;
    TreblyInside(p, q, c);
    LimitOrder(p);
  }

  lemma FetchedTrebly(disk: Disk, p: nat, inode: Inode, a: nat, b: nat, c: nat, t: nat, u: nat, v: nat)
    requires 0 < p && |inode.direct| == DIRECT && a < p && b < p && c < p
    requires Points(disk, inode.trebly, a, t) && Points(disk, t, b, u) && Points(disk, u, c, v)
    ensures var n := 12 + p + p * p + (a * (p * p) + (b * p + c));
            0 <= n < Capacity(p) && Fetched(disk, p, inode, n) == v
  {
    hide High, Low, Child, Held, DoublyLimit, Capacity;
    var q, e := p * p, b * p + c;
    LimitOrder(p);
    DigitsOf(b, c, p);
    MulMonotone(b + 1, p, p);
    MulSucc(b, p);
    DigitsOf(a, e, q);
    MulMonotone(a + 1, p, q);
    MulSucc(a, q);
    TreblyInside(p, q, a * q + e);
    PointsToChild(disk, inode.trebly, a, t);
    PointsToChild(disk, t, b, u);
    PointsToChild(disk, u, c, v);
    HeldThere(disk, inode.trebly, t);
    HeldThere(disk, t, u);
    assert Walk3(disk, inode.trebly, a, b, c) == v;
    FetchedBehind(disk, p, q, inode, a * q + e);
  }

  // Only holes are misread: the index blocks on the way to an allocated block are all there.
  lemma AllocatedIsRead(disk: Disk, p: nat, inode: Inode, n: nat)
    requires 0 < p && |inode.direct| == DIRECT && n < Capacity(p)
    ensures |FileBlocks(disk, p, inode)| == Capacity(p)
    ensures FileBlocks(disk, p, inode)[n] != 0 ==> !Misread(disk, p, inode, n)
  {
    hide FileBlocks, High, Low, DoublyLimit, Capacity;
    FileLength(disk, p, inode);
    if IndirectLimit(p) <= n < DoublyLimit(p) {
      DoublyIndex(disk, p, inode, n);
    } else if DoublyLimit(p) <= n {
      TreblyRange(p, p * p, n);
      TreblyIndex(disk, p, p * p, inode, n);
    }
  }

  // A hole that is misread: the doubly indirect block has its first pointer only, and block
  // 12 + 2 * p is looked up as that first index block.
  lemma HoleMisread(disk: Disk, p: nat, inode: Inode)
    requires Geometry(disk, p) && |inode.direct| == DIRECT && There(disk, inode.doubly)
    requires Child(disk, inode.doubly, 0) != 0 && Child(disk, inode.doubly, 1) == 0
    ensures DIRECT + 2 * p < |FileBlocks(disk, p, inode)|
    ensures FileBlocks(disk, p, inode)[DIRECT + 2 * p] == 0 && Misread(disk, p, inode, DIRECT + 2 * p)
    ensures DIRECT + 2 * p < Capacity(p)
    ensures Fetched(disk, p, inode, DIRECT + 2 * p) == Child(disk, inode.doubly, 0)
  {
    hide FileBlocks;
    LimitOrder(p);
    assert High(p, p) == 1 && Low(p, p) == 0;
    assert 2 * p <= p * p by { MulMonotone(2, p, p); }
    DoublyIndex(disk, p, inode, DIRECT + 2 * p);
  }

  method IndirectRead(disk: Disk, p: nat, inode: Inode, a: nat, zeroed: Block) returns (index: nat)
    requires Geometry(disk, p) && |inode.direct| == DIRECT && Holds(disk, p, 0, zeroed) && a < p
    ensures DIRECT + a < |FileBlocks(disk, p, inode)|
    ensures index == FileBlocks(disk, p, inode)[DIRECT + a] == Child(disk, inode.indirect, a)
  {
    hide FileBlocks, ReadInto, Word;
    Leaf1(disk, p, inode.indirect, a);
    InIndirect(disk, p, inode, a);
    Descend(disk, p, 0, zeroed, inode.indirect);
    var cache := ReadInto(disk, inode.indirect, zeroed);
    index := Word(cache, a);
  }

  method DoublyRead(disk: Disk, p: nat, inode: Inode, n: nat, zeroed: Block) returns (index: nat)
    requires Geometry(disk, p) && |inode.direct| == DIRECT && Holds(disk, p, 0, zeroed)
    requires IndirectLimit(p) <= n < DoublyLimit(p)
    ensures |FileBlocks(disk, p, inode)| == Capacity(p) && n < Capacity(p)
    ensures index == Fetched(disk, p, inode, n)
    ensures index == FileBlocks(disk, p, inode)[n] <==> !Misread(disk, p, inode, n)
  {
    hide FileBlocks, Child, ReadInto, Word, High, Low, DoublyLimit, Capacity, Stale2, Stale3, Held;
    DoublyIndex(disk, p, inode, n);
    var cache := zeroed;
    var a := n - DIRECT;
    var b := a - p;
    var c, d := High(b, p), Low(b, p);
    Path2(disk, inode.doubly, c, d);
    Descend(disk, p, 0, cache, inode.doubly);
    cache := ReadInto(disk, inode.doubly, cache);
    Descend(disk, p, Held(disk, 0, inode.doubly), cache, Word(cache, c));
    cache := ReadInto(disk, Word(cache, c), cache);
    index := Word(cache, d);
  }

  method TreblyRead(disk: Disk, p: nat, inode: Inode, n: nat, zeroed: Block) returns (index: nat)
    requires Geometry(disk, p) && |inode.direct| == DIRECT && Holds(disk, p, 0, zeroed)
    requires DoublyLimit(p) <= n < Capacity(p)
    ensures |FileBlocks(disk, p, inode)| == Capacity(p)
    ensures index == Fetched(disk, p, inode, n)
    ensures index == FileBlocks(disk, p, inode)[n] <==> !Misread(disk, p, inode, n)
  {
    hide FileBlocks, Child, ReadInto, Word, High, Low, DoublyLimit, Capacity, Stale2, Stale3, Held;
    var cache := zeroed;
    var p1, p2 := p, p * p;
    TreblyRange(p, p2, n);
    TreblyIndex(disk, p, p2, inode, n);
    var a := n - DIRECT;
    var b := a - p1;
    var c := b - p2;
    var d, e := High(c, p2), Low(c, p2);
    var f, g := High(e, p1), Low(e, p1);
    Path3(disk, inode.trebly, d, f, g);
    Descend(disk, p, 0, cache, inode.trebly);
    cache := ReadInto(disk, inode.trebly, cache);
    ghost var h := Held(disk, 0, inode.trebly);
    Descend(disk, p, h, cache, Word(cache, d));
    cache := ReadInto(disk, Word(cache, d), cache);
    ghost var i := Held(disk, h, Child(disk, h, d));
    Descend(disk, p, i, cache, Word(cache, f));
    cache := ReadInto(disk, Word(cache, f), cache);
    index := Word(cache, g);
  }

  method GetRealBlockIndex(disk: Disk, p: nat, inode: Inode, n: nat) returns (index: nat)
    requires Geometry(disk, p) && |inode.direct| == DIRECT
    requires n < Capacity(p) || TreblyLimit(p) <= n
    ensures |FileBlocks(disk, p, inode)| == Capacity(p)
    ensures n < Capacity(p) ==> index == Fetched(disk, p, inode, n)
    ensures n < Capacity(p) ==> (index == FileBlocks(disk, p, inode)[n] <==> !Misread(disk, p, inode, n))
    ensures TreblyLimit(p) <= n ==> index == 0
    ensures n < 12 ==> index == inode.direct[n]
    ensures 12 <= n < 12 + p ==> PointsOnly(disk, inode.indirect, n - 12, index)
  {
    hide FileBlocks, Child, ReadInto, Word, Stale2, Stale3, Holds, Walk2, Walk3;
    FileLength(disk, p, inode);
    LimitOrder(p);
    if n < DIRECT {
      return inode.direct[n];
    }
    index := 0;
    var cache: Block := seq(4 * p, _ => 0);
    Zeroed(disk, p, cache);
    if n < IndirectLimit(p) {
      var a := n - DIRECT;
      index := IndirectRead(disk, p, inode, a, cache);
      forall v | Points(disk, inode.indirect, a, v)
        ensures index == v
      {
        PointsToChild(disk, inode.indirect, a, v);
      }
    } else if n < DoublyLimit(p) {
      index := DoublyRead(disk, p, inode, n, cache);
    } else if n < TreblyLimit(p) {
      index := TreblyRead(disk, p, inode, n, cache);
    }
  }
}
