// The bit-transposed packing of 64-bit values: 64 rows form a group, and word i
// of a group holds bit i of each of its rows; 16 groups form a block.
module Bitpack {
  import opened Bytes

  type U64 = v: nat | v < U64_LIMIT

  const BLOCK: nat := 1024
  const GROUP: nat := 64
  const GROUPS: nat := 16

  // ----- bits of numbers -----

  function Pow2(n: nat): (p: nat)
    ensures p > 0
  {
    if n == 0 then 1 else 2 * Pow2(n - 1)
  }

  function BitOf(v: nat, i: nat): (b: nat)
    ensures b <= 1
  {
    if i == 0 then v % 2 else BitOf(v / 2, i - 1)
  }

  // The number whose bit i is the i-th flag.
  function Number(bits: seq<nat>): (v: nat) {
    if bits == [] then 0 else bits[0] + 2 * Number(bits[1..])
  }

  predicate AreBits(bits: seq<nat>) {
    forall i :: 0 <= i < |bits| ==> bits[i] <= 1
  }

  lemma {:induction false} BitOfNumber(bits: seq<nat>, i: nat)
    requires AreBits(bits) && i < |bits|
    ensures BitOf(Number(bits), i) == bits[i]
  {
    if i > 0 {
      assert AreBits(bits[1..]);
      BitOfNumber(bits[1..], i - 1);
    }
  }

  lemma {:induction false} NumberAppend(bits: seq<nat>, b: nat)
    ensures Number(bits + [b]) == Number(bits) + b * Pow2(|bits|)
  {
    if bits == [] {
      assert Number([b][1..]) == 0;
    } else {
      NumberAppend(bits[1..], b);
      assert (bits + [b])[1..] == bits[1..] + [b];
      Distribute(b, Pow2(|bits| - 1));
    }
  }

  lemma Distribute(b: nat, p: nat)
    ensures 2 * (b * p) == b * (2 * p)
  {
  }

  lemma {:induction false} NumberBound(bits: seq<nat>)
    requires AreBits(bits)
    ensures Number(bits) < Pow2(|bits|)
  {
    if bits != [] {
      assert AreBits(bits[1..]);
      NumberBound(bits[1..]);
    }
  }

  // The lowest w bits of v.
  function LowBits(v: nat, w: nat): (bits: seq<nat>)
    ensures |bits| == w && AreBits(bits) && forall i :: 0 <= i < w ==> bits[i] == BitOf(v, i)
  {
    seq(w, i requires 0 <= i < w => BitOf(v, i))
  }

  // The lowest w bits make up the value modulo 2^w.
  lemma {:induction false} LowBitsAreRemainder(v: nat, w: nat)
    ensures Number(LowBits(v, w)) == v % Pow2(w)
  {
    if w > 0 {
      LowBitsAreRemainder(v / 2, w - 1);
      assert LowBits(v, w)[1..] == LowBits(v / 2, w - 1);
      RemainderStep(v, Pow2(w - 1));
    }
  }

  lemma RemainderStep(v: nat, p: nat)
    requires p > 0
    ensures v % (2 * p) == v % 2 + 2 * ((v / 2) % p)
  {
    var q, r := (v / 2) / p, (v / 2) % p;
    assert v / 2 == q * p + r;
    assert v == q * (2 * p) + (2 * r + v % 2);
    QuotientIsUnique(v, 2 * p, q, 2 * r + v % 2);
  }

  lemma QuotientIsUnique(v: nat, d: nat, q: nat, r: nat)
    requires d > 0 && v == q * d + r && r < d
    ensures v % d == r
  {
    var q', r' := v / d, v % d;
    if q' < q {
      assert (q - q') * d >= d by { Monotone(1, q - q', d); }
      assert false;
    } else if q' > q {
      assert (q' - q) * d >= d by { Monotone(1, q' - q, d); }
      assert false;
    }
  }

  lemma Monotone(a: nat, b: nat, d: nat)
    requires a <= b
    ensures a * d <= b * d
  {
  }

  lemma {:induction false} Pow2Add(m: nat, n: nat)
    ensures Pow2(m + n) == Pow2(m) * Pow2(n)
  {
    if m > 0 {
      Pow2Add(m - 1, n);
      Assoc(Pow2(m - 1), Pow2(n));
    }
  }

  lemma Assoc(a: nat, b: nat)
    ensures 2 * (a * b) == (2 * a) * b
  {
  }

  lemma Pow2Of64()
    ensures Pow2(8) == 256 && Pow2(64) == U64_LIMIT
  {
    assert Pow2(4) == 16;
    Pow2Add(4, 4);
    Pow2Add(8, 8);
    Pow2Add(16, 16);
    Pow2Add(32, 32);
  }

  lemma SmallRemainder(v: nat, p: nat)
    requires v < p
    ensures v % p == v
  {
  }

  // ----- the packed layout -----

  // Row idx of the padded input: zeros follow the last value.
  function Row(src: seq<U64>, idx: nat): U64 {
    if idx < |src| then src[idx] else 0
  }

  // Bit i of each of the 64 rows of group g.
  function Plane(src: seq<U64>, g: nat, i: nat): (bits: seq<nat>)
    ensures |bits| == GROUP
    ensures forall k :: 0 <= k < GROUP ==> bits[k] == BitOf(Row(src, GROUP * g + k), i)
    ensures AreBits(bits)
  {
    var base := GROUP * g;
    seq<nat>(GROUP, k requires 0 <= k < GROUP => BitOf(Row(src, base + k), i))
  }

  // The first n words of group g.
  function GroupBytes(src: seq<U64>, g: nat, n: nat): (b: seq<Byte>)
    ensures |b| == 8 * n
  {
    if n == 0 then [] else GroupBytes(src, g, n - 1) + LE(Number(Plane(src, g, n - 1)), 8)
  }

  // The first n groups.
  function PackedGroups(width: nat, src: seq<U64>, n: nat): (b: seq<Byte>) {
    if n == 0 then [] else PackedGroups(width, src, n - 1) + GroupBytes(src, n - 1, width)
  }

  function Blocks(rows: nat): nat {
    (rows + BLOCK - 1) / BLOCK
  }

  function PackedSize(rows: nat, width: nat): nat {
    Blocks(rows) * width * 128
  }

  function Packed(width: nat, src: seq<U64>): (b: seq<Byte>) {
    PackedGroups(width, src, GROUPS * Blocks(|src|))
  }

  // The bytes used are exactly the announced size.
  lemma {:induction false} PackedGroupsSize(width: nat, src: seq<U64>, n: nat)
    ensures |PackedGroups(width, src, n)| == 8 * width * n
  {
    hide GroupBytes;
    if n > 0 {
      PackedGroupsSize(width, src, n - 1);
      Times(8 * width, n - 1);
    }
  }

  lemma Times(w: nat, n: nat)
    ensures w * n + w == w * (n + 1)
  {
  }

  lemma PackedSizeExact(width: nat, src: seq<U64>)
    ensures |Packed(width, src)| == PackedSize(|src|, width)
  {
    PackedGroupsSize(width, src, GROUPS * Blocks(|src|));
    SizeIdentity(width, Blocks(|src|));
  }

  lemma SizeIdentity(width: nat, blocks: nat)
    ensures 8 * width * (GROUPS * blocks) == blocks * width * 128
  {
    assert (8 * width) * (16 * blocks) == 128 * (width * blocks);
  }

  // ----- reading an element back -----

  function WordAt(b: seq<Byte>, pos: nat): nat
    requires pos + 8 <= |b|
  {
    FromLE(b[pos..pos + 8])
  }

  function Offset(width: nat, g: nat, i: nat): nat {
    8 * width * g + 8 * i
  }

  // Row k of group g: bit k of each of the group's words.
  function Element(width: nat, b: seq<Byte>, g: nat, k: nat): nat
    requires 8 * width * (g + 1) <= |b|
  {
    Number(Spine(width, b, g, k, width))
  }

  function Spine(width: nat, b: seq<Byte>, g: nat, k: nat, n: nat): (bits: seq<nat>)
    requires n <= width && 8 * width * (g + 1) <= |b|
    ensures |bits| == n && AreBits(bits)
  {
    Inside(width, g);
    seq(n, i requires 0 <= i < n => BitOf(WordAt(b, Offset(width, g, i)), k))
  }

  lemma Inside(width: nat, g: nat)
    ensures 8 * width * g + 8 * width == 8 * width * (g + 1)
  {
  }

  lemma {:induction false} GroupPrefix(src: seq<U64>, g: nat, m: nat, n: nat)
    requires m <= n
    ensures GroupBytes(src, g, m) <= GroupBytes(src, g, n)
  {
    hide Plane;
    if m < n { GroupPrefix(src, g, m, n - 1); }
  }

  lemma {:induction false} GroupsPrefix(width: nat, src: seq<U64>, m: nat, n: nat)
    requires m <= n
    ensures PackedGroups(width, src, m) <= PackedGroups(width, src, n)
  {
    hide GroupBytes;
    if m < n { GroupsPrefix(width, src, m, n - 1); }
  }

  lemma WordInGroup(src: seq<U64>, g: nat, i: nat, width: nat)
    requires i < width
    ensures GroupBytes(src, g, width)[8 * i..8 * i + 8] == LE(Number(Plane(src, g, i)), 8)
  {
    hide Plane, Number, LE;
    GroupPrefix(src, g, i + 1, width);
    var a := GroupBytes(src, g, i + 1);
    assert a[8 * i..8 * i + 8] == LE(Number(Plane(src, g, i)), 8);
    assert GroupBytes(src, g, width)[..8 * (i + 1)] == a;
  }

  // Word i of group g of the packed bytes is the i-th bit plane of the group.
  lemma WordInPacked(width: nat, src: seq<U64>, n: nat, g: nat, i: nat)
    requires g < n && i < width
    ensures 8 * width * (g + 1) <= |PackedGroups(width, src, n)| && Offset(width, g, i) + 8 <= |PackedGroups(width, src, n)|
    ensures WordAt(PackedGroups(width, src, n), Offset(width, g, i)) == Number(Plane(src, g, i))
  {
    hide GroupBytes, Plane, Number, LE, FromLE, Pow2;
    var b := PackedGroups(width, src, n);
    GroupsPrefix(width, src, g + 1, n);
    PackedGroupsSize(width, src, g);
    PackedGroupsSize(width, src, g + 1);
    Inside(width, g);
    var head, group := PackedGroups(width, src, g), GroupBytes(src, g, width);
    assert b[..|head| + |group|] == head + group;
    WordInGroup(src, g, i, width);
    var w := Number(Plane(src, g, i));
    SliceInside(b, head, group, 8 * i);
    PlaneFits(src, g, i);
    FromLEOfLE(w, 8);
  }

  lemma SliceInside(b: seq<Byte>, head: seq<Byte>, group: seq<Byte>, at: nat)
    requires |head| + |group| <= |b| && b[..|head| + |group|] == head + group && at + 8 <= |group|
    ensures b[|head| + at..|head| + at + 8] == group[at..at + 8]
  {
    assert forall k :: 0 <= k < |group| ==> b[..|head| + |group|][|head| + k] == group[k];
  }

  lemma PlaneFits(src: seq<U64>, g: nat, i: nat)
    ensures Number(Plane(src, g, i)) < Pow256(8)
  {
    NumberBound(Plane(src, g, i));
    Pow2Of64();
    Widths();
  }

  // Unpacking a row of the packed bytes gives back the row modulo 2^width.
  lemma ElementOfPacked(width: nat, src: seq<U64>, n: nat, g: nat, k: nat)
    requires g < n && k < GROUP
    ensures 8 * width * (g + 1) <= |PackedGroups(width, src, n)|
    ensures Element(width, PackedGroups(width, src, n), g, k) == Row(src, GROUP * g + k) % Pow2(width)
  {
    hide PackedGroups, Number, Plane, Row, WordAt;
    var b := PackedGroups(width, src, n);
    PackedGroupsSize(width, src, n);
    Inside(width, g);
    GroupFits(width, g, n);
    var v := Row(src, GROUP * g + k);
    forall i | 0 <= i < width ensures Spine(width, b, g, k, width)[i] == BitOf(v, i) {
      WordInPacked(width, src, n, g, i);
      BitOfNumber(Plane(src, g, i), k);
    }
    assert Spine(width, b, g, k, width) == LowBits(v, width);
    LowBitsAreRemainder(v, width);
  }

  lemma GroupFits(width: nat, g: nat, n: nat)
    requires g < n
    ensures 8 * width * (g + 1) <= 8 * width * n
  {
    Monotone(g + 1, n, 8 * width);
  }

  // ----- packing -----

  // d is d0 with done written at off.
  ghost predicate Wrote(d0: seq<Byte>, d: seq<Byte>, off: nat, done: seq<Byte>) {
    off + |done| <= |d0| && d == d0[..off] + done + d0[off + |done|..]
  }

  lemma WroteNothing(d: seq<Byte>, off: nat)
    requires off <= |d|
    ensures Wrote(d, d, off, [])
  {
  }

  lemma WroteMore(d0: seq<Byte>, d1: seq<Byte>, d2: seq<Byte>, off: nat, a: seq<Byte>, b: seq<Byte>)
    requires Wrote(d0, d1, off, a) && Wrote(d1, d2, off + |a|, b)
    ensures Wrote(d0, d2, off, a + b)
  {
    assert d1[..off + |a|] == d0[..off] + a;
    assert d1[off + |a| + |b|..] == d0[off + |a| + |b|..];
  }

  method PutUint64(dst: array<Byte>, pos: nat, v: nat)
    requires pos + 8 <= dst.Length
    modifies dst
    ensures Wrote(old(dst[..]), dst[..], pos, LE(v, 8))
  {
    hide LE;
    var b := LE(v, 8);
    for i := 0 to 8
      invariant dst[..pos] == old(dst[..pos]) && dst[pos + 8..] == old(dst[pos + 8..])
      invariant dst[pos..pos + i] == b[..i]
    {
      dst[pos + i] := b[i];
    }
    assert dst[..] == dst[..pos] + dst[pos..pos + 8] + dst[pos + 8..];
    assert b[..8] == b;
  }

  // One word: bit i of each of the 64 rows of group j. The bit a round adds lies
  // above every bit already there, so adding it is or-ing it in.
  method PackWord(block: array<U64>, j: nat, i: nat) returns (word: nat)
    requires block.Length == BLOCK && j < GROUPS
    ensures word == Number(Plane(block[..], j, i))
  {
    hide Plane, Number, Pow2, BitOf;
    ghost var plane := Plane(block[..], j, i);
    word := 0;
    NumberNothing();
    for k := 0 to GROUP
      invariant word == Number(plane[..k])
    {
      PlaneBit(block[..], j, i, k);
      assert plane[..k + 1] == plane[..k] + [plane[k]];
      NumberAppend(plane[..k], plane[k]);
      NumberBound(plane[..k]);
      word := word + BitOf(block[GROUP * j + k], i) * Pow2(k);
    }
    assert plane[..GROUP] == plane;
  }

  lemma NumberNothing()
    ensures Number([]) == 0
  {
  }

  lemma PlaneBit(src: seq<U64>, g: nat, i: nat, k: nat)
    requires k < GROUP && GROUP * g + k < |src|
    ensures Plane(src, g, i)[k] == BitOf(src[GROUP * g + k], i)
  {
  }

  lemma BlockFits(width: nat, j: nat)
    requires j < GROUPS
    ensures j * width * 8 == 8 * width * j && j * width * 8 + 8 * width <= width * 128
  {
    Inside(width, j);
    Monotone(j + 1, GROUPS, 8 * width);
  }

  method PackBlock(width: nat, block: array<U64>, dst: array<Byte>, off: nat)
    requires 1 <= width <= 64 && block.Length == BLOCK && off + width * 128 <= dst.Length
    modifies dst
    ensures Wrote(old(dst[..]), dst[..], off, PackedGroups(width, block[..], GROUPS))
  {
    hide LE, Wrote, Number, Plane, GroupBytes, PackedGroups;
    ghost var src := block[..];
    GroupsNothing(width, src);
    WroteNothing(dst[..], off);
    for j := 0 to GROUPS
      invariant block[..] == src
      invariant Wrote(old(dst[..]), dst[..], off, PackedGroups(width, src, j))
    {
      BlockFits(width, j);
      PackedGroupsSize(width, src, j);
      ghost var d1 := dst[..];
      var groupOff := j * width * 8;
      PackGroup(width, block, dst, off + groupOff, j);
      WroteMore(old(dst[..]), d1, dst[..], off, PackedGroups(width, src, j), GroupBytes(src, j, width));
      GroupsStep(width, src, j);
    }
  }

  lemma GroupsNothing(width: nat, src: seq<U64>)
    ensures PackedGroups(width, src, 0) == []
    ensures forall g :: GroupBytes(src, g, 0) == []
  {
  }

  lemma GroupsStep(width: nat, src: seq<U64>, j: nat)
    ensures PackedGroups(width, src, j + 1) == PackedGroups(width, src, j) + GroupBytes(src, j, width)
  {
  }

  lemma GroupStep(src: seq<U64>, g: nat, i: nat)
    ensures GroupBytes(src, g, i + 1) == GroupBytes(src, g, i) + LE(Number(Plane(src, g, i)), 8)
  {
  }

  method PackGroup(width: nat, block: array<U64>, dst: array<Byte>, off: nat, j: nat)
    requires 1 <= width <= 64 && block.Length == BLOCK && j < GROUPS && off + 8 * width <= dst.Length
    modifies dst
    ensures Wrote(old(dst[..]), dst[..], off, GroupBytes(block[..], j, width))
  {
    hide LE, Wrote, Number, Plane, GroupBytes;
    ghost var src := block[..];
    GroupsNothing(width, src);
    WroteNothing(dst[..], off);
    for i := 0 to width
      invariant block[..] == src
      invariant Wrote(old(dst[..]), dst[..], off, GroupBytes(src, j, i))
    {
      var word := PackWord(block, j, i);
      ghost var d1 := dst[..];
      PutUint64(dst, off + i * 8, word);
      WroteMore(old(dst[..]), d1, dst[..], off, GroupBytes(src, j, i), LE(word, 8));
      GroupStep(src, j, i);
    }
  }

  // The j-th group of the block that starts at row base is group base / 64 + j of the input.
  lemma {:induction false} BlockGroup(src: seq<U64>, block: seq<U64>, b: nat, j: nat, n: nat)
    requires |block| == BLOCK && j < GROUPS
    requires forall x :: 0 <= x < BLOCK ==> block[x] == Row(src, BLOCK * b + x)
    ensures GroupBytes(block, j, n) == GroupBytes(src, GROUPS * b + j, n)
  {
    hide LE, Number, Plane, BitOf;
    if n > 0 {
      BlockGroup(src, block, b, j, n - 1);
      var p, q := Plane(block, j, n - 1), Plane(src, GROUPS * b + j, n - 1);
      forall k | 0 <= k < GROUP ensures p[k] == q[k] {
        assert GROUP * (GROUPS * b + j) + k == BLOCK * b + (GROUP * j + k);
      }
      assert p == q;
    }
  }

  lemma {:induction false} BlockGroups(width: nat, src: seq<U64>, block: seq<U64>, b: nat, n: nat)
    requires |block| == BLOCK && n <= GROUPS
    requires forall x :: 0 <= x < BLOCK ==> block[x] == Row(src, BLOCK * b + x)
    ensures PackedGroups(width, src, GROUPS * b + n) == PackedGroups(width, src, GROUPS * b) + PackedGroups(width, block, n)
  {
    hide GroupBytes, Row;
    if n > 0 {
      BlockGroups(width, src, block, b, n - 1);
      BlockGroup(src, block, b, n - 1, width);
    }
  }

  // Copies one block of the input, zero-padded.
  method FillBlock(src: seq<U64>, b: nat, block: array<U64>)
    requires block.Length == BLOCK && BLOCK * b <= |src|
    modifies block
    ensures forall x :: 0 <= x < BLOCK ==> block[x] == Row(src, BLOCK * b + x)
  {
    var srcOff := b * BLOCK;
    var end := if srcOff + BLOCK < |src| then srcOff + BLOCK else |src|;
    var n := end - srcOff;
    for i := 0 to n
      invariant forall x :: 0 <= x < i ==> block[x] == src[srcOff + x]
    {
      block[i] := src[srcOff + i];
    }
    for i := n to BLOCK
      invariant forall x :: 0 <= x < n ==> block[x] == src[srcOff + x]
      invariant forall x :: n <= x < i ==> block[x] == 0
    {
      block[i] := 0;
    }
  }

  lemma BlockStart(rows: nat, b: nat)
    requires b < Blocks(rows)
    ensures BLOCK * b < rows
  {
  }

  // Writes the packed rows at the start of the destination and nothing behind them.
  method Pack(width: nat, src: seq<U64>, dst: array<Byte>, off: nat)
    requires 1 <= width <= 64 && off + PackedSize(|src|, width) <= dst.Length
    modifies dst
    ensures Wrote(old(dst[..]), dst[..], off, Packed(width, src))
  {
    hide Wrote, PackedGroups, Row;
    GroupsNothing(width, src);
    WroteNothing(dst[..], off);
    var blocks := Blocks(|src|);
    if |src| == 0 {
      return;
    }
    var block := new U64[BLOCK];
    for b := 0 to blocks
      invariant Wrote(old(dst[..]), dst[..], off, PackedGroups(width, src, GROUPS * b))
      modifies dst, block
    {
      BlockStart(|src|, b);
      FillBlock(src, b, block);
      ghost var d1 := dst[..];
      ghost var done := PackedGroups(width, src, GROUPS * b);
      PackedGroupsSize(width, src, GROUPS * b);
      SizeIdentity(width, b);
      BlockRoom(width, b, blocks);
      PackBlock(width, block, dst, off + b * width * 128);
      WroteMore(old(dst[..]), d1, dst[..], off, done, PackedGroups(width, block[..], GROUPS));
      BlockGroups(width, src, block[..], b, GROUPS);
    }
  }

  lemma BlockRoom(width: nat, b: nat, blocks: nat)
    requires b < blocks
    ensures b * width * 128 + width * 128 <= blocks * width * 128
  {
    Monotone(b + 1, blocks, width * 128);
    assert (b + 1) * (width * 128) == b * width * 128 + width * 128;
    assert blocks * (width * 128) == blocks * width * 128;
  }

  // ----- unpacking -----

  // The generic gather of one group.
  method UnpackGroup(width: nat, src: seq<Byte>, g: nat, block: array<nat>, base: nat)
    requires 1 <= width <= 64 && 8 * width * (g + 1) <= |src| && base + GROUP <= block.Length
    modifies block
    ensures forall k :: 0 <= k < GROUP ==> block[base + k] == Element(width, src, g, k)
    ensures forall x :: 0 <= x < block.Length && !(base <= x < base + GROUP) ==> block[x] == old(block[x])
  {
    hide Number, Pow2, BitOf, WordAt, Spine;
    var words: seq<nat> := [];
    Inside(width, g);
    for i := 0 to width
      invariant |words| == i && forall x :: 0 <= x < i ==> words[x] == WordAt(src, Offset(width, g, x))
    {
      words := words + [WordAt(src, Offset(width, g, i))];
    }
    for k := 0 to GROUP
      invariant forall x :: 0 <= x < k ==> block[base + x] == Element(width, src, g, x)
      invariant forall x :: 0 <= x < block.Length && !(base <= x < base + GROUP) ==> block[x] == old(block[x])
    {
      var elem := 0;
      NumberNothing();
      SpineNothing(width, src, g, k);
      for i := 0 to width
        invariant elem == Number(Spine(width, src, g, k, i))
        modifies {}
      {
        SpineStep(width, src, g, k, i);
        NumberAppend(Spine(width, src, g, k, i), BitOf(words[i], k));
        elem := elem + BitOf(words[i], k) * Pow2(i);
      }
      block[base + k] := elem;
    }
  }

  lemma SpineNothing(width: nat, b: seq<Byte>, g: nat, k: nat)
    requires 8 * width * (g + 1) <= |b|
    ensures Spine(width, b, g, k, 0) == []
  {
  }

  lemma NoSpines(width: nat, b: seq<Byte>, g: nat)
    requires 8 * width * (g + 1) <= |b|
    ensures forall k :: Spine(width, b, g, k, 0) == []
  {
  }

  lemma SpineStep(width: nat, b: seq<Byte>, g: nat, k: nat, i: nat)
    requires i < width && 8 * width * (g + 1) <= |b|
    ensures Offset(width, g, i) + 8 <= |b|
    ensures Spine(width, b, g, k, i + 1) == Spine(width, b, g, k, i) + [BitOf(WordAt(b, Offset(width, g, i)), k)]
  {
    hide WordAt, BitOf;
    Inside(width, g);
  }

  // ----- the byte-plane table -----

  function Shr(v: nat, n: nat): nat {
    if n == 0 then v else Shr(v / 2, n - 1)
  }

  lemma {:induction false} BitOfShr(v: nat, n: nat, x: nat)
    ensures BitOf(Shr(v, n), x) == BitOf(v, n + x)
  {
    if n > 0 { BitOfShr(v / 2, n - 1, x); }
  }

  lemma {:induction false} BitOfRemainder(v: nat, n: nat, x: nat)
    requires x < n
    ensures BitOf(v % Pow2(n), x) == BitOf(v, x)
  {
    var p := Pow2(n - 1);
    RemainderStep(v, p);
    var r := v % (2 * p);
    assert r % 2 == v % 2 && r / 2 == (v / 2) % p;
    if x > 0 { BitOfRemainder(v / 2, n - 1, x - 1); }
  }

  // byte(v >> (8 * lane)).
  function ByteLane(v: nat, lane: nat): Byte {
    Shr(v, 8 * lane) % 256
  }

  lemma BitOfByteLane(v: nat, lane: nat, x: nat)
    requires x < 8
    ensures BitOf(ByteLane(v, lane), x) == BitOf(v, 8 * lane + x)
  {
    Pow2Of64();
    BitOfRemainder(Shr(v, 8 * lane), 8, x);
    BitOfShr(v, 8 * lane, x);
  }

  // A word seen as its eight bytes. The entry for a byte puts the weight of the
  // plane into the lane of every bit that is set.
  function TableEntry(plane: nat, b: nat): (lanes: seq<nat>)
    ensures |lanes| == 8 && forall x :: 0 <= x < 8 ==> lanes[x] == BitOf(b, x) * Pow2(plane)
  {
    seq<nat>(8, x requires 0 <= x < 8 => BitOf(b, x) * Pow2(plane))
  }

  method BuildTable() returns (table: seq<seq<seq<nat>>>)
    ensures |table| == 8
    ensures forall plane :: 0 <= plane < 8 ==> |table[plane]| == 256
    ensures forall plane, b :: 0 <= plane < 8 && 0 <= b < 256 ==> table[plane][b] == TableEntry(plane, b)
  {
    hide TableEntry;
    table := [];
    for plane := 0 to 8
      invariant |table| == plane
      invariant forall p :: 0 <= p < plane ==> |table[p]| == 256
      invariant forall p, b :: 0 <= p < plane && 0 <= b < 256 ==> table[p][b] == TableEntry(p, b)
    {
      var row := BuildPlane(plane);
      table := table + [row];
    }
  }

  method BuildPlane(plane: nat) returns (row: seq<seq<nat>>)
    ensures |row| == 256 && forall b :: 0 <= b < 256 ==> row[b] == TableEntry(plane, b)
  {
    hide BitOf, Pow2;
    var weight := Pow2(plane);
    row := [];
    for b := 0 to 256
      invariant |row| == b && forall c :: 0 <= c < b ==> row[c] == TableEntry(plane, c)
    {
      var packed := seq<nat>(8, _ => 0);
      for bit := 0 to 8
        invariant |packed| == 8
        invariant forall x :: 0 <= x < 8 ==> packed[x] == if x < bit then BitOf(b, x) * weight else 0
      {
        if BitOf(b, bit) != 0 {
          packed := packed[bit := weight];
        }
        BitTimes(BitOf(b, bit), weight);
      }
      assert packed == TableEntry(plane, b);
      row := row + [packed];
    }
  }

  lemma BitTimes(b: nat, w: nat)
    requires b <= 1
    ensures b * w == if b != 0 then w else 0
  {
  }

  // Or-ing a plane's entry in: lane x holds less than the weight so far.
  function OrLanes(a: seq<nat>, t: seq<nat>): (c: seq<nat>)
    requires |a| == 8 && |t| == 8
    ensures |c| == 8 && forall x :: 0 <= x < 8 ==> c[x] == a[x] + t[x]
  {
    seq<nat>(8, x requires 0 <= x < 8 => a[x] + t[x])
  }

  // The eight rows 8 * lane .. 8 * lane + 7 of a group, through the table.
  method GatherLane(table: seq<seq<seq<nat>>>, width: nat, src: seq<Byte>, g: nat, words: seq<nat>, lane: nat) returns (packed: seq<nat>)
    requires 1 <= width <= 8 && lane < 8 && 8 * width * (g + 1) <= |src|
    requires |table| == 8 && forall plane :: 0 <= plane < 8 ==> |table[plane]| == 256
    requires forall plane, b :: 0 <= plane < 8 && 0 <= b < 256 ==> table[plane][b] == TableEntry(plane, b)
    requires |words| == width && forall i :: 0 <= i < width ==> Offset(width, g, i) + 8 <= |src| && words[i] == WordAt(src, Offset(width, g, i))
    ensures |packed| == 8 && forall x :: 0 <= x < 8 ==> packed[x] == Element(width, src, g, 8 * lane + x)
  {
    hide BitOf, Pow2, Number, Spine, WordAt, TableEntry, ByteLane, Offset;
    packed := seq<nat>(8, _ => 0);
    NumberNothing();
    NoSpines(width, src, g);
    for i := 0 to width
      invariant |packed| == 8
      invariant forall x :: 0 <= x < 8 ==> packed[x] == Number(Spine(width, src, g, 8 * lane + x, i)) < Pow2(i)
    {
      var t := table[i][ByteLane(words[i], lane)];
      forall x | 0 <= x < 8
        ensures packed[x] + t[x] == Number(Spine(width, src, g, 8 * lane + x, i + 1)) < Pow2(i + 1)
      {
        LaneStep(width, src, g, lane, x, i, words[i]);
      }
      packed := OrLanes(packed, t);
    }
  }

  lemma LaneStep(width: nat, src: seq<Byte>, g: nat, lane: nat, x: nat, i: nat, word: nat)
    requires i < width && 8 * width * (g + 1) <= |src| && x < 8
    requires Offset(width, g, i) + 8 <= |src| && word == WordAt(src, Offset(width, g, i))
    ensures Number(Spine(width, src, g, 8 * lane + x, i + 1))
      == Number(Spine(width, src, g, 8 * lane + x, i)) + TableEntry(i, ByteLane(word, lane))[x]
    ensures Number(Spine(width, src, g, 8 * lane + x, i + 1)) < Pow2(i + 1)
  {
    hide BitOf, Pow2, Number, Spine, WordAt, ByteLane, Offset;
    var k := 8 * lane + x;
    SpineStep(width, src, g, k, i);
    BitOfByteLane(word, lane, x);
    NumberAppend(Spine(width, src, g, k, i), BitOf(word, k));
    NumberBound(Spine(width, src, g, k, i + 1));
  }

  // The table path of one group, for widths up to 8.
  method UnpackGroupSmallWidth(table: seq<seq<seq<nat>>>, width: nat, src: seq<Byte>, g: nat, block: array<nat>, base: nat)
    requires 1 <= width <= 8 && 8 * width * (g + 1) <= |src| && base + GROUP <= block.Length
    requires |table| == 8 && forall plane :: 0 <= plane < 8 ==> |table[plane]| == 256
    requires forall plane, b :: 0 <= plane < 8 && 0 <= b < 256 ==> table[plane][b] == TableEntry(plane, b)
    modifies block
    ensures forall k :: 0 <= k < GROUP ==> block[base + k] == Element(width, src, g, k)
    ensures forall x :: 0 <= x < block.Length && !(base <= x < base + GROUP) ==> block[x] == old(block[x])
  {
    hide Element, WordAt, TableEntry;
    var words: seq<nat> := [];
    Inside(width, g);
    for i := 0 to width
      invariant |words| == i && forall x :: 0 <= x < i ==> words[x] == WordAt(src, Offset(width, g, x))
    {
      words := words + [WordAt(src, Offset(width, g, i))];
    }
    for lane := 0 to 8
      invariant forall x :: 0 <= x < 8 * lane ==> block[base + x] == Element(width, src, g, x)
      invariant forall x :: 0 <= x < block.Length && !(base <= x < base + GROUP) ==> block[x] == old(block[x])
    {
      var packed := GatherLane(table, width, src, g, words, lane);
      for x := 0 to 8
        invariant forall y :: 0 <= y < 8 * lane + x ==> block[base + y] == Element(width, src, g, y)
        invariant forall y :: 0 <= y < block.Length && !(base <= y < base + GROUP) ==> block[y] == old(block[y])
      {
        block[base + lane * 8 + x] := packed[x];
      }
    }
  }

  predicate RowFits(width: nat, size: nat, row: nat) {
    8 * width * (row / GROUP + 1) <= size
  }

  function ElementAt(width: nat, b: seq<Byte>, row: nat): nat
    requires RowFits(width, |b|, row)
  {
    Element(width, b, row / GROUP, row % GROUP)
  }

  // The packed bytes hold v at the row.
  predicate Holds(width: nat, b: seq<Byte>, row: nat, v: nat) {
    RowFits(width, |b|, row) && v == ElementAt(width, b, row)
  }

  lemma GroupHolds(width: nat, src: seq<Byte>, b: nat, j: nat, k: nat)
    requires 8 * width * (GROUPS * b + j + 1) <= |src| && k < GROUP
    ensures Holds(width, src, BLOCK * b + GROUP * j + k, Element(width, src, GROUPS * b + j, k))
  {
    hide Element;
    var row := BLOCK * b + GROUP * j + k;
    assert row / GROUP == GROUPS * b + j && row % GROUP == k;
  }

  // Both paths leave the same rows in the block.
  method UnpackBlock(table: seq<seq<seq<nat>>>, width: nat, src: seq<Byte>, b: nat, block: array<nat>)
    requires 1 <= width <= 64 && 8 * width * (GROUPS * (b + 1)) <= |src| && block.Length == BLOCK
    requires |table| == 8 && forall plane :: 0 <= plane < 8 ==> |table[plane]| == 256
    requires forall plane, c :: 0 <= plane < 8 && 0 <= c < 256 ==> table[plane][c] == TableEntry(plane, c)
    modifies block
    ensures forall x :: 0 <= x < BLOCK ==> Holds(width, src, BLOCK * b + x, block[x])
  {
    hide Element, TableEntry, Holds;
    for j := 0 to GROUPS
      invariant forall x :: 0 <= x < GROUP * j ==> Holds(width, src, BLOCK * b + x, block[x])
    {
      var g := GROUPS * b + j;
      Monotone(g + 1, GROUPS * (b + 1), 8 * width);
      if width <= 8 {
        UnpackGroupSmallWidth(table, width, src, g, block, GROUP * j);
      } else {
        UnpackGroup(width, src, g, block, GROUP * j);
      }
      forall x | GROUP * j <= x < GROUP * (j + 1) ensures Holds(width, src, BLOCK * b + x, block[x]) {
        var k := x - GROUP * j;
        GroupHolds(width, src, b, j, k);
        assert block[GROUP * j + k] == Element(width, src, g, k);
      }
    }
  }

  lemma RowsFit(rows: nat, width: nat, size: nat, row: nat)
    requires row < rows && PackedSize(rows, width) <= size
    ensures RowFits(width, size, row)
  {
    SizeIdentity(width, Blocks(rows));
    assert row / GROUP + 1 <= GROUPS * Blocks(rows);
    Monotone(row / GROUP + 1, GROUPS * Blocks(rows), 8 * width);
  }

  // The first rows stored in packed bytes.
  function Unpacked(width: nat, b: seq<Byte>, rows: nat): (vals: seq<nat>)
    requires PackedSize(rows, width) <= |b|
    ensures |vals| == rows
  {
    seq<nat>(rows, x requires 0 <= x < rows => RowsFit(rows, width, |b|, x); ElementAt(width, b, x))
  }

  method Unpack(width: nat, src: seq<Byte>, rows: nat) returns (dst: seq<nat>)
    requires 1 <= width <= 64 && PackedSize(rows, width) <= |src|
    ensures dst == Unpacked(width, src, rows)
  {
    hide Holds, TableEntry, Unpacked;
    dst := [];
    if rows == 0 {
      return;
    }
    var table := BuildTable();
    var block := new nat[BLOCK];
    var blocks := Blocks(rows);
    for b := 0 to blocks
      invariant |dst| == if BLOCK * b < rows then BLOCK * b else rows
      invariant forall x :: 0 <= x < |dst| ==> Holds(width, src, x, dst[x])
      modifies block
    {
      BlockStart(rows, b);
      BlockRoom(width, b, blocks);
      SizeIdentity(width, b + 1);
      BlockSizeStep(width, b);
      UnpackBlock(table, width, src, b, block);
      var end := if BLOCK * b + BLOCK < rows then BLOCK * b + BLOCK else rows;
      ghost var before := dst;
      dst := dst + block[..end - BLOCK * b];
      forall x | 0 <= x < |dst| ensures Holds(width, src, x, dst[x]) {
        if x >= |before| {
          assert dst[x] == block[x - BLOCK * b];
          assert BLOCK * b + (x - BLOCK * b) == x;
        }
      }
    }
    HeldRows(width, src, rows, dst);
  }

  lemma HeldRows(width: nat, src: seq<Byte>, rows: nat, dst: seq<nat>)
    requires PackedSize(rows, width) <= |src| && |dst| == rows
    requires forall x :: 0 <= x < rows ==> Holds(width, src, x, dst[x])
    ensures dst == Unpacked(width, src, rows)
  {
    hide ElementAt, RowFits;
  }

  lemma BlockSizeStep(width: nat, b: nat)
    ensures b * width * 128 + width * 128 == (b + 1) * width * 128
  {
  }

  // The round trip: unpacking what was packed gives every value modulo 2^width.
  lemma UnpackOfPacked(width: nat, src: seq<U64>, row: nat)
    requires row < |src|
    ensures Holds(width, Packed(width, src), row, src[row] % Pow2(width))
  {
    hide PackedGroups, Element, Pow2;
    var n := GROUPS * Blocks(|src|);
    assert row / GROUP < n;
    ElementOfPacked(width, src, n, row / GROUP, row % GROUP);
    assert GROUP * (row / GROUP) + row % GROUP == row;
  }

  lemma PackedRoundTrip(width: nat, src: seq<U64>)
    requires forall i :: 0 <= i < |src| ==> src[i] < Pow2(width)
    ensures |Packed(width, src)| == PackedSize(|src|, width)
    ensures Unpacked(width, Packed(width, src), |src|) == src
  {
    hide Packed, PackedSize, Pow2, ElementAt, RowFits;
    PackedSizeExact(width, src);
    forall x | 0 <= x < |src| ensures Unpacked(width, Packed(width, src), |src|)[x] == src[x] {
      UnpackOfPacked(width, src, x);
      SmallRemainder(src[x], Pow2(width));
    }
  }

  // ----- bit lengths -----

  // 64 minus the leading zeros.
  function BitLength(v: nat): (n: nat) {
    if v == 0 then 0 else 1 + BitLength(v / 2)
  }

  // The bit length is the least width whose range holds the value.
  lemma {:induction false} BitLengthIsLeast(v: nat, w: nat)
    ensures v < Pow2(w) <==> BitLength(v) <= w
  {
    if v != 0 && w > 0 {
      BitLengthIsLeast(v / 2, w - 1);
    }
  }

  lemma BitLengthOfU64(v: U64)
    ensures BitLength(v) <= 64 && v < Pow2(BitLength(v)) && (v > 0 ==> BitLength(v) >= 1)
  {
    Pow2Of64();
    BitLengthIsLeast(v, 64);
    BitLengthIsLeast(v, BitLength(v));
  }
}
