/** Blocks and files: the free bitmap, the block map of an inode, and reading, writing and
    truncating its contents.

    The volume is the flat one that the buffer cache and the log provide. A block is BSIZE
    bytes; a bitmap block is read bit by bit, and an indirect block as 32-bit little-endian
    words. Inode numbers are indices, and block number 0 means "no block". */
module FileBlocks {

  const BSIZE: int := 512
  const BPB: int := 4096  // bits in a bitmap block
  const NDIRECT: int := 10
  const NINDIRECT: int := 128
  const MAXFILE: int := NDIRECT + NINDIRECT
  const UINT: int := 0x1_0000_0000

  type Block = seq<int>

  // ---------------------------------------------------------------- bits and words

  ghost predicate IsByte(v: int) {
    0 <= v < 256
  }

  ghost predicate IsBlock(b: Block) {
    |b| == BSIZE && forall k :: 0 <= k < BSIZE ==> IsByte(b[k])
  }

  /** `v & (1 << k)`. */
  function GetBit(v: int, k: nat): bool
    decreases k
  {
    if k == 0 then v % 2 == 1 else GetBit(v / 2, k - 1)
  }

  /** `v | (1 << k)`, or `v & ~(1 << k)`. */
  function PutBit(v: int, k: nat, on: bool): int
    decreases k
  {
    if k == 0 then v / 2 * 2 + (if on then 1 else 0) else PutBit(v / 2, k - 1, on) * 2 + v % 2
  }

  lemma {:induction false} PutBitAt(v: int, k: nat, on: bool, j: nat)
    requires 0 <= v
    ensures GetBit(PutBit(v, k, on), j) == if j == k then on else GetBit(v, j)
    ensures 0 <= PutBit(v, k, on)
    decreases k
  {
    if k > 0 {
      if j > 0 {
        PutBitAt(v / 2, k - 1, on, j - 1);
      } else {
        PutBitAt(v / 2, k - 1, on, 0);
      }
    }
  }

  ghost function Pow2(k: nat): int {
    if k == 0 then 1 else 2 * Pow2(k - 1)
  }

  lemma {:induction false} PutBitBound(v: int, k: nat, on: bool, n: nat)
    requires 0 <= v < Pow2(n) && k < n
    ensures 0 <= PutBit(v, k, on) < Pow2(n)
    decreases k
  {
    var half, h, b := Pow2(n - 1), v / 2, v % 2;
    assert Pow2(n) == 2 * half && v == 2 * h + b && 0 <= h < half;
    if k > 0 {
      PutBitBound(h, k - 1, on, n - 1);
      assert PutBit(v, k, on) == PutBit(h, k - 1, on) * 2 + b;
    } else {
      assert PutBit(v, k, on) == h * 2 + (if on then 1 else 0);
    }
  }

  lemma PutBitByte(v: int, k: nat, on: bool)
    requires IsByte(v) && k < 8
    ensures IsByte(PutBit(v, k, on))
  {
    assert Pow2(8) == 256;
    PutBitBound(v, k, on, 8);
  }

  /** The `j`-th 32-bit word of a block. */
  function Word(b: Block, j: int): int
    requires |b| == BSIZE && 0 <= j < NINDIRECT
  {
    b[4 * j] + 0x100 * b[4 * j + 1] + 0x1_0000 * b[4 * j + 2] + 0x100_0000 * b[4 * j + 3]
  }

  function PutWord(b: Block, j: int, w: int): Block
    requires |b| == BSIZE && 0 <= j < NINDIRECT
  {
    b[4 * j := w % 0x100][4 * j + 1 := w / 0x100 % 0x100][4 * j + 2 := w / 0x1_0000 % 0x100][4 * j + 3 := w / 0x100_0000 % 0x100]
  }

  lemma WordBytes(w: int)
    requires 0 <= w < UINT
    ensures w % 0x100 + 0x100 * (w / 0x100 % 0x100) + 0x1_0000 * (w / 0x1_0000 % 0x100) + 0x100_0000 * (w / 0x100_0000 % 0x100) == w
  {
    var w1, w2, w3 := w / 0x100, w / 0x1_0000, w / 0x100_0000;
    assert w == 0x100 * w1 + w % 0x100;
    assert w1 == 0x100 * w2 + w1 % 0x100;
    assert w2 == 0x100 * w3 + w2 % 0x100;
    assert w3 == w3 % 0x100;
  }

  lemma PutWordAt(b: Block, j: int, w: int, k: int)
    requires IsBlock(b) && 0 <= j < NINDIRECT && 0 <= k < NINDIRECT && 0 <= w < UINT
    ensures IsBlock(PutWord(b, j, w))
    ensures Word(PutWord(b, j, w), k) == if k == j then w else Word(b, k)
  {
    WordBytes(w);
  }

  // ---------------------------------------------------------------- volume and inodes

  /** The superblock: the volume's size, its first bitmap block and its first data block. */
  datatype Super = Super(size: int, bmapstart: int, datastart: int)

  /** The bitmap is part of the metadata, which comes before the data. */
  ghost predicate ValidSuper(sb: Super) {
    0 < sb.bmapstart && sb.bmapstart + (sb.size - 1) / BPB < sb.datastart <= sb.size < UINT
  }

  datatype Inode = Inode(size: int, addrs: seq<int>)

  datatype FS = FS(sb: Super, vol: seq<Block>, inodes: seq<Inode>)

  ghost predicate IsData(sb: Super, b: int) {
    sb.datastart <= b < sb.size
  }

  ghost predicate InodeShape(sb: Super, ip: Inode) {
    && 0 <= ip.size <= MAXFILE * BSIZE && |ip.addrs| == NDIRECT + 1
    && forall k :: 0 <= k <= NDIRECT ==> ip.addrs[k] == 0 || IsData(sb, ip.addrs[k])
  }

  ghost predicate Shape(f: FS) {
    && ValidSuper(f.sb) && |f.vol| == f.sb.size
    && (forall b :: 0 <= b < f.sb.size ==> IsBlock(f.vol[b]))
    && (forall i :: 0 <= i < |f.inodes| ==> InodeShape(f.sb, f.inodes[i]))
  }

  // ---------------------------------------------------------------- the bitmap

  function BitmapBlock(sb: Super, b: int): int {
    b / BPB + sb.bmapstart
  }

  /** The byte of its bitmap block that the bit of block `b` is in. */
  function ByteNo(b: int): (k: int)
    ensures 0 <= k < BSIZE
  {
    b % BPB / 8
  }

  /** Bit `k` of a byte is the one worth the `k`-th power of two. */
  lemma {:induction false} BitValue(v: int, k: nat)
    requires 0 <= v && k < 8
    ensures GetBit(v, k) <==> v / [1, 2, 4, 8, 16, 32, 64, 128][k] % 2 == 1
    decreases k
  {
    if k > 0 {
      BitValue(v / 2, k - 1);
    }
  }

  lemma SameBit(b: int, c: int)
    requires b / BPB == c / BPB && ByteNo(b) == ByteNo(c) && b % 8 == c % 8
    ensures b == c
  {
    LowBits(b);
    LowBits(c);
    var x, y := b % BPB, c % BPB;
    assert x == 8 * (x / 8) + x % 8 && y == 8 * (y / 8) + y % 8;
  }

  lemma LowBits(b: int)
    ensures b == BPB * (b / BPB) + b % BPB && b % BPB % 8 == b % 8
  {
    var q, x := b / BPB, b % BPB;
    Remainder(b, BSIZE * q + x / 8, x % 8);
  }

  lemma Remainder(b: int, q: int, r: int)
    requires b == 8 * q + r && 0 <= r < 8
    ensures b % 8 == r
  {}

  lemma BitPlace(sb: Super, b: int, bi: int)
    requires b % BPB == 0 && 0 <= bi < BPB
    ensures BitmapBlock(sb, b + bi) == BitmapBlock(sb, b) && ByteNo(b + bi) == bi / 8 && (b + bi) % 8 == bi % 8
  {
    assert (b + bi) / BPB == b / BPB && (b + bi) % BPB == bi;
  }

  ghost predicate BitOf(f: FS, b: int)
    requires Shape(f) && 0 <= b < f.sb.size
  {
    GetBit(f.vol[BitmapBlock(f.sb, b)][ByteNo(b)], b % 8)
  }

  /** Where the bit of block `b` is: 4096 bits in each bitmap block, 8 in each byte, the lowest
      bit first. */
  lemma BitmapBit(f: FS, b: int)
    requires Shape(f) && 0 <= b < f.sb.size
    ensures 0 <= f.sb.bmapstart + b / 4096 < |f.vol| && |f.vol[f.sb.bmapstart + b / 4096]| == 512
    ensures var v := f.vol[f.sb.bmapstart + b / 4096][b % 4096 / 8];
            BitOf(f, b) <==> v / [1, 2, 4, 8, 16, 32, 64, 128][b % 8] % 2 == 1
  {
    hide GetBit;
    var bb, k := f.sb.bmapstart + b / 4096, b % 8;
    assert IsBlock(f.vol[bb]) && IsByte(f.vol[bb][ByteNo(b)]);
    BitValue(f.vol[bb][ByteNo(b)], k);
  }

  /** The volume after the bit of block `b` is set or cleared. */
  ghost function Mark(f: FS, b: int, on: bool): FS
    requires Shape(f) && 0 <= b < f.sb.size
  {
    var bb := BitmapBlock(f.sb, b);
    f.(vol := f.vol[bb := f.vol[bb][ByteNo(b) := PutBit(f.vol[bb][ByteNo(b)], b % 8, on)]])
  }

  lemma MarkShape(f: FS, b: int, on: bool)
    requires Shape(f) && 0 <= b < f.sb.size
    ensures Shape(Mark(f, b, on))
    ensures forall c :: IsData(f.sb, c) ==> Mark(f, b, on).vol[c] == f.vol[c]
  {
    hide GetBit, PutBit, IsByte, ByteNo;
    var bb := BitmapBlock(f.sb, b);
    assert IsBlock(f.vol[bb]);
    assert IsByte(f.vol[bb][ByteNo(b)]);
    PutBitByte(f.vol[bb][ByteNo(b)], b % 8, on);
  }

  lemma MarkAt(f: FS, b: int, on: bool, c: int)
    requires Shape(f) && 0 <= b < f.sb.size && 0 <= c < f.sb.size
    ensures Shape(Mark(f, b, on))
    ensures BitOf(Mark(f, b, on), c) == if c == b then on else BitOf(f, c)
  {
    hide GetBit, PutBit, ByteNo;
    MarkShape(f, b, on);
    var bb := BitmapBlock(f.sb, b);
    assert IsBlock(f.vol[bb]) && IsByte(f.vol[bb][ByteNo(b)]);
    if b / BPB == c / BPB && ByteNo(b) == ByteNo(c) {
      PutBitAt(f.vol[bb][ByteNo(b)], b % 8, on, c % 8);
      if b % 8 == c % 8 {
        SameBit(b, c);
      }
    }
  }

  // ---------------------------------------------------------------- the blocks of an inode

  /** The slots of an inode: the direct ones, the pointer to the indirect block (`NDIRECT`),
      and the entries of that block. */
  const NSLOTS: int := NDIRECT + 1 + NINDIRECT

  ghost predicate IsSlot(f: FS, i: int, s: int) {
    0 <= i < |f.inodes| && 0 <= s < NSLOTS
  }

  /** The block number in slot `s` of inode `i`, or 0. */
  ghost function Ref(f: FS, i: int, s: int): int
    requires Shape(f) && IsSlot(f, i, s)
  {
    var addrs := f.inodes[i].addrs;
    assert InodeShape(f.sb, f.inodes[i]);
    if s <= NDIRECT then addrs[s]
    else if addrs[NDIRECT] == 0 then 0
    else Word(f.vol[addrs[NDIRECT]], s - NDIRECT - 1)
  }

  /** The slot of the `bn`-th block of a file. */
  function SlotOf(bn: int): int {
    if bn < NDIRECT then bn else bn + 1
  }

  /** `addr` is the address of the `bn`-th block of a file: one of the first ten numbers in the
      inode, or four bytes, the lowest first, of the block that the eleventh names. */
  ghost predicate KeptAt(vol: seq<Block>, addrs: seq<int>, bn: int, addr: int) {
    && |addrs| == 11 && 0 <= bn < 138
    && (bn < 10 ==> addr == addrs[bn])
    && (bn >= 10 && addrs[10] == 0 ==> addr == 0)
    && (bn >= 10 && addrs[10] != 0 ==>
          && 0 < addrs[10] < |vol| && |vol[addrs[10]]| == 512
          && var p, j := vol[addrs[10]], 4 * (bn - 10);
             addr == p[j] + 0x100 * p[j + 1] + 0x1_0000 * p[j + 2] + 0x100_0000 * p[j + 3])
  }

  lemma AddressAt(f: FS, i: int, bn: int)
    requires Shape(f) && 0 <= i < |f.inodes| && 0 <= bn < MAXFILE
    ensures KeptAt(f.vol, f.inodes[i].addrs, bn, Ref(f, i, SlotOf(bn))) && Ref(f, i, 10) == f.inodes[i].addrs[10]
  {
    assert InodeShape(f.sb, f.inodes[i]);
  }

  ghost predicate RefsInData(f: FS)
    requires Shape(f)
  {
    forall i, s :: IsSlot(f, i, s) ==> Ref(f, i, s) == 0 || IsData(f.sb, Ref(f, i, s))
  }

  /** No block is in two slots. */
  ghost predicate Exclusive(f: FS)
    requires Shape(f)
  {
    forall i, s, j, t :: IsSlot(f, i, s) && IsSlot(f, j, t) && Ref(f, i, s) == Ref(f, j, t) && Ref(f, i, s) != 0
                         ==> i == j && s == t
  }

  ghost predicate Owned(f: FS, b: int)
    requires Shape(f)
  {
    exists i, s :: IsSlot(f, i, s) && Ref(f, i, s) == b
  }

  /** A block's bit is set exactly when it is metadata or in a slot of an inode. */
  ghost predicate Bitmap(f: FS)
    requires Shape(f)
  {
    forall b :: 0 <= b < f.sb.size ==> (BitOf(f, b) <==> b < f.sb.datastart || Owned(f, b))
  }

  ghost predicate WellFormed(f: FS) {
    Shape(f) && RefsInData(f) && Exclusive(f) && Bitmap(f)
  }

  // ---------------------------------------------------------------- changing the block map

  lemma IndirectIsData(f: FS, i: int)
    requires Shape(f) && 0 <= i < |f.inodes|
    ensures |f.inodes[i].addrs| == NDIRECT + 1
    ensures forall k :: 0 <= k <= NDIRECT ==> f.inodes[i].addrs[k] == 0 || IsData(f.sb, f.inodes[i].addrs[k])
    ensures 0 < f.sb.datastart
  {
    assert InodeShape(f.sb, f.inodes[i]);
  }

  /** The slots of inodes whose block map and indirect block are unchanged are unchanged. */
  lemma RefSame(f: FS, f': FS, i: int, s: int)
    requires Shape(f) && Shape(f') && f'.sb == f.sb && IsSlot(f, i, s) && IsSlot(f', i, s)
    requires f'.inodes[i].addrs == f.inodes[i].addrs
    requires var p := f.inodes[i].addrs[NDIRECT]; p != 0 && s > NDIRECT ==> f'.vol[p] == f.vol[p]
    ensures Ref(f', i, s) == Ref(f, i, s)
  {}

  function Zeros(): Block {
    seq(BSIZE, k => 0)
  }

  lemma ZerosAt(k: int)
    requires 0 <= k < NINDIRECT
    ensures IsBlock(Zeros()) && Word(Zeros(), k) == 0
  {}

  /** What `balloc` does for block `b`: take it and clear it. */
  ghost function Taken(f: FS, b: int): FS
    requires Shape(f) && 0 <= b < f.sb.size
  {
    var g := Mark(f, b, true);
    g.(vol := g.vol[b := Zeros()])
  }

  /** Put block `b` into a slot. */
  ghost function Assign(f: FS, i: int, s: int, b: int): FS
    requires Shape(f) && IsSlot(f, i, s) && (s > NDIRECT ==> f.inodes[i].addrs[NDIRECT] != 0)
  {
    assert InodeShape(f.sb, f.inodes[i]);
    var ip := f.inodes[i];
    if s <= NDIRECT then f.(inodes := f.inodes[i := ip.(addrs := ip.addrs[s := b])])
    else
      var p := ip.addrs[NDIRECT];
      f.(vol := f.vol[p := PutWord(f.vol[p], s - NDIRECT - 1, b)])
  }

  /** Blocks other than `b` and the bitmap keep their contents. */
  lemma TakenShape(f: FS, b: int)
    requires Shape(f) && IsData(f.sb, b)
    ensures Shape(Taken(f, b)) && Taken(f, b).vol[b] == Zeros()
    ensures Taken(f, b).sb == f.sb && Taken(f, b).inodes == f.inodes
    ensures forall c :: IsData(f.sb, c) && c != b ==> Taken(f, b).vol[c] == f.vol[c]
    ensures forall c :: 0 <= c < f.sb.size ==> (BitOf(Taken(f, b), c) <==> c == b || BitOf(f, c))
  {
    var g, t := Mark(f, b, true), Taken(f, b);
    MarkShape(f, b, true);
    ZerosAt(0);
    assert Shape(t);
    forall c | 0 <= c < f.sb.size ensures BitOf(t, c) <==> c == b || BitOf(f, c) {
      MarkAt(f, b, true, c);
      assert BitmapBlock(f.sb, c) < f.sb.datastart;
      assert t.vol[BitmapBlock(f.sb, c)] == g.vol[BitmapBlock(f.sb, c)];
    }
  }

  /** Block `b` is marked and holds zeros; no other block's mark and no other data have changed. */
  ghost predicate Cleared(f: FS, f': FS, b: int)
    requires Shape(f) && 0 <= b < f.sb.size
  {
    && Shape(f') && f'.sb == f.sb && f'.inodes == f.inodes && f'.vol[b] == seq(512, k => 0)
    && (forall c :: 0 <= c < f.sb.size ==> (BitOf(f', c) <==> c == b || BitOf(f, c)))
    && (forall c :: IsData(f.sb, c) && c != b ==> f'.vol[c] == f.vol[c])
  }

  ghost predicate RefsBut(f: FS, f': FS, i: int, s: int, b: int)
    requires Shape(f) && Shape(f') && |f'.inodes| == |f.inodes|
  {
    forall j, t :: IsSlot(f, j, t) ==> Ref(f', j, t) == if j == i && t == s then b else Ref(f, j, t)
  }

  /** A free block is in no slot. */
  lemma FreeIsUnowned(f: FS, b: int, j: int, t: int)
    requires WellFormed(f) && IsData(f.sb, b) && !BitOf(f, b) && IsSlot(f, j, t)
    ensures Ref(f, j, t) != b
  {
    assert !Owned(f, b);
  }

  ghost predicate Growable(f: FS, i: int, s: int, b: int) {
    && WellFormed(f) && IsSlot(f, i, s) && Ref(f, i, s) == 0 && IsData(f.sb, b) && !BitOf(f, b)
    && (s > NDIRECT ==> f.inodes[i].addrs[NDIRECT] != 0)
  }

  /** The state after block `b` is allocated into an empty slot. */
  ghost function Grown(f: FS, i: int, s: int, b: int): FS
    requires Growable(f, i, s, b) && Shape(Taken(f, b))
  {
    Assign(Taken(f, b), i, s, b)
  }

  lemma AssignShape(f: FS, i: int, s: int, b: int)
    requires Shape(f) && IsSlot(f, i, s) && IsData(f.sb, b) && (s > NDIRECT ==> f.inodes[i].addrs[NDIRECT] != 0)
    ensures Shape(Assign(f, i, s, b))
    ensures forall c :: 0 <= c < f.sb.size && !(s > NDIRECT && c == f.inodes[i].addrs[NDIRECT])
                        ==> Assign(f, i, s, b).vol[c] == f.vol[c]
  {
    hide IsBlock, Word, PutWord;
    IndirectIsData(f, i);
    assert InodeShape(f.sb, f.inodes[i]);
    if s > NDIRECT {
      var p := f.inodes[i].addrs[NDIRECT];
      assert IsBlock(f.vol[p]);
      PutWordAt(f.vol[p], s - NDIRECT - 1, b, 0);
    }
  }

  lemma GrownRef(f: FS, i: int, s: int, b: int, j: int, t: int)
    requires Growable(f, i, s, b) && Shape(Taken(f, b)) && Shape(Grown(f, i, s, b)) && IsSlot(f, j, t)
    ensures Ref(Grown(f, i, s, b), j, t) == if j == i && t == s then b else Ref(f, j, t)
  {
    hide Bitmap, Exclusive, RefsInData, IsBlock, Word, PutWord, BitOf, Mark, Zeros;
    IndirectIsData(f, j);
    GrownFrame(f, i, s, b, j);
    var p := f.inodes[j].addrs[NDIRECT];
    if t > NDIRECT && p != 0 {
      if j == i && s > NDIRECT {
        assert IsBlock(f.vol[p]) by { BlockAt(f, p); }
        PutWordAt(f.vol[p], s - NDIRECT - 1, b, t - NDIRECT - 1);
      }
    } else if t > NDIRECT && j == i && s == NDIRECT {
      ZerosAt(t - NDIRECT - 1);
    }
  }

  lemma BlockAt(f: FS, b: int)
    requires Shape(f) && 0 <= b < f.sb.size
    ensures IsBlock(f.vol[b]) && |f.vol| == f.sb.size
  {}

  /** What `GrownRef` needs of the volume and the inodes after an allocation. */
  lemma GrownFrame(f: FS, i: int, s: int, b: int, j: int)
    requires Growable(f, i, s, b) && Shape(Taken(f, b)) && 0 <= j < |f.inodes|
    ensures var f', p := Grown(f, i, s, b), f.inodes[j].addrs[NDIRECT];
            && f'.sb == f.sb && |f'.inodes| == |f.inodes| && |f.vol| == |f'.vol| == f.sb.size && 0 < f.sb.datastart
            && (f'.inodes[j].addrs == if j == i && s <= NDIRECT then f.inodes[j].addrs[s := b] else f.inodes[j].addrs)
            && (p != 0 ==> IsData(f.sb, p) && p != b)
            && (p != 0 ==> f'.vol[p] == if j == i && s > NDIRECT then PutWord(f.vol[p], s - NDIRECT - 1, b) else f.vol[p])
            && (s <= NDIRECT ==> f'.vol[b] == Zeros())
  {
    hide Word, PutWord, IsBlock, Mark, BitOf;
    TakenShape(f, b);
    IndirectIsData(f, j);
    IndirectIsData(f, i);
    FreeIsUnowned(f, b, j, NDIRECT);
    assert Ref(f, j, NDIRECT) == f.inodes[j].addrs[NDIRECT] && Ref(f, i, NDIRECT) == f.inodes[i].addrs[NDIRECT];
  }

  lemma GrownShape(f: FS, i: int, s: int, b: int)
    requires Growable(f, i, s, b)
    ensures Shape(Taken(f, b)) && Shape(Grown(f, i, s, b))
    ensures Grown(f, i, s, b).sb == f.sb && |Grown(f, i, s, b).inodes| == |f.inodes|
    ensures RefsBut(f, Grown(f, i, s, b), i, s, b)
    ensures forall c :: 0 <= c < f.sb.size ==> (BitOf(Grown(f, i, s, b), c) <==> c == b || BitOf(f, c))
  {
    hide Bitmap, Exclusive, RefsInData, IsBlock, Word, PutWord, GetBit, Mark, Zeros, Ref;
    TakenShape(f, b);
    IndirectIsData(f, i);
    AssignShape(Taken(f, b), i, s, b);
    var f' := Grown(f, i, s, b);
    forall j, t | IsSlot(f, j, t) ensures Ref(f', j, t) == if j == i && t == s then b else Ref(f, j, t) {
      GrownRef(f, i, s, b, j, t);
    }
    forall c | 0 <= c < f.sb.size ensures BitOf(f', c) <==> c == b || BitOf(f, c) {
      assert BitmapBlock(f.sb, c) < f.sb.datastart;
      assert f'.vol[BitmapBlock(f.sb, c)] == Taken(f, b).vol[BitmapBlock(f.sb, c)];
    }
  }

  /** Filling an empty slot with a free block keeps the invariants. */
  lemma GrownWellFormed(f: FS, i: int, s: int, b: int)
    requires Growable(f, i, s, b)
    ensures Shape(Taken(f, b)) && WellFormed(Grown(f, i, s, b))
    ensures RefsBut(f, Grown(f, i, s, b), i, s, b)
  {
    hide Shape, BitOf, Ref, Taken, Assign;
    GrownShape(f, i, s, b);
    var f' := Grown(f, i, s, b);
    forall j, t | IsSlot(f, j, t) ensures Ref(f, j, t) != b {
      FreeIsUnowned(f, b, j, t);
    }
    DataAboveZero(f);
    forall c | IsData(f.sb, c) ensures Owned(f', c) <==> c == b || Owned(f, c) {
      OwnedGrown(f, f', i, s, b, c);
    }
  }

  lemma DataAboveZero(f: FS)
    requires Shape(f)
    ensures 0 < f.sb.datastart
  {}

  lemma OwnedGrown(f: FS, f': FS, i: int, s: int, b: int, c: int)
    requires Shape(f) && Shape(f') && |f'.inodes| == |f.inodes| && RefsBut(f, f', i, s, b) && IsSlot(f, i, s)
    ensures Owned(f', c) ==> c == b || Owned(f, c)
    ensures c == b || (Owned(f, c) && c != Ref(f, i, s)) ==> Owned(f', c)
  {
    hide Shape, Ref;
    if Owned(f', c) {
      var j, t :| IsSlot(f', j, t) && Ref(f', j, t) == c;
      assert IsSlot(f, j, t);
    }
    if Owned(f, c) && c != Ref(f, i, s) {
      var j, t :| IsSlot(f, j, t) && Ref(f, j, t) == c;
      assert IsSlot(f', j, t) && Ref(f', j, t) == c;
    }
    if c == b {
      assert IsSlot(f', i, s) && Ref(f', i, s) == b;
    }
  }

  // ---------------------------------------------------------------- contents

  /** The state after the contents of block `b` are replaced. */
  ghost function Stored(f: FS, b: int, data: Block): FS
    requires Shape(f) && 0 <= b < f.sb.size
  {
    f.(vol := f.vol[b := data])
  }

  /** Writing a file's data block changes no block map and no bit. */
  lemma StoredKeeps(f: FS, i: int, bn: int, data: Block)
    requires WellFormed(f) && 0 <= i < |f.inodes| && 0 <= bn < MAXFILE && IsBlock(data)
    requires Ref(f, i, SlotOf(bn)) != 0
    ensures IsData(f.sb, Ref(f, i, SlotOf(bn)))
    ensures var f' := Stored(f, Ref(f, i, SlotOf(bn)), data);
            WellFormed(f') && forall j, t :: IsSlot(f, j, t) ==> Ref(f', j, t) == Ref(f, j, t)
  {
    hide IsBlock, GetBit, Word;
    var b := Ref(f, i, SlotOf(bn));
    assert IsSlot(f, i, SlotOf(bn));
    var f' := Stored(f, b, data);
    assert Shape(f');
    forall j, t | IsSlot(f, j, t) ensures Ref(f', j, t) == Ref(f, j, t) {
      IndirectIsData(f, j);
      assert IsSlot(f, j, NDIRECT) && Ref(f, j, NDIRECT) == f.inodes[j].addrs[NDIRECT];
      RefSame(f, f', j, t);
    }
    SameRefs(f, f');
  }

  /** A state with the same block maps and the same bits is as well formed. */
  lemma SameRefs(f: FS, f': FS)
    requires WellFormed(f) && Shape(f') && f'.sb == f.sb && |f'.inodes| == |f.inodes|
    requires forall j, t :: IsSlot(f, j, t) ==> Ref(f', j, t) == Ref(f, j, t)
    requires forall c :: 0 <= c < f.sb.datastart ==> f'.vol[c] == f.vol[c]
    ensures WellFormed(f')
  {
    hide GetBit, Ref, IsBlock;
    forall c | 0 <= c < f.sb.size ensures BitOf(f', c) == BitOf(f, c) {
      assert BitmapBlock(f.sb, c) < f.sb.datastart;
    }
    forall c ensures Owned(f', c) <==> Owned(f, c) {
      if Owned(f, c) {
        var j, t :| IsSlot(f, j, t) && Ref(f, j, t) == c;
        assert IsSlot(f', j, t);
      }
      if Owned(f', c) {
        var j, t :| IsSlot(f', j, t) && Ref(f', j, t) == c;
        assert IsSlot(f, j, t);
      }
    }
  }

  /** Byte `o` of inode `i`; a byte of a block that is not there is 0. */
  ghost function ByteAt(f: FS, i: int, o: int): int
    requires WellFormed(f) && 0 <= i < |f.inodes| && 0 <= o < MAXFILE * BSIZE
  {
    assert IsSlot(f, i, SlotOf(o / BSIZE));
    var b := Ref(f, i, SlotOf(o / BSIZE));
    if b == 0 then 0 else f.vol[b][o % BSIZE]
  }

  /** The contents of a file. */
  ghost function Content(f: FS, i: int): (bytes: seq<int>)
    requires WellFormed(f) && 0 <= i < |f.inodes|
    ensures |bytes| == f.inodes[i].size
    ensures forall o :: 0 <= o < |bytes| ==> bytes[o] == ByteAt(f, i, o)
  {
    assert InodeShape(f.sb, f.inodes[i]);
    seq(f.inodes[i].size, o requires 0 <= o < f.inodes[i].size => ByteAt(f, i, o))
  }

  /** Where a byte of a file is on the volume: at its place in block `addr`, or nowhere and 0. */
  lemma FileByte(f: FS, i: int, o: int)
    requires WellFormed(f) && 0 <= i < |f.inodes| && 0 <= o < f.inodes[i].size
    ensures var bn, addrs, byte := o / 512, f.inodes[i].addrs, Content(f, i)[o];
            && |addrs| == 11 && bn < 138
            && (bn < 10 && addrs[bn] == 0 ==> byte == 0)
            && (bn < 10 && addrs[bn] != 0 ==>
                  0 < addrs[bn] < |f.vol| && |f.vol[addrs[bn]]| == 512 && byte == f.vol[addrs[bn]][o % 512])
            && (bn >= 10 && addrs[10] == 0 ==> byte == 0)
            && (bn >= 10 && addrs[10] != 0 ==>
                  && 0 < addrs[10] < |f.vol| && |f.vol[addrs[10]]| == 512
                  && var p, j := f.vol[addrs[10]], 4 * (bn - 10);
                     var e := p[j] + 0x100 * p[j + 1] + 0x1_0000 * p[j + 2] + 0x100_0000 * p[j + 3];
                     && (e == 0 ==> byte == 0)
                     && (e != 0 ==> 0 < e < |f.vol| && |f.vol[e]| == 512 && byte == f.vol[e][o % 512]))
  {
    hide Bitmap, Exclusive, Ref, Word;
    SizeOk(f, i);
    var bn := o / BSIZE;
    AddressAt(f, i, bn);
    DataAboveZero(f);
    var addr := Ref(f, i, SlotOf(bn));
    if addr != 0 {
      assert IsSlot(f, i, SlotOf(bn));
      BlockAt(f, addr);
    }
  }

  /** Every block of the file's extent is there. */
  ghost predicate HoleFree(f: FS, i: int)
    requires Shape(f) && 0 <= i < |f.inodes|
  {
    forall bn :: 0 <= bn < MAXFILE && bn * BSIZE < f.inodes[i].size ==> Ref(f, i, SlotOf(bn)) != 0
  }

  /** Some byte of the range that is inside the file is in a hole. */
  ghost predicate HoleIn(f: FS, i: int, from: int, to: int)
    requires Shape(f) && 0 <= i < |f.inodes|
  {
    exists o :: 0 <= o / BSIZE < MAXFILE && from <= o < to && o < f.inodes[i].size && Ref(f, i, SlotOf(o / BSIZE)) == 0
  }

  /** Allocating a block, which is cleared, changes no byte of any file. */
  lemma GrownByte(f: FS, i: int, s: int, b: int, j: int, o: int)
    requires Growable(f, i, s, b) && Shape(Taken(f, b)) && WellFormed(Grown(f, i, s, b))
    requires RefsBut(f, Grown(f, i, s, b), i, s, b) && 0 <= j < |f.inodes| && 0 <= o < MAXFILE * BSIZE
    ensures |Grown(f, i, s, b).inodes| == |f.inodes|
    ensures ByteAt(Grown(f, i, s, b), j, o) == ByteAt(f, j, o)
  {
    hide Bitmap, RefsInData, IsBlock, Word, PutWord, BitOf, Mark, Ref;
    var f', t := Grown(f, i, s, b), SlotOf(o / BSIZE);
    assert IsSlot(f, j, t) && t != NDIRECT;
    var c := Ref(f, j, t);
    GrownFrame(f, i, s, b, i);
    if c != 0 {
      DataRef(f, j, t);
      FreeIsUnowned(f, b, j, t);
      GrownVol(f, i, s, b, c);
      assert IsSlot(f, i, NDIRECT);
      assert f.inodes[i].addrs[NDIRECT] == Ref(f, i, NDIRECT) by { PointerRef(f, i); }
    } else if j == i && t == s {
      GrownVol(f, i, s, b, b);
    }
  }

  lemma DataRef(f: FS, j: int, t: int)
    requires WellFormed(f) && IsSlot(f, j, t) && Ref(f, j, t) != 0
    ensures IsData(f.sb, Ref(f, j, t)) && |f.vol| == f.sb.size && 0 < f.sb.datastart
  {}

  lemma PointerRef(f: FS, i: int)
    requires Shape(f) && 0 <= i < |f.inodes|
    ensures |f.inodes[i].addrs| == NDIRECT + 1
    ensures forall k :: 0 <= k <= NDIRECT ==> Ref(f, i, k) == f.inodes[i].addrs[k]
  {
    assert InodeShape(f.sb, f.inodes[i]);
  }

  lemma EntryRef(f: FS, i: int, bn: int)
    requires Shape(f) && 0 <= i < |f.inodes| && NDIRECT <= bn < MAXFILE
    ensures var p := f.inodes[i].addrs[NDIRECT];
            if p == 0 then Ref(f, i, SlotOf(bn)) == 0
            else 0 <= p < |f.vol| && |f.vol[p]| == BSIZE && Ref(f, i, SlotOf(bn)) == Word(f.vol[p], bn - NDIRECT)
  {
    assert InodeShape(f.sb, f.inodes[i]);
  }

  lemma GrownVol(f: FS, i: int, s: int, b: int, c: int)
    requires Growable(f, i, s, b) && Shape(Taken(f, b)) && IsData(f.sb, c)
    ensures |Grown(f, i, s, b).vol| == f.sb.size
    ensures c == b && !(s > NDIRECT && b == f.inodes[i].addrs[NDIRECT]) ==> Grown(f, i, s, b).vol[c] == Zeros()
    ensures c != b && !(s > NDIRECT && c == f.inodes[i].addrs[NDIRECT]) ==> Grown(f, i, s, b).vol[c] == f.vol[c]
  {
    hide Word, PutWord, IsBlock, Mark, BitOf, Zeros;
    TakenShape(f, b);
    AssignShape(Taken(f, b), i, s, b);
  }

  lemma StoredByte(f: FS, i: int, bn: int, data: Block, j: int, o: int)
    requires WellFormed(f) && 0 <= i < |f.inodes| && 0 <= bn < MAXFILE && IsBlock(data) && Ref(f, i, SlotOf(bn)) != 0
    requires 0 <= j < |f.inodes| && 0 <= o < MAXFILE * BSIZE
    requires IsData(f.sb, Ref(f, i, SlotOf(bn))) && WellFormed(Stored(f, Ref(f, i, SlotOf(bn)), data))
    ensures ByteAt(Stored(f, Ref(f, i, SlotOf(bn)), data), j, o) ==
            if j == i && o / BSIZE == bn then data[o % BSIZE] else ByteAt(f, j, o)
  {
    hide Bitmap, RefsInData, IsBlock, BitOf, Ref;
    StoredKeeps(f, i, bn, data);
    var t := SlotOf(o / BSIZE);
    assert IsSlot(f, j, t) && IsSlot(f, i, SlotOf(bn));
    if Ref(f, j, t) != 0 {
      DataRef(f, j, t);
    }
  }

  /** `f'` is `f` with blocks added to inode `i`: no slot that was filled changes, no other
      inode changes, and no byte changes. */
  ghost predicate Extends(f: FS, f': FS, i: int) {
    && WellFormed(f) && WellFormed(f') && f'.sb == f.sb && |f'.inodes| == |f.inodes|
    && (forall j :: 0 <= j < |f.inodes| ==> f'.inodes[j].size == f.inodes[j].size)
    && (forall j :: 0 <= j < |f.inodes| && j != i ==> f'.inodes[j] == f.inodes[j])
    && (forall j, t :: IsSlot(f, j, t) && (j != i || Ref(f, j, t) != 0) ==> Ref(f', j, t) == Ref(f, j, t))
    && (forall j, o :: 0 <= j < |f.inodes| && 0 <= o < MAXFILE * BSIZE ==> ByteAt(f', j, o) == ByteAt(f, j, o))
  }

  lemma ExtendsGrown(f: FS, i: int, s: int, b: int)
    requires Growable(f, i, s, b)
    ensures Shape(Taken(f, b)) && Extends(f, Grown(f, i, s, b), i)
    ensures Ref(Grown(f, i, s, b), i, s) == b
  {
    GrownWellFormed(f, i, s, b);
    hide WellFormed, Ref, ByteAt, Taken, IsSlot;
    var f' := Grown(f, i, s, b);
    assert RefsBut(f, f', i, s, b);
    GrownInodes(f, i, s, b);
    forall j, o | 0 <= j < |f.inodes| && 0 <= o < MAXFILE * BSIZE ensures ByteAt(f', j, o) == ByteAt(f, j, o) {
      GrownByte(f, i, s, b, j, o);
    }
  }

  lemma GrownInodes(f: FS, i: int, s: int, b: int)
    requires Growable(f, i, s, b) && Shape(Taken(f, b))
    ensures var f' := Grown(f, i, s, b);
            && f'.sb == f.sb && |f'.inodes| == |f.inodes|
            && (forall j :: 0 <= j < |f.inodes| ==> f'.inodes[j].size == f.inodes[j].size)
            && (forall j :: 0 <= j < |f.inodes| && j != i ==> f'.inodes[j] == f.inodes[j])
  {}

  lemma ExtendsTrans(f: FS, g: FS, h: FS, i: int)
    requires Extends(f, g, i) && Extends(g, h, i)
    ensures Extends(f, h, i)
  {
    hide Shape, Bitmap, Exclusive, RefsInData, Ref, ByteAt;
    forall j, t | IsSlot(f, j, t) && (j != i || Ref(f, j, t) != 0) ensures Ref(h, j, t) == Ref(f, j, t) {
      assert IsSlot(g, j, t);
    }
  }

  lemma ExtendsContent(f: FS, g: FS, i: int)
    requires Extends(f, g, i)
    ensures WellFormed(f) && WellFormed(g) && |g.inodes| == |f.inodes|
    ensures forall j :: 0 <= j < |f.inodes| ==> g.inodes[j].size == f.inodes[j].size && Content(g, j) == Content(f, j)
  {
    hide Bitmap, Exclusive, RefsInData, Shape, Ref, ByteAt;
    forall j | 0 <= j < |f.inodes| ensures Content(g, j) == Content(f, j) {
      SizeOk(f, j);
    }
  }

  lemma ExtendsRefl(f: FS, i: int)
    requires WellFormed(f)
    ensures Extends(f, f, i)
  {}

  lemma ExtendsShape(f: FS, f': FS, i: int)
    requires Extends(f, f', i)
    ensures WellFormed(f') && f'.sb == f.sb && |f'.inodes| == |f.inodes|
  {}

  lemma TakenElsewhere(f: FS, i: int, b: int)
    requires WellFormed(f) && 0 <= i < |f.inodes| && IsData(f.sb, b) && !BitOf(f, b) && f.inodes[i].addrs[NDIRECT] != 0
    ensures Taken(f, b).vol[f.inodes[i].addrs[NDIRECT]] == f.vol[f.inodes[i].addrs[NDIRECT]]
  {
    hide Mark, BitOf;
    TakenShape(f, b);
    PointerRef(f, i);
    IndirectIsData(f, i);
    FreeIsUnowned(f, b, i, NDIRECT);
  }

  // ---------------------------------------------------------------- reading and writing

  /** `a` with `piece` in place of what it has from `at` on. */
  function Splice(a: seq<int>, at: int, piece: seq<int>): seq<int>
    requires 0 <= at <= |a|
  {
    a[..at] + piece + (if at + |piece| <= |a| then a[at + |piece|..] else [])
  }

  /** Byte by byte: `piece` is at `at`, and the rest of `a` is where it was. */
  ghost predicate Overwritten(a: seq<int>, a': seq<int>, at: int, piece: seq<int>) {
    && 0 <= at && |a'| == (if |a| >= at + |piece| then |a| else at + |piece|)
    && (forall k :: 0 <= k < |piece| ==> a'[at + k] == piece[k])
    && (forall o :: 0 <= o < |a| && !(at <= o < at + |piece|) ==> a'[o] == a[o])
  }

  lemma SpliceOverwrites(a: seq<int>, at: int, piece: seq<int>)
    requires 0 <= at <= |a|
    ensures Overwritten(a, Splice(a, at, piece), at, piece)
  {}

  ghost predicate Bytes(src: seq<int>) {
    forall k :: 0 <= k < |src| ==> IsByte(src[k])
  }

  ghost function Max(a: int, b: int): int {
    if a >= b then a else b
  }

  /** The state when `writei` has written the first `tot` bytes of `src`, and has not yet
      changed the size. */
  ghost predicate Writing(f: FS, f': FS, i: int, off: int, src: seq<int>, tot: int) {
    && WellFormed(f) && WellFormed(f') && f'.sb == f.sb && |f'.inodes| == |f.inodes| && 0 <= i < |f.inodes|
    && 0 <= off <= f.inodes[i].size && 0 <= tot <= |src| && off + |src| <= MAXFILE * BSIZE
    && (forall j :: 0 <= j < |f.inodes| ==> f'.inodes[j].size == f.inodes[j].size)
    && (forall j :: 0 <= j < |f.inodes| && j != i ==> f'.inodes[j] == f.inodes[j])
    && (HoleFree(f, i) && off + tot <= f.inodes[i].size ==> f'.inodes[i] == f.inodes[i])
    && (HoleFree(f, i) ==>
          forall bn :: 0 <= bn < MAXFILE && bn * BSIZE < Max(f.inodes[i].size, off + tot) ==> Ref(f', i, SlotOf(bn)) != 0)
    && (forall j, t :: IsSlot(f, j, t) && j != i ==> Ref(f', j, t) == Ref(f, j, t))
    && (forall j, o :: 0 <= j < |f.inodes| && 0 <= o < MAXFILE * BSIZE ==>
          ByteAt(f', j, o) == if j == i && off <= o < off + tot then src[o - off] else ByteAt(f, j, o))
  }

  ghost predicate Fits(f: FS, i: int, pos: int, piece: seq<int>) {
    && WellFormed(f) && 0 <= i < |f.inodes| && 0 <= pos < MAXFILE * BSIZE && Bytes(piece)
    && pos % BSIZE + |piece| <= BSIZE && Ref(f, i, SlotOf(pos / BSIZE)) != 0
  }

  /** The state after `piece` is put into inode `i` at `pos`, within one block. */
  ghost function Patched(f: FS, i: int, pos: int, piece: seq<int>): FS
    requires Fits(f, i, pos, piece)
  {
    DataRef(f, i, SlotOf(pos / BSIZE));
    BlockAt(f, Ref(f, i, SlotOf(pos / BSIZE)));
    Stored(f, Ref(f, i, SlotOf(pos / BSIZE)), Splice(f.vol[Ref(f, i, SlotOf(pos / BSIZE))], pos % BSIZE, piece))
  }

  lemma PatchedKeeps(f: FS, i: int, pos: int, piece: seq<int>)
    requires Fits(f, i, pos, piece)
    ensures var f' := Patched(f, i, pos, piece);
            && WellFormed(f') && f'.sb == f.sb && f'.inodes == f.inodes
            && forall j, t :: IsSlot(f, j, t) ==> Ref(f', j, t) == Ref(f, j, t)
  {
    hide Bitmap, Exclusive, RefsInData, Shape, Ref;
    var b := Ref(f, i, SlotOf(pos / BSIZE));
    DataRef(f, i, SlotOf(pos / BSIZE));
    BlockAt(f, b);
    assert IsBlock(Splice(f.vol[b], pos % BSIZE, piece));
    StoredKeeps(f, i, pos / BSIZE, Splice(f.vol[b], pos % BSIZE, piece));
  }

  lemma PatchedByte(f: FS, i: int, pos: int, piece: seq<int>, j: int, o: int)
    requires Fits(f, i, pos, piece) && WellFormed(Patched(f, i, pos, piece))
    requires 0 <= j < |f.inodes| && 0 <= o < MAXFILE * BSIZE
    ensures ByteAt(Patched(f, i, pos, piece), j, o) ==
            if j == i && pos <= o < pos + |piece| then piece[o - pos] else ByteAt(f, j, o)
  {
    hide Bitmap, Exclusive, RefsInData, Shape, Ref;
    var b := Ref(f, i, SlotOf(pos / BSIZE));
    DataRef(f, i, SlotOf(pos / BSIZE));
    BlockAt(f, b);
    var data := Splice(f.vol[b], pos % BSIZE, piece);
    StoredByte(f, i, pos / BSIZE, data, j, o);
    assert o / BSIZE == pos / BSIZE ==> o - pos == o % BSIZE - pos % BSIZE;
  }

  /** One turn of the loop of `writei`: the block at `off + tot` is mapped, giving `g`, and the
      next `m` bytes go into it. */
  lemma WritingStep(f: FS, f': FS, g: FS, i: int, off: int, src: seq<int>, tot: int, m: int)
    requires Writing(f, f', i, off, src, tot) && Extends(f', g, i) && Bytes(src)
    requires 0 < m && tot + m <= |src| && (off + tot) % BSIZE + m <= BSIZE
    requires Ref(g, i, SlotOf((off + tot) / BSIZE)) != 0
    requires Ref(f', i, SlotOf((off + tot) / BSIZE)) != 0 ==> g == f'
    ensures Fits(g, i, off + tot, src[tot..tot + m])
    ensures Writing(f, Patched(g, i, off + tot, src[tot..tot + m]), i, off, src, tot + m)
  {
    hide Bitmap, Exclusive, RefsInData, Shape, Ref, ByteAt, Patched;
    var pos, piece := off + tot, src[tot..tot + m];
    assert Fits(g, i, pos, piece);
    PatchedKeeps(g, i, pos, piece);
    var h := Patched(g, i, pos, piece);
    forall j, o | 0 <= j < |f.inodes| && 0 <= o < MAXFILE * BSIZE
      ensures ByteAt(h, j, o) == if j == i && off <= o < pos + m then src[o - off] else ByteAt(f, j, o)
    {
      PatchedByte(g, i, pos, piece, j, o);
    }
    forall bn | HoleFree(f, i) && 0 <= bn < MAXFILE && bn * BSIZE < Max(f.inodes[i].size, pos + m) ensures Ref(h, i, SlotOf(bn)) != 0 {
      assert IsSlot(g, i, SlotOf(bn));
      assert bn * BSIZE < Max(f.inodes[i].size, pos) || bn == pos / BSIZE;
    }
    forall j, t | IsSlot(f, j, t) && j != i ensures Ref(h, j, t) == Ref(f, j, t) {
      assert IsSlot(f', j, t) && IsSlot(g, j, t);
    }
  }

  lemma WritingStart(f: FS, i: int, off: int, src: seq<int>)
    requires WellFormed(f) && 0 <= i < |f.inodes|
    requires 0 <= off <= f.inodes[i].size && off + |src| <= MAXFILE * BSIZE
    ensures Writing(f, f, i, off, src, 0)
  {
    hide Bitmap, Exclusive, RefsInData, Shape, Ref, ByteAt;
  }

  ghost function Resized(f: FS, i: int, size: int): FS
    requires 0 <= i < |f.inodes|
  {
    f.(inodes := f.inodes[i := f.inodes[i].(size := size)])
  }

  /** The size plays no part in the block map, or in where a byte is. */
  lemma ResizedKeeps(f: FS, i: int, size: int)
    requires WellFormed(f) && 0 <= i < |f.inodes| && 0 <= size <= MAXFILE * BSIZE
    ensures WellFormed(Resized(f, i, size))
    ensures forall j, t :: IsSlot(f, j, t) ==> Ref(Resized(f, i, size), j, t) == Ref(f, j, t)
  {
    var f' := Resized(f, i, size);
    forall j | 0 <= j < |f'.inodes| ensures InodeShape(f'.sb, f'.inodes[j]) {
      assert InodeShape(f.sb, f.inodes[j]);
    }
    forall j, t | IsSlot(f, j, t) ensures Ref(f', j, t) == Ref(f, j, t) {
      PointerRef(f, j);
      RefSame(f, f', j, t);
    }
    SameRefs(f, f');
  }

  lemma ResizedByte(f: FS, i: int, size: int, j: int, o: int)
    requires WellFormed(f) && 0 <= i < |f.inodes| && WellFormed(Resized(f, i, size))
    requires 0 <= size <= MAXFILE * BSIZE && 0 <= j < |f.inodes| && 0 <= o < MAXFILE * BSIZE
    ensures ByteAt(Resized(f, i, size), j, o) == ByteAt(f, j, o)
  {
    hide Bitmap, Exclusive, RefsInData, Ref;
    ResizedKeeps(f, i, size);
    assert IsSlot(f, j, SlotOf(o / BSIZE));
  }

  /** A finished write: the file has `src` at `off`, is as long as that needs, and still has no
      holes; and no other file has changed. */
  lemma WritingDone(f: FS, f': FS, i: int, off: int, src: seq<int>)
    requires Writing(f, f', i, off, src, |src|)
    ensures var h := Resized(f', i, Max(f.inodes[i].size, off + |src|));
            && WellFormed(h) && |h.inodes| == |f.inodes| && (HoleFree(f, i) ==> HoleFree(h, i))
            && Content(h, i) == Splice(Content(f, i), off, src)
            && (forall j :: 0 <= j < |f.inodes| && j != i ==> h.inodes[j] == f.inodes[j] && Content(h, j) == Content(f, j))
            && (forall j, t :: IsSlot(f, j, t) && j != i ==> Ref(h, j, t) == Ref(f, j, t))
  {
    hide Bitmap, Exclusive, RefsInData, Ref, ByteAt, Shape;
    var size := Max(f.inodes[i].size, off + |src|);
    SizeOk(f, i);
    ResizedKeeps(f', i, size);
    var h := Resized(f', i, size);
    forall j, o | 0 <= j < |f.inodes| && 0 <= o < MAXFILE * BSIZE
      ensures ByteAt(h, j, o) == if j == i && off <= o < off + |src| then src[o - off] else ByteAt(f, j, o)
    {
      ResizedByte(f', i, size, j, o);
    }
    forall bn | HoleFree(f, i) && 0 <= bn < MAXFILE && bn * BSIZE < size ensures Ref(h, i, SlotOf(bn)) != 0 {
      assert IsSlot(f', i, SlotOf(bn));
    }
    forall j | 0 <= j < |f.inodes| && j != i ensures Content(h, j) == Content(f, j) {
      SizeOk(f, j);
    }
  }

  /** Within the extent of a file without holes, every block is mapped. */
  lemma Mapped(f: FS, i: int, pos: int)
    requires Shape(f) && 0 <= i < |f.inodes| && HoleFree(f, i) && 0 <= pos < f.inodes[i].size
    ensures 0 <= pos / BSIZE < MAXFILE && Ref(f, i, SlotOf(pos / BSIZE)) != 0
  {
    SizeOk(f, i);
  }

  lemma PieceAt(pos: int, k: int, m: int)
    requires 0 <= pos && 0 <= k < m && pos % BSIZE + m <= BSIZE
    ensures (pos + k) / BSIZE == pos / BSIZE && (pos + k) % BSIZE == pos % BSIZE + k
  {}

  /** A piece of one block lies in a hole as a whole or not at all. */
  lemma HoleInPiece(f: FS, i: int, from: int, pos: int, m: int)
    requires Shape(f) && 0 <= i < |f.inodes| && 0 <= from <= pos && 0 < m && pos + m <= f.inodes[i].size
    requires pos % BSIZE + m <= BSIZE && pos / BSIZE < MAXFILE
    ensures HoleIn(f, i, from, pos + m) <==> HoleIn(f, i, from, pos) || Ref(f, i, SlotOf(pos / BSIZE)) == 0
    ensures forall to :: pos < to && Ref(f, i, SlotOf(pos / BSIZE)) == 0 ==> HoleIn(f, i, from, to)
  {
    hide Shape, Ref, SlotOf;
    forall o | pos <= o < pos + m ensures o / BSIZE == pos / BSIZE {
      PieceAt(pos, o - pos, m);
    }
  }

  lemma HoleInEnd(f: FS, i: int, from: int, to: int)
    requires Shape(f) && 0 <= i < |f.inodes| && f.inodes[i].size <= to
    ensures HoleIn(f, i, from, to) <==> HoleIn(f, i, from, f.inodes[i].size)
  {
    hide Shape, Ref;
  }

  lemma ReadPiece(f: FS, i: int, pos: int, m: int)
    requires WellFormed(f) && 0 <= i < |f.inodes| && 0 <= pos && 0 <= m && pos + m <= f.inodes[i].size
    requires pos % BSIZE + m <= BSIZE && pos / BSIZE < MAXFILE && Ref(f, i, SlotOf(pos / BSIZE)) != 0
    ensures var b := Ref(f, i, SlotOf(pos / BSIZE));
            && 0 <= b < |f.vol| && |f.vol[b]| == BSIZE
            && f.vol[b][pos % BSIZE..pos % BSIZE + m] == Content(f, i)[pos..pos + m]
  {
    hide Bitmap, Exclusive, RefsInData, Shape, Ref;
    DataRef(f, i, SlotOf(pos / BSIZE));
    var b := Ref(f, i, SlotOf(pos / BSIZE));
    BlockAt(f, b);
    SizeOk(f, i);
    var stored, content := f.vol[b][pos % BSIZE..pos % BSIZE + m], Content(f, i)[pos..pos + m];
    forall k | 0 <= k < m ensures stored[k] == content[k] {
      PieceAt(pos, k, m);
      assert content[k] == ByteAt(f, i, pos + k);
    }
  }

  lemma WritingShape(f: FS, f': FS, i: int, off: int, src: seq<int>, tot: int)
    requires Writing(f, f', i, off, src, tot)
    ensures WellFormed(f') && |f'.inodes| == |f.inodes| && 0 <= i < |f.inodes| && f'.inodes[i].size == f.inodes[i].size
    ensures Shape(f) && (HoleFree(f, i) && off + tot <= f.inodes[i].size ==> f'.inodes[i] == f.inodes[i])
    ensures off + |src| <= MAXFILE * BSIZE
  {}

  lemma PatchedIs(f: FS, i: int, pos: int, piece: seq<int>)
    requires Fits(f, i, pos, piece)
    ensures var b := Ref(f, i, SlotOf(pos / BSIZE));
            && 0 <= b < |f.vol| && |f.vol[b]| == BSIZE
            && Patched(f, i, pos, piece) == f.(vol := f.vol[b := Splice(f.vol[b], pos % BSIZE, piece)])
  {
    hide Bitmap, Exclusive, RefsInData, Shape, Ref;
    DataRef(f, i, SlotOf(pos / BSIZE));
    BlockAt(f, Ref(f, i, SlotOf(pos / BSIZE)));
  }

  lemma SizeOk(f: FS, i: int)
    requires Shape(f) && 0 <= i < |f.inodes|
    ensures 0 <= f.inodes[i].size <= MAXFILE * BSIZE
  {
    assert InodeShape(f.sb, f.inodes[i]);
  }

  // ---------------------------------------------------------------- truncation

  /** The order in which `itrunc` frees slots: direct blocks, indirect entries, the indirect
      block itself. */
  function Rank(s: int): int {
    if s < NDIRECT then s else if s > NDIRECT then s - 1 else NSLOTS - 1
  }

  ghost predicate FreedBy(f: FS, i: int, k: int, c: int)
    requires Shape(f) && 0 <= i < |f.inodes|
  {
    exists s :: IsSlot(f, i, s) && Rank(s) < k && Ref(f, i, s) == c
  }

  /** The state when `itrunc` has dealt with the first `k` slots: their blocks are free, and
      nothing else has changed but the inode's own block map. */
  ghost predicate Freeing(f: FS, g: FS, i: int, k: int) {
    && WellFormed(f) && Shape(g) && g.sb == f.sb && |g.inodes| == |f.inodes| && 0 <= i < |f.inodes|
    && (forall j :: 0 <= j < |f.inodes| && j != i ==> g.inodes[j] == f.inodes[j])
    && (forall c :: IsData(f.sb, c) ==> g.vol[c] == f.vol[c])
    && (forall c :: 0 <= c < f.sb.size ==> (BitOf(g, c) <==> BitOf(f, c) && !(IsData(f.sb, c) && FreedBy(f, i, k, c))))
  }

  lemma FreedByStep(f: FS, i: int, s: int, c: int)
    requires WellFormed(f) && IsSlot(f, i, s) && IsData(f.sb, c)
    ensures FreedBy(f, i, Rank(s) + 1, c) <==> FreedBy(f, i, Rank(s), c) || c == Ref(f, i, s)
  {
    hide Shape, Bitmap, Exclusive, RefsInData, Ref;
    if FreedBy(f, i, Rank(s) + 1, c) {
      var t :| IsSlot(f, i, t) && Rank(t) < Rank(s) + 1 && Ref(f, i, t) == c;
      assert Rank(t) < Rank(s) || t == s;
    }
    if FreedBy(f, i, Rank(s), c) {
      var t :| IsSlot(f, i, t) && Rank(t) < Rank(s) && Ref(f, i, t) == c;
      assert Rank(t) < Rank(s) + 1;
    }
  }

  /** The block in the next slot is still marked as in use: it is in that slot only. */
  lemma NotYetFree(f: FS, g: FS, i: int, s: int)
    requires Freeing(f, g, i, Rank(s)) && IsSlot(f, i, s) && Ref(f, i, s) != 0
    ensures IsData(f.sb, Ref(f, i, s)) && 0 < f.sb.datastart && BitOf(g, Ref(f, i, s))
  {
    hide Shape, BitOf, Ref;
    var b := Ref(f, i, s);
    DataRef(f, i, s);
    assert Owned(f, b);
  }

  /** Freeing the block of one slot. */
  lemma FreeStep(f: FS, g: FS, i: int, s: int)
    requires Freeing(f, g, i, Rank(s)) && IsSlot(f, i, s)
    ensures Ref(f, i, s) == 0 ==> Freeing(f, g, i, Rank(s) + 1)
    ensures Ref(f, i, s) != 0 ==> IsData(f.sb, Ref(f, i, s)) && 0 < f.sb.datastart && BitOf(g, Ref(f, i, s))
                                  && Freeing(f, Mark(g, Ref(f, i, s), false), i, Rank(s) + 1)
  {
    hide Shape, BitOf, Ref, Bitmap, Exclusive, RefsInData, Mark, FreedBy;
    var b := Ref(f, i, s);
    DataAboveZero(f);
    forall c | IsData(f.sb, c) ensures FreedBy(f, i, Rank(s) + 1, c) <==> FreedBy(f, i, Rank(s), c) || c == b {
      FreedByStep(f, i, s, c);
    }
    if b != 0 {
      NotYetFree(f, g, i, s);
      var h := Mark(g, b, false);
      MarkShape(g, b, false);
      MarkSame(g, b);
      forall c | 0 <= c < f.sb.size ensures BitOf(h, c) <==> BitOf(g, c) && c != b {
        MarkAt(g, b, false, c);
      }
    }
  }

  /** Changing the inode's own block map while its blocks are being freed. */
  lemma FreeingMap(f: FS, g: FS, i: int, k: int, ip: Inode)
    requires Freeing(f, g, i, k) && InodeShape(f.sb, ip)
    ensures Freeing(f, g.(inodes := g.inodes[i := ip]), i, k)
  {
    hide FreedBy, Bitmap, Exclusive, RefsInData, GetBit, IsBlock;
    var h := g.(inodes := g.inodes[i := ip]);
    assert Shape(h);
    forall c | 0 <= c < f.sb.size ensures BitOf(h, c) <==> BitOf(g, c) {}
  }

  /** Without an indirect block there is nothing to free after the direct blocks. */
  lemma {:induction false} FreeingSkip(f: FS, g: FS, i: int, k: int)
    requires Freeing(f, g, i, k) && f.inodes[i].addrs[NDIRECT] == 0 && NDIRECT <= k <= NSLOTS
    ensures Freeing(f, g, i, NSLOTS)
    decreases NSLOTS - k
  {
    hide Shape, BitOf, Bitmap, Exclusive, RefsInData, FreedBy;
    if k < NSLOTS {
      var s := if k == NSLOTS - 1 then NDIRECT else k + 1;
      assert Rank(s) == k && IsSlot(f, i, s);
      assert Ref(f, i, s) == 0 by { PointerRef(f, i); }
      FreeStep(f, g, i, s);
      FreeingSkip(f, g, i, k + 1);
    }
  }

  const EMPTY: Inode := Inode(0, [0, 0, 0, 0, 0, 0, 0, 0, 0, 0, 0])

  /** A truncated inode owns nothing; the blocks it owned are free, each having been freed
      once; and the other files are as they were. */
  lemma TruncDone(f: FS, g: FS, i: int)
    requires Freeing(f, g, i, NSLOTS)
    ensures var h := g.(inodes := g.inodes[i := EMPTY]);
            && Shape(h) && |h.inodes| == |f.inodes|
            && (forall j, t :: IsSlot(f, j, t) ==> Ref(h, j, t) == if j == i then 0 else Ref(f, j, t))
            && (forall c :: 0 <= c < f.sb.size ==> (BitOf(h, c) <==> BitOf(f, c) && !(IsData(f.sb, c) && FreedBy(f, i, NSLOTS, c))))
            && WellFormed(h)
  {
    hide Ref, BitOf, FreedBy, Bitmap, Exclusive, RefsInData, IsBlock;
    var h := g.(inodes := g.inodes[i := EMPTY]);
    assert InodeShape(f.sb, EMPTY) by { EmptyShape(f.sb); }
    FreeingMap(f, g, i, NSLOTS, EMPTY);
    forall j, t | IsSlot(f, j, t) ensures Ref(h, j, t) == if j == i then 0 else Ref(f, j, t) {
      TruncRef(f, h, i, j, t);
    }
    TruncBitmap(f, h, i);
  }

  lemma TruncStart(f: FS, i: int)
    requires WellFormed(f) && 0 <= i < |f.inodes|
    ensures Shape(f)
  {}

  /** The other files keep their blocks, whose contents are as they were. */
  lemma TruncContents(f: FS, g: FS, i: int)
    requires Freeing(f, g, i, NSLOTS) && WellFormed(f) && WellFormed(g.(inodes := g.inodes[i := EMPTY]))
    ensures var h := g.(inodes := g.inodes[i := EMPTY]);
            |h.inodes| == |f.inodes| && forall j :: 0 <= j < |f.inodes| && j != i ==> h.inodes[j] == f.inodes[j] && Content(h, j) == Content(f, j)
  {
    hide Ref, BitOf, FreedBy, Bitmap, Exclusive, RefsInData, IsBlock, Content, ByteAt;
    var h := g.(inodes := g.inodes[i := EMPTY]);
    assert InodeShape(f.sb, EMPTY) by { EmptyShape(f.sb); }
    FreeingMap(f, g, i, NSLOTS, EMPTY);
    forall j, o | 0 <= j < |f.inodes| && j != i && 0 <= o < f.inodes[j].size ensures o < MAXFILE * BSIZE && ByteAt(h, j, o) == ByteAt(f, j, o) {
      SizeOk(f, j);
      TruncByte(f, h, i, j, o);
    }
  }

  lemma TruncByte(f: FS, h: FS, i: int, j: int, o: int)
    requires Freeing(f, h, i, NSLOTS) && WellFormed(h) && h.inodes[i] == EMPTY
    requires 0 <= j < |f.inodes| && j != i && 0 <= o < MAXFILE * BSIZE
    ensures ByteAt(h, j, o) == ByteAt(f, j, o)
  {
    hide Ref, BitOf, FreedBy, Bitmap, Exclusive, IsBlock;
    assert IsSlot(f, j, SlotOf(o / BSIZE));
    TruncRef(f, h, i, j, SlotOf(o / BSIZE));
  }

  lemma EmptyShape(sb: Super)
    ensures InodeShape(sb, EMPTY)
  {}

  lemma TruncRef(f: FS, h: FS, i: int, j: int, t: int)
    requires Freeing(f, h, i, NSLOTS) && h.inodes[i] == EMPTY && IsSlot(f, j, t)
    ensures Ref(h, j, t) == if j == i then 0 else Ref(f, j, t)
  {
    hide BitOf, FreedBy, Bitmap, Exclusive, RefsInData, IsBlock, Word;
    PointerRef(f, j);
    IndirectIsData(f, j);
    if j != i {
      RefSame(f, h, j, t);
    }
  }

  lemma TruncBitmap(f: FS, h: FS, i: int)
    requires WellFormed(f) && Shape(h) && h.sb == f.sb && |h.inodes| == |f.inodes| && 0 <= i < |f.inodes|
    requires forall j, t :: IsSlot(f, j, t) ==> Ref(h, j, t) == if j == i then 0 else Ref(f, j, t)
    requires forall c :: 0 <= c < f.sb.size ==> (BitOf(h, c) <==> BitOf(f, c) && !(IsData(f.sb, c) && FreedBy(f, i, NSLOTS, c)))
    ensures WellFormed(h)
  {
    hide Shape, BitOf, Ref;
    DataAboveZero(f);
    forall c | IsData(f.sb, c) ensures Owned(h, c) <==> Owned(f, c) && !FreedBy(f, i, NSLOTS, c) {
      if Owned(h, c) {
        var j, t :| IsSlot(h, j, t) && Ref(h, j, t) == c;
        assert IsSlot(f, j, t) && j != i && Ref(f, j, t) == c;
        assert !FreedBy(f, i, NSLOTS, c);
      }
      if Owned(f, c) && !FreedBy(f, i, NSLOTS, c) {
        var j, t :| IsSlot(f, j, t) && Ref(f, j, t) == c;
        assert j != i;
        assert IsSlot(h, j, t) && Ref(h, j, t) == c;
      }
    }
  }

  lemma FreeingStart(f: FS, i: int)
    requires WellFormed(f) && 0 <= i < |f.inodes|
    ensures Freeing(f, f, i, 0)
    ensures InodeShape(f.sb, f.inodes[i])
  {
    hide BitOf, Ref;
  }

  lemma FreeingShape(f: FS, g: FS, i: int, k: int)
    requires Freeing(f, g, i, k)
    ensures WellFormed(f) && Shape(g) && g.sb == f.sb && |g.inodes| == |f.inodes| && 0 <= i < |f.inodes| && 0 < f.sb.datastart
    ensures forall c :: IsData(f.sb, c) ==> g.vol[c] == f.vol[c]
  {}

  lemma MarkSame(f: FS, b: int)
    requires Shape(f) && 0 <= b < f.sb.size
    ensures Mark(f, b, false).sb == f.sb && Mark(f, b, false).inodes == f.inodes
  {}

  // ---------------------------------------------------------------- the file system

  /** What a call returns: a count (with the bytes, for a read), -1, or nothing because the
      kernel panicked when the volume was full. */
  datatype Result = Done(bytes: seq<int>) | Written(n: int) | Error | Panic

  /** A volume of three blocks with one file of one block, which is a hole. */
  ghost function Holey(): FS {
    FS(Super(3, 1, 2), [Zeros(), Zeros()[0 := 3], Zeros()], [Inode(BSIZE, EMPTY.addrs)])
  }

  /** Reading its first byte while no operation is open is a panic. */
  lemma HoleyPanics()
    ensures WellFormed(Holey()) && HoleIn(Holey(), 0, 0, 1)
  {
    var f := Holey();
    assert InodeShape(f.sb, f.inodes[0]);
    assert Shape(f);
    forall i, s | IsSlot(f, i, s) ensures Ref(f, i, s) == 0 {
      EmptyRefs(f, i, s);
    }
    HoleyBits();
    assert SlotOf(0) == 0 && 0 / BSIZE == 0 && IsSlot(f, 0, 0);
  }

  lemma EmptyRefs(f: FS, i: int, s: int)
    requires Shape(f) && IsSlot(f, i, s) && f.inodes[i].addrs == EMPTY.addrs
    ensures Ref(f, i, s) == 0
  {}

  lemma HoleyBits()
    ensures Shape(Holey()) && forall b :: 0 <= b < 3 ==> (BitOf(Holey(), b) <==> b < 2)
  {
    var f := Holey();
    assert InodeShape(f.sb, f.inodes[0]);
    forall b | 0 <= b < 3 ensures BitOf(f, b) <==> b < 2 {
      assert BitmapBlock(f.sb, b) == 1 && ByteNo(b) == 0 && b % 8 == b;
      assert GetBit(3, 0) && GetBit(3, 1) && !GetBit(3, 2);
    }
  }

  lemma Adjoin(s: seq<int>, a: int, b: int, c: int)
    requires 0 <= a <= b <= c <= |s|
    ensures s[a..b] + s[b..c] == s[a..c]
  {}

  class FileSystem {
    const sb: Super
    var vol: seq<Block>
    /** The inodes in memory, and as last written to the disk. */
    var inodes: seq<Inode>
    var dinodes: seq<Inode>

    constructor (f: FS)
      requires WellFormed(f)
      ensures Now() == f && dinodes == f.inodes
    {
      sb, vol, inodes, dinodes := f.sb, f.vol, f.inodes, f.inodes;
    }

    ghost function Now(): FS
      reads this
    {
      FS(sb, vol, inodes)
    }

    /** Take the first free block. 0 stands for a panic: in `balloc` when there is none, or in
        `log_write` when no operation is open. */
    method Balloc(open: bool) returns (r: int)
      requires WellFormed(Now())
      modifies `vol
      ensures r == 0 ==> vol == old(vol)
      ensures r == 0 && open ==> forall c :: 0 <= c < sb.size ==> BitOf(Now(), c)
      ensures !open ==> r == 0
      ensures r != 0 ==> IsData(sb, r) && !BitOf(old(Now()), r) && Now() == Taken(old(Now()), r)
                         && forall c :: 0 <= c < r ==> BitOf(old(Now()), c)
      ensures r != 0 ==> Cleared(old(Now()), Now(), r)
    {
      hide GetBit, PutBit, Exclusive, RefsInData, ByteNo;
      var b := 0;
      while b < sb.size
        invariant 0 <= b && b % BPB == 0
        invariant vol == old(vol)
        invariant forall c :: 0 <= c < b && c < sb.size ==> BitOf(Now(), c)
      {
        var bp := vol[BitmapBlock(sb, b)];
        var bi := 0;
        while bi < BPB && b + bi < sb.size
          invariant 0 <= bi <= BPB && b + bi <= sb.size
          invariant vol == old(vol)
          invariant forall c :: 0 <= c < b + bi ==> BitOf(Now(), c)
        {
          BitPlace(sb, b, bi);
          if !GetBit(bp[bi / 8], bi % 8) {
            assert !BitOf(Now(), b + bi);
            if !open {
              return 0;
            }
            bp := bp[bi / 8 := PutBit(bp[bi / 8], bi % 8, true)];
            vol := vol[BitmapBlock(sb, b) := bp];
            vol := vol[b + bi := Zeros()];
            TakenShape(old(Now()), b + bi);
            return b + bi;
          }
          assert BitOf(Now(), b + bi);
          bi := bi + 1;
        }
        b := b + BPB;
      }
      return 0;
    }

    /** The block number in slot `s` of the inode itself, allocated if need be; 0 stands for a
        panic of `balloc` or `log_write`. */
    method Fill(i: int, s: int, open: bool) returns (addr: int)
      requires WellFormed(Now()) && 0 <= i < |inodes| && 0 <= s <= NDIRECT
      modifies `vol, `inodes
      ensures addr != 0 ==> Extends(old(Now()), Now(), i) && Ref(Now(), i, s) == addr
      ensures addr == 0 ==> Now() == old(Now())
      ensures addr == 0 && open ==> forall c :: 0 <= c < sb.size ==> BitOf(Now(), c)
      ensures old(Ref(Now(), i, s)) != 0 ==> addr != 0 && Now() == old(Now())
      ensures !open ==> Now() == old(Now()) && (addr == 0 <==> old(Ref(Now(), i, s)) == 0)
    {
      hide Cleared, Bitmap, Exclusive, RefsInData, IsBlock, PutWord, Word, Taken, Extends, ByteAt;
      ghost var f := Now();
      ExtendsRefl(f, i);
      PointerRef(f, i);
      addr := inodes[i].addrs[s];
      if addr == 0 {
        addr := Balloc(open);
        if addr == 0 {
          return;
        }
        ExtendsGrown(f, i, s, addr);
        inodes := inodes[i := inodes[i].(addrs := inodes[i].addrs[s := addr])];
      }
    }

    /** The block number of block `bn` of inode `i`, allocated if need be; 0 stands for a
        panic of `balloc` or `log_write`. */
    method Bmap(i: int, bn: int, open: bool) returns (addr: int)
      requires WellFormed(Now()) && 0 <= i < |inodes| && 0 <= bn < MAXFILE
      modifies `vol, `inodes
      ensures addr != 0 ==> Extends(old(Now()), Now(), i) && Ref(Now(), i, SlotOf(bn)) == addr
      ensures addr == 0 ==> WellFormed(Now())
      ensures addr == 0 && open ==> forall c :: 0 <= c < sb.size ==> BitOf(Now(), c)
      ensures old(Ref(Now(), i, SlotOf(bn))) != 0 ==> addr != 0 && Now() == old(Now())
      ensures !open ==> Now() == old(Now()) && (addr == 0 <==> old(Ref(Now(), i, SlotOf(bn))) == 0)
      ensures addr != 0 ==> |inodes| == |old(inodes)| && KeptAt(vol, inodes[i].addrs, bn, addr)
    {
      hide KeptAt, Cleared, BitOf, Ref, Bitmap, Exclusive, RefsInData, IsBlock, PutWord, Word, Taken, Extends, ByteAt;
      ghost var f := Now();
      PointerRef(f, i);
      if bn < NDIRECT {
        addr := Fill(i, bn, open);
        if addr != 0 {
          ExtendsShape(f, Now(), i);
          AddressAt(Now(), i, bn);
        }
        return;
      }
      var k := bn - NDIRECT;
      EntryRef(f, i, bn);
      var p := Fill(i, NDIRECT, open);
      if p == 0 {
        return 0;
      }
      ghost var g := Now();
      ExtendsShape(f, g, i);
      PointerRef(g, i);
      BlockAt(g, p);
      EntryRef(g, i, bn);
      addr := Word(vol[p], k);
      if addr == 0 {
        addr := Balloc(open);
        if addr == 0 {
          return;
        }
        ExtendsGrown(g, i, SlotOf(bn), addr);
        assert vol[p] == g.vol[p] by { TakenElsewhere(g, i, addr); }
        vol := vol[p := PutWord(vol[p], k, addr)];
        assert Now() == Grown(g, i, SlotOf(bn), addr);
        ExtendsTrans(f, g, Now(), i);
      }
      ExtendsShape(f, Now(), i);
      AddressAt(Now(), i, bn);
    }

    /** The loop body of `readi`: `m` bytes at `pos`, within one block. A hole is filled if an
        operation is open; otherwise it is a panic. */
    method ReadBlock(i: int, pos: int, m: int, open: bool) returns (ok: bool, piece: seq<int>)
      requires WellFormed(Now()) && 0 <= i < |inodes|
      requires 0 <= pos && 0 < m && pos + m <= inodes[i].size && pos % BSIZE + m <= BSIZE
      modifies `vol, `inodes
      ensures ok ==> Extends(old(Now()), Now(), i) && piece == old(Content(Now(), i))[pos..pos + m]
      ensures !ok ==> WellFormed(Now())
      ensures !ok && open ==> forall c :: 0 <= c < sb.size ==> BitOf(Now(), c)
      ensures old(HoleFree(Now(), i)) ==> ok && Now() == old(Now())
      ensures pos / BSIZE < MAXFILE
      ensures !open ==> Now() == old(Now()) && (ok <==> old(Ref(Now(), i, SlotOf(pos / BSIZE))) != 0)
    {
      hide Bitmap, Exclusive, RefsInData, Shape, Ref, ByteAt, Extends, HoleFree, KeptAt;
      ghost var f := Now();
      SizeOk(f, i);
      if HoleFree(f, i) {
        Mapped(f, i, pos);
      }
      var addr := Bmap(i, pos / BSIZE, open);
      if addr == 0 {
        return false, [];
      }
      ExtendsContent(f, Now(), i);
      ReadPiece(Now(), i, pos, m);
      piece := vol[addr][pos % BSIZE..pos % BSIZE + m];
      ok := true;
    }

    /** Read `n` bytes at `off`, while some operation is open or not. On a file without holes
        nothing is allocated. A hole is a panic exactly when no operation is open. */
    method Readi(i: int, off: int, n: int, open: bool) returns (r: Result)
      requires WellFormed(Now()) && 0 <= i < |inodes| && 0 <= off < UINT && 0 <= n < UINT
      modifies `vol, `inodes
      ensures r.Done? || r.Error? || r.Panic?
      ensures r.Error? <==> off > old(inodes)[i].size || off + n >= UINT
      ensures r.Error? || old(HoleFree(Now(), i)) ==> Now() == old(Now()) && !r.Panic?
      ensures r.Panic? && open ==> WellFormed(Now()) && forall c :: 0 <= c < sb.size ==> BitOf(Now(), c)
      ensures !open ==> Now() == old(Now()) && (r.Panic? <==> !r.Error? && old(HoleIn(Now(), i, off, off + n)))
      ensures r.Done? ==> Extends(old(Now()), Now(), i)
      ensures r.Done? ==>
                var size := old(inodes)[i].size;
                r.bytes == old(Content(Now(), i))[off..if off + n > size then size else off + n]
    {
      hide Bitmap, Exclusive, RefsInData, Shape, Ref, ByteAt, Extends, HoleFree, Content;
      if off > inodes[i].size || (off + n) % UINT < off {
        return Error;
      }
      var n' := n;
      if off + n > inodes[i].size {
        n' := inodes[i].size - off;
      }
      ghost var f, content := Now(), Content(Now(), i);
      SizeOk(f, i);
      ExtendsRefl(f, i);
      var tot, dst := 0, [];
      while tot < n'
        invariant 0 <= tot <= n' && Extends(f, Now(), i) && WellFormed(Now()) && |inodes| == |f.inodes|
        invariant HoleFree(f, i) || !open ==> Now() == f
        invariant !open ==> !HoleIn(f, i, off, off + tot)
        invariant dst == content[off..off + tot]
      {
        ghost var g := Now();
        ExtendsContent(f, g, i);
        var pos := off + tot;
        var m := if n' - tot < BSIZE - pos % BSIZE then n' - tot else BSIZE - pos % BSIZE;
        var ok, piece := ReadBlock(i, pos, m, open);
        HoleInPiece(f, i, off, pos, m);
        if !ok {
          return Panic;
        }
        assert piece == content[pos..pos + m];
        Adjoin(content, off, pos, pos + m);
        ExtendsTrans(f, g, Now(), i);
        ExtendsContent(f, Now(), i);
        dst := dst + piece;
        tot := tot + m;
      }
      if off + n > f.inodes[i].size {
        HoleInEnd(f, i, off, off + n);
      }
      return Done(dst);
    }

    /** Write `src` at `off`; a write may start at the end of the file but not beyond. Writing
        anything while no operation is open is a panic of `log_write`. */
    method Writei(i: int, src: seq<int>, off: int, open: bool) returns (r: Result)
      requires WellFormed(Now()) && 0 <= i < |inodes| && |dinodes| == |inodes|
      requires 0 <= off < UINT && |src| < UINT && Bytes(src)
      modifies this
      ensures r.Error? <==> off > old(inodes)[i].size || off + |src| >= UINT || off + |src| > MAXFILE * BSIZE
      ensures r.Error? ==> Now() == old(Now()) && dinodes == old(dinodes)
      ensures r.Written? || r.Error? || r.Panic?
      ensures r.Written? ==> r.n == |src|
      ensures r.Panic? && open ==> WellFormed(Now()) && forall c :: 0 <= c < sb.size ==> BitOf(Now(), c)
      ensures !open ==> Now() == old(Now()) && dinodes == old(dinodes) && (r.Panic? <==> !r.Error? && src != [])
      ensures r.Written? ==> WellFormed(Now()) && |inodes| == |old(inodes)|
      ensures r.Written? && old(HoleFree(Now(), i)) ==> HoleFree(Now(), i)
      ensures r.Written? ==> Content(Now(), i) == Splice(old(Content(Now(), i)), off, src)
      ensures r.Written? ==> Overwritten(old(Content(Now(), i)), Content(Now(), i), off, src)
      ensures r.Written? ==> forall j :: 0 <= j < |inodes| && j != i ==> Content(Now(), j) == old(Content(Now(), j)) && inodes[j] == old(inodes)[j]
      ensures r.Written? ==> inodes[i].size == Max(old(inodes)[i].size, off + |src|)
      ensures r.Written? && old(HoleFree(Now(), i)) && old(dinodes)[i] == old(inodes)[i] ==> dinodes == old(dinodes)[i := inodes[i]]
    {
      hide Bitmap, Exclusive, RefsInData, Shape, Ref, ByteAt, Extends, HoleFree, Writing, Patched, Overwritten, KeptAt;
      if off > inodes[i].size || (off + |src|) % UINT < off {
        return Error;
      }
      if off + |src| > MAXFILE * BSIZE {
        return Error;
      }
      ghost var f := Now();
      SizeOk(f, i);
      WritingStart(f, i, off, src);
      var tot := 0;
      while tot < |src|
        invariant 0 <= tot <= |src| && Writing(f, Now(), i, off, src, tot) && |inodes| == |f.inodes|
        invariant dinodes == old(dinodes) && (!open ==> tot == 0 && Now() == f)
      {
        var pos := off + tot;
        ghost var before := Now();
        WritingShape(f, before, i, off, src, tot);
        var addr := Bmap(i, pos / BSIZE, open);
        if addr == 0 || !open {
          return Panic;
        }
        var m := if |src| - tot < BSIZE - pos % BSIZE then |src| - tot else BSIZE - pos % BSIZE;
        WritingStep(f, before, Now(), i, off, src, tot, m);
        PatchedIs(Now(), i, pos, src[tot..tot + m]);
        vol := vol[addr := Splice(vol[addr], pos % BSIZE, src[tot..tot + m])];
        tot := tot + m;
        WritingShape(f, Now(), i, off, src, tot);
      }
      WritingShape(f, Now(), i, off, src, |src|);
      WritingDone(f, Now(), i, off, src);
      SpliceOverwrites(Content(f, i), off, src);
      ghost var f' := Now();
      if |src| > 0 && off + |src| > inodes[i].size {
        inodes := inodes[i := inodes[i].(size := off + |src|)];
        dinodes := dinodes[i := inodes[i]];
      } else {
        assert Resized(f', i, f'.inodes[i].size) == f';
      }
      return Written(|src|);
    }

    /** Clear the bit of block `b`; false stands for the panic "freeing free block". */
    method Bfree(b: int) returns (ok: bool)
      requires Shape(Now()) && 0 <= b < sb.size
      modifies `vol
      ensures ok <==> old(BitOf(Now(), b))
      ensures ok ==> Now() == Mark(old(Now()), b, false)
      ensures ok ==>
                && Shape(Now())
                && (forall c :: 0 <= c < sb.size ==> (BitOf(Now(), c) <==> c != b && old(BitOf(Now(), c))))
                && (forall c :: IsData(sb, c) ==> vol[c] == old(vol)[c])
    {
      hide GetBit, PutBit;
      var bp := vol[BitmapBlock(sb, b)];
      var bi := b % BPB;
      LowBits(b);
      if !GetBit(bp[bi / 8], bi % 8) {
        return false;
      }
      bp := bp[bi / 8 := PutBit(bp[bi / 8], bi % 8, false)];
      vol := vol[BitmapBlock(sb, b) := bp];
      MarkShape(old(Now()), b, false);
      forall c | 0 <= c < sb.size ensures BitOf(Now(), c) <==> c != b && old(BitOf(Now(), c)) {
        MarkAt(old(Now()), b, false, c);
      }
      return true;
    }

    /** The first loop of `itrunc`: free the direct blocks. */
    method FreeDirect(i: int)
      requires WellFormed(Now()) && 0 <= i < |inodes|
      modifies `vol, `inodes
      ensures Freeing(old(Now()), Now(), i, NDIRECT) && |inodes| == |old(inodes)|
      ensures inodes[i].size == old(inodes)[i].size && |inodes[i].addrs| == |old(inodes)[i].addrs| == NDIRECT + 1
      ensures inodes[i].addrs[NDIRECT] == old(inodes)[i].addrs[NDIRECT]
      ensures forall t :: 0 <= t < NDIRECT ==> inodes[i].addrs[t] == 0
    {
      hide Bitmap, Exclusive, RefsInData, Ref, BitOf, Mark, Freeing, FreedBy;
      ghost var f := Now();
      PointerRef(f, i);
      FreeingStart(f, i);
      var s := 0;
      while s < NDIRECT
        invariant 0 <= s <= NDIRECT && Freeing(f, Now(), i, s) && |inodes| == |f.inodes|
        invariant InodeShape(sb, inodes[i]) && inodes[i].size == f.inodes[i].size
        invariant forall t :: 0 <= t < s ==> inodes[i].addrs[t] == 0
        invariant forall t :: s <= t <= NDIRECT ==> inodes[i].addrs[t] == f.inodes[i].addrs[t]
      {
        FreeStep(f, Now(), i, s);
        if inodes[i].addrs[s] != 0 {
          FreeingShape(f, Now(), i, s);
          MarkSame(Now(), inodes[i].addrs[s]);
          var ok := Bfree(inodes[i].addrs[s]);
          assert ok;  // "freeing free block" is unreachable
          FreeingMap(f, Now(), i, s + 1, inodes[i].(addrs := inodes[i].addrs[s := 0]));
          inodes := inodes[i := inodes[i].(addrs := inodes[i].addrs[s := 0])];
        }
        s := s + 1;
      }
    }

    /** The second loop of `itrunc`: free the blocks listed in the indirect block `p`. */
    method FreeIndirect(i: int, p: int, ghost f: FS)
      requires Freeing(f, Now(), i, NDIRECT) && f.inodes[i].addrs[NDIRECT] == p && IsData(sb, p)
      modifies `vol
      ensures Freeing(f, Now(), i, NSLOTS - 1)
    {
      hide Bitmap, Exclusive, RefsInData, BitOf, Mark, Freeing, FreedBy, Word;
      FreeingShape(f, Now(), i, NDIRECT);
      BlockAt(Now(), p);
      BlockAt(f, p);
      var a := vol[p];
      var j := 0;
      while j < NINDIRECT
        invariant 0 <= j <= NINDIRECT && Freeing(f, Now(), i, NDIRECT + j)
      {
        FreeingShape(f, Now(), i, NDIRECT + j);
        FreeStep(f, Now(), i, NDIRECT + 1 + j);
        assert Ref(f, i, NDIRECT + 1 + j) == Word(f.vol[p], j);
        if Word(a, j) != 0 {
          var ok := Bfree(Word(a, j));
          assert ok;  // "freeing free block" is unreachable
        }
        j := j + 1;
      }
    }

    /** Discard the contents of inode `i`: it ends up empty, exactly its blocks become free,
        and no other file changes. */
    method Itrunc(i: int)
      requires WellFormed(Now()) && 0 <= i < |inodes| && |dinodes| == |inodes|
      modifies this
      ensures WellFormed(Now()) && |inodes| == |old(inodes)| && inodes[i] == EMPTY
      ensures inodes[i].size == 0 && inodes[i].addrs == seq(11, k => 0)
      ensures forall c :: 0 <= c < sb.size ==>
                (BitOf(Now(), c) <==> old(BitOf(Now(), c)) && !(IsData(sb, c) && FreedBy(old(Now()), i, NSLOTS, c)))
      ensures forall j, t :: IsSlot(Now(), j, t) ==> Ref(Now(), j, t) == if j == i then 0 else Ref(old(Now()), j, t)
      ensures forall j :: 0 <= j < |inodes| && j != i ==> Content(Now(), j) == old(Content(Now(), j)) && inodes[j] == old(inodes)[j]
      ensures dinodes == old(dinodes)[i := EMPTY]
    {
      hide Bitmap, Exclusive, RefsInData, Ref, BitOf, Mark, Freeing, FreedBy, Content, WellFormed;
      ghost var f := Now();
      TruncStart(f, i);
      PointerRef(f, i);
      IndirectIsData(f, i);
      FreeDirect(i);
      var p := inodes[i].addrs[NDIRECT];
      if p != 0 {
        FreeIndirect(i, p, f);
        FreeingShape(f, Now(), i, NSLOTS - 1);
        FreeStep(f, Now(), i, NDIRECT);
        MarkSame(Now(), p);
        var ok := Bfree(p);
        assert ok;  // "freeing free block" is unreachable
      } else {
        FreeingSkip(f, Now(), i, NDIRECT);
      }
      FreeingShape(f, Now(), i, NSLOTS);
      ghost var g := Now();
      TruncDone(f, g, i);
      inodes := inodes[i := inodes[i].(addrs := inodes[i].addrs[NDIRECT := 0])];
      inodes := inodes[i := inodes[i].(size := 0)];
      assert inodes[i].addrs == EMPTY.addrs;
      assert inodes == g.inodes[i := EMPTY];
      assert Now() == g.(inodes := g.inodes[i := EMPTY]);
      TruncContents(f, g, i);
      dinodes := dinodes[i := inodes[i]];
    }
  }
}
