/** The buffer cache: NBUF buffers on a doubly linked ring in order of use, on top of the
    in-memory disk driver.

    There is one device. Buffers are numbered; `HEAD` is the ring's sentinel; and a buffer
    that has never held a block has block number `NOBLOCK`. Each method is one critical
    section. */
module BufferCache {
  import opened Params
  import opened Seqs
  import opened Ide

  const HEAD: int := NBUF
  const NOBLOCK: int := -1

  type Disk = seq<Block>

  // ---------------------------------------------------------------- the ring

  /** The node at place `k` of the ring, whose sentinel is before the first and after the last. */
  ghost function Node(order: seq<int>, k: int): int {
    if 0 <= k < |order| then order[k] else HEAD
  }

  ghost predicate Ring(next: seq<int>, prev: seq<int>, order: seq<int>) {
    && |next| == NBUF + 1 && |prev| == NBUF + 1
    && Distinct(order)
    && (forall k :: 0 <= k < |order| ==> 0 <= order[k] < NBUF)
    && (forall k {:trigger next[Node(order, k)]} :: -1 <= k < |order| ==> next[Node(order, k)] == Node(order, k + 1))
    && (forall k {:trigger prev[Node(order, k)]} :: 0 <= k <= |order| ==> prev[Node(order, k)] == Node(order, k - 1))
  }

  ghost function Without(order: seq<int>, i: int): seq<int>
    requires 0 <= i < |order|
  {
    order[..i] + order[i + 1..]
  }

  lemma RingAt(next: seq<int>, prev: seq<int>, order: seq<int>, k: int)
    requires Ring(next, prev, order)
    ensures |next| == NBUF + 1 && |prev| == NBUF + 1
    ensures 0 <= k < |order| ==> 0 <= order[k] < NBUF
    ensures 0 <= Node(order, k) <= NBUF
    ensures -1 <= k < |order| ==> next[Node(order, k)] == Node(order, k + 1)
    ensures 0 <= k <= |order| ==> prev[Node(order, k)] == Node(order, k - 1)
  {}

  /** Places of the ring other than the sentinel's two are distinct nodes. */
  lemma NodesDiffer(next: seq<int>, prev: seq<int>, order: seq<int>, j: int, k: int)
    requires Ring(next, prev, order) && -1 <= j <= |order| && -1 <= k <= |order|
    ensures Node(order, j) == Node(order, k) ==> j == k || ((j == -1 || j == |order|) && (k == -1 || k == |order|))
  {
    RingAt(next, prev, order, j);
    RingAt(next, prev, order, k);
  }

  lemma UnlinkRing(next: seq<int>, prev: seq<int>, order: seq<int>, i: int)
    requires Ring(next, prev, order) && 0 <= i < |order|
    ensures var b := order[i];
            && 0 <= b < NBUF && 0 <= next[b] <= NBUF && 0 <= prev[b] <= NBUF
            && Ring(next[prev[b] := next[b]], prev[next[b] := prev[b]], Without(order, i))
  {
    var b, order' := order[i], Without(order, i);
    RingAt(next, prev, order, i);
    RingAt(next, prev, order, i - 1);
    RingAt(next, prev, order, i + 1);
    assert Node(order, i) == b;
    var next', prev' := next[prev[b] := next[b]], prev[next[b] := prev[b]];
    assert forall k :: 0 <= k < |order'| ==> 0 <= order'[k] < NBUF;
    forall k | -1 <= k < |order'| ensures next'[Node(order', k)] == Node(order', k + 1) {
      UnlinkNext(next, prev, order, i, k);
    }
    forall k | 0 <= k <= |order'| ensures prev'[Node(order', k)] == Node(order', k - 1) {
      UnlinkPrev(next, prev, order, i, k);
    }
  }

  lemma UnlinkNext(next: seq<int>, prev: seq<int>, order: seq<int>, i: int, k: int)
    requires Ring(next, prev, order) && 0 <= i < |order| && -1 <= k < |order| - 1
    ensures var order', a, c := Without(order, i), Node(order, i - 1), Node(order, i + 1);
            && 0 <= a < |next| && 0 <= Node(order', k) < |next| && next[a := c][Node(order', k)] == Node(order', k + 1)
  {
    hide Ring, Without, Node;
    var m := if k < i then k else k + 1;
    UnlinkNode(order, i, k);
    UnlinkNode(order, i, k + 1);
    RingAt(next, prev, order, i - 1);
    RingAt(next, prev, order, m);
    NodesDiffer(next, prev, order, m, i - 1);
    NodeEnds(order, m);
    NodeEnds(order, i - 1);
  }

  lemma UnlinkPrev(next: seq<int>, prev: seq<int>, order: seq<int>, i: int, k: int)
    requires Ring(next, prev, order) && 0 <= i < |order| && 0 <= k <= |order| - 1
    ensures var order', a, c := Without(order, i), Node(order, i - 1), Node(order, i + 1);
            && 0 <= c < |prev| && 0 <= Node(order', k) < |prev| && prev[c := a][Node(order', k)] == Node(order', k - 1)
  {
    hide Ring, Without, Node;
    var m := if k < i then k else k + 1;
    UnlinkNode(order, i, k);
    UnlinkNode(order, i, k - 1);
    RingAt(next, prev, order, i + 1);
    RingAt(next, prev, order, m);
    NodesDiffer(next, prev, order, m, i + 1);
    NodeEnds(order, m);
    NodeEnds(order, i + 1);
  }

  lemma NodeEnds(order: seq<int>, k: int)
    ensures k < 0 || k >= |order| ==> Node(order, k) == HEAD
  {}

  lemma UnlinkNode(order: seq<int>, i: int, k: int)
    requires 0 <= i < |order| && -1 <= k <= |order| - 1
    ensures Node(Without(order, i), k) == Node(order, if k < i then k else k + 1)
  {}

  lemma FrontRing(next: seq<int>, prev: seq<int>, order: seq<int>, b: int)
    requires Ring(next, prev, order) && 0 <= b < NBUF && b !in order
    ensures 0 <= next[HEAD] <= NBUF
    ensures Ring(next[b := next[HEAD]][HEAD := b], prev[b := HEAD][next[HEAD] := b], [b] + order)
  {
    var order' := [b] + order;
    RingAt(next, prev, order, -1);
    RingAt(next, prev, order, 0);
    assert Node(order, -1) == HEAD;
    var next', prev' := next[b := next[HEAD]][HEAD := b], prev[b := HEAD][next[HEAD] := b];
    forall k | -1 <= k < |order'| ensures next'[Node(order', k)] == Node(order', k + 1) {
      hide Ring;
      if k >= 1 {
        RingAt(next, prev, order, k - 1);
      }
    }
    forall k | 0 <= k <= |order'| ensures prev'[Node(order', k)] == Node(order', k - 1) {
      hide Ring;
      if k >= 1 {
        RingAt(next, prev, order, k - 1);
        NodesDiffer(next, prev, order, k - 1, 0);
      }
    }
  }

  // ---------------------------------------------------------------- what the buffers hold

  /** `where` is the one place each cached block is at. */
  ghost predicate Indexed(bufs: seq<Buf>, where: map<int, int>) {
    && |bufs| == NBUF
    && (forall b :: b in where ==> 0 <= b < FSSIZE && 0 <= where[b] < NBUF && bufs[where[b]].blockno == b)
    && (forall i :: 0 <= i < NBUF && bufs[i].blockno != NOBLOCK ==>
          bufs[i].blockno in where && where[bufs[i].blockno] == i)
  }

  /** A buffer that nobody holds and that awaits no commit agrees with the disk. */
  ghost predicate Coherent(b: Buf, disk: Disk)
    requires |disk| == FSSIZE
  {
    && (b.blockno == NOBLOCK ==> !b.busy && !b.valid)
    && (b.blockno != NOBLOCK ==> 0 <= b.blockno < FSSIZE)
    && (b.blockno != NOBLOCK && !b.busy ==> b.valid)
    && (b.dirty ==> b.valid)
    && (b.valid && !b.busy && !b.dirty ==> b.data == disk[b.blockno])
  }

  ghost predicate AllCoherent(bufs: seq<Buf>, disk: Disk) {
    |disk| == FSSIZE && forall i :: 0 <= i < |bufs| ==> Coherent(bufs[i], disk)
  }

  ghost function ViewAt(bufs: seq<Buf>, where: map<int, int>, disk: Disk, b: int): Block
    requires Indexed(bufs, where) && |disk| == FSSIZE && 0 <= b < FSSIZE
  {
    if b in where && bufs[where[b]].valid then bufs[where[b]].data else disk[b]
  }

  /** The volume as its users see it: the cached contents, and the disk elsewhere. */
  ghost function View(bufs: seq<Buf>, where: map<int, int>, disk: Disk): (view: Disk)
    requires Indexed(bufs, where) && |disk| == FSSIZE
    ensures |view| == FSSIZE && forall b :: 0 <= b < FSSIZE ==> view[b] == ViewAt(bufs, where, disk, b)
  {
    seq(FSSIZE, b requires 0 <= b < FSSIZE => ViewAt(bufs, where, disk, b))
  }

  ghost function Held(bufs: seq<Buf>, where: map<int, int>): set<int>
    requires Indexed(bufs, where)
  {
    set b | b in where && bufs[where[b]].busy
  }

  ghost function Dirty(bufs: seq<Buf>, where: map<int, int>): set<int>
    requires Indexed(bufs, where)
  {
    set b | b in where && bufs[where[b]].dirty
  }

  ghost function Toggled(s: set<int>, b: int, on: bool): set<int> {
    if on then s + {b} else s - {b}
  }

  lemma IndexedAt(bufs: seq<Buf>, where: map<int, int>, b: int)
    requires Indexed(bufs, where) && b in where
    ensures 0 <= b < FSSIZE && 0 <= where[b] < NBUF && bufs[where[b]].blockno == b
  {}

  /** Replacing a buffer by another for the same block. */
  lemma Rewritten(bufs: seq<Buf>, where: map<int, int>, disk: Disk, i: int, buf: Buf)
    requires Indexed(bufs, where) && |disk| == FSSIZE && 0 <= i < NBUF
    requires bufs[i].blockno != NOBLOCK && buf.blockno == bufs[i].blockno
    ensures var bufs', b := bufs[i := buf], buf.blockno;
            && Indexed(bufs', where) && b in where && where[b] == i && 0 <= b < FSSIZE
            && View(bufs', where, disk) == View(bufs, where, disk)[b := if buf.valid then buf.data else disk[b]]
            && Held(bufs', where) == Toggled(Held(bufs, where), b, buf.busy)
            && Dirty(bufs', where) == Toggled(Dirty(bufs, where), b, buf.dirty)
  {
    var bufs', b := bufs[i := buf], buf.blockno;
    assert Indexed(bufs', where);
    forall c ensures c in Held(bufs', where) <==> c in Toggled(Held(bufs, where), b, buf.busy) {}
    forall c ensures c in Dirty(bufs', where) <==> c in Toggled(Dirty(bufs, where), b, buf.dirty) {}
  }

  /** Once a buffer is on the disk, the disk agrees with it and the volume is as before. */
  lemma WrittenThrough(bufs: seq<Buf>, bufs': seq<Buf>, where: map<int, int>, disk: Disk, disk': Disk, i: int)
    requires Indexed(bufs, where) && AllCoherent(bufs, disk) && 0 <= i < NBUF
    requires bufs[i].busy && bufs[i].valid && 0 <= bufs[i].blockno < FSSIZE
    requires bufs' == bufs[i := bufs[i].(dirty := false)] && disk' == disk[bufs[i].blockno := bufs[i].data]
    ensures Indexed(bufs', where) && AllCoherent(bufs', disk')
    ensures View(bufs', where, disk') == View(bufs, where, disk)
  {
    forall j | 0 <= j < NBUF ensures Coherent(bufs'[j], disk') {
      assert Coherent(bufs[j], disk);
    }
    forall c | 0 <= c < FSSIZE ensures ViewAt(bufs', where, disk', c) == ViewAt(bufs, where, disk, c) {}
  }

  /** Giving a clean buffer that nobody holds to a block that is not cached. */
  lemma Recycled(bufs: seq<Buf>, where: map<int, int>, disk: Disk, i: int, b: int)
    requires Indexed(bufs, where) && AllCoherent(bufs, disk) && 0 <= i < NBUF && 0 <= b < FSSIZE
    requires b !in where && !bufs[i].busy && !bufs[i].dirty
    ensures var buf, where' := Buf(true, false, false, b, bufs[i].data), (where - {bufs[i].blockno})[b := i];
            var bufs' := bufs[i := buf];
            && Indexed(bufs', where')
            && View(bufs', where', disk) == View(bufs, where, disk)
            && Held(bufs', where') == Held(bufs, where) + {b}
            && Dirty(bufs', where') == Dirty(bufs, where)
            && AllCoherent(bufs', disk)
  {
    var buf, where' := Buf(true, false, false, b, bufs[i].data), (where - {bufs[i].blockno})[b := i];
    var bufs' := bufs[i := buf];
    assert Coherent(bufs[i], disk);
    assert Indexed(bufs', where');
    forall c | 0 <= c < FSSIZE ensures ViewAt(bufs', where', disk, c) == ViewAt(bufs, where, disk, c) {}
    forall c ensures c in Held(bufs', where') <==> c in Held(bufs, where) + {b} {}
    forall c ensures c in Dirty(bufs', where') <==> c in Dirty(bufs, where) {}
  }

  // ---------------------------------------------------------------- scanning and reordering

  /** A permutation of the buffers. */
  ghost predicate Permutation(order: seq<int>) {
    && |order| == NBUF && Distinct(order)
    && (forall k :: 0 <= k < |order| ==> 0 <= order[k] < NBUF)
    && (forall i :: 0 <= i < NBUF ==> i in order)
  }

  ghost function ToFront(order: seq<int>, i: int): seq<int>
    requires 0 <= i < |order|
  {
    [order[i]] + Without(order, i)
  }

  /** Buffer `i` has come to the front, and the others are behind it in the order they had. */
  ghost predicate Fronted(order: seq<int>, order': seq<int>, i: int) {
    exists k :: 0 <= k < |order| && order[k] == i && order' == [i] + order[..k] + order[k + 1..]
  }

  lemma ToFrontPermutes(order: seq<int>, i: int)
    requires Permutation(order) && 0 <= i < |order|
    ensures Permutation(ToFront(order, i)) && order[i] !in Without(order, i) && Fronted(order, ToFront(order, i), order[i])
  {
    var order' := ToFront(order, i);
    assert order' == [order[i]] + order[..i] + order[i + 1..];
    forall b | 0 <= b < NBUF ensures b in order' {
      assert b in order;
      var k :| 0 <= k < |order| && order[k] == b;
      assert order'[if k == i then 0 else if k < i then k + 1 else k] == b;
    }
  }

  /** A buffer that `bget` may take over for another block. */
  predicate Recyclable(b: Buf) {
    !b.busy && !b.dirty
  }

  /** `i` is the least recently used recyclable buffer. */
  ghost predicate LeastRecent(bufs: seq<Buf>, order: seq<int>, i: int) {
    && |bufs| == NBUF && Permutation(order)
    && exists k :: 0 <= k < |order| && order[k] == i && Recyclable(bufs[i])
                   && forall j :: k < j < |order| ==> !Recyclable(bufs[order[j]])
  }

  ghost predicate SomeRecyclable(bufs: seq<Buf>) {
    exists i :: 0 <= i < |bufs| && Recyclable(bufs[i])
  }

  lemma RecyclableAt(bufs: seq<Buf>, order: seq<int>, i: int)
    requires LeastRecent(bufs, order, i)
    ensures 0 <= i < |bufs| && Recyclable(bufs[i])
  {}

  // ---------------------------------------------------------------- the cache

  /** What `bget` and `bread` can do: return a held buffer, go to sleep until the block's
      holder releases it, or panic because every buffer is held or awaits a commit. */
  datatype Outcome = Got(i: int) | MustWait | NoBuffers

  class Cache {
    var bufs: seq<Buf>
    var next: seq<int>
    var prev: seq<int>
    var disk: Disk
    ghost var order: seq<int>
    ghost var where: map<int, int>
    /** Every state the disk has been in. */
    ghost var trace: seq<Disk>

    ghost predicate Valid()
      reads this
    {
      && |bufs| == NBUF && |disk| == FSSIZE
      && Permutation(order) && Ring(next, prev, order)
      && Indexed(bufs, where) && AllCoherent(bufs, disk)
    }

    ghost function Volume(): Disk
      requires Valid()
      reads this
    {
      View(bufs, where, disk)
    }

    ghost function HeldBlocks(): set<int>
      requires Valid()
      reads this
    {
      Held(bufs, where)
    }

    ghost function DirtyBlocks(): set<int>
      requires Valid()
      reads this
    {
      Dirty(bufs, where)
    }

    /** `binit`, on a given disk. */
    constructor (disk: Disk)
      requires |disk| == FSSIZE
      ensures Valid() && this.disk == disk && trace == []
      ensures Volume() == disk && HeldBlocks() == {} && DirtyBlocks() == {}
      ensures SomeRecyclable(bufs)
    {
      bufs := seq(NBUF, i => Buf(false, false, false, NOBLOCK, []));
      next, prev := seq(NBUF + 1, i => HEAD), seq(NBUF + 1, i => HEAD);
      this.disk := disk;
      order, where, trace := [], map[], [];
      new;
      var b := 0;
      while b < NBUF
        invariant 0 <= b <= NBUF
        invariant Ring(next, prev, order) && |order| == b
        invariant forall i :: 0 <= i < b ==> order[i] == b - 1 - i
        invariant bufs == seq(NBUF, i => Buf(false, false, false, NOBLOCK, [])) && this.disk == disk
        invariant where == map[] && trace == []
      {
        FrontRing(next, prev, order, b);
        next := next[b := next[HEAD]];
        prev := prev[b := HEAD];
        prev := prev[next[HEAD] := b];
        next := next[HEAD := b];
        order := [b] + order;
        b := b + 1;
      }
      forall i | 0 <= i < NBUF ensures i in order { assert order[NBUF - 1 - i] == i; }
      assert bufs[0] == Buf(false, false, false, NOBLOCK, []);
      assert Volume() == disk;
    }

    /** The forward scan of `bget`, for the block. */
    method FindBlock(b: int) returns (i: int)
      requires Valid() && 0 <= b < FSSIZE
      ensures i == HEAD <==> b !in where
      ensures i != HEAD ==> i == where[b] && 0 <= i < NBUF && bufs[i].blockno == b
    {
      hide Ring, Distinct;
      ghost var k := 0;
      RingAt(next, prev, order, -1);
      i := next[HEAD];
      while i != HEAD
        invariant 0 <= k <= NBUF && i == Node(order, k)
        invariant forall j :: 0 <= j < k ==> bufs[order[j]].blockno != b
        decreases NBUF - k
      {
        if bufs[i].blockno == b {
          return;
        }
        RingAt(next, prev, order, k);
        i := next[i];
        k := k + 1;
      }
      forall j | 0 <= j < NBUF ensures bufs[j].blockno != b {
        assert j in order;
      }
    }

    /** The backward scan of `bget`, for a buffer to recycle. */
    method FindRecyclable() returns (i: int)
      requires Valid()
      ensures i == HEAD <==> !SomeRecyclable(bufs)
      ensures i != HEAD ==> 0 <= i < NBUF && LeastRecent(bufs, order, i)
    {
      hide Ring, Distinct;
      ghost var k := NBUF - 1;
      RingAt(next, prev, order, NBUF);
      i := prev[HEAD];
      while i != HEAD
        invariant -1 <= k < NBUF && i == Node(order, k)
        invariant forall j :: k < j < NBUF ==> !Recyclable(bufs[order[j]])
        decreases k + 1
      {
        if !bufs[i].busy && !bufs[i].dirty {
          assert order[k] == i;
          return;
        }
        RingAt(next, prev, order, k);
        i := prev[i];
        k := k - 1;
      }
      forall j | 0 <= j < NBUF ensures !Recyclable(bufs[j]) {
        assert j in order;
      }
    }

    /** A held buffer for block `b`, cached or recycled. */
    method Bget(b: int) returns (r: Outcome)
      requires Valid() && 0 <= b < FSSIZE
      modifies `bufs, `where
      ensures Valid()
      ensures r.MustWait? <==> b in old(HeldBlocks())
      ensures r.NoBuffers? <==> b !in old(where) && !SomeRecyclable(old(bufs))
      ensures !r.Got? ==> bufs == old(bufs) && where == old(where)
      ensures r.Got? ==>
                && 0 <= r.i < NBUF && !old(bufs)[r.i].busy && bufs[r.i].busy && bufs[r.i].blockno == b
                && (b in old(where) ==> r.i == old(where)[b] && bufs[r.i] == old(bufs)[r.i].(busy := true) && bufs[r.i].valid)
                && (b !in old(where) ==> LeastRecent(old(bufs), order, r.i) && bufs[r.i] == Buf(true, false, false, b, old(bufs)[r.i].data))
                && Volume() == old(Volume()) && DirtyBlocks() == old(DirtyBlocks())
                && HeldBlocks() == old(HeldBlocks()) + {b}
                && forall j :: 0 <= j < NBUF && j != r.i ==> bufs[j] == old(bufs)[j]
      // The same in the fields of the buffers.
      ensures r.MustWait? <==> exists j :: 0 <= j < NBUF && |old(bufs)| == NBUF && old(bufs)[j].blockno == b && old(bufs)[j].busy
      ensures r.NoBuffers? <==>
              forall j :: 0 <= j < NBUF && |old(bufs)| == NBUF ==>
                old(bufs)[j].blockno != b && (old(bufs)[j].busy || old(bufs)[j].dirty)
    {
      hide Ring, Permutation, View, LeastRecent;
      var i := FindBlock(b);
      if i != HEAD {
        if bufs[i].busy {
          return MustWait;
        }
        assert Coherent(bufs[i], disk);
        Rewritten(bufs, where, disk, i, bufs[i].(busy := true));
        bufs := bufs[i := bufs[i].(busy := true)];
        return Got(i);
      }
      i := FindRecyclable();
      if i != HEAD {
        RecyclableAt(bufs, order, i);
        Recycled(bufs, where, disk, i, b);
        where := (where - {bufs[i].blockno})[b := i];
        bufs := bufs[i := Buf(true, false, false, b, bufs[i].data)];
        return Got(i);
      }
      return NoBuffers;
    }

    /** A held buffer with the contents of block `b`. */
    method Bread(b: int) returns (r: Outcome)
      requires Valid() && 0 <= b < FSSIZE
      modifies `bufs, `where
      ensures Valid()
      ensures r.MustWait? <==> b in old(HeldBlocks())
      ensures r.NoBuffers? <==> b !in old(where) && !SomeRecyclable(old(bufs))
      ensures !r.Got? ==> bufs == old(bufs) && where == old(where)
      ensures r.Got? ==>
                && 0 <= r.i < NBUF && !old(bufs)[r.i].busy && bufs[r.i].busy && bufs[r.i].valid && bufs[r.i].blockno == b
                && bufs[r.i].data == Volume()[b] && (bufs[r.i].dirty <==> b in DirtyBlocks())
                && Volume() == old(Volume()) && DirtyBlocks() == old(DirtyBlocks())
                && HeldBlocks() == old(HeldBlocks()) + {b}
                && forall j :: 0 <= j < NBUF && j != r.i ==> bufs[j] == old(bufs)[j]
    {
      hide Ring, Permutation, LeastRecent;
      r := Bget(b);
      if r.Got? && !bufs[r.i].valid {
        Rewritten(bufs, where, disk, r.i, Served(bufs[r.i], disk));
        var after := MemIderw(Store(bufs, disk), r.i);
        assert after.disk == disk;
        bufs := after.bufs;
      }
    }

    /** The holder of a buffer changes its contents. */
    method Modify(i: int, data: Block)
      requires Valid() && 0 <= i < NBUF && bufs[i].busy && bufs[i].valid
      modifies `bufs
      ensures Valid()
      ensures bufs == old(bufs)[i := old(bufs)[i].(data := data)]
      ensures Volume() == old(Volume())[bufs[i].blockno := data]
      ensures HeldBlocks() == old(HeldBlocks()) && DirtyBlocks() == old(DirtyBlocks())
    {
      hide Ring, Permutation;
      assert Coherent(bufs[i], disk);
      Rewritten(bufs, where, disk, i, bufs[i].(data := data));
      bufs := bufs[i := bufs[i].(data := data)];
    }

    /** The holder pins a buffer in the cache: the last step of `log_write`. */
    method Pin(i: int)
      requires Valid() && 0 <= i < NBUF && bufs[i].busy && bufs[i].valid
      modifies `bufs
      ensures Valid()
      ensures bufs == old(bufs)[i := old(bufs)[i].(dirty := true)]
      ensures Volume() == old(Volume())
      ensures HeldBlocks() == old(HeldBlocks()) && DirtyBlocks() == old(DirtyBlocks()) + {bufs[i].blockno}
    {
      hide Ring, Permutation;
      assert Coherent(bufs[i], disk);
      Rewritten(bufs, where, disk, i, bufs[i].(dirty := true));
      bufs := bufs[i := bufs[i].(dirty := true)];
    }

    /** Write a held buffer to the disk; it is clean afterwards. */
    method Bwrite(i: int)
      requires Valid() && 0 <= i < NBUF && bufs[i].busy && bufs[i].valid
      modifies `bufs, `disk, `trace
      ensures Valid()
      ensures bufs == old(bufs)[i := old(bufs)[i].(dirty := false)]
      ensures 0 <= bufs[i].blockno < FSSIZE && disk == old(disk)[bufs[i].blockno := bufs[i].data]
      ensures trace == old(trace) + [disk]
      ensures Volume() == old(Volume())
      ensures HeldBlocks() == old(HeldBlocks()) && DirtyBlocks() == old(DirtyBlocks()) - {bufs[i].blockno}
    {
      hide Ring, Permutation;
      assert Coherent(bufs[i], disk);
      ghost var bufs0, disk0 := bufs, disk;
      bufs := bufs[i := bufs[i].(dirty := true)];
      var after := MemIderw(Store(bufs, disk), i);
      bufs, disk := after.bufs, after.disk;
      trace := trace + [disk];
      assert bufs == bufs0[i := bufs0[i].(dirty := false)];
      Rewritten(bufs0, where, disk0, i, bufs[i]);
      WrittenThrough(bufs0, bufs, where, disk0, disk, i);
    }

    /** The pointer writes of `brelse`: make buffer `i` the most recently used. */
    method MoveToFront(i: int)
      requires Permutation(order) && Ring(next, prev, order) && 0 <= i < NBUF
      modifies `next, `prev, `order
      ensures Permutation(order) && Ring(next, prev, order)
      ensures Fronted(old(order), order, i) && |next| == NBUF + 1 && next[HEAD] == i
    {
      hide Ring, Distinct;
      assert i in order;
      ghost var k :| 0 <= k < NBUF && order[k] == i;
      ghost var mid := Without(order, k);
      UnlinkRing(next, prev, order, k);
      ToFrontPermutes(order, k);
      RingAt(next, prev, order, k);
      NodesDiffer(next, prev, order, k, k + 1);
      prev := prev[next[i] := prev[i]];
      next := next[prev[i] := next[i]];
      FrontRing(next, prev, mid, i);
      next := next[i := next[HEAD]];
      prev := prev[i := HEAD];
      prev := prev[next[HEAD] := i];
      next := next[HEAD := i];
      order := ToFront(order, k);
    }

    /** Release a held buffer and make it the most recently used. Its contents are on the
        disk, or pinned for a commit. */
    method Brelse(i: int)
      requires Valid() && 0 <= i < NBUF && bufs[i].busy && bufs[i].valid
      requires bufs[i].dirty || bufs[i].data == disk[bufs[i].blockno]
      modifies `bufs, `next, `prev, `order
      ensures Valid()
      ensures bufs == old(bufs)[i := old(bufs)[i].(busy := false)]
      ensures Fronted(old(order), order, i) && |next| == NBUF + 1 && next[HEAD] == i
      ensures Volume() == old(Volume())
      ensures HeldBlocks() == old(HeldBlocks()) - {bufs[i].blockno} && DirtyBlocks() == old(DirtyBlocks())
    {
      hide Ring, Distinct, Permutation;
      MoveToFront(i);
      assert Coherent(bufs[i], disk);
      Rewritten(bufs, where, disk, i, bufs[i].(busy := false));
      bufs := bufs[i := bufs[i].(busy := false)];
    }
  }
}
