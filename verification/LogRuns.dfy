/** Runs of the log beside other users of the cache: when a commit finds the buffers it
    needs, and commits one write at a time, with readers coming and going in between. */
module LogRuns {
  import opened Params
  import opened Ide
  import opened BufferCache
  import opened Log

  // ---------------------------------------------------------------- room in the cache

  /** The numbers from `a` up to `b`. */
  ghost function Run(a: int, b: int): (s: set<int>)
    requires a <= b
    ensures |s| == b - a && forall i :: i in s <==> a <= i < b
    decreases b - a
  {
    if a == b then {} else Run(a, b - 1) + {b - 1}
  }

  /** The buffers of a set of cached blocks. */
  ghost function Places(where: map<int, int>, blocks: set<int>): set<int>
    requires blocks <= where.Keys
  {
    set b | b in blocks :: where[b]
  }

  ghost function Under(blocks: set<int>, n: nat): set<int> {
    set b | b in blocks && b < n
  }

  /** Each cached block has a buffer of its own. */
  lemma {:induction false} PlacesSize(bufs: seq<Buf>, where: map<int, int>, blocks: set<int>, n: nat)
    requires Indexed(bufs, where) && blocks <= where.Keys
    ensures |Places(where, Under(blocks, n))| == |Under(blocks, n)|
  {
    hide Indexed;
    if n == 0 {
      forall b | b in blocks ensures 0 <= b {
        IndexedAt(bufs, where, b);
      }
      assert Under(blocks, 0) == {};
    } else {
      var b, rest := n - 1, Under(blocks, n - 1);
      PlacesSize(bufs, where, blocks, n - 1);
      if b in blocks {
        assert Under(blocks, n) == rest + {b} && Places(where, rest + {b}) == Places(where, rest) + {where[b]};
        forall c | c in rest ensures where[c] != where[b] {
          IndexedAt(bufs, where, b);
          IndexedAt(bufs, where, c);
        }
      } else {
        assert Under(blocks, n) == rest;
      }
    }
  }

  lemma AllUnder(bufs: seq<Buf>, where: map<int, int>, blocks: set<int>)
    requires Indexed(bufs, where) && blocks <= where.Keys
    ensures Under(blocks, FSSIZE) == blocks
  {}

  /** A buffer cannot be recycled just when its block is held or pinned. */
  lemma InUse(bufs: seq<Buf>, where: map<int, int>, disk: Disk, i: int)
    requires Indexed(bufs, where) && AllCoherent(bufs, disk)
    ensures Held(bufs, where) + Dirty(bufs, where) <= where.Keys
    ensures i in Places(where, Held(bufs, where) + Dirty(bufs, where)) <==> 0 <= i < |bufs| && !Recyclable(bufs[i])
  {
    var used := Held(bufs, where) + Dirty(bufs, where);
    if 0 <= i < |bufs| && !Recyclable(bufs[i]) {
      assert Coherent(bufs[i], disk);
      assert bufs[i].blockno in used;
    }
    if i in Places(where, used) {
      var b :| b in used && where[b] == i;
      IndexedAt(bufs, where, b);
    }
  }

  lemma FullSubset(s: set<int>, t: set<int>)
    requires s <= t
    ensures |s| >= |t| <==> s == t
  {
    assert |t| == |s| + |t - s|;
  }

  lemma CountUsed(bufs: seq<Buf>, used: set<int>)
    requires |bufs| == NBUF && forall i :: i in used <==> 0 <= i < NBUF && !Recyclable(bufs[i])
    ensures SomeRecyclable(bufs) <==> |used| < NBUF
  {
    hide Run;
    assert used <= Run(0, NBUF);
    FullSubset(used, Run(0, NBUF));
    if used != Run(0, NBUF) {
      var i :| i in Run(0, NBUF) && i !in used;
      assert Recyclable(bufs[i]);
    }
  }

  /** Some buffer can be recycled exactly when the blocks that are held or pinned are fewer
      than the buffers. A commit, which needs one, panics exactly when they are not. */
  lemma RoomToCommit(c: Cache)
    requires c.Valid()
    ensures SomeRecyclable(c.bufs) <==> |c.HeldBlocks() + c.DirtyBlocks()| < NBUF
  {
    hide Ring, Permutation, Indexed, AllCoherent, Held, Dirty, Places;
    var used := c.HeldBlocks() + c.DirtyBlocks();
    InUse(c.bufs, c.where, c.disk, 0);
    var places := Places(c.where, used);
    forall i ensures i in places <==> 0 <= i < NBUF && !Recyclable(c.bufs[i]) {
      InUse(c.bufs, c.where, c.disk, i);
    }
    AllUnder(c.bufs, c.where, used);
    PlacesSize(c.bufs, c.where, used, FSSIZE);
    CountUsed(c.bufs, places);
  }

  ghost function Upto(a: int, b: int): (s: seq<int>)
    requires a <= b
    ensures |s| == b - a && forall i :: 0 <= i < b - a ==> s[i] == a + i
    ensures Blocks(s) == Run(a, b)
    decreases b - a
  {
    if a == b then []
    else
      var s := Upto(a, b - 1);
      assert Blocks(s + [b - 1]) == Blocks(s) + {b - 1};
      s + [b - 1]
  }

  lemma RunGrows(a: int, m: int, b: int)
    requires a <= m <= b
    ensures Run(a, m) + Run(m, b) == Run(a, b)
    ensures m < b ==> Run(a, m) + {m} == Run(a, m + 1)
  {}

  lemma UptoGrows(a: int, b: int)
    requires a <= b
    ensures Upto(a, b) + [b] == Upto(a, b + 1) && b !in Upto(a, b)
  {}

  lemma NextFits(c: Cache, a: int, m: int, b: int)
    requires c.Valid() && a <= m <= b < a + NBUF && c.HeldBlocks() == Run(m, b) && c.DirtyBlocks() == Run(a, m)
    ensures SomeRecyclable(c.bufs)
  {
    hide Ring, Permutation, Indexed, AllCoherent, SomeRecyclable, Run, Cache.HeldBlocks, Cache.DirtyBlocks;
    RoomToCommit(c);
    RunGrows(a, m, b);
  }

  /** A file system with an empty log of `size` blocks. */
  method Format(size: int) returns (m: LogManager)
    requires 1 <= size <= 1000
    ensures fresh(m) && fresh(m.cache) && m.area == Area(2, size)
    ensures m.Valid() && m.lh == [] && m.Tidy({}) && Idle(m.cache)
  {
    hide Ring, Permutation, Indexed, AllCoherent, View;
    var disk: Disk := seq(FSSIZE, b => seq(BWORDS, w => 0));
    var cache := new Cache(disk);
    m := new LogManager(cache, Area(2, size));
    assert Holding(m.area, disk, []);
    var ok := m.Recover([]);
  }

  /** Log and pin the blocks from `a` up to `b`. */
  method PinBlocks(m: LogManager, a: int, b: int)
    requires m.Valid() && m.lh == [] && m.Tidy({}) && Idle(m.cache)
    requires a <= b <= a + LOGSIZE && b - a < m.area.size && forall k :: a <= k < b ==> m.area.Home(k)
    modifies m, m.cache
    ensures m.Valid() && m.Tidy({}) && m.lh == Upto(a, b) && m.cache.HeldBlocks() == {}
  {
    hide Ring, Permutation, Indexed, AllCoherent, View, Run, Upto, Cache.HeldBlocks, Cache.DirtyBlocks, Cache.Volume,
      Cache.Valid, LogManager.Tidy;
    var k := a;
    while k < b
      invariant a <= k <= b && m.Valid() && m.cache.Valid() && m.Tidy({}) && m.lh == Upto(a, k) && m.cache.HeldBlocks() == {}
    {
      PinnedRun(m, a, k);
      NextFits(m.cache, a, k, k);
      var r := m.Read(k, {});
      var ok := m.Update(r.i, seq(BWORDS, w => 1));
      UptoGrows(a, k);
      m.Release(r.i, {});
      k := k + 1;
    }
  }

  lemma PinnedRun(m: LogManager, a: int, b: int)
    requires m.Valid() && a <= b && m.lh == Upto(a, b) && m.cache.HeldBlocks() == {}
    ensures m.cache.Valid() && m.cache.HeldBlocks() == Run(b, b) && m.cache.DirtyBlocks() == Run(a, b)
  {}

  /** A run that leaves a commit without a buffer: `pinned` blocks are logged, and readers hold
      the other buffers. With 30 pinned blocks there is no reader; a log of 30 blocks, as mkfs
      makes it, has room for 29, and then one reader is enough. */
  method FillCache(size: int, pinned: int) returns (m: LogManager)
    requires 1 <= pinned <= LOGSIZE && pinned < size <= 1000
    ensures fresh(m) && fresh(m.cache) && m.area.size == size
    ensures m.Valid() && m.Tidy({}) && |m.lh| == pinned
    ensures |m.cache.HeldBlocks()| == NBUF - pinned && m.cache.HeldBlocks() !! Blocks(m.lh)
    ensures !SomeRecyclable(m.cache.bufs)
  {
    hide Ring, Permutation, Indexed, AllCoherent, View, Run, Upto, Cache.HeldBlocks, Cache.DirtyBlocks, Cache.Volume,
      Cache.Valid, LogManager.Valid, LogManager.Tidy, Holds, SomeRecyclable;
    m := Format(size);
    var a, mid := 2 + size, 2 + size + pinned;
    PinBlocks(m, a, mid);
    PinnedRun(m, a, mid);
    var k := mid;
    while k < a + NBUF
      invariant mid <= k <= a + NBUF && m.Valid() && m.cache.Valid() && m.Tidy({}) && m.lh == Upto(a, mid)
      invariant m.cache.HeldBlocks() == Run(mid, k) && m.cache.DirtyBlocks() == Run(a, mid)
      modifies m.cache
    {
      NextFits(m.cache, a, mid, k);
      RunGrows(mid, k, k + 1);
      var r := m.Read(k, {});
      k := k + 1;
    }
    FullRun(m, a, mid);
  }

  lemma FullRun(m: LogManager, a: int, mid: int)
    requires m.cache.Valid() && a <= mid <= a + NBUF && m.lh == Upto(a, mid)
    requires m.cache.HeldBlocks() == Run(mid, a + NBUF) && m.cache.DirtyBlocks() == Run(a, mid)
    ensures |m.lh| == mid - a && |m.cache.HeldBlocks()| == a + NBUF - mid && m.cache.HeldBlocks() !! Blocks(m.lh)
    ensures !SomeRecyclable(m.cache.bufs)
  {
    hide Ring, Permutation, Indexed, AllCoherent, View, SomeRecyclable, Run, Upto, Cache.HeldBlocks, Cache.DirtyBlocks;
    RunGrows(a, mid, a + NBUF);
    RoomToCommit(m.cache);
  }

  // ---------------------------------------------------------------- a commit, write by write

  /** A commit in progress: the disk and the volume that it started from, and its blocks. */
  datatype Txn = Txn(d: Disk, v: Disk, lh: seq<int>)

  ghost predicate Committable(a: Area, t: Txn) {
    && t.lh != [] && Holding(a, t.d, []) && Holding(a, t.v, []) && Loggable(a, t.lh)
    && Pending(a, t.d, t.lh, t.v) && Pending(a, t.v, t.lh, t.v)
    && t.v[a.start] == t.d[a.start]
  }

  /** The number of writes of a commit of `n` blocks. */
  function Writes(n: nat): nat {
    2 * n + 2
  }

  /** Whether write `k` copies a block, to the log or home, and which one. */
  predicate Copies(n: nat, k: nat) {
    k < n || n < k <= 2 * n
  }

  function Turn(n: nat, k: nat): int {
    if k < n then k else k - n - 1
  }

  /** The number of blocks that are home after `k` writes. */
  function Installs(n: nat, k: nat): nat {
    if k <= n then 0 else if k <= 2 * n then k - n - 1 else n
  }

  /** The block that write `k` goes to. */
  function Target(a: Area, lh: seq<int>, k: nat): int
    requires k < Writes(|lh|)
  {
    if k < |lh| then a.Slot(k) else if Copies(|lh|, k) then lh[Turn(|lh|, k)] else a.start
  }

  /** What is written there. */
  ghost function Payload(a: Area, t: Txn, k: nat): Block
    requires Committable(a, t) && k < Writes(|t.lh|)
  {
    if Copies(|t.lh|, k) then t.v[t.lh[Turn(|t.lh|, k)]]
    else if k == |t.lh| then WriteHeader(t.d[a.start], t.lh)
    else WriteHeader(WriteHeader(t.d[a.start], t.lh), [])
  }

  /** While the log is written: one write more, from a home block that has not changed. */
  lemma LogsNext(a: Area, d: Disk, lh: seq<int>, v: Disk, k: nat)
    requires Holding(a, d, []) && Sized(v) && Loggable(a, lh) && Pending(a, d, lh, v) && k < |lh|
    ensures var c := CommitDisk(a, d, lh, v, k);
            && Sized(c) && CommitDisk(a, d, lh, v, k + 1) == c[a.Slot(k) := v[lh[k]]] && c[lh[k]] == d[lh[k]]
  {
    LoggedAt(a, d, lh, v, k);
    assert a.Home(lh[k]);
  }

  /** The header write. */
  lemma CommitsNext(a: Area, d: Disk, lh: seq<int>, v: Disk)
    requires Holding(a, d, []) && Sized(v) && Loggable(a, lh) && Pending(a, d, lh, v)
    ensures var c := CommitDisk(a, d, lh, v, |lh|);
            && Sized(c) && c[a.start] == d[a.start]
            && CommitDisk(a, d, lh, v, |lh| + 1) == c[a.start := WriteHeader(d[a.start], lh)]
  {
    LoggedAt(a, d, lh, v, |lh|);
    CommittedHolds(a, d, lh, v);
  }

  /** While blocks are copied home: one write more, from a log block that has not changed. */
  lemma InstallsNext(a: Area, d: Disk, lh: seq<int>, v: Disk, k: nat)
    requires Holding(a, d, []) && Sized(v) && Loggable(a, lh) && Pending(a, d, lh, v) && |lh| < k <= 2 * |lh|
    ensures var c, j := CommitDisk(a, d, lh, v, k), k - |lh| - 1;
            && Sized(c) && c[a.Slot(j)] == v[lh[j]] && CommitDisk(a, d, lh, v, k + 1) == c[lh[j] := v[lh[j]]]
  {
    hide Committed, Logged, Holding, Header, Pending;
    var j := k - |lh| - 1;
    HoldsSized(a, d, []);
    CommittedHolds(a, d, lh, v);
    CommittedSlot(a, d, lh, v, j);
    HoldsSized(a, Committed(a, d, lh, v), lh);
    InstalledHolds(a, Committed(a, d, lh, v), lh, j);
    HoldsSized(a, Installed(a, Committed(a, d, lh, v), lh, j), lh);
  }

  lemma CommittedSlot(a: Area, d: Disk, lh: seq<int>, v: Disk, j: nat)
    requires Holding(a, d, []) && Sized(v) && Loggable(a, lh) && j < |lh|
    ensures 0 <= a.Slot(j) < FSSIZE && Committed(a, d, lh, v)[a.Slot(j)] == v[lh[j]]
  {
    LoggedAt(a, d, lh, v, |lh|);
  }

  lemma HoldsSized(a: Area, d: Disk, lh: seq<int>)
    requires Holding(a, d, lh)
    ensures a.Valid() && Sized(d) && Loggable(a, lh)
  {}

  /** The write that clears the header. */
  lemma ClearsNext(a: Area, d: Disk, lh: seq<int>, v: Disk)
    requires Holding(a, d, []) && Sized(v) && Loggable(a, lh) && Pending(a, d, lh, v)
    ensures var c, h := CommitDisk(a, d, lh, v, 2 * |lh| + 1), WriteHeader(d[a.start], lh);
            && Sized(c) && c[a.start] == h && 1 <= |h|
            && CommitDisk(a, d, lh, v, 2 * |lh| + 2) == c[a.start := WriteHeader(h, [])]
  {
    CommittedHolds(a, d, lh, v);
    var e := Committed(a, d, lh, v);
    InstalledHolds(a, e, lh, |lh|);
    InstalledAt(a, e, lh, |lh|, a.start);
    assert !a.Home(a.start) && a.start !in lh[..|lh|];
  }

  /** The disk and the volume after `k` writes, with other processes about. */
  ghost predicate Midway(m: LogManager, t: Txn, k: nat, mine: set<int>)
    reads m, m.cache
  {
    && m.cache.Valid() && m.Tidy(mine) && Committable(m.area, t) && k <= Writes(|t.lh|)
    && m.lh == (if k < Writes(|t.lh|) then t.lh else [])
    && m.cache.disk == CommitDisk(m.area, t.d, t.lh, t.v, k)
    && m.cache.Volume() == CommitDisk(m.area, t.v, t.lh, t.v, k)
    && m.cache.DirtyBlocks() == Blocks(t.lh[Installs(|t.lh|, k)..])
  }

  /** At any moment of a commit, whatever readers do, the disk recovers to the old contents
      before the header write and to the new ones from then on. */
  lemma MidwayRecovers(m: LogManager, t: Txn, k: nat, mine: set<int>)
    requires Midway(m, t, k, mine)
    ensures RecoversTo(m.area, m.cache.disk, if k <= |t.lh| then t.d else t.v)
  {
    hide RecoversTo, CommitDisk;
    CommitAtomic(m.area, t.d, t.lh, t.v, k);
  }

  lemma MidwayStart(m: LogManager)
    requires m.Valid() && m.Tidy({}) && m.lh != []
    ensures Midway(m, Txn(m.cache.disk, m.cache.Volume(), m.lh), 0, {})
  {
    hide Ring, Permutation, View, AllCoherent, Indexed, Cache.HeldBlocks, Cache.DirtyBlocks, Cache.Volume, Holding;
    CommitReady(m);
    VolumeReady(m.cache, m.area, m.lh);
    assert m.lh[0..] == m.lh;
  }

  /** When the last write is done, the file system is between commits again. */
  lemma MidwayEnd(m: LogManager, t: Txn)
    requires Midway(m, t, Writes(|t.lh|), {})
    ensures m.Valid() && m.Tidy({}) && m.lh == []
    ensures SameHome(m.area, m.cache.disk, t.v) && SameHome(m.area, m.cache.Volume(), t.v)
  {
    hide Ring, Permutation, View, AllCoherent, Indexed, Cache.HeldBlocks, Cache.DirtyBlocks, Cache.Volume, Cache.Valid, Logged, Installed;
    CommitStages(m.area, t.d, t.lh, t.v);
    CommitStages(m.area, t.v, t.lh, t.v);
    assert Blocks(t.lh[|t.lh|..]) == Blocks([]);
  }

  /** A reader takes hold of a block, or has to wait. */
  method ReadBeside(m: LogManager, b: int, ghost t: Txn, ghost k: nat, ghost mine: set<int>) returns (r: Outcome)
    requires Midway(m, t, k, mine) && m.area.Home(b)
    modifies m.cache
    ensures Midway(m, t, k, mine) && m.cache.trace == old(m.cache.trace)
    ensures r.MustWait? <==> b in old(m.cache.HeldBlocks())
    ensures r.Got? ==> Holds(m.cache, r.i, b) && m.cache.bufs[r.i].data == m.cache.Volume()[b]
  {
    hide Ring, Permutation, View, AllCoherent, Indexed, Committable, CommitDisk, LogManager.Tidy;
    r := m.Read(b, mine);
  }

  /** A reader lets a block go. */
  method ReleaseBeside(m: LogManager, i: int, ghost t: Txn, ghost k: nat, ghost mine: set<int>)
    requires Midway(m, t, k, mine) && 0 <= i < NBUF && Holds(m.cache, i, m.cache.bufs[i].blockno)
    modifies m.cache
    ensures Midway(m, t, k, mine) && m.cache.trace == old(m.cache.trace)
    ensures m.cache.HeldBlocks() == old(m.cache.HeldBlocks()) - {old(m.cache.bufs)[i].blockno}
  {
    hide Ring, Permutation, View, AllCoherent, Indexed, Committable, CommitDisk, LogManager.Tidy;
    m.Release(i, mine);
  }

  /** The first half of a copy: take hold of the log block. It fails exactly when no buffer can
      be recycled. */
  method StartCopy(m: LogManager, k: nat, ghost t: Txn) returns (r: Outcome)
    requires Midway(m, t, k, {}) && Copies(|m.lh|, k)
    modifies m.cache
    ensures var slot := m.area.Slot(Turn(|m.lh|, k));
            && (r.Got? <==> old(SomeRecyclable(m.cache.bufs)))
            && (r.Got? ==> Midway(m, t, k, {slot}) && Holds(m.cache, r.i, slot) && m.cache.bufs[r.i].data == m.cache.disk[slot])
            && (r.Got? ==> m.cache.HeldBlocks() == old(m.cache.HeldBlocks()) + {slot})
    ensures m.cache.disk == old(m.cache.disk) && m.cache.trace == old(m.cache.trace)
  {
    hide Ring, Permutation, View, AllCoherent, Indexed, CommitDisk;
    var slot := m.area.Slot(Turn(|m.lh|, k));
    SlotFree(m, t, k);
    SettledView(m.cache, slot);
    r := m.cache.Bread(slot);
  }

  lemma SlotFree(m: LogManager, t: Txn, k: nat)
    requires Midway(m, t, k, {}) && Copies(|m.lh|, k)
    ensures var slot := m.area.Slot(Turn(|m.lh|, k));
            0 <= slot < FSSIZE && slot !in m.cache.HeldBlocks() && slot !in m.cache.DirtyBlocks()
  {
    hide Ring, Permutation, View, AllCoherent, Indexed, CommitDisk, Cache.HeldBlocks, Cache.DirtyBlocks, Cache.Volume;
    var slot := m.area.Slot(Turn(|m.lh|, k));
    assert !m.area.Home(slot);
  }

  lemma PinnedCached(c: Cache, b: int)
    requires c.Valid() && b in c.DirtyBlocks()
    ensures b in c.where
  {}

  /** What a copy that is under way is about. */
  lemma Copying(m: LogManager, t: Txn, k: nat, i: int)
    requires Copies(|m.lh|, k) && Midway(m, t, k, {m.area.Slot(Turn(|m.lh|, k))})
    requires Holds(m.cache, i, m.area.Slot(Turn(|m.lh|, k)))
    ensures var home, slot := m.lh[Turn(|m.lh|, k)], m.area.Slot(Turn(|m.lh|, k));
            && m.lh == t.lh && m.area.Home(home) && home in m.cache.DirtyBlocks() && home in m.cache.where
            && 0 <= slot < FSSIZE && slot !in m.cache.DirtyBlocks() && slot in m.cache.HeldBlocks() && home != slot
            && !m.cache.bufs[i].dirty && m.cache.bufs[i].data == m.cache.disk[slot] == m.cache.Volume()[slot]
  {
    hide Ring, Permutation, View, AllCoherent, Indexed, CommitDisk, Cache.HeldBlocks, Cache.DirtyBlocks, Cache.Volume;
    var n, j := |m.lh|, Turn(|m.lh|, k);
    assert m.lh[j] == t.lh[Installs(n, k)..][j - Installs(n, k)];
    PinnedCached(m.cache, m.lh[j]);
    HeldAt(m.cache, i);
  }

  lemma CopyNext(a: Area, t: Txn, k: nat)
    requires Committable(a, t) && Copies(|t.lh|, k)
    ensures var d, v, x := CommitDisk(a, t.d, t.lh, t.v, k), CommitDisk(a, t.v, t.lh, t.v, k), Payload(a, t, k);
            && |d| == FSSIZE && |v| == FSSIZE && 0 <= Target(a, t.lh, k) < FSSIZE
            && CommitDisk(a, t.d, t.lh, t.v, k + 1) == d[Target(a, t.lh, k) := x]
            && CommitDisk(a, t.v, t.lh, t.v, k + 1) == v[Target(a, t.lh, k) := x]
            && v[if k < |t.lh| then t.lh[k] else a.Slot(Turn(|t.lh|, k))] == x
            && Blocks(t.lh[Installs(|t.lh|, k + 1)..]) == Blocks(t.lh[Installs(|t.lh|, k)..]) - {Target(a, t.lh, k)}
  {
    hide CommitDisk, WriteHeader;
    if k < |t.lh| {
      LogsNext(a, t.d, t.lh, t.v, k);
      LogsNext(a, t.v, t.lh, t.v, k);
      assert !a.Home(a.Slot(k));
    } else {
      InstallsNext(a, t.d, t.lh, t.v, k);
      InstallsNext(a, t.v, t.lh, t.v, k);
      var j := Turn(|t.lh|, k);
      assert t.lh[j..] == [t.lh[j]] + t.lh[j + 1..];
    }
  }

  /** The second half: take hold of the home block, waiting while a reader has it, and write
      the copy. */
  method FinishCopy(m: LogManager, k: nat, i: int, ghost t: Txn) returns (waits: bool)
    requires Copies(|m.lh|, k) && Midway(m, t, k, {m.area.Slot(Turn(|m.lh|, k))})
    requires Holds(m.cache, i, m.area.Slot(Turn(|m.lh|, k)))
    modifies m.cache
    ensures waits <==> m.lh[Turn(|m.lh|, k)] in old(m.cache.HeldBlocks())
    ensures waits ==> Midway(m, t, k, {m.area.Slot(Turn(|m.lh|, k))}) && m.cache.bufs == old(m.cache.bufs)
                      && m.cache.trace == old(m.cache.trace)
    ensures !waits ==> Midway(m, t, k + 1, {}) && m.cache.trace == old(m.cache.trace) + [m.cache.disk]
  {
    hide Ring, Permutation, View, AllCoherent, Indexed, CommitDisk, Committable, Payload, Cache.HeldBlocks, Cache.DirtyBlocks,
      Cache.Volume, Cache.Valid;
    Copying(m, t, k, i);
    CopyNext(m.area, t, k);
    var home := m.lh[Turn(|m.lh|, k)];
    var r := m.cache.Bread(home);
    if r.MustWait? {
      return true;
    }
    CopyOver(m.cache, i, r.i, k < |m.lh|);
    return false;
  }

  lemma HeadReady(m: LogManager, t: Txn, k: nat)
    requires Midway(m, t, k, {}) && !Copies(|t.lh|, k) && k < Writes(|t.lh|)
    ensures m.area.Valid() && LogIdle(m.cache, m.area) && m.area.start !in m.cache.HeldBlocks()
    ensures Sized(m.cache.disk) && Sized(m.cache.Volume()) && Loggable(m.area, []) && Loggable(m.area, t.lh)
  {
    hide Ring, Permutation, View, AllCoherent, Indexed, CommitDisk, Cache.HeldBlocks, Cache.DirtyBlocks, Cache.Volume;
    forall b | m.area.start <= b < m.area.start + m.area.size ensures !m.area.Home(b) {}
    HeadNext(m.area, t, k);
  }

  lemma HeadNext(a: Area, t: Txn, k: nat)
    requires Committable(a, t) && !Copies(|t.lh|, k) && k < Writes(|t.lh|)
    ensures var d, v := CommitDisk(a, t.d, t.lh, t.v, k), CommitDisk(a, t.v, t.lh, t.v, k);
            var lh := if k == |t.lh| then t.lh else [];
            && Sized(d) && |d| == FSSIZE && Sized(v) && |v| == FSSIZE && a.Valid() && 0 <= a.start < FSSIZE
            && d[a.start] == v[a.start] && |lh| + 1 <= |d[a.start]|
            && CommitDisk(a, t.d, t.lh, t.v, k + 1) == d[a.start := WriteHeader(d[a.start], lh)]
            && CommitDisk(a, t.v, t.lh, t.v, k + 1) == v[a.start := WriteHeader(d[a.start], lh)]
    ensures Installs(|t.lh|, k + 1) == Installs(|t.lh|, k)
  {
    hide CommitDisk, WriteHeader;
    if k == |t.lh| {
      CommitsNext(a, t.d, t.lh, t.v);
      CommitsNext(a, t.v, t.lh, t.v);
    } else {
      ClearsNext(a, t.d, t.lh, t.v);
      ClearsNext(a, t.v, t.lh, t.v);
    }
  }

  /** A header write: the commit point, or the last write. It fails exactly when no buffer can
      be recycled. */
  method HeadStep(m: LogManager, k: nat, ghost t: Txn) returns (ok: bool)
    requires Midway(m, t, k, {}) && !Copies(|m.lh|, k) && k < Writes(|m.lh|)
    modifies m, m.cache
    ensures ok <==> old(SomeRecyclable(m.cache.bufs))
    ensures ok ==> Midway(m, t, k + 1, {}) && m.cache.trace == old(m.cache.trace) + [m.cache.disk]
    ensures !ok ==> m.cache.disk == old(m.cache.disk) && m.cache.trace == old(m.cache.trace)
  {
    hide Ring, Permutation, View, AllCoherent, Indexed, CommitDisk, Committable, Sized, Loggable, WriteHeader, Cache.HeldBlocks,
      Cache.DirtyBlocks, Cache.Volume, Cache.Valid;
    HeadReady(m, t, k);
    HeadNext(m.area, t, k);
    if k == 2 * |m.lh| + 1 {
      m.lh := [];
    }
    ok := m.WriteHead();
  }
}
