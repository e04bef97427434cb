/** The write-ahead log: what is on the disk after any of the writes of a commit or of a
    recovery, and what a recovery makes of it.

    A block is BWORDS 32-bit words. The log area starts with a header block, whose first word
    is the number of logged blocks and whose next words are their block numbers; the logged
    contents follow in the same order. */
module Log {
  import opened Params
  import opened Ide
  import opened BufferCache

  const BWORDS: int := 128

  /** Where the log is: the header at `start`, `size - 1` blocks behind it. */
  datatype Area = Area(start: int, size: int) {
    ghost predicate Valid() {
      0 <= start && 0 < size && start + size <= FSSIZE
    }

    /** The block that holds the `i`-th logged block. */
    function Slot(i: int): int {
      start + i + 1
    }

    ghost predicate Home(b: int) {
      0 <= b < FSSIZE && !(start <= b < start + size)
    }
  }

  // ---------------------------------------------------------------- what a disk stands for

  ghost predicate Sized(d: Disk) {
    |d| == FSSIZE && forall b :: 0 <= b < FSSIZE ==> |d[b]| == BWORDS
  }

  /** A list of blocks that the log can hold. */
  ghost predicate Loggable(a: Area, lh: seq<int>) {
    && |lh| < a.size && |lh| <= LOGSIZE
    && (forall i :: 0 <= i < |lh| ==> a.Home(lh[i]))
    && (forall i, j :: 0 <= i < j < |lh| ==> lh[i] != lh[j])
  }

  /** `lh` is what the header block says. */
  ghost predicate Header(block: Block, lh: seq<int>) {
    |lh| + 1 <= |block| && block[0] == |lh| && forall i :: 0 <= i < |lh| ==> block[i + 1] == lh[i]
  }

  /** The header block that `write_head` writes over `block`. */
  ghost function WriteHeader(block: Block, lh: seq<int>): Block
    requires |lh| + 1 <= |block|
  {
    [|lh|] + lh + block[|lh| + 1..]
  }

  /** A disk whose log holds the blocks `lh`. */
  ghost predicate Holding(a: Area, d: Disk, lh: seq<int>) {
    a.Valid() && Sized(d) && Loggable(a, lh) && Header(d[a.start], lh)
  }

  /** The disk after the first `k` logged blocks have been copied home. */
  ghost function Installed(a: Area, d: Disk, lh: seq<int>, k: nat): (r: Disk)
    requires a.Valid() && Sized(d) && Loggable(a, lh) && k <= |lh|
    ensures |r| == FSSIZE
  {
    if k == 0 then d else Installed(a, d, lh, k - 1)[lh[k - 1] := d[a.Slot(k - 1)]]
  }

  /** The contents that a recovery restores. */
  ghost function Contents(a: Area, d: Disk, lh: seq<int>): Disk
    requires Holding(a, d, lh)
  {
    Installed(a, d, lh, |lh|)
  }

  ghost predicate SameHome(a: Area, d: Disk, e: Disk) {
    |d| == FSSIZE && |e| == FSSIZE && forall b :: a.Home(b) ==> d[b] == e[b]
  }

  /** A recovery of `d` restores `contents`. */
  ghost predicate RecoversTo(a: Area, d: Disk, contents: Disk) {
    exists lh :: Holding(a, d, lh) && SameHome(a, Contents(a, d, lh), contents)
  }

  lemma HeaderUnique(block: Block, lh: seq<int>, lh': seq<int>)
    requires Header(block, lh) && Header(block, lh')
    ensures lh == lh'
  {}

  lemma WriteHeaderIs(block: Block, lh: seq<int>)
    requires |lh| + 1 <= |block|
    ensures Header(WriteHeader(block, lh), lh) && |WriteHeader(block, lh)| == |block|
  {}

  /** The contents of block `b` once the first `k` blocks are home. */
  lemma {:induction false} InstalledAt(a: Area, d: Disk, lh: seq<int>, k: nat, b: int)
    requires a.Valid() && Sized(d) && Loggable(a, lh) && k <= |lh| && 0 <= b < FSSIZE
    ensures forall i :: 0 <= i < k && lh[i] == b ==> Installed(a, d, lh, k)[b] == d[a.Slot(i)]
    ensures b !in lh[..k] ==> Installed(a, d, lh, k)[b] == d[b]
    ensures |Installed(a, d, lh, k)[b]| == BWORDS
  {
    if k > 0 {
      InstalledAt(a, d, lh, k - 1, b);
      assert a.Home(lh[k - 1]);
      assert lh[..k] == lh[..k - 1] + [lh[k - 1]];
    }
  }

  /** In block numbers: the logged blocks follow the header, in order. The first `k` of them have
      gone from there to the blocks `lh`, and `r` is otherwise as `d` was. */
  ghost predicate BroughtHome(a: Area, d: Disk, lh: seq<int>, k: nat, r: Disk)
    requires a.Valid() && |d| == |r| == FSSIZE && k <= |lh| < a.size
  {
    && (forall i :: 0 <= i < k ==> HomeBlock(a, d, lh, i, r))
    && (forall b :: 0 <= b < FSSIZE && b !in lh[..k] ==> r[b] == d[b])
  }

  ghost predicate HomeBlock(a: Area, d: Disk, lh: seq<int>, i: nat, r: Disk)
    requires a.Valid() && |d| == |r| == FSSIZE && i < |lh| < a.size
  {
    0 <= lh[i] < FSSIZE && r[lh[i]] == d[a.start + 1 + i]
  }

  lemma InstalledBlocks(a: Area, d: Disk, lh: seq<int>, k: nat)
    requires a.Valid() && Sized(d) && Loggable(a, lh) && k <= |lh|
    ensures BroughtHome(a, d, lh, k, Installed(a, d, lh, k))
  {
    hide Installed;
    var r := Installed(a, d, lh, k);
    forall i | 0 <= i < k ensures HomeBlock(a, d, lh, i, r) {
      InstalledBlock(a, d, lh, k, i);
    }
    forall b | 0 <= b < FSSIZE && b !in lh[..k] ensures r[b] == d[b] {
      InstalledAt(a, d, lh, k, b);
    }
  }

  lemma InstalledBlock(a: Area, d: Disk, lh: seq<int>, k: nat, i: nat)
    requires a.Valid() && Sized(d) && Loggable(a, lh) && i < k <= |lh|
    ensures HomeBlock(a, d, lh, i, Installed(a, d, lh, k))
  {
    hide Installed;
    assert a.Home(lh[i]);
    InstalledAt(a, d, lh, k, lh[i]);
  }

  lemma InstalledHolds(a: Area, d: Disk, lh: seq<int>, k: nat)
    requires Holding(a, d, lh) && k <= |lh|
    ensures Holding(a, Installed(a, d, lh, k), lh)
    ensures forall i :: 0 <= i < |lh| ==> Installed(a, d, lh, k)[a.Slot(i)] == d[a.Slot(i)]
  {
    var r := Installed(a, d, lh, k);
    forall b | 0 <= b < FSSIZE ensures |r[b]| == BWORDS && (!a.Home(b) ==> r[b] == d[b]) {
      InstalledAt(a, d, lh, k, b);
      assert !a.Home(b) ==> b !in lh[..k];
    }
  }

  /** Copying blocks home does not change what a recovery restores. */
  lemma InstalledKeeps(a: Area, d: Disk, lh: seq<int>, k: nat)
    requires Holding(a, d, lh) && k <= |lh|
    ensures Holding(a, Installed(a, d, lh, k), lh)
    ensures SameHome(a, Contents(a, Installed(a, d, lh, k), lh), Contents(a, d, lh))
  {
    InstalledHolds(a, d, lh, k);
    var r := Installed(a, d, lh, k);
    forall b | a.Home(b) ensures Contents(a, r, lh)[b] == Contents(a, d, lh)[b] {
      InstalledAt(a, d, lh, k, b);
      InstalledAt(a, d, lh, |lh|, b);
      InstalledAt(a, r, lh, |lh|, b);
      assert lh[..|lh|] == lh;
      assert b in lh[..k] ==> b in lh;
    }
  }

  // ---------------------------------------------------------------- recovery, write by write

  /** The disk after `k` writes of a recovery: the logged blocks go home, then the header is
      cleared. */
  ghost function RecoveryDisk(a: Area, d: Disk, lh: seq<int>, k: nat): Disk
    requires Holding(a, d, lh) && k <= |lh| + 1
  {
    if k <= |lh| then Installed(a, d, lh, k)
    else Installed(a, d, lh, |lh|)[a.start := WriteHeader(d[a.start], [])]
  }

  /** After any number of a recovery's writes, a new recovery restores the same contents; and
      after all of them, the home blocks are those contents and the log is empty. */
  lemma RecoveryKeeps(a: Area, d: Disk, lh: seq<int>, k: nat)
    requires Holding(a, d, lh) && k <= |lh| + 1
    ensures RecoversTo(a, RecoveryDisk(a, d, lh, k), Contents(a, d, lh))
    ensures k == |lh| + 1 ==>
              && SameHome(a, RecoveryDisk(a, d, lh, k), Contents(a, d, lh))
              && Holding(a, RecoveryDisk(a, d, lh, k), [])
  {
    var r := RecoveryDisk(a, d, lh, k);
    if k <= |lh| {
      InstalledKeeps(a, d, lh, k);
    } else {
      InstalledHolds(a, d, lh, |lh|);
      WriteHeaderIs(d[a.start], []);
      assert Holding(a, r, []);
      assert SameHome(a, Contents(a, r, []), Contents(a, d, lh));
    }
  }

  lemma RecoversAt(a: Area, d: Disk, lh: seq<int>, contents: Disk)
    requires Holding(a, d, lh) && SameHome(a, Contents(a, d, lh), contents)
    ensures RecoversTo(a, d, contents)
  {}

  lemma RecoversSame(a: Area, d: Disk, c: Disk, e: Disk)
    requires RecoversTo(a, d, c) && SameHome(a, c, e)
    ensures RecoversTo(a, d, e)
  {
    var lh :| Holding(a, d, lh) && SameHome(a, Contents(a, d, lh), c);
    assert SameHome(a, Contents(a, d, lh), e);
  }

  /** Any number of recoveries in a row, each but the last cut short by a crash after some of
      its writes: `next` is a disk that a crash of a recovery of `d` can leave. */
  ghost predicate CrashedRecovery(a: Area, d: Disk, next: Disk) {
    exists lh, k: nat :: Holding(a, d, lh) && k <= |lh| + 1 && next == RecoveryDisk(a, d, lh, k)
  }

  ghost predicate CrashRun(a: Area, disks: seq<Disk>) {
    |disks| > 0 && forall i :: 0 <= i < |disks| - 1 ==> CrashedRecovery(a, disks[i], disks[i + 1])
  }

  /** However often recovery is interrupted, what it finally restores stays the same. */
  lemma {:induction false} CrashRunKeeps(a: Area, disks: seq<Disk>, contents: Disk)
    requires CrashRun(a, disks) && RecoversTo(a, disks[0], contents)
    ensures RecoversTo(a, disks[|disks| - 1], contents)
  {
    if |disks| > 1 {
      var d, e := disks[0], disks[1];
      assert CrashedRecovery(a, disks[0], disks[1]);
      var lh, k: nat :| Holding(a, d, lh) && k <= |lh| + 1 && e == RecoveryDisk(a, d, lh, k);
      var lh' :| Holding(a, d, lh') && SameHome(a, Contents(a, d, lh'), contents);
      HeaderUnique(d[a.start], lh, lh');
      RecoveryKeeps(a, d, lh, k);
      RecoversSame(a, e, Contents(a, d, lh), contents);
      var rest := disks[1..];
      forall i | 0 <= i < |rest| - 1 ensures CrashedRecovery(a, rest[i], rest[i + 1]) {
        assert rest[i] == disks[i + 1] && rest[i + 1] == disks[i + 1 + 1];
      }
      CrashRunKeeps(a, disks[1..], contents);
    }
  }

  /** A completed recovery leaves the committed contents in the home blocks, and doing it
      again changes nothing. */
  lemma RecoveryIdempotent(a: Area, d: Disk, lh: seq<int>)
    requires Holding(a, d, lh)
    ensures var r := RecoveryDisk(a, d, lh, |lh| + 1);
            Holding(a, r, []) && RecoveryDisk(a, r, [], 1) == r
  {
    RecoveryKeeps(a, d, lh, |lh| + 1);
    var r := RecoveryDisk(a, d, lh, |lh| + 1);
    assert WriteHeader(r[a.start], []) == r[a.start];
    assert Installed(a, r, [], 0) == r;
    assert RecoveryDisk(a, r, [], 1) == r[a.start := r[a.start]] == r;
  }

  // ---------------------------------------------------------------- commit, write by write

  /** The disk after the first `k` blocks of `volume` have been copied to the log. */
  ghost function Logged(a: Area, d: Disk, lh: seq<int>, volume: Disk, k: nat): (r: Disk)
    requires a.Valid() && Sized(d) && Sized(volume) && Loggable(a, lh) && k <= |lh|
    ensures |r| == FSSIZE
  {
    if k == 0 then d else Logged(a, d, lh, volume, k - 1)[a.Slot(k - 1) := volume[lh[k - 1]]]
  }

  /** The disk at the commit point. */
  ghost function Committed(a: Area, d: Disk, lh: seq<int>, volume: Disk): (r: Disk)
    requires a.Valid() && Sized(d) && Sized(volume) && Loggable(a, lh)
    ensures |r| == FSSIZE
  {
    Logged(a, d, lh, volume, |lh|)[a.start := WriteHeader(d[a.start], lh)]
  }

  /** `volume` differs from the disk, among home blocks, only on `lh`. */
  ghost predicate Pending(a: Area, d: Disk, lh: seq<int>, volume: Disk) {
    |d| == FSSIZE && |volume| == FSSIZE && forall b :: a.Home(b) && b !in lh ==> volume[b] == d[b]
  }

  lemma {:induction false} LoggedAt(a: Area, d: Disk, lh: seq<int>, volume: Disk, k: nat)
    requires a.Valid() && Sized(d) && Sized(volume) && Loggable(a, lh) && k <= |lh|
    ensures var r := Logged(a, d, lh, volume, k);
            && Sized(r) && r[a.start] == d[a.start]
            && (forall b :: a.Home(b) ==> r[b] == d[b])
            && (forall i :: 0 <= i < k ==> r[a.Slot(i)] == volume[lh[i]])
  {
    if k > 0 {
      LoggedAt(a, d, lh, volume, k - 1);
      assert a.Home(lh[k - 1]);
    }
  }

  /** In block numbers: the contents of the first `k` of the blocks `lh` are in the `k` blocks
      behind the header, and `r` is otherwise as `d` was. */
  ghost predicate CopiedOut(a: Area, d: Disk, lh: seq<int>, volume: Disk, k: nat, r: Disk)
    requires a.Valid() && |d| == |r| == |volume| == FSSIZE && k <= |lh| < a.size
  {
    && (forall i :: 0 <= i < k ==> 0 <= lh[i] < FSSIZE && r[a.start + 1 + i] == volume[lh[i]])
    && (forall b :: 0 <= b < FSSIZE && !(a.start < b <= a.start + k) ==> r[b] == d[b])
  }

  lemma {:induction false} LoggedBlocks(a: Area, d: Disk, lh: seq<int>, volume: Disk, k: nat)
    requires a.Valid() && Sized(d) && Sized(volume) && Loggable(a, lh) && k <= |lh|
    ensures CopiedOut(a, d, lh, volume, k, Logged(a, d, lh, volume, k))
  {
    if k > 0 {
      LoggedBlocks(a, d, lh, volume, k - 1);
      assert a.Home(lh[k - 1]);
    }
  }

  /** Before the header is written, a recovery restores the old contents. */
  lemma LoggedKeeps(a: Area, d: Disk, lh: seq<int>, volume: Disk, k: nat)
    requires Holding(a, d, []) && Sized(volume) && Loggable(a, lh) && k <= |lh|
    ensures RecoversTo(a, Logged(a, d, lh, volume, k), d)
  {
    LoggedAt(a, d, lh, volume, k);
    var r := Logged(a, d, lh, volume, k);
    assert Holding(a, r, []) && SameHome(a, Contents(a, r, []), d);
  }

  /** From then on, it restores the new ones. */
  lemma CommittedHolds(a: Area, d: Disk, lh: seq<int>, volume: Disk)
    requires Holding(a, d, []) && Sized(volume) && Loggable(a, lh) && Pending(a, d, lh, volume)
    ensures Holding(a, Committed(a, d, lh, volume), lh)
    ensures SameHome(a, Contents(a, Committed(a, d, lh, volume), lh), volume)
  {
    LoggedAt(a, d, lh, volume, |lh|);
    WriteHeaderIs(d[a.start], lh);
    var c := Committed(a, d, lh, volume);
    assert Holding(a, c, lh);
    forall b | a.Home(b) ensures Contents(a, c, lh)[b] == volume[b] {
      InstalledAt(a, c, lh, |lh|, b);
      assert lh[..|lh|] == lh;
    }
  }

  /** The disk after `k` writes of a commit: the blocks go to the log, the header is written,
      and the rest is what a recovery would do. */
  ghost function CommitDisk(a: Area, d: Disk, lh: seq<int>, volume: Disk, k: nat): Disk
    requires Holding(a, d, []) && Sized(volume) && Loggable(a, lh) && Pending(a, d, lh, volume)
    requires k <= 2 * |lh| + 2
  {
    CommittedHolds(a, d, lh, volume);
    if k <= |lh| then Logged(a, d, lh, volume, k)
    else RecoveryDisk(a, Committed(a, d, lh, volume), lh, k - |lh| - 1)
  }

  /** A crash after any write of a commit, followed by a recovery, gives all of the old
      contents or all of the new; the header write is the point in between. */
  lemma CommitAtomic(a: Area, d: Disk, lh: seq<int>, volume: Disk, k: nat)
    requires Holding(a, d, []) && Sized(volume) && Loggable(a, lh) && Pending(a, d, lh, volume)
    requires k <= 2 * |lh| + 2
    ensures RecoversTo(a, CommitDisk(a, d, lh, volume, k), if k <= |lh| then d else volume)
  {
    if k <= |lh| {
      LoggedKeeps(a, d, lh, volume, k);
    } else {
      CommittedHolds(a, d, lh, volume);
      var c := Committed(a, d, lh, volume);
      RecoveryKeeps(a, c, lh, k - |lh| - 1);
      RecoversSame(a, CommitDisk(a, d, lh, volume, k), Contents(a, c, lh), volume);
    }
  }

  /** Atomicity over whole runs: a commit that crashes after any write, any number of crashed
      recoveries, and then a completed one, leave the home blocks all old or all new. */
  lemma CrashSafety(a: Area, d: Disk, lh: seq<int>, volume: Disk, k: nat, disks: seq<Disk>, last: seq<int>)
    requires Holding(a, d, []) && Sized(volume) && Loggable(a, lh) && Pending(a, d, lh, volume)
    requires k <= 2 * |lh| + 2
    requires CrashRun(a, disks) && disks[0] == CommitDisk(a, d, lh, volume, k)
    requires Holding(a, disks[|disks| - 1], last)
    ensures var restored := RecoveryDisk(a, disks[|disks| - 1], last, |last| + 1);
            && (k <= |lh| ==> SameHome(a, restored, d))
            && (k > |lh| ==> SameHome(a, restored, volume))
            && Holding(a, restored, [])
  {
    var contents := if k <= |lh| then d else volume;
    CommitAtomic(a, d, lh, volume, k);
    CrashRunKeeps(a, disks, contents);
    var e := disks[|disks| - 1];
    var lh' :| Holding(a, e, lh') && SameHome(a, Contents(a, e, lh'), contents);
    HeaderUnique(e[a.start], last, lh');
    RecoveryKeeps(a, e, last, |last| + 1);
  }

  // ---------------------------------------------------------------- the log on top of the cache

  /** A block that nobody holds and that is not pinned is the same in the cache and on disk. */
  lemma SettledView(c: Cache, b: int)
    requires c.Valid() && 0 <= b < FSSIZE && b !in c.HeldBlocks() && b !in c.DirtyBlocks()
    ensures c.Volume()[b] == c.disk[b]
    ensures b in c.where ==> SomeRecyclable(c.bufs)
  {
    if b in c.where {
      assert Coherent(c.bufs[c.where[b]], c.disk);
      assert Recyclable(c.bufs[c.where[b]]);
    }
  }

  /** With nothing held and nothing pinned, every buffer can be recycled. */
  lemma AllRecyclable(c: Cache, i: int)
    requires c.Valid() && c.HeldBlocks() == {} && c.DirtyBlocks() == {} && 0 <= i < NBUF
    ensures Recyclable(c.bufs[i])
  {
    var b := c.bufs[i].blockno;
    assert Coherent(c.bufs[i], c.disk);
    if b != NOBLOCK {
      assert b !in c.HeldBlocks() && b !in c.DirtyBlocks();
    }
  }

  ghost predicate Idle(c: Cache)
    requires c.Valid()
    reads c
  {
    c.HeldBlocks() == {} && c.DirtyBlocks() == {}
  }

  /** `i` is a held buffer of `c` for block `b`. */
  ghost predicate Holds(c: Cache, i: int, b: int)
    requires c.Valid()
    reads c
  {
    0 <= i < NBUF && c.bufs[i].busy && c.bufs[i].valid && c.bufs[i].blockno == b
  }

  /** Read a block of the log and a home block that is pinned, or any with the cache idle. It
      fails exactly when no buffer can be recycled. */
  method ReadPair(c: Cache, log: int, home: int) returns (ok: bool, i: int, j: int)
    requires c.Valid() && 0 <= log < FSSIZE && 0 <= home < FSSIZE && log != home
    requires log !in c.HeldBlocks() && log !in c.DirtyBlocks() && home !in c.HeldBlocks()
    requires home in c.DirtyBlocks() || Idle(c)
    modifies c`bufs, c`where
    ensures c.Valid()
    ensures ok <==> old(SomeRecyclable(c.bufs))
    ensures ok ==>
              && Holds(c, i, log) && Holds(c, j, home)
              && c.bufs[i].data == c.disk[log] == c.Volume()[log] && c.bufs[j].data == c.Volume()[home]
              && !c.bufs[i].dirty && (c.bufs[j].dirty <==> home in c.DirtyBlocks())
              && c.Volume() == old(c.Volume()) && c.DirtyBlocks() == old(c.DirtyBlocks())
              && c.HeldBlocks() == old(c.HeldBlocks()) + {log, home}
  {
    hide Ring, Permutation, View, AllCoherent;
    SettledView(c, log);
    if Idle(c) {
      AllRecyclable(c, 0);
      AllRecyclable(c, 1);
    }
    i, j := 0, 0;
    var first := c.Bread(log);
    if !first.Got? {
      return false, i, j;
    }
    i := first.i;
    assert home !in c.DirtyBlocks() ==> Recyclable(c.bufs[if i == 0 then 1 else 0]);
    var second := c.Bread(home);
    assert second.Got? && i != second.i;
    return true, i, second.i;
  }

  /** Copy the contents of one held buffer into another and write that to the disk. */
  method Deposit(c: Cache, i: int, j: int)
    requires c.Valid() && 0 <= i < NBUF && 0 <= j < NBUF
    requires Holds(c, i, c.bufs[i].blockno) && Holds(c, j, c.bufs[j].blockno)
    modifies c`bufs, c`disk, c`trace
    ensures c.Valid()
    ensures c.bufs == old(c.bufs)[j := old(c.bufs)[j].(data := old(c.bufs)[i].data, dirty := false)]
    ensures 0 <= c.bufs[j].blockno < FSSIZE && c.disk == old(c.disk)[c.bufs[j].blockno := c.bufs[j].data]
    ensures c.trace == old(c.trace) + [c.disk]
    ensures c.Volume() == old(c.Volume())[c.bufs[j].blockno := c.bufs[j].data]
    ensures c.HeldBlocks() == old(c.HeldBlocks()) && c.DirtyBlocks() == old(c.DirtyBlocks()) - {c.bufs[j].blockno}
  {
    hide Ring, Permutation, View, AllCoherent, Indexed;
    c.Modify(j, c.bufs[i].data);
    c.Bwrite(j);
  }

  /** Copy between held buffers `i`, of a log block, and `j`, of a home block, to the log or
      back; write the copy, and let both go. */
  method CopyOver(c: Cache, i: int, j: int, toLog: bool)
    requires c.Valid() && 0 <= i < NBUF && 0 <= j < NBUF
    requires Holds(c, i, c.bufs[i].blockno) && Holds(c, j, c.bufs[j].blockno) && c.bufs[i].blockno != c.bufs[j].blockno
    requires 0 <= c.bufs[i].blockno < FSSIZE && !c.bufs[i].dirty && c.bufs[i].data == c.disk[c.bufs[i].blockno]
    requires toLog ==> c.bufs[j].dirty
    modifies c
    ensures c.Valid()
    ensures var (src, dst) := if toLog then (old(c.bufs)[j], old(c.bufs)[i].blockno) else (old(c.bufs)[i], old(c.bufs)[j].blockno);
            && 0 <= dst < FSSIZE
            && c.Volume() == old(c.Volume())[dst := src.data] && c.disk == old(c.disk)[dst := src.data]
            && c.DirtyBlocks() == old(c.DirtyBlocks()) - {dst}
    ensures c.trace == old(c.trace) + [c.disk]
    ensures c.HeldBlocks() == old(c.HeldBlocks()) - {old(c.bufs)[i].blockno, old(c.bufs)[j].blockno}
    ensures SomeRecyclable(c.bufs)
  {
    hide Ring, Permutation, View, AllCoherent, Indexed;
    if toLog {
      Deposit(c, j, i);
      c.Brelse(j);
      c.Brelse(i);
    } else {
      Deposit(c, i, j);
      c.Brelse(i);
      c.Brelse(j);
    }
    assert Recyclable(c.bufs[i]);
  }

  /** The loop body that `write_log` and `install_trans` share: copy a home block to its place
      in the log, or back. */
  method CopyBlock(c: Cache, log: int, home: int, toLog: bool) returns (ok: bool)
    requires c.Valid() && 0 <= log < FSSIZE && 0 <= home < FSSIZE && log != home
    requires log !in c.HeldBlocks() && log !in c.DirtyBlocks() && home !in c.HeldBlocks()
    requires home in c.DirtyBlocks() || (!toLog && Idle(c))
    modifies c
    ensures c.Valid()
    ensures ok <==> old(SomeRecyclable(c.bufs))
    ensures !ok ==> c.disk == old(c.disk) && c.trace == old(c.trace)
    ensures ok ==>
              var (src, dst) := if toLog then (home, log) else (log, home);
              && c.Volume() == old(c.Volume())[dst := old(c.Volume())[src]]
              && c.disk == old(c.disk)[dst := old(c.Volume())[src]]
              && c.trace == old(c.trace) + [c.disk]
              && c.HeldBlocks() == old(c.HeldBlocks())
              && c.DirtyBlocks() == old(c.DirtyBlocks()) - {dst}
              && SomeRecyclable(c.bufs)
  {
    hide Ring, Permutation, View, AllCoherent, Indexed;
    var i, j;
    ok, i, j := ReadPair(c, log, home);
    if !ok {
      return;
    }
    CopyOver(c, i, j, toLog);
    assert c.HeldBlocks() == old(c.HeldBlocks());
  }

  lemma HeldAt(c: Cache, i: int)
    requires c.Valid() && 0 <= i < NBUF && Holds(c, i, c.bufs[i].blockno)
    ensures var b := c.bufs[i].blockno;
            && b in c.HeldBlocks() && 0 <= b < FSSIZE && c.Volume()[b] == c.bufs[i].data
            && (c.bufs[i].dirty <==> b in c.DirtyBlocks())
  {
    hide Ring, Permutation;
    assert Coherent(c.bufs[i], c.disk);
  }

  ghost function Blocks(lh: seq<int>): set<int> {
    set b | b in lh
  }

  lemma BlocksStep(lh: seq<int>, k: nat)
    requires k < |lh|
    ensures Blocks(lh[..k + 1]) == Blocks(lh[..k]) + {lh[k]}
  {
    assert lh[..k + 1] == lh[..k] + [lh[k]];
  }

  /** No block of the log area is held or pinned. */
  ghost predicate LogIdle(c: Cache, a: Area)
    requires c.Valid()
    reads c
  {
    forall b :: a.start <= b < a.start + a.size ==> b !in c.HeldBlocks() && b !in c.DirtyBlocks()
  }

  /** Neither is any block of `lh` held. */
  ghost predicate Undisturbed(c: Cache, a: Area, lh: seq<int>)
    requires c.Valid()
    reads c
  {
    LogIdle(c, a) && forall i :: 0 <= i < |lh| ==> lh[i] !in c.HeldBlocks()
  }

  /** The disks that the first `k` writes of `write_log`, and of `install_trans`, produce. */
  ghost function LoggedTrace(a: Area, d: Disk, lh: seq<int>, volume: Disk, k: nat): seq<Disk>
    requires a.Valid() && Sized(d) && Sized(volume) && Loggable(a, lh) && k <= |lh|
  {
    if k == 0 then [] else LoggedTrace(a, d, lh, volume, k - 1) + [Logged(a, d, lh, volume, k)]
  }

  ghost function InstalledTrace(a: Area, d: Disk, lh: seq<int>, k: nat): seq<Disk>
    requires a.Valid() && Sized(d) && Loggable(a, lh) && k <= |lh|
  {
    if k == 0 then [] else InstalledTrace(a, d, lh, k - 1) + [Installed(a, d, lh, k)]
  }

  /** One more block home, in `install_trans`. */
  lemma InstalledStep(a: Area, d: Disk, lh: seq<int>, k: nat)
    requires a.Valid() && Sized(d) && Loggable(a, lh) && k < |lh|
    ensures var slot := a.Slot(k);
            && a.start <= slot < a.start + a.size && 0 <= slot < FSSIZE && 0 <= lh[k] < FSSIZE && slot != lh[k]
            && Installed(a, d, lh, k)[slot] == d[slot]
            && Installed(a, d, lh, k + 1) == Installed(a, d, lh, k)[lh[k] := d[slot]]
    ensures lh[k] in Blocks(lh) && lh[k] !in Blocks(lh[..k]) && Blocks(lh[..k + 1]) == Blocks(lh[..k]) + {lh[k]}
  {
    InstalledAt(a, d, lh, k, a.Slot(k));
    BlocksStep(lh, k);
    assert a.Home(lh[k]) && !a.Home(a.Slot(k)) && a.Slot(k) !in lh[..k];
  }

  lemma InstalledNone(a: Area, d: Disk, lh: seq<int>)
    requires a.Valid() && Sized(d) && Loggable(a, lh)
    ensures Installed(a, d, lh, 0) == d && Blocks(lh[..0]) == {}
  {}

  lemma {:induction false} LoggedTraceKeeps(a: Area, d: Disk, lh: seq<int>, volume: Disk, k: nat, e: Disk)
    requires Holding(a, d, []) && Sized(volume) && Loggable(a, lh) && k <= |lh|
    requires e in LoggedTrace(a, d, lh, volume, k)
    ensures RecoversTo(a, e, d)
  {
    hide RecoversTo, Logged;
    if e == Logged(a, d, lh, volume, k) {
      LoggedKeeps(a, d, lh, volume, k);
    } else {
      LoggedTraceKeeps(a, d, lh, volume, k - 1, e);
    }
  }

  lemma {:induction false} InstalledTraceKeeps(a: Area, d: Disk, lh: seq<int>, k: nat, e: Disk)
    requires Holding(a, d, lh) && k <= |lh| && e in InstalledTrace(a, d, lh, k)
    ensures RecoversTo(a, e, Contents(a, d, lh))
  {
    hide RecoversTo, Installed, Contents;
    if e == Installed(a, d, lh, k) {
      RecoveryKeeps(a, d, lh, k);
    } else {
      InstalledTraceKeeps(a, d, lh, k - 1, e);
    }
  }

  /** The disks that the writes of a recovery produce, in order. */
  ghost function RecoveryTrace(a: Area, d: Disk, lh: seq<int>): seq<Disk>
    requires Holding(a, d, lh)
  {
    InstalledTrace(a, d, lh, |lh|) + [RecoveryDisk(a, d, lh, |lh| + 1)]
  }

  /** The disks that the writes of a commit produce, in order. */
  ghost function CommitTrace(a: Area, d: Disk, lh: seq<int>, volume: Disk): seq<Disk>
    requires Holding(a, d, []) && Sized(volume) && Loggable(a, lh) && Pending(a, d, lh, volume)
  {
    CommittedHolds(a, d, lh, volume);
    var c := Committed(a, d, lh, volume);
    LoggedTrace(a, d, lh, volume, |lh|) + [c] + RecoveryTrace(a, c, lh)
  }

  lemma RecoveryTraceKeeps(a: Area, d: Disk, lh: seq<int>, e: Disk)
    requires Holding(a, d, lh) && e in RecoveryTrace(a, d, lh)
    ensures RecoversTo(a, e, Contents(a, d, lh))
  {
    hide RecoversTo, Installed, Contents;
    if e == RecoveryDisk(a, d, lh, |lh| + 1) {
      RecoveryKeeps(a, d, lh, |lh| + 1);
    } else {
      InstalledTraceKeeps(a, d, lh, |lh|, e);
    }
  }

  /** Every disk that exists during a commit recovers to the old contents or to the new. */
  lemma CommitTraceAtomic(a: Area, d: Disk, lh: seq<int>, volume: Disk, e: Disk)
    requires Holding(a, d, []) && Sized(volume) && Loggable(a, lh) && Pending(a, d, lh, volume)
    requires e in CommitTrace(a, d, lh, volume)
    ensures RecoversTo(a, e, d) || RecoversTo(a, e, volume)
  {
    hide RecoversTo, Installed, Contents, Committed;
    CommittedHolds(a, d, lh, volume);
    var c := Committed(a, d, lh, volume);
    if e in LoggedTrace(a, d, lh, volume, |lh|) {
      LoggedTraceKeeps(a, d, lh, volume, |lh|, e);
    } else if e == c {
      RecoversAt(a, c, lh, volume);
    } else {
      RecoveryTraceKeeps(a, c, lh, e);
      RecoversSame(a, e, Contents(a, c, lh), volume);
    }
  }

  /** The disk at each stage of a commit, as a function of the one before. */
  lemma CommitStages(a: Area, d: Disk, lh: seq<int>, volume: Disk)
    requires Holding(a, d, []) && Sized(volume) && Loggable(a, lh) && Pending(a, d, lh, volume)
    ensures var logged, committed := Logged(a, d, lh, volume, |lh|), Committed(a, d, lh, volume);
            && Sized(logged) && logged[a.start := WriteHeader(logged[a.start], lh)] == committed
            && Holding(a, committed, lh)
            && var installed, final := Installed(a, committed, lh, |lh|), RecoveryDisk(a, committed, lh, |lh| + 1);
               && Sized(installed) && installed[a.start := WriteHeader(installed[a.start], [])] == final
               && Holding(a, final, []) && SameHome(a, final, volume)
  {
    LoggedAt(a, d, lh, volume, |lh|);
    CommittedHolds(a, d, lh, volume);
    var committed := Committed(a, d, lh, volume);
    InstalledHolds(a, committed, lh, |lh|);
    InstalledAt(a, committed, lh, |lh|, a.start);
    assert !a.Home(a.start) && a.start !in lh[..|lh|];
    RecoveryKeeps(a, committed, lh, |lh| + 1);
  }

  /** The block list after `log_write` of block `b`: a block is listed once. */
  ghost function Absorbed(lh: seq<int>, b: int): seq<int> {
    if b in lh then lh else lh + [b]
  }

  lemma RecoveryStages(a: Area, d: Disk, lh: seq<int>)
    requires Holding(a, d, lh)
    ensures a.Valid() && Sized(d) && Loggable(a, lh)
    ensures var installed, final := Installed(a, d, lh, |lh|), RecoveryDisk(a, d, lh, |lh| + 1);
            && Sized(installed) && installed[a.start := WriteHeader(installed[a.start], [])] == final
            && Holding(a, final, []) && Sized(final) && SameHome(a, final, Contents(a, d, lh))
  {
    InstalledHolds(a, d, lh, |lh|);
    InstalledAt(a, d, lh, |lh|, a.start);
    assert !a.Home(a.start) && a.start !in lh[..|lh|];
    RecoveryKeeps(a, d, lh, |lh| + 1);
  }

  /** A recovery in words and block numbers: word 0 of the header is the number of logged blocks,
      and the next words say where the blocks behind the header belong. They are there
      afterwards, the number is 0, and nothing else has changed. */
  ghost predicate Replayed(a: Area, d: Disk, r: Disk) {
    && a.Valid() && |d| == |r| == FSSIZE && |d[a.start]| == BWORDS
    && var hb := d[a.start];
       && 0 <= hb[0] < BWORDS && hb[0] < a.size
       && var lh := hb[1..hb[0] + 1];
          && (forall i :: 0 <= i < |lh| ==> HomeBlock(a, d, lh, i, r))
          && (forall b :: 0 <= b < FSSIZE && b != a.start && b !in lh ==> r[b] == d[b])
          && r[a.start] == [0] + hb[1..]
  }

  lemma HeaderWords(block: Block, lh: seq<int>)
    requires Header(block, lh)
    ensures block[0] == |lh| && block[1..|lh| + 1] == lh
  {}

  lemma RecoveryReplays(a: Area, d: Disk, lh: seq<int>)
    requires Holding(a, d, lh)
    ensures Replayed(a, d, RecoveryDisk(a, d, lh, |lh| + 1))
  {
    hide Installed, Header;
    var r := Installed(a, d, lh, |lh|);
    InstalledBlocks(a, d, lh, |lh|);
    HeaderWords(d[a.start], lh);
    assert lh[..|lh|] == lh;
    forall i | 0 <= i < |lh| ensures HomeBlock(a, d, lh, i, r) && lh[i] != a.start {
      NotHeader(a, lh, i);
    }
  }

  lemma NotHeader(a: Area, lh: seq<int>, i: int)
    requires a.Valid() && Loggable(a, lh) && 0 <= i < |lh|
    ensures lh[i] != a.start
  {
    assert a.Home(lh[i]);
  }

  lemma IdleVolume(c: Cache, a: Area, lh: seq<int>)
    requires c.Valid() && Idle(c)
    ensures c.Volume() == c.disk && Undisturbed(c, a, lh) && SomeRecyclable(c.bufs)
  {
    forall b | 0 <= b < FSSIZE ensures c.Volume()[b] == c.disk[b] {
      SettledView(c, b);
    }
    AllRecyclable(c, 0);
  }

  lemma VolumeReady(c: Cache, a: Area, lh: seq<int>)
    requires c.Valid() && Sized(c.Volume()) && Loggable(a, lh) && Holding(a, c.disk, []) && LogIdle(c, a)
    ensures Holding(a, c.Volume(), []) && Pending(a, c.Volume(), lh, c.Volume()) && a.Valid() && Sized(c.disk)
    ensures c.Volume()[a.start] == c.disk[a.start]
    ensures c.DirtyBlocks() == Blocks(lh) ==> c.DirtyBlocks() - Blocks(lh) == Blocks([])
  {
    SettledView(c, a.start);
  }

  lemma PendingNone(a: Area, d: Disk, lh: seq<int>, volume: Disk)
    requires Pending(a, d, lh, volume) && lh == []
    ensures SameHome(a, d, volume) && SameHome(a, volume, volume)
  {}

  lemma EmptyLoggable(a: Area, d: Disk)
    requires Holding(a, d, [])
    ensures Loggable(a, [])
  {}

  /** The loop of `write_head`. */
  method FillHeader(block: Block, lh: seq<int>) returns (hb: Block)
    requires |lh| < |block|
    ensures hb == WriteHeader(block, lh)
    ensures |hb| == |block| && hb[0] == |lh| && (forall i :: 0 <= i < |lh| ==> hb[i + 1] == lh[i])
    ensures forall j :: |lh| < j < |block| ==> hb[j] == block[j]
  {
    hb := block[0 := |lh|];
    var k := 0;
    while k < |lh|
      invariant 0 <= k <= |lh| && |hb| == |block| && hb[0] == |lh|
      invariant forall j :: 0 <= j < k ==> hb[j + 1] == lh[j]
      invariant forall j :: k < j < |block| ==> hb[j] == block[j]
    {
      hb := hb[k + 1 := lh[k]];
      k := k + 1;
    }
  }

  class LogManager {
    const cache: Cache
    const area: Area
    var lh: seq<int>

    constructor (cache: Cache, area: Area)
      ensures this.cache == cache && this.area == area && lh == []
    {
      this.cache, this.area, lh := cache, area, [];
    }

    ghost predicate Base()
      reads this, cache
    {
      && cache.Valid() && area.Valid() && Sized(cache.disk) && Sized(cache.Volume()) && Loggable(area, lh)
      && LogIdle(cache, area)
    }

    /** Write the in-memory header to the disk. */
    method WriteHead() returns (ok: bool)
      requires Base()
      modifies cache
      ensures cache.Valid()
      ensures ok <==> old(SomeRecyclable(cache.bufs))
      ensures !ok ==> cache.disk == old(cache.disk) && cache.trace == old(cache.trace)
      ensures ok ==>
                && cache.disk == old(cache.disk)[area.start := WriteHeader(old(cache.disk)[area.start], lh)]
                && cache.Volume() == old(cache.Volume())[area.start := WriteHeader(old(cache.disk)[area.start], lh)]
                && cache.trace == old(cache.trace) + [cache.disk]
                && cache.HeldBlocks() == old(cache.HeldBlocks()) && cache.DirtyBlocks() == old(cache.DirtyBlocks())
                && SomeRecyclable(cache.bufs)
      ensures ok ==>
                var hb := cache.disk[area.start];
                && |hb| == BWORDS && hb[0] == |lh| && (forall i :: 0 <= i < |lh| ==> hb[i + 1] == lh[i])
                && (forall b :: 0 <= b < FSSIZE && b != area.start ==> cache.disk[b] == old(cache.disk)[b])
    {
      hide Ring, Permutation, View, AllCoherent, Indexed;
      SettledView(cache, area.start);
      var r := cache.Bread(area.start);
      if !r.Got? {
        return false;
      }
      var hb := FillHeader(cache.bufs[r.i].data, lh);
      cache.Modify(r.i, hb);
      cache.Bwrite(r.i);
      cache.Brelse(r.i);
      assert Recyclable(cache.bufs[r.i]);
      return true;
    }

    /** Copy the pinned blocks to the log. */
    method WriteLog() returns (ok: bool)
      requires Base() && Undisturbed(cache, area, lh) && Blocks(lh) <= cache.DirtyBlocks()
      modifies cache
      ensures cache.Valid()
      ensures ok <==> lh == [] || old(SomeRecyclable(cache.bufs))
      ensures !ok ==> cache.disk == old(cache.disk) && cache.trace == old(cache.trace)
      ensures ok ==>
                && cache.disk == Logged(area, old(cache.disk), lh, old(cache.Volume()), |lh|)
                && cache.Volume() == Logged(area, old(cache.Volume()), lh, old(cache.Volume()), |lh|)
                && cache.trace == old(cache.trace) + LoggedTrace(area, old(cache.disk), lh, old(cache.Volume()), |lh|)
                && cache.HeldBlocks() == old(cache.HeldBlocks()) && cache.DirtyBlocks() == old(cache.DirtyBlocks())
                && (SomeRecyclable(cache.bufs) <==> old(SomeRecyclable(cache.bufs)))
      ensures ok ==> CopiedOut(area, old(cache.disk), lh, old(cache.Volume()), |lh|, cache.disk)
    {
      hide CopiedOut, Ring, Permutation, View, AllCoherent, Indexed, SomeRecyclable, Cache.HeldBlocks, Cache.DirtyBlocks, Cache.Volume, Cache.Valid;
      ghost var d0, v0 := cache.disk, cache.Volume();
      var tail := 0;
      while tail < |lh|
        invariant 0 <= tail <= |lh| && cache.Valid()
        invariant cache.disk == Logged(area, d0, lh, v0, tail)
        invariant cache.Volume() == Logged(area, v0, lh, v0, tail)
        invariant cache.trace == old(cache.trace) + LoggedTrace(area, d0, lh, v0, tail)
        invariant cache.HeldBlocks() == old(cache.HeldBlocks()) && cache.DirtyBlocks() == old(cache.DirtyBlocks())
        invariant SomeRecyclable(cache.bufs) <==> old(SomeRecyclable(cache.bufs))
        invariant tail > 0 ==> SomeRecyclable(cache.bufs)
        modifies cache
      {
        LoggedAt(area, v0, lh, v0, tail);
        assert area.Home(lh[tail]) && lh[tail] in Blocks(lh);
        ok := CopyBlock(cache, area.Slot(tail), lh[tail], true);
        if !ok {
          return;
        }
        tail := tail + 1;
      }
      LoggedBlocks(area, d0, lh, v0, |lh|);
      return true;
    }

    /** Copy the logged blocks home. They are pinned, in a commit, or the cache is idle, in a
        recovery. */
    method InstallTrans() returns (ok: bool)
      requires Base() && Undisturbed(cache, area, lh) && (Blocks(lh) <= cache.DirtyBlocks() || Idle(cache))
      modifies cache
      ensures cache.Valid()
      ensures ok <==> lh == [] || old(SomeRecyclable(cache.bufs))
      ensures !ok ==> cache.disk == old(cache.disk) && cache.trace == old(cache.trace)
      ensures ok ==>
                && cache.disk == Installed(area, old(cache.disk), lh, |lh|)
                && cache.Volume() == Installed(area, old(cache.Volume()), lh, |lh|)
                && cache.trace == old(cache.trace) + InstalledTrace(area, old(cache.disk), lh, |lh|)
                && cache.HeldBlocks() == old(cache.HeldBlocks())
                && cache.DirtyBlocks() == old(cache.DirtyBlocks()) - Blocks(lh)
                && (SomeRecyclable(cache.bufs) <==> old(SomeRecyclable(cache.bufs)))
      ensures ok ==> BroughtHome(area, old(cache.disk), lh, |lh|, cache.disk)
    {
      hide BroughtHome, Loggable, Sized, Installed, Ring, Permutation, View, AllCoherent, Indexed, SomeRecyclable, Cache.HeldBlocks,
        Cache.DirtyBlocks, Cache.Volume, Cache.Valid;
      ghost var d0, v0 := cache.disk, cache.Volume();
      assert lh[..|lh|] == lh;
      InstalledNone(area, d0, lh);
      InstalledNone(area, v0, lh);
      var tail := 0;
      while tail < |lh|
        invariant 0 <= tail <= |lh| && cache.Valid()
        invariant cache.disk == Installed(area, d0, lh, tail)
        invariant cache.Volume() == Installed(area, v0, lh, tail)
        invariant cache.trace == old(cache.trace) + InstalledTrace(area, d0, lh, tail)
        invariant cache.HeldBlocks() == old(cache.HeldBlocks())
        invariant cache.DirtyBlocks() == old(cache.DirtyBlocks()) - Blocks(lh[..tail])
        invariant SomeRecyclable(cache.bufs) <==> old(SomeRecyclable(cache.bufs))
        invariant tail > 0 ==> SomeRecyclable(cache.bufs)
        modifies cache
      {
        var slot := area.Slot(tail);
        InstalledStep(area, d0, lh, tail);
        InstalledStep(area, v0, lh, tail);
        SettledView(cache, slot);
        ok := CopyBlock(cache, slot, lh[tail], false);
        if !ok {
          return;
        }
        tail := tail + 1;
      }
      InstalledBlocks(area, d0, lh, |lh|);
      return true;
    }

    /** Between commits: the log on disk is empty, and the pinned blocks are the listed ones. */
    ghost predicate Valid()
      reads this, cache
    {
      && cache.Valid() && Sized(cache.Volume()) && Loggable(area, lh) && Holding(area, cache.disk, [])
      && cache.DirtyBlocks() == Blocks(lh)
    }

    /** Every held block is pinned or is as on the disk, and only those in `mine` are in the
        log area. */
    ghost predicate Tidy(mine: set<int>)
      requires cache.Valid()
      reads this, cache
    {
      forall b :: b in cache.HeldBlocks() ==>
        (area.Home(b) || b in mine) && (b in cache.DirtyBlocks() || cache.Volume()[b] == cache.disk[b])
    }

    /** Take hold of a home block. */
    method Read(b: int, ghost mine: set<int>) returns (r: Outcome)
      requires cache.Valid() && Tidy(mine) && area.Home(b)
      modifies cache
      ensures cache.Valid() && Tidy(mine) && (old(Valid()) ==> Valid())
      ensures r.MustWait? <==> b in old(cache.HeldBlocks())
      ensures r.NoBuffers? ==> !old(SomeRecyclable(cache.bufs))
      ensures r.Got? ==> Holds(cache, r.i, b) && cache.bufs[r.i].data == cache.Volume()[b]
      ensures cache.HeldBlocks() == old(cache.HeldBlocks()) + (if r.Got? then {b} else {})
      ensures cache.disk == old(cache.disk) && cache.trace == old(cache.trace)
      ensures cache.Volume() == old(cache.Volume()) && cache.DirtyBlocks() == old(cache.DirtyBlocks())
    {
      hide Ring, Permutation, View, AllCoherent, Indexed;
      if b !in cache.HeldBlocks() && b !in cache.DirtyBlocks() {
        SettledView(cache, b);
      }
      r := cache.Bread(b);
    }

    /** Let a held block go. Its contents are on the disk, or are pinned. */
    method Release(i: int, ghost mine: set<int>)
      requires cache.Valid() && Tidy(mine) && 0 <= i < NBUF && Holds(cache, i, cache.bufs[i].blockno)
      modifies cache
      ensures cache.Valid() && Tidy(mine) && (old(Valid()) ==> Valid())
      ensures cache.HeldBlocks() == old(cache.HeldBlocks()) - {old(cache.bufs)[i].blockno}
      ensures cache.disk == old(cache.disk) && cache.trace == old(cache.trace)
      ensures cache.Volume() == old(cache.Volume()) && cache.DirtyBlocks() == old(cache.DirtyBlocks())
    {
      hide Ring, Permutation, View, AllCoherent;
      HeldAt(cache, i);
      cache.Brelse(i);
    }

    /** Change the contents of a held block and log it. */
    method Update(i: int, data: Block) returns (ok: bool)
      requires Valid() && Tidy({}) && 0 <= i < NBUF && Holds(cache, i, cache.bufs[i].blockno) && |data| == BWORDS
      modifies this, cache
      ensures ok <==> |old(lh)| < LOGSIZE && |old(lh)| < area.size - 1
      ensures cache.disk == old(cache.disk) && cache.trace == old(cache.trace)
      ensures ok ==> Valid() && Tidy({}) && Holds(cache, i, old(cache.bufs)[i].blockno)
      ensures ok ==> lh == Absorbed(old(lh), cache.bufs[i].blockno) && cache.HeldBlocks() == old(cache.HeldBlocks())
      ensures ok ==> 0 <= cache.bufs[i].blockno < FSSIZE && cache.Volume() == old(cache.Volume())[cache.bufs[i].blockno := data]
    {
      hide Ring, Permutation, View, AllCoherent, Indexed;
      HeldAt(cache, i);
      cache.Modify(i, data);
      ok := LogWrite(i);
    }

    /** Record that held buffer `i` is part of the transaction, and pin it. The panic for a
        transaction that is too big comes before the search, so it can hit a listed block. */
    method LogWrite(i: int) returns (ok: bool)
      requires Valid() && 0 <= i < NBUF && Holds(cache, i, cache.bufs[i].blockno) && area.Home(cache.bufs[i].blockno)
      modifies this, cache
      ensures ok <==> |old(lh)| < LOGSIZE && |old(lh)| < area.size - 1
      ensures cache.disk == old(cache.disk) && cache.trace == old(cache.trace)
      ensures !ok ==> lh == old(lh) && cache.bufs == old(cache.bufs)
      ensures ok ==> cache.bufs == old(cache.bufs)[i := old(cache.bufs)[i].(dirty := true)]
      ensures ok ==> Valid() && lh == Absorbed(old(lh), old(cache.bufs)[i].blockno)
      ensures ok ==> cache.Volume() == old(cache.Volume()) && cache.HeldBlocks() == old(cache.HeldBlocks())
    {
      hide Ring, Permutation, View, AllCoherent, Indexed;
      if |lh| >= LOGSIZE || |lh| >= area.size - 1 {
        return false;
      }
      var b := cache.bufs[i].blockno;
      var k := 0;
      while k < |lh| && lh[k] != b
        invariant 0 <= k <= |lh| && b !in lh[..k]
        modifies {}
      {
        k := k + 1;
      }
      if k == |lh| {
        assert lh[..k] == lh;
        lh := lh + [b];
      } else {
        lh := lh[k := b];
        assert lh == old(lh);
      }
      assert Blocks(lh) == Blocks(old(lh)) + {b};
      cache.Pin(i);
      return true;
    }

    /** Commit the transaction. No operation is open, so no block has been changed but those
        listed. It panics exactly when there are blocks to write and every buffer is held or
        pinned. */
    method Commit() returns (ok: bool)
      requires Valid() && Tidy({}) && cache.HeldBlocks() !! Blocks(lh)
      modifies this, cache
      ensures ok <==> old(lh) == [] || old(SomeRecyclable(cache.bufs))
      ensures old(lh) == [] ==> cache.disk == old(cache.disk) && cache.trace == old(cache.trace)
      ensures !ok ==> cache.disk == old(cache.disk) && cache.trace == old(cache.trace)
      ensures ok ==> Valid() && lh == [] && Tidy({}) && cache.HeldBlocks() == old(cache.HeldBlocks())
      ensures ok ==> SameHome(area, cache.disk, old(cache.Volume())) && SameHome(area, cache.Volume(), old(cache.Volume()))
      ensures old(lh) != [] ==> Pending(area, old(cache.disk), old(lh), old(cache.Volume()))
      ensures ok && old(lh) != [] ==>
                cache.trace == old(cache.trace) + CommitTrace(area, old(cache.disk), old(lh), old(cache.Volume()))
    {
      hide Ring, Permutation, View, AllCoherent, Indexed, SomeRecyclable, Cache.HeldBlocks, Cache.DirtyBlocks, Cache.Volume, Cache.Valid,
        Holding, Sized, Loggable, SameHome, Logged, Installed, Pending, CopiedOut, BroughtHome;
      CommitReady(this);
      if |lh| > 0 {
        ghost var d0, v0 := cache.disk, cache.Volume();
        VolumeReady(cache, area, lh);
        CommitStages(area, d0, lh, v0);
        CommitStages(area, v0, lh, v0);
        EmptyLoggable(area, d0);
        ok := WriteLog();
        if !ok {
          return;
        }
        ok := WriteHead();
        ok := InstallTrans();
        lh := [];
        ok := WriteHead();
        TidyAfter(this, v0);
      } else {
        PendingNone(area, cache.disk, lh, cache.Volume());
      }
      return true;
    }

    /** Read the header from the disk into memory. */
    method ReadHead(ghost logged: seq<int>) returns (ok: bool)
      requires cache.Valid() && Holding(area, cache.disk, logged) && Idle(cache)
      modifies this, cache
      ensures cache.Valid() && ok && lh == logged
      ensures cache.disk == old(cache.disk) && cache.trace == old(cache.trace) && cache.Volume() == old(cache.Volume())
      ensures Idle(cache)
      ensures var hb := cache.disk[area.start]; |lh| == hb[0] && forall i :: 0 <= i < |lh| ==> lh[i] == hb[i + 1]
    {
      hide Ring, Permutation, View, AllCoherent, Indexed;
      SettledView(cache, area.start);
      AllRecyclable(cache, 0);
      var r := cache.Bread(area.start);
      assert r.Got?;
      var block := cache.bufs[r.i].data;
      var n := block[0];
      var i := 0;
      lh := [];
      while i < n
        invariant 0 <= i <= n == |logged| && lh == logged[..i]
        modifies `lh
      {
        lh := lh + [block[i + 1]];
        i := i + 1;
      }
      cache.Brelse(r.i);
      return true;
    }

    /** Recovery at boot, when the cache is empty: install what was committed and clear the
        log. Every disk on the way recovers to the same contents. */
    method Recover(ghost logged: seq<int>) returns (ok: bool)
      requires cache.Valid() && Holding(area, cache.disk, logged) && Idle(cache)
      modifies this, cache
      ensures ok && Valid() && lh == [] && Idle(cache) && Tidy({})
      ensures cache.disk == RecoveryDisk(area, old(cache.disk), logged, |logged| + 1)
      ensures cache.trace == old(cache.trace) + RecoveryTrace(area, old(cache.disk), logged)
      ensures SameHome(area, cache.disk, Contents(area, old(cache.disk), logged))
      ensures Replayed(area, old(cache.disk), cache.disk)
    {
      hide Ring, Permutation, View, AllCoherent, Indexed, Holding, Sized, Loggable, SameHome, Installed, Replayed, BroughtHome;
      RecoveryStages(area, cache.disk, logged);
      RecoveryReplays(area, cache.disk, logged);
      ok := ReadHead(logged);
      IdleVolume(cache, area, lh);
      EmptyLoggable(area, RecoveryDisk(area, cache.disk, logged, |logged| + 1));
      ok := InstallTrans();
      lh := [];
      IdleVolume(cache, area, lh);
      ok := WriteHead();
      assert cache.DirtyBlocks() == Blocks(lh);
    }
  }

  /** While no operation is open, a changed block is a listed one: the blocks that readers
      hold are pinned or as on the disk. */
  lemma CommitReady(m: LogManager)
    requires m.Valid() && m.Tidy({})
    ensures Pending(m.area, m.cache.disk, m.lh, m.cache.Volume()) && LogIdle(m.cache, m.area)
    ensures m.cache.HeldBlocks() !! Blocks(m.lh) ==> Undisturbed(m.cache, m.area, m.lh)
  {
    hide Ring, Permutation, View, AllCoherent, Indexed, Cache.HeldBlocks, Cache.DirtyBlocks, Cache.Volume;
    var c := m.cache;
    forall b | m.area.Home(b) && b !in m.lh ensures c.Volume()[b] == c.disk[b] {
      assert b !in Blocks(m.lh);
      if b !in c.HeldBlocks() {
        SettledView(c, b);
      }
    }
    forall i | 0 <= i < |m.lh| ensures m.lh[i] in Blocks(m.lh) {}
  }

  lemma TidyAfter(m: LogManager, volume: Disk)
    requires m.cache.Valid() && SameHome(m.area, m.cache.disk, volume) && SameHome(m.area, m.cache.Volume(), volume)
    requires forall b :: b in m.cache.HeldBlocks() ==> m.area.Home(b)
    ensures m.Tidy({})
  {}
}
