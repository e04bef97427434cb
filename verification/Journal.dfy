/** Operations on the log and the log on the cache, joined: what becomes of the blocks that
    each file-system operation wrote when the machine stops at any moment and recovers. */
module Journal {
  import opened Params
  import opened Ide
  import opened BufferCache
  import G = GroupCommit
  import opened Log
  import opened LogRuns

  /** `made` records, for each operation of transaction `txn`, the blocks that it logged with
      the contents it gave them; `author` is the operation that last wrote a listed block, and
      the volume holds what that operation wrote. */
  ghost predicate Authored(lh: seq<int>, log: map<int, G.Record>, txn: int, volume: Disk,
                           made: map<int, map<int, Block>>, author: map<int, int>)
  {
    && (forall id :: id in log && log[id].txn == txn ==> id in made && made[id].Keys == log[id].blocks)
    && (forall b :: b in lh ==>
          && b in author && author[b] in log && log[author[b]].txn == txn
          && author[b] in made && b in made[author[b]]
          && 0 <= b < |volume| && volume[b] == made[author[b]][b])
  }

  lemma AuthoredNew(lh: seq<int>, log: map<int, G.Record>, txn: nat, volume: Disk,
                    made: map<int, map<int, Block>>, author: map<int, int>, id: int)
    requires Authored(lh, log, txn, volume, made, author) && id !in log
    ensures Authored(lh, log[id := G.Record(txn, {})], txn, volume, made[id := map[]], author)
  {}

  lemma AuthoredWrite(lh: seq<int>, log: map<int, G.Record>, txn: nat, volume: Disk,
                      made: map<int, map<int, Block>>, author: map<int, int>, id: int, b: int, data: Block, lh': seq<int>)
    requires Authored(lh, log, txn, volume, made, author) && id in log && log[id].txn == txn && 0 <= b < |volume|
    requires lh' == if b in lh then lh else lh + [b]
    ensures id in made
    ensures Authored(lh', log[id := G.Record(txn, log[id].blocks + {b})], txn, volume[b := data],
                     made[id := made[id][b := data]], author[b := id])
  {}

  lemma OpenMade(j: Files, k: int)
    requires j.Valid() && 0 <= k < |j.g.open|
    ensures var id := j.g.open[k].id; id in j.g.log && j.g.log[id].txn == |j.g.disk| && id in j.made
  {
    hide LogManager.Valid, LogManager.Tidy;
  }

  lemma Allowance(g: G.LogState, k: int)
    requires g.Valid() && 0 <= k < |g.open| && g.open[k].left > 0
    ensures |g.lh| < LOGSIZE
  {
    G.TotalBounds(g.open);
  }

  lemma NoLaterTransaction(g: G.LogState)
    requires g.Valid()
    ensures forall id :: id in g.log ==> g.log[id].txn <= |g.disk|
    ensures forall id :: id in g.log && g.log[id].txn == |g.disk| ==> g.log[id].blocks <= g.Blocks()
  {}

  class Files {
    const g: G.LogState
    const m: LogManager
    ghost var made: map<int, map<int, Block>>
    ghost var author: map<int, int>

    /** Between the writes of commits. */
    ghost predicate Valid()
      reads this, g, m, m.cache
    {
      && g.Valid() && m.Valid() && m.Tidy({}) && g.lh == m.lh && g.size == m.area.size
      && Authored(g.lh, g.log, |g.disk|, m.cache.Volume(), made, author)
    }

    /** After `k` writes of the commit of `t`, whose steps leave all but `m` and its cache alone. */
    ghost predicate Committing(t: Txn, k: nat, mine: set<int>)
      reads this, g, m, m.cache
    {
      && g.Valid() && g.committing && g.lh == t.lh && g.size == m.area.size && Midway(m, t, k, mine)
      && Authored(t.lh, g.log, |g.disk|, t.v, made, author)
    }

    constructor (m: LogManager)
      requires m.Valid() && m.Tidy({}) && m.lh == []
      ensures Valid() && this.m == m && fresh(g) && g.open == [] && !g.committing
    {
      this.m := m;
      g := new G.LogState(m.area.size);
      made, author := map[], map[];
    }

    /** An operation begins, or waits. */
    method Begin(id: int) returns (entered: bool)
      requires Valid() && id !in g.log && id !in g.sleepers
      modifies this, g
      ensures Valid()
      ensures entered ==> id in made && made == old(made)[id := map[]]
      ensures !entered ==> made == old(made)
    {
      hide Authored, G.LogState.Valid, LogManager.Tidy, Cache.Valid, Cache.Volume, Cache.DirtyBlocks;
      entered := g.BeginOp(id);
      if entered {
        AuthoredNew(g.lh, old(g.log), |g.disk|, m.cache.Volume(), made, author, id);
        made := made[id := map[]];
      }
    }

    /** Operation `id`, the `k`-th open one, gives new contents to a block that it holds. */
    method Write(id: int, i: int, data: Block, ghost k: int) returns (ok: bool)
      requires Valid() && 0 <= k < |g.open| && g.open[k].id == id && g.open[k].left > 0
      requires 0 <= i < NBUF && Holds(m.cache, i, m.cache.bufs[i].blockno) && |data| == BWORDS
      modifies this, g, m, m.cache
      ensures ok <==> |old(g.lh)| < LOGSIZE && |old(g.lh)| < g.size - 1
      ensures g.size > LOGSIZE ==> ok
      ensures ok ==> Valid() && m.cache.disk == old(m.cache.disk)
      ensures ok ==>
                var b := old(m.cache.bufs)[i].blockno;
                id in old(made) && made == old(made)[id := old(made)[id][b := data]] && author == old(author)[b := id]
    {
      hide Authored, G.LogState.Valid, LogManager.Tidy, Ring, Permutation, View, AllCoherent, Indexed;
      ghost var v0, log0, lh0 := m.cache.Volume(), g.log, g.lh;
      var b := m.cache.bufs[i].blockno;
      OpenMade(this, k);
      Allowance(g, k);
      ok := m.Update(i, data);
      if ok {
        ok := g.LogWrite(id, b, k);
        AuthoredWrite(lh0, log0, |g.disk|, v0, made, author, id, b, data, g.lh);
        made := made[id := made[id][b := data]];
        author := author[b := id];
      }
    }

    /** An operation ends; the last one has to commit. */
    method End(id: int, ghost k: int) returns (doCommit: bool)
      requires Valid() && 0 <= k < |g.open| && g.open[k].id == id
      modifies g
      ensures Valid() && g.committing == doCommit && g.lh == old(g.lh) && g.log == old(g.log) && g.disk == old(g.disk)
      ensures doCommit <==> |old(g.open)| == 1
    {
      hide Authored, G.LogState.Valid, LogManager.Valid, LogManager.Tidy;
      doCommit := g.EndOp(id, k);
    }

    /** The last writes of a commit are done, or it had nothing to write. */
    method Finish(ghost t: Txn)
      requires Committing(t, Writes(|t.lh|), {}) || (Valid() && g.committing && g.lh == [])
      modifies g
      ensures Valid() && !g.committing && g.lh == [] && g.log == old(g.log)
      ensures old(Committing(t, Writes(|t.lh|), {})) ==> SameHome(m.area, m.cache.disk, t.v)
    {
      hide G.LogState.Valid, LogManager.Valid, LogManager.Tidy, Midway;
      if Committing(t, Writes(|t.lh|), {}) {
        MidwayEnd(m, t);
      }
      NoLaterTransaction(g);
      g.Commit();
      g.FinishCommit();
    }
  }

  /** A commit that has something to write. */
  lemma CommitStarts(j: Files)
    requires j.Valid() && j.g.committing && j.g.lh != []
    ensures j.Committing(Txn(j.m.cache.disk, j.m.cache.Volume(), j.m.lh), 0, {})
  {
    hide Authored, G.LogState.Valid, LogManager.Valid, LogManager.Tidy, Midway;
    MidwayStart(j.m);
  }

  /** What an operation left on a recovered disk: all that it logged, as it was when the commit
      started, which for a block that no other operation wrote later is what it wrote itself. */
  ghost predicate AllThere(j: Files, id: int, v: Disk, restored: Disk)
    requires id in j.g.log && id in j.made
    reads j, j.g
  {
    forall b :: b in j.g.log[id].blocks ==>
      && 0 <= b < |v| && 0 <= b < |restored| && restored[b] == v[b]
      && b in j.author && b in j.made[id] && (j.author[b] == id ==> restored[b] == j.made[id][b])
  }

  /** Or nothing of it. */
  ghost predicate NoneThere(j: Files, id: int, d: Disk, restored: Disk)
    requires id in j.g.log
    reads j, j.g
  {
    forall b :: b in j.g.log[id].blocks ==> 0 <= b < |d| && 0 <= b < |restored| && restored[b] == d[b]
  }

  lemma Listed(j: Files, t: Txn, k: nat, mine: set<int>, id: int, b: int)
    requires j.Committing(t, k, mine) && id in j.g.log && j.g.log[id].txn == |j.g.disk| && b in j.g.log[id].blocks
    ensures b in t.lh && j.m.area.Home(b) && b in j.author && id in j.made && b in j.made[id]
    ensures |t.v| == FSSIZE && |t.d| == FSSIZE && (j.author[b] == id ==> t.v[b] == j.made[id][b])
  {
    hide G.LogState.Valid, LogManager.Tidy, CommitDisk;
    NoLaterTransaction(j.g);
    assert b in j.g.Blocks();
  }

  /** Operations are atomic: when the machine stops after any write of a commit, and then in any
      number of recoveries, the completed recovery leaves all that an operation of the
      transaction logged, or nothing of it. */
  lemma OperationAtomic(j: Files, t: Txn, k: nat, mine: set<int>, disks: seq<Disk>, last: seq<int>, id: int)
    requires j.Committing(t, k, mine) && id in j.g.log && j.g.log[id].txn == |j.g.disk|
    requires CrashRun(j.m.area, disks) && disks[0] == j.m.cache.disk && Holding(j.m.area, disks[|disks| - 1], last)
    ensures id in j.made
    ensures var restored := RecoveryDisk(j.m.area, disks[|disks| - 1], last, |last| + 1);
            && (k > |t.lh| ==> AllThere(j, id, t.v, restored))
            && (k <= |t.lh| ==> NoneThere(j, id, t.d, restored))
  {
    hide G.LogState.Valid, LogManager.Tidy, CommitDisk, RecoveryDisk, Holding, Authored, Pending, Loggable;
    var restored := RecoveryDisk(j.m.area, disks[|disks| - 1], last, |last| + 1);
    MadeBy(j, t, k, mine, id);
    CrashSafety(j.m.area, t.d, t.lh, t.v, k, disks, last);
    forall b | b in j.g.log[id].blocks
      ensures b in j.author && b in j.made[id] && j.m.area.Home(b) && |t.v| == FSSIZE && |t.d| == FSSIZE
      ensures j.author[b] == id ==> t.v[b] == j.made[id][b]
    {
      Listed(j, t, k, mine, id, b);
    }
  }

  lemma MadeBy(j: Files, t: Txn, k: nat, mine: set<int>, id: int)
    requires j.Committing(t, k, mine) && id in j.g.log && j.g.log[id].txn == |j.g.disk|
    ensures id in j.made && Sized(t.v)
  {
    hide G.LogState.Valid, LogManager.Tidy, CommitDisk;
  }

  /** While no commit is writing, stopping loses exactly what is not yet committed: the home
      blocks are as the last commit left them. */
  lemma QuietCrash(j: Files, disks: seq<Disk>, last: seq<int>)
    requires j.Valid()
    requires CrashRun(j.m.area, disks) && disks[0] == j.m.cache.disk && Holding(j.m.area, disks[|disks| - 1], last)
    ensures SameHome(j.m.area, RecoveryDisk(j.m.area, disks[|disks| - 1], last, |last| + 1), j.m.cache.disk)
  {
    hide G.LogState.Valid, Authored, LogManager.Tidy, Cache.Valid, Cache.Volume, Cache.DirtyBlocks;
    var a, d, e := j.m.area, j.m.cache.disk, disks[|disks| - 1];
    assert SameHome(a, Contents(a, d, []), d);
    RecoversAt(a, d, [], d);
    CrashRunKeeps(a, disks, d);
    var lh :| Holding(a, e, lh) && SameHome(a, Contents(a, e, lh), d);
    HeaderUnique(e[a.start], last, lh);
    RecoveryKeeps(a, e, last, |last| + 1);
  }
}
