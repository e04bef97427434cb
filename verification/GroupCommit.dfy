/** Group commit: how file-system operations share transactions of the log.

    Each method is one critical section of `begin_op`, `log_write`, `end_op` or the tail of a
    commit, so any interleaving of processes is a sequence of these calls. Operations are
    numbered, and a number is used once. */
module GroupCommit {
  import opened Params
  import opened Seqs

  /** An open operation, and how many more `log_write` calls it may make. */
  datatype Op = Op(id: int, left: int)

  ghost function Total(open: seq<Op>): int {
    if open == [] then 0 else open[0].left + Total(open[1..])
  }

  lemma {:induction false} TotalAppend(open: seq<Op>, op: Op)
    ensures Total(open + [op]) == Total(open) + op.left
  {
    if open == [] {
      assert open + [op] == [op];
    } else {
      assert (open + [op])[1..] == open[1..] + [op];
      TotalAppend(open[1..], op);
    }
  }

  lemma {:induction false} TotalUpdate(open: seq<Op>, i: int, op: Op)
    requires 0 <= i < |open|
    ensures Total(open[i := op]) == Total(open) - open[i].left + op.left
  {
    if i > 0 {
      assert open[i := op][1..] == open[1..][i - 1 := op];
      TotalUpdate(open[1..], i - 1, op);
    }
  }

  lemma {:induction false} TotalRemove(open: seq<Op>, i: int)
    requires 0 <= i < |open|
    ensures Total(open[..i] + open[i + 1..]) == Total(open) - open[i].left
  {
    if i == 0 {
      assert open[..0] + open[1..] == open[1..];
    } else {
      assert (open[..i] + open[i + 1..])[1..] == open[1..][..i - 1] + open[1..][i..];
      TotalRemove(open[1..], i - 1);
    }
  }

  lemma {:induction false} TotalBounds(open: seq<Op>)
    requires forall k :: 0 <= k < |open| ==> 0 <= open[k].left <= MAXOPBLOCKS
    ensures 0 <= Total(open) <= |open| * MAXOPBLOCKS
    ensures forall k :: 0 <= k < |open| ==> open[k].left <= Total(open)
  {
    if open != [] {
      TotalBounds(open[1..]);
      assert forall k :: 1 <= k < |open| ==> open[k] == open[1..][k - 1];
    }
  }

  ghost predicate DistinctOps(open: seq<Op>) {
    forall i, j :: 0 <= i < j < |open| ==> open[i].id != open[j].id
  }

  ghost predicate IsOpen(open: seq<Op>, id: int) {
    exists k :: 0 <= k < |open| && open[k].id == id
  }

  /** The record of which blocks each operation logged, and in which transaction. */
  datatype Record = Record(txn: nat, blocks: set<int>)

  /** `blocks` is what the operations of transaction `t` logged. */
  ghost predicate Gathers(log: map<int, Record>, t: nat, blocks: set<int>) {
    && (forall id :: id in log && log[id].txn == t ==> log[id].blocks <= blocks)
    && (forall b :: b in blocks ==> exists id :: id in log && log[id].txn == t && b in log[id].blocks)
  }

  lemma GathersNew(log: map<int, Record>, t: nat, blocks: set<int>, id: int, txn: nat)
    requires Gathers(log, t, blocks) && id !in log
    ensures Gathers(log[id := Record(txn, {})], t, blocks)
  {
    var log' := log[id := Record(txn, {})];
    forall b | b in blocks ensures exists k :: k in log' && log'[k].txn == t && b in log'[k].blocks {
      var k :| k in log && log[k].txn == t && b in log[k].blocks;
      assert k in log' && log'[k] == log[k];
    }
  }

  lemma GathersWrite(log: map<int, Record>, t: nat, blocks: set<int>, id: int, b: int)
    requires Gathers(log, t, blocks) && id in log
    ensures var log' := log[id := Record(log[id].txn, log[id].blocks + {b})];
            Gathers(log', t, if log[id].txn == t then blocks + {b} else blocks)
  {
    var log' := log[id := Record(log[id].txn, log[id].blocks + {b})];
    forall c | c in blocks ensures exists k :: k in log' && log'[k].txn == t && c in log'[k].blocks {
      var k :| k in log && log[k].txn == t && c in log[k].blocks;
      assert k in log' && log'[k].txn == t && c in log'[k].blocks;
    }
    assert id in log' && b in log'[id].blocks;
  }

  lemma OpsMinus(open: seq<Op>, i: int)
    requires 0 <= i < |open| && DistinctOps(open)
    ensures var rest := open[..i] + open[i + 1..];
            && DistinctOps(rest)
            && (forall k :: 0 <= k < |rest| ==> rest[k] == open[if k < i then k else k + 1])
  {}

  class LogState {
    const size: int
    var outstanding: int
    var committing: bool
    var lh: seq<int>
    /** The operations asleep in `begin_op`. */
    var sleepers: set<int>
    ghost var open: seq<Op>
    ghost var log: map<int, Record>
    /** The blocks of each transaction on disk; the next one has number `|disk|`. */
    ghost var disk: seq<set<int>>

    ghost function Blocks(): set<int>
      reads this
    {
      set b | b in lh
    }

    /** Who is doing what: a commit runs only when no operation is open, the log is empty when
        neither is happening, and then nobody is asleep. */
    ghost predicate Phases()
      reads this
    {
      && outstanding == |open| && DistinctOps(open)
      && (committing ==> open == [])
      && (!committing && open == [] ==> lh == [])
      && (sleepers != {} ==> committing || open != [])
    }

    /** The log has room for everything that open operations may still write. */
    ghost predicate Reserved()
      reads this
    {
      && Distinct(lh)
      && (forall k :: 0 <= k < |open| ==> 0 <= open[k].left <= MAXOPBLOCKS)
      && |lh| + Total(open) <= LOGSIZE
    }

    /** Every operation is in one transaction: the one being gathered, if it is open or has
        just ended, or one on disk. Each transaction is what its operations logged. */
    ghost predicate Together()
      reads this
    {
      && (forall k :: 0 <= k < |open| ==> open[k].id in log && log[open[k].id].txn == |disk|)
      && (forall id :: id in log ==> log[id].txn <= |disk|)
      && Gathers(log, |disk|, Blocks())
      && (forall t :: 0 <= t < |disk| ==> Gathers(log, t, disk[t]))
      && (forall id :: id in sleepers ==> id !in log)
    }

    ghost predicate Valid()
      reads this
    {
      Phases() && Reserved() && Together()
    }

    constructor (size: int)
      ensures Valid() && this.size == size && !committing && outstanding == 0 && lh == [] && disk == [] && log == map[] && open == [] && sleepers == {}
    {
      this.size := size;
      outstanding, committing, lh, sleepers := 0, false, [], {};
      open, log, disk := [], map[], [];
    }

    /** One pass of the loop in `begin_op`: enter, or go to sleep. */
    method BeginOp(id: int) returns (entered: bool)
      requires Valid() && id !in log && id !in sleepers
      modifies this
      ensures Valid()
      ensures entered <==> !old(committing) && |old(lh)| + (old(outstanding) + 1) * MAXOPBLOCKS <= LOGSIZE
      ensures lh == old(lh) && committing == old(committing) && disk == old(disk)
      ensures entered ==> open == old(open) + [Op(id, MAXOPBLOCKS)] && sleepers == old(sleepers)
                          && log == old(log)[id := Record(|disk|, {})] && outstanding == old(outstanding) + 1
      ensures !entered ==> open == old(open) && log == old(log) && sleepers == old(sleepers) + {id}
    {
      hide Gathers, Total;
      TotalBounds(open);
      if committing {
        sleepers := sleepers + {id};
        return false;
      } else if |lh| + (outstanding + 1) * MAXOPBLOCKS > LOGSIZE {
        sleepers := sleepers + {id};
        return false;
      } else {
        outstanding := outstanding + 1;
        GathersNew(log, |disk|, Blocks(), id, |disk|);
        forall t | 0 <= t < |disk| ensures Gathers(log[id := Record(|disk|, {})], t, disk[t]) {
          GathersNew(log, t, disk[t], id, |disk|);
        }
        TotalAppend(open, Op(id, MAXOPBLOCKS));
        open := open + [Op(id, MAXOPBLOCKS)];
        log := log[id := Record(|disk|, {})];
        return true;
      }
    }

    /** `log_write` of block `b` by operation `id`; false is the panic. */
    method LogWrite(id: int, b: int, ghost i: int) returns (ok: bool)
      requires Valid() && 0 <= i < |open| && open[i].id == id && open[i].left > 0
      modifies this
      ensures ok <==> |old(lh)| < LOGSIZE && |old(lh)| < size - 1
      ensures size > LOGSIZE ==> ok
      ensures ok ==> Valid()
      ensures ok ==> lh == if b in old(lh) then old(lh) else old(lh) + [b]
      ensures ok ==> open == old(open)[i := Op(id, old(open)[i].left - 1)]
      ensures ok ==> id in log && log == old(log)[id := Record(|disk|, old(log)[id].blocks + {b})]
      ensures outstanding == old(outstanding) && committing == old(committing) && disk == old(disk) && sleepers == old(sleepers)
    {
      hide Gathers, Total;
      TotalBounds(open);
      if |lh| >= LOGSIZE || |lh| >= size - 1 {
        return false;
      }
      assert outstanding >= 1;  // "log_write outside of trans" is unreachable
      GathersWrite(log, |disk|, Blocks(), id, b);
      forall t | 0 <= t < |disk|
        ensures Gathers(log[id := Record(log[id].txn, log[id].blocks + {b})], t, disk[t])
      {
        GathersWrite(log, t, disk[t], id, b);
      }
      ghost var before := Blocks();
      var k := 0;
      while k < |lh| && lh[k] != b
        invariant 0 <= k <= |lh| && b !in lh[..k]
        modifies {}
      {
        k := k + 1;
      }
      assert lh[..|lh|] == lh;
      if k == |lh| {
        lh := lh + [b];
      } else {
        lh := lh[k := b];
        assert lh == old(lh);
      }
      assert Blocks() == before + {b};
      TotalUpdate(open, i, Op(id, open[i].left - 1));
      open := open[i := Op(id, open[i].left - 1)];
      log := log[id := Record(|disk|, log[id].blocks + {b})];
      return true;
    }

    /** The first half of `end_op`; the caller commits if it was the last operation. */
    method EndOp(id: int, ghost i: int) returns (doCommit: bool)
      requires Valid() && 0 <= i < |open| && open[i].id == id
      modifies this
      ensures Valid()
      ensures doCommit <==> |old(open)| == 1
      ensures committing == doCommit && open == old(open)[..i] + old(open)[i + 1..]
      ensures lh == old(lh) && log == old(log) && disk == old(disk)
      ensures sleepers == if doCommit then old(sleepers) else {}
    {
      hide Gathers, Total;
      doCommit := false;
      outstanding := outstanding - 1;
      assert !committing;  // the panic in `end_op` is unreachable
      TotalRemove(open, i);
      OpsMinus(open, i);
      TotalBounds(open);
      open := open[..i] + open[i + 1..];
      if outstanding == 0 {
        doCommit := true;
        committing := true;
      } else {
        sleepers := {};
      }
    }

    /** What `commit` does to the log: what is listed, if anything, becomes one transaction on
        disk. */
    method Commit()
      requires Valid() && committing
      modifies this
      ensures Valid() && committing
      ensures disk == (if old(lh) == [] then old(disk) else old(disk) + [old(Blocks())])
      ensures lh == [] && log == old(log) && sleepers == old(sleepers)
    {
      if |lh| > 0 {
        disk := disk + [Blocks()];
        lh := [];
        assert Gathers(log, |disk|, Blocks());
        forall t | 0 <= t < |disk| ensures Gathers(log, t, disk[t]) {}
      }
    }

    /** The end of `end_op` after a commit. */
    method FinishCommit()
      requires Valid() && committing && lh == []
      modifies this
      ensures Valid() && !committing && sleepers == {}
      ensures lh == [] && open == [] && log == old(log) && disk == old(disk)
    {
      committing := false;
      sleepers := {};
    }
  }

  /** Once an operation is over and its transaction is on disk, all that it logged is in that
      one transaction. */
  lemma OneTransaction(m: LogState, id: int)
    requires m.Valid() && id in m.log && m.log[id].txn < |m.disk|
    ensures !IsOpen(m.open, id)
    ensures m.log[id].blocks <= m.disk[m.log[id].txn]
  {
    assert Gathers(m.log, m.log[id].txn, m.disk[m.log[id].txn]);
  }

  /** Operations 0, 1 and 2 begin and, in turn, log `n` different blocks. */
  method LogBlocks(size: int, n: int) returns (m: LogState)
    requires 0 <= n <= LOGSIZE && n < size
    ensures fresh(m) && m.size == size && m.Valid() && !m.committing
    ensures |m.lh| == n && m.open == [Op(0, Left(0, n)), Op(1, Left(1, n)), Op(2, Left(2, n))]
  {
    hide LogState.Valid;
    m := new LogState(size);
    var entered := m.BeginOp(0);
    entered := m.BeginOp(1);
    entered := m.BeginOp(2);
    var k := 0;
    while k < n
      invariant 0 <= k <= n && m.Valid() && !m.committing
      invariant |m.lh| == k && (forall i :: 0 <= i < k ==> m.lh[i] == i)
      invariant m.open == [Op(0, Left(0, k)), Op(1, Left(1, k)), Op(2, Left(2, k))]
    {
      var ok := m.LogWrite(k / MAXOPBLOCKS, k, k / MAXOPBLOCKS);
      k := k + 1;
    }
  }

  /** With a log area of at most LOGSIZE blocks, which is what mkfs makes (mkfs.c:25), three
      operations within their allowances get to where the next call of `log_write`, to which
      operation `i` is entitled, panics. */
  method LogOverflows(size: int) returns (m: LogState, i: int)
    requires 1 <= size <= LOGSIZE
    ensures fresh(m) && m.size == size && m.Valid()
    ensures 0 <= i < |m.open| && m.open[i].left > 0 && |m.lh| == size - 1
  {
    m := LogBlocks(size, size - 1);
    i := (size - 1) / MAXOPBLOCKS;
  }

  /** With a larger one, a transaction can have LOGSIZE blocks when its commit starts. */
  method FullTransaction(size: int) returns (m: LogState)
    requires size > LOGSIZE
    ensures fresh(m) && m.size == size && m.Valid() && m.committing && |m.lh| == LOGSIZE
  {
    m := LogBlocks(size, LOGSIZE);
    var last := m.EndOp(0, 0);
    last := m.EndOp(1, 0);
    last := m.EndOp(2, 0);
  }

  /** What operation `j` has left when operations 0, 1 and 2, in turn, have made `k` calls. */
  function Left(j: int, k: int): int {
    var used := k - j * MAXOPBLOCKS;
    if used <= 0 then MAXOPBLOCKS else if used >= MAXOPBLOCKS then 0 else MAXOPBLOCKS - used
  }
}
