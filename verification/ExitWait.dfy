/** The exit/wait protocol of the default build, where the kernel scans the process table.

    Each method is one critical section under `ptable.lock`, so any interleaving of processes
    is a sequence of these calls. Process pointers are table indices, and `NIL` is null. A
    sleep channel is the address of a kernel object; the addresses of process slots are their
    indices, and `wait` is the only caller that sleeps on one. */
module ExitWait {
  import opened Params
  import opened Process
  import opened Seqs

  /** A process that has been handed to the scheduler and has not exited. */
  ghost predicate Alive(s: State) {
    s == SLEEPING || s == RUNNABLE || s == RUNNING
  }

  ghost predicate Started(s: State) {
    Alive(s) || s == ZOMBIE
  }

  // ---------------------------------------------------------------- the protocol's invariants

  /** No process sleeps in `wait` while it has a zombie child. */
  ghost predicate NoLostChild(state: seq<State>, parent: seq<int>, chan: seq<int>)
    requires |state| == NPROC && |parent| == NPROC && |chan| == NPROC
  {
    forall w, z :: IsProc(w) && IsProc(z) && state[z] == ZOMBIE && parent[z] == w
                   ==> !(state[w] == SLEEPING && chan[w] == w)
  }

  ghost predicate Parented(state: seq<State>, parent: seq<int>, initproc: int, p: int)
    requires |state| == NPROC && |parent| == NPROC && IsProc(p)
  {
    Started(state[p]) && p != initproc ==> IsProc(parent[p]) && Alive(state[parent[p]])
  }

  /** Every started process but init has a living parent; a slot that is not in use has none;
      and a slot under construction belongs to the process that is forking it. */
  ghost predicate Family(state: seq<State>, parent: seq<int>, forking: seq<int>, initproc: int)
    requires |state| == NPROC && |parent| == NPROC && |forking| == NPROC
  {
    && IsProc(initproc) && Alive(state[initproc]) && parent[initproc] == NIL
    && (forall p :: IsProc(p) ==> parent[p] != p)
    && (forall p :: IsProc(p) ==> Parented(state, parent, initproc, p))
    && (forall p :: IsProc(p) && state[p] == UNUSED ==> parent[p] == NIL)
    && (forall p :: IsProc(p) && state[p] == EMBRYO ==> parent[p] == NIL || (IsProc(parent[p]) && forking[parent[p]] == p))
    && (forall p :: IsProc(p) && forking[p] != NIL ==> IsProc(forking[p]) && state[forking[p]] == EMBRYO && Alive(state[p]))
    && (forall p, q :: IsProc(p) && IsProc(q) && p != q && forking[p] != NIL ==> forking[p] != forking[q])
  }

  ghost predicate InUse(s: State) {
    s != UNUSED
  }

  /** Process ids of slots in use are distinct and were handed out. */
  ghost predicate Pids(state: seq<State>, pid: seq<int>, nextpid: int)
    requires |state| == NPROC && |pid| == NPROC
  {
    && 0 < nextpid
    && (forall p :: IsProc(p) && InUse(state[p]) ==> 0 < pid[p] < nextpid)
    && (forall p, q :: IsProc(p) && IsProc(q) && p != q && InUse(state[p]) && InUse(state[q]) ==> pid[p] != pid[q])
  }

  ghost predicate IsZombie(state: seq<State>, pid: seq<int>, id: int)
    requires |state| == NPROC && |pid| == NPROC
  {
    exists z :: IsProc(z) && state[z] == ZOMBIE && pid[z] == id
  }

  /** Every process that has exited is either still a zombie or has been reaped, never both,
      and no process is reaped twice. */
  ghost predicate Ledger(state: seq<State>, pid: seq<int>, nextpid: int, exited: set<int>, reaped: seq<int>)
    requires |state| == NPROC && |pid| == NPROC
  {
    && Distinct(reaped)
    && (forall id :: id in exited <==> id in reaped || IsZombie(state, pid, id))
    && (forall id :: id in reaped ==> id < nextpid)
    && (forall p :: IsProc(p) && InUse(state[p]) ==> pid[p] !in reaped)
  }

  /** A change of state that no invariant notices: a sleeping process becomes runnable. */
  ghost predicate WakesSome(state: seq<State>, state': seq<State>)
    requires |state| == NPROC
  {
    && |state'| == NPROC
    && forall q :: IsProc(q) ==> state'[q] == state[q] || (state[q] == SLEEPING && state'[q] == RUNNABLE)
  }

  lemma WakingKeeps(state: seq<State>, state': seq<State>, parent: seq<int>, chan: seq<int>, forking: seq<int>,
                    initproc: int, pid: seq<int>, nextpid: int, exited: set<int>, reaped: seq<int>)
    requires |state| == NPROC && |parent| == NPROC && |chan| == NPROC && |forking| == NPROC && |pid| == NPROC
    requires WakesSome(state, state')
    requires Family(state, parent, forking, initproc) && Pids(state, pid, nextpid) && Ledger(state, pid, nextpid, exited, reaped)
    ensures NoLostChild(state, parent, chan) ==> NoLostChild(state', parent, chan)
    ensures Family(state', parent, forking, initproc)
    ensures Pids(state', pid, nextpid)
    ensures Ledger(state', pid, nextpid, exited, reaped)
  {
    forall p | IsProc(p) ensures Parented(state', parent, initproc, p) {
      assert Parented(state, parent, initproc, p);
    }
    ZombiesSame(state, state', pid);
  }

  lemma LivingChange(state: seq<State>, parent: seq<int>, forking: seq<int>, initproc: int,
                     pid: seq<int>, nextpid: int, exited: set<int>, reaped: seq<int>, p: int, s: State)
    requires |state| == NPROC && |parent| == NPROC && |forking| == NPROC && |pid| == NPROC
    requires Family(state, parent, forking, initproc) && Pids(state, pid, nextpid) && Ledger(state, pid, nextpid, exited, reaped)
    requires IsProc(p) && Alive(state[p]) && Alive(s)
    ensures Family(state[p := s], parent, forking, initproc)
    ensures Pids(state[p := s], pid, nextpid)
    ensures Ledger(state[p := s], pid, nextpid, exited, reaped)
  {
    hide Family, Pids, Ledger;
    LivingFamily(state, parent, forking, initproc, p, s);
    LivingLedger(state, pid, nextpid, exited, reaped, p, s);
  }

  lemma LivingFamily(state: seq<State>, parent: seq<int>, forking: seq<int>, initproc: int, p: int, s: State)
    requires |state| == NPROC && |parent| == NPROC && |forking| == NPROC && Family(state, parent, forking, initproc)
    requires IsProc(p) && Alive(state[p]) && Alive(s)
    ensures Family(state[p := s], parent, forking, initproc)
  {
    forall q | IsProc(q) ensures Parented(state[p := s], parent, initproc, q) {
      assert Parented(state, parent, initproc, q);
    }
  }

  lemma LivingLedger(state: seq<State>, pid: seq<int>, nextpid: int, exited: set<int>, reaped: seq<int>, p: int, s: State)
    requires |state| == NPROC && |pid| == NPROC && Pids(state, pid, nextpid) && Ledger(state, pid, nextpid, exited, reaped)
    requires IsProc(p) && Alive(state[p]) && Alive(s)
    ensures Pids(state[p := s], pid, nextpid) && Ledger(state[p := s], pid, nextpid, exited, reaped)
  {
    ZombiesSame(state, state[p := s], pid);
  }

  lemma ZombiesSame(state: seq<State>, state': seq<State>, pid: seq<int>)
    requires |state| == NPROC && |state'| == NPROC && |pid| == NPROC
    requires forall q :: IsProc(q) ==> (state[q] == ZOMBIE <==> state'[q] == ZOMBIE)
    ensures forall id :: IsZombie(state', pid, id) <==> IsZombie(state, pid, id)
  {
    forall id ensures IsZombie(state', pid, id) <==> IsZombie(state, pid, id) {
      if IsZombie(state, pid, id) {
        var z :| IsProc(z) && state[z] == ZOMBIE && pid[z] == id;
        assert state'[z] == ZOMBIE;
      }
      if IsZombie(state', pid, id) {
        var z :| IsProc(z) && state'[z] == ZOMBIE && pid[z] == id;
        assert state[z] == ZOMBIE;
      }
    }
  }

  /** Handing one child over to init. */
  lemma AdoptKeeps(state: seq<State>, parent: seq<int>, forking: seq<int>, initproc: int, p: int, q: int)
    requires |state| == NPROC && |parent| == NPROC && |forking| == NPROC
    requires Family(state, parent, forking, initproc) && IsProc(p) && IsProc(q) && forking[p] == NIL && parent[q] == p
    ensures Family(state, parent[q := initproc], forking, initproc)
  {
    forall r | IsProc(r) ensures Parented(state, parent[q := initproc], initproc, r) {
      assert Parented(state, parent, initproc, r);
    }
  }

  lemma AdoptChild(state: seq<State>, state': seq<State>, parent: seq<int>, chan: seq<int>, initproc: int, q: int)
    requires |state| == NPROC && |parent| == NPROC && |chan| == NPROC && IsProc(initproc) && IsProc(q)
    requires WakesSome(state, state') && NoLostChild(state, parent, chan)
    requires state[q] == ZOMBIE ==> !(state'[initproc] == SLEEPING && chan[initproc] == initproc)
    ensures NoLostChild(state', parent[q := initproc], chan)
  {}

  lemma NotOwnParent(state: seq<State>, parent: seq<int>, forking: seq<int>, initproc: int, p: int)
    requires |state| == NPROC && |parent| == NPROC && |forking| == NPROC
    requires Family(state, parent, forking, initproc) && IsProc(p)
    ensures IsProc(initproc) && parent[p] != p
    ensures Started(state[p]) && p != initproc ==> IsProc(parent[p]) && Alive(state[parent[p]])
  {
    assert Parented(state, parent, initproc, p);
  }

  /** A process with no children and a parent that is awake becomes a zombie. */
  lemma ExitKeeps(state: seq<State>, parent: seq<int>, chan: seq<int>, forking: seq<int>, initproc: int,
                  pid: seq<int>, nextpid: int, exited: set<int>, reaped: seq<int>, p: int)
    requires |state| == NPROC && |parent| == NPROC && |chan| == NPROC && |forking| == NPROC && |pid| == NPROC
    requires NoLostChild(state, parent, chan) && Family(state, parent, forking, initproc)
    requires Pids(state, pid, nextpid) && Ledger(state, pid, nextpid, exited, reaped)
    requires IsProc(p) && state[p] == RUNNING && p != initproc && forking[p] == NIL
    requires forall q :: IsProc(q) ==> parent[q] != p
    requires IsProc(parent[p]) ==> !(state[parent[p]] == SLEEPING && chan[parent[p]] == parent[p])
    ensures var state' := state[p := ZOMBIE];
            && NoLostChild(state', parent, chan)
            && Family(state', parent, forking, initproc)
            && Pids(state', pid, nextpid)
            && Ledger(state', pid, nextpid, exited + {pid[p]}, reaped)
  {
    hide NoLostChild, Family, Pids, Ledger;
    ExitFamily(state, parent, chan, forking, initproc, p);
    ExitLedger(state, pid, nextpid, exited, reaped, p);
  }

  lemma ExitFamily(state: seq<State>, parent: seq<int>, chan: seq<int>, forking: seq<int>, initproc: int, p: int)
    requires |state| == NPROC && |parent| == NPROC && |chan| == NPROC && |forking| == NPROC
    requires NoLostChild(state, parent, chan) && Family(state, parent, forking, initproc)
    requires IsProc(p) && state[p] == RUNNING && p != initproc && forking[p] == NIL
    requires forall q :: IsProc(q) ==> parent[q] != p
    requires IsProc(parent[p]) ==> !(state[parent[p]] == SLEEPING && chan[parent[p]] == parent[p])
    ensures NoLostChild(state[p := ZOMBIE], parent, chan) && Family(state[p := ZOMBIE], parent, forking, initproc)
  {
    forall r | IsProc(r) ensures Parented(state[p := ZOMBIE], parent, initproc, r) {
      assert Parented(state, parent, initproc, r);
    }
  }

  lemma ExitLedger(state: seq<State>, pid: seq<int>, nextpid: int, exited: set<int>, reaped: seq<int>, p: int)
    requires |state| == NPROC && |pid| == NPROC && IsProc(p) && state[p] == RUNNING
    requires Pids(state, pid, nextpid) && Ledger(state, pid, nextpid, exited, reaped)
    ensures Pids(state[p := ZOMBIE], pid, nextpid) && Ledger(state[p := ZOMBIE], pid, nextpid, exited + {pid[p]}, reaped)
  {
    var state' := state[p := ZOMBIE];
    forall id ensures IsZombie(state', pid, id) <==> IsZombie(state, pid, id) || id == pid[p] {
      if IsZombie(state, pid, id) {
        var z :| IsProc(z) && state[z] == ZOMBIE && pid[z] == id;
        assert state'[z] == ZOMBIE;
      }
      if IsZombie(state', pid, id) {
        var z :| IsProc(z) && state'[z] == ZOMBIE && pid[z] == id;
        assert z == p || state[z] == ZOMBIE;
      }
      assert state'[p] == ZOMBIE;
    }
  }

  lemma ReapFamily(state: seq<State>, parent: seq<int>, chan: seq<int>, forking: seq<int>, initproc: int, z: int)
    requires |state| == NPROC && |parent| == NPROC && |chan| == NPROC && |forking| == NPROC
    requires NoLostChild(state, parent, chan) && Family(state, parent, forking, initproc)
    requires IsProc(z) && state[z] == ZOMBIE
    ensures NoLostChild(state[z := UNUSED], parent[z := NIL], chan)
    ensures Family(state[z := UNUSED], parent[z := NIL], forking, initproc)
  {
    var state', parent' := state[z := UNUSED], parent[z := NIL];
    forall r | IsProc(r) ensures Parented(state', parent', initproc, r) {
      assert Parented(state, parent, initproc, r);
    }
  }

  lemma ReapLedger(state: seq<State>, pid: seq<int>, nextpid: int, exited: set<int>, reaped: seq<int>, z: int)
    requires |state| == NPROC && |pid| == NPROC
    requires Pids(state, pid, nextpid) && Ledger(state, pid, nextpid, exited, reaped)
    requires IsProc(z) && state[z] == ZOMBIE
    ensures Pids(state[z := UNUSED], pid[z := 0], nextpid)
    ensures Ledger(state[z := UNUSED], pid[z := 0], nextpid, exited, reaped + [pid[z]])
  {
    var state', pid' := state[z := UNUSED], pid[z := 0];
    assert IsZombie(state, pid, pid[z]);
    forall id ensures IsZombie(state, pid, id) <==> IsZombie(state', pid', id) || id == pid[z] {
      if IsZombie(state', pid', id) {
        var y :| IsProc(y) && state'[y] == ZOMBIE && pid'[y] == id;
        assert state[y] == ZOMBIE && pid[y] == id;
      }
      if IsZombie(state, pid, id) && id != pid[z] {
        var y :| IsProc(y) && state[y] == ZOMBIE && pid[y] == id;
        assert state'[y] == ZOMBIE && pid'[y] == id;
      }
    }
    assert pid[z] !in reaped;
  }

  lemma AllocKeeps(state: seq<State>, parent: seq<int>, chan: seq<int>, forking: seq<int>, initproc: int,
                   pid: seq<int>, nextpid: int, exited: set<int>, reaped: seq<int>, p: int, np: int)
    requires |state| == NPROC && |parent| == NPROC && |chan| == NPROC && |forking| == NPROC && |pid| == NPROC
    requires NoLostChild(state, parent, chan) && Family(state, parent, forking, initproc)
    requires Pids(state, pid, nextpid) && Ledger(state, pid, nextpid, exited, reaped)
    requires IsProc(p) && state[p] == RUNNING && forking[p] == NIL && IsProc(np) && state[np] == UNUSED
    ensures var state', pid', forking' := state[np := EMBRYO], pid[np := nextpid], forking[p := np];
            && NoLostChild(state', parent, chan)
            && Family(state', parent, forking', initproc)
            && Pids(state', pid', nextpid + 1)
            && Ledger(state', pid', nextpid + 1, exited, reaped)
  {
    hide NoLostChild, Family, Pids, Ledger;
    AllocFamily(state, parent, chan, forking, initproc, p, np);
    AllocLedger(state, pid, nextpid, exited, reaped, np);
  }

  lemma AllocFamily(state: seq<State>, parent: seq<int>, chan: seq<int>, forking: seq<int>, initproc: int, p: int, np: int)
    requires |state| == NPROC && |parent| == NPROC && |chan| == NPROC && |forking| == NPROC
    requires NoLostChild(state, parent, chan) && Family(state, parent, forking, initproc)
    requires IsProc(p) && state[p] == RUNNING && forking[p] == NIL && IsProc(np) && state[np] == UNUSED
    ensures NoLostChild(state[np := EMBRYO], parent, chan) && Family(state[np := EMBRYO], parent, forking[p := np], initproc)
  {
    forall r | IsProc(r) ensures Parented(state[np := EMBRYO], parent, initproc, r) {
      assert Parented(state, parent, initproc, r);
    }
  }

  lemma AllocLedger(state: seq<State>, pid: seq<int>, nextpid: int, exited: set<int>, reaped: seq<int>, np: int)
    requires |state| == NPROC && |pid| == NPROC && IsProc(np) && state[np] == UNUSED
    requires Pids(state, pid, nextpid) && Ledger(state, pid, nextpid, exited, reaped)
    ensures Pids(state[np := EMBRYO], pid[np := nextpid], nextpid + 1)
    ensures Ledger(state[np := EMBRYO], pid[np := nextpid], nextpid + 1, exited, reaped)
  {
    var state', pid' := state[np := EMBRYO], pid[np := nextpid];
    ZombiesSame(state, state', pid);
    forall id ensures IsZombie(state', pid', id) <==> IsZombie(state', pid, id) {
      if IsZombie(state', pid, id) {
        var y :| IsProc(y) && state'[y] == ZOMBIE && pid[y] == id;
        assert pid'[y] == id;
      }
    }
  }

  lemma AdoptEmbryo(state: seq<State>, parent: seq<int>, chan: seq<int>, forking: seq<int>, initproc: int, p: int, np: int)
    requires |state| == NPROC && |parent| == NPROC && |chan| == NPROC && |forking| == NPROC
    requires NoLostChild(state, parent, chan) && Family(state, parent, forking, initproc)
    requires IsProc(p) && IsProc(np) && forking[p] == np
    ensures NoLostChild(state, parent[np := p], chan) && Family(state, parent[np := p], forking, initproc)
  {
    forall r | IsProc(r) ensures Parented(state, parent[np := p], initproc, r) {
      assert Parented(state, parent, initproc, r);
    }
  }

  ghost predicate Hatches(state: seq<State>, parent: seq<int>, forking: seq<int>, p: int, s: State)
    requires |state| == NPROC && |parent| == NPROC && |forking| == NPROC
  {
    && IsProc(p) && IsProc(forking[p])
    && ((s == UNUSED && parent[forking[p]] == NIL) || (s == RUNNABLE && parent[forking[p]] == p))
  }

  /** Leaving `EMBRYO`, back to `UNUSED` or on to `RUNNABLE` once the parent is set. */
  lemma HatchFamily(state: seq<State>, parent: seq<int>, chan: seq<int>, forking: seq<int>, initproc: int, p: int, s: State)
    requires |state| == NPROC && |parent| == NPROC && |chan| == NPROC && |forking| == NPROC
    requires NoLostChild(state, parent, chan) && Family(state, parent, forking, initproc)
    requires Hatches(state, parent, forking, p, s)
    ensures NoLostChild(state[forking[p] := s], parent, chan)
    ensures Family(state[forking[p] := s], parent, forking[p := NIL], initproc)
  {
    var state' := state[forking[p] := s];
    forall r | IsProc(r) ensures Parented(state', parent, initproc, r) {
      assert Parented(state, parent, initproc, r);
    }
  }

  lemma HatchLedger(state: seq<State>, pid: seq<int>, nextpid: int, exited: set<int>, reaped: seq<int>, np: int, s: State)
    requires |state| == NPROC && |pid| == NPROC
    requires Pids(state, pid, nextpid) && Ledger(state, pid, nextpid, exited, reaped)
    requires IsProc(np) && state[np] == EMBRYO && s != ZOMBIE
    ensures Pids(state[np := s], pid, nextpid)
    ensures Ledger(state[np := s], pid, nextpid, exited, reaped)
  {
    ZombiesSame(state, state[np := s], pid);
  }

  lemma EmbryoOf(state: seq<State>, parent: seq<int>, forking: seq<int>, initproc: int, p: int)
    requires |state| == NPROC && |parent| == NPROC && |forking| == NPROC
    requires Family(state, parent, forking, initproc) && IsProc(p) && IsProc(forking[p])
    ensures state[forking[p]] == EMBRYO
  {}

  // ---------------------------------------------------------------- the process table

  /** One of the first `n` slots is a zombie whose parent is `p`. */
  ghost predicate ZombieChild(state: seq<State>, parent: seq<int>, p: int, n: int)
    requires |state| == NPROC && |parent| == NPROC && n <= NPROC
  {
    exists q :: 0 <= q < n && parent[q] == p && state[q] == ZOMBIE
  }

  class ProcTable {
    var state: seq<State>
    var parent: seq<int>
    var chan: seq<int>
    var pid: seq<int>
    var killed: seq<bool>
    var nextpid: int
    var initproc: int
    /** The slot each process is filling in `fork`, from `allocproc` to the end. */
    ghost var forking: seq<int>
    ghost var exited: set<int>
    ghost var reaped: seq<int>

    ghost predicate Sizes()
      reads this
    {
      |state| == NPROC && |parent| == NPROC && |chan| == NPROC && |pid| == NPROC && |killed| == NPROC && |forking| == NPROC
    }

    ghost predicate Valid()
      reads this
    {
      && Sizes()
      && NoLostChild(state, parent, chan)
      && Family(state, parent, forking, initproc)
      && Pids(state, pid, nextpid)
      && Ledger(state, pid, nextpid, exited, reaped)
    }

    /** The table once `userinit` has made the first process, in slot 0. */
    constructor ()
      ensures Valid()
      ensures initproc == 0 && state[0] == RUNNABLE && reaped == []
    {
      state := seq(NPROC, i => if i == 0 then RUNNABLE else UNUSED);
      parent, chan, forking := seq(NPROC, i => NIL), seq(NPROC, i => NIL), seq(NPROC, i => NIL);
      pid := seq(NPROC, i => if i == 0 then 1 else 0);
      killed := seq(NPROC, i => false);
      nextpid, initproc := 2, 0;
      exited, reaped := {}, [];
    }

    /** Wake all processes sleeping on `c`. */
    method Wakeup1(c: int)
      requires Sizes()
      modifies `state
      ensures |state| == NPROC && WakesSome(old(state), state)
      ensures forall q :: IsProc(q) ==> (state[q] == SLEEPING <==> old(state)[q] == SLEEPING && chan[q] != c)
    {
      var p := 0;
      while p < NPROC
        invariant 0 <= p <= NPROC && |state| == NPROC
        invariant forall q :: p <= q < NPROC ==> state[q] == old(state)[q]
        invariant forall q :: 0 <= q < p ==>
                    state[q] == if old(state)[q] == SLEEPING && chan[q] == c then RUNNABLE else old(state)[q]
      {
        if state[p] == SLEEPING && chan[p] == c {
          state := state[p := RUNNABLE];
        }
        p := p + 1;
      }
    }

    method Wakeup(c: int)
      requires Valid()
      modifies `state
      ensures Valid() && WakesSome(old(state), state)
      ensures forall q :: IsProc(q) ==> (state[q] == SLEEPING <==> old(state)[q] == SLEEPING && chan[q] != c)
    {
      hide NoLostChild, Family, Pids, Ledger;
      Wakeup1(c);
      WakingKeeps(old(state), state, parent, chan, forking, initproc, pid, nextpid, exited, reaped);
    }

    /** Mark process `id` killed, and wake it if it sleeps. */
    method Kill(id: int) returns (rc: int, p: int)
      requires Valid()
      modifies `state, `killed
      ensures Valid() && (rc == 0 || rc == -1)
      ensures rc == -1 ==> state == old(state) && killed == old(killed) && forall q :: IsProc(q) ==> pid[q] != id
      ensures rc == 0 ==> IsProc(p) && pid[p] == id && killed == old(killed)[p := true]
      ensures rc == 0 ==> state == old(state)[p := if old(state)[p] == SLEEPING then RUNNABLE else old(state)[p]]
    {
      hide NoLostChild, Family, Pids, Ledger;
      p := 0;
      while p < NPROC
        invariant 0 <= p <= NPROC
        invariant forall q :: 0 <= q < p ==> pid[q] != id
        invariant Valid() && state == old(state) && killed == old(killed)
      {
        if pid[p] == id {
          killed := killed[p := true];
          if state[p] == SLEEPING {
            state := state[p := RUNNABLE];
          }
          WakingKeeps(old(state), state, parent, chan, forking, initproc, pid, nextpid, exited, reaped);
          return 0, p;
        }
        p := p + 1;
      }
      return -1, NIL;
    }

    /** The scheduler picks a runnable process, whose `sleep` then clears its channel. */
    method Run(p: int)
      requires Valid() && IsProc(p) && state[p] == RUNNABLE
      modifies `state, `chan
      ensures Valid()
      ensures state == old(state)[p := RUNNING] && chan == old(chan)[p := NIL]
    {
      hide Family, Pids, Ledger;
      LivingChange(state, parent, forking, initproc, pid, nextpid, exited, reaped, p, RUNNING);
      state := state[p := RUNNING];
      chan := chan[p := NIL];
    }

    method Yield(p: int)
      requires Valid() && IsProc(p) && state[p] == RUNNING
      modifies `state
      ensures Valid()
      ensures state == old(state)[p := RUNNABLE]
    {
      hide Family, Pids, Ledger;
      LivingChange(state, parent, forking, initproc, pid, nextpid, exited, reaped, p, RUNNABLE);
      state := state[p := RUNNABLE];
    }

    /** Sleep on a kernel object other than a process slot. */
    method Sleep(p: int, c: int)
      requires Valid() && IsProc(p) && state[p] == RUNNING && !IsProc(c)
      modifies `state, `chan
      ensures Valid()
      ensures state == old(state)[p := SLEEPING] && chan == old(chan)[p := c]
    {
      hide Family, Pids, Ledger;
      LivingChange(state, parent, forking, initproc, pid, nextpid, exited, reaped, p, SLEEPING);
      chan := chan[p := c];
      state := state[p := SLEEPING];
    }

    /** `allocproc`: the first unused slot, or `NIL`. */
    method AllocProc(p: int) returns (np: int)
      requires Valid() && IsProc(p) && state[p] == RUNNING && forking[p] == NIL
      modifies `state, `pid, `nextpid, `forking
      ensures Valid()
      ensures np == NIL ==> state == old(state) && forall q :: IsProc(q) ==> state[q] != UNUSED
      ensures np != NIL ==> IsProc(np) && old(state)[np] == UNUSED && state == old(state)[np := EMBRYO] && forking[p] == np
                            && pid == old(pid)[np := old(nextpid)] && nextpid == old(nextpid) + 1
    {
      hide NoLostChild, Family, Pids, Ledger;
      np := 0;
      while np < NPROC && state[np] != UNUSED
        invariant 0 <= np <= NPROC
        invariant forall q :: 0 <= q < np ==> state[q] != UNUSED
        modifies {}
      {
        np := np + 1;
      }
      if np == NPROC {
        return NIL;
      }
      AllocKeeps(state, parent, chan, forking, initproc, pid, nextpid, exited, reaped, p, np);
      state := state[np := EMBRYO];
      pid := pid[np := nextpid];
      nextpid := nextpid + 1;
      forking := forking[p := np];
    }

    /** `allocproc` or `fork` runs out of memory before the parent is recorded. */
    method AbandonFork(p: int, np: int)
      requires Valid() && IsProc(p) && IsProc(np) && forking[p] == np && parent[np] == NIL
      modifies `state, `forking
      ensures Valid()
      ensures state == old(state)[np := UNUSED] && forking == old(forking)[p := NIL]
    {
      hide NoLostChild, Family, Pids, Ledger;
      EmbryoOf(state, parent, forking, initproc, p);
      HatchFamily(state, parent, chan, forking, initproc, p, UNUSED);
      HatchLedger(state, pid, nextpid, exited, reaped, np, UNUSED);
      state := state[np := UNUSED];
      forking := forking[p := NIL];
    }

    method SetParent(p: int, np: int)
      requires Valid() && IsProc(p) && IsProc(np) && forking[p] == np
      modifies `parent
      ensures Valid()
      ensures parent == old(parent)[np := p]
    {
      hide NoLostChild, Family, Pids, Ledger;
      AdoptEmbryo(state, parent, chan, forking, initproc, p, np);
      parent := parent[np := p];
    }

    method FinishFork(p: int, np: int)
      requires Valid() && IsProc(p) && IsProc(np) && forking[p] == np && parent[np] == p
      modifies `state, `forking
      ensures Valid()
      ensures state == old(state)[np := RUNNABLE] && forking == old(forking)[p := NIL]
    {
      hide NoLostChild, Family, Pids, Ledger;
      EmbryoOf(state, parent, forking, initproc, p);
      HatchFamily(state, parent, chan, forking, initproc, p, RUNNABLE);
      HatchLedger(state, pid, nextpid, exited, reaped, np, RUNNABLE);
      state := state[np := RUNNABLE];
      forking := forking[p := NIL];
    }

    /** Pass the children of `p` to init, waking it for those that are zombies already. */
    method PassChildren(p: int)
      requires Valid() && IsProc(p) && forking[p] == NIL && p != initproc
      modifies `state, `parent
      ensures Valid()
      ensures WakesSome(old(state), state)
      ensures forall q :: IsProc(q) ==>
                (state[q] == SLEEPING <==> old(state)[q] == SLEEPING && !(chan[q] == initproc && ZombieChild(old(state), old(parent), p, NPROC)))
      ensures forall q :: IsProc(q) ==> parent[q] == if old(parent)[q] == p then initproc else old(parent)[q]
    {
      hide NoLostChild, Family, Pids, Ledger;
      var q := 0;
      while q < NPROC
        invariant 0 <= q <= NPROC && Valid() && |state| == NPROC && |parent| == NPROC
        invariant WakesSome(old(state), state)
        invariant forall r :: IsProc(r) ==>
                    (state[r] == SLEEPING <==> old(state)[r] == SLEEPING && !(chan[r] == initproc && ZombieChild(old(state), old(parent), p, q)))
        invariant forall r :: q <= r < NPROC ==> parent[r] == old(parent)[r]
        invariant forall r :: 0 <= r < q ==> parent[r] == if old(parent)[r] == p then initproc else old(parent)[r]
      {
        if parent[q] == p {
          AdoptKeeps(state, parent, forking, initproc, p, q);
          ghost var parent0, state0 := parent, state;
          parent := parent[q := initproc];
          if state[q] == ZOMBIE {
            Wakeup1(initproc);
          }
          WakingKeeps(state0, state, parent, chan, forking, initproc, pid, nextpid, exited, reaped);
          AdoptChild(state0, state, parent0, chan, initproc, q);
        }
        q := q + 1;
      }
    }

    /** Exit: wake the parent, pass the children on, become a zombie. */
    method Exit(p: int)
      requires Valid() && IsProc(p) && state[p] == RUNNING && forking[p] == NIL && p != initproc
      modifies `state, `parent, `exited
      ensures Valid()
      ensures state[p] == ZOMBIE && exited == old(exited) + {pid[p]}
      ensures WakesSome(old(state)[p := ZOMBIE], state)
      ensures forall q :: IsProc(q) ==>
                (state[q] == SLEEPING <==>
                 && old(state)[q] == SLEEPING && chan[q] != old(parent)[p]
                 && !(chan[q] == initproc && ZombieChild(old(state), old(parent), p, NPROC)))
      ensures forall q :: IsProc(q) ==> parent[q] == if old(parent)[q] == p then initproc else old(parent)[q]
    {
      hide NoLostChild, Family, Pids, Ledger;
      NotOwnParent(state, parent, forking, initproc, p);
      Wakeup1(parent[p]);
      WakingKeeps(old(state), state, parent, chan, forking, initproc, pid, nextpid, exited, reaped);
      PassChildren(p);
      ExitKeeps(state, parent, chan, forking, initproc, pid, nextpid, exited, reaped, p);
      state := state[p := ZOMBIE];
      exited := exited + {pid[p]};
    }

    /** One round of `wait`: reap the first zombie child, or give up, or go to sleep. */
    method Wait(p: int) returns (r: WaitResult, ghost z: int)
      requires Valid() && IsProc(p) && state[p] == RUNNING
      modifies this
      ensures Valid()
      ensures r.Reaped? ==>
                && IsProc(z) && old(state)[z] == ZOMBIE && old(parent)[z] == p && r.id == old(pid)[z]
                && state == old(state)[z := UNUSED] && reaped == old(reaped) + [r.id] && chan == old(chan)
                && pid == old(pid)[z := 0] && parent == old(parent)[z := NIL] && killed == old(killed)[z := false]
      ensures !r.Reaped? ==> reaped == old(reaped) && forall q :: IsProc(q) && old(parent)[q] == p ==> old(state)[q] != ZOMBIE
      ensures !r.Reaped? ==> pid == old(pid) && parent == old(parent) && killed == old(killed)
      ensures r.NoChild? ==> state == old(state) && chan == old(chan)
      ensures !r.Reaped? ==> (r.Asleep? <==> !old(killed)[p] && exists q :: IsProc(q) && old(parent)[q] == p)
      ensures r.Asleep? ==> state == old(state)[p := SLEEPING] && chan == old(chan)[p := p]
      ensures exited == old(exited) && forking == old(forking) && nextpid == old(nextpid)
    {
      hide Family, Pids, Ledger;
      var havekids := false;
      var q := 0;
      z := NIL;
      while q < NPROC
        invariant 0 <= q <= NPROC
        invariant havekids <==> exists k :: 0 <= k < q && parent[k] == p
        invariant forall k :: 0 <= k < q && parent[k] == p ==> state[k] != ZOMBIE
        modifies {}
      {
        if parent[q] == p {
          havekids := true;
          if state[q] == ZOMBIE {
            break;
          }
        }
        q := q + 1;
      }
      if q < NPROC {
        z := q;
        r := Reaped(pid[q]);
        ReapFamily(state, parent, chan, forking, initproc, q);
        ReapLedger(state, pid, nextpid, exited, reaped, q);
        reaped := reaped + [pid[q]];
        state := state[q := UNUSED];
        pid := pid[q := 0];
        parent := parent[q := NIL];
        killed := killed[q := false];
        return;
      }
      if !havekids || killed[p] {
        return NoChild, z;
      }
      LivingChange(state, parent, forking, initproc, pid, nextpid, exited, reaped, p, SLEEPING);
      chan := chan[p := p];
      state := state[p := SLEEPING];
      return Asleep, z;
    }
  }
}
