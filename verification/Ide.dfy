/** The two disk drivers: the interrupt-driven request queue of ide.c, and the in-memory
    driver of memide.c that performs each request at once and serves as its specification.

    Buffers are numbered, and `NIL` is the null pointer. The disk controller is modelled by
    the one request it is working on: it is given a command (and, for a write, the data) by
    `idestart`, carries it out, and raises one interrupt. */
module Ide {
  import opened Params
  import opened Seqs

  const NIL: int := -1

  type Block = seq<int>

  datatype Buf = Buf(busy: bool, valid: bool, dirty: bool, blockno: int, data: Block)

  /** Buffers and disk, as the file system sees them. */
  datatype Store = Store(bufs: seq<Buf>, disk: seq<Block>)

  /** A buffer that `iderw` accepts: held, with something to do, on the disk. */
  predicate Requestable(b: Buf) {
    b.busy && !(b.valid && !b.dirty) && 0 <= b.blockno < FSSIZE
  }

  // ---------------------------------------------------------------- the specification

  /** memide's `iderw`: write a dirty buffer, read any other. */
  function Served(b: Buf, disk: seq<Block>): Buf
    requires 0 <= b.blockno < |disk|
  {
    if b.dirty then b.(dirty := false, valid := true) else b.(data := disk[b.blockno], valid := true)
  }

  function DiskAfter(b: Buf, disk: seq<Block>): seq<Block>
    requires 0 <= b.blockno < |disk|
  {
    if b.dirty then disk[b.blockno := b.data] else disk
  }

  function MemIderw(s: Store, i: int): Store
    requires 0 <= i < |s.bufs| && 0 <= s.bufs[i].blockno < |s.disk|
  {
    Store(s.bufs[i := Served(s.bufs[i], s.disk)], DiskAfter(s.bufs[i], s.disk))
  }

  ghost predicate Serviceable(s: Store, queue: seq<int>) {
    && |s.disk| == FSSIZE
    && forall k :: 0 <= k < |queue| ==> 0 <= queue[k] < |s.bufs| && 0 <= s.bufs[queue[k]].blockno < FSSIZE
  }

  /** All requests of `queue`, performed at once, in order. */
  ghost function ServeAll(s: Store, queue: seq<int>): Store
    requires Serviceable(s, queue)
    decreases |queue|
  {
    if queue == [] then s else ServeAll(MemIderw(s, queue[0]), queue[1..])
  }

  /** Serving requests moves no buffer to another block, and leaves the other buffers alone. */
  lemma {:induction false} ServeFrame(s: Store, queue: seq<int>)
    requires Serviceable(s, queue)
    ensures var t := ServeAll(s, queue);
            && |t.bufs| == |s.bufs| && |t.disk| == FSSIZE
            && (forall i :: 0 <= i < |s.bufs| ==> t.bufs[i].blockno == s.bufs[i].blockno)
            && (forall i :: 0 <= i < |s.bufs| && i !in queue ==> t.bufs[i] == s.bufs[i])
    decreases |queue|
  {
    if queue != [] {
      ServeFrame(MemIderw(s, queue[0]), queue[1..]);
    }
  }

  /** The driver of memide.c. */
  class MemDriver {
    var bufs: seq<Buf>
    var disk: seq<Block>

    constructor (bufs: seq<Buf>, disk: seq<Block>)
      ensures this.bufs == bufs && this.disk == disk
    {
      this.bufs, this.disk := bufs, disk;
    }

    method Iderw(i: int)
      requires |disk| == FSSIZE && 0 <= i < |bufs| && Requestable(bufs[i])
      modifies this
      ensures Store(bufs, disk) == MemIderw(old(Store(bufs, disk)), i)
      ensures !old(bufs)[i].dirty ==>
                && disk == old(disk)
                && bufs == old(bufs)[i := old(bufs)[i].(data := old(disk)[old(bufs)[i].blockno], valid := true)]
      ensures old(bufs)[i].dirty ==>
                && disk == old(disk)[old(bufs)[i].blockno := old(bufs)[i].data]
                && bufs == old(bufs)[i := old(bufs)[i].(dirty := false, valid := true)]
    {
      var p := bufs[i].blockno;
      if bufs[i].dirty {
        bufs := bufs[i := bufs[i].(dirty := false)];
        disk := disk[p := bufs[i].data];
      } else {
        bufs := bufs[i := bufs[i].(data := disk[p])];
      }
      bufs := bufs[i := bufs[i].(valid := true)];
    }
  }

  // ---------------------------------------------------------------- what callers do

  /** A caller submits a buffer, or its holder changes one that is not being transferred. */
  datatype Event = Submit(b: int) | Change(b: int, buf: Buf)

  ghost predicate Possible(s: Store, e: Event) {
    && |s.disk| == FSSIZE && 0 <= e.b < |s.bufs|
    && (e.Submit? ==> 0 <= s.bufs[e.b].blockno < FSSIZE)
  }

  /** The same events on the in-memory driver, where a submission is over at once. */
  ghost function Apply(s: Store, e: Event): (t: Store)
    requires Possible(s, e)
  {
    match e
    case Submit(b) => MemIderw(s, b)
    case Change(b, buf) => s.(bufs := s.bufs[b := buf])
  }

  /** A request at the end of the queue is performed last. */
  lemma {:induction false} ServeLast(s: Store, queue: seq<int>, b: int)
    requires Serviceable(s, queue) && 0 <= b < |s.bufs| && 0 <= s.bufs[b].blockno < FSSIZE
    ensures Serviceable(s, queue + [b]) && Possible(ServeAll(s, queue), Submit(b))
    ensures ServeAll(s, queue + [b]) == Apply(ServeAll(s, queue), Submit(b))
    decreases |queue|
  {
    hide ServeAll, Served, DiskAfter, Serviceable, MemIderw;
    ServiceableOne(s, queue, b);
    ServeFrame(s, queue);
    if queue != [] {
      var t := MemIderw(s, queue[0]);
      assert (queue + [b])[1..] == queue[1..] + [b];
      ServeFirst(s, queue);
      ServeFirst(s, queue + [b]);
      ServeLast(t, queue[1..], b);
    } else {
      assert queue + [b] == [b] && [b][1..] == [];
      ServeFirst(s, [b]);
      ServeNone(s);
      ServeNone(MemIderw(s, b));
    }
  }

  lemma ServiceableOne(s: Store, queue: seq<int>, b: int)
    requires Serviceable(s, queue) && 0 <= b < |s.bufs| && 0 <= s.bufs[b].blockno < FSSIZE
    ensures |s.disk| == FSSIZE && Serviceable(s, queue + [b])
    ensures queue != [] ==> 0 <= queue[0] < |s.bufs| && 0 <= s.bufs[queue[0]].blockno < |s.disk|
  {}

  lemma ServeNone(s: Store)
    requires |s.disk| == FSSIZE
    ensures Serviceable(s, []) && ServeAll(s, []) == s
  {}

  lemma ServeFirst(s: Store, queue: seq<int>)
    requires Serviceable(s, queue) && queue != []
    ensures Serviceable(MemIderw(s, queue[0]), queue[1..])
    ensures ServeAll(s, queue) == ServeAll(MemIderw(s, queue[0]), queue[1..])
    ensures var t := MemIderw(s, queue[0]);
            |t.bufs| == |s.bufs| && forall i :: 0 <= i < |s.bufs| ==> t.bufs[i].blockno == s.bufs[i].blockno
  {}

  /** Changing a buffer that is not in the queue commutes with serving the queue. */
  lemma {:induction false} ServeElsewhere(s: Store, queue: seq<int>, b: int, buf: Buf)
    requires Serviceable(s, queue) && b !in queue && 0 <= b < |s.bufs|
    ensures Serviceable(s.(bufs := s.bufs[b := buf]), queue) && Possible(ServeAll(s, queue), Change(b, buf))
    ensures ServeAll(s.(bufs := s.bufs[b := buf]), queue) == Apply(ServeAll(s, queue), Change(b, buf))
    decreases |queue|
  {
    ServeFrame(s, queue);
    if queue != [] {
      var t := MemIderw(s, queue[0]);
      assert MemIderw(s.(bufs := s.bufs[b := buf]), queue[0]).bufs == t.bufs[b := buf];
      ServeElsewhere(t, queue[1..], b, buf);
    }
  }

  /** At any time, a buffer that is not in the queue holds what the in-memory driver would
      have put there; and so does the disk, once the queue is empty. */
  lemma SettledAgree(s: Store, queue: seq<int>, t: Store)
    requires Serviceable(s, queue) && t == ServeAll(s, queue)
    ensures |t.bufs| == |s.bufs|
    ensures forall i :: 0 <= i < |s.bufs| && i !in queue ==> s.bufs[i] == t.bufs[i]
    ensures queue == [] ==> s == t
  {
    ServeFrame(s, queue);
  }

  /** `t` is what the in-memory driver makes of `s` under `events`. */
  ghost predicate Reference(s: Store, events: seq<Event>, t: Store) {
    if events == [] then t == s
    else
      var last := |events| - 1;
      exists m :: Reference(s, events[..last], m) && Possible(m, events[last]) && t == Apply(m, events[last])
  }

  lemma ReferenceStep(s: Store, events: seq<Event>, m: Store, e: Event)
    requires Reference(s, events, m) && Possible(m, e)
    ensures Reference(s, events + [e], Apply(m, e))
  {
    assert (events + [e])[..|events|] == events;
  }

  // ---------------------------------------------------------------- the queue's links

  ghost predicate Linked(qnext: seq<int>, head: int, queue: seq<int>) {
    && (forall k :: 0 <= k < |queue| ==> 0 <= queue[k] < |qnext|)
    && head == (if queue == [] then NIL else queue[0])
    && (forall k {:trigger qnext[queue[k]]} :: 0 <= k < |queue| ==>
          qnext[queue[k]] == if k + 1 < |queue| then queue[k + 1] else NIL)
  }

  lemma LinkedAppend(qnext: seq<int>, head: int, queue: seq<int>, b: int)
    requires Linked(qnext, head, queue) && Distinct(queue) && 0 <= b < |qnext| && b !in queue
    ensures Distinct(queue + [b])
    ensures queue == [] ==> Linked(qnext[b := NIL], b, [b])
    ensures queue != [] ==> Linked(qnext[b := NIL][queue[|queue| - 1] := b], head, queue + [b])
  {
    if queue != [] {
      var last, qnext' := queue[|queue| - 1], qnext[b := NIL][queue[|queue| - 1] := b];
      forall k | 0 <= k <= |queue|
        ensures qnext'[(queue + [b])[k]] == if k < |queue| then (queue + [b])[k + 1] else NIL
      {
        if k < |queue| - 1 {
          assert queue[k] != last && queue[k] != b;
          assert qnext[queue[k]] == queue[k + 1];
        }
      }
    }
  }

  lemma LinkedTail(qnext: seq<int>, head: int, queue: seq<int>)
    requires Linked(qnext, head, queue) && queue != []
    ensures Linked(qnext, qnext[head], queue[1..])
  {
    assert qnext[queue[0]] == if 1 < |queue| then queue[1] else NIL;
    forall k | 0 <= k < |queue| - 1
      ensures qnext[queue[1..][k]] == if k + 1 < |queue| - 1 then queue[1..][k + 1] else NIL
    {
      assert qnext[queue[k + 1]] == if k + 2 < |queue| then queue[k + 2] else NIL;
    }
  }

  lemma LinkAt(qnext: seq<int>, head: int, queue: seq<int>, k: int)
    requires Linked(qnext, head, queue) && 0 <= k < |queue|
    ensures 0 <= queue[k] < |qnext|
    ensures qnext[queue[k]] == if k + 1 < |queue| then queue[k + 1] else NIL
    ensures forall j :: 0 <= j < |queue| ==> 0 <= queue[j] < |qnext|
  {}

  lemma HeadOf(qnext: seq<int>, head: int, queue: seq<int>)
    requires Linked(qnext, head, queue)
    ensures if queue == [] then head == NIL else head == queue[0] && 0 <= head < |qnext|
  {}

  lemma DistinctTail(queue: seq<int>)
    requires Distinct(queue) && queue != []
    ensures Distinct(queue[1..]) && queue[0] !in queue[1..]
  {}

  // ---------------------------------------------------------------- the queued driver

  /** What the controller is doing. */
  datatype Command = Quiet | Read(blockno: int) | Write(blockno: int, data: Block)

  function CommandFor(b: Buf): Command {
    if b.dirty then Write(b.blockno, b.data) else Read(b.blockno)
  }

  ghost predicate AllRequestable(bufs: seq<Buf>, queue: seq<int>) {
    forall k :: 0 <= k < |queue| ==> 0 <= queue[k] < |bufs| && Requestable(bufs[queue[k]])
  }

  lemma AllRequestableAppend(bufs: seq<Buf>, queue: seq<int>, b: int)
    requires AllRequestable(bufs, queue) && 0 <= b < |bufs| && Requestable(bufs[b])
    ensures AllRequestable(bufs, queue + [b])
  {}

  lemma AllRequestableTail(bufs: seq<Buf>, queue: seq<int>, buf: Buf)
    requires AllRequestable(bufs, queue) && queue != [] && Distinct(queue)
    ensures AllRequestable(bufs[queue[0] := buf], queue[1..])
  {}

  lemma FirstRequestable(bufs: seq<Buf>, queue: seq<int>)
    requires AllRequestable(bufs, queue) && queue != []
    ensures 0 <= queue[0] < |bufs| && Requestable(bufs[queue[0]])
  {}

  lemma AllRequestableElsewhere(bufs: seq<Buf>, queue: seq<int>, b: int, buf: Buf)
    requires AllRequestable(bufs, queue) && 0 <= b < |bufs| && b !in queue
    ensures AllRequestable(bufs[b := buf], queue)
  {}

  class IdeDriver {
    var bufs: seq<Buf>
    var disk: seq<Block>
    var qnext: seq<int>
    var idequeue: int
    var command: Command
    /** The requests in the queue; the state at the start and the events since. */
    ghost var queue: seq<int>
    ghost const start: Store
    ghost var events: seq<Event>

    ghost function Now(): Store
      reads this
    {
      Store(bufs, disk)
    }

    /** A duplicate-free queue of held buffers with work to do, and the controller is working
        on its head. */
    ghost predicate Queued()
      reads this
    {
      && |disk| == FSSIZE && |qnext| == |bufs|
      && Linked(qnext, idequeue, queue) && Distinct(queue)
      && AllRequestable(bufs, queue)
      && command == (if queue == [] then Quiet else CommandFor(bufs[queue[0]]))
    }

    /** Serving what is in the queue gives what the in-memory driver would have by now. */
    ghost predicate Refines()
      reads this
    {
      Serviceable(Now(), queue) && Reference(start, events, ServeAll(Now(), queue))
    }

    constructor (bufs: seq<Buf>, disk: seq<Block>)
      requires |disk| == FSSIZE
      ensures this.bufs == bufs && this.disk == disk && queue == [] && events == [] && start == Store(bufs, disk)
      ensures Queued() && Refines()
    {
      this.bufs, this.disk := bufs, disk;
      qnext, idequeue, command := seq(|bufs|, i => NIL), NIL, Quiet;
      queue, events := [], [];
      start := Store(bufs, disk);
    }

    /** Give the request for `b` to the controller. */
    method Idestart(b: int)
      requires 0 <= b < |bufs| && 0 <= bufs[b].blockno < FSSIZE
      modifies `command
      ensures command == CommandFor(bufs[b])
      ensures command == if bufs[b].dirty then Write(bufs[b].blockno, bufs[b].data) else Read(bufs[b].blockno)
    {
      if bufs[b].dirty {
        command := Write(bufs[b].blockno, bufs[b].data);
      } else {
        command := Read(bufs[b].blockno);
      }
    }

    /** The caller's half of `iderw`: append the request, and start it if the disk is idle. */
    method Iderw(b: int)
      requires Queued() && Refines() && 0 <= b < |bufs| && b !in queue && Requestable(bufs[b])
      modifies `qnext, `idequeue, `command, `queue, `events
      ensures Queued() && Refines()
      ensures queue == old(queue) + [b] && events == old(events) + [Submit(b)]
    {
      hide Distinct, Linked, Reference, ServeAll, Serviceable, AllRequestable;
      HeadOf(qnext, idequeue, queue);
      AllRequestableAppend(bufs, queue, b);
      LinkedAppend(qnext, idequeue, queue, b);
      assert queue == [] ==> queue + [b] == [b];
      ServeLast(Now(), queue, b);
      ReferenceStep(start, events, ServeAll(Now(), queue), Submit(b));
      ghost var k := 0;
      qnext := qnext[b := NIL];
      if idequeue == NIL {
        idequeue := b;
      } else {
        var last := idequeue;
        while qnext[last] != NIL
          invariant 0 <= k < |queue| && last == queue[k] && 0 <= last < |qnext|
          decreases |queue| - k
          modifies {}
        {
          LinkAt(old(qnext), idequeue, queue, k);
          last := qnext[last];
          k := k + 1;
          LinkAt(old(qnext), idequeue, queue, k);
        }
        LinkAt(old(qnext), idequeue, queue, k);
        qnext := qnext[last := b];
      }
      queue := queue + [b];
      events := events + [Submit(b)];
      if idequeue == b {
        Idestart(b);
      }
    }

    /** The controller has carried out its command: a write has reached the disk, and the data
        of a read is ready to be fetched. */
    method Complete(b: int)
      requires |disk| == FSSIZE && 0 <= b < |bufs| && Requestable(bufs[b]) && command == CommandFor(bufs[b])
      modifies `bufs, `disk, `command
      ensures Now() == MemIderw(old(Now()), b) && command == Quiet
      ensures !old(bufs)[b].dirty ==>
                && disk == old(disk)
                && bufs == old(bufs)[b := old(bufs)[b].(data := old(disk)[old(bufs)[b].blockno], valid := true)]
      ensures old(bufs)[b].dirty ==>
                && disk == old(disk)[old(bufs)[b].blockno := old(bufs)[b].data]
                && bufs == old(bufs)[b := old(bufs)[b].(dirty := false, valid := true)]
    {
      if command.Write? {
        disk := disk[command.blockno := command.data];
      }
      command := Quiet;
      if !bufs[b].dirty {
        bufs := bufs[b := bufs[b].(data := disk[bufs[b].blockno])];
      }
      bufs := bufs[b := bufs[b].(valid := true)];
      bufs := bufs[b := bufs[b].(dirty := false)];
    }

    /** The interrupt: the head request is done; start the next one. */
    method Ideintr()
      requires Queued() && Refines()
      modifies `bufs, `disk, `idequeue, `command, `queue
      ensures Queued() && Refines()
      ensures old(queue) == [] ==> queue == [] && Now() == old(Now())
      ensures old(queue) != [] ==>
                && queue == old(queue)[1..]
                && Now() == MemIderw(old(Now()), old(queue)[0])
                && bufs[old(queue)[0]].valid && !bufs[old(queue)[0]].dirty
      ensures old(queue) != [] ==>
                var b := old(queue)[0];
                var buf := old(bufs)[b];
                && 0 <= buf.blockno < FSSIZE
                && (!buf.dirty ==> disk == old(disk) && bufs == old(bufs)[b := buf.(data := old(disk)[buf.blockno], valid := true)])
                && (buf.dirty ==> disk == old(disk)[buf.blockno := buf.data] && bufs == old(bufs)[b := buf.(dirty := false, valid := true)])
    {
      hide Distinct, Linked, Reference, ServeAll, Serviceable, AllRequestable;
      HeadOf(qnext, idequeue, queue);
      var b := idequeue;
      if b == NIL {
        return;
      }
      LinkedTail(qnext, idequeue, queue);
      DistinctTail(queue);
      ServeFirst(Now(), queue);
      FirstRequestable(bufs, queue);
      AllRequestableTail(bufs, queue, Served(bufs[b], disk));
      idequeue := qnext[b];
      Complete(b);
      queue := queue[1..];
      HeadOf(qnext, idequeue, queue);
      if idequeue != NIL {
        Idestart(idequeue);
      }
    }

    /** The holder of a buffer that is not in the queue changes it. */
    method Modify(b: int, buf: Buf)
      requires Queued() && Refines() && 0 <= b < |bufs| && b !in queue
      modifies `bufs, `events
      ensures Queued() && Refines()
      ensures bufs == old(bufs)[b := buf] && events == old(events) + [Change(b, buf)]
    {
      hide Distinct, Linked, Reference, ServeAll, Serviceable, AllRequestable;
      AllRequestableElsewhere(bufs, queue, b, buf);
      ServeElsewhere(Now(), queue, b, buf);
      ReferenceStep(start, events, ServeAll(Now(), queue), Change(b, buf));
      bufs := bufs[b := buf];
      events := events + [Change(b, buf)];
    }
  }
}
