/** Pipes: a bounded byte queue on 32-bit counters, with readers and writers that sleep.

    Each method is one stretch of `pipewrite`, `piperead` or `pipeclose` with the pipe's lock
    held, from the acquisition of the lock (on entry, or on return from `sleep`) to its
    release, so any interleaving of processes is a sequence of these calls. The processes
    asleep on the channels `&p->nread` and `&p->nwrite` are two sets of process ids. */
module Pipe {

  const PIPESIZE: nat := 512
  const UINT: nat := 0x1_0000_0000

  // ---------------------------------------------------------------- counters that wrap

  /** The number of bytes in the pipe: a 32-bit subtraction. */
  function Count(nread: nat, nwrite: nat): (c: nat)
    requires nread < UINT && nwrite < UINT
    ensures (nread + c) % UINT == nwrite
  {
    if nread <= nwrite then nwrite - nread else nwrite + UINT - nread
  }

  /** The place of the `k`-th byte after counter value `n`. */
  function Slot(n: nat, k: nat): int {
    (n + k) % PIPESIZE
  }

  /** The buffered bytes, oldest first. */
  ghost function View(data: seq<int>, nread: nat, count: nat): (bytes: seq<int>)
    requires |data| == PIPESIZE
    ensures |bytes| == count
  {
    seq(count, k requires 0 <= k => data[Slot(nread, k)])
  }

  lemma ModDistinct(a: nat, b: nat)
    requires a < b < a + PIPESIZE
    ensures a % PIPESIZE != b % PIPESIZE
  {}

  lemma CountSteps(nread: nat, nwrite: nat)
    requires nread < UINT && nwrite < UINT && Count(nread, nwrite) <= PIPESIZE
    ensures (nwrite == (nread + PIPESIZE) % UINT) <==> Count(nread, nwrite) == PIPESIZE
    ensures nread == nwrite <==> Count(nread, nwrite) == 0
    ensures Count(nread, nwrite) < PIPESIZE ==> Count(nread, (nwrite + 1) % UINT) == Count(nread, nwrite) + 1
    ensures Count(nread, nwrite) > 0 ==> Count((nread + 1) % UINT, nwrite) == Count(nread, nwrite) - 1
    ensures nwrite % PIPESIZE == Slot(nread, Count(nread, nwrite))
  {
    assert (nwrite + UINT) % PIPESIZE == nwrite % PIPESIZE;
  }

  lemma PutView(data: seq<int>, nread: nat, count: nat, x: int)
    requires |data| == PIPESIZE && count < PIPESIZE
    ensures View(data[Slot(nread, count) := x], nread, count + 1) == View(data, nread, count) + [x]
  {
    forall k | 0 <= k < count ensures Slot(nread, k) != Slot(nread, count) {
      ModDistinct(nread + k, nread + count);
    }
  }

  lemma GetView(data: seq<int>, nread: nat, count: nat)
    requires |data| == PIPESIZE && count > 0 && nread < UINT
    ensures View(data, nread, count) == [data[nread % PIPESIZE]] + View(data, (nread + 1) % UINT, count - 1)
  {
    hide Slot;
    var after := (nread + 1) % UINT;
    var v, w := View(data, nread, count), View(data, after, count - 1);
    SlotStart(nread);
    forall k: nat | k < count - 1 ensures w[k] == v[k + 1] {
      SlotAfter(nread, k);
    }
    assert v == [v[0]] + w;
  }

  lemma SlotStart(n: nat)
    ensures Slot(n, 0) == n % PIPESIZE
  {}

  lemma SlotAfter(n: nat, k: nat)
    requires n < UINT
    ensures Slot((n + 1) % UINT, k) == Slot(n, k + 1)
  {
    if n + 1 == UINT {
      var q, r := k / PIPESIZE, k % PIPESIZE;
      assert UINT + k == PIPESIZE * (UINT / PIPESIZE + q) + r;
      assert (UINT + k) % PIPESIZE == r;
    } else {
      assert (n + 1) % UINT == n + 1;
    }
  }

  lemma Shift(all: seq<int>, front: seq<int>, x: int, rest: seq<int>, rest': seq<int>)
    requires all == front + rest && rest == [x] + rest'
    ensures all == (front + [x]) + rest'
  {}

  lemma Append(all: seq<int>, before: seq<int>, bytes: seq<int>, x: int)
    requires all == (before + bytes) + [x]
    ensures all == before + (bytes + [x])
  {}

  // ---------------------------------------------------------------- the pipe

  /** How a stretch of `pipewrite` or `piperead` ends: it returns a count, returns -1, or
      goes to sleep. */
  datatype Outcome = Done(n: nat) | Failed | Slept

  class Pipe {
    const data: array<int>
    var nread: nat
    var nwrite: nat
    var readopen: bool
    var writeopen: bool
    var killed: set<int>
    /** The processes asleep on `nread`, and those asleep on `nwrite`. */
    var readers: set<int>
    var writers: set<int>
    /** All bytes ever stored, and all bytes ever handed to readers. */
    ghost var accepted: seq<int>
    ghost var delivered: seq<int>

    ghost predicate Counters()
      reads this
    {
      data.Length == PIPESIZE && nread < UINT && nwrite < UINT && Count(nread, nwrite) <= PIPESIZE
    }

    ghost function Buffered(): seq<int>
      requires Counters()
      reads this, data
    {
      View(data[..], nread, Count(nread, nwrite))
    }

    /** What was delivered and what is buffered is what was accepted, in order. */
    ghost predicate Fifo()
      reads this, data
    {
      Counters() && accepted == delivered + Buffered()
    }

    /** A process sleeps in `piperead` only while the pipe is empty and can still be written,
        and in `pipewrite` only while it is full and can still be read. */
    ghost predicate SleepersWait()
      requires Counters()
      reads this
    {
      && (readers != {} ==> Count(nread, nwrite) == 0 && writeopen && readopen)
      && (writers != {} ==> Count(nread, nwrite) == PIPESIZE && readopen)
    }

    constructor ()
      ensures Fifo() && SleepersWait() && fresh(data)
      ensures accepted == [] && delivered == [] && readers == {} && writers == {} && killed == {}
      ensures readopen && writeopen
    {
      data := new int[PIPESIZE](i => 0);
      nread, nwrite, readopen, writeopen := 0, 0, true, true;
      killed, readers, writers := {}, {}, {};
      accepted, delivered := [], [];
    }

    method Put(x: int)
      requires Fifo() && Count(nread, nwrite) < PIPESIZE
      modifies data, `nwrite, `accepted
      ensures Fifo() && Count(nread, nwrite) == old(Count(nread, nwrite)) + 1
      ensures accepted == old(accepted) + [x]
    {
      hide View, Slot;
      CountSteps(nread, nwrite);
      PutView(data[..], nread, Count(nread, nwrite), x);
      ghost var before := data[..];
      data[nwrite % PIPESIZE] := x;
      assert data[..] == before[nwrite % PIPESIZE := x];
      nwrite := (nwrite + 1) % UINT;
      accepted := accepted + [x];
    }

    method Get() returns (x: int)
      requires Fifo() && Count(nread, nwrite) > 0
      modifies `nread, `delivered
      ensures Fifo() && Count(nread, nwrite) < PIPESIZE
      ensures delivered == old(delivered) + [x] && old(Buffered()) == [x] + Buffered()
    {
      hide View, Slot;
      CountSteps(nread, nwrite);
      GetView(data[..], nread, Count(nread, nwrite));
      x := data[nread % PIPESIZE];
      nread := (nread + 1) % UINT;
      delivered := delivered + [x];
    }

    /** `pipewrite` by process `p`, from byte `start` of `addr` on. The sleepers' invariant is
        lost exactly when a killed process writes more than fits while a reader is asleep. */
    method Write(p: int, addr: seq<int>, start: nat) returns (r: Outcome, i: nat)
      requires Fifo() && SleepersWait() && start <= |addr| && writeopen && p !in readers && p !in writers
      modifies this, data
      ensures Fifo()
      ensures start <= i <= |addr|
      ensures r.Done? <==> |old(Buffered())| + |addr| - start <= PIPESIZE
      ensures accepted == old(accepted) + addr[start..i] && delivered == old(delivered)
      ensures nread == old(nread) && readopen == old(readopen) && writeopen == old(writeopen) && killed == old(killed)
      ensures r.Done? ==> i == |addr| && r.n == |addr| && readers == {} && writers == old(writers)
      ensures r.Slept? ==> i < |addr| && readopen && p !in killed && readers == {} && writers == old(writers) + {p}
      ensures r.Failed? ==> i < |addr| && (!readopen || p in killed) && readers == old(readers) && writers == old(writers)
      ensures !r.Done? ==> Count(nread, nwrite) == PIPESIZE
      ensures SleepersWait() <==> !(old(readers) != {} && p in killed && |old(Buffered())| + |addr| - start > PIPESIZE)
    {
      hide Count, View;
      i := Fill(addr, start);
      if i < |addr| {
        if !readopen || p in killed {
          return Failed, i;
        }
        readers := {};
        writers := writers + {p};
        return Slept, i;
      }
      readers := {};
      return Done(|addr|), i;
    }

    /** The copying loop of `pipewrite`, up to the end of `addr` or to a full pipe. */
    method Fill(addr: seq<int>, start: nat) returns (i: nat)
      requires Fifo() && start <= |addr|
      modifies data, `nwrite, `accepted
      ensures Fifo() && start <= i <= |addr|
      ensures accepted == old(accepted) + addr[start..i]
      ensures Count(nread, nwrite) == old(Count(nread, nwrite)) + i - start
      ensures i < |addr| ==> Count(nread, nwrite) == PIPESIZE
    {
      hide Count, View, Pipe.Buffered;
      i := start;
      while i < |addr|
        invariant start <= i <= |addr| && Fifo()
        invariant accepted == old(accepted) + addr[start..i]
        invariant Count(nread, nwrite) == old(Count(nread, nwrite)) + i - start
      {
        CountSteps(nread, nwrite);
        if nwrite == (nread + PIPESIZE) % UINT {
          return;
        }
        assert addr[start..i + 1] == addr[start..i] + [addr[i]];
        Put(addr[i]);
        Append(accepted, old(accepted), addr[start..i], addr[i]);
        i := i + 1;
      }
    }

    /** `piperead` of at most `n` bytes by process `p`. */
    method Read(p: int, n: nat) returns (r: Outcome, bytes: seq<int>)
      requires Fifo() && SleepersWait() && readopen && p !in readers && p !in writers
      modifies this
      ensures Fifo() && SleepersWait()
      ensures r.Done? <==> old(Buffered()) != [] || !writeopen
      ensures delivered == old(delivered) + bytes && accepted == old(accepted)
      ensures readopen == old(readopen) && writeopen == old(writeopen) && killed == old(killed)
      ensures r.Done? ==> r.n == |bytes| && writers == {} && readers == old(readers)
                          && bytes == old(Buffered())[..if n < |old(Buffered())| then n else |old(Buffered())|]
      ensures r.Slept? ==> old(Buffered()) == [] && writeopen && p !in killed && readers == old(readers) + {p}
      ensures r.Failed? ==> old(Buffered()) == [] && writeopen && p in killed && readers == old(readers)
      ensures !r.Done? ==> bytes == [] && writers == old(writers)
    {
      hide Count, View;
      bytes := [];
      CountSteps(nread, nwrite);
      if nread == nwrite && writeopen {
        if p in killed {
          return Failed, bytes;
        }
        readers := readers + {p};
        return Slept, bytes;
      }
      var i;
      i, bytes := Drain(n);
      writers := {};
      return Done(i), bytes;
    }

    /** The copying loop of `piperead`. */
    method Drain(n: nat) returns (i: nat, bytes: seq<int>)
      requires Fifo()
      modifies `nread, `delivered
      ensures Fifo() && i == |bytes|
      ensures delivered == old(delivered) + bytes
      ensures bytes == old(Buffered())[..if n < |old(Buffered())| then n else |old(Buffered())|]
      ensures Count(nread, nwrite) == |old(Buffered())| - i
    {
      hide Count, View, Pipe.Buffered;
      BufferedSize();
      i, bytes := 0, [];
      ghost var before := Buffered();
      while i < n
        invariant 0 <= i <= n && |bytes| == i
        invariant Fifo()
        invariant delivered == old(delivered) + bytes && before == bytes + Buffered()
      {
        CountSteps(nread, nwrite);
        if nread == nwrite {
          break;
        }
        ghost var rest := Buffered();
        var x := Get();
        Shift(before, bytes, x, rest, Buffered());
        Append(delivered, old(delivered), bytes, x);
        bytes := bytes + [x];
        i := i + 1;
      }
      BufferedSize();
      CountSteps(nread, nwrite);
      assert bytes == before[..i];
    }

    lemma BufferedSize()
      requires Counters()
      ensures |Buffered()| == Count(nread, nwrite)
    {}

    /** Close one end. A process inside `piperead` or `pipewrite` holds its end open. */
    method Close(writable: bool)
      requires Fifo() && SleepersWait() && (if writable then writers == {} else readers == {})
      modifies this
      ensures Fifo() && SleepersWait()
      ensures accepted == old(accepted) && delivered == old(delivered) && killed == old(killed)
      ensures writeopen == (old(writeopen) && !writable) && readopen == (old(readopen) && writable)
      ensures if writable then readers == {} else writers == {}
    {
      if writable {
        writeopen := false;
        readers := {};
      } else {
        readopen := false;
        writers := {};
      }
    }

    /** Another process kills `p`, which wakes it. */
    method Kill(p: int)
      requires Fifo() && SleepersWait()
      modifies this
      ensures Fifo() && SleepersWait()
      ensures accepted == old(accepted) && delivered == old(delivered)
      ensures killed == old(killed) + {p} && readers == old(readers) - {p} && writers == old(writers) - {p}
      ensures readopen == old(readopen) && writeopen == old(writeopen)
    {
      killed := killed + {p};
      readers := readers - {p};
      writers := writers - {p};
    }
  }

  /** A run that breaks the sleepers' invariant: a killed writer fills an empty pipe and
      returns without waking the reader that sleeps on it. */
  method StrandedReader() returns (pipe: Pipe)
    ensures fresh(pipe) && pipe.Fifo() && !pipe.SleepersWait()
    ensures pipe.readers == {1} && |pipe.Buffered()| == PIPESIZE
  {
    pipe := new Pipe();
    var reading, bytes := pipe.Read(1, 1);
    pipe.Kill(2);
    var writing, stored := pipe.Write(2, seq(PIPESIZE + 1, i => 0), 0);
  }
}
