/** The process table of the MLFQ build (`CS333_P3P4`): every process slot is on the list
    of its state, and runnable processes are on the ready list of their priority.

    Process pointers are indices into the table, and `NIL` is the null pointer. The twelve
    lists are numbered: `0..MAXPRIO` are the ready lists. */
module StateLists {
  import opened Params
  import opened Process
  import opened Seqs

  const MAXPRIO: int := 6
  const BUDGET: int := 100

  const FREE: int := 7
  const SLEEP: int := 8
  const ZOMBIES: int := 9
  const RUN: int := 10
  const EMBRYOS: int := 11
  const NLISTS: int := 12

  // ---------------------------------------------------------------- singly linked lists

  ghost function NextIn(list: seq<int>, i: int): int
    requires 0 <= i < |list|
  {
    if i + 1 < |list| then list[i + 1] else NIL
  }

  /** `head`, `tail` and the `next` fields spell out `list`. The tail of an empty list is
      unspecified: removing the head of a one-element list leaves it dangling. */
  ghost predicate Chain(next: seq<int>, head: int, tail: int, list: seq<int>)
    requires |next| == NPROC
  {
    && (forall i :: 0 <= i < |list| ==> IsProc(list[i]))
    && Distinct(list)
    && (list == [] ==> head == NIL)
    && (list != [] ==> head == list[0] && tail == list[|list| - 1])
    && (forall i {:trigger next[list[i]]} :: 0 <= i < |list| ==> next[list[i]] == NextIn(list, i))
  }

  ghost predicate Disjoint(lists: seq<seq<int>>) {
    forall l, m, p :: 0 <= l < |lists| && 0 <= m < |lists| && l != m && p in lists[l] ==> p !in lists[m]
  }

  ghost predicate Structure(next: seq<int>, head: seq<int>, tail: seq<int>, lists: seq<seq<int>>) {
    && |next| == NPROC
    && |head| == NLISTS && |tail| == NLISTS && |lists| == NLISTS
    && (forall l :: 0 <= l < NLISTS ==> Chain(next, head[l], tail[l], lists[l]))
    && Disjoint(lists)
  }

  ghost predicate Listed(lists: seq<seq<int>>, p: int) {
    exists l :: 0 <= l < |lists| && p in lists[l]
  }

  ghost function Without(list: seq<int>, i: int): seq<int>
    requires 0 <= i < |list|
  {
    list[..i] + list[i + 1..]
  }

  /** Writing the `next` fields of processes that are not on `list` keeps it. */
  lemma ChainFrame(next: seq<int>, next': seq<int>, head: int, tail: int, list: seq<int>)
    requires |next| == NPROC && |next'| == NPROC && Chain(next, head, tail, list)
    requires forall p :: p in list ==> IsProc(p) ==> next'[p] == next[p]
    ensures Chain(next', head, tail, list)
  {
    forall i | 0 <= i < |list| ensures next'[list[i]] == NextIn(list, i) {
      assert list[i] in list && next[list[i]] == NextIn(list, i);
    }
  }

  lemma ChainAdd(next: seq<int>, head: int, tail: int, list: seq<int>, p: int)
    requires |next| == NPROC && Chain(next, head, tail, list) && IsProc(p) && p !in list
    ensures list == [] ==> Chain(next[p := NIL], p, p, list + [p])
    ensures list != [] ==> IsProc(tail) && Chain(next[tail := p][p := NIL], head, p, list + [p])
  {
    var list' := list + [p];
    if list != [] {
      var next' := next[tail := p][p := NIL];
      forall i | 0 <= i < |list'| ensures next'[list'[i]] == NextIn(list', i) {
        if i < |list| - 1 {
          assert list'[i] == list[i] && list[i] in list && list[i] != tail;
          assert next[list[i]] == NextIn(list, i);
        }
      }
    }
  }

  lemma NextAt(next: seq<int>, head: int, tail: int, list: seq<int>, i: int)
    requires |next| == NPROC && Chain(next, head, tail, list) && 0 <= i < |list|
    ensures IsProc(list[i]) && next[list[i]] == NextIn(list, i)
  {}

  lemma ChainRemoveHead(next: seq<int>, head: int, tail: int, list: seq<int>)
    requires |next| == NPROC && Chain(next, head, tail, list) && list != []
    ensures IsProc(head) && Chain(next, next[head], tail, list[1..])
  {
    NextAt(next, head, tail, list, 0);
    forall i | 0 <= i < |list| - 1 ensures next[list[1..][i]] == NextIn(list[1..], i) {
      hide Chain;
      NextAt(next, head, tail, list, i + 1);
    }
  }

  lemma ChainRemove(next: seq<int>, head: int, tail: int, list: seq<int>, i: int)
    requires |next| == NPROC && Chain(next, head, tail, list) && 0 < i < |list|
    ensures var p, prev, list' := list[i], list[i - 1], Without(list, i);
            && IsProc(p) && IsProc(prev)
            && (p == tail <==> i == |list| - 1)
            && (p == tail ==> Chain(next[prev := NIL][p := NIL], head, prev, list'))
            && (p != tail ==> Chain(next[prev := next[p]][p := NIL], head, tail, list'))
  {
    var p, prev, list' := list[i], list[i - 1], Without(list, i);
    var next' := next[prev := next[p]][p := NIL];
    assert next[p] == NextIn(list, i);
    assert p == tail ==> next[prev := NIL] == next[prev := next[p]];
    forall j | 0 <= j < |list'| ensures next'[list'[j]] == NextIn(list', j) {
      var k := if j < i then j else j + 1;
      assert list'[j] == list[k] && list[k] != p;
      assert next[list[k]] == NextIn(list, k);
    }
  }

  // ---------------------------------------------------------------- all the lists together

  /** Two `next` arrays that differ only on processes outside list `m`. */
  ghost predicate AgreeOn(next: seq<int>, next': seq<int>, list: seq<int>)
    requires |next| == NPROC && |next'| == NPROC
  {
    forall p :: p in list ==> IsProc(p) ==> next'[p] == next[p]
  }

  lemma StructureUpdate(next: seq<int>, head: seq<int>, tail: seq<int>, lists: seq<seq<int>>,
                        l: int, next': seq<int>, h: int, t: int, list': seq<int>)
    requires Structure(next, head, tail, lists) && 0 <= l < NLISTS && |next'| == NPROC
    requires Chain(next', h, t, list')
    requires forall m :: 0 <= m < NLISTS && m != l ==> AgreeOn(next, next', lists[m])
    requires forall p :: p in list' ==> p in lists[l] || !Listed(lists, p)
    ensures Structure(next', head[l := h], tail[l := t], lists[l := list'])
  {
    var lists' := lists[l := list'];
    forall m | 0 <= m < NLISTS ensures Chain(next', head[l := h][m], tail[l := t][m], lists'[m]) {
      if m != l {
        assert Chain(next, head[m], tail[m], lists[m]) && AgreeOn(next, next', lists[m]);
        hide Chain;
        ChainFrame(next, next', head[m], tail[m], lists[m]);
      }
    }
    hide Chain;
  }

  lemma AddStructure(next: seq<int>, head: seq<int>, tail: seq<int>, lists: seq<seq<int>>, l: int, p: int)
    requires Structure(next, head, tail, lists) && 0 <= l < NLISTS && IsProc(p) && !Listed(lists, p)
    ensures head[l] == NIL <==> lists[l] == []
    ensures head[l] == NIL ==>
              Structure(next[p := NIL], head[l := p], tail[l := p], lists[l := lists[l] + [p]])
    ensures head[l] != NIL ==>
              IsProc(tail[l]) && Structure(next[tail[l] := p][p := NIL], head, tail[l := p], lists[l := lists[l] + [p]])
  {
    var list := lists[l];
    assert Chain(next, head[l], tail[l], list);
    assert list != [] ==> list[0] in list && list[|list| - 1] in list;
    assert p !in list;
    ChainAdd(next, head[l], tail[l], list, p);
    hide Chain;
    if head[l] == NIL {
      StructureUpdate(next, head, tail, lists, l, next[p := NIL], p, p, list + [p]);
    } else {
      StructureUpdate(next, head, tail, lists, l, next[tail[l] := p][p := NIL], head[l], p, list + [p]);
      assert head[l := head[l]] == head;
    }
  }

  lemma WithoutMembers(list: seq<int>, i: int, q: int)
    requires 0 <= i < |list| && Distinct(list)
    ensures q in Without(list, i) <==> q in list && q != list[i]
  {
    var list' := Without(list, i);
    if q in list && q != list[i] {
      var j :| 0 <= j < |list| && list[j] == q;
      assert list'[if j < i then j else j - 1] == q;
    }
    if q in list' {
      var j :| 0 <= j < |list'| && list'[j] == q;
      assert list[if j < i then j else j + 1] == q;
    }
  }

  /** `list` with the first occurrence of `p` taken out. */
  ghost function Minus(list: seq<int>, p: int): seq<int> {
    if list == [] then [] else if list[0] == p then list[1..] else [list[0]] + Minus(list[1..], p)
  }

  lemma {:induction false} MinusIsWithout(list: seq<int>, i: int)
    requires 0 <= i < |list| && Distinct(list)
    ensures Minus(list, list[i]) == Without(list, i) == list[..i] + list[i + 1..]
  {
    if i > 0 {
      assert list[0] != list[i] && list[1..][i - 1] == list[i];
      MinusIsWithout(list[1..], i - 1);
      assert Without(list, i) == [list[0]] + Without(list[1..], i - 1);
    }
  }

  /** The `next` fields after the process at index `i` of `list` is unlinked. */
  ghost function Unlinked(next: seq<int>, tail: int, list: seq<int>, i: int): seq<int>
    requires |next| == NPROC && 0 <= i < |list| && IsProc(list[i]) && (i > 0 ==> IsProc(list[i - 1]))
  {
    if i == 0 then next
    else next[list[i - 1] := if list[i] == tail then NIL else next[list[i]]][list[i] := NIL]
  }

  ghost function HeadAfter(next: seq<int>, head: int, i: int): int
    requires |next| == NPROC && (i == 0 ==> IsProc(head))
  {
    if i == 0 then next[head] else head
  }

  ghost function TailAfter(tail: int, list: seq<int>, i: int): int
    requires 0 <= i < |list|
  {
    if i > 0 && list[i] == tail then list[i - 1] else tail
  }

  lemma Unlink(next: seq<int>, head: int, tail: int, list: seq<int>, i: int)
    requires |next| == NPROC && Chain(next, head, tail, list) && 0 <= i < |list|
    ensures forall j :: 0 <= j < |list| ==> IsProc(list[j])
    ensures head == list[0] && Distinct(list)
    ensures list[i] == tail <==> i == |list| - 1
    ensures Chain(Unlinked(next, tail, list, i), HeadAfter(next, head, i), TailAfter(tail, list, i), Without(list, i))
  {
    if i == 0 {
      assert Without(list, 0) == list[1..];
      ChainRemoveHead(next, head, tail, list);
    } else {
      ChainRemove(next, head, tail, list, i);
    }
  }

  lemma RemoveStructure(next: seq<int>, head: seq<int>, tail: seq<int>, lists: seq<seq<int>>, l: int, i: int)
    requires Structure(next, head, tail, lists) && 0 <= l < NLISTS && 0 <= i < |lists[l]|
    ensures var list := lists[l];
            && (forall j :: 0 <= j < |list| ==> IsProc(list[j])) && Distinct(list)
            && head[l] == list[0]
            && (list[i] == tail[l] <==> i == |list| - 1)
            && Structure(Unlinked(next, tail[l], list, i), head[l := HeadAfter(next, head[l], i)],
                         tail[l := TailAfter(tail[l], list, i)], lists[l := Without(list, i)])
  {
    hide Chain, Without;
    var list := lists[l];
    Unlink(next, head[l], tail[l], list, i);
    var next' := Unlinked(next, tail[l], list, i);
    forall q ensures q in Without(list, i) ==> q in list { WithoutMembers(list, i, q); }
    forall m | 0 <= m < NLISTS && m != l ensures AgreeOn(next, next', lists[m]) {
      assert list[i] in list && (i > 0 ==> list[i - 1] in list);
    }
    StructureUpdate(next, head, tail, lists, l, next', HeadAfter(next, head[l], i),
                    TailAfter(tail[l], list, i), Without(list, i));
  }

  lemma ListEnds(next: seq<int>, head: seq<int>, tail: seq<int>, lists: seq<seq<int>>, l: int)
    requires Structure(next, head, tail, lists) && 0 <= l < NLISTS
    ensures head[l] == NIL <==> lists[l] == []
    ensures lists[l] != [] ==> head[l] == lists[l][0] && tail[l] == lists[l][|lists[l]| - 1]
    ensures forall i :: 0 <= i < |lists[l]| ==> IsProc(lists[l][i])
    ensures Distinct(lists[l])
  {
    assert Chain(next, head[l], tail[l], lists[l]);
  }

  /** One step of a traversal. */
  lemma ListStep(next: seq<int>, head: seq<int>, tail: seq<int>, lists: seq<seq<int>>, l: int, i: int)
    requires Structure(next, head, tail, lists) && 0 <= l < NLISTS && 0 <= i < |lists[l]|
    ensures IsProc(lists[l][i]) && next[lists[l][i]] == NextIn(lists[l], i)
  {
    hide Chain;
    NextAt(next, head[l], tail[l], lists[l], i);
  }

  // ---------------------------------------------------------------- states and lists

  function ListOf(s: State, priority: int): int {
    match s
    case UNUSED => FREE
    case EMBRYO => EMBRYOS
    case SLEEPING => SLEEP
    case RUNNABLE => priority
    case RUNNING => RUN
    case ZOMBIE => ZOMBIES
  }

  /** Every process is on the list of its state and on no other. */
  ghost predicate Placed(state: seq<State>, priority: seq<int>, lists: seq<seq<int>>) {
    && |state| == NPROC && |priority| == NPROC && |lists| == NLISTS
    && (forall l, p :: 0 <= l < NLISTS && 0 <= p < NPROC ==> (p in lists[l] <==> ListOf(state[p], priority[p]) == l))
  }

  ghost predicate BudgetOk(s: State, budget: int, priority: int) {
    0 <= priority <= MAXPRIO && (s != UNUSED ==> 0 < budget <= BUDGET * (priority + 1))
  }

  /** Priorities are those of the ready lists, and no budget exceeds its level's allowance
      or is used up. */
  ghost predicate Budgets(state: seq<State>, budget: seq<int>, priority: seq<int>) {
    && |state| == NPROC && |budget| == NPROC && |priority| == NPROC
    && (forall p :: 0 <= p < NPROC ==> BudgetOk(state[p], budget[p], priority[p]))
  }

  /** The lists after `p` goes from list `from` to the end of list `to`. */
  ghost function Moved(lists: seq<seq<int>>, from: int, p: int, to: int): (moved: seq<seq<int>>)
    requires 0 <= from < |lists| && 0 <= to < |lists|
    ensures |moved| == |lists|
  {
    var mid := lists[from := Minus(lists[from], p)];
    mid[to := mid[to] + [p]]
  }

  lemma MinusMembers(list: seq<int>, p: int, q: int)
    requires Distinct(list) && p in list
    ensures q in Minus(list, p) <==> q in list && q != p
  {
    var i :| 0 <= i < |list| && list[i] == p;
    MinusIsWithout(list, i);
    WithoutMembers(list, i, q);
  }

  lemma PlacedMoved(state: seq<State>, priority: seq<int>, lists: seq<seq<int>>, p: int, s: State, q: int)
    requires Placed(state, priority, lists) && 0 <= p < NPROC
    requires var from := ListOf(state[p], priority[p]);
             0 <= from < NLISTS && p in lists[from] && Distinct(lists[from])
    requires 0 <= ListOf(s, q) < NLISTS
    ensures Placed(state[p := s], priority[p := q],
                   Moved(lists, ListOf(state[p], priority[p]), p, ListOf(s, q)))
  {
    hide Minus, Distinct;
    var from, to := ListOf(state[p], priority[p]), ListOf(s, q);
    var lists' := Moved(lists, from, p, to);
    forall l, r | 0 <= l < NLISTS && 0 <= r < NPROC
      ensures r in lists'[l] <==> ListOf(state[p := s][r], priority[p := q][r]) == l
    {
      MinusMembers(lists[from], p, r);
    }
  }

  lemma UnlistedAfter(next: seq<int>, head: seq<int>, tail: seq<int>, lists: seq<seq<int>>, l: int, p: int)
    requires Structure(next, head, tail, lists) && 0 <= l < NLISTS && p in lists[l]
    ensures !Listed(lists[l := Minus(lists[l], p)], p)
  {
    hide Chain, Minus;
    ListEnds(next, head, tail, lists, l);
    MinusMembers(lists[l], p, p);
  }

  /** Where a process of known state is. */
  lemma PlaceOf(next: seq<int>, head: seq<int>, tail: seq<int>, lists: seq<seq<int>>,
                state: seq<State>, budget: seq<int>, priority: seq<int>, p: int)
    requires Structure(next, head, tail, lists) && Placed(state, priority, lists) && Budgets(state, budget, priority)
    requires IsProc(p)
    ensures var l := ListOf(state[p], priority[p]);
            0 <= l < NLISTS && p in lists[l] && Distinct(lists[l]) && BudgetOk(state[p], budget[p], priority[p])
  {
    hide Chain, Disjoint;
    assert BudgetOk(state[p], budget[p], priority[p]);
    ListEnds(next, head, tail, lists, ListOf(state[p], priority[p]));
  }

  lemma StateOfMember(next: seq<int>, head: seq<int>, tail: seq<int>, lists: seq<seq<int>>,
                      state: seq<State>, budget: seq<int>, priority: seq<int>, l: int, i: int)
    requires Structure(next, head, tail, lists) && Placed(state, priority, lists) && Budgets(state, budget, priority)
    requires 0 <= l < NLISTS && 0 <= i < |lists[l]|
    ensures var p := lists[l][i];
            IsProc(p) && ListOf(state[p], priority[p]) == l && BudgetOk(state[p], budget[p], priority[p])
  {
    hide Chain, Disjoint;
    ListEnds(next, head, tail, lists, l);
    assert lists[l][i] in lists[l];
    assert BudgetOk(state[lists[l][i]], budget[lists[l][i]], priority[lists[l][i]]);
  }

  lemma BudgetsUpdate(state: seq<State>, budget: seq<int>, priority: seq<int>, p: int, s: State, b: int, q: int)
    requires Budgets(state, budget, priority) && IsProc(p) && BudgetOk(s, b, q)
    ensures Budgets(state[p := s], budget[p := b], priority[p := q])
  {}

  /** Giving `p` the state `s` and moving it to that state's list keeps both invariants. */
  lemma MoveKeeps(next: seq<int>, head: seq<int>, tail: seq<int>, lists: seq<seq<int>>,
                  state: seq<State>, budget: seq<int>, priority: seq<int>, p: int, s: State)
    requires Structure(next, head, tail, lists) && Placed(state, priority, lists) && Budgets(state, budget, priority)
    requires IsProc(p) && (state[p] != UNUSED || s == UNUSED)
    ensures var from, to := ListOf(state[p], priority[p]), ListOf(s, priority[p]);
            && 0 <= from < NLISTS && 0 <= to < NLISTS && p in lists[from]
            && 0 <= priority[p] <= MAXPRIO
            && Placed(state[p := s], priority, Moved(lists, from, p, to))
            && Budgets(state[p := s], budget, priority)
  {
    hide Structure, Minus;
    PlaceOf(next, head, tail, lists, state, budget, priority, p);
    PlacedMoved(state, priority, lists, p, s, priority[p]);
    BudgetsUpdate(state, budget, priority, p, s, budget[p], priority[p]);
    assert priority[p := priority[p]] == priority && budget[p := budget[p]] == budget;
  }

  lemma BudgetAt(state: seq<State>, budget: seq<int>, priority: seq<int>, p: int)
    requires Budgets(state, budget, priority) && IsProc(p)
    ensures BudgetOk(state[p], budget[p], priority[p])
  {}

  /** The first process of `list` that waits on `c`. */
  ghost function FirstOn(list: seq<int>, chan: seq<int>, c: int): int
    requires |chan| == NPROC
  {
    if list == [] then NIL
    else if IsProc(list[0]) && chan[list[0]] == c then list[0]
    else FirstOn(list[1..], chan, c)
  }

  /** It is the process at `k`, before which none sleeps on the channel, or there is none. */
  lemma {:induction false} FirstSleeper(list: seq<int>, chan: seq<int>, c: int) returns (k: nat)
    requires |chan| == NPROC && forall j :: 0 <= j < |list| ==> 0 <= list[j] < NPROC
    ensures k <= |list| && (forall j :: 0 <= j < k ==> chan[list[j]] != c)
    ensures k < |list| ==> chan[list[k]] == c && FirstOn(list, chan, c) == list[k]
    ensures k == |list| ==> FirstOn(list, chan, c) == NIL
  {
    if list == [] || chan[list[0]] == c {
      k := 0;
    } else {
      var i := FirstSleeper(list[1..], chan, c);
      k := i + 1;
    }
  }

  lemma FirstOnSuffix(list: seq<int>, chan: seq<int>, c: int, j: int)
    requires |chan| == NPROC && 0 <= j <= |list|
    ensures j == |list| ==> FirstOn(list[j..], chan, c) == NIL
    ensures j < |list| && IsProc(list[j]) ==>
              FirstOn(list[j..], chan, c) == if chan[list[j]] == c then list[j] else FirstOn(list[j + 1..], chan, c)
  {
    if j < |list| {
      assert list[j..][0] == list[j] && list[j..][1..] == list[j + 1..];
    }
  }

  /** What a wakeup of the process `w`, or of none, changes. */
  ghost predicate WokenOnly(lists: seq<seq<int>>, lists': seq<seq<int>>, state: seq<State>, state': seq<State>,
                            priority: seq<int>, w: int)
  {
    if w == NIL then lists' == lists && state' == state
    else
      && IsProc(w) && |state| == NPROC && |priority| == NPROC && |lists| == NLISTS
      && 0 <= priority[w] <= MAXPRIO
      && state' == state[w := RUNNABLE]
      && lists' == Moved(lists, SLEEP, w, priority[w])
  }

  ghost predicate OnChannel(chan: seq<int>, c: int, p: int)
    requires |chan| == NPROC
  {
    IsProc(p) && chan[p] == c
  }

  lemma {:induction false} FirstOnIs(list: seq<int>, chan: seq<int>, c: int)
    requires |chan| == NPROC
    ensures FirstOn(list, chan, c) == NIL ==> forall p :: p in list ==> !OnChannel(chan, c, p)
    ensures FirstOn(list, chan, c) != NIL ==> FirstOn(list, chan, c) in list && OnChannel(chan, c, FirstOn(list, chan, c))
  {
    if list != [] && !OnChannel(chan, c, list[0]) {
      FirstOnIs(list[1..], chan, c);
    }
  }

  /** A wakeup leaves nobody asleep on the channel exactly when at most one process slept on it. */
  lemma WakesAllIffOneSleeper(lists: seq<seq<int>>, lists': seq<seq<int>>, state: seq<State>, state': seq<State>,
                              priority: seq<int>, chan: seq<int>, c: int)
    requires |chan| == NPROC && |lists| == NLISTS && Distinct(lists[SLEEP])
    requires WokenOnly(lists, lists', state, state', priority, FirstOn(lists[SLEEP], chan, c))
    ensures (forall p :: p in lists'[SLEEP] ==> !OnChannel(chan, c, p))
            <==> (forall p, q :: p in lists[SLEEP] && q in lists[SLEEP] && OnChannel(chan, c, p) && OnChannel(chan, c, q)
                                 ==> p == q)
  {
    hide FirstOn, Minus, Distinct;
    var w := FirstOn(lists[SLEEP], chan, c);
    FirstOnIs(lists[SLEEP], chan, c);
    if w != NIL {
      assert lists'[SLEEP] == Minus(lists[SLEEP], w);
      forall q ensures q in lists'[SLEEP] <==> q in lists[SLEEP] && q != w {
        MinusMembers(lists[SLEEP], w, q);
      }
    }
  }

  lemma FoundOn(next: seq<int>, head: seq<int>, tail: seq<int>, lists: seq<seq<int>>,
                state: seq<State>, budget: seq<int>, priority: seq<int>, l: int, p: int)
    requires Structure(next, head, tail, lists) && Placed(state, priority, lists) && Budgets(state, budget, priority)
    requires 0 <= l < NLISTS && p in lists[l]
    ensures IsProc(p) && ListOf(state[p], priority[p]) == l && 0 <= priority[p] <= MAXPRIO
  {
    hide Chain, Disjoint, Placed, Budgets;
    var i :| 0 <= i < |lists[l]| && lists[l][i] == p;
    StateOfMember(next, head, tail, lists, state, budget, priority, l, i);
  }

  /** The place of process `q` on the list of its state. */
  lemma OnlyOn(next: seq<int>, head: seq<int>, tail: seq<int>, lists: seq<seq<int>>,
               state: seq<State>, budget: seq<int>, priority: seq<int>, q: int) returns (j: int)
    requires Structure(next, head, tail, lists) && Placed(state, priority, lists) && Budgets(state, budget, priority)
    requires IsProc(q)
    ensures var l := ListOf(state[q], priority[q]); 0 <= l < NLISTS && 0 <= j < |lists[l]| && lists[l][j] == q
    ensures 0 <= priority[q] <= MAXPRIO
  {
    hide Structure;
    PlaceOf(next, head, tail, lists, state, budget, priority, q);
    j :| 0 <= j < |lists[ListOf(state[q], priority[q])]| && lists[ListOf(state[q], priority[q])][j] == q;
  }

  lemma PlacedAt(state: seq<State>, priority: seq<int>, lists: seq<seq<int>>, l: int, p: int)
    requires Placed(state, priority, lists) && 0 <= l < NLISTS && IsProc(p)
    ensures p in lists[l] <==> ListOf(state[p], priority[p]) == l
  {}

  lemma NotBefore(list: seq<int>, j: int)
    requires Distinct(list) && 0 <= j < |list|
    ensures list[j] !in list[..j]
  {}

  /** The lists that `kill` looks at, in its order. */
  const KILLABLE: seq<int> := [0, 1, 2, 3, 4, 5, 6, RUN, EMBRYOS, ZOMBIES, SLEEP]

  lemma KillableIsAll(l: int)
    requires 0 <= l < NLISTS && l != FREE
    ensures l in KILLABLE
  {
    assert KILLABLE[if l < 7 then l else if l == RUN then 7 else if l == EMBRYOS then 8 else if l == ZOMBIES then 9 else 10] == l;
  }

  /** Only runnable processes are listed by priority. */
  lemma PlacedPriority(state: seq<State>, priority: seq<int>, lists: seq<seq<int>>, p: int, q: int)
    requires Placed(state, priority, lists) && IsProc(p) && state[p] != RUNNABLE
    ensures Placed(state, priority[p := q], lists)
  {
    var priority' := priority[p := q];
    forall l, r | 0 <= l < NLISTS && 0 <= r < NPROC ensures r in lists[l] <==> ListOf(state[r], priority'[r]) == l {
      assert ListOf(state[r], priority'[r]) == ListOf(state[r], priority[r]);
    }
  }

  /** Moving a ready process to the ready list of another priority. */
  lemma RelevelKeeps(next: seq<int>, head: seq<int>, tail: seq<int>, lists: seq<seq<int>>,
                     state: seq<State>, budget: seq<int>, priority: seq<int>, p: int, q: int)
    requires Structure(next, head, tail, lists) && Placed(state, priority, lists) && Budgets(state, budget, priority)
    requires IsProc(p) && state[p] == RUNNABLE && 0 <= q <= MAXPRIO
    ensures 0 <= priority[p] <= MAXPRIO && p in lists[priority[p]]
    ensures Placed(state, priority[p := q], Moved(lists, priority[p], p, q))
    ensures Budgets(state, budget[p := BUDGET * (q + 1)], priority[p := q])
  {
    hide Structure, Minus;
    PlaceOf(next, head, tail, lists, state, budget, priority, p);
    PlacedMoved(state, priority, lists, p, RUNNABLE, q);
    BudgetsUpdate(state, budget, priority, p, RUNNABLE, BUDGET * (q + 1), q);
    assert state[p := RUNNABLE] == state;
  }

  /** Taking a slot off the free list for an embryo with top priority and a full budget. */
  lemma TakeKeeps(next: seq<int>, head: seq<int>, tail: seq<int>, lists: seq<seq<int>>,
                  state: seq<State>, budget: seq<int>, priority: seq<int>, p: int)
    requires Structure(next, head, tail, lists) && Placed(state, priority, lists) && Budgets(state, budget, priority)
    requires IsProc(p) && state[p] == UNUSED && p in lists[FREE]
    ensures Placed(state[p := EMBRYO], priority[p := 0], Moved(lists, FREE, p, EMBRYOS))
    ensures Budgets(state[p := EMBRYO], budget[p := BUDGET], priority[p := 0])
  {
    hide Structure, Placed, Budgets, Minus, Moved;
    PlaceOf(next, head, tail, lists, state, budget, priority, p);
    PlacedMoved(state, priority, lists, p, EMBRYO, 0);
    BudgetsUpdate(state, budget, priority, p, EMBRYO, BUDGET, 0);
  }

  /** Giving a process that is not ready another priority. */
  lemma ResetKeeps(lists: seq<seq<int>>, state: seq<State>, budget: seq<int>, priority: seq<int>, p: int, q: int)
    requires Placed(state, priority, lists) && Budgets(state, budget, priority)
    requires IsProc(p) && state[p] != RUNNABLE && 0 <= q <= MAXPRIO
    ensures Placed(state, priority[p := q], lists)
    ensures Budgets(state, budget[p := BUDGET * (q + 1)], priority[p := q])
  {
    PlacedPriority(state, priority, lists, p, q);
    BudgetsUpdate(state, budget, priority, p, state[p], BUDGET * (q + 1), q);
    assert state[p := state[p]] == state;
  }

  /** The lists that `exit` looks at for children to hand over, and `wait` for live children. */
  const LIVING: seq<int> := [0, 1, 2, 3, 4, 5, 6, SLEEP, EMBRYOS, RUN]

  lemma LivingIsAll(s: State, prio: int)
    requires 0 <= prio <= MAXPRIO
    ensures s != UNUSED && s != ZOMBIE <==> ListOf(s, prio) in LIVING
  {
    var l := ListOf(s, prio);
    if s != UNUSED && s != ZOMBIE {
      assert LIVING[if l < 7 then l else if l == SLEEP then 7 else if l == EMBRYOS then 8 else 9] == l;
    }
  }

  // ---------------------------------------------------------------- promotion

  ghost predicate IsHead(lists: seq<seq<int>>, i: int, q: int) {
    0 <= i < |lists| && lists[i] != [] && lists[i][0] == q
  }

  /** The lists after the process at the head of ready list `i` goes one level up. */
  ghost function HeadUp(lists: seq<seq<int>>, i: int): seq<seq<int>>
    requires 1 <= i < |lists|
  {
    if lists[i] == [] then lists else Moved(lists, i, lists[i][0], i - 1)
  }

  lemma HeadUpAt(lists: seq<seq<int>>, i: int, l: int)
    requires 1 <= i < |lists| && 0 <= l < |lists|
    ensures |HeadUp(lists, i)| == |lists|
    ensures HeadUp(lists, i)[l] ==
            if lists[i] == [] then lists[l]
            else if l == i then lists[i][1..]
            else if l == i - 1 then lists[l] + [lists[i][0]]
            else lists[l]
  {
    if lists[i] != [] {
      MovedHead(lists, i, i - 1);
    }
  }

  /** The lists after the levels `1..k` (exclusive) have been promoted, from the top down. */
  ghost function PromotedTo(lists: seq<seq<int>>, k: int): seq<seq<int>>
    requires k <= |lists|
    ensures |PromotedTo(lists, k)| == |lists|
  {
    if k <= 1 then lists else HeadUp(PromotedTo(lists, k - 1), k - 1)
  }

  /** One promotion takes one process, the first, off each ready list above level 0 and puts
      it at the end of the list above. */
  lemma {:induction false} PromotedLists(lists: seq<seq<int>>, k: int, l: int)
    requires |lists| == NLISTS && 1 <= k <= MAXPRIO + 1 && 0 <= l < NLISTS
    ensures PromotedTo(lists, k)[l] ==
            (if 1 <= l < k && lists[l] != [] then lists[l][1..] else lists[l])
            + (if l + 1 < k && lists[l + 1] != [] then [lists[l + 1][0]] else [])
  {
    hide HeadUp, Minus, Moved;
    if k > 1 {
      var before := PromotedTo(lists, k - 1);
      PromotedLists(lists, k - 1, l);
      PromotedLists(lists, k - 1, k - 1);
      assert before[k - 1] == lists[k - 1] + [] == lists[k - 1];
      HeadUpAt(before, k - 1, l);
    } else {
      assert lists[l] + [] == lists[l];
    }
  }

  function Raised(priority: int): int {
    if priority > 0 then priority - 1 else priority
  }

  lemma RefreshKeeps(lists: seq<seq<int>>, state: seq<State>, budget: seq<int>, priority: seq<int>, p: int)
    requires Placed(state, priority, lists) && Budgets(state, budget, priority) && IsProc(p)
    requires 0 <= priority[p] <= MAXPRIO && (state[p] == RUNNABLE ==> priority[p] == 0)
    ensures var q := Raised(priority[p]);
            && Placed(state, priority[p := q], lists) && Budgets(state, budget[p := BUDGET * (q + 1)], priority[p := q])
            && |budget| == NPROC
  {
    hide Placed;
    if state[p] == RUNNABLE {
      BudgetsUpdate(state, budget, priority, p, state[p], BUDGET, 0);
      assert state[p := state[p]] == state && priority[p := 0] == priority;
    } else {
      ResetKeeps(lists, state, budget, priority, p, Raised(priority[p]));
    }
  }

  /** The processes in `part`, and no others, have gone one level up and have a full budget. */
  ghost predicate Refreshed(part: seq<int>, priority0: seq<int>, budget0: seq<int>, priority: seq<int>, budget: seq<int>) {
    && |priority0| == NPROC && |budget0| == NPROC && |priority| == NPROC && |budget| == NPROC
    && forall q :: IsProc(q) ==>
         if q in part then priority[q] == Raised(priority0[q]) && budget[q] == BUDGET * (priority[q] + 1)
         else priority[q] == priority0[q] && budget[q] == budget0[q]
  }

  lemma NothingRefreshed(priority: seq<int>, budget: seq<int>)
    requires |priority| == NPROC && |budget| == NPROC
    ensures Refreshed([], priority, budget, priority, budget)
  {}

  lemma RefreshedStep(part: seq<int>, priority0: seq<int>, budget0: seq<int>, priority: seq<int>, budget: seq<int>, p: int)
    requires Refreshed(part, priority0, budget0, priority, budget) && IsProc(p) && p !in part && |priority| == NPROC && |budget| == NPROC
    ensures var q := Raised(priority[p]);
            Refreshed(part + [p], priority0, budget0, priority[p := q], budget[p := BUDGET * (q + 1)])
  {}

  lemma RefreshedList(list: seq<int>, state: seq<State>, priority0: seq<int>, budget0: seq<int>,
                      priority: seq<int>, budget: seq<int>, lists: seq<seq<int>>, l: int)
    requires Refreshed(list, priority0, budget0, priority, budget)
    requires Placed(state, priority0, lists) && 0 <= l < NLISTS && list == lists[l]
    ensures |state| == NPROC && |priority0| == NPROC && |priority| == NPROC && |budget| == NPROC && |budget0| == NPROC
    ensures forall q :: IsProc(q) && ListOf(state[q], priority0[q]) != l ==> priority[q] == priority0[q] && budget[q] == budget0[q]
    ensures forall q :: IsProc(q) && ListOf(state[q], priority0[q]) == l ==>
              priority[q] == Raised(priority0[q]) && budget[q] == BUDGET * (priority[q] + 1)
  {
    forall q | IsProc(q) ensures q in list <==> ListOf(state[q], priority0[q]) == l {
      PlacedAt(state, priority0, lists, l, q);
    }
  }

  /** The priority that a promotion gives to process `q`. */
  ghost function PriorityAfter(lists: seq<seq<int>>, s: State, priority: int, q: int): int {
    match s
    case RUNNABLE => if IsHead(lists, priority, q) then Raised(priority) else priority
    case SLEEPING => Raised(priority)
    case RUNNING => Raised(priority)
    case _ => priority
  }

  /** Does a promotion renew the budget of `q`? */
  ghost predicate Renewed(lists: seq<seq<int>>, s: State, priority: int, q: int) {
    s == SLEEPING || s == RUNNING || (s == RUNNABLE && (priority == 0 || IsHead(lists, priority, q)))
  }

  /** In numbers: sleeping and running processes, and the first of each ready list, go one level up
      if there is one; they and the ready processes at the top get the allowance of their level. */
  lemma PromotionIs(lists: seq<seq<int>>, s: State, priority: int, q: int)
    requires |lists| == NLISTS && 0 <= priority <= MAXPRIO
    ensures var first := lists[priority] != [] && lists[priority][0] == q;
            && (s == SLEEPING || s == RUNNING || (s == RUNNABLE && first) ==>
                  PriorityAfter(lists, s, priority, q) == (if priority == 0 then 0 else priority - 1) && Renewed(lists, s, priority, q))
            && (s == RUNNABLE && !first ==> PriorityAfter(lists, s, priority, q) == priority)
            && (s == RUNNABLE && !first ==> (Renewed(lists, s, priority, q) <==> priority == 0))
            && (s == UNUSED || s == EMBRYO || s == ZOMBIE ==>
                  PriorityAfter(lists, s, priority, q) == priority && !Renewed(lists, s, priority, q))
  {}

  ghost function PriorityUpTo(lists: seq<seq<int>>, s: State, priority: int, q: int, k: int): int {
    if s == RUNNABLE && 1 <= priority < k && IsHead(lists, priority, q) then priority - 1 else priority
  }

  ghost predicate RenewedUpTo(lists: seq<seq<int>>, s: State, priority: int, q: int, k: int) {
    s == RUNNABLE && (priority == 0 || (priority < k && IsHead(lists, priority, q)))
  }

  /** A promotion moves every ready process above level 0 exactly when no ready list above
      level 0 has a second process. */
  lemma PromotesAllIffSingletons(next: seq<int>, head: seq<int>, tail: seq<int>, lists: seq<seq<int>>,
                                 state: seq<State>, budget: seq<int>, priority: seq<int>)
    requires Structure(next, head, tail, lists) && Placed(state, priority, lists) && Budgets(state, budget, priority)
    ensures (forall q :: IsProc(q) && state[q] == RUNNABLE && priority[q] > 0
                         ==> PriorityAfter(lists, state[q], priority[q], q) == priority[q] - 1)
            <==> (forall i :: 1 <= i <= MAXPRIO ==> |lists[i]| <= 1)
  {
    hide Chain, Disjoint, Budgets;
    if i :| 1 <= i <= MAXPRIO && |lists[i]| > 1 {
      StateOfMember(next, head, tail, lists, state, budget, priority, i, 1);
      ListEnds(next, head, tail, lists, i);
      var q := lists[i][1];
      assert PriorityAfter(lists, state[q], priority[q], q) == priority[q];
    } else {
      forall q | IsProc(q) && state[q] == RUNNABLE && priority[q] > 0
        ensures PriorityAfter(lists, state[q], priority[q], q) == priority[q] - 1
      {
        var j := OnlyOn(next, head, tail, lists, state, budget, priority, q);
      }
    }
  }

  // ---------------------------------------------------------------- the process table

  /** Process `p` has paid for its time: it keeps its priority while some of its budget is
      left, and otherwise goes one level down, from the lowest to itself, with a new budget. */
  ghost predicate Charged(budget0: seq<int>, priority0: seq<int>, budget: seq<int>, priority: seq<int>, p: int, spent: int) {
    && |budget0| == NPROC && |priority0| == NPROC && IsProc(p)
    && var left := budget0[p] - spent;
       if left > 0 then budget == budget0[p := left] && priority == priority0
       else if priority0[p] < MAXPRIO then
         priority == priority0[p := priority0[p] + 1] && budget == budget0[p := BUDGET * (priority0[p] + 2)]
       else
         priority == priority0 && budget == budget0[p := BUDGET * (priority0[p] + 1)]
  }

  class ProcTable {
    var next: seq<int>
    var head: seq<int>
    var tail: seq<int>
    var state: seq<State>
    var priority: seq<int>
    var budget: seq<int>
    var ticksIn: seq<int>
    var pid: seq<int>
    var parent: seq<int>
    var chan: seq<int>
    var killed: seq<bool>
    var nextpid: int
    var initproc: int
    /** The processes on each list, in order. */
    ghost var lists: seq<seq<int>>

    ghost predicate Sizes()
      reads this
    {
      && |next| == NPROC && |head| == NLISTS && |tail| == NLISTS && |lists| == NLISTS
      && |state| == NPROC && |priority| == NPROC && |budget| == NPROC && |ticksIn| == NPROC
      && |pid| == NPROC && |parent| == NPROC && |chan| == NPROC && |killed| == NPROC
    }

    ghost predicate Valid()
      reads this
    {
      && Sizes()
      && Structure(next, head, tail, lists)
      && Placed(state, priority, lists)
      && Budgets(state, budget, priority)
    }

    /** The table as `userinit` sets it up: every slot free, in table order. */
    constructor ()
      ensures Valid()
      ensures lists == seq(NLISTS, l => if l == FREE then seq(NPROC, i => i) else [])
      ensures forall p :: IsProc(p) ==> state[p] == UNUSED
    {
      next, head, tail := seq(NPROC, i => NIL), seq(NLISTS, l => NIL), seq(NLISTS, l => NIL);
      state := seq(NPROC, i => UNUSED);
      priority, budget, ticksIn := seq(NPROC, i => 0), seq(NPROC, i => 0), seq(NPROC, i => 0);
      pid, parent, chan := seq(NPROC, i => 0), seq(NPROC, i => NIL), seq(NPROC, i => 0);
      killed := seq(NPROC, i => false);
      nextpid, initproc := 1, NIL;
      lists := seq(NLISTS, l => []);
      new;
      var p := 0;
      while p < NPROC
        invariant 0 <= p <= NPROC && Sizes()
        invariant Structure(next, head, tail, lists)
        invariant forall l :: 0 <= l < NLISTS && l != FREE ==> lists[l] == []
        invariant lists[FREE] == seq(p, i => i)
        invariant state == seq(NPROC, i => UNUSED) && priority == seq(NPROC, i => 0) && budget == seq(NPROC, i => 0)
      {
        state := state[p := UNUSED];
        var rc := StateListAdd(FREE, p);
        p := p + 1;
      }
      assert Placed(state, priority, lists) by {
        forall q | 0 <= q < NPROC ensures q in lists[FREE] { assert lists[FREE][q] == q; }
      }
    }

    method StateListAdd(l: int, p: int) returns (rc: int)
      requires Structure(next, head, tail, lists) && 0 <= l < NLISTS && IsProc(p) && !Listed(lists, p)
      modifies `next, `head, `tail, `lists
      ensures rc == 0
      ensures Structure(next, head, tail, lists)
      ensures lists == old(lists)[l := old(lists)[l] + [p]]
      ensures next[p] == NIL
    {
      hide Chain, Disjoint;
      AddStructure(next, head, tail, lists, l, p);
      lists := lists[l := lists[l] + [p]];
      if head[l] == NIL {
        head := head[l := p];
        tail := tail[l := p];
        next := next[p := NIL];
      } else {
        next := next[tail[l] := p];
        tail := tail[l := next[tail[l]]];
        next := next[tail[l] := NIL];
      }
      return 0;
    }

    /** Unlink `p` from list `l`; the result is -1, and nothing changes, exactly when it is
        not there. */
    method StateListRemove(l: int, p: int) returns (rc: int)
      requires Structure(next, head, tail, lists) && 0 <= l < NLISTS && IsProc(p)
      modifies `next, `head, `tail, `lists
      ensures Structure(next, head, tail, lists)
      ensures rc == (if p in old(lists)[l] then 0 else -1)
      ensures rc == 0 ==> lists == old(lists)[l := Minus(old(lists)[l], p)]
      ensures rc != 0 ==> lists == old(lists) && next == old(next)
    {
      hide Chain, Disjoint, Without, Minus;
      ghost var list := lists[l];
      ghost var i := 0;
      ListEnds(next, head, tail, lists, l);
      if head[l] == NIL || tail[l] == NIL || p == NIL {
        return -1;
      }
      var current := head[l];
      var previous := NIL;
      if current == p {
        RemoveStructure(next, head, tail, lists, l, 0);
        MinusIsWithout(list, 0);
        lists := lists[l := Without(list, 0)];
        assert tail[l := tail[l]] == tail;
        head := head[l := next[head[l]]];
        return 0;
      }
      while current != NIL
        invariant 0 <= i <= |list|
        invariant i < |list| ==> current == list[i]
        invariant i == |list| ==> current == NIL
        invariant i > 0 ==> previous == list[i - 1]
        invariant p !in list[..i]
        decreases |list| - i
        modifies {}
      {
        if current == p {
          break;
        }
        ListStep(next, head, tail, lists, l, i);
        previous := current;
        current := next[current];
        i := i + 1;
      }
      if current == NIL {
        return -1;
      }
      RemoveStructure(next, head, tail, lists, l, i);
      MinusIsWithout(list, i);
      lists := lists[l := Without(list, i)];
      assert tail[l := tail[l]] == tail && head[l := head[l]] == head;
      if current == tail[l] {
        tail := tail[l := previous];
        next := next[tail[l] := NIL];
      } else {
        next := next[previous := next[current]];
      }
      next := next[p := NIL];
      return 0;
    }

    /** The pair of list operations with which the kernel moves `p`; neither can fail. */
    method Transfer(from: int, to: int, p: int)
      requires Structure(next, head, tail, lists) && 0 <= from < NLISTS && 0 <= to < NLISTS
      requires IsProc(p) && p in lists[from]
      modifies `next, `head, `tail, `lists
      ensures Structure(next, head, tail, lists)
      ensures |next| == NPROC && |head| == NLISTS && |tail| == NLISTS
      ensures lists == Moved(old(lists), from, p, to)
      ensures next[p] == NIL
    {
      hide Chain, Disjoint, Minus;
      ghost var lists0, next0, head0, tail0 := lists, next, head, tail;
      var rc := StateListRemove(from, p);
      assert rc == 0;  // "error removing" is unreachable
      UnlistedAfter(next0, head0, tail0, lists0, from, p);
      rc := StateListAdd(to, p);
      assert rc == 0;  // "error adding" is unreachable
    }

    /** Take the first free slot for a new process. */
    method TakeSlot() returns (p: int)
      requires Valid()
      modifies `next, `head, `tail, `lists, `state, `pid, `nextpid, `ticksIn, `priority, `budget
      ensures Valid()
      ensures old(lists)[FREE] == [] ==> p == NIL && lists == old(lists) && state == old(state)
      ensures old(lists)[FREE] != [] ==>
                && p == old(lists)[FREE][0] && IsProc(p)
                && lists == Moved(old(lists), FREE, p, EMBRYOS)
                && state == old(state)[p := EMBRYO]
                && budget == old(budget)[p := BUDGET] && priority == old(priority)[p := 0]
                && pid == old(pid)[p := old(nextpid)] && nextpid == old(nextpid) + 1
    {
      hide Structure, Placed, Budgets, Minus, Moved;
      ListEnds(next, head, tail, lists, FREE);
      p := head[FREE];
      if p == NIL {
        return;
      }
      StateOfMember(next, head, tail, lists, state, budget, priority, FREE, 0);
      TakeKeeps(next, head, tail, lists, state, budget, priority, p);
      state := state[p := EMBRYO];
      Transfer(FREE, EMBRYOS, p);
      assert state[p] == EMBRYO;  // assertState
      InitSlot(p);
    }

    /** The fields that a new process starts with. */
    method InitSlot(p: int)
      requires Sizes() && IsProc(p)
      modifies `pid, `nextpid, `ticksIn, `priority, `budget
      ensures Sizes()
      ensures budget == old(budget)[p := BUDGET] && priority == old(priority)[p := 0]
      ensures pid == old(pid)[p := old(nextpid)] && nextpid == old(nextpid) + 1
    {
      pid := pid[p := nextpid];
      nextpid := nextpid + 1;
      ticksIn := ticksIn[p := 0];
      priority := priority[p := 0];
      budget := budget[p := BUDGET];
    }

    /** `fork` gives the slot back when the address space cannot be copied, and `allocproc` when
        there is no memory for the kernel stack. */
    method AbandonFork(np: int)
      requires Valid() && IsProc(np) && state[np] == EMBRYO
      modifies `next, `head, `tail, `lists, `state
      ensures Valid()
      ensures state == old(state)[np := UNUSED]
      ensures lists == Moved(old(lists), EMBRYOS, np, FREE)
      ensures priority == old(priority) && budget == old(budget) && parent == old(parent)
    {
      hide Structure, Placed, Budgets, Minus;
      MoveKeeps(next, head, tail, lists, state, budget, priority, np, UNUSED);
      state := state[np := UNUSED];
      Transfer(EMBRYOS, FREE, np);
      assert state[np] == UNUSED;
    }

    /** `stack` says whether `kalloc` finds memory for the kernel stack. */
    method AllocProc(stack: bool) returns (p: int)
      requires Valid()
      modifies `next, `head, `tail, `lists, `state, `pid, `nextpid, `ticksIn, `priority, `budget
      ensures Valid()
      ensures p != NIL <==> old(lists)[FREE] != [] && stack
      ensures p != NIL ==> p == old(lists)[FREE][0] && state == old(state)[p := EMBRYO]
                           && lists == Moved(old(lists), FREE, p, EMBRYOS)
                           && pid == old(pid)[p := old(nextpid)] && priority == old(priority)[p := 0] && budget == old(budget)[p := BUDGET]
      ensures p == NIL ==> state == old(state)
      ensures old(lists)[FREE] == [] ==> lists == old(lists)
      ensures old(lists)[FREE] != [] && !stack ==>
                var f := old(lists)[FREE][0];
                lists == Moved(Moved(old(lists), FREE, f, EMBRYOS), EMBRYOS, f, FREE) && nextpid == old(nextpid) + 1
    {
      hide Structure, Placed, Budgets, Minus, Moved;
      p := TakeSlot();
      if p != NIL && !stack {
        StateOfMember(old(next), old(head), old(tail), old(lists), old(state), old(budget), old(priority), FREE, 0);
        AbandonFork(p);
        p := NIL;
      }
    }

    /** `fork` and `userinit` hand a finished process to the scheduler. */
    method MakeRunnable(np: int)
      requires Valid() && IsProc(np) && state[np] == EMBRYO
      modifies `next, `head, `tail, `lists, `state
      ensures Valid()
      ensures state == old(state)[np := RUNNABLE]
      ensures lists == Moved(old(lists), EMBRYOS, np, priority[np])
      ensures priority == old(priority) && budget == old(budget) && parent == old(parent)
    {
      hide Structure, Placed, Budgets, Minus;
      MoveKeeps(next, head, tail, lists, state, budget, priority, np, RUNNABLE);
      state := state[np := RUNNABLE];
      Transfer(EMBRYOS, priority[np], np);
      assert state[np] == RUNNABLE;
    }

    /** The scheduler runs the process at the head of ready list `i`, if there is one. */
    method Dispatch(i: int, ticks: int) returns (p: int)
      requires Valid() && 0 <= i <= MAXPRIO
      modifies `next, `head, `tail, `lists, `state, `ticksIn
      ensures Valid()
      ensures old(lists)[i] == [] ==> p == NIL && lists == old(lists) && state == old(state)
      ensures old(lists)[i] != [] ==>
                && p == old(lists)[i][0] && old(state)[p] == RUNNABLE
                && state == old(state)[p := RUNNING] && ticksIn == old(ticksIn)[p := ticks]
                && lists == Moved(old(lists), i, p, RUN)
      ensures priority == old(priority) && budget == old(budget) && parent == old(parent)
    {
      hide Structure, Placed, Budgets, Minus;
      ListEnds(next, head, tail, lists, i);
      p := head[i];
      if p == NIL {
        return;
      }
      StateOfMember(next, head, tail, lists, state, budget, priority, i, 0);
      MoveKeeps(next, head, tail, lists, state, budget, priority, p, RUNNING);
      state := state[p := RUNNING];
      Transfer(i, RUN, p);
      assert state[p] == RUNNING;
      ticksIn := ticksIn[p := ticks];
    }

    /** Charge the running process for its time slice; a process that has used up its budget
        goes one level down, and gets that level's allowance. */
    method Charge(p: int, ticks: int)
      requires Sizes() && Budgets(state, budget, priority) && IsProc(p) && state[p] != UNUSED && ticksIn[p] <= ticks
      modifies `budget, `priority
      ensures Budgets(state, budget, priority) && |budget| == NPROC && |priority| == NPROC
      ensures Charged(old(budget), old(priority), budget, priority, p, ticks - ticksIn[p])
    {
      assert BudgetOk(state[p], budget[p], priority[p]);
      ghost var budget0, priority0 := budget, priority;
      budget := budget[p := budget[p] - (ticks - ticksIn[p])];
      if budget[p] <= 0 {
        if priority[p] < MAXPRIO {
          priority := priority[p := priority[p] + 1];
        }
        budget := budget[p := BUDGET * (priority[p] + 1)];
      }
      BudgetsUpdate(state, budget0, priority0, p, state[p], budget[p], priority[p]);
      assert state[p := state[p]] == state && budget == budget0[p := budget[p]] && priority == priority0[p := priority[p]];
    }

    /** Give up the CPU for one scheduling round. The null `next` ends the scheduler's scan of
        the ready list that it had taken the process from. */
    method Yield(p: int, ticks: int)
      requires Valid() && IsProc(p) && state[p] == RUNNING && ticksIn[p] <= ticks
      modifies `next, `head, `tail, `lists, `state, `priority, `budget
      ensures Valid()
      ensures state == old(state)[p := RUNNABLE]
      ensures Charged(old(budget), old(priority), budget, priority, p, ticks - old(ticksIn)[p])
      ensures lists == Moved(old(lists), RUN, p, priority[p]) && next[p] == NIL
    {
      hide Structure, Placed, Budgets, Minus;
      PlaceOf(next, head, tail, lists, state, budget, priority, p);
      ghost var state0, priority0 := state, priority;
      BudgetsUpdate(state, budget, priority, p, RUNNABLE, budget[p], priority[p]);
      assert priority[p := priority[p]] == priority && budget[p := budget[p]] == budget;
      state := state[p := RUNNABLE];
      Charge(p, ticks);
      assert BudgetOk(state[p], budget[p], priority[p]) by { BudgetAt(state, budget, priority, p); }
      PlacedMoved(state0, priority0, lists, p, RUNNABLE, priority[p]);
      assert priority == priority0[p := priority[p]];
      Transfer(RUN, priority[p], p);
    }

    /** The part of `sleep` before the scheduler is entered. */
    method Sleep(p: int, c: int, ticks: int)
      requires Valid() && IsProc(p) && state[p] == RUNNING && ticksIn[p] <= ticks
      modifies `next, `head, `tail, `lists, `state, `chan, `priority, `budget
      ensures Valid()
      ensures state == old(state)[p := SLEEPING] && chan == old(chan)[p := c]
      ensures Charged(old(budget), old(priority), budget, priority, p, ticks - old(ticksIn)[p])
      ensures lists == Moved(old(lists), RUN, p, SLEEP) && next[p] == NIL
      ensures parent == old(parent) && pid == old(pid) && killed == old(killed)
    {
      hide Structure, Placed, Budgets, Minus;
      PlaceOf(next, head, tail, lists, state, budget, priority, p);
      ghost var state0, priority0 := state, priority;
      BudgetsUpdate(state, budget, priority, p, SLEEPING, budget[p], priority[p]);
      assert priority[p := priority[p]] == priority && budget[p := budget[p]] == budget;
      chan := chan[p := c];
      state := state[p := SLEEPING];
      Charge(p, ticks);
      PlacedMoved(state0, priority0, lists, p, SLEEPING, priority[p]);
      assert priority == priority0[p := priority[p]];
      Transfer(RUN, SLEEP, p);
    }

    /** Wake sleepers on channel `c`. The scan follows `next` after the woken process has been
        put at the end of its ready list, so it stops at the first one it wakes. */
    method Wakeup1(c: int)
      requires Valid()
      modifies `next, `head, `tail, `lists, `state
      ensures Valid()
      ensures WokenOnly(old(lists), lists, old(state), state, priority, FirstOn(old(lists)[SLEEP], chan, c))
    {
      hide Structure, Placed, Budgets, Minus, FirstOn;
      ghost var list, j := lists[SLEEP], 0;
      ListEnds(next, head, tail, lists, SLEEP);
      FirstOnSuffix(list, chan, c, 0);
      assert list[0..] == list;
      var p := head[SLEEP];
      while p != NIL
        invariant Valid()
        invariant p != NIL ==> 0 <= j < |list| && p == list[j] && lists == old(lists) && state == old(state)
        invariant p != NIL ==> FirstOn(list, chan, c) == FirstOn(list[j..], chan, c)
        invariant p == NIL ==> WokenOnly(old(lists), lists, old(state), state, priority, FirstOn(list, chan, c))
        decreases if p == NIL then 0 else |list| - j + 1
      {
        StateOfMember(next, head, tail, lists, state, budget, priority, SLEEP, j);
        FirstOnSuffix(list, chan, c, j);
        FirstOnSuffix(list, chan, c, j + 1);
        if chan[p] == c {
          MoveKeeps(next, head, tail, lists, state, budget, priority, p, RUNNABLE);
          state := state[p := RUNNABLE];
          Transfer(SLEEP, priority[p], p);
          assert state[p] == RUNNABLE;
        } else {
          ListStep(next, head, tail, lists, SLEEP, j);
        }
        p := next[p];
        j := j + 1;
      }
    }

    /** The scans of `kill` and `setpriority`: a process of list `l` with process id `id` and a
        priority other than `except`. */
    method FindPid(l: int, id: int, except: int) returns (p: int)
      requires Valid() && 0 <= l < NLISTS
      ensures p == NIL ==> forall q :: IsProc(q) && ListOf(state[q], priority[q]) == l ==> pid[q] != id || priority[q] == except
      ensures p != NIL ==> IsProc(p) && ListOf(state[p], priority[p]) == l && pid[p] == id && priority[p] != except
    {
      hide Structure, Placed, Budgets;
      ghost var list, j := lists[l], 0;
      ListEnds(next, head, tail, lists, l);
      p := head[l];
      while p != NIL
        invariant 0 <= j <= |list|
        invariant p == if j < |list| then list[j] else NIL
        invariant forall k :: 0 <= k < j ==> pid[list[k]] != id || priority[list[k]] == except
        decreases |list| - j
      {
        StateOfMember(next, head, tail, lists, state, budget, priority, l, j);
        ListStep(next, head, tail, lists, l, j);
        if pid[p] == id && priority[p] != except {
          return;
        }
        p := next[p];
        j := j + 1;
      }
      forall q | IsProc(q) && ListOf(state[q], priority[q]) == l ensures pid[q] != id || priority[q] == except {
        var k := OnlyOn(next, head, tail, lists, state, budget, priority, q);
      }
    }

    /** The scan of `kill`: every list but the free list. */
    method FindVictim(id: int) returns (p: int)
      requires Valid()
      ensures p == NIL ==> forall q :: IsProc(q) && pid[q] == id ==> state[q] == UNUSED
      ensures p != NIL ==> IsProc(p) && pid[p] == id && state[p] != UNUSED
    {
      hide Structure, Placed, Budgets;
      p := NIL;
      var k := 0;
      while k < |KILLABLE|
        invariant 0 <= k <= |KILLABLE| && p == NIL
        invariant forall q :: IsProc(q) && pid[q] == id ==> ListOf(state[q], priority[q]) !in KILLABLE[..k]
      {
        p := FindPid(KILLABLE[k], id, NIL);
        if p != NIL {
          return;
        }
        forall q | IsProc(q) && pid[q] == id ensures ListOf(state[q], priority[q]) !in KILLABLE[..k + 1] {
          var i := OnlyOn(next, head, tail, lists, state, budget, priority, q);
        }
        k := k + 1;
      }
      assert KILLABLE[..|KILLABLE|] == KILLABLE;
      forall q | IsProc(q) && pid[q] == id ensures state[q] == UNUSED {
        var i := OnlyOn(next, head, tail, lists, state, budget, priority, q);
        if ListOf(state[q], priority[q]) != FREE {
          KillableIsAll(ListOf(state[q], priority[q]));
        }
      }
    }

    /** Mark the process `id` killed, and wake it if it sleeps; -1 when there is no such process. */
    method Kill(id: int) returns (rc: int, ghost p: int)
      requires Valid()
      modifies `next, `head, `tail, `lists, `state, `killed
      ensures Valid()
      ensures rc == -1 || rc == 0
      ensures rc == -1 ==> state == old(state) && killed == old(killed) && lists == old(lists)
                           && forall q :: IsProc(q) && pid[q] == id ==> state[q] == UNUSED
      ensures rc == 0 ==> IsProc(p) && pid[p] == id && old(state)[p] != UNUSED && killed == old(killed)[p := true]
      ensures rc == 0 && old(state)[p] != SLEEPING ==> state == old(state) && lists == old(lists)
      ensures rc == 0 && old(state)[p] == SLEEPING ==> WokenOnly(old(lists), lists, old(state), state, priority, p)
      ensures pid == old(pid) && priority == old(priority) && budget == old(budget)
    {
      hide Structure, Placed, Budgets, Minus;
      var v := FindVictim(id);
      if v == NIL {
        return -1, NIL;
      }
      if state[v] == SLEEPING {
        MoveKeeps(next, head, tail, lists, state, budget, priority, v, RUNNABLE);
        Transfer(SLEEP, priority[v], v);
        state := state[v := RUNNABLE];
        assert state[v] == RUNNABLE;
      }
      killed := killed[v := true];
      return 0, v;
    }

    /** The first ready process `id` whose priority is not `prio`. */
    method FindReady(id: int, prio: int) returns (p: int)
      requires Valid()
      ensures p == NIL ==> forall q :: IsProc(q) && state[q] == RUNNABLE && pid[q] == id ==> priority[q] == prio
      ensures p != NIL ==> IsProc(p) && pid[p] == id && state[p] == RUNNABLE && priority[p] != prio
    {
      hide Structure, Placed, Budgets;
      p := NIL;
      var i := 0;
      while i < MAXPRIO + 1
        invariant 0 <= i <= MAXPRIO + 1 && p == NIL
        invariant forall q :: IsProc(q) && state[q] == RUNNABLE && pid[q] == id && 0 <= priority[q] < i ==> priority[q] == prio
      {
        p := FindPid(i, id, prio);
        if p != NIL {
          return;
        }
        forall q | IsProc(q) && state[q] == RUNNABLE && pid[q] == id && 0 <= priority[q] < i + 1 ensures priority[q] == prio {
          assert priority[q] < i || ListOf(state[q], priority[q]) == i;
        }
        i := i + 1;
      }
      forall q | IsProc(q) ensures 0 <= priority[q] < MAXPRIO + 1 {
        BudgetAt(state, budget, priority, q);
      }
    }

    /** Set a process's priority and give it that level's allowance. The bound check lets
        MAXPRIO + 1 through, one past the last ready list; the model excludes it. A ready
        process that already has the priority is not found. */
    method SetPriority(id: int, prio: int) returns (rc: int, ghost p: int)
      requires Valid() && prio != MAXPRIO + 1
      modifies `next, `head, `tail, `lists, `priority, `budget
      ensures Valid()
      ensures state == old(state) && pid == old(pid)
      ensures rc == -1 || rc == 0
      ensures rc == -1 ==> lists == old(lists) && priority == old(priority) && budget == old(budget)
      ensures rc == -1 && id >= 0 && 0 <= prio <= MAXPRIO ==>
                forall q :: IsProc(q) && pid[q] == id ==>
                  state[q] != SLEEPING && state[q] != RUNNING && (state[q] == RUNNABLE ==> priority[q] == prio)
      ensures rc == 0 ==>
                && IsProc(p) && pid[p] == id && 0 <= prio <= MAXPRIO
                && (state[p] == RUNNABLE || state[p] == SLEEPING || state[p] == RUNNING)
                && priority == old(priority)[p := prio] && budget == old(budget)[p := BUDGET * (prio + 1)]
                && 0 <= old(priority)[p] <= MAXPRIO
                && lists == if state[p] == RUNNABLE then Moved(old(lists), old(priority)[p], p, prio) else old(lists)
    {
      hide Structure, Placed, Budgets, Minus;
      if id < 0 || prio < 0 || prio > MAXPRIO + 1 {
        return -1, NIL;
      }
      var q := FindReady(id, prio);
      if q != NIL {
        RelevelKeeps(next, head, tail, lists, state, budget, priority, q, prio);
        Transfer(priority[q], prio, q);
        priority := priority[q := prio];
        budget := budget[q := BUDGET * (priority[q] + 1)];
        return 0, q;
      }
      q := FindPid(SLEEP, id, NIL);
      if q == NIL {
        forall r | IsProc(r) ensures priority[r] != NIL { BudgetAt(state, budget, priority, r); }
        q := FindPid(RUN, id, NIL);
      }
      if q != NIL {
        BudgetAt(state, budget, priority, q);
        ResetKeeps(lists, state, budget, priority, q, prio);
        priority := priority[q := prio];
        budget := budget[q := BUDGET * (priority[q] + 1)];
        return 0, q;
      }
      return -1, NIL;
    }

    /** One of the loops of `exit`: the children of `p` on list `l` become children of init. */
    method Reparent(l: int, p: int)
      requires Valid() && 0 <= l < NLISTS
      modifies `parent
      ensures |parent| == NPROC
      ensures forall q :: IsProc(q) ==>
                parent[q] == if ListOf(state[q], priority[q]) == l && old(parent)[q] == p then initproc else old(parent)[q]
    {
      hide Structure, Placed, Budgets;
      ghost var list, j := lists[l], 0;
      ListEnds(next, head, tail, lists, l);
      var q := head[l];
      while q != NIL
        invariant 0 <= j <= |list| && |parent| == NPROC
        invariant q == if j < |list| then list[j] else NIL
        invariant forall r :: IsProc(r) ==>
                    parent[r] == if r in list[..j] && old(parent)[r] == p then initproc else old(parent)[r]
        decreases |list| - j
      {
        ListStep(next, head, tail, lists, l, j);
        assert list[..j + 1] == list[..j] + [q];
        if parent[q] == p {
          parent := parent[q := initproc];
        }
        q := next[q];
        j := j + 1;
      }
      assert list[..j] == list;
      forall r | IsProc(r) ensures r in list <==> ListOf(state[r], priority[r]) == l {
        PlacedAt(state, priority, lists, l, r);
      }
    }

    /** Hand all children but the zombies to init. */
    method Disown(p: int)
      requires Valid()
      modifies `parent
      ensures |parent| == NPROC
      ensures forall q :: IsProc(q) ==>
                parent[q] == if state[q] != UNUSED && state[q] != ZOMBIE && old(parent)[q] == p then initproc else old(parent)[q]
    {
      hide Structure, Placed, Budgets;
      var k := 0;
      while k < |LIVING|
        invariant 0 <= k <= |LIVING| && |parent| == NPROC
        invariant forall q :: IsProc(q) ==>
                    parent[q] == if ListOf(state[q], priority[q]) in LIVING[..k] && old(parent)[q] == p
                                 then initproc else old(parent)[q]
      {
        Reparent(LIVING[k], p);
        assert LIVING[..k + 1] == LIVING[..k] + [LIVING[k]];
        k := k + 1;
      }
      assert LIVING[..k] == LIVING;
      forall q | IsProc(q) ensures ListOf(state[q], priority[q]) in LIVING <==> state[q] != UNUSED && state[q] != ZOMBIE {
        BudgetAt(state, budget, priority, q);
        LivingIsAll(state[q], priority[q]);
      }
    }

    /** Exit: wake the parent, hand the children over, become a zombie. A child that is
        already a zombie keeps its dead parent. */
    method Exit(p: int)
      requires Valid() && IsProc(p) && state[p] == RUNNING && p != initproc
      modifies `next, `head, `tail, `lists, `state, `parent
      ensures Valid()
      ensures state[p] == ZOMBIE && next[p] == NIL
      ensures var w := FirstOn(old(lists)[SLEEP], chan, old(parent)[p]);
              forall q :: IsProc(q) && q != p ==> state[q] == if q == w then RUNNABLE else old(state)[q]
      ensures forall q :: IsProc(q) ==>
                parent[q] == if old(state)[q] != UNUSED && old(state)[q] != ZOMBIE && old(parent)[q] == p then initproc else old(parent)[q]
      ensures pid == old(pid) && priority == old(priority) && budget == old(budget) && chan == old(chan)
    {
      hide Structure, Placed, Budgets, Minus, FirstOn;
      FirstOnIs(lists[SLEEP], chan, parent[p]);
      forall q | q in lists[SLEEP] ensures IsProc(q) && state[q] == SLEEPING {
        FoundOn(next, head, tail, lists, state, budget, priority, SLEEP, q);
      }
      Wakeup1(parent[p]);
      Disown(p);
      MoveKeeps(next, head, tail, lists, state, budget, priority, p, ZOMBIE);
      state := state[p := ZOMBIE];
      Transfer(RUN, ZOMBIES, p);
      assert state[p] == ZOMBIE;
    }

    /** The first child of `p` on list `l`. */
    method FindChild(l: int, p: int) returns (q: int)
      requires Valid() && 0 <= l < NLISTS
      ensures q == NIL ==> forall r :: IsProc(r) && ListOf(state[r], priority[r]) == l ==> parent[r] != p
      ensures q != NIL ==> IsProc(q) && ListOf(state[q], priority[q]) == l && parent[q] == p
    {
      hide Structure, Placed, Budgets;
      ghost var list, j := lists[l], 0;
      ListEnds(next, head, tail, lists, l);
      q := head[l];
      while q != NIL
        invariant 0 <= j <= |list|
        invariant q == if j < |list| then list[j] else NIL
        invariant forall k :: 0 <= k < j ==> parent[list[k]] != p
        decreases |list| - j
      {
        StateOfMember(next, head, tail, lists, state, budget, priority, l, j);
        ListStep(next, head, tail, lists, l, j);
        if parent[q] == p {
          return;
        }
        q := next[q];
        j := j + 1;
      }
      forall r | IsProc(r) && ListOf(state[r], priority[r]) == l ensures parent[r] != p {
        var k := OnlyOn(next, head, tail, lists, state, budget, priority, r);
      }
    }

    /** Does `p` have a child that is neither a zombie nor a free slot? */
    method HasLivingChild(p: int) returns (kids: bool)
      requires Valid()
      ensures kids <==> exists q :: IsProc(q) && state[q] != UNUSED && state[q] != ZOMBIE && parent[q] == p
    {
      hide Structure, Placed, Budgets;
      var k := 0;
      while k < |LIVING|
        invariant 0 <= k <= |LIVING|
        invariant forall q :: IsProc(q) && parent[q] == p ==> ListOf(state[q], priority[q]) !in LIVING[..k]
      {
        var q := FindChild(LIVING[k], p);
        if q != NIL {
          BudgetAt(state, budget, priority, q);
          LivingIsAll(state[q], priority[q]);
          return true;
        }
        assert LIVING[..k + 1] == LIVING[..k] + [LIVING[k]];
        k := k + 1;
      }
      assert LIVING[..k] == LIVING;
      forall q | IsProc(q) && parent[q] == p ensures state[q] == UNUSED || state[q] == ZOMBIE {
        BudgetAt(state, budget, priority, q);
        LivingIsAll(state[q], priority[q]);
      }
      return false;
    }

    /** One round of `wait`: reap the first zombie child, or give up, or go to sleep. */
    method Wait(p: int, ticks: int) returns (r: WaitResult, ghost z: int)
      requires Valid() && IsProc(p) && state[p] == RUNNING && ticksIn[p] <= ticks
      modifies `next, `head, `tail, `lists, `state, `pid, `parent, `killed, `chan, `priority, `budget
      ensures Valid()
      ensures r.Reaped? ==>
                && IsProc(z) && old(state)[z] == ZOMBIE && old(parent)[z] == p && r.id == old(pid)[z]
                && state == old(state)[z := UNUSED] && lists == Moved(old(lists), ZOMBIES, z, FREE)
                && pid == old(pid)[z := 0] && parent == old(parent)[z := NIL] && killed == old(killed)[z := false]
      ensures !r.Reaped? ==> forall q :: IsProc(q) && old(state)[q] == ZOMBIE ==> old(parent)[q] != p
      ensures r.NoChild? ==> state == old(state) && lists == old(lists)
      ensures !r.Reaped? ==>
                (r.Asleep? <==> !old(killed)[p] && exists q :: IsProc(q) && old(state)[q] != UNUSED && old(state)[q] != ZOMBIE && old(parent)[q] == p)
      ensures r.Asleep? ==> state == old(state)[p := SLEEPING] && chan == old(chan)[p := p]
                            && lists == Moved(old(lists), RUN, p, SLEEP)
    {
      hide Structure, Placed, Budgets, Minus;
      var q := FindChild(ZOMBIES, p);
      z := q;
      if q != NIL {
        BudgetAt(state, budget, priority, q);
        MoveKeeps(next, head, tail, lists, state, budget, priority, q, UNUSED);
        r := Reaped(pid[q]);
        state := state[q := UNUSED];
        Transfer(ZOMBIES, FREE, q);
        assert state[q] == UNUSED;
        pid := pid[q := 0];
        parent := parent[q := NIL];
        killed := killed[q := false];
        return;
      }
      var kids := HasLivingChild(p);
      if !kids || killed[p] {
        return NoChild, z;
      }
      Sleep(p, p, ticks);
      return Asleep, z;
    }

    /** The loop of `promoteAll` over the ready list `i > 0`. Its scan follows `next` after the
        process has been put at the end of the list above, so it stops at the first one. */
    method PromoteLevel(i: int)
      requires Valid() && 1 <= i <= MAXPRIO
      modifies `next, `head, `tail, `lists, `priority, `budget
      ensures Valid()
      ensures lists == HeadUp(old(lists), i)
      ensures old(lists)[i] == [] ==> priority == old(priority) && budget == old(budget)
      ensures old(lists)[i] != [] ==>
                var h := old(lists)[i][0];
                && IsProc(h) && state[h] == RUNNABLE
                && priority == old(priority)[h := i - 1] && budget == old(budget)[h := BUDGET * i]
    {
      hide Structure, Placed, Budgets, Minus;
      ListEnds(next, head, tail, lists, i);
      var p := head[i];
      ghost var first := true;
      while p != NIL
        invariant Valid()
        invariant first ==> p == old(head)[i] && lists == old(lists) && priority == old(priority) && budget == old(budget)
        invariant !first ==>
                    && p == NIL && old(lists)[i] != [] && lists == HeadUp(old(lists), i)
                    && var h := old(lists)[i][0];
                       && IsProc(h) && state[h] == RUNNABLE
                       && priority == old(priority)[h := i - 1] && budget == old(budget)[h := BUDGET * i]
        decreases first
      {
        StateOfMember(next, head, tail, lists, state, budget, priority, i, 0);
        RelevelKeeps(next, head, tail, lists, state, budget, priority, p, i - 1);
        Transfer(priority[p], priority[p] - 1, p);
        priority := priority[p := priority[p] - 1];
        budget := budget[p := BUDGET * (priority[p] + 1)];
        p := next[p];
        first := false;
      }
    }

    /** The loops of `promoteAll` over ready list 0, whose processes only have their budgets
        renewed, and over the sleeping and running lists, whose processes go one level up. */
    method RefreshList(l: int)
      requires Valid() && (l == 0 || l == SLEEP || l == RUN)
      modifies `priority, `budget
      ensures Valid()
      ensures forall q :: IsProc(q) && ListOf(state[q], old(priority)[q]) != l ==>
                priority[q] == old(priority)[q] && budget[q] == old(budget)[q]
      ensures forall q :: IsProc(q) && ListOf(state[q], old(priority)[q]) == l ==>
                priority[q] == Raised(old(priority)[q]) && budget[q] == BUDGET * (priority[q] + 1)
    {
      hide Structure, Placed, Budgets, BudgetOk, Refreshed;
      ghost var list, j := lists[l], 0;
      ListEnds(next, head, tail, lists, l);
      NothingRefreshed(priority, budget);
      var p := head[l];
      while p != NIL
        invariant Valid() && 0 <= j <= |list|
        invariant p == if j < |list| then list[j] else NIL
        invariant Refreshed(list[..j], old(priority), old(budget), priority, budget)
        decreases |list| - j
      {
        StateOfMember(next, head, tail, lists, state, budget, priority, l, j);
        ListStep(next, head, tail, lists, l, j);
        NotBefore(list, j);
        assert list[..j + 1] == list[..j] + [p];
        RefreshedStep(list[..j], old(priority), old(budget), priority, budget, p);
        RefreshOne(p, l);
        p := next[p];
        j := j + 1;
      }
      assert list[..j] == list;
      RefreshedList(list, state, old(priority), old(budget), priority, budget, lists, l);
    }

    /** One process of such a loop. */
    method RefreshOne(p: int, l: int)
      requires Valid() && IsProc(p) && (l == 0 || l == SLEEP || l == RUN) && ListOf(state[p], priority[p]) == l
      modifies `priority, `budget
      ensures Valid()
      ensures var q := Raised(old(priority)[p]); priority == old(priority)[p := q] && budget == old(budget)[p := BUDGET * (q + 1)]
    {
      hide Structure, Placed, Budgets;
      BudgetAt(state, budget, priority, p);
      RefreshKeeps(lists, state, budget, priority, p);
      if l != 0 && priority[p] > 0 {
        priority := priority[p := priority[p] - 1];
      }
      assert priority == old(priority)[p := Raised(old(priority)[p])];
      budget := budget[p := BUDGET * (priority[p] + 1)];
    }

    /** Raise every process's priority, as the source intends; what it does is stated by
        `PriorityAfter` and `PromotedTo`. */
    method PromoteAll()
      requires Valid()
      modifies `next, `head, `tail, `lists, `priority, `budget
      ensures Valid()
      ensures lists == PromotedTo(old(lists), MAXPRIO + 1)
      ensures forall q :: IsProc(q) ==> priority[q] == PriorityAfter(old(lists), state[q], old(priority)[q], q)
      ensures forall q :: IsProc(q) ==>
                budget[q] == if Renewed(old(lists), state[q], old(priority)[q], q) then BUDGET * (priority[q] + 1) else old(budget)[q]
    {
      hide Structure, Placed, Budgets, HeadUp;
      RefreshList(0);
      assert PromotedTo(lists, 1) == old(lists);
      var i := 1;
      while i < MAXPRIO + 1
        invariant Valid() && 1 <= i <= MAXPRIO + 1
        invariant lists == PromotedTo(old(lists), i)
        invariant forall q :: IsProc(q) ==> priority[q] == PriorityUpTo(old(lists), state[q], old(priority)[q], q, i)
        invariant forall q :: IsProc(q) ==>
                    budget[q] == if RenewedUpTo(old(lists), state[q], old(priority)[q], q, i)
                                 then BUDGET * (priority[q] + 1) else old(budget)[q]
      {
        PromotedLists(old(lists), i, i);
        assert lists[i] == old(lists)[i];
        if lists[i] != [] {
          StateOfMember(old(next), old(head), old(tail), old(lists), state, old(budget), old(priority), i, 0);
        }
        PromoteLevel(i);
        i := i + 1;
      }
      forall q | IsProc(q) ensures 0 <= priority[q] <= MAXPRIO && 0 <= old(priority)[q] <= MAXPRIO {
        BudgetAt(state, budget, priority, q);
        BudgetAt(state, old(budget), old(priority), q);
      }
      RefreshList(SLEEP);
      RefreshList(RUN);
    }
  }

  // ---------------------------------------------------------------- runs that leave processes behind

  lemma MovedHead(lists: seq<seq<int>>, from: int, to: int)
    requires 0 <= from < |lists| && 0 <= to < |lists| && from != to && lists[from] != []
    ensures var p := lists[from][0]; Moved(lists, from, p, to) == lists[from := lists[from][1..]][to := lists[to] + [p]]
  {}

  lemma LaunchLists(lists: seq<seq<int>>)
    requires |lists| == NLISTS && lists[FREE] != [] && lists[EMBRYOS] == [] && lists[0] == []
    ensures var p := lists[FREE][0];
            var embryo := Moved(lists, FREE, p, EMBRYOS);
            var ready := Moved(embryo, EMBRYOS, p, 0);
            && ready[0] == [p] && Moved(ready, 0, p, RUN) == lists[FREE := lists[FREE][1..]][RUN := lists[RUN] + [p]]
  {
    hide Moved;
    var p := lists[FREE][0];
    MovedHead(lists, FREE, EMBRYOS);
    var embryo := Moved(lists, FREE, p, EMBRYOS);
    assert embryo[EMBRYOS] == [p] && embryo[0] == [] && [p][1..] == [];
    MovedHead(embryo, EMBRYOS, 0);
    var ready := Moved(embryo, EMBRYOS, p, 0);
    assert ready[0] == [p] && ready[EMBRYOS] == [];
    MovedHead(ready, 0, RUN);
    var after := Moved(ready, 0, p, RUN);
    assert after[0] == lists[0] && after[EMBRYOS] == lists[EMBRYOS];
    assert after == lists[FREE := lists[FREE][1..]][RUN := lists[RUN] + [p]];
  }

  /** Make a process and run it, with no other ready. */
  method Launch(m: ProcTable) returns (p: int)
    requires m.Valid() && m.lists[FREE] != [] && m.lists[EMBRYOS] == [] && m.lists[0] == []
    modifies m
    ensures m.Valid() && IsProc(p) && p == old(m.lists)[FREE][0]
    ensures m.state == old(m.state)[p := RUNNING] && m.priority[p] == 0 && m.budget[p] == BUDGET && m.ticksIn[p] == 0
    ensures m.priority == old(m.priority)[p := 0] && m.chan == old(m.chan)
    ensures m.lists == old(m.lists)[FREE := old(m.lists)[FREE][1..]][RUN := old(m.lists)[RUN] + [p]]
  {
    hide Structure, Placed, Budgets, Minus, Moved;
    LaunchLists(m.lists);
    ListEnds(m.next, m.head, m.tail, m.lists, FREE);
    p := m.AllocProc(true);
    m.MakeRunnable(p);
    var q := m.Dispatch(0, 0);
  }

  /** Two processes asleep on one channel. */
  method TwoSleepers(c: int) returns (m: ProcTable, p: int, q: int)
    ensures fresh(m) && m.Valid() && IsProc(p) && IsProc(q) && p != q && m.lists[SLEEP] == [p, q]
    ensures m.state[p] == m.state[q] == SLEEPING && m.chan[p] == m.chan[q] == c
  {
    hide Structure, Placed, Budgets, Minus, Moved;
    m := new ProcTable();
    p := Launch(m);
    MovedHead(m.lists, RUN, SLEEP);
    m.Sleep(p, c, 0);
    q := Launch(m);
    MovedHead(m.lists, RUN, SLEEP);
    m.Sleep(q, c, 0);
  }

  /** One wakeup leaves the second of them asleep on the channel. */
  method SleeperLeft(c: int) returns (m: ProcTable, p: int, q: int)
    ensures fresh(m) && m.Valid() && IsProc(p) && IsProc(q) && p != q
    ensures m.state[p] == RUNNABLE && m.state[q] == SLEEPING && m.chan[p] == m.chan[q] == c
  {
    hide Structure, Placed, Budgets, Minus, Moved;
    m, p, q := TwoSleepers(c);
    assert FirstOn(m.lists[SLEEP], m.chan, c) == p;
    m.Wakeup1(c);
  }

  /** Two processes ready at level 1, where they get by using up their budgets. */
  method TwoReady() returns (m: ProcTable, p: int, q: int)
    ensures fresh(m) && m.Valid() && IsProc(p) && IsProc(q) && p != q && m.lists[1] == [p, q]
    ensures m.state[p] == m.state[q] == RUNNABLE && m.priority[p] == m.priority[q] == 1
  {
    hide Structure, Placed, Budgets, Minus, Moved;
    m := new ProcTable();
    p := Launch(m);
    MovedHead(m.lists, RUN, 1);
    m.Yield(p, BUDGET);
    assert p == 0 && m.lists[FREE][0] == 1;
    q := Launch(m);
    MovedHead(m.lists, RUN, 1);
    m.Yield(q, BUDGET);
  }

  /** One promotion leaves the second of them where it was. */
  method ReadyLeft() returns (m: ProcTable, p: int, q: int)
    ensures fresh(m) && m.Valid() && IsProc(p) && IsProc(q) && p != q
    ensures m.state[p] == m.state[q] == RUNNABLE && m.priority[p] == 0 && m.priority[q] == 1
  {
    hide Structure, Placed, Budgets, Minus, Moved;
    m, p, q := TwoReady();
    m.PromoteAll();
  }
}
