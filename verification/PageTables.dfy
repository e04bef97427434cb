/** Two-level page tables over a pool of physical pages: the page allocator, and building,
    copying and freeing an address space.

    Physical memory is a sequence of pages of 1024 words, and a page is named by its frame
    number, so that a frame's physical address is the number times PGSIZE. A virtual page is
    named by its number. Kernel addresses of physical memory are identified with the
    physical addresses. */
module PageTables {

  const PGSIZE: int := 4096
  const WORDS: int := 1024  // words in a page, and entries in a table
  const NFRAMES: int := 0xE000  // PHYSTOP / PGSIZE
  const NPAGES: int := 0x10_0000  // virtual pages
  const KERNPAGE: int := 0x8_0000  // KERNBASE / PGSIZE
  const UINT: int := 0x1_0000_0000

  type Page = seq<int>
  type Memory = seq<Page>

  // ---------------------------------------------------------------- entries

  /** `entry & PTE_P`. */
  predicate Present(entry: int) {
    entry % 2 == 1
  }

  /** The frame of `PTE_ADDR(entry)`. */
  function Frame(entry: int): int {
    entry / PGSIZE
  }

  /** `PTE_FLAGS(entry)`. */
  function Flags(entry: int): (flags: int)
    ensures 0 <= flags < PGSIZE && (Present(flags) <==> Present(entry))
  {
    entry % PGSIZE
  }

  lemma LowPart(frame: int, low: int)
    requires 0 <= low < PGSIZE
    ensures (frame * PGSIZE + low) / PGSIZE == frame && (frame * PGSIZE + low) % PGSIZE == low
  {}

  lemma LowBit(frame: int, low: int)
    ensures (frame * PGSIZE + low) % 2 == low % 2
  {}

  /** `pa | perm | PTE_P`, for the address of a frame. */
  function Entry(frame: int, perm: int): (e: int)
    requires 0 <= perm < PGSIZE
    ensures Present(e) && Frame(e) == frame
    ensures Flags(e) == if Present(perm) then perm else perm + 1
  {
    var low := if Present(perm) then perm else perm + 1;
    LowPart(frame, low);
    LowBit(frame, low);
    frame * PGSIZE + low
  }

  /** An entry's address part is the frame's, and its bits but the lowest are those of `perm`. */
  lemma EntryBits(frame: int, perm: int)
    requires 0 <= perm < PGSIZE
    ensures var e := Entry(frame, perm); e % 2 == 1 && e / 4096 == frame && e % 4096 / 2 == perm / 2
  {}

  function Pdx(v: int): int {
    v / WORDS
  }

  function Ptx(v: int): int {
    v % WORDS
  }

  ghost predicate IsPage(v: int) {
    0 <= v < NPAGES
  }

  // ---------------------------------------------------------------- the pool of free pages

  ghost predicate Sized(mem: Memory) {
    |mem| == NFRAMES && forall f :: 0 <= f < NFRAMES ==> |mem[f]| == WORDS
  }

  /** The frames that the allocator may hand out start at `lo`, above the kernel. */
  ghost predicate InPool(lo: int, f: int) {
    0 < lo <= f < NFRAMES
  }

  /** The free list, threaded through the first words of the free pages; 0 ends it. */
  ghost predicate FreeList(lo: int, mem: Memory, head: int, free: seq<int>)
    requires Sized(mem)
  {
    && (forall k :: 0 <= k < |free| ==> InPool(lo, free[k]))
    && (forall j, k :: 0 <= j < k < |free| ==> free[j] != free[k])
    && head == (if free == [] then 0 else free[0])
    && (forall k {:trigger mem[free[k]]} :: 0 <= k < |free| ==>
          mem[free[k]][0] == if k + 1 < |free| then free[k + 1] else 0)
  }

  ghost function SetOf(free: seq<int>): set<int> {
    set f | f in free
  }

  lemma FreeListPush(lo: int, mem: Memory, head: int, free: seq<int>, f: int, page: Page)
    requires Sized(mem) && FreeList(lo, mem, head, free) && InPool(lo, f) && f !in free
    requires |page| == WORDS && page[0] == head
    ensures Sized(mem[f := page]) && FreeList(lo, mem[f := page], f, [f] + free)
    ensures SetOf([f] + free) == SetOf(free) + {f}
  {
    var mem', free' := mem[f := page], [f] + free;
    forall k | 0 <= k < |free'| ensures mem'[free'[k]][0] == if k + 1 < |free'| then free'[k + 1] else 0 {
      if k > 0 {
        assert free'[k] == free[k - 1];
        assert mem[free[k - 1]][0] == if k < |free| then free[k] else 0;
      }
    }
  }

  lemma FreeListPop(lo: int, mem: Memory, head: int, free: seq<int>)
    requires Sized(mem) && FreeList(lo, mem, head, free) && free != []
    ensures InPool(lo, head) && FreeList(lo, mem, mem[head][0], free[1..])
    ensures head !in free[1..] && SetOf(free[1..]) == SetOf(free) - {head}
  {
    assert mem[free[0]][0] == if 1 < |free| then free[1] else 0;
    var free' := free[1..];
    forall k | 0 <= k < |free'| ensures mem[free'[k]][0] == if k + 1 < |free'| then free'[k + 1] else 0 {
      assert mem[free[k + 1]][0] == if k + 2 < |free| then free[k + 2] else 0;
    }
  }

  lemma FreeListFrame(lo: int, mem: Memory, mem': Memory, head: int, free: seq<int>)
    requires Sized(mem) && Sized(mem') && FreeList(lo, mem, head, free)
    requires forall f :: 0 <= f < NFRAMES && f in free ==> mem'[f] == mem[f]
    ensures FreeList(lo, mem', head, free)
  {
    forall k | 0 <= k < |free| ensures mem'[free[k]][0] == if k + 1 < |free| then free[k + 1] else 0 {
      assert free[k] in free && InPool(lo, free[k]);
      assert mem[free[k]][0] == if k + 1 < |free| then free[k + 1] else 0;
    }
  }

  // ---------------------------------------------------------------- address spaces

  /** What a page directory stands for: the directory's own frame, the frames of its tables
      by index, and the entry of every page that is mapped. */
  datatype Space = Space(dir: int, tables: map<int, int>, pages: map<int, int>)

  ghost predicate IsUser(v: int) {
    0 <= v < KERNPAGE
  }

  /** The frames that belong to the space: the directory, the tables, and the pages mapped
      below the kernel. Kernel mappings are of memory that the space does not own. */
  ghost predicate Owns(s: Space, f: int) {
    || f == s.dir
    || (exists i :: i in s.tables && s.tables[i] == f)
    || (exists v :: v in s.pages && IsUser(v) && Frame(s.pages[v]) == f)
  }

  ghost predicate Directory(mem: Memory, s: Space)
    requires Sized(mem)
  {
    && 0 <= s.dir < NFRAMES
    && (forall i :: 0 <= i < WORDS ==>
          && (Present(mem[s.dir][i]) <==> i in s.tables)
          && (i in s.tables ==> Frame(mem[s.dir][i]) == s.tables[i] && Flags(mem[s.dir][i]) == 7))
  }

  ghost predicate Mapped(s: Space, v: int) {
    v in s.pages
  }

  ghost predicate Tables(mem: Memory, s: Space)
    requires Sized(mem)
  {
    && (forall i :: i in s.tables ==> 0 <= i < WORDS && 0 <= s.tables[i] < NFRAMES)
    && (forall v :: v in s.pages ==> IsPage(v) && Pdx(v) in s.tables && Present(s.pages[v]))
    && (forall v {:trigger Mapped(s, v)} :: IsPage(v) && Pdx(v) in s.tables ==>
          var e := mem[s.tables[Pdx(v)]][Ptx(v)];
          (Present(e) <==> Mapped(s, v)) && (Mapped(s, v) ==> e == s.pages[v]))
  }

  /** No frame of the space has two uses. */
  ghost predicate Exclusive(lo: int, s: Space) {
    && InPool(lo, s.dir)
    && (forall i :: i in s.tables ==> InPool(lo, s.tables[i]) && s.tables[i] != s.dir)
    && (forall i, j :: i in s.tables && j in s.tables && i != j ==> s.tables[i] != s.tables[j])
    && (forall v :: v in s.pages && IsUser(v) ==> InPool(lo, Frame(s.pages[v])) && Frame(s.pages[v]) != s.dir)
    && (forall v, i :: v in s.pages && IsUser(v) && i in s.tables ==> Frame(s.pages[v]) != s.tables[i])
    && (forall v, w :: v in s.pages && IsUser(v) && w in s.pages && IsUser(w) && v != w ==>
          Frame(s.pages[v]) != Frame(s.pages[w]))
  }

  ghost predicate Tree(lo: int, mem: Memory, s: Space) {
    Sized(mem) && Directory(mem, s) && Tables(mem, s) && Exclusive(lo, s)
  }

  /** What the hardware finds for page `v`: the directory's word for its table, which must be
      present, writable and open to the user, and in that table the page's entry. */
  lemma HardwareWalk(lo: int, mem: Memory, s: Space, v: int)
    requires Tree(lo, mem, s) && 0 <= v < 0x10_0000
    ensures 0 <= s.dir < |mem| && |mem[s.dir]| == 1024
    ensures var pde := mem[s.dir][v / 1024];
            && (v in s.pages ==> pde % 2 == 1)
            && (pde % 2 == 1 ==>
                  && pde % 4096 == 7 && 0 <= pde / 4096 < |mem| && |mem[pde / 4096]| == 1024
                  && var pte := mem[pde / 4096][v % 1024];
                     (pte % 2 == 1 <==> v in s.pages) && (v in s.pages ==> s.pages[v] == pte))
  {
    hide Exclusive;
    assert Mapped(s, v) <==> v in s.pages;
  }

  /** The directory and the tables are all of memory that a space is read from. */
  lemma TreeFrame(lo: int, mem: Memory, mem': Memory, s: Space)
    requires Tree(lo, mem, s) && Sized(mem') && mem'[s.dir] == mem[s.dir]
    requires forall i :: i in s.tables ==> mem'[s.tables[i]] == mem[s.tables[i]]
    ensures Tree(lo, mem', s)
  {
    hide Exclusive;
    forall v | IsPage(v) && Pdx(v) in s.tables
      ensures var e := mem'[s.tables[Pdx(v)]][Ptx(v)]; (Present(e) <==> Mapped(s, v)) && (Mapped(s, v) ==> e == s.pages[v])
    {
      assert Mapped(s, v) || !Mapped(s, v);
    }
  }

  ghost function OwnedSet(s: Space): (owned: set<int>)
    ensures forall f :: f in owned <==> Owns(s, f)
  {
    {s.dir} + (set i | i in s.tables :: s.tables[i]) + (set v | v in s.pages && IsUser(v) :: Frame(s.pages[v]))
  }

  /** The frames that a space's structure is in: the directory and the tables. */
  ghost function TableSet(s: Space): (frames: set<int>)
    ensures frames <= OwnedSet(s)
  {
    {s.dir} + (set i | i in s.tables :: s.tables[i])
  }

  function Zeros(): Page {
    seq(WORDS, k => 0)
  }

  /** Adding an empty table. */
  lemma AddTable(lo: int, mem: Memory, s: Space, i: int, f: int, entry: int)
    requires Tree(lo, mem, s) && 0 <= i < WORDS && i !in s.tables && InPool(lo, f) && !Owns(s, f)
    requires Present(entry) && Frame(entry) == f && Flags(entry) == 7
    ensures var s' := s.(tables := s.tables[i := f]);
            && Tree(lo, mem[f := Zeros()][s.dir := mem[s.dir][i := entry]], s')
            && OwnedSet(s') == OwnedSet(s) + {f}
  {
    hide Frame;
    var s', mem' := s.(tables := s.tables[i := f]), mem[f := Zeros()][s.dir := mem[s.dir][i := entry]];
    forall j | j in s.tables ensures s.tables[j] != f && mem'[s.tables[j]] == mem[s.tables[j]] {
      assert Owns(s, s.tables[j]);
    }
    forall v | v in s.pages && IsUser(v) ensures Frame(s.pages[v]) != f {
      assert Owns(s, Frame(s.pages[v]));
    }
    AddTableTables(mem, mem', s, i, f);
    forall g ensures Owns(s', g) <==> Owns(s, g) || g == f {
      AddTableOwns(s, i, f, g);
    }
  }

  lemma AddTableTables(mem: Memory, mem': Memory, s: Space, i: int, f: int)
    requires Sized(mem) && Sized(mem') && Tables(mem, s) && 0 <= i < WORDS && i !in s.tables && 0 <= f < NFRAMES
    requires mem'[f] == Zeros() && forall j :: j in s.tables ==> mem'[s.tables[j]] == mem[s.tables[j]]
    ensures Tables(mem', s.(tables := s.tables[i := f]))
  {
    var s' := s.(tables := s.tables[i := f]);
    forall v | IsPage(v) && Pdx(v) in s'.tables
      ensures var e := mem'[s'.tables[Pdx(v)]][Ptx(v)]; (Present(e) <==> Mapped(s', v)) && (Mapped(s', v) ==> e == s'.pages[v])
    {
      assert Mapped(s, v) <==> Mapped(s', v);
    }
  }

  lemma AddTableOwns(s: Space, i: int, f: int, g: int)
    requires i !in s.tables
    ensures Owns(s.(tables := s.tables[i := f]), g) <==> Owns(s, g) || g == f
  {
    var s' := s.(tables := s.tables[i := f]);
    assert i in s'.tables && s'.tables[i] == f;
    assert forall j :: j in s.tables ==> j in s'.tables && s'.tables[j] == s.tables[j];
  }

  ghost predicate Fresh(lo: int, s: Space, v: int, e: int) {
    IsUser(v) ==> InPool(lo, Frame(e)) && !Owns(s, Frame(e))
  }

  lemma SameCell(v: int, w: int)
    requires Pdx(v) == Pdx(w) && Ptx(v) == Ptx(w)
    ensures v == w
  {}

  lemma WriteEntry(lo: int, mem: Memory, s: Space, v: int, e: int, s': Space)
    requires Tree(lo, mem, s) && IsPage(v) && Pdx(v) in s.tables
    requires s'.dir == s.dir && s'.tables == s.tables
    requires s'.pages == if Present(e) then s.pages[v := e] else s.pages - {v}
    ensures var t := s.tables[Pdx(v)];
            && 0 <= t < NFRAMES && Sized(mem[t := mem[t][Ptx(v) := e]])
            && Directory(mem[t := mem[t][Ptx(v) := e]], s') && Tables(mem[t := mem[t][Ptx(v) := e]], s')
  {
    var t := s.tables[Pdx(v)];
    var mem' := mem[t := mem[t][Ptx(v) := e]];
    forall w | IsPage(w) && Pdx(w) in s'.tables
      ensures var x := mem'[s'.tables[Pdx(w)]][Ptx(w)]; (Present(x) <==> Mapped(s', w)) && (Mapped(s', w) ==> x == s'.pages[w])
    {
      assert w != v ==> (Mapped(s, w) <==> Mapped(s', w));
      if w != v && Pdx(w) == Pdx(v) && Ptx(w) == Ptx(v) {
        SameCell(v, w);
      }
    }
  }

  /** Mapping a page that is not mapped. */
  lemma MapPage(lo: int, mem: Memory, s: Space, v: int, e: int)
    requires Tree(lo, mem, s) && IsPage(v) && Pdx(v) in s.tables && v !in s.pages && Present(e) && Fresh(lo, s, v, e)
    ensures var s', t := s.(pages := s.pages[v := e]), s.tables[Pdx(v)];
            && 0 <= t < NFRAMES && Tree(lo, mem[t := mem[t][Ptx(v) := e]], s')
            && OwnedSet(s') == if IsUser(v) then OwnedSet(s) + {Frame(e)} else OwnedSet(s)
  {
    hide Directory, Tables, Present, Frame, IsUser;
    var s' := s.(pages := s.pages[v := e]);
    WriteEntry(lo, mem, s, v, e, s');
    MapExclusive(lo, s, v, e);
    forall g ensures Owns(s', g) <==> Owns(s, g) || (IsUser(v) && g == Frame(e)) {
      assert forall w :: w in s.pages ==> w in s'.pages && s'.pages[w] == s.pages[w];
      assert v in s'.pages && s'.pages[v] == e;
    }
  }

  lemma MapExclusive(lo: int, s: Space, v: int, e: int)
    requires Exclusive(lo, s) && v !in s.pages && Fresh(lo, s, v, e)
    ensures Exclusive(lo, s.(pages := s.pages[v := e]))
  {
    hide Frame;
    if IsUser(v) {
      assert Owns(s, s.dir);
      forall i | i in s.tables ensures s.tables[i] != Frame(e) { assert Owns(s, s.tables[i]); }
      forall w | w in s.pages && IsUser(w) ensures Frame(s.pages[w]) != Frame(e) { assert Owns(s, Frame(s.pages[w])); }
    }
  }

  /** Unmapping a user page: the frame it had is no longer the space's. */
  lemma UnmapPage(lo: int, mem: Memory, s: Space, v: int)
    requires Tree(lo, mem, s) && v in s.pages && IsUser(v)
    ensures IsPage(v) && Pdx(v) in s.tables
    ensures var s', t := s.(pages := s.pages - {v}), s.tables[Pdx(v)];
            && 0 <= t < NFRAMES && Tree(lo, mem[t := mem[t][Ptx(v) := 0]], s')
            && OwnedSet(s') == OwnedSet(s) - {Frame(s.pages[v])}
  {
    var s' := s.(pages := s.pages - {v});
    assert !Present(0);
    WriteEntry(lo, mem, s, v, 0, s');
    hide Directory, Tables, Present, Frame, IsUser;
    forall g ensures Owns(s', g) <==> Owns(s, g) && g != Frame(s.pages[v]) {
      UnmapOwns(lo, s, v, g);
    }
  }

  lemma UnmapOwns(lo: int, s: Space, v: int, g: int)
    requires Exclusive(lo, s) && v in s.pages && IsUser(v)
    ensures Owns(s.(pages := s.pages - {v}), g) <==> Owns(s, g) && g != Frame(s.pages[v])
  {
    hide Frame;
    var s' := s.(pages := s.pages - {v});
    if Owns(s, g) && g != Frame(s.pages[v]) {
      if w :| w in s.pages && IsUser(w) && Frame(s.pages[w]) == g {
        assert w in s'.pages && s'.pages[w] == s.pages[w];
      }
    }
    if Owns(s', g) {
      if w :| w in s'.pages && IsUser(w) && Frame(s'.pages[w]) == g {
        assert w in s.pages && w != v;
      }
    }
  }

  lemma PoolFrames(lo: int, mem: Memory, s: Space, v: int)
    requires Tree(lo, mem, s)
    ensures InPool(lo, s.dir) && Owns(s, s.dir)
    ensures Pdx(v) in s.tables ==> InPool(lo, s.tables[Pdx(v)]) && Owns(s, s.tables[Pdx(v)])
  {}

  /** The first and last page of `size` bytes at `va`. */
  function First(va: int): int {
    va / PGSIZE
  }

  function Last(va: int, size: int): int {
    (va + size - 1) / PGSIZE
  }

  lemma RangeIsPages(va: int, size: int)
    requires 0 <= va < UINT && 0 < size && va + size <= UINT
    ensures 0 <= First(va) <= Last(va, size) < NPAGES
  {}

  /** The entries for `n` pages from `first` on, mapped to consecutive frames. */
  ghost function Range(first: int, n: nat, frame: int, perm: int): map<int, int>
    requires 0 <= perm < PGSIZE
  {
    if n == 0 then map[] else Range(first, n - 1, frame, perm)[first + n - 1 := Entry(frame + n - 1, perm)]
  }

  lemma {:induction false} RangeAt(first: int, n: nat, frame: int, perm: int, v: int)
    requires 0 <= perm < PGSIZE
    ensures v in Range(first, n, frame, perm) <==> first <= v < first + n
    ensures first <= v < first + n ==> Range(first, n, frame, perm)[v] == Entry(frame + v - first, perm)
  {
    if n > 0 {
      RangeAt(first, n - 1, frame, perm, v);
    }
  }

  /** Every page of `size` bytes at `va` is present, maps the frame as far from that of `pa` as the
      page is from that of `va`, and has the bits of `perm`. */
  ghost predicate MapsRange(pages: map<int, int>, va: int, size: int, pa: int, perm: int) {
    forall v :: va / 4096 <= v <= (va + size - 1) / 4096 ==>
      && v in pages && pages[v] % 2 == 1
      && pages[v] / 4096 == pa / 4096 + v - va / 4096 && pages[v] % 4096 / 2 == perm / 2
  }

  lemma RangeMaps(pages: map<int, int>, va: int, size: int, pa: int, perm: int)
    requires 0 <= va && 0 < size && 0 <= perm < PGSIZE && First(va) <= Last(va, size)
    ensures MapsRange(pages + Range(First(va), Last(va, size) + 1 - First(va), Frame(pa), perm), va, size, pa, perm)
  {
    hide Range, Entry;
    var n := Last(va, size) + 1 - First(va);
    forall v | va / 4096 <= v <= (va + size - 1) / 4096
      ensures v in Range(First(va), n, Frame(pa), perm)
      ensures Range(First(va), n, Frame(pa), perm)[v] == Entry(pa / 4096 + v - va / 4096, perm)
      ensures var e := Entry(pa / 4096 + v - va / 4096, perm);
              e % 2 == 1 && e / 4096 == pa / 4096 + v - va / 4096 && e % 4096 / 2 == perm / 2
    {
      RangeAt(First(va), n, Frame(pa), perm, v);
      EntryBits(pa / 4096 + v - va / 4096, perm);
    }
  }

  /** The frames of those among them that are below the kernel. */
  ghost function UserFrames(first: int, n: nat, frame: int): set<int> {
    if n == 0 then {} else UserFrames(first, n - 1, frame) + (if IsUser(first + n - 1) then {frame + n - 1} else {})
  }

  lemma RangeStart(first: int, frame: int, perm: int)
    requires 0 <= perm < PGSIZE
    ensures Range(first, 0, frame, perm) == map[] && UserFrames(first, 0, frame) == {}
  {}

  lemma RangeStep(first: int, n: nat, frame: int, perm: int)
    requires 0 <= perm < PGSIZE
    ensures Range(first, n + 1, frame, perm) == Range(first, n, frame, perm)[first + n := Entry(frame + n, perm)]
    ensures UserFrames(first, n + 1, frame) == UserFrames(first, n, frame) + (if IsUser(first + n) then {frame + n} else {})
  {}

  lemma {:induction false} UserFramesGrow(first: int, n: nat, m: nat, frame: int)
    requires n <= m
    ensures UserFrames(first, n, frame) <= UserFrames(first, m, frame)
  {
    if n < m {
      UserFramesGrow(first, n, m - 1, frame);
    }
  }

  lemma {:induction false} UserFramesBound(first: int, n: nat, frame: int, f: int)
    ensures f in UserFrames(first, n, frame) ==> frame <= f < frame + n
  {
    if n > 0 {
      UserFramesBound(first, n - 1, frame, f);
    }
  }

  // ---------------------------------------------------------------- the kernel's part

  const KERNBASE: int := 0x8000_0000
  const EXTMEM: int := 0x10_0000
  const PHYSTOP: int := 0xE00_0000
  const DEVSPACE: int := 0xFE00_0000

  /** One of the four regions that every address space maps. */
  datatype Region = Region(virt: int, phys: int, size: int, perm: int)

  /** The kernel's text starts at EXTMEM and is followed by its data. */
  ghost predicate KernelLayout(data: int) {
    EXTMEM < data * PGSIZE < PHYSTOP
  }

  function Kmap(data: int, k: int): Region {
    if k == 0 then Region(KERNBASE, 0, EXTMEM, 2)
    else if k == 1 then Region(KERNBASE + EXTMEM, EXTMEM, data * PGSIZE - EXTMEM, 0)
    else if k == 2 then Region(KERNBASE + data * PGSIZE, data * PGSIZE, PHYSTOP - data * PGSIZE, 2)
    else Region(DEVSPACE, DEVSPACE, UINT - DEVSPACE, 2)
  }

  /** The entries of the first `k` regions. */
  ghost function KernelPages(data: int, k: nat): map<int, int> {
    if k == 0 then map[]
    else
      var m := Kmap(data, k - 1);
      var n := Last(m.virt, m.size) + 1 - First(m.virt);
      if 0 <= n then KernelPages(data, k - 1) + Range(First(m.virt), n, Frame(m.phys), m.perm) else map[]
  }

  lemma KmapRange(data: int, k: int)
    requires KernelLayout(data) && 0 <= k < 4
    ensures var m := Kmap(data, k);
            && 0 <= m.virt < UINT && 0 < m.size && m.virt + m.size <= UINT && m.phys % PGSIZE == 0 && 0 <= m.phys
            && KERNPAGE <= First(m.virt) <= Last(m.virt, m.size)
            && (k < 3 ==> Last(m.virt, m.size) < First(Kmap(data, k + 1).virt))
  {}

  lemma {:induction false} KernelPagesBelow(data: int, k: nat, v: int)
    requires KernelLayout(data) && k <= 4
    ensures v in KernelPages(data, k) ==> KERNPAGE <= v && (k < 4 ==> v < First(Kmap(data, k).virt))
  {
    if k > 0 {
      KmapRange(data, k - 1);
      var m := Kmap(data, k - 1);
      var n := Last(m.virt, m.size) + 1 - First(m.virt);
      KernelPagesBelow(data, k - 1, v);
      RangeAt(First(m.virt), n, Frame(m.phys), m.perm, v);
    }
  }

  /** The next region overlaps none of those before it, and touches no user page. */
  lemma KernelPagesStep(data: int, k: nat)
    requires KernelLayout(data) && k < 4
    ensures var m := Kmap(data, k);
            var n := Last(m.virt, m.size) + 1 - First(m.virt);
            && 0 <= n
            && (forall v :: First(m.virt) <= v <= Last(m.virt, m.size) ==> v !in KernelPages(data, k) && !IsUser(v))
            && KernelPages(data, k + 1) == KernelPages(data, k) + Range(First(m.virt), n, Frame(m.phys), m.perm)
            && UserFrames(First(m.virt), n, Frame(m.phys)) == {}
  {
    hide Range, UserFrames;
    KmapRange(data, k);
    var m := Kmap(data, k);
    var n := Last(m.virt, m.size) + 1 - First(m.virt);
    forall v | First(m.virt) <= v <= Last(m.virt, m.size) ensures v !in KernelPages(data, k) {
      KernelPagesBelow(data, k, v);
    }
    NoUserFrames(First(m.virt), n, Frame(m.phys));
  }

  lemma {:induction false} NoUserFrames(first: int, n: nat, frame: int)
    requires KERNPAGE <= first
    ensures UserFrames(first, n, frame) == {}
  {
    if n > 0 {
      NoUserFrames(first, n - 1, frame);
    }
  }

  /** The kernel's mappings, page by page: physical memory from KERNBASE on, and the devices at
      the top where they are. All are for the kernel only, and writable but for its text. */
  ghost predicate KernelMapped(data: int, pages: map<int, int>) {
    && (forall v :: v in pages <==> 0x8_0000 <= v < 0x8_E000 || 0xF_E000 <= v < 0x10_0000)
    && (forall v :: v in pages ==>
          && pages[v] / 4096 == (if v < 0x8_E000 then v - 0x8_0000 else v)
          && pages[v] % 4096 == (if 0x8_0100 <= v < 0x8_0000 + data then 1 else 3))
  }

  lemma KernelPagesAre(data: int)
    requires KernelLayout(data)
    ensures KernelMapped(data, KernelPages(data, 4))
  {
    hide KernelPages, Range, Entry;
    forall v
      ensures v in KernelPages(data, 4) <==> 0x8_0000 <= v < 0x8_E000 || 0xF_E000 <= v < 0x10_0000
      ensures v in KernelPages(data, 4) ==>
                && KernelPages(data, 4)[v] / 4096 == (if v < 0x8_E000 then v - 0x8_0000 else v)
                && KernelPages(data, 4)[v] % 4096 == (if 0x8_0100 <= v < 0x8_0000 + data then 1 else 3)
    {
      KernelPageAt(data, v);
    }
  }

  lemma KernelPageAt(data: int, v: int)
    requires KernelLayout(data)
    ensures var pages := KernelPages(data, 4);
            && (v in pages <==> 0x8_0000 <= v < 0x8_E000 || 0xF_E000 <= v < 0x10_0000)
            && (v in pages ==>
                  && pages[v] / 4096 == (if v < 0x8_E000 then v - 0x8_0000 else v)
                  && pages[v] % 4096 == (if 0x8_0100 <= v < 0x8_0000 + data then 1 else 3))
  {
    hide KernelPages, Range, Entry;
    KernelPagesStart(data);
    RegionPages(data, 0, v);
    RegionPages(data, 1, v);
    RegionPages(data, 2, v);
    RegionPages(data, 3, v);
  }

  /** What one region adds, in numbers. */
  lemma RegionPages(data: int, k: nat, v: int)
    requires KernelLayout(data) && k < 4
    ensures var first := [0x8_0000, 0x8_0100, 0x8_0000 + data, 0xF_E000][k];
            var end := [0x8_0100, 0x8_0000 + data, 0x8_E000, 0x10_0000][k];
            var pages, pages' := KernelPages(data, k), KernelPages(data, k + 1);
            && (v in pages' <==> v in pages || first <= v < end)
            && (first <= v < end ==>
                  && pages'[v] / 4096 == (if k < 3 then v - 0x8_0000 else v)
                  && pages'[v] % 4096 == (if k == 1 then 1 else 3))
            && (v in pages && !(first <= v < end) ==> pages'[v] == pages[v])
  {
    hide KernelPages, Range, Entry;
    KernelPagesStep(data, k);
    var m := Kmap(data, k);
    var n := Last(m.virt, m.size) + 1 - First(m.virt);
    RangeAt(First(m.virt), n, Frame(m.phys), m.perm, v);
    EntryBits(Frame(m.phys) + v - First(m.virt), m.perm);
  }

  lemma KernelPagesStart(data: int)
    ensures KernelPages(data, 0) == map[]
  {}

  /** A cleared page is a directory that maps nothing. */
  lemma NewDirectory(lo: int, mem: Memory, head: int, free: seq<int>, d: int)
    requires Sized(mem) && FreeList(lo, mem, head, free) && InPool(lo, d) && d !in SetOf(free)
    ensures Sized(mem[d := Zeros()]) && FreeList(lo, mem[d := Zeros()], head, free)
    ensures Tree(lo, mem[d := Zeros()], Space(d, map[], map[]))
    ensures OwnedSet(Space(d, map[], map[])) == {d} == TableSet(Space(d, map[], map[]))
  {
    hide FreeList;
    FreeListFrame(lo, mem, mem[d := Zeros()], head, free);
  }

  // ---------------------------------------------------------------- freeing

  /** `PGROUNDUP`, in pages. */
  function Ceil(size: int): int {
    (size + PGSIZE - 1) / PGSIZE
  }

  lemma CeilAbove(newsz: int, oldsz: int)
    requires newsz >= oldsz
    ensures Ceil(newsz) >= Ceil(oldsz)
  {}

  lemma CeilBelow(newsz: int, oldsz: int)
    requires 0 <= newsz < oldsz <= KERNBASE
    ensures 0 <= Ceil(newsz) <= Ceil(oldsz) <= KERNPAGE
  {}

  /** Whether the walk of `deallocuvm` from page `a` on comes to page `v`: where a table is
      missing it skips as many pages as a table has, and so lands in the middle of the next
      table if it was in the middle of this one. */
  ghost predicate Reached(s: Space, a: int, v: int) {
    a <= v && (Ptx(a) <= Ptx(v) || exists i :: i in s.tables && Pdx(a) <= i < Pdx(v))
  }

  /** The walk from page `a` starts at a multiple of 4MB, or at a page that has a table, or
      there is no table further on that holds a page below `limit`. */
  ghost predicate Complete(s: Space, a: int, limit: int) {
    Ptx(a) == 0 || Pdx(a) in s.tables || forall i :: i in s.tables && i > Pdx(a) ==> i * WORDS >= limit
  }

  /** Of the entries for the pages below `limit`, none is missed exactly then. */
  lemma ReachesAll(s: Space, a: int, limit: int)
    ensures (forall v :: a <= v < limit && Pdx(v) in s.tables ==> Reached(s, a, v)) <==> Complete(s, a, limit)
  {
    if !Complete(s, a, limit) {
      var i :| i in s.tables && i > Pdx(a) && i * WORDS < limit;
      var j := FirstTable(s, Pdx(a), i);
      var v := j * WORDS;
      assert Ptx(v) == 0 && Pdx(v) == j && a <= v < limit;
      assert !Reached(s, a, v);
    } else {
      forall v | a <= v < limit && Pdx(v) in s.tables ensures Reached(s, a, v) {
        FirstOfTable(v);
      }
    }
  }

  lemma FirstOfTable(v: int)
    ensures Pdx(v) * WORDS <= v < (Pdx(v) + 1) * WORDS && Ptx(v) == v - Pdx(v) * WORDS
  {}

  /** The first table after index `p`, given one. */
  lemma FirstTable(s: Space, p: int, i: int) returns (j: int)
    requires i in s.tables && i > p
    ensures p < j <= i && j in s.tables && forall k :: p < k < j ==> k !in s.tables
    decreases i - p
  {
    if k :| p < k < i && k in s.tables {
      j := FirstTable(s, p, k);
    } else {
      j := i;
    }
  }

  lemma ReachedStep(s: Space, a: int)
    ensures var a' := if Pdx(a) in s.tables then a + 1 else a + WORDS;
            forall v :: a' <= v ==> (Reached(s, a, v) <==> Reached(s, a', v))
  {}

  /** The pages left by `deallocuvm` between the pages `first` and `limit`. */
  ghost function Kept(s: Space, first: int, limit: int): map<int, int> {
    map v | v in s.pages && !(v < limit && Reached(s, first, v)) :: s.pages[v]
  }

  lemma KeptStart(s: Space, a: int)
    ensures Kept(s, a, a) == s.pages
  {}

  lemma KeptNone(s: Space)
    ensures forall v :: v in Kept(s, Ceil(0), Ceil(KERNBASE)) ==> !IsUser(v)
  {
    assert Ptx(0) == 0 && Ceil(0) == 0 && Ceil(KERNBASE) == KERNPAGE;
  }

  ghost predicate TablesCover(s: Space) {
    forall v :: v in s.pages ==> Pdx(v) in s.tables
  }

  lemma TreePages(lo: int, mem: Memory, s: Space)
    requires Tree(lo, mem, s)
    ensures TablesCover(s)
  {}

  /** A complete walk leaves no mapped page in its range. */
  lemma KeptComplete(s: Space, a: int, limit: int)
    requires TablesCover(s) && Complete(s, a, limit)
    ensures forall v :: a <= v < limit ==> v !in Kept(s, a, limit)
  {
    ReachesAll(s, a, limit);
  }

  ghost predicate Contiguous(s: Space, n: int) {
    forall v :: IsUser(v) ==> (v in s.pages <==> v < n)
  }

  /** In a space that is mapped contiguously up to page `n`, as every process's is, exactly the
      pages from `a` on are removed. */
  lemma KeptContiguous(s: Space, n: int, a: int, limit: int)
    requires TablesCover(s) && Contiguous(s, n) && 0 <= a && limit <= KERNPAGE
    ensures forall v :: IsUser(v) ==> (v in Kept(s, a, limit) <==> v < n && !(a <= v < limit))
  {
    forall v | IsUser(v) && v < n && a <= v < limit ensures Reached(s, a, v) {
      assert IsUser(a) && a in s.pages;
    }
  }

  /** One step of the walk from `first`, at page `a`. */
  lemma KeptStep(s: Space, first: int, a: int, limit: int)
    requires TablesCover(s) && first <= a < limit
    requires forall v :: a <= v ==> (Reached(s, first, v) <==> Reached(s, a, v))
    ensures var a' := if Pdx(a) in s.tables then a + 1 else a + WORDS;
            Kept(s, first, if a' < limit then a' else limit) == Kept(s, first, a) - {a}
  {
    var a' := if Pdx(a) in s.tables then a + 1 else a + WORDS;
    forall v | v in s.pages && a < v < a' ensures !Reached(s, first, v) {
      assert Pdx(v) == Pdx(a) + 1 && Ptx(v) < Ptx(a);
    }
    assert Reached(s, a, a);
  }

  lemma PageMapped(lo: int, mem: Memory, s: Space, v: int)
    requires Tree(lo, mem, s) && IsPage(v)
    ensures v in s.pages ==> Pdx(v) in s.tables
    ensures Pdx(v) in s.tables ==> var t := s.tables[Pdx(v)]; 0 <= t < NFRAMES && (Present(mem[t][Ptx(v)]) <==> v in s.pages)
  {
    assert Mapped(s, v) <==> v in s.pages;
  }

  lemma UserPage(lo: int, mem: Memory, s: Space, v: int)
    requires Tree(lo, mem, s) && IsUser(v)
    ensures v in s.pages ==> Pdx(v) in s.tables
    ensures Pdx(v) in s.tables ==> var t := s.tables[Pdx(v)]; 0 <= t < NFRAMES && (Present(mem[t][Ptx(v)]) <==> v in s.pages)
    ensures v in s.pages ==> mem[s.tables[Pdx(v)]][Ptx(v)] == s.pages[v] && InPool(lo, Frame(s.pages[v])) && Owns(s, Frame(s.pages[v]))
    ensures v in s.pages ==> Frame(s.pages[v]) != s.tables[Pdx(v)]
    ensures v !in s.pages ==> s.pages - {v} == s.pages && s.(pages := s.pages - {v}) == s
  {
    assert Mapped(s, v) <==> v in s.pages;
  }

  /** Changing the contents of a mapped user page changes nothing of the space. */
  lemma TreeFrameExcept(lo: int, mem: Memory, mem': Memory, s: Space, v: int)
    requires Tree(lo, mem, s) && Sized(mem') && v in s.pages && IsUser(v) && Untouched(mem, mem', {Frame(s.pages[v])})
    ensures Tree(lo, mem', s)
  {
    hide Frame, Tables;
    TreeFrame(lo, mem, mem', s);
  }

  /** The tables of the first `n` directory entries. */
  ghost function TablesBelow(s: Space, n: int): set<int> {
    set i | i in s.tables && i < n :: s.tables[i]
  }

  lemma NoUserPages(s: Space)
    requires forall v :: v in s.pages ==> !IsUser(v)
    ensures OwnedSet(s) == TableSet(s)
  {}

  lemma TablesBelowStart(lo: int, mem: Memory, s: Space)
    requires Tree(lo, mem, s)
    ensures TablesBelow(s, 0) == {}
    ensures TablesBelow(s, WORDS) + {s.dir} == TableSet(s)
    ensures InPool(lo, s.dir) && s.dir !in TablesBelow(s, WORDS)
  {
    hide Present, Frame;
  }

  lemma TablesBelowStep(lo: int, mem: Memory, s: Space, i: int)
    requires Tree(lo, mem, s)
    ensures i !in s.tables ==> TablesBelow(s, i + 1) == TablesBelow(s, i)
    ensures i in s.tables ==>
              var t := s.tables[i];
              && TablesBelow(s, i + 1) == TablesBelow(s, i) + {t} && t !in TablesBelow(s, i)
              && InPool(lo, t) && t in TableSet(s) && t != s.dir
  {
    hide Present, Frame, Directory, Tables;
  }

  // ---------------------------------------------------------------- copying

  /** The child's entry `e'` maps a copy of the page of the parent's entry `e`. */
  ghost predicate Copy(mem: Memory, mem': Memory, e: int, e': int) {
    && 0 <= Frame(e) < |mem| && 0 <= Frame(e') < |mem'|
    && Flags(e') == Flags(e) && mem'[Frame(e')] == mem[Frame(e)]
  }

  lemma OnePage(v: int, f: int, perm: int)
    requires 0 <= perm < PGSIZE && IsUser(v)
    ensures First(v * PGSIZE) == v == Last(v * PGSIZE, PGSIZE) && Frame(f * PGSIZE) == f && f * PGSIZE % PGSIZE == 0
    ensures Range(v, 1, f, perm) == map[v := Entry(f, perm)] && UserFrames(v, 1, f) == {f}
  {
    assert Range(v, 0, f, perm) == map[];
  }

  lemma TreeApart(lo: int, mem: Memory, mem': Memory, s: Space, touched: set<int>)
    requires Tree(lo, mem, s) && Sized(mem') && Untouched(mem, mem', touched) && OwnedSet(s) !! touched
    ensures Tree(lo, mem', s)
  {
    hide Frame, Present;
    assert Owns(s, s.dir);
    forall i | i in s.tables ensures mem'[s.tables[i]] == mem[s.tables[i]] {
      assert Owns(s, s.tables[i]);
    }
    TreeFrame(lo, mem, mem', s);
  }

  /** The first `n` user pages of `p`, and no others, are copied in `c`. */
  ghost predicate Copied(mem: Memory, mem': Memory, p: Space, c: Space, n: int) {
    && (forall v :: IsUser(v) ==> (v in c.pages <==> v < n))
    && (forall v :: IsUser(v) && v < n ==> v in p.pages && v in c.pages && Copy(mem, mem', p.pages[v], c.pages[v]))
  }

  /** In numbers: page `v` of the copy has the parent's flags and contents. */
  lemma CopiedPage(mem: Memory, mem': Memory, p: Space, c: Space, n: int, v: int)
    requires Copied(mem, mem', p, c, n) && 0 <= v < n <= 0x8_0000
    ensures v in p.pages && v in c.pages && c.pages[v] % 4096 == p.pages[v] % 4096
    ensures 0 <= p.pages[v] / 4096 < |mem| && 0 <= c.pages[v] / 4096 < |mem'|
    ensures mem'[c.pages[v] / 4096] == mem[p.pages[v] / 4096]
  {
    assert IsUser(v);
  }

  /** Above the user pages, `c` maps what every address space maps. */
  ghost predicate KernelPart(data: int, c: Space) {
    forall v :: !IsUser(v) ==>
      (v in c.pages <==> v in KernelPages(data, 4)) && (v in c.pages ==> c.pages[v] == KernelPages(data, 4)[v])
  }

  lemma NewCopy(mem: Memory, mem': Memory, p: Space, c: Space, data: int)
    requires KernelLayout(data) && c.pages == KernelPages(data, 4)
    ensures Copied(mem, mem', p, c, 0) && KernelPart(data, c)
  {
    hide KernelPages;
    forall v | v in c.pages ensures !IsUser(v) {
      KernelPagesBelow(data, 4, v);
    }
  }

  lemma NotCopiedYet(mem: Memory, mem': Memory, p: Space, c: Space, n: int)
    requires Copied(mem, mem', p, c, n) && IsUser(n)
    ensures n !in c.pages
  {}

  lemma UserFrameApart(lo: int, mem: Memory, s: Space, free: set<int>)
    requires Tree(lo, mem, s) && free !! OwnedSet(s)
    ensures forall v :: v in s.pages && IsUser(v) ==> Frame(s.pages[v]) !in free + TableSet(s)
  {
    hide Frame, Directory, Tables;
    forall v | v in s.pages && IsUser(v) ensures Frame(s.pages[v]) !in free {
      assert Owns(s, Frame(s.pages[v]));
    }
  }

  lemma CopiedStep(mem: Memory, mem1: Memory, mem2: Memory, p: Space, c: Space, c': Space, n: int, touched: set<int>)
    requires Copied(mem, mem1, p, c, n) && IsUser(n) && n in p.pages && n in c'.pages && c'.pages == c.pages[n := c'.pages[n]]
    requires Copy(mem1, mem2, p.pages[n], c'.pages[n]) && Frame(p.pages[n]) < |mem| && mem1[Frame(p.pages[n])] == mem[Frame(p.pages[n])]
    requires Untouched(mem1, mem2, touched)
    requires forall v :: v in c.pages && IsUser(v) ==> Frame(c.pages[v]) !in touched
    ensures Copied(mem, mem2, p, c', n + 1)
  {
    hide Frame, Flags;
    forall v | IsUser(v) && v < n + 1 ensures v in p.pages && v in c'.pages && Copy(mem, mem2, p.pages[v], c'.pages[v]) {
      if v < n {
        assert v in c.pages && Copy(mem, mem1, p.pages[v], c.pages[v]);
      }
    }
  }

  lemma KernelPartStep(data: int, c: Space, c': Space, n: int)
    requires KernelPart(data, c) && IsUser(n) && n in c'.pages && c'.pages == c.pages[n := c'.pages[n]]
    ensures KernelPart(data, c')
  {
    hide KernelPages;
  }

  // ---------------------------------------------------------------- the machine

  /** Only frames of `touched` have changed. */
  ghost predicate Untouched(mem: Memory, mem': Memory, touched: set<int>) {
    |mem| == |mem'| && forall f :: 0 <= f < |mem| && f !in touched ==> mem'[f] == mem[f]
  }

  class Machine {
    const lo: int
    var mem: Memory
    var freelist: int
    ghost var free: seq<int>

    ghost predicate Valid()
      reads this
    {
      Sized(mem) && FreeList(lo, mem, freelist, free)
    }

    /** `s` is in memory, and none of its frames is free. */
    ghost predicate Holds(s: Space)
      reads this
    {
      Tree(lo, mem, s) && SetOf(free) !! OwnedSet(s)
    }

    constructor (lo: int, mem: Memory)
      requires 0 < lo <= NFRAMES && Sized(mem)
      ensures Valid() && this.lo == lo && free == []
    {
      this.lo, this.mem, freelist, free := lo, mem, 0, [];
    }

    /** Put frame `f` on the free list; false stands for the panic. */
    method Kfree(f: int) returns (ok: bool)
      requires Valid() && f !in free
      modifies this
      ensures Valid() && (ok <==> InPool(lo, f))
      ensures ok ==> free == [f] + old(free) && Untouched(old(mem), mem, {f})
      ensures ok ==> SetOf(free) == SetOf(old(free)) + {f}
      ensures !ok ==> free == old(free) && mem == old(mem)
    {
      if !(0 < lo <= f < NFRAMES) {
        return false;
      }
      hide FreeList;
      var junk := seq(WORDS, k => 0x101_0101);
      FreeListPush(lo, mem, freelist, free, f, junk[0 := freelist]);
      mem := mem[f := junk];
      mem := mem[f := mem[f][0 := freelist]];
      freelist := f;
      free := [f] + free;
      return true;
    }

    /** Free the whole pages between two addresses; false stands for the panic. */
    method Freerange(start: int, end: int) returns (ok: bool)
      requires Valid() && 0 <= start
      requires forall f :: Ceil(start) <= f < end / PGSIZE ==> f !in SetOf(free)
      modifies this
      ensures Valid()
      ensures ok <==> forall f :: Ceil(start) <= f < end / PGSIZE ==> InPool(lo, f)
      ensures ok ==> forall f :: f in SetOf(free) <==> f in SetOf(old(free)) || Ceil(start) <= f < end / PGSIZE
    {
      hide FreeList;
      ok := true;
      var f := Ceil(start);
      while (f + 1) * PGSIZE <= end
        invariant Ceil(start) <= f && (f <= end / PGSIZE || f == Ceil(start)) && Valid() && ok
        invariant forall g :: Ceil(start) <= g < f ==> InPool(lo, g)
        invariant forall g :: g in SetOf(free) <==> g in SetOf(old(free)) || Ceil(start) <= g < f
      {
        assert f !in SetOf(free);
        ok := Kfree(f);
        if !ok {
          return;
        }
        f := f + 1;
      }
    }

    /** Take a frame off the free list, or return 0. */
    method Kalloc() returns (f: int)
      requires Valid()
      modifies `freelist, `free
      ensures Valid()
      ensures f == 0 <==> old(free) == []
      ensures f == 0 ==> free == old(free)
      ensures f != 0 ==> InPool(lo, f) && free == old(free)[1..] && f == old(free)[0]
      ensures f != 0 ==> f in SetOf(old(free)) && SetOf(free) == SetOf(old(free)) - {f}
    {
      f := freelist;
      if f != 0 {
        FreeListPop(lo, mem, freelist, free);
        freelist := mem[f][0];
        free := free[1..];
      }
    }

    /** The frame of the table for page `v`, made if need be and wanted; 0 if there is none. */
    method Walk(d: int, v: int, alloc: bool, ghost s: Space) returns (t: int, ghost s': Space)
      requires Valid() && Holds(s) && s.dir == d && IsPage(v)
      modifies this
      ensures Valid() && Holds(s') && s'.dir == d && s'.pages == s.pages
      ensures s'.tables == s.tables || (alloc && Pdx(v) !in s.tables && t != 0 && s'.tables == s.tables[Pdx(v) := t])
      ensures t != 0 <==> Pdx(v) in s'.tables
      ensures t != 0 ==> s'.tables[Pdx(v)] == t && 0 <= t < NFRAMES
      ensures t == 0 ==> s' == s && mem == old(mem) && free == old(free) && (alloc ==> free == [])
      ensures SetOf(free) + OwnedSet(s') == SetOf(old(free)) + OwnedSet(s)
      ensures SetOf(free) <= SetOf(old(free)) && TableSet(s') <= TableSet(s) + SetOf(old(free))
      ensures Untouched(old(mem), mem, SetOf(old(free)) + {d})
      ensures Pdx(v) in s.tables ==> mem == old(mem) && s' == s && free == old(free)
    {
      hide FreeList, Tables, Exclusive, Owns;
      s' := s;
      PoolFrames(lo, mem, s, v);
      var pde := mem[d][Pdx(v)];
      if Present(pde) {
        return Frame(pde), s;
      }
      if !alloc {
        return 0, s;
      }
      var f := Kalloc();
      if f == 0 {
        return 0, s;
      }
      ghost var mem0 := mem;
      AddTable(lo, mem, s, Pdx(v), f, Entry(f, 6));
      mem := mem[f := Zeros()];
      mem := mem[d := mem[d][Pdx(v) := Entry(f, 6)]];
      s' := s.(tables := s.tables[Pdx(v) := f]);
      FreeListFrame(lo, mem0, mem, freelist, free);
      t := f;
    }

    /** Write the entry of one unmapped page. */
    method SetEntry(t: int, v: int, e: int, ghost s: Space) returns (ghost s': Space)
      requires Valid() && Holds(s) && IsPage(v) && Pdx(v) in s.tables && s.tables[Pdx(v)] == t && v !in s.pages
      requires Present(e) && Fresh(lo, s, v, e) && (IsUser(v) ==> Frame(e) !in SetOf(free))
      modifies `mem
      ensures Valid() && Holds(s') && s' == s.(pages := s.pages[v := e])
      ensures OwnedSet(s') == OwnedSet(s) + (if IsUser(v) then {Frame(e)} else {})
      ensures Untouched(old(mem), mem, TableSet(s))
    {
      hide FreeList, Tables, Directory, Exclusive, Owns;
      PoolFrames(lo, mem, s, v);
      MapPage(lo, mem, s, v, e);
      s' := s.(pages := s.pages[v := e]);
      ghost var mem0 := mem;
      mem := mem[t := mem[t][Ptx(v) := e]];
      FreeListFrame(lo, mem0, mem, freelist, free);
    }

    /** The loop body of `mappages`: map one page; -1 when there is no memory for a table, and
        -2 for the panic "remap". */
    method MapOne(d: int, v: int, e: int, ghost s: Space) returns (rc: int, ghost s': Space)
      requires Valid() && Holds(s) && s.dir == d && IsPage(v) && Present(e)
      requires Fresh(lo, s, v, e) && (IsUser(v) ==> Frame(e) !in SetOf(free))
      modifies this
      ensures Valid() && Holds(s') && s'.dir == d
      ensures rc == 0 || rc == -1 || rc == -2
      ensures rc == -2 <==> v in s.pages
      ensures forall i :: i in s'.tables ==> i in s.tables || i == Pdx(v)
      ensures rc == -1 ==> free == [] && free == old(free) && s' == s && mem == old(mem)
      ensures rc == -2 ==> free == old(free) && s' == s && mem == old(mem)
      ensures rc == 0 ==> s'.pages == s.pages[v := e]
      ensures SetOf(free) <= SetOf(old(free)) && OwnedSet(s) <= OwnedSet(s') && TableSet(s') <= TableSet(s) + SetOf(old(free))
      ensures rc == 0 ==> SetOf(free) + OwnedSet(s') == SetOf(old(free)) + OwnedSet(s) + (if IsUser(v) then {Frame(e)} else {})
      ensures Untouched(old(mem), mem, SetOf(old(free)) + TableSet(s))
    {
      hide FreeList, Tree, Owns, OwnedSet;
      var t;
      PoolFrames(lo, mem, s, v);
      PageMapped(lo, mem, s, v);
      t, s' := Walk(d, v, true, s);
      if t == 0 {
        return -1, s';
      }
      PageMapped(lo, mem, s', v);
      if Present(mem[t][Ptx(v)]) {
        return -2, s';
      }
      ghost var s1 := s';
      s' := SetEntry(t, v, e, s1);
      return 0, s';
    }

    /** Map the pages of `size` bytes at `va` to consecutive frames from that of `pa` on. The
        frames mapped below the kernel must be nobody's. -1 when there is no memory for a table,
        and -2 for the panic "remap", when a page is mapped. */
    method Mappages(d: int, va: int, size: int, pa: int, perm: int, ghost s: Space) returns (rc: int, ghost s': Space)
      requires Valid() && Holds(s) && s.dir == d && 0 <= perm < PGSIZE
      requires 0 <= va < UINT && 0 < size && va + size <= UINT && 0 <= pa && pa % PGSIZE == 0
      requires forall v :: First(va) <= v <= Last(va, size) && IsUser(v) ==>
                 var f := Frame(pa) + v - First(va); InPool(lo, f) && !Owns(s, f) && f !in SetOf(free)
      modifies this
      ensures Valid() && Holds(s') && s'.dir == d
      ensures rc == 0 || (rc == -1 && free == []) || rc == -2
      ensures rc == -2 ==> exists v :: First(va) <= v <= Last(va, size) && v in s.pages
      ensures rc == 0 ==> forall v :: First(va) <= v <= Last(va, size) ==> v !in s.pages
      ensures rc == 0 ==> s'.pages == s.pages + Range(First(va), Last(va, size) + 1 - First(va), Frame(pa), perm)
      ensures rc == 0 ==> MapsRange(s'.pages, va, size, pa, perm)
      ensures SetOf(free) <= SetOf(old(free))
      ensures rc == 0 ==> SetOf(free) + OwnedSet(s') ==
                          SetOf(old(free)) + OwnedSet(s) + UserFrames(First(va), Last(va, size) + 1 - First(va), Frame(pa))
      ensures OwnedSet(s') <= SetOf(old(free)) + OwnedSet(s) + UserFrames(First(va), Last(va, size) + 1 - First(va), Frame(pa))
      ensures TableSet(s') <= TableSet(s) + SetOf(old(free)) && Untouched(old(mem), mem, SetOf(old(free)) + TableSet(s))
    {
      hide FreeList, Tree, Owns, First, Last, Entry, Frame, Present, OwnedSet, TableSet, SetOf, Range, UserFrames, MapsRange;
      var a, last, f := First(va), Last(va, size), Frame(pa);
      RangeIsPages(va, size);
      s' := s;
      ghost var n := 0;
      RangeStart(First(va), Frame(pa), perm);
      while true
        invariant 0 <= n <= last - First(va) && a == First(va) + n && f == Frame(pa) + n && a <= last
        invariant Valid() && Holds(s') && s'.dir == d
        invariant s'.pages == s.pages + Range(First(va), n, Frame(pa), perm)
        invariant forall v :: First(va) <= v < First(va) + n ==> v !in s.pages
        invariant SetOf(free) <= SetOf(old(free)) && OwnedSet(s) <= OwnedSet(s')
        invariant SetOf(free) + OwnedSet(s') == SetOf(old(free)) + OwnedSet(s) + UserFrames(First(va), n, Frame(pa))
        invariant TableSet(s') <= TableSet(s) + SetOf(old(free)) && Untouched(old(mem), mem, SetOf(old(free)) + TableSet(s))
        decreases last - a
      {
        UserFramesBound(First(va), n, Frame(pa), f);
        RangeAt(First(va), n, Frame(pa), perm, a);
        RangeStep(First(va), n, Frame(pa), perm);
        rc, s' := MapOne(d, a, Entry(f, perm), s');
        if rc != 0 {
          UserFramesGrow(First(va), n, last + 1 - First(va), Frame(pa));
          return rc, s';
        }
        n := n + 1;
        if a == last {
          break;
        }
        a := a + 1;
        f := f + 1;
      }
      RangeMaps(s.pages, va, size, pa, perm);
      return 0, s';
    }

    /** A new page directory with the kernel's mappings and nothing else; 0 when memory runs
        out. `data` is the frame where the kernel's writable data starts. */
    method Setupkvm(data: int) returns (d: int, ghost s: Space)
      requires Valid() && KernelLayout(data)
      modifies this
      ensures Valid() && d >= 0
      ensures d != 0 ==> Holds(s) && s.dir == d && s.pages == KernelPages(data, 4)
      ensures d != 0 ==> KernelMapped(data, s.pages)
      ensures d != 0 ==> SetOf(free) + OwnedSet(s) == SetOf(old(free))
      ensures SetOf(free) <= SetOf(old(free)) && Untouched(old(mem), mem, SetOf(old(free)))
    {
      hide FreeList, Tree, Owns, OwnedSet, TableSet, SetOf, KernelPages, Range, UserFrames, Entry, Frame, Zeros, KernelMapped, MapsRange;
      KernelPagesAre(data);
      s := Space(0, map[], map[]);
      d := Kalloc();
      if d == 0 {
        return;
      }
      ghost var mem0 := mem;
      mem := mem[d := Zeros()];
      s := Space(d, map[], map[]);
      NewDirectory(lo, mem0, freelist, free, d);
      KernelPagesStart(data);
      var k := 0;
      while k < 4
        invariant 0 <= k <= 4 && Valid() && Holds(s) && s.dir == d
        invariant s.pages == KernelPages(data, k)
        invariant SetOf(free) + OwnedSet(s) == SetOf(old(free))
        invariant TableSet(s) <= SetOf(old(free)) && SetOf(free) <= SetOf(old(free)) && Untouched(old(mem), mem, SetOf(old(free)))
      {
        var m := Kmap(data, k);
        KmapRange(data, k);
        KernelPagesStep(data, k);
        var rc;
        rc, s := Mappages(d, m.virt, m.size, m.phys, m.perm, s);
        if rc < 0 {
          return 0, s;
        }
        k := k + 1;
      }
    }

    /** The loop body of `deallocuvm`: look at page `v`, and give the page to look at next. */
    method FreePage(d: int, v: int, ghost s: Space) returns (next: int, ghost s': Space)
      requires Valid() && Holds(s) && s.dir == d && IsUser(v)
      modifies this
      ensures Valid() && Holds(s') && s'.dir == s.dir && s'.tables == s.tables && s'.pages == s.pages - {v}
      ensures next == if Pdx(v) in s.tables then v + 1 else v + WORDS
      ensures SetOf(free) + OwnedSet(s') == SetOf(old(free)) + OwnedSet(s) && OwnedSet(s') <= OwnedSet(s)
      ensures Untouched(old(mem), mem, OwnedSet(s))
    {
      hide FreeList, Tree, Owns, OwnedSet, Frame, Present;
      s' := s;
      var t;
      ghost var s0;
      t, s0 := Walk(d, v, false, s);
      UserPage(lo, mem, s, v);
      PoolFrames(lo, mem, s, v);
      if t == 0 {
        return v + WORDS, s;
      }
      var e := mem[t][Ptx(v)];
      if Present(e) {
        ghost var mem0 := mem;
        var ok := Kfree(Frame(e));
        assert ok;
        TreeFrameExcept(lo, mem0, mem, s, v);
        UnmapPage(lo, mem, s, v);
        ghost var mem1 := mem;
        mem := mem[t := mem[t][Ptx(v) := 0]];
        s' := s.(pages := s.pages - {v});
        FreeListFrame(lo, mem1, mem, freelist, free);
      }
      next := v + 1;
    }

    /** Free the user pages from `newsz` up to `oldsz`: exactly those that the walk reaches. */
    method Deallocuvm(d: int, oldsz: int, newsz: int, ghost s: Space) returns (r: int, ghost s': Space)
      requires Valid() && Holds(s) && s.dir == d && 0 <= newsz && 0 <= oldsz <= KERNBASE
      modifies this
      ensures Valid() && Holds(s') && s'.dir == s.dir && s'.tables == s.tables
      ensures r == if newsz >= oldsz then oldsz else newsz
      ensures s'.pages == if newsz >= oldsz then s.pages else Kept(s, Ceil(newsz), Ceil(oldsz))
      ensures Complete(s, Ceil(newsz), Ceil(oldsz)) ==> forall v :: Ceil(newsz) <= v < Ceil(oldsz) ==> v !in s'.pages
      ensures forall n :: Contiguous(s, n) && newsz < oldsz ==>
                forall v :: IsUser(v) ==> (v in s'.pages <==> v < n && !(Ceil(newsz) <= v < Ceil(oldsz)))
      ensures SetOf(free) + OwnedSet(s') == SetOf(old(free)) + OwnedSet(s) && OwnedSet(s') <= OwnedSet(s)
      ensures Untouched(old(mem), mem, OwnedSet(s))
    {
      hide FreeList, Tree, Owns, OwnedSet, SetOf, Kept, Complete, Contiguous;
      s' := s;
      TreePages(lo, mem, s);
      if newsz >= oldsz {
        CeilAbove(newsz, oldsz);
        return oldsz, s;
      }
      var a := Ceil(newsz);
      KeptStart(s, a);
      while a * PGSIZE < oldsz
        invariant Ceil(newsz) <= a
        invariant Valid() && Holds(s') && s'.dir == s.dir && s'.tables == s.tables
        invariant s'.pages == Kept(s, Ceil(newsz), if a < Ceil(oldsz) then a else Ceil(oldsz))
        invariant SetOf(free) + OwnedSet(s') == SetOf(old(free)) + OwnedSet(s) && OwnedSet(s') <= OwnedSet(s)
        invariant Untouched(old(mem), mem, OwnedSet(s))
        invariant forall v :: a <= v ==> (Reached(s, Ceil(newsz), v) <==> Reached(s, a, v))
        decreases oldsz - a
      {
        ghost var a0 := a;
        a, s' := FreePage(d, a, s');
        ReachedStep(s, a0);
        KeptStep(s, Ceil(newsz), a0, Ceil(oldsz));
      }
      CeilBelow(newsz, oldsz);
      if Complete(s, Ceil(newsz), Ceil(oldsz)) {
        KeptComplete(s, Ceil(newsz), Ceil(oldsz));
      }
      forall n | Contiguous(s, n)
        ensures forall v :: IsUser(v) ==> (v in s'.pages <==> v < n && !(Ceil(newsz) <= v < Ceil(oldsz)))
      {
        KeptContiguous(s, n, Ceil(newsz), Ceil(oldsz));
      }
      return newsz, s';
    }

    /** Free the tables, and then the directory, of a space without user pages. */
    method FreeTables(d: int, ghost s: Space) returns (ok: bool)
      requires Valid() && Holds(s) && s.dir == d && (forall v :: v in s.pages ==> !IsUser(v))
      modifies this
      ensures Valid() && ok
      ensures SetOf(free) == SetOf(old(free)) + OwnedSet(s)
      ensures Untouched(old(mem), mem, OwnedSet(s))
    {
      hide FreeList, Owns, OwnedSet, TableSet, TablesBelow, Frame, Present, Tables, Exclusive;
      NoUserPages(s);
      TablesBelowStart(lo, mem, s);
      ghost var dir := mem[d];
      var i := 0;
      while i < WORDS
        invariant 0 <= i <= WORDS && Valid() && mem[d] == dir
        invariant SetOf(free) == SetOf(old(free)) + TablesBelow(s, i)
        invariant Untouched(old(mem), mem, OwnedSet(s))
      {
        TablesBelowStep(lo, old(mem), s, i);
        var pde := mem[d][i];
        if Present(pde) {
          assert Frame(pde) !in SetOf(free);
          ok := Kfree(Frame(pde));
          assert ok;
        }
        i := i + 1;
      }
      ok := Kfree(d);
    }

    /** Give back every frame of a space. */
    method Freevm(d: int, ghost s: Space) returns (ok: bool)
      requires Valid() && Holds(s) && s.dir == d
      modifies this
      ensures Valid() && ok
      ensures SetOf(free) == SetOf(old(free)) + OwnedSet(s)
      ensures Untouched(old(mem), mem, OwnedSet(s))
    {
      hide FreeList, Tree, Owns, OwnedSet, SetOf, Kept;
      var sz;
      ghost var s';
      sz, s' := Deallocuvm(d, KERNBASE, 0, s);
      KeptNone(s);
      ok := FreeTables(d, s');
    }

    /** Copy one user page of `p` to the space `c`; -1 when memory runs out, and -2 for the panic
        when the page is not there. */
    method CopyPage(pd: int, d: int, v: int, ghost p: Space, ghost c: Space) returns (rc: int, ghost c': Space)
      requires Valid() && Holds(p) && Holds(c) && p.dir == pd && c.dir == d && OwnedSet(p) !! OwnedSet(c)
      requires IsUser(v) && v !in c.pages
      modifies this
      ensures Valid() && Holds(p) && Holds(c') && c'.dir == d
      ensures OwnedSet(c') <= OwnedSet(c) + SetOf(old(free)) && SetOf(free) <= SetOf(old(free))
      ensures Untouched(old(mem), mem, SetOf(old(free)) + TableSet(c)) && TableSet(c') <= TableSet(c) + SetOf(old(free))
      ensures (rc == 0 || rc == -1 || rc == -2) && (rc == -2 <==> v !in p.pages)
      ensures rc == 0 ==> v in c'.pages && c'.pages == c.pages[v := c'.pages[v]] && Copy(old(mem), mem, p.pages[v], c'.pages[v])
      ensures rc == 0 ==> Frame(c'.pages[v]) in SetOf(old(free))
      ensures rc == 0 ==> SetOf(free) + OwnedSet(c') == SetOf(old(free)) + OwnedSet(c)
    {
      hide FreeList, Tree, Owns, OwnedSet, TableSet, Frame, Flags, Present, Entry, Range, UserFrames;
      var t;
      ghost var p0;
      c' := c;
      t, p0 := Walk(pd, v, false, p);
      UserPage(lo, mem, p, v);
      if t == 0 {
        return -2, c;
      }
      var e := mem[t][Ptx(v)];
      if !Present(e) {
        return -2, c;
      }
      var f := Kalloc();
      if f == 0 {
        return -1, c;
      }
      ghost var mem0 := mem;
      mem := mem[f := mem[Frame(e)]];
      FreeListFrame(lo, mem0, mem, freelist, free);
      TreeApart(lo, mem0, mem, p, {f});
      TreeApart(lo, mem0, mem, c, {f});
      OnePage(v, f, Flags(e));
      ghost var mem1, touched := mem, SetOf(free) + TableSet(c);
      rc, c' := Mappages(d, v * PGSIZE, PGSIZE, f * PGSIZE, Flags(e), c);
      TreeApart(lo, mem1, mem, p, touched);
    }

    /** The copy of an address space up to `sz`; 0 when memory runs out, and -1 for the panic when
        a page below `sz` is missing. */
    method Copyuvm(pd: int, sz: int, data: int, ghost p: Space) returns (d: int, ghost c: Space)
      requires Valid() && Holds(p) && p.dir == pd && KernelLayout(data) && 0 <= sz <= KERNBASE
      modifies this
      ensures Valid() && Holds(p)
      ensures Untouched(old(mem), mem, SetOf(old(free))) && SetOf(free) <= SetOf(old(free))
      ensures d >= -1 && (d == -1 ==> exists v :: 0 <= v < Ceil(sz) && v !in p.pages)
      ensures d > 0 ==> Holds(c) && c.dir == d && KernelPart(data, c)
      ensures d > 0 ==> Copied(old(mem), mem, p, c, Ceil(sz))
      ensures d > 0 ==> SetOf(free) + OwnedSet(c) == SetOf(old(free)) && OwnedSet(c) !! OwnedSet(p)
    {
      hide FreeList, Tree, Owns, OwnedSet, TableSet, SetOf, Copied, KernelPart, KernelPages;
      d, c := Setupkvm(data);
      TreeApart(lo, old(mem), mem, p, SetOf(old(free)));
      if d == 0 {
        return;
      }
      NewCopy(old(mem), mem, p, c, data);
      var i := 0;
      while i * PGSIZE < sz
        invariant 0 <= i <= Ceil(sz) && Valid() && Holds(p) && Holds(c) && c.dir == d > 0
        invariant KernelPart(data, c) && Copied(old(mem), mem, p, c, i)
        invariant SetOf(free) + OwnedSet(c) == SetOf(old(free)) && TableSet(c) <= SetOf(old(free))
        invariant Untouched(old(mem), mem, SetOf(old(free))) && OwnedSet(c) !! OwnedSet(p)
      {
        ghost var mem0, c0, touched := mem, c, SetOf(free) + TableSet(c);
        NotCopiedYet(old(mem), mem, p, c, i);
        UserFrameApart(lo, mem, c, SetOf(free));
        UserPage(lo, mem, p, i);
        var rc;
        rc, c := CopyPage(pd, d, i, p, c);
        if rc == -2 {
          return -1, c;
        }
        if rc < 0 {
          var ok := Freevm(d, c);
          TreeApart(lo, old(mem), mem, p, SetOf(old(free)));
          return 0, c;
        }
        CopiedStep(old(mem), mem0, mem, p, c0, c, i, touched);
        KernelPartStep(data, c0, c, i);
        i := i + 1;
      }
    }

    /** Freeing a copy gives back exactly the frames that making it took. */
    method CopyAndFree(pd: int, sz: int, data: int, ghost p: Space) returns (d: int)
      requires Valid() && Holds(p) && p.dir == pd && KernelLayout(data) && 0 <= sz <= KERNBASE
      modifies this
      ensures Valid() && Holds(p)
      ensures d > 0 ==> SetOf(free) == SetOf(old(free))
      ensures Untouched(old(mem), mem, SetOf(old(free)))
    {
      hide FreeList, Tree, Owns, OwnedSet, TableSet, SetOf, Copied, KernelPart;
      ghost var c;
      d, c := Copyuvm(pd, sz, data, p);
      if d > 0 {
        var ok := Freevm(d, c);
        TreeApart(lo, old(mem), mem, p, SetOf(old(free)));
      }
    }
  }

  /** A machine with a mapped page that `deallocuvm` down to one page leaves behind: the walk
      starts in the middle of the first table's range, which has no table. */
  method MissedPage() returns (m: Machine, d: int, ghost s: Space)
    ensures fresh(m) && m.Valid() && m.Holds(s) && s.dir == d
    ensures WORDS in s.pages && WORDS in Kept(s, Ceil(PGSIZE), Ceil(KERNBASE))
  {
    hide FreeList, Tree, Owns, OwnedSet, TableSet, Entry, Frame, Present;
    m := new Machine(1, seq(NFRAMES, f => Zeros()));
    var ok := m.Kfree(1);
    ok := m.Kfree(2);
    ok := m.Kfree(3);
    d := m.Kalloc();
    var f := m.Kalloc();
    NewDirectory(m.lo, m.mem, m.freelist, m.free, d);
    m.mem := m.mem[d := Zeros()];
    s := Space(d, map[], map[]);
    NotOwned(s, f);
    var rc;
    rc, s := m.MapOne(d, WORDS, Entry(f, 7), s);
    OneTable(s);
  }

  lemma NotOwned(s: Space, f: int)
    requires s.tables == map[] && s.pages == map[] && f != s.dir
    ensures !Owns(s, f)
  {}

  lemma OneTable(s: Space)
    requires WORDS in s.pages && forall i :: i in s.tables ==> i == 1
    ensures WORDS in Kept(s, Ceil(PGSIZE), Ceil(KERNBASE))
  {
    assert Ceil(PGSIZE) == 1 && Ptx(1) == 1 && Pdx(1) == 0 && Ptx(WORDS) == 0 && Pdx(WORDS) == 1;
    assert !Reached(s, 1, WORDS);
  }
}
