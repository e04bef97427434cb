/** The user-level allocator: a circular, address-ordered, coalescing free list.

    Addresses count units of one `Header` (8 bytes). A block is a header followed by its
    payload; the address handed to the caller is the header's address plus one. The static
    `base` header has size 0 and lies below the heap. */
module Malloc {

  const SIZEOF_HEADER: int := 8
  const MORECORE_UNITS: int := 4096
  const NULL: int := 0
  const BASE: int := 1

  // ---------------------------------------------------------------- requests, in units

  const UINT: int := 0x1_0000_0000

  /** The number of units `malloc` looks for, in 32-bit arithmetic. */
  function Units(nbytes: nat): nat {
    (nbytes + SIZEOF_HEADER - 1) % UINT / SIZEOF_HEADER + 1
  }

  /** A block of `Units(nbytes)` units holds `nbytes` bytes after its header exactly when
      the rounding does not wrap; the last seven 32-bit sizes get a block with no payload. */
  lemma UnitsHoldRequest(nbytes: nat)
    requires nbytes < UINT
    ensures (Units(nbytes) - 1) * SIZEOF_HEADER >= nbytes <==> nbytes <= UINT - SIZEOF_HEADER
    ensures nbytes > UINT - SIZEOF_HEADER ==> Units(nbytes) == 1
    ensures nbytes <= UINT - SIZEOF_HEADER ==> (Units(nbytes) - 1) * SIZEOF_HEADER < nbytes + SIZEOF_HEADER
  {
    var sum := nbytes + SIZEOF_HEADER - 1;
    if nbytes <= UINT - SIZEOF_HEADER {
      assert sum % UINT == sum;
    } else {
      assert sum % UINT == sum - UINT;
    }
  }

  // ---------------------------------------------------------------- blocks tile the heap

  ghost predicate Apart(a: int, n: int, b: int, m: int) {
    a + n <= b || b + m <= a
  }

  ghost predicate Covered(blocks: map<int, int>, u: int) {
    exists a :: a in blocks && a <= u < a + blocks[a]
  }

  /** The blocks, free and live, are disjoint and together hold exactly the units of `arena`. */
  ghost predicate Tiling(blocks: map<int, int>, arena: set<int>) {
    && (forall a :: a in blocks ==> BASE < a && blocks[a] > 0)
    && (forall a, b :: a in blocks && b in blocks && a != b ==> Apart(a, blocks[a], b, blocks[b]))
    && (forall u: int :: u in arena <==> Covered(blocks, u))
  }

  ghost predicate Touching(blocks: map<int, int>, a: int, b: int) {
    a in blocks && b in blocks && a + blocks[a] == b
  }

  ghost function Merged(blocks: map<int, int>, a: int, b: int): map<int, int>
    requires a in blocks && b in blocks
  {
    (blocks - {b})[a := blocks[a] + blocks[b]]
  }

  ghost function Split(blocks: map<int, int>, a: int, n: int): map<int, int>
    requires a in blocks && n < blocks[a]
  {
    blocks[a := blocks[a] - n][a + blocks[a] - n := n]
  }

  ghost function Interval(a: int, n: nat): (units: set<int>)
    ensures forall u :: u in units <==> a <= u < a + n
  {
    if n == 0 then {} else Interval(a, n - 1) + {a + n - 1}
  }

  lemma MergedTiles(blocks: map<int, int>, arena: set<int>, a: int, b: int)
    requires Tiling(blocks, arena) && Touching(blocks, a, b)
    ensures Tiling(Merged(blocks, a, b), arena)
  {
    assert a != b && blocks[a] > 0 && blocks[b] > 0;
    forall u: int ensures Covered(Merged(blocks, a, b), u) <==> Covered(blocks, u) {
      MergedCovers(blocks, a, b, u);
    }
  }

  lemma MergedCovers(blocks: map<int, int>, a: int, b: int, u: int)
    requires Touching(blocks, a, b) && a != b && blocks[a] > 0 && blocks[b] > 0
    ensures Covered(Merged(blocks, a, b), u) <==> Covered(blocks, u)
  {
    var blocks' := Merged(blocks, a, b);
    if Covered(blocks, u) {
      var c :| c in blocks && c <= u < c + blocks[c];
      var d := if c == b then a else c;
      assert d in blocks' && d <= u < d + blocks'[d];
    }
    if Covered(blocks', u) {
      var c :| c in blocks' && c <= u < c + blocks'[c];
      var d := if c == a && b <= u then b else c;
      assert d in blocks && d <= u < d + blocks[d];
    }
  }

  lemma SplitTiles(blocks: map<int, int>, arena: set<int>, a: int, n: int)
    requires Tiling(blocks, arena) && a in blocks && 0 < n < blocks[a]
    ensures a + blocks[a] - n !in blocks
    ensures Tiling(Split(blocks, a, n), arena)
  {
    var blocks' := Split(blocks, a, n);
    var top := a + blocks[a] - n;
    assert top !in blocks;
    forall u: int ensures Covered(blocks', u) <==> Covered(blocks, u) {
      SplitCovers(blocks, a, n, u);
    }
  }

  lemma SplitCovers(blocks: map<int, int>, a: int, n: int, u: int)
    requires a in blocks && 0 < n < blocks[a] && a + blocks[a] - n !in blocks
    ensures Covered(Split(blocks, a, n), u) <==> Covered(blocks, u)
  {
    var blocks', top := Split(blocks, a, n), a + blocks[a] - n;
    if Covered(blocks, u) {
      var c :| c in blocks && c <= u < c + blocks[c];
      var d := if c == a && top <= u then top else c;
      assert d in blocks' && d <= u < d + blocks'[d];
    }
    if Covered(blocks', u) {
      var c :| c in blocks' && c <= u < c + blocks'[c];
      var d := if c == top then a else c;
      assert d in blocks && d <= u < d + blocks[d];
    }
  }

  lemma GrownTiles(blocks: map<int, int>, arena: set<int>, a: int, n: nat)
    requires Tiling(blocks, arena) && BASE < a && 0 < n
    requires forall u :: u in arena ==> u < a
    ensures a !in blocks
    ensures Tiling(blocks[a := n], arena + Interval(a, n))
  {
    var blocks' := blocks[a := n];
    forall c | c in blocks ensures c + blocks[c] <= a {
      assert Covered(blocks, c + blocks[c] - 1);
    }
    forall u: int ensures Covered(blocks', u) <==> Covered(blocks, u) || a <= u < a + n {
      if Covered(blocks, u) {
        var c :| c in blocks && c <= u < c + blocks[c];
        assert c in blocks' && c <= u < c + blocks'[c];
      }
      if a <= u < a + n {
        assert a in blocks' && a <= u < a + blocks'[a];
      }
    }
  }

  // ---------------------------------------------------------------- the ring

  ghost predicate Increasing(ring: seq<int>) {
    forall i, j :: 0 <= i < j < |ring| ==> ring[i] < ring[j]
  }

  /** The ring in increasing address order: `BASE`, then the free blocks. */
  ghost predicate Ring(ring: seq<int>, free: set<int>) {
    && |ring| > 0 && ring[0] == BASE
    && Increasing(ring)
    && BASE !in free
    && (forall a :: a in ring <==> a == BASE || a in free)
  }

  ghost predicate Gap(ring: seq<int>, blocks: map<int, int>, i: nat) {
    i + 1 < |ring| ==> !Touching(blocks, ring[i], ring[i + 1])
  }

  ghost predicate GapsBut(ring: seq<int>, blocks: map<int, int>, hole: int) {
    forall i :: 0 <= i < |ring| && i != hole ==> Gap(ring, blocks, i)
  }

  /** No free block ends where the next one starts. */
  ghost predicate Coalesced(ring: seq<int>, blocks: map<int, int>) {
    GapsBut(ring, blocks, -1)
  }

  ghost function Next(ring: seq<int>, k: nat): int
    requires k < |ring|
  {
    ring[if k + 1 == |ring| then 0 else k + 1]
  }

  ghost predicate Linked(ptr: map<int, int>, ring: seq<int>) {
    && (forall i :: 0 <= i < |ring| ==> ring[i] in ptr)
    && (forall i {:trigger ptr[ring[i]]} :: 0 <= i < |ring| ==> ptr[ring[i]] == Next(ring, i))
  }

  /** `ring[k]` is the last ring element below `bp`. */
  ghost predicate Precedes(ring: seq<int>, k: nat, bp: int) {
    k < |ring| && ring[k] < bp && (k + 1 < |ring| ==> bp < ring[k + 1])
  }

  ghost function Inserted(ring: seq<int>, k: nat, bp: int): seq<int>
    requires k < |ring|
  {
    ring[..k + 1] + [bp] + ring[k + 1..]
  }

  ghost function Removed(ring: seq<int>, k: nat): seq<int>
    requires k < |ring|
  {
    ring[..k] + ring[k + 1..]
  }

  lemma InsertedRing(ring: seq<int>, free: set<int>, k: nat, bp: int)
    requires Ring(ring, free) && Precedes(ring, k, bp)
    ensures Ring(Inserted(ring, k, bp), free + {bp})
  {
    hide Inserted;
    var ring' := Inserted(ring, k, bp);
    InsertedSize(ring, k, bp);
    InsertedMembers(ring, k, bp);
    InsertedNext(ring, k, bp, 0);
    forall i, j | 0 <= i < j < |ring'| ensures ring'[i] < ring'[j] {
      InsertedNext(ring, k, bp, i);
      InsertedNext(ring, k, bp, j);
    }
  }

  lemma InsertedMembers(ring: seq<int>, k: nat, bp: int)
    requires k < |ring|
    ensures forall a :: a in Inserted(ring, k, bp) <==> a in ring || a == bp
  {
    assert ring == ring[..k + 1] + ring[k + 1..];
  }

  lemma InsertedNext(ring: seq<int>, k: nat, bp: int, i: nat)
    requires k < |ring| && i <= |ring|
    ensures var ring' := Inserted(ring, k, bp);
            && ring'[i] == (if i <= k then ring[i] else if i == k + 1 then bp else ring[i - 1])
            && Next(ring', i) == (if i < k then Next(ring, i) else if i == k then bp else Next(ring, i - 1))
  {}

  lemma InsertedLinks(ptr: map<int, int>, ring: seq<int>, free: set<int>, k: nat, bp: int)
    requires Ring(ring, free) && Linked(ptr, ring) && Precedes(ring, k, bp)
    ensures Linked(ptr[bp := ptr[ring[k]]][ring[k] := bp], Inserted(ring, k, bp))
  {
    hide Inserted, Next, Ring;
    var ring' := Inserted(ring, k, bp);
    var ptr' := ptr[bp := ptr[ring[k]]][ring[k] := bp];
    InsertedSize(ring, k, bp);
    forall i | 0 <= i < |ring'| ensures ring'[i] in ptr' && ptr'[ring'[i]] == Next(ring', i) {
      InsertedNext(ring, k, bp, i);
      if i != k + 1 {
        var j := if i <= k then i else i - 1;
        RingDistinct(ring, free, k, bp, j);
        LinkAt(ptr, ring, j);
      } else {
        LinkAt(ptr, ring, k);
      }
    }
  }

  lemma InsertedSize(ring: seq<int>, k: nat, bp: int)
    requires k < |ring|
    ensures |Inserted(ring, k, bp)| == |ring| + 1
  {}

  lemma RingDistinct(ring: seq<int>, free: set<int>, k: nat, bp: int, j: nat)
    requires Ring(ring, free) && Precedes(ring, k, bp) && j < |ring|
    ensures ring[j] != bp && (j != k ==> ring[j] != ring[k])
  {}

  lemma LinkAt(ptr: map<int, int>, ring: seq<int>, i: nat)
    requires Linked(ptr, ring) && i < |ring|
    ensures ring[i] in ptr && ptr[ring[i]] == Next(ring, i)
  {}

  lemma RemovedRing(ring: seq<int>, free: set<int>, k: nat)
    requires Ring(ring, free) && 1 <= k < |ring|
    ensures Ring(Removed(ring, k), free - {ring[k]})
  {
    var ring' := Removed(ring, k);
    forall a ensures a in ring' <==> a in ring && a != ring[k] {
      if a in ring && a != ring[k] {
        var i :| 0 <= i < |ring| && ring[i] == a;
        assert ring'[if i < k then i else i - 1] == a;
      }
      if a in ring' {
        var i :| 0 <= i < |ring'| && ring'[i] == a;
        assert ring[if i < k then i else i + 1] == a;
      }
    }
  }

  lemma RemovedNext(ring: seq<int>, k: nat, i: nat)
    requires 1 <= k < |ring| && i < |ring| - 1
    ensures var ring' := Removed(ring, k);
            && ring'[i] == (if i < k then ring[i] else ring[i + 1])
            && Next(ring', i) == (if i < k - 1 then Next(ring, i) else Next(ring, i + 1))
  {}

  lemma RemovedLinks(ptr: map<int, int>, ring: seq<int>, free: set<int>, k: nat)
    requires Ring(ring, free) && Linked(ptr, ring) && 1 <= k < |ring|
    ensures Linked(ptr[ring[k - 1] := ptr[ring[k]]], Removed(ring, k))
  {
    var ring' := Removed(ring, k);
    var ptr' := ptr[ring[k - 1] := ptr[ring[k]]];
    forall i | 0 <= i < |ring'| ensures ring'[i] in ptr' && ptr'[ring'[i]] == Next(ring', i) {
      hide Removed, Next;
      RemovedNext(ring, k, i);
      assert i < k ==> ptr[ring[i]] == Next(ring, i);
      assert ptr[ring[i + 1]] == Next(ring, i + 1);
    }
  }

  // ---------------------------------------------------------------- freeing a block

  /** `bp` goes behind `ring[k]`; it swallows the next element when `up`, and `ring[k]`
      swallows it when `low`. */
  ghost function FreedRing(ring: seq<int>, k: nat, bp: int, up: bool, low: bool): seq<int>
    requires k < |ring| && (up ==> k + 1 < |ring|)
  {
    var ring1 := Inserted(ring, k, bp);
    var ring2 := if up then Removed(ring1, k + 2) else ring1;
    if low then Removed(ring2, k + 1) else ring2
  }

  ghost function FreedBlocks(blocks: map<int, int>, p: int, bp: int, next: int, up: bool, low: bool): map<int, int>
    requires bp in blocks && (up ==> next in blocks && next != p) && (low ==> p in blocks)
  {
    var blocks1 := if up then Merged(blocks, bp, next) else blocks;
    if low then Merged(blocks1, p, bp) else blocks1
  }

  function FreedPtr(ptr: map<int, int>, p: int, bp: int, up: bool, low: bool): map<int, int>
    requires p in ptr && ptr[p] in ptr
  {
    var above := if up then ptr[ptr[p]] else ptr[p];
    ptr[bp := above][p := if low then above else bp]
  }

  function FreedSize(size: map<int, int>, p: int, bp: int, next: int, up: bool, low: bool): map<int, int>
    requires p in size && bp in size && next in size
  {
    var size1 := if up then size[bp := size[bp] + size[next]] else size;
    if low then size1[p := size1[p] + size1[bp]] else size1
  }

  lemma FreedAt(ring: seq<int>, k: nat, bp: int, up: bool)
    requires k < |ring| && (up ==> k + 1 < |ring|)
    ensures var ring1 := Inserted(ring, k, bp);
            && |ring1| == |ring| + 1 && ring1[k] == ring[k] && ring1[k + 1] == bp
            && (up ==> ring1[k + 2] == ring[k + 1]
                       && |Removed(ring1, k + 2)| == |ring|
                       && Removed(ring1, k + 2)[k] == ring[k] && Removed(ring1, k + 2)[k + 1] == bp)
  {}

  lemma FreedRingIsRing(ring: seq<int>, free: set<int>, k: nat, bp: int, up: bool, low: bool)
    requires Ring(ring, free) && Precedes(ring, k, bp) && (up ==> k + 1 < |ring|)
    ensures Ring(FreedRing(ring, k, bp, up, low),
                 free + {bp} - (if up then {ring[k + 1]} else {}) - (if low then {bp} else {}))
  {
    hide Ring, Inserted, Removed;
    FreedAt(ring, k, bp, up);
    InsertedRing(ring, free, k, bp);
    var ring1, free1 := Inserted(ring, k, bp), free + {bp};
    var ring2, free2 := ring1, free1 - {};
    assert free2 == free1;
    if up {
      RemovedRing(ring1, free1, k + 2);
      ring2, free2 := Removed(ring1, k + 2), free1 - {ring[k + 1]};
    }
    if low {
      RemovedRing(ring2, free2, k + 1);
    } else {
      assert free2 - {} == free2;
    }
  }

  lemma LinkedAt(ptr: map<int, int>, ring: seq<int>, k: nat, bp: int)
    requires Linked(ptr, ring) && Precedes(ring, k, bp)
    ensures ring[k] in ptr && ptr[ring[k]] == Next(ring, k) && Next(ring, k) in ptr
    ensures ring[k] < bp && (k + 1 < |ring| ==> Next(ring, k) == ring[k + 1] > bp)
  {}

  lemma FreedLinks(ptr: map<int, int>, ring: seq<int>, free: set<int>, k: nat, bp: int, up: bool, low: bool)
    requires Ring(ring, free) && Linked(ptr, ring) && Precedes(ring, k, bp) && (up ==> k + 1 < |ring|)
    ensures ring[k] in ptr && ptr[ring[k]] in ptr
    ensures Linked(FreedPtr(ptr, ring[k], bp, up, low), FreedRing(ring, k, bp, up, low))
  {
    hide Linked, Ring, Inserted, Removed, Next;
    var p := ring[k];
    LinkedAt(ptr, ring, k, bp);
    FreedAt(ring, k, bp, up);
    var ring1, ptr1 := Inserted(ring, k, bp), ptr[bp := ptr[p]][p := bp];
    InsertedLinks(ptr, ring, free, k, bp);
    InsertedRing(ring, free, k, bp);
    var ring2, ptr2, free2 := ring1, ptr1, free + {bp};
    if up {
      RemovedLinks(ptr1, ring1, free2, k + 2);
      RemovedRing(ring1, free2, k + 2);
      ring2, ptr2, free2 := Removed(ring1, k + 2), ptr1[bp := ptr1[ring[k + 1]]], free2 - {ring[k + 1]};
      assert ptr2 == ptr[bp := ptr[ptr[p]]][p := bp];
    }
    if low {
      RemovedLinks(ptr2, ring2, free2, k + 1);
      assert ptr2[p := ptr2[bp]] == FreedPtr(ptr, p, bp, up, low);
    }
  }

  lemma FreedTiles(blocks: map<int, int>, arena: set<int>, p: int, bp: int, next: int, up: bool, low: bool)
    requires Tiling(blocks, arena) && bp in blocks && p < bp && (up ==> p != next && bp != next)
    requires (up ==> Touching(blocks, bp, next)) && (low ==> Touching(blocks, p, bp))
    ensures Tiling(FreedBlocks(blocks, p, bp, next, up, low), arena)
  {
    hide Tiling;
    var blocks1 := blocks;
    if up {
      MergedTiles(blocks, arena, bp, next);
      blocks1 := Merged(blocks, bp, next);
    }
    if low {
      MergedTiles(blocks1, arena, p, bp);
    }
  }

  lemma InsertedGap(ring: seq<int>, blocks: map<int, int>, k: nat, bp: int, i: nat)
    requires Coalesced(ring, blocks) && Precedes(ring, k, bp) && i <= |ring|
    ensures i != k && i != k + 1 ==> Gap(Inserted(ring, k, bp), blocks, i)
    ensures i == k ==> (Gap(Inserted(ring, k, bp), blocks, k) <==> !Touching(blocks, ring[k], bp))
    ensures i == k + 1 && i < |ring| ==> (Gap(Inserted(ring, k, bp), blocks, i) <==> !Touching(blocks, bp, ring[i]))
    ensures i == |ring| ==> Gap(Inserted(ring, k, bp), blocks, i)
  {
    if i < k {
      assert Gap(ring, blocks, i);
    } else if i > k + 1 {
      assert Gap(ring, blocks, i - 1);
    }
  }

  /** Merging `ring[i]` with `ring[i + 1]` leaves every other gap as it was. */
  lemma MergedGap(ring: seq<int>, blocks: map<int, int>, i: nat, j: nat)
    requires Increasing(ring) && i + 1 < |ring| && Touching(blocks, ring[i], ring[i + 1])
    requires j + 1 < |ring| && Gap(ring, blocks, if j < i then j else j + 1)
    ensures Gap(Removed(ring, i + 1), Merged(blocks, ring[i], ring[i + 1]), j)
  {}

  lemma MergedGaps(ring: seq<int>, free: set<int>, blocks: map<int, int>, i: nat, hole: int)
    requires Ring(ring, free) && i + 1 < |ring| && Touching(blocks, ring[i], ring[i + 1]) && hole < i
    requires forall j :: 0 <= j < |ring| && j != hole && j != i ==> Gap(ring, blocks, j)
    ensures GapsBut(Removed(ring, i + 1), Merged(blocks, ring[i], ring[i + 1]), hole)
  {
    var ring', blocks' := Removed(ring, i + 1), Merged(blocks, ring[i], ring[i + 1]);
    forall j | 0 <= j < |ring'| && j != hole ensures Gap(ring', blocks', j) {
      hide Gap, Removed, Merged;
      assert |Removed(ring, i + 1)| == |ring| - 1;
      MergedGap(ring, blocks, i, j);
    }
  }

  lemma InsertedGaps(ring: seq<int>, blocks: map<int, int>, k: nat, bp: int, up: bool, low: bool)
    requires Coalesced(ring, blocks) && Precedes(ring, k, bp)
    requires up <==> k + 1 < |ring| && Touching(blocks, bp, ring[k + 1])
    requires low <==> Touching(blocks, ring[k], bp)
    ensures forall j :: 0 <= j <= |ring| && !(low && j == k) && !(up && j == k + 1)
                        ==> Gap(Inserted(ring, k, bp), blocks, j)
  {
    forall j | 0 <= j <= |ring| && !(low && j == k) && !(up && j == k + 1)
      ensures Gap(Inserted(ring, k, bp), blocks, j)
    {
      InsertedGap(ring, blocks, k, bp, j);
    }
  }

  lemma FreedCoalesced(ring: seq<int>, free: set<int>, blocks: map<int, int>, k: nat, bp: int, next: int, up: bool, low: bool)
    requires Ring(ring, free) && Coalesced(ring, blocks) && Precedes(ring, k, bp) && bp in blocks && next == Next(ring, k)
    requires up <==> k + 1 < |ring| && Touching(blocks, bp, next)
    requires low <==> Touching(blocks, ring[k], bp)
    requires ring[k] < bp && (up ==> bp < next)
    ensures Coalesced(FreedRing(ring, k, bp, up, low), FreedBlocks(blocks, ring[k], bp, next, up, low))
  {
    hide Ring, Gap, Inserted, Removed;
    FreedAt(ring, k, bp, up);
    InsertedGaps(ring, blocks, k, bp, up, low);
    InsertedRing(ring, free, k, bp);
    var ring2, free2, blocks2, hole := Inserted(ring, k, bp), free + {bp}, blocks, if low then k else -1;
    if up {
      MergedGaps(ring2, free2, blocks2, k + 1, hole);
      RemovedRing(ring2, free2, k + 2);
      ring2, free2, blocks2 := Removed(ring2, k + 2), free2 - {next}, Merged(blocks, bp, next);
    }
    assert GapsBut(ring2, blocks2, hole);
    if low {
      MergedGaps(ring2, free2, blocks2, k, -1);
    }
  }

  lemma FreedHeaders(size: map<int, int>, blocks: map<int, int>, p: int, bp: int, next: int, up: bool, low: bool)
    requires HeadersAgree(size, blocks)
    requires p in size && next in size && bp in blocks && p < bp && BASE != bp && (low ==> p in blocks && p != BASE)
    requires up ==> next in blocks && next > bp
    ensures bp in size
    ensures HeadersAgree(FreedSize(size, p, bp, next, up, low), FreedBlocks(blocks, p, bp, next, up, low))
  {}

  // ---------------------------------------------------------------- well-formed heaps

  ghost predicate HeadersAgree(size: map<int, int>, blocks: map<int, int>) {
    && (forall a :: a in blocks ==> a in size && size[a] == blocks[a])
    && BASE in size && size[BASE] == 0
  }

  /** What the headers in memory stand for: the ring in address order, the extent of every
      block, the blocks handed out, and the units obtained from `sbrk`. */
  datatype Layout = Layout(ring: seq<int>, blocks: map<int, int>, live: set<int>, arena: set<int>) {
    ghost function Free(): set<int> { blocks.Keys - live }
  }

  ghost predicate WellFormed(ptr: map<int, int>, size: map<int, int>, l: Layout) {
    && Tiling(l.blocks, l.arena)
    && l.live <= l.blocks.Keys
    && HeadersAgree(size, l.blocks)
    && Ring(l.ring, l.Free())
    && Coalesced(l.ring, l.blocks)
    && Linked(ptr, l.ring)
  }

  lemma Neighbours(ptr: map<int, int>, size: map<int, int>, l: Layout, k: nat, bp: int)
    requires WellFormed(ptr, size, l) && bp in l.live && Precedes(l.ring, k, bp)
    ensures var p, next := l.ring[k], Next(l.ring, k);
            && p in size && p in ptr && ptr[p] == next && next in size && next in ptr && bp in size
            && p < bp && BASE < bp
            && (bp + size[bp] == next <==> k + 1 < |l.ring| && Touching(l.blocks, bp, next))
            && (p + size[p] == bp <==> Touching(l.blocks, p, bp))
            && (k + 1 < |l.ring| ==> bp < next && next !in l.live)
            && BASE !in l.blocks
  {
    hide Coalesced, Linked;
    LinkedAt(ptr, l.ring, k, bp);
    var p, next := l.ring[k], Next(l.ring, k);
    assert p in l.ring && next in l.ring;
    assert BASE !in l.blocks;
  }

  ghost function FreedLayout(l: Layout, k: nat, bp: int, up: bool, low: bool): Layout
    requires Precedes(l.ring, k, bp) && bp in l.blocks
    requires (up ==> k + 1 < |l.ring| && l.ring[k + 1] in l.blocks) && (low ==> l.ring[k] in l.blocks)
  {
    Layout(FreedRing(l.ring, k, bp, up, low),
           FreedBlocks(l.blocks, l.ring[k], bp, Next(l.ring, k), up, low),
           l.live - {bp},
           l.arena)
  }

  lemma FreedWellFormed(ptr: map<int, int>, size: map<int, int>, l: Layout, k: nat, bp: int, up: bool, low: bool)
    requires WellFormed(ptr, size, l) && bp in l.live && Precedes(l.ring, k, bp)
    requires up <==> k + 1 < |l.ring| && Touching(l.blocks, bp, l.ring[k + 1])
    requires low <==> Touching(l.blocks, l.ring[k], bp)
    ensures var p, next := l.ring[k], Next(l.ring, k);
            && p in size && p in ptr && ptr[p] in ptr && next in size && bp in size
            && WellFormed(FreedPtr(ptr, p, bp, up, low), FreedSize(size, p, bp, next, up, low),
                          FreedLayout(l, k, bp, up, low))
  {
    hide Tiling, HeadersAgree, Ring, Coalesced, Linked, FreedRing;
    Neighbours(ptr, size, l, k, bp);
    var p, next := l.ring[k], Next(l.ring, k);
    FreedTiles(l.blocks, l.arena, p, bp, next, up, low);
    FreedHeaders(size, l.blocks, p, bp, next, up, low);
    FreedCoalesced(l.ring, l.Free(), l.blocks, k, bp, next, up, low);
    FreedLinks(ptr, l.ring, l.Free(), k, bp, up, low);
    FreedRingIsRing(l.ring, l.Free(), k, bp, up, low);
    assert FreedLayout(l, k, bp, up, low).Free()
        == l.Free() + {bp} - (if up then {next} else {}) - (if low then {bp} else {});
  }

  /** The search's stopping element stays on the ring, the other live blocks keep their
      extents, and the freed units end up in one free block. */
  lemma FreedEffect(ptr: map<int, int>, size: map<int, int>, l: Layout, k: nat, bp: int, up: bool, low: bool)
    requires WellFormed(ptr, size, l) && bp in l.live && Precedes(l.ring, k, bp)
    requires up <==> k + 1 < |l.ring| && Touching(l.blocks, bp, l.ring[k + 1])
    requires low <==> Touching(l.blocks, l.ring[k], bp)
    ensures var l' := FreedLayout(l, k, bp, up, low);
            && l.ring[k] in l'.ring
            && l'.live <= l'.blocks.Keys
            && (forall a :: a in l'.live ==> l'.blocks[a] == l.blocks[a])
            && Holds(l', bp, l.blocks[bp])
  {
    hide Tiling, HeadersAgree, Coalesced, Linked;
    Neighbours(ptr, size, l, k, bp);
    var l' := FreedLayout(l, k, bp, up, low);
    assert l'.ring[k] == l.ring[k];
    assert low ==> l.ring[k] in l.ring;
    var a := if low then l.ring[k] else bp;
    AboveBase(l.blocks, l.arena, bp);
    if up {
      AboveBase(l.blocks, l.arena, l.ring[k + 1]);
    }
    assert a in l'.Free() && a <= bp && bp + l.blocks[bp] <= a + l'.blocks[a];
  }

  /** Some free block contains the `n` units at `bp`. */
  ghost predicate Holds(l: Layout, bp: int, n: int) {
    exists a :: a in l.Free() && a <= bp && bp + n <= a + l.blocks[a]
  }

  // ---------------------------------------------------------------- allocating from a free block

  lemma RemovedCoalesced(ring: seq<int>, free: set<int>, blocks: map<int, int>, arena: set<int>, i: nat)
    requires Tiling(blocks, arena) && Ring(ring, free) && free <= blocks.Keys && Coalesced(ring, blocks) && 1 <= i < |ring|
    ensures Coalesced(Removed(ring, i), blocks)
  {
    var ring' := Removed(ring, i);
    forall j | 0 <= j < |ring'| ensures Gap(ring', blocks, j) {
      if j + 1 == i && j + 1 < |ring'| {
        assert ring[j] in ring && ring[i] in ring;
        assert ring[j] in blocks ==> Apart(ring[j], blocks[ring[j]], ring[i], blocks[ring[i]]);
      } else {
        assert Gap(ring, blocks, if j < i then j else j + 1);
      }
    }
  }

  /** Handing out the whole block at ring index `i`. */
  lemma TakenWhole(ptr: map<int, int>, size: map<int, int>, l: Layout, i: nat)
    requires WellFormed(ptr, size, l) && 1 <= i < |l.ring|
    ensures l.ring[i] in l.Free() && l.ring[i] in ptr
    ensures WellFormed(ptr[l.ring[i - 1] := ptr[l.ring[i]]], size,
                       l.(ring := Removed(l.ring, i), live := l.live + {l.ring[i]}))
  {
    var l' := l.(ring := Removed(l.ring, i), live := l.live + {l.ring[i]});
    assert l.ring[i] in l.ring && l.ring[0] in l.ring;
    assert l.ring[i] in ptr;
    hide Tiling, HeadersAgree, Coalesced, Linked;
    RemovedRing(l.ring, l.Free(), i);
    assert l'.Free() == l.Free() - {l.ring[i]};
    RemovedLinks(ptr, l.ring, l.Free(), i);
    RemovedCoalesced(l.ring, l.Free(), l.blocks, l.arena, i);
  }

  lemma SplitCoalesced(ring: seq<int>, free: set<int>, blocks: map<int, int>, arena: set<int>, p: int, n: int)
    requires Tiling(blocks, arena) && Ring(ring, free) && free <= blocks.Keys && Coalesced(ring, blocks)
    requires p in free && 0 < n < blocks[p] && p + blocks[p] - n !in blocks
    ensures Coalesced(ring, Split(blocks, p, n))
  {
    var blocks' := Split(blocks, p, n);
    forall j | 0 <= j < |ring| ensures Gap(ring, blocks', j) {
      assert Gap(ring, blocks, j);
      if j + 1 < |ring| {
        assert ring[j] in ring && ring[j + 1] in ring;
        assert ring[j] == p ==> Apart(p, blocks[p], ring[j + 1], blocks[ring[j + 1]]);
      }
    }
  }

  /** Handing out the top `n` units of the block `p`. */
  lemma TakenTop(ptr: map<int, int>, size: map<int, int>, l: Layout, p: int, n: int)
    requires WellFormed(ptr, size, l) && p in l.Free() && 0 < n < l.blocks[p]
    ensures p + l.blocks[p] - n !in l.blocks
    ensures var top := p + l.blocks[p] - n;
            WellFormed(ptr, size[p := l.blocks[p] - n][top := n],
                       l.(blocks := Split(l.blocks, p, n), live := l.live + {top}))
  {
    hide Tiling, Ring, Coalesced, Linked;
    var top := p + l.blocks[p] - n;
    SplitTiles(l.blocks, l.arena, p, n);
    SplitCoalesced(l.ring, l.Free(), l.blocks, l.arena, p, n);
    AboveBase(l.blocks, l.arena, p);
    var l' := l.(blocks := Split(l.blocks, p, n), live := l.live + {top});
    assert l'.Free() == l.Free();
  }

  lemma AboveBase(blocks: map<int, int>, arena: set<int>, a: int)
    requires Tiling(blocks, arena) && a in blocks
    ensures BASE < a && blocks[a] > 0
  {}

  // ---------------------------------------------------------------- walking the ring

  /** Steps along the ring from index `i` to index `f`. */
  ghost function Steps(i: nat, f: nat, n: nat): nat
    requires i < n && f < n
  {
    if i <= f then f - i else f - i + n
  }

  ghost function Succ(i: nat, n: nat): nat
    requires i < n
  {
    if i + 1 == n then 0 else i + 1
  }

  /** The exit test of the search loop of `free`. */
  predicate Stops(p: int, next: int, bp: int) {
    (bp > p && bp < next) || (p >= next && (bp > p || bp < next))
  }

  /** The search stops at exactly one ring element, the last one below `bp`. */
  lemma StopsAtPredecessor(ring: seq<int>, free: set<int>, i: nat, bp: int)
    requires Ring(ring, free) && i < |ring| && BASE < bp && bp !in ring
    ensures Stops(ring[i], Next(ring, i), bp) <==> Precedes(ring, i, bp)
  {
    assert i > 0 ==> ring[0] < ring[i];
    assert i + 1 < |ring| ==> ring[i] < ring[i + 1] && ring[i + 1] != bp;
  }

  lemma Predecessor(ring: seq<int>, free: set<int>, bp: int) returns (k: nat)
    requires Ring(ring, free) && BASE < bp && bp !in ring
    ensures Precedes(ring, k, bp)
  {
    k := 0;
    while k + 1 < |ring| && ring[k + 1] < bp
      invariant k < |ring| && ring[k] < bp
    {
      k := k + 1;
    }
    assert k + 1 < |ring| ==> ring[k + 1] != bp;
  }

  lemma NotOnRing(ptr: map<int, int>, size: map<int, int>, l: Layout, bp: int)
    requires WellFormed(ptr, size, l) && bp in l.live
    ensures BASE < bp && bp !in l.ring
    ensures forall i :: 0 <= i < |l.ring| ==> BASE <= l.ring[i]
  {}

  lemma FreedFields(l: Layout, k: nat, bp: int, up: bool, low: bool)
    requires Precedes(l.ring, k, bp) && bp in l.blocks
    requires (up ==> k + 1 < |l.ring| && l.ring[k + 1] in l.blocks) && (low ==> l.ring[k] in l.blocks)
    ensures FreedLayout(l, k, bp, up, low).live == l.live - {bp}
    ensures FreedLayout(l, k, bp, up, low).arena == l.arena
  {}

  // ---------------------------------------------------------------- the scan of malloc

  function Request(nu: int): int {
    if nu < MORECORE_UNITS then MORECORE_UNITS else nu
  }

  ghost predicate Above(arena: set<int>, at: int) {
    forall u :: u in arena ==> u < at
  }

  ghost predicate Fits(l: Layout, n: int) {
    exists a :: a in l.Free() && l.blocks[a] >= n
  }

  lemma GrownWellFormed(ptr: map<int, int>, size: map<int, int>, l: Layout, at: int, n: nat)
    requires WellFormed(ptr, size, l) && BASE < at && 0 < n && Above(l.arena, at)
    ensures at !in l.live
    ensures WellFormed(ptr, size[at := n],
                       l.(blocks := l.blocks[at := n], live := l.live + {at}, arena := l.arena + Interval(at, n)))
  {
    hide Tiling, Coalesced, Linked;
    GrownTiles(l.blocks, l.arena, at, n);
    var l' := l.(blocks := l.blocks[at := n], live := l.live + {at}, arena := l.arena + Interval(at, n));
    assert l'.Free() == l.Free();
    GrownCoalesced(l.ring, l.Free(), l.blocks, at, n);
  }

  lemma GrownCoalesced(ring: seq<int>, free: set<int>, blocks: map<int, int>, at: int, n: nat)
    requires Ring(ring, free) && Coalesced(ring, blocks) && at !in free && BASE < at
    ensures Coalesced(ring, blocks[at := n])
  {
    var blocks' := blocks[at := n];
    forall j | 0 <= j < |ring| ensures Gap(ring, blocks', j) {
      assert Gap(ring, blocks, j);
      assert ring[j] in ring && (j + 1 < |ring| ==> ring[j + 1] in ring);
    }
  }

  lemma EmptyWellFormed(ptr: map<int, int>, size: map<int, int>)
    ensures WellFormed(ptr[BASE := BASE], size[BASE := 0], Layout([BASE], map[], {}, {}))
  {}

  /** The scan stands at ring index `i`, one past `prevp`; it will end at index `f`. */
  ghost predicate Walking(ring: seq<int>, f: nat, i: nat, freep: int, prevp: int, p: int) {
    && f < |ring| && i < |ring|
    && ring[f] == freep && ring[i] == p
    && ring[if i == 0 then |ring| - 1 else i - 1] == prevp
  }

  /** Every ring element that the scan has passed is too small. */
  ghost predicate Smaller(size: map<int, int>, ring: seq<int>, f: nat, i: nat, n: int)
    requires f < |ring| && i < |ring|
  {
    forall j :: 0 <= j < |ring| && Steps(j, f, |ring|) > Steps(i, f, |ring|)
                ==> ring[j] in size && size[ring[j]] < n
  }

  lemma ScanStart(ptr: map<int, int>, size: map<int, int>, l: Layout, f: nat, n: int)
    requires WellFormed(ptr, size, l) && f < |l.ring|
    ensures var i := Succ(f, |l.ring|);
            && l.ring[f] in ptr
            && Walking(l.ring, f, i, l.ring[f], l.ring[f], ptr[l.ring[f]])
            && Smaller(size, l.ring, f, i, n)
  {
    hide Tiling, Ring, HeadersAgree, Coalesced;
  }

  lemma ScanStep(ptr: map<int, int>, size: map<int, int>, l: Layout, f: nat, i: nat, n: int)
    requires WellFormed(ptr, size, l) && f < |l.ring| && i < |l.ring| && i != f
    requires Smaller(size, l.ring, f, i, n) && l.ring[i] in size && size[l.ring[i]] < n
    ensures var i' := Succ(i, |l.ring|);
            && l.ring[i] in ptr
            && Walking(l.ring, f, i', l.ring[f], l.ring[i], ptr[l.ring[i]])
            && Smaller(size, l.ring, f, i', n)
            && Steps(i', f, |l.ring|) < Steps(i, f, |l.ring|)
  {
    hide Tiling, Ring, HeadersAgree, Coalesced, Linked, Smaller, Steps;
    LinkAt(ptr, l.ring, i);
    SmallerStep(size, l.ring, f, i, n);
  }

  lemma SmallerStep(size: map<int, int>, ring: seq<int>, f: nat, i: nat, n: int)
    requires f < |ring| && i < |ring| && i != f
    requires Smaller(size, ring, f, i, n) && ring[i] in size && size[ring[i]] < n
    ensures Smaller(size, ring, f, Succ(i, |ring|), n)
    ensures Steps(Succ(i, |ring|), f, |ring|) == Steps(i, f, |ring|) - 1
  {
    var i' := Succ(i, |ring|);
    forall j | 0 <= j < |ring| && Steps(j, f, |ring|) > Steps(i', f, |ring|)
      ensures ring[j] in size && size[ring[j]] < n
    {
      assert j == i || Steps(j, f, |ring|) > Steps(i, f, |ring|);
    }
  }

  /** A scan that comes back to `freep` has seen every free block. */
  lemma ScanDone(ptr: map<int, int>, size: map<int, int>, l: Layout, f: nat, n: int)
    requires WellFormed(ptr, size, l) && f < |l.ring|
    requires Smaller(size, l.ring, f, f, n) && l.ring[f] in size && size[l.ring[f]] < n
    ensures !Fits(l, n)
  {
    hide Tiling, Coalesced, Linked;
    forall a | a in l.Free() ensures l.blocks[a] < n {
      assert a in l.ring;
      var j :| 0 <= j < |l.ring| && l.ring[j] == a;
      assert j == f || Steps(j, f, |l.ring|) > 0;
    }
  }

  lemma ScanAt(ptr: map<int, int>, size: map<int, int>, l: Layout, i: nat)
    requires WellFormed(ptr, size, l) && i < |l.ring|
    ensures var p := l.ring[i];
            && p in size && p in ptr && BASE <= p && (i > 0 ==> BASE < p)
            && (size[p] > 0 ==> i > 0 && p in l.Free() && l.blocks[p] == size[p])
            && l.live <= l.blocks.Keys
  {
    hide Tiling, Coalesced;
    assert l.ring[i] in l.ring;
    assert i > 0 ==> l.ring[0] < l.ring[i];
  }

  lemma IndexUnique(ptr: map<int, int>, size: map<int, int>, l: Layout, i: nat, f: nat)
    requires WellFormed(ptr, size, l) && i < |l.ring| && f < |l.ring| && l.ring[i] == l.ring[f]
    ensures i == f
  {
    hide Tiling, HeadersAgree, Coalesced, Linked;
  }

  /** Taking the block at `i` off the ring leaves its predecessor on it. */
  lemma PrevStays(ring: seq<int>, i: nat)
    requires 1 <= i < |ring|
    ensures ring[i - 1] in Removed(ring, i)
  {
    assert Removed(ring, i)[i - 1] == ring[i - 1];
  }

  // ---------------------------------------------------------------- the allocator

  /** What `sbrk` answers: failure, or the address of the new memory. */
  datatype Sbrk = Failure | Memory(at: int)

  class Allocator {
    var ptr: map<int, int>
    var size: map<int, int>
    var freep: int
    ghost var layout: Layout

    ghost predicate Ready()
      reads this
    {
      freep != NULL && WellFormed(ptr, size, layout) && freep in layout.ring
    }

    /** Either nothing has been allocated yet or the heap is well formed. */
    ghost predicate Valid()
      reads this
    {
      if freep == NULL then layout == Layout([], map[], {}, {}) else Ready()
    }

    constructor ()
      ensures Valid() && layout == Layout([], map[], {}, {})
    {
      ptr, size, freep := map[], map[], NULL;
      layout := Layout([], map[], {}, {});
    }

    method Free(ap: int)
      requires Valid() && ap - 1 in layout.live
      modifies this
      ensures Ready()
      ensures layout.live == old(layout.live) - {ap - 1}
      ensures layout.arena == old(layout.arena)
      ensures forall a :: a in layout.live ==> layout.blocks[a] == old(layout.blocks[a])
      ensures Holds(layout, ap - 1, old(layout.blocks[ap - 1]))
    {
      hide Tiling, HeadersAgree, Coalesced, Ring, Linked, FreedLayout;
      var bp := ap - 1;
      var p := freep;
      ghost var l := layout;
      NotOnRing(ptr, size, l, bp);
      ghost var i: nat :| i < |l.ring| && l.ring[i] == p;
      ghost var k := Predecessor(l.ring, l.Free(), bp);
      StopsAtPredecessor(l.ring, l.Free(), i, bp);
      LinkAt(ptr, l.ring, i);
      while !Stops(p, ptr[p], bp)
        invariant i < |l.ring| && l.ring[i] == p && p in ptr && ptr[p] == Next(l.ring, i)
        invariant Stops(p, ptr[p], bp) <==> Precedes(l.ring, i, bp)
        decreases Steps(i, k, |l.ring|)
        modifies {}
      {
        p := ptr[p];
        i := Succ(i, |l.ring|);
        StopsAtPredecessor(l.ring, l.Free(), i, bp);
        LinkAt(ptr, l.ring, i);
      }
      Neighbours(ptr, size, l, i, bp);
      ghost var ptr0, size0 := ptr, size;
      ghost var up, low := bp + size[bp] == ptr[p], p + size[p] == bp;
      FreedWellFormed(ptr, size, l, i, bp, up, low);
      FreedEffect(ptr, size, l, i, bp, up, low);

      var next := ptr[p];
      if bp + size[bp] == next {
        size := size[bp := size[bp] + size[next]];
        ptr := ptr[bp := ptr[next]];
      } else {
        ptr := ptr[bp := next];
      }
      if p + size[p] == bp {
        size := size[p := size[p] + size[bp]];
        ptr := ptr[p := ptr[bp]];
      } else {
        ptr := ptr[p := bp];
      }
      freep := p;
      assert ptr == FreedPtr(ptr0, p, bp, up, low);
      assert size == FreedSize(size0, p, bp, next, up, low);
      layout := FreedLayout(l, i, bp, up, low);
      assert layout.live == l.live - {bp} && layout.arena == l.arena by {
        FreedFields(l, i, bp, up, low);
      }
    }

    /** Ask `sbrk` for at least `nu` units and free them into the ring. */
    method Morecore(nu: int, sbrk: Sbrk) returns (p: int)
      requires Ready() && 0 < nu
      requires sbrk.Memory? ==> BASE < sbrk.at && Above(layout.arena, sbrk.at)
      modifies this
      ensures Ready()
      ensures layout.live == old(layout.live)
      ensures forall a :: a in layout.live ==> layout.blocks[a] == old(layout.blocks[a])
      ensures sbrk.Failure? ==> p == NULL && layout == old(layout) && freep == old(freep)
      ensures sbrk.Memory? ==>
                && p == freep
                && layout.arena == old(layout.arena) + Interval(sbrk.at, Request(nu))
                && (forall u :: u in layout.arena <==> u in old(layout.arena) || sbrk.at <= u < sbrk.at + (if nu < 4096 then 4096 else nu))
                && Holds(layout, sbrk.at, Request(nu))
    {
      hide WellFormed;
      var n := nu;
      if n < MORECORE_UNITS {
        n := MORECORE_UNITS;
      }
      if sbrk.Failure? {
        return NULL;
      }
      var hp := sbrk.at;
      GrownWellFormed(ptr, size, layout, hp, n);
      size := size[hp := n];
      layout := layout.(blocks := layout.blocks[hp := n], live := layout.live + {hp},
                        arena := layout.arena + Interval(hp, n));
      Free(hp + 1);
      return freep;
    }

    /** Hand out `nunits` units of the free block `p`: all of it, or its tail. */
    method Carve(prevp: int, p: int, nunits: int, ghost i: nat) returns (q: int)
      requires Ready() && 0 < i < |layout.ring| && layout.ring[i] == p && layout.ring[i - 1] == prevp
      requires p in size && size[p] >= nunits > 0
      modifies this
      ensures Ready()
      ensures q !in old(layout.live) && BASE < q
      ensures layout.live == old(layout.live) + {q}
      ensures layout.arena == old(layout.arena)
      ensures layout.blocks[q] == nunits
      ensures forall a :: a in old(layout.live) ==> layout.blocks[a] == old(layout.blocks[a])
    {
      hide WellFormed, Removed;
      ScanAt(ptr, size, layout, i);
      ScanAt(ptr, size, layout, i - 1);
      q := p;
      if size[q] == nunits {
        TakenWhole(ptr, size, layout, i);
        PrevStays(layout.ring, i);
        ptr := ptr[prevp := ptr[q]];
        layout := layout.(ring := Removed(layout.ring, i), live := layout.live + {q});
      } else {
        TakenTop(ptr, size, layout, q, nunits);
        layout := layout.(blocks := Split(layout.blocks, p, nunits), live := layout.live + {p + size[p] - nunits});
        size := size[q := size[q] - nunits];
        q := q + size[q];
        size := size[q := nunits];
      }
      freep := prevp;
    }

    /** Allocate `nbytes` bytes; `sbrk` is what a call of that name would answer. */
    method Malloc(nbytes: nat, sbrk: Sbrk) returns (r: int)
      requires Valid() && nbytes < UINT
      // `sbrk` takes a signed number of bytes; it can give memory only where that is positive.
      requires sbrk.Memory? ==> Request(Units(nbytes)) * SIZEOF_HEADER < 0x8000_0000
      requires sbrk.Memory? ==> BASE < sbrk.at && Above(layout.arena, sbrk.at)
      modifies this
      ensures Ready()
      // A block of the right size, disjoint from the live ones, or failure.
      ensures r != NULL ==>
                && r - 1 !in old(layout.live)
                && layout.live == old(layout.live) + {r - 1}
                && layout.blocks[r - 1] == Units(nbytes)
                && ((layout.blocks[r - 1] - 1) * SIZEOF_HEADER >= nbytes <==> nbytes <= UINT - SIZEOF_HEADER)
      ensures r == NULL ==> layout.live == old(layout.live) && layout.blocks == old(layout.blocks)
      ensures forall a :: a in old(layout.live) ==> layout.blocks[a] == old(layout.blocks[a])
      // More memory is asked for, once, exactly when no free block is large enough.
      ensures old(Fits(layout, Units(nbytes))) ==> r != NULL && layout.arena == old(layout.arena)
      ensures !old(Fits(layout, Units(nbytes))) ==>
                if sbrk.Failure? then r == NULL && layout.arena == old(layout.arena)
                else r != NULL && layout.arena == old(layout.arena) + Interval(sbrk.at, Request(Units(nbytes)))
    {
      hide WellFormed, Smaller, Removed, Interval;
      var nunits := Units(nbytes);
      UnitsHoldRequest(nbytes);
      var prevp := freep;
      if prevp == NULL {
        EmptyWellFormed(ptr, size);
        ptr, size := ptr[BASE := BASE], size[BASE := 0];
        freep, prevp := BASE, BASE;
        layout := layout.(ring := [BASE]);
      }
      ghost var f: nat :| f < |layout.ring| && layout.ring[f] == freep;
      ghost var i: nat := Succ(f, |layout.ring|);
      ScanAt(ptr, size, layout, f);
      ScanStart(ptr, size, layout, f, nunits);
      var p := ptr[prevp];
      ghost var grown := false;
      while true
        invariant Ready()
        invariant Walking(layout.ring, f, i, freep, prevp, p)
        invariant Smaller(size, layout.ring, f, i, nunits)
        invariant !grown ==> layout.blocks == old(layout.blocks) && layout.arena == old(layout.arena)
        invariant layout.live == old(layout.live)
        invariant forall a :: a in old(layout.live) ==> a in layout.blocks && layout.blocks[a] == old(layout.blocks[a])
        invariant grown ==> !old(Fits(layout, nunits)) && sbrk.Memory? && Fits(layout, nunits)
        invariant grown ==> layout.arena == old(layout.arena) + Interval(sbrk.at, Request(nunits))
        decreases !grown, Steps(i, f, |layout.ring|)
      {
        ScanAt(ptr, size, layout, i);
        if size[p] >= nunits {
          p := Carve(prevp, p, nunits, i);
          return p + 1;
        }
        if p == freep {
          IndexUnique(ptr, size, layout, i, f);
          ScanDone(ptr, size, layout, f, nunits);
          p := Morecore(nunits, sbrk);
          if p == NULL {
            return NULL;
          }
          grown := true;
          f :| f < |layout.ring| && layout.ring[f] == freep;
          i := Succ(f, |layout.ring|);
          ScanAt(ptr, size, layout, f);
          ScanStart(ptr, size, layout, f, nunits);
        } else {
          ScanStep(ptr, size, layout, f, i, nunits);
          i := Succ(i, |layout.ring|);
        }
        prevp := p;
        p := ptr[p];
      }
    }
  }
}
