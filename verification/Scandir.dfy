/** `scandir` of dirent-win.h: what it returns, what it owns, and what it gives back. */
module Scandir {
  import opened Basics
  import opened CHeap
  import opened DirStream
  import opened DirentWin

  type Filter = Option<Dirent -> bool>
  type Compare = (Dirent, Dirent) -> bool  // compare(a, b) <= 0

  predicate Passes(filter: Filter, d: Dirent) {
    filter.Some? ==> filter.value(d)
  }

  /** The entries a filter lets through, in order. */
  function Passing(filter: Filter, ds: seq<Dirent>): seq<Dirent> {
    if ds == [] then []
    else
      var last := ds[|ds| - 1];
      Passing(filter, ds[..|ds| - 1]) + if Passes(filter, last) then [last] else []
  }

  function Dirents(convert: Convert, entries: seq<FindData>): seq<Dirent> {
    seq(|entries|, i requires 0 <= i < |entries| => ToDirent(convert, entries[i]))
  }

  ghost predicate TotalPreorder(compare: Compare) {
    && (forall x, y :: compare(x, y) || compare(y, x))
    && (forall x, y, z :: compare(x, y) && compare(y, z) ==> compare(x, z))
  }

  predicate Sorted(compare: Compare, ds: seq<Dirent>) {
    forall i, j :: 0 <= i < j < |ds| ==> compare(ds[i], ds[j])
  }

  // ------------------------------------------------------------------------
  // Ownership
  // ------------------------------------------------------------------------

  /** What `scandir` owns: the table `files` (unless NULL) with its slots, the entries kept so far, one
      for each of the first slots, and the temporary entry `tmp` (unless NULL). */
  datatype Held = Held(files: Ptr, slots: seq<Ptr>, kept: seq<Dirent>, tmp: Ptr)

  const NOTHING: Held := Held(NULL, [], [], NULL)

  /** Each kept entry has a block of its own kind, reached from its slot. */
  ghost predicate EntriesAt(mem: Memory, base: Memory, files: Ptr, slots: seq<Ptr>, kept: seq<Dirent>)
    requires |kept| <= |slots|
  {
    forall i :: 0 <= i < |kept| ==>
      slots[i] !in base && slots[i] != files && slots[i] in mem && mem[slots[i]] == Entry(kept[i])
  }

  /** The heap is `base` plus exactly what `h` lists, every block of it separate from the others. */
  ghost predicate Holding(mem: Memory, base: Memory, h: Held) {
    && NULL !in mem && |h.kept| <= |h.slots|
    && (forall p <- base :: p in mem && mem[p] == base[p])
    && (h.files == NULL ==> h.slots == [])
    && (h.files != NULL ==> h.files !in base && h.files in mem && mem[h.files] == Table(h.slots))
    && EntriesAt(mem, base, h.files, h.slots, h.kept)
    && (forall i, j :: 0 <= i < j < |h.kept| ==> h.slots[i] != h.slots[j])
    && (h.tmp != NULL ==>
          h.tmp !in base && h.tmp != h.files && h.tmp in mem && mem[h.tmp].Entry? && h.tmp !in h.slots[..|h.kept|])
    && (forall p <- mem :: p in base || p == h.files || p == h.tmp || p in h.slots[..|h.kept|])
  }

  lemma HoldingNothing(base: Memory)
    requires NULL !in base
    ensures Holding(base, base, NOTHING)
  {
  }

  lemma HoldingTable(mem: Memory, base: Memory, h: Held)
    requires Holding(mem, base, h)
    ensures h.files != NULL ==> h.files in mem && mem[h.files] == Table(h.slots)
    ensures |h.kept| <= |h.slots| && (h.files == NULL ==> h.slots == [])
    ensures h.tmp != NULL ==> h.tmp in mem && mem[h.tmp].Entry?
    ensures base.Keys <= mem.Keys
  {
  }

  lemma KeptSlots(h: Held)
    requires |h.kept| <= |h.slots|
    ensures forall i :: 0 <= i < |h.kept| ==> h.slots[..|h.kept|][i] == h.slots[i]
  {
  }

  lemma GrownKeepsEntries(mem: Memory, base: Memory, h: Held, files: Ptr, slots: seq<Ptr>)
    requires |h.kept| <= |h.slots| && EntriesAt(mem, base, h.files, h.slots, h.kept)
    requires files !in mem - {h.files} && h.slots <= slots
    ensures EntriesAt((mem - {h.files})[files := Table(slots)], base, files, slots, h.kept)
  {
    assert forall i :: 0 <= i < |h.slots| ==> slots[i] == h.slots[i];
  }

  lemma HoldingGrown(mem: Memory, base: Memory, h: Held, files: Ptr, slots: seq<Ptr>)
    requires Holding(mem, base, h)
    requires files != NULL && files !in mem - {h.files} && h.slots <= slots
    ensures Holding((mem - {h.files})[files := Table(slots)], base, h.(files := files, slots := slots))
  {
    GrownKeepsEntries(mem, base, h, files, slots);
    hide EntriesAt;
    assert slots[..|h.kept|] == h.slots[..|h.kept|];
    assert forall i :: 0 <= i < |h.slots| ==> slots[i] == h.slots[i];
  }

  lemma HoldingTmp(mem: Memory, base: Memory, h: Held, tmp: Ptr, d: Dirent)
    requires Holding(mem, base, h) && h.tmp == NULL && tmp !in mem && tmp != NULL
    ensures Holding(mem[tmp := Entry(d)], base, h.(tmp := tmp))
  {
    KeptSlots(h);
    assert forall i :: 0 <= i < |h.kept| ==> h.slots[..|h.kept|][i] in mem;
  }

  lemma HoldingWritten(mem: Memory, base: Memory, h: Held, d: Dirent)
    requires Holding(mem, base, h) && h.tmp != NULL
    ensures Holding(mem[h.tmp := Entry(d)], base, h)
  {
    KeptSlots(h);
  }

  function Stored(h: Held, d: Dirent): Held
    requires |h.kept| < |h.slots|
  {
    Held(h.files, h.slots[|h.kept| := h.tmp], h.kept + [d], NULL)
  }

  lemma HoldingStored(mem: Memory, base: Memory, h: Held)
    requires Holding(mem, base, h) && h.tmp != NULL && |h.kept| < |h.slots|
    ensures var h' := Stored(h, mem[h.tmp].dirent); Holding(mem[h.files := Table(h'.slots)], base, h')
  {
    var h' := Stored(h, mem[h.tmp].dirent);
    assert h'.slots[..|h.kept| + 1] == h.slots[..|h.kept|] + [h.tmp];
    KeptSlots(h);
  }

  lemma HoldingNoTmp(mem: Memory, base: Memory, h: Held)
    requires Holding(mem, base, h)
    ensures Holding(mem - {h.tmp}, base, h.(tmp := NULL))
  {
    KeptSlots(h);
  }

  /** Without some blocks of `base`, the rest is held as before. */
  lemma HoldingRebased(mem: Memory, base: Memory, h: Held, blocks: set<Ptr>)
    requires Holding(mem, base, h) && blocks <= base.Keys
    ensures Holding(mem - blocks, base - blocks, h)
  {
  }

  function Exchanged<T>(s: seq<T>, j: nat): seq<T>
    requires 0 < j < |s|
  {
    s[j - 1 := s[j]][j := s[j - 1]]
  }

  lemma ExchangeKeepsMembers<T>(s: seq<T>, j: nat, x: T)
    requires 0 < j < |s|
    ensures (x in Exchanged(s, j) <==> x in s) && multiset(Exchanged(s, j)) == multiset(s)
  {
    var t := Exchanged(s, j);
    assert multiset(t) == multiset(s);
    assert x in t <==> x in multiset(t);
  }

  lemma ExchangeKeepsEntries(mem: Memory, base: Memory, files: Ptr, slots: seq<Ptr>, kept: seq<Dirent>, j: nat)
    requires 0 < j < |kept| <= |slots| && EntriesAt(mem, base, files, slots, kept)
    ensures var slots' := Exchanged(slots, j);
            EntriesAt(mem[files := Table(slots')], base, files, slots', Exchanged(kept, j))
  {
  }

  lemma ExchangeKeepsDistinct(slots: seq<Ptr>, n: nat, j: nat)
    requires 0 < j < n <= |slots| && forall a, b :: 0 <= a < b < n ==> slots[a] != slots[b]
    ensures var t := Exchanged(slots, j);
            (forall a, b :: 0 <= a < b < n ==> t[a] != t[b]) && (forall p :: p in t[..n] <==> p in slots[..n])
  {
    var t := Exchanged(slots, j);
    assert t[..n] == Exchanged(slots[..n], j);
    forall p
      ensures p in t[..n] <==> p in slots[..n]
    {
      ExchangeKeepsMembers(slots[..n], j, p);
    }
  }

  lemma HoldingExchanged(mem: Memory, base: Memory, h: Held, j: nat)
    requires Holding(mem, base, h) && 0 < j < |h.kept|
    ensures var h' := h.(slots := Exchanged(h.slots, j), kept := Exchanged(h.kept, j));
            Holding(mem[h.files := Table(h'.slots)], base, h')
  {
    ExchangeKeepsEntries(mem, base, h.files, h.slots, h.kept, j);
    ExchangeKeepsDistinct(h.slots, |h.kept|, j);
    hide EntriesAt, Exchanged;
  }

  ghost function Without(mem: Memory, slots: seq<Ptr>, i: nat): Memory
    requires i <= |slots|
  {
    mem - set p | p in slots[..i]
  }

  lemma WithoutStep(mem: Memory, base: Memory, h: Held, i: nat)
    requires Holding(mem, base, h) && i < |h.kept|
    ensures var w := Without(mem, h.slots, i);
            && h.files in w && w[h.files] == Table(h.slots) && h.slots[i] in w
            && w - {h.slots[i]} == Without(mem, h.slots, i + 1)
  {
    assert forall k :: 0 <= k < i ==> h.slots[..i][k] == h.slots[k];
    assert h.slots[..i + 1] == h.slots[..i] + [h.slots[i]];
  }

  lemma WithoutAll(mem: Memory, base: Memory, h: Held)
    requires Holding(mem, base, h) && h.tmp == NULL && NULL !in base
    ensures var w := Without(mem, h.slots, |h.kept|);
            w - {h.files} == base && (h.files == NULL || h.files in w)
  {
    KeptSlots(h);
  }

  /** Free every entry and then the table. */
  method FreeAll(heap: Heap, files: Ptr, size: nat, ghost base: Memory, ghost h: Held)
    requires heap.Valid() && NULL !in base && Holding(heap.mem, base, h) && h.tmp == NULL
    requires files == h.files && size == |h.kept|
    modifies heap`mem
    ensures heap.Valid() && heap.mem == base
  {
    ghost var mem := heap.mem;
    var i := 0;
    while i < size
      invariant 0 <= i <= size
      invariant heap.Valid() && heap.mem == Without(mem, h.slots, i)
    {
      WithoutStep(mem, base, h, i);
      heap.Free(heap.mem[files].slots[i]);
      i := i + 1;
    }
    WithoutAll(mem, base, h);
    heap.Free(files);
  }

  // ------------------------------------------------------------------------
  // qsort
  // ------------------------------------------------------------------------

  /** Let the entry at `j` sink to its place among those before it. */
  function Sift(compare: Compare, ds: seq<Dirent>, j: nat): (r: seq<Dirent>)
    requires j < |ds|
    ensures |r| == |ds|
    decreases j
  {
    if j == 0 || compare(ds[j - 1], ds[j]) then ds else Sift(compare, Exchanged(ds, j), j - 1)
  }

  function SortFrom(compare: Compare, ds: seq<Dirent>, i: nat): (r: seq<Dirent>)
    requires i <= |ds|
    ensures |r| == |ds|
    decreases |ds| - i
  {
    if i == |ds| then ds else SortFrom(compare, Sift(compare, ds, i), i + 1)
  }

  /** The first `i + 1` entries are in order, but for the one at `j` and those before it. */
  predicate SortedBut(compare: Compare, ds: seq<Dirent>, i: nat, j: nat)
    requires i < |ds|
  {
    forall a, b :: 0 <= a < b <= i && b != j ==> compare(ds[a], ds[b])
  }

  lemma {:induction false} SiftSorts(compare: Compare, ds: seq<Dirent>, i: nat, j: nat)
    requires j <= i < |ds| && TotalPreorder(compare) && SortedBut(compare, ds, i, j)
    ensures Sorted(compare, Sift(compare, ds, j)[..i + 1])
    decreases j
  {
    if j == 0 || compare(ds[j - 1], ds[j]) {
      forall a | 0 <= a < j
        ensures compare(ds[a], ds[j])
      {
        assert a == j - 1 || compare(ds[a], ds[j - 1]);
      }
    } else {
      SiftSorts(compare, Exchanged(ds, j), i, j - 1);
    }
  }

  lemma {:induction false} SiftPermutes(compare: Compare, ds: seq<Dirent>, j: nat)
    requires j < |ds|
    ensures multiset(Sift(compare, ds, j)) == multiset(ds)
    decreases j
  {
    if j > 0 && !compare(ds[j - 1], ds[j]) {
      ExchangeKeepsMembers(ds, j, ds[j]);
      SiftPermutes(compare, Exchanged(ds, j), j - 1);
    }
  }

  lemma {:induction false} SortFromSorts(compare: Compare, ds: seq<Dirent>, i: nat)
    requires i <= |ds|
    ensures multiset(SortFrom(compare, ds, i)) == multiset(ds)
    ensures TotalPreorder(compare) && Sorted(compare, ds[..i]) ==> Sorted(compare, SortFrom(compare, ds, i))
    decreases |ds| - i
  {
    if i == |ds| {
      assert ds[..i] == ds;
    } else {
      SiftPermutes(compare, ds, i);
      if TotalPreorder(compare) && Sorted(compare, ds[..i]) {
        SiftSorts(compare, ds, i, i);
      }
      SortFromSorts(compare, Sift(compare, ds, i), i + 1);
    }
  }

  lemma SortSorts(compare: Compare, ds: seq<Dirent>)
    ensures multiset(SortFrom(compare, ds, 0)) == multiset(ds)
    ensures TotalPreorder(compare) ==> Sorted(compare, SortFrom(compare, ds, 0))
  {
    SortFromSorts(compare, ds, 0);
  }

  /** Whether the entries at `j - 1` and `j` of the table are in order. */
  method InOrder(heap: Heap, files: Ptr, j: nat, compare: Compare, ghost base: Memory, ghost h: Held)
    returns (ordered: bool)
    requires Holding(heap.mem, base, h) && files == h.files && 0 < j < |h.kept|
    ensures ordered == compare(h.kept[j - 1], h.kept[j])
  {
    var above, below := heap.mem[files].slots[j - 1], heap.mem[files].slots[j];
    ordered := compare(heap.mem[above].dirent, heap.mem[below].dirent);
  }

  method Exchange(heap: Heap, files: Ptr, j: nat, ghost base: Memory, ghost h: Held) returns (ghost h': Held)
    requires heap.Valid() && Holding(heap.mem, base, h) && files == h.files && 0 < j < |h.kept|
    modifies heap`mem
    ensures heap.Valid() && Holding(heap.mem, base, h')
    ensures |h'.slots| == |h.slots| && h' == h.(slots := h'.slots, kept := Exchanged(h.kept, j))
  {
    hide Holding;
    ghost var before := heap.mem;
    HoldingTable(heap.mem, base, h);
    HoldingExchanged(heap.mem, base, h, j);
    h' := h.(slots := Exchanged(h.slots, j), kept := Exchanged(h.kept, j));
    var above, below := heap.mem[files].slots[j - 1], heap.mem[files].slots[j];
    heap.Store(files, j - 1, below);
    heap.Store(files, j, above);
    assert heap.mem == before[files := Table(h'.slots)];
  }

  /** `qsort` on the table: it only exchanges pointers. (The library's own algorithm is not modelled;
      an insertion sort stands for it.) */
  method QSort(heap: Heap, files: Ptr, size: nat, compare: Compare, ghost base: Memory, ghost h: Held)
    returns (ghost h': Held)
    requires heap.Valid() && Holding(heap.mem, base, h) && files == h.files && size == |h.kept|
    modifies heap`mem
    ensures heap.Valid() && Holding(heap.mem, base, h')
    ensures |h'.slots| == |h.slots| && |h'.kept| == |h.kept| && h' == h.(slots := h'.slots, kept := h'.kept)
    ensures multiset(h'.kept) == multiset(h.kept)
    ensures TotalPreorder(compare) ==> Sorted(compare, h'.kept)
  {
    hide Holding, Sorted, TotalPreorder;
    h' := h;
    var i := 0;
    while i < size
      invariant 0 <= i <= size == |h'.kept|
      invariant heap.Valid() && Holding(heap.mem, base, h')
      invariant |h'.slots| == |h.slots| && h' == h.(slots := h'.slots, kept := h'.kept)
      invariant SortFrom(compare, h'.kept, i) == SortFrom(compare, h.kept, 0)
    {
      h' := Insert(heap, files, i, compare, base, h');
      i := i + 1;
    }
    SortSorts(compare, h.kept);
  }

  method Insert(heap: Heap, files: Ptr, i: nat, compare: Compare, ghost base: Memory, ghost h: Held)
    returns (ghost h': Held)
    requires heap.Valid() && Holding(heap.mem, base, h) && files == h.files && i < |h.kept|
    modifies heap`mem
    ensures heap.Valid() && Holding(heap.mem, base, h')
    ensures |h'.slots| == |h.slots| && h' == h.(slots := h'.slots, kept := Sift(compare, h.kept, i))
  {
    hide Holding;
    h' := h;
    var j := i;
    while j > 0
      invariant 0 <= j <= i < |h'.kept|
      invariant heap.Valid() && Holding(heap.mem, base, h')
      invariant |h'.slots| == |h.slots| && h' == h.(slots := h'.slots, kept := h'.kept)
      invariant Sift(compare, h'.kept, j) == Sift(compare, h.kept, i)
    {
      var ordered := InOrder(heap, files, j, compare, base, h');
      if ordered {
        break;
      }
      h' := Exchange(heap, files, j, base, h');
      j := j - 1;
    }
  }

  // ------------------------------------------------------------------------
  // The doubling table
  // ------------------------------------------------------------------------

  ghost predicate PowerOfTwo(n: nat) {
    n == 1 || (n > 1 && n % 2 == 0 && PowerOfTwo(n / 2))
  }

  /** The table has no slot, or a power of two of them and at most twice what is needed; `copied`, the
      number of pointers moved by all enlargements so far, stays below its size. */
  ghost predicate Bounded(size: nat, capacity: nat, copied: nat) {
    && size <= capacity
    && (capacity == 0 || PowerOfTwo(capacity))
    && capacity <= (if size == 0 then 1 else 2 * size)
    && copied <= (if capacity == 0 then 0 else capacity - 1)
  }

  lemma StillBounded(size: nat, capacity: nat, copied: nat)
    requires Bounded(size, capacity, copied) && size < capacity
    ensures Bounded(size, capacity, copied) && Bounded(size + 1, capacity, copied)
  {
  }

  /** The local variables of the loop agree with what is held. */
  predicate Locals(h: Held, files: Ptr, size: nat, capacity: nat, tmp: Ptr) {
    files == h.files && size == |h.kept| && capacity == |h.slots| && tmp == h.tmp && (files == NULL <==> capacity == 0)
  }

  /** Grow the table when it is full: to one slot, then to twice the size. */
  method Enlarge(heap: Heap, files: Ptr, size: nat, capacity: nat, ghost base: Memory, ghost h: Held, ghost copied: nat)
    returns (ok: bool, files': Ptr, capacity': nat, ghost h': Held, ghost copied': nat)
    requires heap.Valid() && Holding(heap.mem, base, h) && Locals(h, files, size, capacity, h.tmp)
    requires Bounded(size, capacity, copied)
    modifies heap
    ensures heap.Valid() && Holding(heap.mem, base, h')
    ensures Locals(h', files', size, capacity', h.tmp) && h'.kept == h.kept
    ensures Bounded(size, capacity', copied') && (ok ==> size < capacity')
    ensures heap.faults == old(heap.faults) + if ok then 0 else 1
  {
    hide Holding;
    HoldingTable(heap.mem, base, h);
    ok, files', capacity', h', copied' := true, files, capacity, h, copied;
    if size >= capacity {
      var entries;
      if size < 1 {
        entries := 1;
      } else {
        entries := size * 2;
      }
      ghost var before := heap.mem;
      var p := heap.Realloc(files, entries);
      if p != NULL {
        HoldingGrown(before, base, h, p, heap.mem[p].slots);
        h' := h.(files := p, slots := heap.mem[p].slots);
        files', capacity', copied' := p, entries, copied + capacity;
        assert size >= 1 ==> entries % 2 == 0 && entries / 2 == capacity;
      } else {
        ok := false;
      }
    }
  }

  method MakeTmp(heap: Heap, tmp: Ptr, ghost base: Memory, ghost h: Held) returns (tmp': Ptr)
    requires heap.Valid() && Holding(heap.mem, base, h) && tmp == h.tmp
    modifies heap
    ensures heap.Valid() && Holding(heap.mem, base, h.(tmp := tmp'))
    ensures heap.faults == old(heap.faults) + if tmp' == NULL then 1 else 0
  {
    tmp' := tmp;
    if tmp == NULL {
      ghost var before := heap.mem;
      var blank := Dirent(0, 0, 0, DT_UNKNOWN, "");
      tmp' := heap.Malloc(Entry(blank));
      if tmp' != NULL {
        HoldingTmp(before, base, h, tmp', blank);
      }
    }
  }

  /** Room for one more entry: a free slot in the table and a temporary entry to read into. */
  method MakeRoom(heap: Heap, files: Ptr, size: nat, capacity: nat, tmp: Ptr,
                  ghost base: Memory, ghost h: Held, ghost copied: nat)
    returns (ok: bool, files': Ptr, capacity': nat, tmp': Ptr, ghost h': Held, ghost copied': nat)
    requires heap.Valid() && Holding(heap.mem, base, h) && Locals(h, files, size, capacity, tmp)
    requires Bounded(size, capacity, copied)
    modifies heap
    ensures heap.Valid() && Holding(heap.mem, base, h')
    ensures Locals(h', files', size, capacity', tmp') && h'.kept == h.kept
    ensures Bounded(size, capacity', copied') && (ok ==> size < capacity' && tmp' != NULL)
    ensures heap.faults == old(heap.faults) + if ok then 0 else 1
  {
    hide Holding, Bounded;
    tmp' := tmp;
    ok, files', capacity', h', copied' := Enlarge(heap, files, size, capacity, base, h, copied);
    if ok {
      tmp' := MakeTmp(heap, tmp, base, h');
      h' := h'.(tmp := tmp');
      ok := tmp' != NULL;
    }
  }

  // ------------------------------------------------------------------------
  // scandir
  // ------------------------------------------------------------------------

  /** Where the stream stands after `read` entries were returned. */
  ghost predicate StandsAt(s: Stream, read: nat) {
    s.cursor.Some? && if s.cached then read == 0 else s.cursor.value == read
  }

  lemma StartsEmpty(filter: Filter, convert: Convert, entries: seq<FindData>)
    ensures Passing(filter, Dirents(convert, entries[..0])) == [] && Bounded(0, 0, 0)
  {
  }

  lemma PassingStep(filter: Filter, convert: Convert, entries: seq<FindData>, read: nat)
    requires read < |entries|
    ensures var d := ToDirent(convert, entries[read]);
            Passing(filter, Dirents(convert, entries[..read + 1])) ==
            Passing(filter, Dirents(convert, entries[..read])) + if Passes(filter, d) then [d] else []
  {
    var ds := Dirents(convert, entries[..read + 1]);
    assert ds[..read] == Dirents(convert, entries[..read]);
  }

  method ReadTmp(dir: Dir, convert: Convert, tmp: Ptr, ghost read: nat, ghost base: Memory, ghost h: Held)
    returns (some: bool)
    requires dir.heap.Valid() && dir.Valid() && StandsAt(dir.Abs(), read) && read <= |dir.api.entries|
    requires Holding(dir.heap.mem, base, h) && tmp == h.tmp != NULL
    modifies dir`cached, dir`data, dir`handle, dir.api`open, dir.api`faults, dir.heap`mem
    ensures dir.heap.Valid() && dir.Valid() && dir.Others() == old(dir.Others())
    ensures Holding(dir.heap.mem, base, h)
    ensures some ==>
              && read < |dir.api.entries| && StandsAt(dir.Abs(), read + 1) && dir.api.faults == old(dir.api.faults)
              && tmp in dir.heap.mem && dir.heap.mem[tmp] == Entry(ToDirent(convert, dir.api.entries[read]))
    ensures !some && dir.api.faults == old(dir.api.faults) ==> read == |dir.api.entries|
  {
    ghost var before := dir.heap.mem;
    ghost var ok;
    some, ok := dir.ReadInto(convert, tmp);
    if some {
      HoldingWritten(before, base, h, ToDirent(convert, dir.api.entries[read]));
    }
  }

  /** Keep the temporary entry if it passes the filter; otherwise it is read into again. */
  method Consider(heap: Heap, filter: Filter, files: Ptr, size: nat, tmp: Ptr, ghost base: Memory, ghost h: Held)
    returns (size': nat, tmp': Ptr, ghost h': Held)
    requires heap.Valid() && Holding(heap.mem, base, h) && Locals(h, files, size, |h.slots|, tmp)
    requires tmp != NULL && size < |h.slots| && tmp in heap.mem && heap.mem[tmp].Entry?
    modifies heap`mem
    ensures heap.Valid() && Holding(heap.mem, base, h') && Locals(h', files, size', |h.slots|, tmp')
    ensures var d := old(heap.mem)[tmp].dirent; h'.kept == h.kept + if Passes(filter, d) then [d] else []
  {
    size', tmp', h' := size, tmp, h;
    var pass;
    if filter.Some? {
      pass := filter.value(heap.mem[tmp].dirent);
    } else {
      pass := true;
    }
    if pass {
      HoldingStored(heap.mem, base, h);
      h' := Stored(h, heap.mem[tmp].dirent);
      heap.Store(files, size, tmp);
      size' := size + 1;
      tmp' := NULL;
    }
  }

  /** The entries held are those of the first `read` of the directory that pass the filter, in order of
      `compare`; they are all of the directory's unless the system failed to deliver some. */
  ghost predicate Selected(kept: seq<Dirent>, entries: seq<FindData>, read: nat, convert: Convert, filter: Filter,
                           compare: Compare) {
    && read <= |entries|
    && multiset(kept) == multiset(Passing(filter, Dirents(convert, entries[..read])))
    && (TotalPreorder(compare) ==> Sorted(compare, kept))
  }

  /** In terms of the directory and the filter: every entry read counts as often as it was read if the
      filter lets it through, and not at all otherwise; each is in order with all that follow. */
  lemma SelectedExactly(kept: seq<Dirent>, entries: seq<FindData>, read: nat, convert: Convert, filter: Filter,
                        compare: Compare)
    requires Selected(kept, entries, read, convert, filter, compare)
    ensures forall d :: multiset(kept)[d] ==
                        if filter.None? || filter.value(d) then Count(entries[..read], convert, d) else 0
    ensures TotalPreorder(compare) ==> forall i, j :: 0 <= i < j < |kept| ==> compare(kept[i], kept[j])
  {
    forall d
      ensures multiset(kept)[d] ==
              if filter.None? || filter.value(d) then Count(entries[..read], convert, d) else 0
    {
      PassingCounts(filter, convert, entries[..read], d);
    }
  }

  /** How many of these entries a caller gets as `d`. */
  function Count(entries: seq<FindData>, convert: Convert, d: Dirent): nat {
    if entries == [] then 0
    else
      Count(entries[..|entries| - 1], convert, d)
      + if ToDirent(convert, entries[|entries| - 1]) == d then 1 else 0
  }

  lemma {:induction false} PassingCounts(filter: Filter, convert: Convert, entries: seq<FindData>, d: Dirent)
    ensures multiset(Passing(filter, Dirents(convert, entries)))[d] ==
            if filter.None? || filter.value(d) then Count(entries, convert, d) else 0
    decreases |entries|
  {
    if entries != [] {
      var n := |entries| - 1;
      PassingCounts(filter, convert, entries[..n], d);
      assert entries[..n + 1] == entries;
      PassingStep(filter, convert, entries, n);
    }
  }

  datatype Turn = More | End | OutOfMemory

  /** One turn of the reading loop, up to the test for the end of the stream. */
  method ReadOne(dir: Dir, convert: Convert, filter: Filter, files: Ptr, size: nat, capacity: nat, tmp: Ptr,
                 ghost base: Memory, ghost h: Held, ghost read: nat, ghost copied: nat)
    returns (turn: Turn, files': Ptr, size': nat, capacity': nat, tmp': Ptr, ghost h': Held, ghost copied': nat)
    requires dir.heap.Valid() && Holding(dir.heap.mem, base, h) && Locals(h, files, size, capacity, tmp)
    requires Bounded(size, capacity, copied)
    requires dir.Valid() && StandsAt(dir.Abs(), read) && read <= |dir.api.entries|
    modifies dir`cached, dir`data, dir`handle, dir.api`open, dir.api`faults, dir.heap
    ensures dir.heap.Valid() && Holding(dir.heap.mem, base, h') && Locals(h', files', size', capacity', tmp')
    ensures Bounded(size', capacity', copied')
    ensures dir.Valid() && dir.Others() == old(dir.Others())
    ensures dir.heap.faults == old(dir.heap.faults) + if turn == OutOfMemory then 1 else 0
    ensures turn == More ==>
              && read < |dir.api.entries| && StandsAt(dir.Abs(), read + 1) && dir.api.faults == old(dir.api.faults)
              && var d := ToDirent(convert, dir.api.entries[read]);
                 h'.kept == h.kept + if Passes(filter, d) then [d] else []
    ensures turn == End ==>
              && h'.kept == h.kept && size' < capacity'
              && (dir.api.faults == old(dir.api.faults) ==> read == |dir.api.entries|)
  {
    hide Holding, Bounded, ToDirent, StandsAt, Dir.Valid, Dir.Abs, Dir.Others, Heap.Valid;
    var ok;
    size' := size;
    ok, files', capacity', tmp', h', copied' := MakeRoom(dir.heap, files, size, capacity, tmp, base, h, copied);
    if !ok {
      turn := OutOfMemory;
      return;
    }
    var some := ReadTmp(dir, convert, tmp', read, base, h');
    if some {
      StillBounded(size, capacity', copied');
      size', tmp', h' := Consider(dir.heap, filter, files', size, tmp', base, h');
      turn := More;
    } else {
      turn := End;
    }
  }

  /** The reading loop: until the stream ends (then sort) or an allocation fails (then `result` is -1). */
  method ReadAll(dir: Dir, convert: Convert, filter: Filter, compare: Compare, ghost base: Memory)
    returns (result: int, files: Ptr, size: nat, tmp: Ptr, ghost h: Held, ghost read: nat, ghost copied: nat)
    requires dir.heap.Valid() && dir.Valid() && StandsAt(dir.Abs(), 0) && dir.heap.mem == base
    modifies dir`cached, dir`data, dir`handle, dir.api`open, dir.api`faults, dir.heap
    ensures dir.heap.Valid() && dir.Valid() && dir.Others() == old(dir.Others())
    ensures Holding(dir.heap.mem, base, h) && Locals(h, files, size, |h.slots|, tmp)
    ensures result == (if dir.heap.faults > old(dir.heap.faults) then -1 else size)
    ensures dir.heap.faults >= old(dir.heap.faults)
    ensures result != -1 ==>
              && size < |h.slots| && Bounded(size, |h.slots|, copied)
              && Selected(h.kept, dir.api.entries, read, convert, filter, compare)
              && (dir.api.faults == old(dir.api.faults) ==> read == |dir.api.entries|)
  {
    HoldingNothing(base);
    StartsEmpty(filter, convert, dir.api.entries);
    hide Holding, Bounded, Selected, Sorted, TotalPreorder, Passing, Dirents, ToDirent, StandsAt;
    hide Dir.Valid, Dir.Abs, Dir.Others, Heap.Valid;
    var capacity := 0;
    result, files, size, tmp, h, read, copied := 0, NULL, 0, NULL, NOTHING, 0, 0;
    while true
      invariant dir.heap.Valid() && dir.Valid() && dir.Others() == old(dir.Others())
      invariant Holding(dir.heap.mem, base, h) && Locals(h, files, size, capacity, tmp) && result == size
      invariant Bounded(size, capacity, copied)
      invariant read <= |dir.api.entries| && StandsAt(dir.Abs(), read)
      invariant h.kept == Passing(filter, Dirents(convert, dir.api.entries[..read]))
      invariant dir.api.faults == old(dir.api.faults) && dir.heap.faults == old(dir.heap.faults)
      decreases |dir.api.entries| - read
    {
      var turn;
      turn, files, size, capacity, tmp, h, copied :=
        ReadOne(dir, convert, filter, files, size, capacity, tmp, base, h, read, copied);
      match turn
      case OutOfMemory =>
        result := -1;
        break;
      case More =>
        PassingStep(filter, convert, dir.api.entries, read);
        read := read + 1;
        result := size;
      case End =>
        ghost var kept := h.kept;
        h := QSort(dir.heap, files, size, compare, base, h);
        NowSelected(h.kept, kept, dir.api.entries, read, convert, filter, compare);
        result := size;
        break;
    }
  }

  lemma NowSelected(sorted: seq<Dirent>, kept: seq<Dirent>, entries: seq<FindData>, read: nat, convert: Convert,
                    filter: Filter, compare: Compare)
    requires read <= |entries| && kept == Passing(filter, Dirents(convert, entries[..read]))
    requires multiset(sorted) == multiset(kept) && (TotalPreorder(compare) ==> Sorted(compare, sorted))
    ensures Selected(sorted, entries, read, convert, filter, compare)
  {
  }

  /** `namelist` says whether the caller passed a place for the table; `files` is what is put there.
      The ghost results: what stays allocated, how many entries were read and how many pointers the
      enlargements copied. */
  method ScanDir(heap: Heap, api: FindApi, convert: Convert, dirname: string, namelist: bool, filter: Filter,
                 compare: Compare)
    returns (result: int, files: Ptr, ghost h: Held, ghost read: nat, ghost copied: nat)
    requires heap.Valid() && api.Valid()
    modifies heap, api`open, api`denied, api`faults
    ensures heap.Valid() && api.Valid()
    // It fails exactly when the directory cannot be opened or an allocation is refused.
    ensures result == -1 <==>
              dirname == "" || !api.converts || !api.resolves
              || heap.faults > old(heap.faults) || api.denied > old(api.denied)
    // Every search that was opened is closed.
    ensures api.open == old(api.open)
    // On failure nothing stays allocated.
    ensures result == -1 ==> files == NULL && heap.mem == old(heap.mem)
    // On success exactly the table and one entry for each result stay allocated.
    ensures result != -1 ==>
              && Holding(heap.mem, old(heap.mem), h) && h.tmp == NULL && h.files != NULL && |h.kept| == result
              && files == (if namelist then h.files else NULL)
              && result < |h.slots| && Bounded(result, |h.slots|, copied)
    // They are the entries that pass the filter, sorted.
    ensures result != -1 ==>
              && Selected(h.kept, api.entries, read, convert, filter, compare)
              && (api.faults == old(api.faults) ==> read == |api.entries|)
  {
    files, h, read, copied := NULL, NOTHING, 0, 0;
    var dir := OpenDir(heap, api, dirname);
    if dir == null {
      result := -1;
      return;
    }
    ghost var base := heap.mem;
    assert dir.Others() == old(api.open);
    BlocksGone(old(heap.mem), dir.self, dir.wself, dir.patt);
    hide Holding, Bounded, Selected, Dir.Abs, Sound;
    var size, tmp;
    result, files, size, tmp, h, read, copied := ReadAll(dir, convert, filter, compare, base);
    files, h := Cleanup(heap, result < 0, files, size, tmp, base, h);
    if result >= 0 {
      HoldingTable(heap.mem, base, h);
      HoldingRebased(heap.mem, base, h, {dir.self, dir.wself, dir.patt});
    }
    dir.CloseDir();
    if !namelist {
      files := NULL;
    }
  }

  /** Release the temporary entry, and on error everything else. */
  method Cleanup(heap: Heap, failed: bool, files: Ptr, size: nat, tmp: Ptr, ghost base: Memory, ghost h: Held)
    returns (files': Ptr, ghost h': Held)
    requires heap.Valid() && NULL !in base && Holding(heap.mem, base, h) && Locals(h, files, size, |h.slots|, tmp)
    modifies heap`mem
    ensures heap.Valid() && h' == h.(tmp := NULL)
    ensures if failed then heap.mem == base && files' == NULL else Holding(heap.mem, base, h') && files' == files
  {
    HoldingTable(heap.mem, base, h);
    HoldingNoTmp(heap.mem, base, h);
    hide Holding;
    FreeTmp(heap, tmp);
    h', files' := h.(tmp := NULL), files;
    if failed {
      FreeAll(heap, files, size, base, h');
      files' := NULL;
    }
  }

  lemma BlocksGone(mem: Memory, a: Ptr, b: Ptr, c: Ptr)
    requires a !in mem && b !in mem && c !in mem
    ensures mem[a := Block][b := Block][c := Block] - {a, b, c} == mem
  {
  }

  method FreeTmp(heap: Heap, tmp: Ptr)
    requires heap.Valid() && (tmp == NULL || tmp in heap.mem)
    modifies heap`mem
    ensures heap.Valid() && heap.mem == old(heap.mem) - {tmp}
  {
    if tmp != NULL {
      heap.Free(tmp);
    }
    assert tmp == NULL ==> heap.mem - {tmp} == heap.mem;
  }
}
