/** The C heap that the directory functions allocate from; any allocation may fail. */
module CHeap {

  type Ptr = nat
  const NULL: Ptr := 0

  datatype DirentType = DT_UNKNOWN | DT_CHR | DT_DIR | DT_REG

  /** `struct dirent`; `d_ino` is always zero. */
  datatype Dirent = Dirent(off: int, reclen: nat, namlen: nat, dtype: DirentType, name: string)

  /** What a live allocation holds: a structure not looked into, a pointer table, or a directory entry. */
  datatype Cell = Block | Table(slots: seq<Ptr>) | Entry(dirent: Dirent)

  type Memory = map<Ptr, Cell>

  /** `free` may be given NULL or a live block: a second `free` of the same block is a proof error. */
  class Heap {
    var mem: Memory
    ghost var faults: nat  // allocations refused so far

    ghost predicate Valid()
      reads this
    {
      NULL !in mem
    }

    method Malloc(cell: Cell) returns (p: Ptr)
      requires Valid()
      modifies this
      ensures Valid()
      ensures if p == NULL then mem == old(mem) && faults == old(faults) + 1
              else p !in old(mem) && mem == old(mem)[p := cell] && faults == old(faults)
    {
      p := Fresh();
      if * {
        p := NULL;
        faults := faults + 1;
      } else {
        mem := mem[p := cell];
      }
    }

    method Fresh() returns (p: Ptr)
      ensures p !in mem && p != NULL
    {
      p := 1;
      var left := mem.Keys;
      while p in mem
        invariant 0 < p && left <= mem.Keys && forall q <- mem :: q >= p ==> q in left
        decreases left
      {
        left := left - {p};
        p := p + 1;
      }
    }

    method Free(p: Ptr)
      requires Valid() && (p == NULL || p in mem)
      modifies `mem
      ensures Valid() && mem == old(mem) - {p}
    {
      mem := mem - {p};
    }

    /** `realloc` of a pointer table: the old block goes and its pointers are copied; on failure nothing changes. */
    method Realloc(files: Ptr, n: nat) returns (p: Ptr)
      requires Valid() && (files != NULL ==> files in mem && mem[files].Table? && |mem[files].slots| <= n)
      modifies this
      ensures Valid()
      ensures if p == NULL then mem == old(mem) && faults == old(faults) + 1
              else && faults == old(faults) && p !in old(mem) - {files}
                   && p in mem && mem[p].Table? && |mem[p].slots| == n
                   && mem == (old(mem) - {files})[p := mem[p]]
                   && (files != NULL ==> old(mem[files].slots) <= mem[p].slots)
    {
      var slots := if files == NULL then [] else mem[files].slots;
      p := Fresh();
      if * {
        p := NULL;
        faults := faults + 1;
      } else {
        mem := (mem - {files})[p := Table(slots + seq(n - |slots|, _ => NULL))];
      }
    }

    /** `table[i] = p`. */
    method Store(table: Ptr, i: nat, p: Ptr)
      requires Valid() && table in mem && mem[table].Table? && i < |mem[table].slots|
      modifies `mem
      ensures Valid() && mem == old(mem)[table := Table(old(mem[table].slots)[i := p])]
    {
      mem := mem[table := Table(mem[table].slots[i := p])];
    }

    /** `*p = d`. */
    method Write(p: Ptr, d: Dirent)
      requires Valid() && p in mem && mem[p].Entry?
      modifies `mem
      ensures Valid() && mem == old(mem)[p := Entry(d)]
    {
      mem := mem[p := Entry(d)];
    }
  }
}
