/** `opendir`, `readdir_r`, `rewinddir` and `closedir` of dirent-win.h over the C heap and the system's
    search interface, with every call free to fail. */
module DirentWin {
  import opened Basics
  import opened CHeap
  import opened DirStream

  // ------------------------------------------------------------------------
  // The search interface of the system
  // ------------------------------------------------------------------------

  const INVALID: int := -1

  /** One directory, which does not change while it is read, and the searches open on it. */
  class FindApi {
    const entries: seq<FindData>
    const converts: bool  // whether the directory name has a wide-character form
    const resolves: bool  // whether its absolute path can be found
    var open: map<int, nat>
    ghost var denied: nat  // how often FindFirstFile failed
    ghost var faults: nat  // how often FindNextFile failed although entries were left

    ghost predicate Valid()
      reads this
    {
      INVALID !in open
    }

    method FindFirst() returns (handle: int, data: FindData)
      requires Valid()
      modifies `open, `denied
      ensures Valid()
      ensures if handle == INVALID then open == old(open) && denied == old(denied) + 1
              else && denied == old(denied) && handle !in old(open) && open == old(open)[handle := 1]
                   && entries != [] && data == entries[0]
    {
      data := FindData([], [], 0);
      var refused: bool := *;
      if entries == [] || refused {
        handle := INVALID;
        denied := denied + 1;
      } else {
        handle := 0;
        var left := open.Keys;
        while handle in open
          invariant 0 <= handle && left <= open.Keys && forall q <- open :: q >= handle ==> q in left
          decreases left
        {
          left := left - {handle};
          handle := handle + 1;
        }
        data := entries[0];
        open := open[handle := 1];
      }
    }

    method FindNext(handle: int) returns (ok: bool, data: FindData)
      requires Valid() && handle in open
      modifies `open, `faults
      ensures Valid()
      ensures if ok then old(open[handle]) < |entries| && data == entries[old(open[handle])]
                         && open == old(open)[handle := old(open[handle]) + 1] && faults == old(faults)
              else open == old(open) && faults == old(faults) + if open[handle] < |entries| then 1 else 0
    {
      data := FindData([], [], 0);
      if open[handle] >= |entries| {
        ok := false;
      } else if * {
        ok := false;
        faults := faults + 1;
      } else {
        ok := true;
        data := entries[open[handle]];
        open := open[handle := open[handle] + 1];
      }
    }

    method FindClose(handle: int)
      requires Valid() && handle in open
      modifies `open
      ensures Valid() && open == old(open) - {handle}
    {
      open := open - {handle};
    }
  }

  // ------------------------------------------------------------------------
  // Directory entries
  // ------------------------------------------------------------------------

  const FILE_ATTRIBUTE_DIRECTORY: nat := 0x10
  const FILE_ATTRIBUTE_DEVICE: nat := 0x40
  const SIZEOF_DIRENT: nat := 296  // with PATH_MAX 260 and a 64-bit size_t

  const PATH_MAX: nat := 260

  /** `struct _wdirent`, without the fields that are always the same. */
  datatype WDirent = WDirent(namlen: nat, dtype: DirentType, name: seq<nat>)

  /** `wcstombs`: the multi-byte form of a name, if it has one. */
  type Convert = seq<nat> -> Option<string>

  function TypeOf(attributes: nat): DirentType {
    if attributes / FILE_ATTRIBUTE_DEVICE % 2 == 1 then DT_CHR
    else if attributes / FILE_ATTRIBUTE_DIRECTORY % 2 == 1 then DT_DIR
    else DT_REG
  }

  /** The long name if it converts, else the short one if there is one and it converts, else a placeholder. */
  function ToDirent(convert: Convert, data: FindData): Dirent {
    var long := convert(data.fileName);
    var name := if long.None? && data.alternateName != [] then convert(data.alternateName) else long;
    match name
    case Some(n) => Dirent(0, SIZEOF_DIRENT, |n|, TypeOf(data.attributes), n)
    case None => Dirent(-1, 0, 1, DT_UNKNOWN, "?")
  }

  /** An entry is a device if bit 0x40 of its attributes is set, else a directory if bit 0x10 is, else a file,
      whatever its other bits are. */
  lemma TypeByAttributes(low: nat, directory: bool, middle: bool, device: bool, high: nat)
    requires low < 0x10
    ensures TypeOf(low + 0x10 * One(directory) + 0x20 * One(middle) + 0x40 * One(device) + 0x80 * high) ==
            if device then DT_CHR else if directory then DT_DIR else DT_REG
  {
    var attributes := low + 0x10 * One(directory) + 0x20 * One(middle) + 0x40 * One(device) + 0x80 * high;
    BitIs(attributes, 0x40, One(device), high, low + 0x10 * One(directory) + 0x20 * One(middle));
    BitIs(attributes, 0x10, One(directory), One(middle) + 2 * One(device) + 4 * high, low);
  }

  /** All attributes are of that form. */
  lemma EveryAttributes(attributes: nat) returns (low: nat, directory: bool, middle: bool, device: bool, high: nat)
    ensures low < 0x10
    ensures attributes == low + 0x10 * One(directory) + 0x20 * One(middle) + 0x40 * One(device) + 0x80 * high
  {
    var above3 := attributes / 0x10;
    var above4 := above3 / 2;
    var above5 := above4 / 2;
    low, directory, middle, device, high := attributes % 0x10, above3 % 2 == 1, above4 % 2 == 1, above5 % 2 == 1,
                                            above5 / 2;
  }

  /** What a caller gets for an entry: the long name whenever that converts, else the short one whenever there is
      one and it converts, with its length and the entry's type; the placeholder exactly when neither does. */
  lemma EntryExactly(convert: Convert, long: seq<nat>, short: seq<nat>, attributes: nat)
    ensures var d := ToDirent(convert, FindData(long, short, attributes));
            && (convert(long).Some? ==> d.name == convert(long).value)
            && (convert(long).None? && short != [] && convert(short).Some? ==> d.name == convert(short).value)
            && d.namlen == |d.name|
            && (if convert(long).Some? || (short != [] && convert(short).Some?)
                then d.dtype == TypeOf(attributes) && d.dtype != DT_UNKNOWN && d.off == 0 && d.reclen == 296
                else d == Dirent(-1, 0, 1, DT_UNKNOWN, "?"))
  {
  }

  // ------------------------------------------------------------------------
  // The stream object
  // ------------------------------------------------------------------------

  /** DIR and the _WDIR it points to: `self`, `wself` and `patt` are their three allocations. */
  class Dir {
    const heap: Heap
    const api: FindApi
    const self: Ptr
    const wself: Ptr
    const patt: Ptr
    var cached: bool
    var data: FindData
    var handle: int

    constructor (heap: Heap, api: FindApi, self: Ptr, wself: Ptr, patt: Ptr)
      ensures this.heap == heap && this.api == api && this.self == self && this.wself == wself && this.patt == patt
      ensures !cached && handle == INVALID
    {
      this.heap, this.api, this.self, this.wself, this.patt := heap, api, self, wself, patt;
      cached, handle, data := false, INVALID, FindData([], [], 0);
    }

    ghost function Abs(): Stream
      reads this, api
    {
      Stream(cached, data, if handle in api.open then Some(api.open[handle]) else None)
    }

    ghost predicate Valid()
      reads this, api
    {
      api.Valid() && (handle == INVALID || handle in api.open) && Sound(api.entries, Abs())
    }

    /** The search handles of everyone else. */
    ghost function Others(): map<int, nat>
      reads this, api
    {
      api.open - {handle}
    }

    /** `dirent_first`: open a search; its first entry waits in `data`. */
    method DirentFirst() returns (found: bool, ghost ok: bool)
      requires api.Valid() && handle !in api.open
      modifies this`cached, this`data, this`handle, api`open, api`denied
      ensures Valid() && Abs() == First(api.entries, old(Abs()), ok)
      ensures found <==> handle != INVALID
      ensures api.denied == old(api.denied) + if found then 0 else 1
      ensures Others() == old(api.open)
    {
      var first;
      handle, first := api.FindFirst();
      ok := handle != INVALID;
      if handle != INVALID {
        data := first;
        cached := true;
        found := true;
      } else {
        cached := false;
        found := false;
      }
    }

    /** `dirent_next`: the entry that waits, or the next one, or the end. */
    method DirentNext() returns (p: Option<FindData>, ghost ok: bool)
      requires Valid()
      modifies this`cached, this`data, this`handle, api`open, api`faults
      ensures Valid() && (Abs(), p) == Next(api.entries, old(Abs()), ok)
      ensures Others() == old(Others()) && old(api.faults) <= api.faults
      ensures p.Some? ==> api.faults == old(api.faults)
      ensures p == None && old(Abs()).cursor.Some? && old(Abs()).cursor.value < |api.entries| ==>
                api.faults > old(api.faults)
    {
      ok := true;
      if cached {
        p := Some(data);
        cached := false;
      } else if handle != INVALID {
        var more, next := api.FindNext(handle);
        if more {
          data := next;
          p := Some(data);
        } else {
          ok := false;
          api.FindClose(handle);
          handle := INVALID;
          p := None;
        }
      } else {
        p := None;
      }
    }

    /** `rewinddir`. */
    method Rewind() returns (ghost ok: bool)
      requires Valid()
      modifies this`cached, this`data, this`handle, api`open, api`denied
      ensures Valid() && Others() == old(Others())
      ensures Abs() == First(api.entries, old(Abs()), ok)
      ensures !(ok && api.entries != []) ==> api.denied > old(api.denied)
    {
      if handle != INVALID {
        api.FindClose(handle);
      }
      handle := INVALID;
      var _, isOpen := DirentFirst();
      ok := isOpen;
    }

    /** `readdir_r` into the entry at `entry`; false stands for the NULL result. */
    method ReadInto(convert: Convert, entry: Ptr) returns (some: bool, ghost ok: bool)
      requires Valid() && heap.Valid() && entry in heap.mem && heap.mem[entry].Entry?
      modifies this`cached, this`data, this`handle, api`open, api`faults, heap`mem
      ensures Valid() && heap.Valid()
      ensures var (s, d) := Next(api.entries, old(Abs()), ok);
              && Abs() == s && (some <==> d.Some?)
              && heap.mem == if d.Some? then old(heap.mem)[entry := Entry(ToDirent(convert, d.value))]
                             else old(heap.mem)
      ensures Others() == old(Others()) && old(api.faults) <= api.faults
      ensures some ==> api.faults == old(api.faults)
      ensures !some && old(Abs()).cursor.Some? && old(Abs()).cursor.value < |api.entries| ==>
                api.faults > old(api.faults)
    {
      var datap;
      datap, ok := DirentNext();
      if datap.Some? {
        var name := convert(datap.value.fileName);
        if name.None? && datap.value.alternateName != [] {
          name := convert(datap.value.alternateName);
        }
        var d;
        if name.Some? {
          d := Dirent(0, SIZEOF_DIRENT, |name.value|, TypeOf(datap.value.attributes), name.value);
        } else {
          d := Dirent(-1, 0, 1, DT_UNKNOWN, "?");
        }
        heap.Write(entry, d);
        some := true;
      } else {
        some := false;
      }
    }

    /** `_wreaddir_r`: the next entry with its name as it is, cut at PATH_MAX units. */
    method WRead() returns (entry: Option<WDirent>, ghost ok: bool)
      requires Valid()
      modifies this`cached, this`data, this`handle, api`open, api`faults
      ensures Valid() && Others() == old(Others())
      ensures var (s, d) := Next(api.entries, old(Abs()), ok);
              && Abs() == s && (entry.Some? <==> d.Some?)
              && (d.Some? ==>
                    && entry.value.name <= d.value.fileName && |entry.value.name| == entry.value.namlen
                    && entry.value.namlen == (if |d.value.fileName| < 260 then |d.value.fileName| else 260)
                    && entry.value.dtype == TypeOf(d.value.attributes))
      ensures entry == None && old(Abs()).cursor.Some? && old(Abs()).cursor.value < |api.entries| ==>
                api.faults > old(api.faults)
    {
      var datap;
      datap, ok := DirentNext();
      if datap.None? {
        return None, ok;
      }
      var fileName, name := datap.value.fileName, [];
      var n := 0;
      while n < PATH_MAX && n < |fileName|
        invariant n <= |fileName| && n <= PATH_MAX && name == fileName[..n]
      {
        name := name + [fileName[n]];
        n := n + 1;
      }
      entry := Some(WDirent(n, TypeOf(datap.value.attributes), name));
    }

    /** `_wclosedir`: close the search and free the structure and its pattern. */
    method WCloseDir()
      requires api.Valid() && heap.Valid() && (handle == INVALID || handle in api.open)
      requires wself in heap.mem && (patt == NULL || patt in heap.mem) && wself != patt
      modifies this`handle, api`open, heap`mem
      ensures api.Valid() && heap.Valid() && handle == INVALID
      ensures api.open == old(Others()) && heap.mem == old(heap.mem) - {wself, patt}
    {
      if handle != INVALID {
        api.FindClose(handle);
        handle := INVALID;
      }
      if patt != NULL {
        heap.Free(patt);
      }
      heap.Free(wself);
    }

    /** `closedir`. */
    method CloseDir()
      requires api.Valid() && heap.Valid() && (handle == INVALID || handle in api.open)
      requires {self, wself, patt} <= heap.mem.Keys && self != wself && self != patt && wself != patt
      modifies this`handle, api`open, heap`mem
      ensures api.Valid() && heap.Valid() && handle == INVALID
      ensures api.open == old(Others()) && heap.mem == old(heap.mem) - {self, wself, patt}
    {
      WCloseDir();
      heap.Free(self);
    }
  }

  /** `opendir`: every failure gives back all that was allocated or opened before it. */
  method OpenDir(heap: Heap, api: FindApi, dirname: string) returns (dir: Dir?)
    requires heap.Valid() && api.Valid()
    modifies heap, api`open, api`denied
    ensures heap.Valid() && api.Valid()
    ensures dir == null <==>
              dirname == "" || !api.converts || !api.resolves
              || heap.faults > old(heap.faults) || api.denied > old(api.denied)
    ensures dir == null ==> heap.mem == old(heap.mem) && api.open == old(api.open)
    ensures dir != null ==>
              && fresh(dir) && dir.heap == heap && dir.api == api && dir.Valid()
              && api.entries != [] && dir.Abs() == Stream(true, api.entries[0], Some(1))
              && dir.handle !in old(api.open) && api.open == old(api.open)[dir.handle := 1]
              && dir.self != dir.wself && dir.self != dir.patt && dir.wself != dir.patt
              && (forall p <- {dir.self, dir.wself, dir.patt} :: p !in old(heap.mem))
              && heap.mem == old(heap.mem)[dir.self := Block][dir.wself := Block][dir.patt := Block]
              && heap.faults == old(heap.faults)
  {
    if dirname == "" {
      return null;
    }
    var self := heap.Malloc(Block);
    if self == NULL {
      return null;
    }
    dir := null;
    if api.converts {
      dir := WOpenDir(heap, api, self);
    }
    if dir == null {
      heap.Free(self);
    }
  }

  /** `_wopendir` on the wide-character name, for the DIR at `self`. */
  method WOpenDir(heap: Heap, api: FindApi, self: Ptr) returns (dir: Dir?)
    requires heap.Valid() && api.Valid() && self in heap.mem
    modifies heap, api`open, api`denied
    ensures heap.Valid() && api.Valid()
    ensures dir == null <==> !api.resolves || heap.faults > old(heap.faults) || api.denied > old(api.denied)
    ensures dir == null ==> heap.mem == old(heap.mem) && api.open == old(api.open)
    ensures heap.faults >= old(heap.faults) && api.denied >= old(api.denied)
    ensures dir != null ==>
              && fresh(dir) && dir.heap == heap && dir.api == api && dir.Valid() && dir.self == self
              && api.entries != [] && dir.Abs() == Stream(true, api.entries[0], Some(1))
              && dir.handle !in old(api.open) && api.open == old(api.open)[dir.handle := 1]
              && dir.wself !in old(heap.mem) && dir.patt !in old(heap.mem) && dir.wself != dir.patt
              && heap.mem == old(heap.mem)[dir.wself := Block][dir.patt := Block]
  {
    var wself := heap.Malloc(Block);
    if wself == NULL {
      return null;
    }
    var patt := heap.Malloc(Block);
    dir := new Dir(heap, api, self, wself, patt);
    var error := true;
    if patt != NULL && api.resolves {
      var found, _ := dir.DirentFirst();
      error := !found;
    }
    if error {
      dir.WCloseDir();
      return null;
    }
  }
}
