/** The imperative monitor: `watch` and the inner loop of `_read_async`, with the environment taking
    steps in between, proved to produce only runs of the transition system of module Monitor. */
module LinuxMonitor {
  import opened Basics
  import opened FindFiles
  import opened Monitor
  import opened MonitorProofs
  import opened MonitorTheorems
  import opened MonitorReports
  import opened InotifyBuffer

  // ------------------------------------------------------------------------
  // What opendir and readdir show of the directory tree
  // ------------------------------------------------------------------------

  /** The entries `es`, read at directory `p`, show exactly the directories below it. */
  ghost predicate Shows(es: seq<Entry>, dirs: Tree, p: Path) {
    forall q: Path {:trigger Resolves(es, q[|p|..], true)} :: p < q ==> (q in dirs <==> Resolves(es, q[|p|..], true))
  }

  /** The paths that `watch` collects are the subtree of its argument. */
  lemma WalkListsSubtree(es: seq<Entry>, dirs: Tree, p: Path)
    requires p in dirs && Shows(es, dirs, p)
    ensures ListsSubtree(dirs, p, [p] + Preorder(es, p, true, 2))
  {
    var l := Preorder(es, p, true, 2);
    PreorderUnder(es, p, true, 2);
    forall q: Path | p < q
      ensures q in l <==> q in dirs
    {
      var rel := q[|p|..];
      assert q == p + rel;
      ListsWhatResolves(es, p, rel, true, 2);
    }
    forall q <- dirs | p <= q
      ensures q in [p] + l
    {
      assert q == p || p < q;
    }
  }

  ghost function Below(dirs: Tree, p: Path): set<Path> {
    set q | q in dirs && p < q
  }

  lemma BelowShrinks(dirs: Tree, p: Path, c: Path)
    requires c in dirs && p < c
    ensures Below(dirs, c) < Below(dirs, p)
  {
    forall q <- Below(dirs, c) ensures p < q {
      assert p == c[..|p|] == q[..|p|];
    }
    assert c in Below(dirs, p) && c !in Below(dirs, c);
  }

  /** Every well-formed tree of directories can be shown that way, at every directory, by entries that
      can all be opened. */
  lemma {:induction false} SomeListingShows(dirs: Tree, p: Path) returns (es: seq<Entry>)
    requires WellFormed(dirs) && p in dirs
    ensures Shows(es, dirs, p) && AllOpen(es) && DistinctNames(es)
    decreases Below(dirs, p), 1
  {
    var children := set q | q in dirs && p < q && |q| == |p| + 1;
    es := ListingOf(dirs, p, children);
    forall q: Path | p < q
      ensures q in dirs <==> Resolves(es, q[|p|..], true)
    {
      if q in dirs {
        PrefixClosed(dirs, q, |p| + 1);
        assert q[..|p| + 1] in children;
      }
    }
  }

  lemma {:induction false} ListingOf(dirs: Tree, p: Path, children: set<Path>) returns (es: seq<Entry>)
    requires WellFormed(dirs) && p in dirs
    requires forall c <- children :: c in dirs && p < c && |c| == |p| + 1
    ensures AllOpen(es) && DistinctNames(es)
    ensures forall e <- es :: p + [e.name] in children
    ensures forall q: Path :: p < q ==> (q in dirs && q[..|p| + 1] in children <==> Resolves(es, q[|p|..], true))
    decreases Below(dirs, p), 0, children
  {
    if children == {} {
      es := [];
    } else {
      var c :| c in children;
      var rest := ListingOf(dirs, p, children - {c});
      BelowShrinks(dirs, p, c);
      var sub := SomeListingShows(dirs, c);
      var e := Entry(c[|p|], Dir(true, sub));
      assert c == p + [e.name] && Last(c) == e.name;
      es := [e] + rest;
      ListingCons(e, rest);
      hide AllOpen, DistinctNames;
      forall q: Path | p < q
        ensures q in dirs && q[..|p| + 1] in children <==> Resolves(es, q[|p|..], true)
      {
        ResolvesCons(e, rest, q[|p|..]);
        ResolvesChild(dirs, p, c, sub, q);
      }
    }
  }

  lemma ListingCons(e: Entry, rest: seq<Entry>)
    requires e.node.Dir? && e.node.opens && AllOpen(e.node.entries) && DistinctNames(e.node.entries)
    requires AllOpen(rest) && DistinctNames(rest) && forall x <- rest :: x.name != e.name
    ensures AllOpen([e] + rest) && DistinctNames([e] + rest)
  {
    assert forall x <- [e] + rest :: x == e || x in rest;
  }

  lemma ResolvesCons(e: Entry, rest: seq<Entry>, rel: Path)
    requires rel != []
    ensures Resolves([e] + rest, rel, true) <==> ResolvesVia(e, rel, true) || Resolves(rest, rel, true)
  {
    assert forall x <- [e] + rest :: x == e || x in rest;
    assert e in [e] + rest && forall x <- rest :: x in [e] + rest;
  }

  lemma ResolvesChild(dirs: Tree, p: Path, c: Path, sub: seq<Entry>, q: Path)
    requires WellFormed(dirs) && c in dirs && p < c && |c| == |p| + 1 && Shows(sub, dirs, c) && p < q
    ensures var e := Entry(c[|p|], Dir(true, sub));
            ResolvesVia(e, q[|p|..], true) <==> q in dirs && q[..|p| + 1] == c
  {
    var rel := q[|p|..];
    assert Last(c) == c[|p|];
    assert c == p + [c[|p|]] && q == p + rel;
    assert q[..|p| + 1] == p + [rel[0]];
    if rel[0] == c[|p|] {
      assert q[..|p| + 1] == c;
      if |rel| > 1 {
        assert c < q && q[|c|..] == rel[1..];
      } else {
        assert q == c;
      }
    } else {
      assert q[|p|] != c[|p|];
      assert q[..|p| + 1][|p|] != c[|p|];
    }
  }

  // ------------------------------------------------------------------------
  // The kernel side
  // ------------------------------------------------------------------------

  /** The length of the name field: none without a name, else room for a NUL and a multiple of the header. */
  function Padded(name: string): nat {
    if name == "" then 0 else (|name| / HEADER + 1) * HEADER
  }

  predicate Representable(e: Event) {
    && 0 <= e.wd < 0x8000_0000 && e.mask < 0x1_0000_0000 && Padded(e.name) < 0x1_0000_0000
    && forall c <- e.name :: 0 < c as int < 256
  }

  predicate HasRoom(e: Event, room: nat) {
    Representable(e) && HEADER + Padded(e.name) <= room
  }

  /** The file system and the inotify instance. */
  class Kernel {
    var dirs: Tree
    var watches: map<Ino, Wd>
    var nextWd: Wd
    var queue: seq<Event>
    ghost var sent: seq<Event>

    method AddWatch(p: Path) returns (wd: Wd)
      requires p in dirs
      modifies `watches, `nextWd
      ensures dirs[p] in watches && wd == watches[dirs[p]]
      ensures if dirs[p] in old(watches) then watches == old(watches) && nextWd == old(nextWd)
              else watches == old(watches)[dirs[p] := old(nextWd)] && nextWd == old(nextWd) + 1
    {
      var ino := dirs[p];
      if ino !in watches {
        watches := watches[ino := nextWd];
        nextWd := nextWd + 1;
      }
      wd := watches[ino];
    }

    /** `read`: at least one of the oldest events is laid out at the start of the buffer, or none if the
        first has no room. How many fit is left open; the rest of the buffer stays as it was. */
    method ReadEvents(buffer: array<Byte>) returns (r: int, ghost raws: seq<Raw>)
      requires queue != []
      modifies `queue, buffer
      ensures r == -1 <==> !HasRoom(old(queue)[0], buffer.Length)
      ensures r == -1 ==> raws == [] && queue == old(queue) && buffer[..] == old(buffer[..])
      ensures r != -1 ==>
                && 0 < r <= buffer.Length && AllFit(raws) && buffer[..r] == AllBytes(raws)
                && buffer[r..] == old(buffer[r..])
                && 0 < |raws| <= |old(queue)| && (forall raw <- raws :: raw.len == Padded(raw.event.name))
                && Events(raws) == old(queue)[..|raws|] && queue == old(queue)[|raws|..]
    {
      var e := queue[0];
      if !HasRoom(e, buffer.Length) {
        return -1, [];
      }
      var raw := Raw(e, 0, Padded(e.name));
      assert |e.name| < raw.len || (e.name == "" && raw.len == 0);
      r := HEADER + raw.len;
      raws := [raw];
      HeaderAt(raw, []);
      assert Bytes(raw) + [] == Bytes(raw) && raws[1..] == [];
      assert AllBytes(raws) == Bytes(raw) + AllBytes(raws[1..]) == Bytes(raw);
      Put(buffer, Bytes(raw));
      queue := queue[1..];
    }
  }

  method Put(buffer: array<Byte>, bytes: seq<Byte>)
    requires |bytes| <= buffer.Length
    modifies buffer
    ensures buffer[..|bytes|] == bytes && buffer[|bytes|..] == old(buffer[|bytes|..])
  {
    for i := 0 to |bytes|
      invariant buffer[..i] == bytes[..i] && buffer[i..] == old(buffer[i..])
    {
      buffer[i] := bytes[i];
      assert buffer[..i + 1] == bytes[..i] + [bytes[i]] == bytes[..i + 1];
    }
  }

  /** How the loop over a buffer, or the service as a whole, ends: it went through, an exception was thrown, or a
      name taken from foreign bytes is no plain name, so that the path leads out of the directory. */
  datatype Ending = Done | Threw | Astray

  predicate Foreign(name: string) {
    '/' in name || name == "." || name == ".."
  }

  /** At place `m` of the trace an event is read, or there is nothing pending, so that the read waits. */
  ghost predicate RoundAt(start: State, trace: seq<Step>, m: nat) {
    m <= |trace| && ((m < |trace| && trace[m].Read?) || Pending(Run(start, trace[..m])) == [])
  }

  /** Each round has its place, from `was` on and in order; two share one only if nothing is pending there. */
  ghost predicate Rounds(start: State, trace: seq<Step>, was: nat, marks: seq<nat>) {
    && (forall k :: 0 <= k < |marks| ==> was <= marks[k] && RoundAt(start, trace, marks[k]))
    && (forall j, k :: 0 <= j < k < |marks| ==>
          && marks[j] <= marks[k] <= |trace|
          && (marks[j] == marks[k] ==> Pending(Run(start, trace[..marks[j]])) == []))
  }

  lemma RoundsLonger(start: State, trace: seq<Step>, longer: seq<Step>, was: nat, marks: seq<nat>)
    requires Rounds(start, trace, was, marks) && trace <= longer
    ensures Rounds(start, longer, was, marks)
  {
    hide Pending, Run;
    forall k | 0 <= k < |marks|
      ensures marks[k] <= |trace| && longer[..marks[k]] == trace[..marks[k]] && RoundAt(start, longer, marks[k])
    {
      assert RoundAt(start, trace, marks[k]);
      assert longer[..marks[k]] == trace[..marks[k]];
    }
  }

  lemma ReadIsRound(start: State, trace: seq<Step>, m: nat)
    requires m < |trace| && trace[m].Read?
    ensures RoundAt(start, trace, m)
  {
  }

  /** A round at the end of the trace, once it is known what comes next. */
  lemma RoundsMore(start: State, trace: seq<Step>, longer: seq<Step>, was: nat, marks: seq<nat>)
    requires Rounds(start, trace, was, marks) && trace <= longer && was <= |trace|
    requires RoundAt(start, longer, |trace|)
    ensures Rounds(start, longer, was, marks + [|trace|])
  {
    hide Pending, Run;
    RoundsLonger(start, trace, longer, was, marks);
    forall j | 0 <= j < |marks|
      ensures marks[j] <= |trace| && (marks[j] == |trace| ==> Pending(Run(start, longer[..marks[j]])) == [])
    {
      assert RoundAt(start, trace, marks[j]);
      assert longer[..marks[j]] == trace[..marks[j]];
    }
  }

  /** The first event left has no name, and the bytes that follow it in the buffer, at `offset`, are read
      as something that is no plain name. */
  ghost predicate OwnNameMissing(bytes: seq<Byte>, stale: seq<Byte>, offset: nat, left: seq<Raw>) {
    && AllFit(left) && left != [] && left[0].len == 0 && offset <= |bytes|
    && bytes[offset..] == AllBytes(left[1..]) && Foreign(CString(bytes + stale, offset))
  }

  lemma ForeignFollows(bytes: seq<Byte>, stale: seq<Byte>, offset: nat, left: seq<Raw>)
    requires OwnNameMissing(bytes, stale, offset, left)
    ensures !NulsFollow(left, stale)
  {
    assert AllBytes(left[1..]) + stale == (bytes + stale)[offset..];
  }

  /** From log `was` to log `now` the events up to those left were called back, each once and in order. */
  ghost predicate CalledBack(raws: seq<Raw>, left: seq<Raw>, was: seq<Change>, now: seq<Change>) {
    && |left| <= |raws| && left == raws[|raws| - |left|..]
    && was <= now && |now| == |was| + |raws| - |left|
    && forall i :: 0 <= i < |raws| - |left| ==> Tells(now[|was| + i], raws[i].event)
  }

  lemma CalledBackNone(raws: seq<Raw>, log: seq<Change>)
    ensures CalledBack(raws, raws, log, log)
  {
  }

  lemma CalledBackMore(raws: seq<Raw>, left: seq<Raw>, was: seq<Change>, mid: seq<Change>, now: seq<Change>)
    requires CalledBack(raws, left, was, mid) && left != []
    requires |now| == |mid| + 1 && now[..|mid|] == mid && Tells(now[|mid|], left[0].event)
    ensures CalledBack(raws, left[1..], was, now)
  {
    hide Tells;
    forall i | 0 <= i < |raws| - |left| + 1
      ensures Tells(now[|was| + i], raws[i].event)
    {
      if i < |raws| - |left| {
        assert now[|was| + i] == mid[|was| + i];
      }
    }
  }

  // ------------------------------------------------------------------------
  // The monitor
  // ------------------------------------------------------------------------

  class Watcher {
    const fd: Kernel
    var wdMap: map<Wd, Path>
    var log: seq<Change>

    /** What opendir and readdir yield, as a function of the tree at the time of the call. */
    const listing: (Tree, Path) -> seq<Entry>

    ghost const root: Path
    ghost const start: State
    ghost var trace: seq<Step>

    ghost function Abs(buffer: seq<Event>): State
      reads this, fd
    {
      State(fd.dirs, fd.watches, fd.nextWd, fd.queue, buffer, wdMap, log, fd.sent)
    }

    ghost predicate ListingShows() {
      forall dirs: Tree, p: Path :: WellFormed(dirs) && p in dirs ==> Shows(listing(dirs, p), dirs, p)
    }

    /** The state, with `buffer` still to be handled, is what the steps of `trace` lead to. */
    ghost predicate Valid(buffer: seq<Event>)
      reads this, fd
    {
      && ListingShows()
      && Initial(root, start) && Allowed(root, start, trace)
      && Abs(buffer) == Run(start, trace)
    }

    lemma ValidInv(buffer: seq<Event>)
      requires Valid(buffer)
      ensures Reachable(root, Abs(buffer)) && Inv(root, Abs(buffer))
    {
      CoverageAlways(root, start, trace);
    }

    lemma HeadIsKnown(pending: seq<Event>)
      requires Valid(pending) && pending != []
      ensures pending[0].wd in wdMap && WellFormed(fd.dirs) && ListingShows()
    {
      ValidInv(pending);
      assert pending[0] in Pending(Abs(pending));
    }

    /** The constructor and the caller's first `watch(root)`, which succeeds. */
    constructor (fd: Kernel, root: Path, listing: (Tree, Path) -> seq<Entry>)
      requires forall dirs: Tree, p: Path :: WellFormed(dirs) && p in dirs ==> Shows(listing(dirs, p), dirs, p)
      requires WellFormed(fd.dirs) && root in fd.dirs && AllOpen(listing(fd.dirs, root))
      requires fd.watches == map[] && fd.nextWd == 1 && fd.queue == [] && fd.sent == []
      modifies fd
      ensures Valid([]) && this.root == root && this.fd == fd && this.listing == listing
      ensures trace == [] && log == [] && fd.dirs == old(fd.dirs)
      ensures forall p <- fd.dirs :: root <= p ==> Good(Abs([]), p)
    {
      this.fd := fd;
      this.root := root;
      this.listing := listing;
      wdMap := map[];
      log := [];
      trace := [];
      ghost var order := [root] + Preorder(listing(fd.dirs, root), root, true, 2);
      WalkListsSubtree(listing(fd.dirs, root), fd.dirs, root);
      start := Start(fd.dirs, order);
      new;
      var ok := Watch(root, []);
      StartEstablishes(root, fd.dirs, order);
      AddWatchesKeeps(State(fd.dirs, map[], 1, [], [], map[], [], []), order);
    }

    /** `watch`: walk the subtree, then watch every directory found and record its path. It throws exactly
        when there is no such directory or some directory of the subtree cannot be opened, and then
        nothing has changed. */
    method Watch(path: Path, ghost buffer: seq<Event>) returns (ok: bool)
      requires ListingShows() && WellFormed(fd.dirs)
      modifies this`wdMap, fd`watches, fd`nextWd
      ensures ok <==> path in fd.dirs && AllOpen(listing(fd.dirs, path))
      ensures !ok ==> Abs(buffer) == old(Abs(buffer))
      ensures path in fd.dirs ==>
                var order := [path] + Preorder(listing(fd.dirs, path), path, true, 2);
                ListsSubtree(fd.dirs, path, order) && (ok ==> Abs(buffer) == AddWatches(old(Abs(buffer)), order))
    {
      var es := listing(fd.dirs, path);
      var node := if path in fd.dirs then Dir(true, es) else Dir(false, []);
      var paths := new PathList([path]);
      WalkIsPreorder(es, path, true, 2);
      if path in fd.dirs {
        WalkListsSubtree(es, fd.dirs, path);
      }
      ghost var open: nat;
      ok, open := Find(node, path, paths, true, 2);
      if ok {
        WatchAll(paths, buffer);
      }
    }

    /** The loop of `watch` over the paths found. */
    method WatchAll(paths: PathList, ghost buffer: seq<Event>)
      requires forall p <- paths.items :: p in fd.dirs
      modifies this`wdMap, fd`watches, fd`nextWd
      ensures Abs(buffer) == AddWatches(old(Abs(buffer)), paths.items)
    {
      ghost var order := paths.items;
      var i := 0;
      while i < |paths.items|
        invariant 0 <= i <= |order| && paths.items == order && fd.dirs == old(fd.dirs)
        invariant AddWatches(Abs(buffer), order[i..]) == AddWatches(old(Abs(buffer)), order)
      {
        var p := paths.items[i];
        assert order[i..][0] == p && order[i..][1..] == order[i + 1..];
        ghost var now := Abs(buffer);
        var wd := fd.AddWatch(p);
        wdMap := wdMap[wd := p];
        assert Abs(buffer) == AddWatch(now, p);
        i := i + 1;
      }
    }

    /** Anything that other processes may do to the tree, and the kernel's reports of it: any number of
        environment steps. Callers know this contract only, so they are proved for all of them. */
    method Environment(ghost buffer: seq<Event>)
      requires Valid(buffer)
      modifies fd, this`trace
      ensures Valid(buffer)
      ensures |old(trace)| <= |trace| && trace[..|old(trace)|] == old(trace)
      ensures forall i :: |old(trace)| <= i < |trace| ==> !IsMonitorStep(trace[i])
    {
      assert trace[..|trace|] == trace;
    }

    /** `read` as a step of the run: it fails exactly when the first event has no room in the buffer. */
    method Receive(buffer: array<Byte>) returns (r: int, ghost raws: seq<Raw>)
      requires Valid([]) && fd.queue != []
      modifies this`trace, fd`queue, buffer
      ensures r == -1 <==> !HasRoom(old(fd.queue)[0], buffer.Length)
      ensures r == -1 ==> raws == [] && Valid([]) && trace == old(trace) && fd.queue == old(fd.queue)
      ensures r != -1 ==>
                && 0 < r <= buffer.Length && AllFit(raws) && buffer[..r] == AllBytes(raws)
                && 0 < |raws| <= |old(fd.queue)|
                && Events(raws) == old(fd.queue)[..|raws|] && fd.queue == old(fd.queue)[|raws|..]
                && Valid(Events(raws)) && trace == old(trace) + [Read(|raws|)]
    {
      ghost var before := Abs([]);
      r, raws := fd.ReadEvents(buffer);
      if r != -1 {
        trace := trace + [Read(|raws|)];
        assert trace[..|trace| - 1] == old(trace);
        assert [] + Events(raws) == Events(raws);
        assert Abs(Events(raws)) == Next(before, Read(|raws|));
      }
    }

    /** The C string at `buffer + i`. */
    method ReadName(buffer: array<Byte>, i: nat) returns (name: string)
      requires i <= buffer.Length
      ensures name == CString(buffer[..], i)
    {
      name := "";
      var k := i;
      while k < buffer.Length && buffer[k] != 0
        invariant i <= k <= buffer.Length
        invariant name + CString(buffer[..], k) == CString(buffer[..], i)
      {
        name := name + [buffer[k] as char];
        k := k + 1;
      }
    }

    /** Decode the event at `offset`, and find where the next one starts. The name is the event's own
        exactly when it has a name field or a NUL, or the end of the buffer, follows its header. */
    method Decode(buffer: array<Byte>, offset: nat, r: nat, ghost rest: seq<Raw>)
      returns (wd: Wd, mask: nat, name: string, next: nat)
      requires offset < r <= buffer.Length && AllFit(rest) && buffer[offset..r] == AllBytes(rest)
      ensures rest != [] && wd == rest[0].event.wd && mask == rest[0].event.mask
      ensures offset + HEADER <= next <= r && buffer[next..r] == AllBytes(rest[1..])
      ensures next == offset + HEADER <==> rest[0].len == 0
      ensures name == CString(buffer[..], offset + HEADER)
      ensures name == rest[0].event.name <==>
              next > offset + HEADER || next == buffer.Length || buffer[next] == 0
    {
      HeadDecodes(buffer[..], offset, r, rest);
      wd := S32At(buffer[..], offset);
      mask := U32At(buffer[..], offset + 4);
      name := ReadName(buffer, offset + HEADER);
      next := offset + U32At(buffer[..], offset + 12) + HEADER;
    }

    /** Event `e`, under a name that may be read for it, names a directory in which something cannot be opened. */
    ghost predicate CannotWatch(e: Event)
      reads this, fd
    {
      e.wd in wdMap && exists name :: CanRead(e, name) && Unopenable(Append(wdMap[e.wd], name))
    }

    predicate Unopenable(p: Path)
      reads this, fd
    {
      p in fd.dirs && !AllOpen(listing(fd.dirs, p))
    }

    /** The body of the loop: decode, let the environment act, and handle the event. */
    method HandleNext(buffer: array<Byte>, offset: nat, r: nat, ghost rest: seq<Raw>)
      returns (next: nat, outcome: Ending)
      requires offset < r <= buffer.Length && AllFit(rest) && buffer[offset..r] == AllBytes(rest)
      requires Valid(Events(rest))
      modifies this, fd
      ensures rest != [] && offset < next <= r && buffer[next..r] == AllBytes(rest[1..])
      ensures |old(trace)| <= |trace| && trace[..|old(trace)|] == old(trace)
      ensures outcome.Done? ==>
                && Valid(Events(rest[1..])) && |log| == |old(log)| + 1
                && log[..|old(log)|] == old(log) && Tells(log[|old(log)|], rest[0].event)
      ensures !outcome.Done? ==> Valid(Events(rest)) && log == old(log)
      ensures outcome.Threw? ==>
                var name := CString(buffer[..], offset + HEADER);
                CannotWatch(rest[0].event) && CanRead(rest[0].event, name)
                && Unopenable(Append(wdMap[rest[0].event.wd], name))
      ensures outcome.Astray? ==> OwnNameMissing(buffer[..r], buffer[r..], next, rest)
    {
      var wd, mask, name;
      wd, mask, name, next := Decode(buffer, offset, r, rest);
      EventsTail(rest);
      Environment(Events(rest));
      if Foreign(name) && next == offset + HEADER {
        assert buffer[..r] + buffer[r..] == buffer[..] && buffer[..r][next..] == buffer[next..r];
        return next, Astray;
      }
      var ok := Turn(Events(rest), wd, mask, name);
      outcome := if ok then Done else Threw;
    }

    /** The loop over one buffer of `r` bytes: `raws` is what the kernel put there, `left` what was not
        handled. Every event is decoded and handled once and in order, the environment may act before
        each turn, and the walk ends exactly at `r`, unless a directory cannot be opened or the name
        taken for an event that has none is no plain name. */
    method HandleBuffer(buffer: array<Byte>, r: nat, ghost raws: seq<Raw>)
      returns (offset: nat, outcome: Ending, ghost left: seq<Raw>)
      requires r <= buffer.Length && AllFit(raws) && buffer[..r] == AllBytes(raws) && Valid(Events(raws))
      modifies this, fd
      ensures Valid(Events(left)) && |old(trace)| <= |trace| && trace[..|old(trace)|] == old(trace)
      ensures CalledBack(raws, left, old(log), log)
      ensures outcome.Done? ==> left == [] && offset == r
      ensures outcome.Threw? ==> left != [] && CannotWatch(left[0].event)
      ensures outcome.Astray? ==> OwnNameMissing(buffer[..r], buffer[r..], offset, left)
      ensures outcome.Astray? ==> !NulsFollow(raws, buffer[r..])
    {
      hide CalledBack, OwnNameMissing, CannotWatch, Valid, AllBytes, Tells, Events;
      offset := 0;
      outcome := Done;
      left := raws;
      assert CalledBack(raws, left, log, log) by { CalledBackNone(raws, log); }
      while offset < r && outcome.Done?
        invariant 0 <= offset <= r && AllFit(left) && Valid(Events(left))
        invariant outcome.Done? ==> buffer[offset..r] == AllBytes(left)
        invariant |old(trace)| <= |trace| && trace[..|old(trace)|] == old(trace)
        invariant CalledBack(raws, left, old(log), log)
        invariant NulsFollow(raws, buffer[r..]) ==> NulsFollow(left, buffer[r..]) && !outcome.Astray?
        invariant outcome.Threw? ==> left != [] && CannotWatch(left[0].event)
        invariant outcome.Astray? ==> OwnNameMissing(buffer[..r], buffer[r..], offset, left)
        decreases r - offset
      {
        ghost var mid := log;
        offset, outcome := HandleNext(buffer, offset, r, left);
        if outcome.Done? {
          CalledBackMore(raws, left, old(log), mid, log);
          left := left[1..];
        } else if outcome.Astray? {
          ForeignFollows(buffer[..r], buffer[r..], offset, left);
        }
      }
      if outcome.Done? {
        NoBytesLeft(left);
      }
    }

    /** Why the service may end: nothing is left; an exception, for an event that has no room in the buffer or a
        directory that the event names and cannot be opened; or an event without a name with no NUL behind it, among the
        events `raws` that the buffer holds. */
    ghost predicate EndedBy(outcome: Ending, bytes: seq<Byte>, raws: seq<Raw>, left: seq<Raw>)
      reads this, fd
    {
      match outcome
      case Done => left == []
      case Threw =>
        || (left == [] && fd.queue != [] && !HasRoom(fd.queue[0], |bytes|))
        || (left != [] && CannotWatch(left[0].event))
      case Astray =>
        && AllFit(raws) && AllBytes(raws) <= bytes && !NulsFollow(raws, bytes[|AllBytes(raws)|..])
        && left != [] && |left| <= |raws| && left == raws[|raws| - |left|..]
    }

    /** The outer loop, for a number of rounds: whatever the environment does in between, the run goes on,
        each round reads unless nothing is pending, every event read is called back or left, and
        the callbacks are those for the events sent, in order; the service goes through, or ends for
        one of the reasons given. */
    method Serve(buffer: array<Byte>, rounds: nat)
      returns (outcome: Ending, ghost raws: seq<Raw>, ghost left: seq<Raw>, ghost marks: seq<nat>)
      requires Valid([])
      modifies this, fd, buffer
      ensures Valid(Events(left)) && Reachable(root, Abs(Events(left))) && LogMatches(Abs(Events(left)))
      ensures old(trace) <= trace && old(log) <= log
      ensures Rounds(start, trace, |old(trace)|, marks) && (outcome.Done? ==> |marks| == rounds)
      ensures EventsRead(trace) == |log| + |left|
      ensures EndedBy(outcome, buffer[..], raws, left)
    {
      outcome := Done;
      raws, left, marks := [], [], [];
      var k := 0;
      while k < rounds && outcome.Done?
        invariant k <= rounds && (outcome.Done? ==> |marks| == k)
        invariant Valid(Events(left)) && old(trace) <= trace && old(log) <= log
        invariant Rounds(start, trace, |old(trace)|, marks) && EndedBy(outcome, buffer[..], raws, left)
      {
        hide Valid, Rounds, EndedBy, RoundAt;
        ghost var was := trace;
        assert Events(left) == [] by { NothingLeft(outcome, buffer[..], raws, left); }
        Environment([]);
        RoundsLonger(start, was, trace, |old(trace)|, marks);
        ghost var here := trace;
        if fd.queue == [] {
          assert RoundAt(start, trace, |here|) by { Waits(); }
          RoundsMore(start, here, trace, |old(trace)|, marks);
          marks := marks + [|here|];
          assert EndedBy(outcome, buffer[..], raws, left) by { NothingLeftIsDone(buffer[..], raws, left); }
        } else {
          outcome, raws, left := Round(buffer);
          if raws != [] {
            assert RoundAt(start, trace, |here|) by { ReadIsRound(start, trace, |here|); }
            RoundsMore(start, here, trace, |old(trace)|, marks);
            marks := marks + [|here|];
          }
        }
        k := k + 1;
      }
      ValidInv(Events(left));
      ReachableMatches(root, Abs(Events(left)));
      ReadsAreHandled(root, start, trace);
    }

    /** With nothing in the queue or in the buffer, a read waits. */
    lemma Waits()
      requires Valid([]) && fd.queue == []
      ensures RoundAt(start, trace, |trace|)
    {
      assert trace[..|trace|] == trace;
    }

    lemma NothingLeft(outcome: Ending, bytes: seq<Byte>, raws: seq<Raw>, left: seq<Raw>)
      requires EndedBy(outcome, bytes, raws, left) && outcome.Done?
      ensures left == [] && Events(left) == []
    {
    }

    lemma NothingLeftIsDone(bytes: seq<Byte>, raws: seq<Raw>, left: seq<Raw>)
      requires left == []
      ensures EndedBy(Done, bytes, raws, left)
    {
    }

    /** One round of it: the oldest events are read, and each is called back, in order, except those left. */
    method Round(buffer: array<Byte>) returns (outcome: Ending, ghost raws: seq<Raw>, ghost left: seq<Raw>)
      requires Valid([]) && fd.queue != []
      modifies this, fd, buffer
      ensures Valid(Events(left)) && old(trace) <= trace && CalledBack(raws, left, old(log), log)
      ensures |raws| <= |old(fd.queue)| && Events(raws) == old(fd.queue)[..|raws|]
      ensures raws == [] <==> !HasRoom(old(fd.queue)[0], buffer.Length)
      ensures raws == [] ==> outcome.Threw? && trace == old(trace)
      ensures raws != [] ==> |trace| > |old(trace)| && trace[|old(trace)|] == Read(|raws|)
      ensures EndedBy(outcome, buffer[..], raws, left)
    {
      var r: int;
      r, raws := Receive(buffer);
      if r == -1 {
        CalledBackNone([], log);
        return Threw, [], [];
      }
      assert buffer[..r] + buffer[r..] == buffer[..];
      var offset;
      offset, outcome, left := HandleBuffer(buffer, r, raws);
    }

    /** The chain of tests on the mask. */
    method Kind(mask: nat) returns (ct: ChangeType)
      ensures ct == Classify(mask)
    {
      if Has(mask, IN_CREATE) {
        ct := Added;
      } else if Has(mask, IN_DELETE) {
        ct := Removed;
      } else if Has(mask, IN_MODIFY) {
        ct := Modified;
      } else if Has(mask, IN_MOVED_FROM) {
        ct := MovedFrom;
      } else if Has(mask, IN_MOVED_TO) {
        ct := MovedTo;
      } else {
        ct := Unknown;
      }
    }

    /** One turn of the loop, from the decoded event to the callback: one step of the run and one callback,
        or an exception and neither. */
    method Turn(ghost pending: seq<Event>, wd: Wd, mask: nat, name: string) returns (ok: bool)
      requires Valid(pending) && pending != [] && pending[0].wd == wd && pending[0].mask == mask
      requires CanRead(pending[0], name)
      modifies this, fd`watches, fd`nextWd
      ensures wd in old(wdMap)
      ensures ok ==>
                && Valid(pending[1..]) && log == old(log) + [Change(Classify(mask), Append(old(wdMap)[wd], name))]
                && |trace| == |old(trace)| + 1 && trace[..|old(trace)|] == old(trace) && trace[|old(trace)|].Handle?
      ensures !ok ==>
                && Valid(pending) && trace == old(trace) && log == old(log)
                && wdMap == old(wdMap) && Unopenable(Append(wdMap[wd], name))
    {
      HeadIsKnown(pending);
      hide Inv, WellFormed, ListsSubtree, AddWatches, Preorder, Shows, Classify, ListingShows, AllOpen;
      ghost var before := Abs(pending);
      var fullPath := Append(wdMap[wd], name);
      var ct := Kind(mask);
      ghost var order := [];
      if fullPath in fd.dirs {
        order := [fullPath] + Preorder(listing(fd.dirs, fullPath), fullPath, true, 2);
        ok := Watch(fullPath, pending);
        if !ok {
          return;
        }
      }
      ok := true;
      log := log + [Change(ct, fullPath)];
      trace := trace + [Handle(order, name)];
      assert trace[..|trace| - 1] == old(trace);
      TraceExtends(before, order, name, pending);
    }

    lemma TraceExtends(before: State, order: seq<Path>, name: string, pending: seq<Event>)
      requires ListingShows() && trace != [] && trace[|trace| - 1] == Handle(order, name)
      requires Initial(root, start) && Allowed(root, start, trace[..|trace| - 1])
      requires before == Run(start, trace[..|trace| - 1]) && Enabled(root, before, Handle(order, name))
      requires pending != [] && Abs(pending[1..]) == Next(before, Handle(order, name))
      ensures Valid(pending[1..])
    {
    }
  }

  lemma EventsTail(rest: seq<Raw>)
    requires rest != []
    ensures Events(rest) != [] && Events(rest)[0] == rest[0].event && Events(rest)[1..] == Events(rest[1..])
  {
  }

  lemma NoBytesLeft(rest: seq<Raw>)
    requires AllFit(rest) && AllBytes(rest) == []
    ensures rest == [] && Events(rest) == []
  {
  }

  /** At `offset`, the buffer shows the header and, if it has one, the name of the first event left. */
  lemma HeadDecodes(b: seq<Byte>, offset: nat, r: nat, rest: seq<Raw>)
    requires offset < r <= |b| && AllFit(rest) && b[offset..r] == AllBytes(rest)
    ensures rest != [] && offset + HEADER + rest[0].len <= r
    ensures S32At(b, offset) == rest[0].event.wd && U32At(b, offset + 4) == rest[0].event.mask
    ensures U32At(b, offset + 12) == rest[0].len
    ensures CString(b, offset + HEADER) == rest[0].event.name <==>
            rest[0].len > 0 || offset + HEADER == |b| || b[offset + HEADER] == 0
    ensures b[offset + HEADER + rest[0].len..r] == AllBytes(rest[1..])
  {
    var head, next, after := rest[0], AllBytes(rest[1..]), b[r..];
    HeaderAt(head, next + after);
    NameReadExactly(head, next + after);
    CStringShift(b, offset, HEADER);
    Slices(b, offset, r, Bytes(head), next);
    hide Bytes, AllBytes, CString;
    assert forall i :: 0 <= i < |b| - offset ==> b[offset + i] == b[offset..][i];
    assert head.len == 0 ==> (next + after == [] <==> offset + HEADER == |b|);
  }

  lemma Slices(b: seq<Byte>, offset: nat, r: nat, x: seq<Byte>, y: seq<Byte>)
    requires offset <= r <= |b| && b[offset..r] == x + y
    ensures b[offset..] == x + (y + b[r..]) && b[offset + |x|..r] == y && offset + |x| <= r
  {
    assert b[offset..] == b[offset..r] + b[r..];
    assert b[offset + |x|..r] == b[offset..r][|x|..];
  }

  lemma {:induction false} CStringShift(b: seq<Byte>, offset: nat, i: nat)
    requires offset + i <= |b|
    ensures CString(b, offset + i) == CString(b[offset..], i)
    decreases |b| - i
  {
    if offset + i < |b| && b[offset + i] != 0 {
      CStringShift(b, offset, i + 1);
    }
  }
}
