/** The recursive inotify monitor as a transition system: a tree of directories that changes under
    it, the kernel's watch table and event queue, and the monitor's `wd_map` and callback log. */
module Monitor {
  import opened FindFiles

  type Ino = nat
  type Wd = int
  type Tree = map<Path, Ino>

  // Event bits of <sys/inotify.h>
  const IN_MODIFY: nat := 0x2
  const IN_MOVED_FROM: nat := 0x40
  const IN_MOVED_TO: nat := 0x80
  const IN_CREATE: nat := 0x100
  const IN_DELETE: nat := 0x200
  const IN_IGNORED: nat := 0x8000
  const IN_ISDIR: nat := 0x4000_0000

  datatype ChangeType = Added | Removed | Modified | MovedFrom | MovedTo | Unknown
  datatype Change = Change(ct: ChangeType, path: Path)

  datatype Event = Event(wd: Wd, mask: nat, name: string)

  /** `dirs` gives every directory of the file system by its current path. `sent` is history: every
      event the kernel ever queued. */
  datatype State = State(
    dirs: Tree,
    watches: map<Ino, Wd>, nextWd: Wd, queue: seq<Event>,
    buffer: seq<Event>, wdMap: map<Wd, Path>, log: seq<Change>,
    sent: seq<Event>)

  // ------------------------------------------------------------------------
  // Paths and directory trees
  // ------------------------------------------------------------------------

  predicate ValidName(name: string) {
    name != "" && !IsDot(name) && '/' !in name
  }

  function Parent(p: Path): Path
    requires p != []
  {
    p[..|p| - 1]
  }

  function Last(p: Path): string
    requires p != []
  {
    p[|p| - 1]
  }

  /** `std::filesystem::path(p).append(name)`. */
  function Append(p: Path, name: string): Path {
    if name == "" then p else p + [name]
  }

  ghost predicate WellFormed(dirs: Tree) {
    && [] in dirs
    && (forall p {:trigger Parent(p)} {:trigger Last(p)} ::
          p in dirs && p != [] ==> ValidName(Last(p)) && Parent(p) in dirs)
    && (forall p, q :: p in dirs && q in dirs && dirs[p] == dirs[q] ==> p == q)
  }

  predicate Empty(dirs: Tree, p: Path) {
    forall q <- dirs :: !(p < q)
  }

  lemma {:induction false} PrefixClosed(dirs: Tree, p: Path, k: nat)
    requires WellFormed(dirs) && p in dirs && k <= |p|
    ensures p[..k] in dirs
    decreases |p|
  {
    if k < |p| {
      PrefixClosed(dirs, Parent(p), k);
      assert Parent(p)[..k] == p[..k];
    } else {
      assert p[..k] == p;
    }
  }

  /** The tree after renaming directory `src` to `dst`: the subtree moves, and an empty directory
      that was at `dst` is gone. */
  function Moved(dirs: Tree, src: Path, dst: Path): Tree {
    var back := (p: Path) => src + p[if |dst| <= |p| then |dst| else |p|..];
    var kept := set p | p in dirs && !(src <= p) && !(dst <= p);
    var there := set p | p in dirs && src <= p :: dst + p[|src|..];
    map p | p in kept + there :: if dst <= p && back(p) in dirs then dirs[back(p)] else if p in dirs then dirs[p] else 0
  }

  lemma MovedAt(dirs: Tree, src: Path, dst: Path, p: Path)
    requires !(src <= dst)
    ensures var m := Moved(dirs, src, dst);
            if dst <= p then (p in m <==> src + p[|dst|..] in dirs) && (p in m ==> m[p] == dirs[src + p[|dst|..]])
            else (p in m <==> p in dirs && !(src <= p)) && (p in m ==> m[p] == dirs[p])
  {
    if dst <= p {
      var q := src + p[|dst|..];
      assert dst + q[|src|..] == p;
      if p in Moved(dirs, src, dst) {
        var r :| r in dirs && src <= r && dst + r[|src|..] == p;
        assert r == q;
      }
    }
  }

  // ------------------------------------------------------------------------
  // The kernel and the environment
  // ------------------------------------------------------------------------

  predicate Watched(s: State, p: Path) {
    p in s.dirs && s.dirs[p] in s.watches
  }

  /** Queue an event; an event equal to the last unread one is merged into it, except for moves,
      whose cookies differ. */
  function Queue(s: State, e: Event): (t: State)
    ensures t.wdMap == s.wdMap
  {
    if s.queue != [] && s.queue[|s.queue| - 1] == e && !Has(e.mask, IN_MOVED_FROM) && !Has(e.mask, IN_MOVED_TO) then s
    else s.(queue := s.queue + [e], sent := s.sent + [e])
  }

  /** Report on entry `name` of directory `dir`, if that directory is watched. */
  function Notify(s: State, dir: Path, mask: nat, name: string): (t: State)
    ensures t.wdMap == s.wdMap
  {
    if Watched(s, dir) then Queue(s, Event(s.watches[s.dirs[dir]], mask, name)) else s
  }

  /** The watch of a removed inode is dropped, which is itself reported (with no name). */
  function DropWatch(s: State, ino: Ino): (t: State)
    ensures t.wdMap == s.wdMap
  {
    if ino in s.watches then Queue(s, Event(s.watches[ino], IN_IGNORED, "")).(watches := s.watches - {ino}) else s
  }

  /** `inotify_add_watch` on the directory at `p`, and the `wd_map` update that follows it. */
  function AddWatch(s: State, p: Path): State
    requires p in s.dirs
  {
    var ino := s.dirs[p];
    if ino in s.watches then s.(wdMap := s.wdMap[s.watches[ino] := p])
    else s.(watches := s.watches[ino := s.nextWd], nextWd := s.nextWd + 1, wdMap := s.wdMap[s.nextWd := p])
  }

  function AddWatches(s: State, order: seq<Path>): State
    requires forall p <- order :: p in s.dirs
    decreases order
  {
    if order == [] then s else AddWatches(AddWatch(s, order[0]), order[1..])
  }

  /** What `find_files` finds below `p`, preceded by `p` itself, in some order. */
  ghost predicate ListsSubtree(dirs: Tree, p: Path, order: seq<Path>) {
    && (forall q <- order :: q in dirs && p <= q)
    && (forall q <- dirs :: p <= q ==> q in order)
  }

  // ------------------------------------------------------------------------
  // The monitor
  // ------------------------------------------------------------------------

  predicate Has(mask: nat, bit: nat)
    requires bit > 0
  {
    mask / bit % 2 == 1
  }

  function Classify(mask: nat): ChangeType {
    if Has(mask, IN_CREATE) then Added
    else if Has(mask, IN_DELETE) then Removed
    else if Has(mask, IN_MODIFY) then Modified
    else if Has(mask, IN_MOVED_FROM) then MovedFrom
    else if Has(mask, IN_MOVED_TO) then MovedTo
    else Unknown
  }

  function Target(s: State, e: Event): Path
    requires e.wd in s.wdMap
  {
    Append(s.wdMap[e.wd], e.name)
  }

  /** The names the loop may read for `e`: its own, or for an event without one whatever plain name
      stands in the bytes behind it. */
  predicate CanRead(e: Event, name: string) {
    name == e.name || (e.name == "" && ValidName(name))
  }

  /** The event at the head of the buffer as the loop sees it. */
  function Seen(s: State, name: string): Event
    requires s.buffer != []
  {
    s.buffer[0].(name := name)
  }

  datatype Step =
    | Mkdir(dir: Path, name: string, ino: Ino)
    | Rmdir(path: Path)
    | Rename(src: Path, dst: Path)
    | FileOp(dir: Path, name: string, mask: nat)
    | Read(n: nat)
    | Handle(order: seq<Path>, name: string)

  predicate IsMonitorStep(step: Step) {
    step.Read? || step.Handle?
  }

  ghost predicate Enabled(root: Path, s: State, step: Step) {
    match step
    case Mkdir(dir, name, ino) =>
      && dir in s.dirs && ValidName(name) && dir + [name] !in s.dirs
      && (forall p <- s.dirs :: s.dirs[p] != ino) && ino !in s.watches
    case Rmdir(path) =>
      path in s.dirs && Empty(s.dirs, path) && !(path <= root)
    case Rename(src, dst) =>
      && src in s.dirs && !(src <= root)
      && dst != [] && ValidName(Last(dst)) && Parent(dst) in s.dirs && !(src <= dst)
      && (dst in s.dirs ==> Empty(s.dirs, dst) && !(dst <= root))
    case FileOp(dir, name, mask) =>
      && dir in s.dirs && ValidName(name) && dir + [name] !in s.dirs
      && mask in {IN_CREATE, IN_DELETE, IN_MODIFY, IN_MOVED_FROM, IN_MOVED_TO}
    case Read(n) =>
      s.buffer == [] && 0 < n <= |s.queue|
    case Handle(order, name) =>
      && s.buffer != [] && CanRead(s.buffer[0], name)
      && (s.buffer[0].wd in s.wdMap && Target(s, Seen(s, name)) in s.dirs ==>
            ListsSubtree(s.dirs, Target(s, Seen(s, name)), order))
  }

  function Next(s: State, step: Step): State {
    match step
    case Mkdir(dir, name, ino) =>
      Notify(s, dir, IN_CREATE + IN_ISDIR, name).(dirs := s.dirs[dir + [name] := ino])
    case Rmdir(path) =>
      if path == [] || path !in s.dirs then s else RmdirEvents(s, path).(dirs := s.dirs - {path})
    case Rename(src, dst) =>
      if src == [] || dst == [] then s else RenameEvents(s, src, dst).(dirs := Moved(s.dirs, src, dst))
    case FileOp(dir, name, mask) =>
      Notify(s, dir, mask, name)
    case Read(n) =>
      if n > |s.queue| then s else s.(buffer := s.buffer + s.queue[..n], queue := s.queue[n..])
    case Handle(order, name) =>
      if s.buffer == [] then s else HandleEvent(s, order, name)
  }

  function RmdirEvents(s: State, path: Path): State
    requires path != [] && path in s.dirs
  {
    DropWatch(Notify(s, Parent(path), IN_DELETE + IN_ISDIR, Last(path)), s.dirs[path])
  }

  /** The two ends of a move. */
  function MoveEvents(s: State, src: Path, dst: Path): State
    requires src != [] && dst != []
  {
    Notify(Notify(s, Parent(src), IN_MOVED_FROM + IN_ISDIR, Last(src)), Parent(dst), IN_MOVED_TO + IN_ISDIR, Last(dst))
  }

  function RenameEvents(s: State, src: Path, dst: Path): State
    requires src != [] && dst != []
  {
    var t := MoveEvents(s, src, dst);
    if dst in s.dirs then DropWatch(t, s.dirs[dst]) else t
  }

  /** One turn of the event loop: resolve the name through `wd_map`, watch the subtree if it is a
      directory now, then call back. Indexing `wd_map` creates a missing entry as the empty path; on runs
      that never happens, and `order` is a listing of the subtree. */
  function HandleEvent(s: State, order: seq<Path>, name: string): State
    requires s.buffer != []
  {
    var e := Seen(s, name);
    var s1 := if e.wd in s.wdMap then s else s.(wdMap := s.wdMap[e.wd := []]);
    var path := Target(s1, e);
    var s2 := if path in s.dirs && (forall p <- order :: p in s.dirs) then AddWatches(s1, order) else s1;
    s2.(buffer := s.buffer[1..], log := s.log + [Change(Classify(e.mask), path)])
  }

  // ------------------------------------------------------------------------
  // Runs
  // ------------------------------------------------------------------------

  function Start(dirs: Tree, order: seq<Path>): State
    requires forall p <- order :: p in dirs
  {
    AddWatches(State(dirs, map[], 1, [], [], map[], [], []), order)
  }

  /** The monitor has been created and `watch(root)` has returned. */
  ghost predicate Initial(root: Path, s: State) {
    exists dirs: Tree, order ::
      && WellFormed(dirs) && root in dirs && ListsSubtree(dirs, root, order)
      && s == Start(dirs, order)
  }

  function Run(s: State, steps: seq<Step>): State {
    if steps == [] then s else Next(Run(s, steps[..|steps| - 1]), steps[|steps| - 1])
  }

  ghost predicate Allowed(root: Path, s: State, steps: seq<Step>) {
    steps == [] ||
    (Allowed(root, s, steps[..|steps| - 1]) && Enabled(root, Run(s, steps[..|steps| - 1]), steps[|steps| - 1]))
  }

  ghost predicate Reachable(root: Path, t: State) {
    exists s: State, steps: seq<Step> :: Initial(root, s) && Allowed(root, s, steps) && t == Run(s, steps)
  }
}
