/** What every run of the monitor keeps: each directory under the root is watched under its true
    path, or a pending event will make it so. */
module MonitorProofs {
  import opened FindFiles
  import opened Monitor

  function Pending(s: State): seq<Event> {
    s.buffer + s.queue
  }

  /** Directory `p` is watched and `wd_map` holds its current path. */
  predicate Good(s: State, p: Path) {
    && p in s.dirs && s.dirs[p] in s.watches
    && var wd := s.watches[s.dirs[p]];
       wd in s.wdMap && s.wdMap[wd] == p
  }

  /** Event `e` names, through the well-known directory `q`, an ancestor-or-self of `p`. */
  predicate Covers(s: State, e: Event, q: Path, p: Path) {
    && e in Pending(s) && Good(s, q) && e.wd == s.watches[s.dirs[q]]
    && e.name != "" && q + [e.name] <= p
  }

  ghost predicate Covered(s: State, p: Path) {
    exists e, q :: Covers(s, e, q, p)
  }

  ghost predicate Coverage(root: Path, s: State) {
    && Good(s, root)
    && forall p <- s.dirs :: root <= p ==> Good(s, p) || Covered(s, p)
  }

  /** Distinct inodes have distinct descriptors, and every descriptor ever handed out is in `wd_map`. */
  ghost predicate TablesAgree(s: State) {
    && (forall i, j :: i in s.watches && j in s.watches && s.watches[i] == s.watches[j] ==> i == j)
    && (forall i <- s.watches :: s.watches[i] in s.wdMap)
    && (forall w <- s.wdMap :: w < s.nextWd)
    && (forall e <- Pending(s) :: e.wd in s.wdMap)
  }

  ghost predicate Inv(root: Path, s: State) {
    && WellFormed(s.dirs) && root in s.dirs
    && TablesAgree(s)
    && Coverage(root, s)
  }

  // ------------------------------------------------------------------------
  // watch
  // ------------------------------------------------------------------------

  lemma AddWatchKeeps(s: State, p: Path)
    requires WellFormed(s.dirs) && TablesAgree(s) && p in s.dirs
    ensures var t := AddWatch(s, p);
            && TablesAgree(t) && Good(t, p)
            && (forall q :: Good(s, q) ==> Good(t, q))
            && t == s.(watches := t.watches, nextWd := t.nextWd, wdMap := t.wdMap)
            && (forall i <- s.watches :: i in t.watches && t.watches[i] == s.watches[i])
  {
  }

  lemma {:induction false} AddWatchesKeeps(s: State, order: seq<Path>)
    requires WellFormed(s.dirs) && TablesAgree(s) && forall p <- order :: p in s.dirs
    ensures var t := AddWatches(s, order);
            && TablesAgree(t)
            && (forall p <- order :: Good(t, p))
            && (forall q :: Good(s, q) ==> Good(t, q))
            && t == s.(watches := t.watches, nextWd := t.nextWd, wdMap := t.wdMap)
            && (forall i <- s.watches :: i in t.watches && t.watches[i] == s.watches[i])
    decreases order
  {
    if order != [] {
      AddWatchKeeps(s, order[0]);
      var s1 := AddWatch(s, order[0]);
      AddWatchesKeeps(s1, order[1..]);
      assert forall p <- order :: p == order[0] || p in order[1..];
    }
  }

  lemma StartEstablishes(root: Path, dirs: Tree, order: seq<Path>)
    requires WellFormed(dirs) && root in dirs && ListsSubtree(dirs, root, order)
    ensures Inv(root, Start(dirs, order))
  {
    AddWatchesKeeps(State(dirs, map[], 1, [], [], map[], [], []), order);
  }

  // ------------------------------------------------------------------------
  // Each step keeps the invariant
  // ------------------------------------------------------------------------

  /** Queueing an event changes nothing but the queue, loses no pending event, and the event is pending. */
  lemma QueueKeeps(s: State, e: Event)
    requires TablesAgree(s) && e.wd in s.wdMap
    ensures var t := Queue(s, e);
            && TablesAgree(t) && e in Pending(t) && (forall x <- Pending(s) :: x in Pending(t))
            && t == s.(queue := t.queue, sent := t.sent)
  {
  }

  lemma NotifyKeeps(s: State, dir: Path, mask: nat, name: string)
    requires TablesAgree(s)
    ensures var t := Notify(s, dir, mask, name);
            && TablesAgree(t) && (forall x <- Pending(s) :: x in Pending(t))
            && t == s.(queue := t.queue, sent := t.sent)
            && (Watched(s, dir) ==> Event(s.watches[s.dirs[dir]], mask, name) in Pending(t))
  {
    if Watched(s, dir) {
      QueueKeeps(s, Event(s.watches[s.dirs[dir]], mask, name));
    }
  }

  lemma DropWatchKeeps(s: State, ino: Ino)
    requires TablesAgree(s)
    ensures var t := DropWatch(s, ino);
            && TablesAgree(t) && (forall x <- Pending(s) :: x in Pending(t))
            && t == s.(queue := t.queue, sent := t.sent, watches := s.watches - {ino})
  {
    if ino in s.watches {
      QueueKeeps(s, Event(s.watches[ino], IN_IGNORED, ""));
    } else {
      assert s.watches - {ino} == s.watches;
    }
  }

  lemma BetweenPrefixes(a: Path, b: Path, p: Path, c: Path)
    requires a <= p && b <= p && !(b <= a) && b != []
    ensures a <= Parent(b) && Parent(b) <= p && !(b <= Parent(b)) && Parent(b) + [Last(b)] == b
    ensures c <= Parent(b) ==> c <= b
  {
    assert a == p[..|a|] && b == p[..|b|];
    assert Parent(b) == p[..|b| - 1];
  }

  /** The old directories, their watches and their paths in `wd_map` are left alone, and so are the
      pending events: what is good stays good, and what is covered stays covered. */
  ghost predicate Extends(s: State, t: State) {
    && t.watches == s.watches && t.wdMap == s.wdMap
    && (forall q <- s.dirs :: q in t.dirs && t.dirs[q] == s.dirs[q])
    && (forall e <- Pending(s) :: e in Pending(t))
  }

  lemma ExtendsKeepsGood(s: State, t: State, q: Path)
    requires Extends(s, t) && Good(s, q)
    ensures Good(t, q) && t.watches[t.dirs[q]] == s.watches[s.dirs[q]]
  {
  }

  lemma ExtendsKeepsCovered(s: State, t: State, p: Path, below: Path)
    requires Extends(s, t) && Covered(s, p) && p <= below
    ensures Covered(t, below)
  {
    var e, q :| Covers(s, e, q, p);
    ExtendsKeepsGood(s, t, q);
    assert Covers(t, e, q, below);
  }

  lemma MkdirEffect(s: State, dir: Path, name: string, ino: Ino)
    requires WellFormed(s.dirs) && TablesAgree(s) && dir in s.dirs && ValidName(name) && dir + [name] !in s.dirs
    requires forall p <- s.dirs :: s.dirs[p] != ino
    ensures var t := Next(s, Mkdir(dir, name, ino));
            && WellFormed(t.dirs) && TablesAgree(t) && Extends(s, t) && t.dirs == s.dirs[dir + [name] := ino]
            && (Watched(s, dir) ==> Event(s.watches[s.dirs[dir]], IN_CREATE + IN_ISDIR, name) in Pending(t))
  {
    var p := dir + [name];
    NotifyKeeps(s, dir, IN_CREATE + IN_ISDIR, name);
    assert Parent(p) == dir && Last(p) == name;
  }

  lemma MkdirCoversNew(root: Path, s: State, dir: Path, name: string, t: State)
    requires WellFormed(s.dirs) && root in s.dirs && Coverage(root, s) && Extends(s, t)
    requires dir in s.dirs && dir + [name] !in s.dirs && name != "" && root <= dir + [name]
    requires Watched(s, dir) ==> Event(s.watches[s.dirs[dir]], IN_CREATE + IN_ISDIR, name) in Pending(t)
    ensures Covered(t, dir + [name])
  {
    var p := dir + [name];
    assert Parent(p) == dir;
    RootStays(s.dirs, root, p);
    BetweenPrefixes(root, p, p, p);
    if Good(s, dir) {
      ExtendsKeepsGood(s, t, dir);
      assert Covers(t, Event(s.watches[s.dirs[dir]], IN_CREATE + IN_ISDIR, name), dir, p);
    } else {
      ExtendsKeepsCovered(s, t, dir, p);
    }
  }

  lemma MkdirKeeps(root: Path, s: State, dir: Path, name: string, ino: Ino)
    requires Inv(root, s) && Enabled(root, s, Mkdir(dir, name, ino))
    ensures Inv(root, Next(s, Mkdir(dir, name, ino)))
  {
    var t := Next(s, Mkdir(dir, name, ino));
    MkdirEffect(s, dir, name, ino);
    hide Next, WellFormed, TablesAgree, Covered;
    ExtendsKeepsGood(s, t, root);
    forall q <- t.dirs | root <= q
      ensures Good(t, q) || Covered(t, q)
    {
      if q == dir + [name] {
        MkdirCoversNew(root, s, dir, name, t);
      } else if Good(s, q) {
        ExtendsKeepsGood(s, t, q);
      } else {
        ExtendsKeepsCovered(s, t, q, q);
      }
    }
  }

  lemma RmdirEffect(s: State, path: Path)
    requires TablesAgree(s) && path != [] && path in s.dirs
    ensures var t := RmdirEvents(s, path);
            && TablesAgree(t) && (forall x <- Pending(s) :: x in Pending(t))
            && t == s.(queue := t.queue, sent := t.sent, watches := s.watches - {s.dirs[path]})
  {
    NotifyKeeps(s, Parent(path), IN_DELETE + IN_ISDIR, Last(path));
    DropWatchKeeps(Notify(s, Parent(path), IN_DELETE + IN_ISDIR, Last(path)), s.dirs[path]);
  }

  lemma RmdirIsWellFormed(dirs: Tree, path: Path)
    requires WellFormed(dirs) && path != [] && Empty(dirs, path)
    ensures WellFormed(dirs - {path})
  {
    forall p <- dirs | p != [] && p != path
      ensures Parent(p) in dirs - {path}
    {
      assert Parent(p) < p;
    }
  }

  lemma RmdirKeepsGood(s: State, t: State, path: Path, q: Path)
    requires WellFormed(s.dirs) && path in s.dirs && Good(s, q) && q != path
    requires t.dirs == s.dirs - {path} && t.watches == s.watches - {s.dirs[path]} && t.wdMap == s.wdMap
    ensures Good(t, q) && t.watches[t.dirs[q]] == s.watches[s.dirs[q]]
  {
    assert s.dirs[q] != s.dirs[path];
  }

  lemma RmdirKeeps(root: Path, s: State, path: Path)
    requires Inv(root, s) && Enabled(root, s, Rmdir(path))
    ensures Inv(root, Next(s, Rmdir(path)))
  {
    var t := Next(s, Rmdir(path));
    RmdirEffect(s, path);
    RmdirIsWellFormed(s.dirs, path);
    assert t == RmdirEvents(s, path).(dirs := s.dirs - {path});
    assert TablesAgree(t);
    hide Next, WellFormed, TablesAgree, RmdirEvents;
    RmdirKeepsGood(s, t, path, root);
    forall q <- t.dirs | root <= q
      ensures Good(t, q) || Covered(t, q)
    {
      if Good(s, q) {
        RmdirKeepsGood(s, t, path, q);
      } else {
        var e, r :| Covers(s, e, r, q);
        assert r < q;
        RmdirKeepsGood(s, t, path, r);
        assert Covers(t, e, r, q);
      }
    }
  }

  lemma RootStays(dirs: Tree, root: Path, dst: Path)
    requires WellFormed(dirs) && root in dirs && (dst in dirs ==> !(dst <= root))
    ensures !(dst <= root)
  {
    if |dst| <= |root| {
      PrefixClosed(dirs, root, |dst|);
      var k := |dst|;
      assert root[..k] != dst;
    }
  }

  lemma ParentPrefix(a: Path, p: Path)
    requires p != []
    ensures a <= Parent(p) ==> a <= p
    ensures a <= p && a != p ==> a <= Parent(p)
    ensures !(p <= Parent(p))
  {
  }

  lemma Relocated(src: Path, dst: Path, p: Path)
    requires dst < p
    ensures var b := src + p[|dst|..];
            b != [] && dst <= Parent(p) && Parent(b) == src + Parent(p)[|dst|..] && Last(b) == Last(p)
  {
    assert Parent(p) == p[..|p| - 1] && p[|dst|..][..|p| - 1 - |dst|] == Parent(p)[|dst|..];
  }

  lemma MovedParents(dirs: Tree, src: Path, dst: Path, p: Path)
    requires WellFormed(dirs) && src != [] && dst != [] && !(src <= dst)
    requires ValidName(Last(dst)) && Parent(dst) in dirs
    requires p in Moved(dirs, src, dst) && p != []
    ensures ValidName(Last(p)) && Parent(p) in Moved(dirs, src, dst)
  {
    MovedAt(dirs, src, dst, p);
    MovedAt(dirs, src, dst, Parent(p));
    ParentPrefix(dst, p);
    ParentPrefix(src, p);
    if dst < p {
      Relocated(src, dst, p);
    }
    hide Moved, ValidName, Parent, Last;
  }

  lemma MovedInjective(dirs: Tree, src: Path, dst: Path, p: Path, q: Path)
    requires WellFormed(dirs) && !(src <= dst)
    requires var m := Moved(dirs, src, dst); p in m && q in m && m[p] == m[q]
    ensures p == q
  {
    MovedAt(dirs, src, dst, p);
    MovedAt(dirs, src, dst, q);
    if dst <= p && dst <= q {
      assert p == dst + p[|dst|..] && q == dst + q[|dst|..];
      assert src + p[|dst|..] == src + q[|dst|..];
      assert p[|dst|..] == (src + p[|dst|..])[|src|..];
      assert q[|dst|..] == (src + q[|dst|..])[|src|..];
    }
  }

  lemma MovedIsWellFormed(dirs: Tree, src: Path, dst: Path)
    requires WellFormed(dirs) && src != [] && dst != [] && !(src <= dst)
    requires ValidName(Last(dst)) && Parent(dst) in dirs
    ensures WellFormed(Moved(dirs, src, dst))
  {
    var m := Moved(dirs, src, dst);
    MovedAt(dirs, src, dst, []);
    forall p <- m | p != []
      ensures ValidName(Last(p)) && Parent(p) in m
    {
      MovedParents(dirs, src, dst, p);
    }
    forall p, q | p in m && q in m && m[p] == m[q]
      ensures p == q
    {
      MovedInjective(dirs, src, dst, p, q);
    }
  }

  lemma RenameFrame(s: State, src: Path, dst: Path)
    requires TablesAgree(s) && src != [] && dst != []
    ensures var t := RenameEvents(s, src, dst);
            && TablesAgree(t) && (forall x <- Pending(s) :: x in Pending(t))
            && t == s.(queue := t.queue, sent := t.sent, watches := t.watches)
            && t.watches == (if dst in s.dirs then s.watches - {s.dirs[dst]} else s.watches)
            && (Watched(s, Parent(dst)) ==>
                  Event(s.watches[s.dirs[Parent(dst)]], IN_MOVED_TO + IN_ISDIR, Last(dst)) in Pending(t))
  {
    NotifyKeeps(s, Parent(src), IN_MOVED_FROM + IN_ISDIR, Last(src));
    var s1 := Notify(s, Parent(src), IN_MOVED_FROM + IN_ISDIR, Last(src));
    NotifyKeeps(s1, Parent(dst), IN_MOVED_TO + IN_ISDIR, Last(dst));
    var s2 := Notify(s1, Parent(dst), IN_MOVED_TO + IN_ISDIR, Last(dst));
    if dst in s.dirs {
      DropWatchKeeps(s2, s.dirs[dst]);
    }
  }

  /** After a rename, the directories outside the moved subtree and the replaced one stay as good as they were. */
  lemma RenameKeepsGood(root: Path, s: State, src: Path, dst: Path, q: Path)
    requires Inv(root, s) && Enabled(root, s, Rename(src, dst))
    requires Good(s, q) && !(src <= q) && !(dst <= q)
    ensures var t := Next(s, Rename(src, dst));
            Good(t, q) && t.watches[t.dirs[q]] == s.watches[s.dirs[q]]
  {
    RenameFrame(s, src, dst);
    MovedAt(s.dirs, src, dst, q);
    if dst in s.dirs {
      assert s.dirs[q] != s.dirs[dst];
    }
  }

  /** A cover anchored outside the moved subtree still covers whatever lies below its target. */
  lemma RenameKeepsCover(root: Path, s: State, src: Path, dst: Path, e: Event, q: Path, p: Path, p': Path)
    requires Inv(root, s) && Enabled(root, s, Rename(src, dst))
    requires Covers(s, e, q, p) && !(src <= p) && !(dst <= p) && p <= p'
    ensures Covered(Next(s, Rename(src, dst)), p')
  {
    var t := Next(s, Rename(src, dst));
    RenameFrame(s, src, dst);
    assert q < p && !(src <= q) && !(dst <= q);
    RenameKeepsGood(root, s, src, dst, q);
    assert Covers(t, e, q, p');
  }

  /** Everything in the moved subtree is covered: by the moved-to event, or by what covers its new parent. */
  lemma RenameCoversMoved(root: Path, s: State, src: Path, dst: Path, p: Path)
    requires Inv(root, s) && Enabled(root, s, Rename(src, dst))
    requires root <= p && dst <= p
    ensures Covered(Next(s, Rename(src, dst)), p)
  {
    var t := Next(s, Rename(src, dst));
    var to := Parent(dst);
    RootStays(s.dirs, root, dst);
    BetweenPrefixes(root, dst, p, src);
    if Good(s, to) {
      RenameFrame(s, src, dst);
      RenameKeepsGood(root, s, src, dst, to);
      assert Covers(t, Event(s.watches[s.dirs[to]], IN_MOVED_TO + IN_ISDIR, Last(dst)), to, p);
    } else {
      var e, q :| Covers(s, e, q, to);
      RenameKeepsCover(root, s, src, dst, e, q, to, p);
    }
  }

  /** Outside the moved subtree, what was good stays good and what was covered stays covered. */
  lemma RenameCoversRest(root: Path, s: State, src: Path, dst: Path, p: Path)
    requires Inv(root, s) && Enabled(root, s, Rename(src, dst))
    requires p in s.dirs && root <= p && !(src <= p) && !(dst <= p)
    ensures Good(Next(s, Rename(src, dst)), p) || Covered(Next(s, Rename(src, dst)), p)
  {
    if Good(s, p) {
      RenameKeepsGood(root, s, src, dst, p);
    } else {
      var e, q :| Covers(s, e, q, p);
      RenameKeepsCover(root, s, src, dst, e, q, p, p);
    }
  }

  lemma RenameEffect(s: State, src: Path, dst: Path)
    requires WellFormed(s.dirs) && TablesAgree(s) && src != [] && dst != [] && !(src <= dst)
    requires ValidName(Last(dst)) && Parent(dst) in s.dirs
    ensures var t := Next(s, Rename(src, dst));
            WellFormed(t.dirs) && TablesAgree(t) && t.dirs == Moved(s.dirs, src, dst)
  {
    RenameFrame(s, src, dst);
    MovedIsWellFormed(s.dirs, src, dst);
    hide Moved, RenameEvents, WellFormed;
  }

  lemma RenameKeeps(root: Path, s: State, src: Path, dst: Path)
    requires Inv(root, s) && Enabled(root, s, Rename(src, dst))
    ensures Inv(root, Next(s, Rename(src, dst)))
  {
    var t := Next(s, Rename(src, dst));
    RenameEffect(s, src, dst);
    RootStays(s.dirs, root, dst);
    MovedAt(s.dirs, src, dst, root);
    RenameKeepsGood(root, s, src, dst, root);
    hide Next, WellFormed, TablesAgree, Covered, Moved;
    forall p <- t.dirs | root <= p
      ensures Good(t, p) || Covered(t, p)
    {
      MovedAt(s.dirs, src, dst, p);
      if dst <= p {
        RenameCoversMoved(root, s, src, dst, p);
      } else {
        RenameCoversRest(root, s, src, dst, p);
      }
    }
  }

  lemma FileOpKeeps(root: Path, s: State, dir: Path, name: string, mask: nat)
    requires Inv(root, s) && Enabled(root, s, FileOp(dir, name, mask))
    ensures Inv(root, Next(s, FileOp(dir, name, mask)))
  {
    var t := Next(s, FileOp(dir, name, mask));
    NotifyKeeps(s, dir, mask, name);
    assert Extends(s, t);
    forall p | Covered(s, p)
      ensures Covered(t, p)
    {
      ExtendsKeepsCovered(s, t, p, p);
    }
  }

  lemma ReadKeeps(root: Path, s: State, n: nat)
    requires Inv(root, s) && Enabled(root, s, Read(n))
    ensures Inv(root, Next(s, Read(n)))
  {
    var t := Next(s, Read(n));
    assert Pending(t) == Pending(s);
    forall p | Covered(s, p) ensures Covered(t, p) {
      var e, q :| Covers(s, e, q, p);
      assert Covers(t, e, q, p);
    }
  }

  /** One turn of the event loop: only descriptors and paths change besides the buffer and the log,
      nothing good is lost, and if the path was a directory its whole subtree is good. */
  lemma HandleEffect(root: Path, s: State, order: seq<Path>, name: string)
    requires Inv(root, s) && Enabled(root, s, Handle(order, name))
    ensures var t := Next(s, Handle(order, name));
            var e := Seen(s, name);
            && e.wd in s.wdMap && TablesAgree(t)
            && t == s.(watches := t.watches, nextWd := t.nextWd, wdMap := t.wdMap, buffer := s.buffer[1..],
                       log := s.log + [Change(Classify(e.mask), Target(s, e))])
            && (forall q :: Good(s, q) ==> Good(t, q))
            && (forall i <- s.watches :: i in t.watches && t.watches[i] == s.watches[i])
            && (forall p <- s.dirs :: Target(s, e) in s.dirs && Target(s, e) <= p ==> Good(t, p))
  {
    var e := Seen(s, name);
    assert s.buffer[0] in Pending(s);
    if Target(s, e) in s.dirs {
      AddWatchesKeeps(s, order);
    }
    var t := Next(s, Handle(order, name));
    assert forall x <- Pending(t) :: x in Pending(s);
  }

  /** The event at the head of the buffer was not what a directory that is still not good was waiting for. */
  lemma StillCovered(s: State, t: State, name: string, p: Path)
    requires WellFormed(s.dirs) && s.buffer != [] && s.buffer[0].wd in s.wdMap && CanRead(s.buffer[0], name)
    requires Covered(s, p) && p in s.dirs && !Good(t, p)
    requires t.dirs == s.dirs && t.queue == s.queue && t.buffer == s.buffer[1..]
    requires forall q :: Good(s, q) ==> Good(t, q)
    requires forall i <- s.watches :: i in t.watches && t.watches[i] == s.watches[i]
    requires Target(s, Seen(s, name)) in s.dirs && Target(s, Seen(s, name)) <= p ==> Good(t, p)
    ensures Covered(t, p)
  {
    var e, q :| Covers(s, e, q, p);
    var head := s.buffer[0];
    PrefixClosed(s.dirs, p, |q| + 1);
    assert p[..|q| + 1] == q + [e.name];
    assert e != head;
    assert Pending(s) == [head] + Pending(t);
    assert Covers(t, e, q, p);
  }

  lemma HandleKeeps(root: Path, s: State, order: seq<Path>, name: string)
    requires Inv(root, s) && Enabled(root, s, Handle(order, name))
    ensures Inv(root, Next(s, Handle(order, name)))
  {
    var t := Next(s, Handle(order, name));
    HandleEffect(root, s, order, name);
    assert s.buffer != [] && CanRead(s.buffer[0], name);
    hide Next, Enabled, Covered, WellFormed;
    forall p <- t.dirs | root <= p && !Good(t, p)
      ensures Covered(t, p)
    {
      assert !Good(s, p) && Covered(s, p);
      StillCovered(s, t, name, p);
    }
  }

  lemma StepKeeps(root: Path, s: State, step: Step)
    requires Inv(root, s) && Enabled(root, s, step)
    ensures Inv(root, Next(s, step))
  {
    match step
    case Mkdir(dir, name, ino) => MkdirKeeps(root, s, dir, name, ino);
    case Rmdir(path) => RmdirKeeps(root, s, path);
    case Rename(src, dst) => RenameKeeps(root, s, src, dst);
    case FileOp(dir, name, mask) => FileOpKeeps(root, s, dir, name, mask);
    case Read(n) => ReadKeeps(root, s, n);
    case Handle(order, name) => HandleKeeps(root, s, order, name);
  }
}
