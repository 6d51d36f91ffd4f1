/** What happens when the tree changes between the walk of `find_files` and the watches added after it.
    The runs of module Monitor take the two as one step; here the listing may be out of date. */
module MonitorRace {
  import opened FindFiles
  import opened Monitor
  import opened MonitorProofs

  /** The event at the head of `v` names a directory, and `order` lists directories below it. */
  ghost predicate Window(root: Path, v: State, order: seq<Path>, name: string) {
    && Inv(root, v) && v.buffer != [] && CanRead(v.buffer[0], name)
    && v.buffer[0].wd in v.wdMap && Target(v, Seen(v, name)) in v.dirs
    && forall q <- order :: q in v.dirs && Target(v, Seen(v, name)) <= q
  }

  /** A later event leads from directory `q` to `p`, and `q` has its true path in `wd_map` by then. */
  predicate Leads(v: State, order: seq<Path>, e: Event, q: Path, p: Path)
    requires v.buffer != []
  {
    && e in v.buffer[1..] + v.queue
    && Watched(v, q) && e.wd == v.watches[v.dirs[q]] && (Good(v, q) || q in order)
    && e.name != "" && q + [e.name] <= p
  }

  ghost predicate WillLead(v: State, order: seq<Path>, p: Path)
    requires v.buffer != []
  {
    exists e, q :: Leads(v, order, e, q, p)
  }

  /** Whatever the listing missed: the invariant survives exactly when each directory under the root is
      good already, or listed, or named by a later event from a directory of which that is true. */
  lemma StaleListingExactly(root: Path, v: State, order: seq<Path>, name: string)
    requires Window(root, v, order, name)
    ensures Inv(root, HandleEvent(v, order, name)) <==>
            forall p <- v.dirs :: root <= p ==> Good(v, p) || p in order || WillLead(v, order, p)
  {
    var t := HandleEvent(v, order, name);
    AddWatchesKeeps(v, order);
    assert TablesAgree(t) by { FewerPending(AddWatches(v, order), t); }
    forall p <- v.dirs
      ensures Good(t, p) <==> Good(v, p) || p in order
      ensures Covered(t, p) <==> WillLead(v, order, p)
    {
      GoodAfter(v, order, p);
      CoveredAfter(root, v, order, name, p);
    }
    hide HandleEvent, TablesAgree, Covered, WillLead;
  }

  lemma FewerPending(s: State, t: State)
    requires TablesAgree(s) && s.buffer != []
    requires t == s.(buffer := s.buffer[1..], log := t.log)
    ensures TablesAgree(t)
  {
    assert forall e <- Pending(t) :: e in Pending(s);
  }

  lemma GoodAfter(v: State, order: seq<Path>, p: Path)
    requires WellFormed(v.dirs) && TablesAgree(v) && forall q <- order :: q in v.dirs
    ensures Good(AddWatches(v, order), p) <==> Good(v, p) || p in order
  {
    AddWatchesKeeps(v, order);
    if p !in order && Good(AddWatches(v, order), p) {
      OnlyListedBecomeGood(v, order, p);
    }
  }

  lemma {:induction false} OnlyListedBecomeGood(s: State, order: seq<Path>, p: Path)
    requires WellFormed(s.dirs) && TablesAgree(s) && forall q <- order :: q in s.dirs && q != p
    requires Good(AddWatches(s, order), p)
    ensures Good(s, p)
    decreases order
  {
    if order != [] {
      AddWatchKeeps(s, order[0]);
      AddWatchesKeeps(AddWatch(s, order[0]), order[1..]);
      OnlyListedBecomeGood(AddWatch(s, order[0]), order[1..], p);
      assert s.dirs[order[0]] != s.dirs[p];
    }
  }

  /** New watches get descriptors that no pending event can hold. */
  lemma {:induction false} NewAreFresh(s: State, order: seq<Path>)
    requires forall p <- order :: p in s.dirs
    ensures var t := AddWatches(s, order);
            && s.nextWd <= t.nextWd
            && (forall i <- s.watches :: i in t.watches && t.watches[i] == s.watches[i])
            && (forall i <- t.watches :: i in s.watches || t.watches[i] >= s.nextWd)
    decreases order
  {
    if order != [] {
      NewAreFresh(AddWatch(s, order[0]), order[1..]);
    }
  }

  lemma CoveredAfter(root: Path, v: State, order: seq<Path>, name: string, p: Path)
    requires Window(root, v, order, name)
    ensures Covered(HandleEvent(v, order, name), p) <==> WillLead(v, order, p)
  {
    var t := HandleEvent(v, order, name);
    AddWatchesKeeps(v, order);
    NewAreFresh(v, order);
    assert Pending(t) == v.buffer[1..] + v.queue;
    assert forall e <- Pending(t) :: e in Pending(v);
    assert t.watches == AddWatches(v, order).watches && t.wdMap == AddWatches(v, order).wdMap;
    hide HandleEvent, AddWatches, WellFormed;
    forall e, q ensures Covers(t, e, q, p) <==> Leads(v, order, e, q, p) {
      GoodAfter(v, order, q);
      assert Good(t, q) <==> Good(AddWatches(v, order), q);
    }
  }

  // ------------------------------------------------------------------------
  // A directory is made in between
  // ------------------------------------------------------------------------

  /** What the directories already there needed, they still get. */
  lemma OldStayLed(root: Path, s: State, order: seq<Path>, name: string, v: State, p: Path)
    requires Inv(root, s) && Enabled(root, s, Handle(order, name)) && Extends(s, v) && s.buffer == v.buffer
    requires s.buffer[0].wd in s.wdMap && Target(s, Seen(s, name)) in s.dirs
    requires p in s.dirs && root <= p
    requires forall e <- s.queue :: e in v.queue
    ensures Good(v, p) || p in order || WillLead(v, order, p)
    ensures !Good(s, p) && !(Target(s, Seen(s, name)) <= p) ==> WillLead(v, order, p)
  {
    hide AddWatches;
    if Good(s, p) {
      ExtendsKeepsGood(s, v, p);
    } else if !(Target(s, Seen(s, name)) <= p) {
      var e, q :| Covers(s, e, q, p);
      ExtendsKeepsGood(s, v, q);
      assert p[..|q| + 1] == q + [e.name];
      assert e != s.buffer[0];
      assert Pending(s) == [s.buffer[0]] + (s.buffer[1..] + s.queue);
      assert Leads(v, order, e, q, p);
    }
  }

  /** A pending event leads to directory `dir` from one that is good or about to be. */
  predicate LeadsTo(s: State, target: Path, e: Event, q: Path, dir: Path) {
    && Watched(s, q) && e.wd == s.watches[s.dirs[q]] && (Good(s, q) || target <= q)
    && e.name != "" && q + [e.name] <= dir
  }

  /** A directory is made between the walk and the watches of a turn. Coverage survives exactly when it
      is not made below the directory just walked, or its parent is watched already, or another pending event
      leads to its parent. */
  lemma MkdirInWindowExactly(
    root: Path, s: State, order: seq<Path>, name: string, dir: Path, child: string, ino: Ino)
    requires Inv(root, s) && Enabled(root, s, Handle(order, name))
    requires s.buffer[0].wd in s.wdMap && Target(s, Seen(s, name)) in s.dirs
    requires Enabled(root, s, Mkdir(dir, child, ino)) && root <= dir
    ensures var target, v := Target(s, Seen(s, name)), Next(s, Mkdir(dir, child, ino));
            v.buffer != [] &&
            (Inv(root, HandleEvent(v, order, name)) <==>
             !(target <= dir) || Watched(s, dir) ||
             exists e <- s.buffer[1..] + s.queue, q :: LeadsTo(s, target, e, q, dir))
  {
    var v := Next(s, Mkdir(dir, child, ino));
    MkdirKeeps(root, s, dir, child, ino);
    MkdirEffect(s, dir, child, ino);
    MkdirQueues(s, dir, child, ino);
    WindowOpens(root, s, order, name, v);
    hide Next;
    MadeIsLedExactly(root, s, order, name, v, dir, child);
    forall p <- s.dirs | root <= p
      ensures Good(v, p) || p in order || WillLead(v, order, p)
    {
      OldStayLed(root, s, order, name, v, p);
    }
    hide *;
    StaleListingExactly(root, v, order, name);
  }

  lemma WindowOpens(root: Path, s: State, order: seq<Path>, name: string, v: State)
    requires Inv(root, v) && Enabled(root, s, Handle(order, name)) && Extends(s, v) && s.buffer == v.buffer
    requires s.buffer[0].wd in s.wdMap && Target(s, Seen(s, name)) in s.dirs
    ensures Window(root, v, order, name) && Target(v, Seen(v, name)) == Target(s, Seen(s, name))
  {
  }

  lemma MadeIsLedExactly(
    root: Path, s: State, order: seq<Path>, name: string, v: State, dir: Path, child: string)
    requires Inv(root, s) && Enabled(root, s, Handle(order, name)) && Extends(s, v) && s.buffer == v.buffer
    requires s.buffer[0].wd in s.wdMap && Target(s, Seen(s, name)) in s.dirs
    requires dir in s.dirs && root <= dir && child != "" && dir + [child] !in s.dirs
    requires v.dirs.Keys == s.dirs.Keys + {dir + [child]} && v.dirs[dir + [child]] !in s.watches
    requires forall e <- s.queue :: e in v.queue
    requires !Watched(s, dir) ==> v.queue == s.queue
    requires Watched(s, dir) ==> Event(s.watches[s.dirs[dir]], IN_CREATE + IN_ISDIR, child) in v.queue
    ensures var target, made := Target(s, Seen(s, name)), dir + [child];
            (Good(v, made) || made in order || WillLead(v, order, made)) <==>
            (!(target <= dir) || Watched(s, dir) ||
             exists e <- s.buffer[1..] + s.queue, q :: LeadsTo(s, target, e, q, dir))
  {
    var target, made := Target(s, Seen(s, name)), dir + [child];
    if Watched(s, dir) && (Good(s, dir) || target <= dir) {
      assert Leads(v, order, Event(s.watches[s.dirs[dir]], IN_CREATE + IN_ISDIR, child), dir, made);
    } else if !(target <= dir) {
      OldStayLed(root, s, order, name, v, dir);
      var e, q :| Leads(v, order, e, q, dir);
      assert Leads(v, order, e, q, made);
    } else {
      forall e, q
        ensures Leads(v, order, e, q, made) <==> e in s.buffer[1..] + s.queue && LeadsTo(s, target, e, q, dir)
      {
        LeadsSame(s, order, v, target, dir, child, e, q);
      }
    }
  }

  lemma LeadsSame(
    s: State, order: seq<Path>, v: State, target: Path, dir: Path, child: string, e: Event, q: Path)
    requires Extends(s, v) && s.buffer == v.buffer && s.buffer != [] && v.queue == s.queue
    requires target in s.dirs && ListsSubtree(s.dirs, target, order) && !Watched(s, dir)
    requires v.dirs.Keys == s.dirs.Keys + {dir + [child]} && v.dirs[dir + [child]] !in s.watches
    ensures Leads(v, order, e, q, dir + [child]) <==> e in s.buffer[1..] + s.queue && LeadsTo(s, target, e, q, dir)
  {
    if q + [e.name] <= dir + [child] && !(q + [e.name] <= dir) {
      assert |q| == |dir| && q == (dir + [child])[..|dir|] == dir;
    }
    if q + [e.name] <= dir {
      assert q + [e.name] <= dir + [child];
    }
  }

  lemma MkdirQueues(s: State, dir: Path, child: string, ino: Ino)
    ensures var v := Next(s, Mkdir(dir, child, ino));
            && v.buffer == s.buffer && v.watches == s.watches && v.wdMap == s.wdMap && v.nextWd == s.nextWd
            && (forall e <- s.queue :: e in v.queue)
            && (!Watched(s, dir) ==> v.queue == s.queue)
            && (Watched(s, dir) ==> Event(s.watches[s.dirs[dir]], IN_CREATE + IN_ISDIR, child) in v.queue)
  {
  }

  // ------------------------------------------------------------------------
  // A directory goes away in between
  // ------------------------------------------------------------------------

  /** `inotify_add_watch` fails on some path of the listing, and `watch` throws. */
  predicate WatchThrows(dirs: Tree, order: seq<Path>) {
    exists p <- order :: p !in dirs
  }

  /** A step happens between the walk of `target` and the watches: `watch` throws exactly when it was
      the removal of a directory of the subtree, or the renaming of one, or of one above it. What the new place
      of a renamed directory replaces does not matter. */
  lemma WindowThrowsExactly(root: Path, s: State, target: Path, order: seq<Path>, step: Step)
    requires WellFormed(s.dirs) && target in s.dirs && ListsSubtree(s.dirs, target, order)
    requires Enabled(root, s, step) && !IsMonitorStep(step)
    ensures WatchThrows(Next(s, step).dirs, order) <==>
            match step
            case Rmdir(path) => target <= path
            case Rename(src, dst) => target <= src || src <= target
            case _ => false
  {
    if step.Rename? {
      RenameThrowsExactly(root, s, target, order, step.src, step.dst);
    }
  }

  lemma RenameThrowsExactly(root: Path, s: State, target: Path, order: seq<Path>, src: Path, dst: Path)
    requires WellFormed(s.dirs) && target in s.dirs && ListsSubtree(s.dirs, target, order)
    requires Enabled(root, s, Rename(src, dst))
    ensures WatchThrows(Next(s, Rename(src, dst)).dirs, order) <==> target <= src || src <= target
  {
    assert Next(s, Rename(src, dst)).dirs == Moved(s.dirs, src, dst);
    hide Next, Moved;
    forall p <- s.dirs
      ensures p !in Moved(s.dirs, src, dst) <==> src <= p
    {
      LeavesExactly(s.dirs, src, dst, p);
    }
    if target <= src || src <= target {
      var p := if target <= src then src else target;
      assert p in order && src <= p;
    } else {
      forall p <- order ensures !(src <= p) {
        NotBothAbove(target, src, p);
      }
    }
  }

  lemma NotBothAbove(a: Path, b: Path, p: Path)
    requires a <= p && !(a <= b) && !(b <= a)
    ensures !(b <= p)
  {
  }

  /** A rename empties exactly the places it moves from. */
  lemma LeavesExactly(dirs: Tree, src: Path, dst: Path, p: Path)
    requires WellFormed(dirs) && src in dirs && p in dirs && dst != [] && !(src <= dst)
    requires dst in dirs ==> Empty(dirs, dst)
    ensures p !in Moved(dirs, src, dst) <==> src <= p
  {
    MovedAt(dirs, src, dst, p);
    if dst <= p {
      PrefixClosed(dirs, p, |dst|);
      assert p[..|dst|] == dst;
      assert p == dst;
      assert src + p[|dst|..] == src;
    }
  }

  // A run that loses a directory: the root R is watched, A is made in it, and B is made in A after the
  // walk of A and before A is watched.
  const R: Path := ["r"]
  const A: Path := ["r", "a"]
  const B: Path := ["r", "a", "b"]
  const BEFORE: Tree := map[[] := 0, R := 1]
  const CREATED: Event := Event(1, IN_CREATE + IN_ISDIR, "a")
  const STARTED: State := State(BEFORE, map[1 := 1], 2, [], [], map[1 := R], [], [])
  const MADE_A: Step := Mkdir(R, "a", 2)
  const MADE_B: Step := Mkdir(A, "b", 3)
  const READ: State := State(BEFORE[A := 2], map[1 := 1], 2, [], [CREATED], map[1 := R], [], [CREATED])

  lemma RaceStarts()
    ensures Initial(R, STARTED)
  {
    var blank := State(BEFORE, map[], 1, [], [], map[], [], []);
    assert [R][1..] == [] && AddWatches(blank, [R]) == AddWatches(AddWatch(blank, R), []) == AddWatch(blank, R);
    assert Start(BEFORE, [R]) == STARTED;
    assert Parent(R) == [];
    assert WellFormed(BEFORE) && ListsSubtree(BEFORE, R, [R]);
  }

  lemma RaceReads()
    ensures Allowed(R, STARTED, [MADE_A, Read(1)]) && Run(STARTED, [MADE_A, Read(1)]) == READ
  {
    var s1 := READ.(queue := [CREATED], buffer := []);
    assert R + ["a"] == A;
    assert Next(STARTED, MADE_A) == s1 && Next(s1, Read(1)) == READ;
    assert Enabled(R, STARTED, MADE_A) && Enabled(R, s1, Read(1));
    assert [MADE_A][..0] == [] && [MADE_A, Read(1)][..1] == [MADE_A];
    assert Run(STARTED, [MADE_A]) == s1 && Allowed(R, STARTED, [MADE_A]);
  }

  /** `order` is the listing that handling the next event calls for, but `made` happens before the
      watches are added: afterwards nothing is pending and some directory under the root is not watched. */
  ghost predicate LosesDirectory(root: Path, s: State, order: seq<Path>, name: string, made: Step) {
    && Enabled(root, s, Handle(order, name)) && made.Mkdir? && Enabled(root, s, made) && Next(s, made).buffer != []
    && var t := HandleEvent(Next(s, made), order, name);
       Pending(t) == [] && exists lost <- t.dirs :: root <= lost && !Watched(t, lost)
  }

  lemma RaceLoses()
    ensures LosesDirectory(R, READ, [A], "a", MADE_B)
  {
    var v := READ.(dirs := BEFORE[A := 2][B := 3]);
    assert A + ["b"] == B && R + ["a"] == A && R <= A <= B;
    assert Next(READ, MADE_B) == v;
    assert Enabled(R, READ, MADE_B);
    assert Target(READ, CREATED) == A && ListsSubtree(READ.dirs, A, [A]);
    RaceWatches(v);
    var t := HandleEvent(v, [A], "a");
    assert B in t.dirs && !Watched(t, B);
  }

  lemma RaceWatches(v: State)
    requires v == READ.(dirs := BEFORE[A := 2][B := 3])
    ensures HandleEvent(v, [A], "a").watches == map[1 := 1, 2 := 2] && HandleEvent(v, [A], "a").dirs == v.dirs
    ensures Pending(HandleEvent(v, [A], "a")) == []
  {
    assert [A][1..] == [] && AddWatches(v, [A]) == AddWatches(AddWatch(v, A), []) == AddWatch(v, A);
    assert R + ["a"] == A && Target(v, CREATED) == A;
  }

  /** A directory made after the walk, in a directory that is not watched yet, is missed: the
      listing was exact when it was taken, the queue drains, and the new directory is not watched. */
  lemma AtomicityIsNeeded()
    ensures exists root: Path, s: State, order: seq<Path>, name: string, made: Step ::
              Reachable(root, s) && LosesDirectory(root, s, order, name, made)
  {
    RaceStarts();
    RaceReads();
    RaceLoses();
    assert Reachable(R, READ);
  }
}
