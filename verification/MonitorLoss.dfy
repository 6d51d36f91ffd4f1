/** Directories that the monitor loses for good: what becomes of one made between walk and watches once
    the environment is silent. */
module MonitorLoss {
  import opened FindFiles
  import opened Monitor
  import opened MonitorProofs
  import opened MonitorTheorems
  import opened MonitorReports
  import opened MonitorRace

  // ------------------------------------------------------------------------
  // Steps of the monitor alone, whether or not everything is covered
  // ------------------------------------------------------------------------

  ghost predicate Sound(s: State) {
    WellFormed(s.dirs) && TablesAgree(s)
  }

  /** What `watch` did to `s`: the directories of `order` have watches and true records, others are as before. */
  ghost predicate Watches(s: State, t: State, order: seq<Path>) {
    && t.dirs == s.dirs
    && (forall p <- order :: Good(t, p))
    && (forall p :: Watched(t, p) ==> Watched(s, p) || p in order)
    && (forall p :: Watched(s, p) ==> Watched(t, p) && t.watches[t.dirs[p]] == s.watches[s.dirs[p]])
    && (forall p :: Watched(t, p) && !Watched(s, p) ==> t.watches[t.dirs[p]] >= s.nextWd)
    && (forall w <- s.wdMap :: w in t.wdMap && (t.wdMap[w] == s.wdMap[w] || Rerecorded(s, t, order, w)))
    && (forall p :: Good(s, p) ==> Good(t, p))
  }

  /** Descriptor `w` is that of a directory of `order`, and now has its path. */
  predicate Rerecorded(s: State, t: State, order: seq<Path>, w: Wd)
    requires w in t.wdMap
  {
    t.wdMap[w] in order && Watched(s, t.wdMap[w]) && s.watches[s.dirs[t.wdMap[w]]] == w
  }

  lemma AddWatchWatches(s: State, p: Path)
    requires Sound(s) && p in s.dirs
    ensures var t := AddWatch(s, p);
            Sound(t) && Watches(s, t, [p]) && s.nextWd <= t.nextWd
  {
    AddWatchKeeps(s, p);
  }

  lemma WatchesCompose(s: State, mid: State, t: State, p: Path, rest: seq<Path>)
    requires Sound(s) && s.nextWd <= mid.nextWd
    requires Watches(s, mid, [p]) && Watches(mid, t, rest)
    ensures Watches(s, t, [p] + rest)
  {
    hide Sound, Good;
    assert p in [p] && forall q <- [p] + rest :: q == p || q in rest;
    forall w <- s.wdMap
      ensures w in t.wdMap && (t.wdMap[w] == s.wdMap[w] || Rerecorded(s, t, [p] + rest, w))
    {
      assert w < s.nextWd by { assert Sound(s); DescriptorIsOld(s, w); }
    }
  }

  lemma DescriptorIsOld(s: State, w: Wd)
    requires Sound(s) && w in s.wdMap
    ensures w < s.nextWd
  {
  }

  lemma {:induction false} AddWatchesWatches(s: State, order: seq<Path>)
    requires Sound(s) && forall p <- order :: p in s.dirs
    ensures Watches(s, AddWatches(s, order), order) && s.nextWd <= AddWatches(s, order).nextWd
    decreases order
  {
    if order != [] {
      var mid, rest := AddWatch(s, order[0]), order[1..];
      AddWatchWatches(s, order[0]);
      assert forall p <- rest :: p in s.dirs;
      hide Sound, Watches;
      AddWatchesWatches(mid, rest);
      WatchesCompose(s, mid, AddWatches(s, order), order[0], rest);
      assert order == [order[0]] + rest;
    }
  }

  /** One step: nothing is queued, and when an event is handled either its path is a directory, whose
      subtree is watched, or no table changes. */
  ghost predicate Steps(t: State, u: State, step: Step) {
    && Sound(u) && u.dirs == t.dirs
    && if !step.Handle? then Pending(u) == Pending(t) && Watches(t, u, [])
       else
         && Pending(t) != [] && Pending(u) == Pending(t)[1..] && Pending(t)[0].wd in t.wdMap
         && CanRead(Pending(t)[0], step.name)
         && var target := Append(t.wdMap[Pending(t)[0].wd], step.name);
            if target in t.dirs then ListsSubtree(t.dirs, target, step.order) && Watches(t, u, step.order)
            else Watches(t, u, [])
  }

  lemma HandleSteps(root: Path, t: State, order: seq<Path>, name: string)
    requires Sound(t) && Enabled(root, t, Handle(order, name))
    ensures Steps(t, Next(t, Handle(order, name)), Handle(order, name))
  {
    var u := Next(t, Handle(order, name));
    assert Pending(t)[0] == t.buffer[0] && t.buffer[0] in Pending(t);
    var target := Target(t, Seen(t, name));
    if target in t.dirs {
      AddWatchesWatches(t, order);
      AddWatchesKeeps(t, order);
      LikeAfter(t, AddWatches(t, order), u, order);
    } else {
      LikeAfter(t, t, u, []);
    }
  }

  /** Consuming the event changes nothing about descriptors and paths. */
  lemma LikeAfter(t: State, mid: State, u: State, order: seq<Path>)
    requires Sound(t) && TablesAgree(mid) && Watches(t, mid, order) && t.buffer != []
    requires mid.buffer == t.buffer && mid.queue == t.queue
    requires u == mid.(buffer := t.buffer[1..], log := u.log)
    ensures Sound(u) && Watches(t, u, order) && Pending(u) == Pending(t)[1..]
  {
    FewerPending(mid, u);
    assert forall p :: (Good(u, p) <==> Good(mid, p)) && (Watched(u, p) <==> Watched(mid, p));
    assert Pending(t)[1..] == t.buffer[1..] + t.queue;
  }

  lemma MonitorSteps(root: Path, t: State, step: Step)
    requires Sound(t) && Enabled(root, t, step) && IsMonitorStep(step)
    ensures Steps(t, Next(t, step), step)
  {
    if step.Handle? {
      HandleSteps(root, t, step.order, step.name);
    } else {
      assert Pending(Next(t, step)) == Pending(t);
    }
  }

  // ------------------------------------------------------------------------
  // Missed for good
  // ------------------------------------------------------------------------

  /** As `wd_map` stands, event `e` names a directory at or above `p`. */
  predicate PointsTo(s: State, e: Event, p: Path) {
    e.wd in s.wdMap && Target(s, e) <= p
  }

  /** Directory `p` is not watched, and no pending event leads to it. */
  ghost predicate Missed(t: State, p: Path) {
    p in t.dirs && !Watched(t, p) && forall e <- Pending(t) :: !PointsTo(t, e, p)
  }

  lemma MissedStep(t: State, u: State, step: Step, p: Path)
    requires Sound(t) && Steps(t, u, step) && Missed(t, p)
    ensures Missed(u, p)
  {
    var order := [];
    if step.Handle? {
      var e := Pending(t)[0];
      var target := Append(t.wdMap[e.wd], step.name);
      assert !PointsTo(t, e, p);
      assert t.wdMap[e.wd] <= target;
      assert !(target <= p);
      if target in t.dirs {
        order := step.order;
      }
    }
    assert Watches(t, u, order);
    assert forall q <- order :: !(q <= p);
    forall e <- Pending(u)
      ensures !PointsTo(u, e, p)
    {
      assert e in Pending(t) && !PointsTo(t, e, p) && e.wd in t.wdMap;
      assert u.wdMap[e.wd] <= Target(u, e);
    }
  }

  /** A missed directory stays missed, and so is never watched, however long the monitor works on alone. */
  lemma {:induction false} MissedForGood(root: Path, t: State, p: Path, tail: seq<Step>)
    requires Sound(t) && Missed(t, p) && Allowed(root, t, tail) && MonitorOnly(tail)
    ensures Sound(Run(t, tail)) && Missed(Run(t, tail), p)
    decreases |tail|
  {
    if tail != [] {
      var before, last := tail[..|tail| - 1], tail[|tail| - 1];
      assert last in tail;
      MissedForGood(root, t, p, before);
      MonitorSteps(root, Run(t, before), last);
      MissedStep(Run(t, before), Run(t, tail), last, p);
    }
  }

  // ------------------------------------------------------------------------
  // Found through a record that nothing can change
  // ------------------------------------------------------------------------

  /** Event `e` is pending on a descriptor that no directory under the root has. */
  ghost predicate Stray(root: Path, s: State, e: Event) {
    && e in Pending(s) && e.wd in s.wdMap
    && forall q :: Watched(s, q) && root <= q ==> s.watches[s.dirs[q]] != e.wd
  }

  ghost predicate Awaits(root: Path, s: State, e: Event, r: Path, p: Path) {
    Sound(s) && Rooted(root, s) && (Good(s, p) || (Stray(root, s, e) && s.wdMap[e.wd] == r))
  }

  lemma AwaitsStep(root: Path, t: State, u: State, step: Step, e: Event, r: Path, p: Path)
    requires Steps(t, u, step) && Awaits(root, t, e, r, p) && Rooted(root, u)
    requires e.name != "" && r + [e.name] <= p && p in t.dirs
    ensures Awaits(root, u, e, r, p)
  {
    if !Good(t, p) {
      if step.Handle? && Pending(t)[0] == e {
        PrefixClosed(t.dirs, p, |r| + 1);
        assert p[..|r| + 1] == r + [e.name];
      } else {
        StrayStays(root, t, u, step, e);
      }
    }
  }

  lemma StrayStays(root: Path, t: State, u: State, step: Step, e: Event)
    requires Steps(t, u, step) && Sound(t) && Rooted(root, t) && Stray(root, t, e)
    requires step.Handle? ==> Pending(t)[0] != e
    ensures Stray(root, u, e) && u.wdMap[e.wd] == t.wdMap[e.wd]
  {
    var order := [];
    if step.Handle? {
      assert Pending(t) == [Pending(t)[0]] + Pending(t)[1..];
      var target := Append(t.wdMap[Pending(t)[0].wd], step.name);
      if target in t.dirs {
        order := step.order;
        forall q <- order ensures root <= q {
          assert root <= target <= q;
        }
      }
    }
    assert Watches(t, u, order);
    assert e in Pending(u) && e.wd < t.nextWd;
  }

  lemma {:induction false} AwaitsRun(root: Path, t: State, e: Event, r: Path, p: Path, tail: seq<Step>)
    requires Awaits(root, t, e, r, p) && Allowed(root, t, tail) && MonitorOnly(tail)
    requires e.name != "" && r + [e.name] <= p && p in t.dirs
    ensures Awaits(root, Run(t, tail), e, r, p) && Run(t, tail).dirs == t.dirs
    decreases |tail|
  {
    if tail != [] {
      var before, last := tail[..|tail| - 1], tail[|tail| - 1];
      assert last in tail;
      AwaitsRun(root, t, e, r, p, before);
      var u := Run(t, before);
      MonitorSteps(root, u, last);
      if last.Handle? {
        assert u.buffer[0] in Pending(u);
        RootedHandle(root, u, last.order, last.name);
      } else {
        OnlyHandlingMaps(u, last);
      }
      AwaitsStep(root, u, Run(t, tail), last, e, r, p);
    }
  }

  // ------------------------------------------------------------------------
  // A directory made between walk and watches
  // ------------------------------------------------------------------------

  /** The state after a turn during which directory `dir + [child]` is made, too late for the listing. */
  function Turned(s: State, order: seq<Path>, name: string, dir: Path, child: string, ino: Ino): State
    requires s.buffer != []
  {
    MkdirQueues(s, dir, child, ino);
    HandleEvent(Next(s, Mkdir(dir, child, ino)), order, name)
  }

  /** In state `s` the event at the head of the buffer names directory `target`, and directory
      `dir + [child]` can be made under the root. */
  ghost predicate InWindow(
    root: Path, s: State, order: seq<Path>, name: string, target: Path, dir: Path, child: string, ino: Ino)
  {
    && Reachable(root, s) && Enabled(root, s, Handle(order, name)) && Enabled(root, s, Mkdir(dir, child, ino))
    && s.buffer != [] && s.buffer[0].wd in s.wdMap
    && target == Target(s, Seen(s, name)) && target in s.dirs && root <= dir
  }

  /** The condition of MkdirInWindowExactly. */
  ghost predicate Kept(s: State, target: Path, dir: Path)
    requires s.buffer != []
  {
    || !(target <= dir) || Watched(s, dir)
    || exists e <- s.buffer[1..] + s.queue, q :: LeadsTo(s, target, e, q, dir)
  }

  /** If coverage survives, the directory is found: with no event pending it is watched under its path. */
  lemma KeptIsFound(root: Path, s: State, order: seq<Path>, name: string, target: Path,
                    dir: Path, child: string, ino: Ino, tail: seq<Step>)
    requires InWindow(root, s, order, name, target, dir, child, ino) && Kept(s, target, dir)
    requires var t := Turned(s, order, name, dir, child, ino);
             Allowed(root, t, tail) && MonitorOnly(tail) && Pending(Run(t, tail)) == []
    ensures Good(Run(Turned(s, order, name, dir, child, ino), tail), dir + [child])
  {
    var t := Turned(s, order, name, dir, child, ino);
    ReachableInv(root, s);
    MkdirInWindowExactly(root, s, order, name, dir, child, ino);
    assert Inv(root, t);
    WindowEffect(root, s, order, name, target, dir, child, ino);
    hide Turned, InWindow;
    Quiet(root, t, tail);
    NothingPendingIsAccurate(root, Run(t, tail));
  }

  /** The path that descriptor `w` stands for after the turn: that of the walked directory it belongs to,
      if any, else the one recorded before. */
  ghost predicate Recorded(s: State, target: Path, w: Wd, r: Path) {
    || WalkedAs(s, target, w, r)
    || (w in s.wdMap && s.wdMap[w] == r && forall q :: !WalkedAs(s, target, w, q))
  }

  predicate WalkedAs(s: State, target: Path, w: Wd, q: Path) {
    Watched(s, q) && target <= q && s.watches[s.dirs[q]] == w
  }

  ghost predicate LeadsAfter(s: State, target: Path, e: Event, p: Path) {
    exists r :: Recorded(s, target, e.wd, r) && Append(r, e.name) <= p
  }

  /** Directory `made` appears between `s` and `v`, and a turn that has listed `target` in `s` leads from `v` to `t`. */
  ghost predicate TurnOf(s: State, v: State, t: State, order: seq<Path>, target: Path, made: Path) {
    && Sound(v) && Extends(s, v) && made !in s.dirs && made in v.dirs && v.dirs.Keys == s.dirs.Keys + {made}
    && v.dirs[made] !in s.watches
    && target in s.dirs && ListsSubtree(s.dirs, target, order) && Watches(v, t, order)
  }

  lemma WindowEffect(root: Path, s: State, order: seq<Path>, name: string, target: Path,
                     dir: Path, child: string, ino: Ino)
    requires InWindow(root, s, order, name, target, dir, child, ino)
    ensures var t := Turned(s, order, name, dir, child, ino);
            && Sound(s) && Rooted(root, s) && root <= dir + [child]
            && TurnOf(s, Next(s, Mkdir(dir, child, ino)), t, order, target, dir + [child])
            && Sound(t) && Rooted(root, t)
            && (!Watched(s, dir) ==> Pending(t) == s.buffer[1..] + s.queue)
  {
    var v := Next(s, Mkdir(dir, child, ino));
    hide Next, Inv, Enabled, Reachable, WellFormed, Watches, Sound, TablesAgree, Extends, Window, Rooted,
         HandleEvent, ListsSubtree, Pending, Watched;
    WindowBefore(root, s, order, name, target, dir, child, ino);
    TurnEffect(root, v, order, name);
  }

  lemma WindowBefore(root: Path, s: State, order: seq<Path>, name: string, target: Path,
                     dir: Path, child: string, ino: Ino)
    requires InWindow(root, s, order, name, target, dir, child, ino)
    ensures var v, made := Next(s, Mkdir(dir, child, ino)), dir + [child];
            && Sound(s) && Rooted(root, s) && root <= made && Window(root, v, order, name) && Rooted(root, v)
            && Extends(s, v) && made !in s.dirs && v.dirs == s.dirs[made := ino] && ino !in s.watches
            && target in s.dirs && ListsSubtree(s.dirs, target, order)
            && v.buffer == s.buffer && (!Watched(s, dir) ==> v.queue == s.queue)
  {
    ReachableInv(root, s);
    ReachableRooted(root, s);
    MkdirKeeps(root, s, dir, child, ino);
    MkdirEffect(s, dir, child, ino);
    MkdirQueues(s, dir, child, ino);
    hide Next, Reachable;
    WindowOpens(root, s, order, name, Next(s, Mkdir(dir, child, ino)));
  }

  lemma TurnEffect(root: Path, v: State, order: seq<Path>, name: string)
    requires Window(root, v, order, name) && Rooted(root, v)
    ensures var t := HandleEvent(v, order, name);
            && Sound(v) && Sound(t) && Rooted(root, t) && Watches(v, t, order)
            && Pending(t) == v.buffer[1..] + v.queue
  {
    var t := HandleEvent(v, order, name);
    WindowRooted(root, v, order, name);
    AddWatchesWatches(v, order);
    AddWatchesKeeps(v, order);
    LikeAfter(v, AddWatches(v, order), t, order);
  }

  lemma WindowRooted(root: Path, v: State, order: seq<Path>, name: string)
    requires Window(root, v, order, name) && Rooted(root, v)
    ensures Rooted(root, HandleEvent(v, order, name))
  {
    forall q <- order ensures root <= q {
      assert root <= Target(v, Seen(v, name)) <= q;
    }
    AddWatchesRooted(root, v, order);
  }

  /** After the turn `wd_map` holds, for every descriptor, what `Recorded` says. */
  lemma RecordedIsMapped(s: State, v: State, t: State, order: seq<Path>, target: Path, made: Path, w: Wd)
    requires TurnOf(s, v, t, order, target, made) && w in s.wdMap
    ensures w in t.wdMap && forall r :: Recorded(s, target, w, r) <==> t.wdMap[w] == r
  {
    assert forall q :: Watched(v, q) <==> Watched(s, q);
    forall q | WalkedAs(s, target, w, q)
      ensures t.wdMap[w] == q
    {
      assert q in order && Good(t, q);
    }
    if forall q :: !WalkedAs(s, target, w, q) {
      assert !WalkedAs(s, target, w, t.wdMap[w]);
    } else {
      var q :| WalkedAs(s, target, w, q);
      assert t.wdMap[w] == q;
    }
  }

  /** If no event pending after the turn leads to the directory, it is never watched, however long the monitor
      works on alone. */
  lemma LostForGood(root: Path, s: State, order: seq<Path>, name: string, target: Path,
                    dir: Path, child: string, ino: Ino, tail: seq<Step>)
    requires InWindow(root, s, order, name, target, dir, child, ino) && target <= dir && !Watched(s, dir)
    requires forall e <- s.buffer[1..] + s.queue :: !LeadsAfter(s, target, e, dir + [child])
    requires Allowed(root, Turned(s, order, name, dir, child, ino), tail) && MonitorOnly(tail)
    ensures var t := Run(Turned(s, order, name, dir, child, ino), tail);
            dir + [child] in t.dirs && !Watched(t, dir + [child])
  {
    WindowEffect(root, s, order, name, target, dir, child, ino);
    hide Turned, Next, InWindow;
    MissedAfterTurn(s, Next(s, Mkdir(dir, child, ino)), Turned(s, order, name, dir, child, ino), order, target,
                    dir + [child]);
    MissedForGood(root, Turned(s, order, name, dir, child, ino), dir + [child], tail);
  }

  lemma MissedAfterTurn(s: State, v: State, t: State, order: seq<Path>, target: Path, made: Path)
    requires Sound(s) && TurnOf(s, v, t, order, target, made) && s.buffer != []
    requires Pending(t) == s.buffer[1..] + s.queue
    requires forall e <- s.buffer[1..] + s.queue :: !LeadsAfter(s, target, e, made)
    ensures Missed(t, made)
  {
    assert !Watched(t, made) && made in t.dirs;
    forall e <- Pending(t)
      ensures !PointsTo(t, e, made)
    {
      assert e in Pending(s);
      RecordedIsMapped(s, v, t, order, target, made, e.wd);
      assert Recorded(s, target, e.wd, t.wdMap[e.wd]);
    }
  }

  /** If an event with a name leads to the directory through a descriptor that no directory under the root
      has any more, the directory is found all the same, although coverage may be broken until then. */
  lemma FoundByStray(root: Path, s: State, order: seq<Path>, name: string, target: Path,
                     dir: Path, child: string, ino: Ino, tail: seq<Step>, e: Event)
    requires InWindow(root, s, order, name, target, dir, child, ino) && !Watched(s, dir)
    requires e in s.buffer[1..] + s.queue && e.name != "" && Stray(root, s, e)
    requires s.wdMap[e.wd] + [e.name] <= dir + [child]
    requires var t := Turned(s, order, name, dir, child, ino);
             Allowed(root, t, tail) && MonitorOnly(tail) && Pending(Run(t, tail)) == []
    ensures Good(Run(Turned(s, order, name, dir, child, ino), tail), dir + [child])
  {
    hide Turned, Next, Reachable, Enabled, TurnOf, Stray, Sound, Rooted, Good, Run, Allowed, Pending;
    WindowEffect(root, s, order, name, target, dir, child, ino);
    TargetRooted(root, s, name);
    StrayLeads(root, s, Next(s, Mkdir(dir, child, ino)), Turned(s, order, name, dir, child, ino), order, target,
               dir + [child], e, tail);
  }

  lemma StrayLeads(root: Path, s: State, v: State, t: State, order: seq<Path>, target: Path, made: Path,
                   e: Event, tail: seq<Step>)
    requires TurnOf(s, v, t, order, target, made) && root <= target && Sound(t) && Rooted(root, t)
    requires s.buffer != [] && Pending(t) == s.buffer[1..] + s.queue
    requires e in Pending(t) && e.name != "" && Stray(root, s, e) && s.wdMap[e.wd] + [e.name] <= made
    requires Allowed(root, t, tail) && MonitorOnly(tail) && Pending(Run(t, tail)) == []
    ensures Good(Run(t, tail), made)
  {
    StrayAfterTurn(root, s, v, t, order, target, made, e);
    hide TurnOf;
    AwaitsRun(root, t, e, s.wdMap[e.wd], made, tail);
  }

  lemma TargetRooted(root: Path, s: State, name: string)
    requires Rooted(root, s) && s.buffer != [] && s.buffer[0].wd in s.wdMap
    ensures root <= Target(s, Seen(s, name))
  {
  }

  lemma StrayAfterTurn(
    root: Path, s: State, v: State, t: State, order: seq<Path>, target: Path, made: Path, e: Event)
    requires TurnOf(s, v, t, order, target, made) && root <= target
    requires Stray(root, s, e) && e in Pending(t)
    ensures Stray(root, t, e) && t.wdMap[e.wd] == s.wdMap[e.wd] && made in t.dirs
  {
    assert forall q :: Watched(v, q) <==> Watched(s, q);
    forall q <- order ensures root <= q {
      assert root <= target <= q;
    }
    assert e.wd < v.nextWd;
  }

  /** Event `e` has a name and comes from a directory whose record is true, or about to be. */
  ghost predicate Current(s: State, target: Path, e: Event) {
    e.name != "" && exists q :: Watched(s, q) && e.wd == s.watches[s.dirs[q]] && (Good(s, q) || target <= q)
  }

  /** As long as no event leads to the directory through an outdated record, it is watched in the end exactly
      when coverage survived the turn. */
  lemma LostExactly(root: Path, s: State, order: seq<Path>, name: string, target: Path,
                    dir: Path, child: string, ino: Ino, tail: seq<Step>)
    requires InWindow(root, s, order, name, target, dir, child, ino)
    requires forall e <- s.buffer[1..] + s.queue :: LeadsAfter(s, target, e, dir + [child]) ==> Current(s, target, e)
    requires var t := Turned(s, order, name, dir, child, ino);
             Allowed(root, t, tail) && MonitorOnly(tail) && Pending(Run(t, tail)) == []
    ensures Watched(Run(Turned(s, order, name, dir, child, ino), tail), dir + [child]) <==> Kept(s, target, dir)
  {
    if Kept(s, target, dir) {
      KeptIsFound(root, s, order, name, target, dir, child, ino, tail);
    } else {
      ReachableInv(root, s);
      forall e <- s.buffer[1..] + s.queue
        ensures !LeadsAfter(s, target, e, dir + [child])
      {
        assert e in Pending(s);
        CurrentLeads(s, target, e, dir, child);
      }
      hide Turned, InWindow, Kept;
      LostForGood(root, s, order, name, target, dir, child, ino, tail);
    }
  }

  lemma CurrentLeads(s: State, target: Path, e: Event, dir: Path, child: string)
    requires Sound(s) && !Watched(s, dir) && dir + [child] !in s.dirs
    requires LeadsAfter(s, target, e, dir + [child]) ==> Current(s, target, e)
    requires forall q :: !LeadsTo(s, target, e, q, dir)
    ensures !LeadsAfter(s, target, e, dir + [child])
  {
    var made := dir + [child];
    forall r | Recorded(s, target, e.wd, r)
      ensures !(Append(r, e.name) <= made)
    {
      if Append(r, e.name) <= made {
        assert LeadsAfter(s, target, e, made);
        var q :| Watched(s, q) && e.wd == s.watches[s.dirs[q]] && (Good(s, q) || target <= q);
        RecordIsTrue(s, target, e.wd, q, r);
        assert !LeadsTo(s, target, e, q, dir);
        assert q + [e.name] <= made;
        StepUp(q, e.name, dir, child);
        assert false;
      }
    }
  }

  lemma RecordIsTrue(s: State, target: Path, w: Wd, q: Path, r: Path)
    requires Sound(s) && Watched(s, q) && w == s.watches[s.dirs[q]] && (Good(s, q) || target <= q)
    requires Recorded(s, target, w, r)
    ensures r == q
  {
    if target <= q {
      assert WalkedAs(s, target, w, q);
    }
  }

  lemma StepUp(q: Path, x: string, dir: Path, child: string)
    requires q + [x] <= dir + [child]
    ensures q == dir || q + [x] <= dir
  {
    if |q| == |dir| {
      assert q == (q + [x])[..|q|] == (dir + [child])[..|q|] == dir;
    } else {
      assert q + [x] == (dir + [child])[..|q| + 1] == dir[..|q| + 1];
    }
  }

  // A run in which an event without a name decides: X is moved onto the watched directory A, and B is made
  // in it after the walk of A. The report of A's dropped watch is still pending, and its record is A.
  const X: Path := ["x"]
  const BOTH: Tree := map[[] := 0, R := 1, A := 2, X := 3]
  const ONE: Tree := map[[] := 0, R := 1, A := 3]
  const ARRIVED: Event := Event(1, IN_MOVED_TO + IN_ISDIR, "a")
  const DROPPED: Event := Event(2, IN_IGNORED, "")
  const FIRST: State := State(BOTH, map[1 := 1, 2 := 2], 3, [], [], map[1 := R, 2 := A], [], [])
  const SWAPPED: State :=
    State(ONE, map[1 := 1], 3, [ARRIVED, DROPPED], [], map[1 := R, 2 := A], [], [ARRIVED, DROPPED])
  const STALE: State := SWAPPED.(queue := [], buffer := [ARRIVED, DROPPED])
  const LATE: State := STALE.(dirs := ONE[B := 4], watches := map[1 := 1, 3 := 3], nextWd := 4,
                              buffer := [DROPPED], wdMap := map[1 := R, 2 := A, 3 := A], log := [Change(MovedTo, A)])

  lemma SwapTree()
    ensures WellFormed(BOTH) && ListsSubtree(BOTH, R, [R, A])
  {
    assert Parent(R) == [] && Parent(A) == R && Parent(X) == [];
  }

  lemma SwapMoves()
    ensures Moved(BOTH, X, A) == ONE
  {
    var m := Moved(BOTH, X, A);
    assert X[0] != A[0] && X[0] != R[0] && !(X <= A);
    hide Moved;
    forall p
      ensures p in m <==> p in ONE
      ensures p in m ==> m[p] == ONE[p]
    {
      MovedAt(BOTH, X, A, p);
      if A <= p {
        SwapMovesBack(p);
      }
    }
  }

  lemma SwapMovesBack(p: Path)
    requires A <= p
    ensures X + p[|A|..] in BOTH <==> p == A
    ensures p in ONE <==> p == A
    ensures p == A ==> X + p[|A|..] == X
  {
    var back := X + p[|A|..];
    assert back[0] == "x" && |back| == |p| - 1 && (|p| == 2 <==> p == A);
    assert R[0] == "r" && A[0] == "r" && (|back| == 1 <==> back == X);
  }

  lemma SwapBegins()
    ensures Initial(R, FIRST) && Reachable(R, FIRST)
  {
    var blank := State(BOTH, map[], 1, [], [], map[], [], []);
    assert [R, A][1..] == [A] && [A][1..] == [];
    var s1 := AddWatch(blank, R);
    assert s1 == blank.(watches := map[1 := 1], nextWd := 2, wdMap := map[1 := R]);
    assert AddWatch(s1, A) == FIRST;
    assert AddWatches(s1, [A]) == AddWatches(FIRST, []) == FIRST;
    assert Start(BOTH, [R, A]) == FIRST;
    SwapTree();
    assert Allowed(R, FIRST, []) && Run(FIRST, []) == FIRST;
  }

  lemma SwapEnabled()
    ensures Enabled(R, FIRST, Rename(X, A))
  {
    assert X[0] != A[0] && X[0] != R[0] && !(X <= A) && !(X <= R) && !(A <= R);
    assert X in FIRST.dirs && Empty(FIRST.dirs, A) && ValidName("a");
    assert Parent(A) == R && Last(A) == "a" && R in FIRST.dirs;
  }

  lemma SwapHappens()
    ensures Next(FIRST, Rename(X, A)) == SWAPPED
  {
    SwapMoves();
    hide Moved;
    assert Parent(X) == [] && Parent(A) == R && Last(A) == "a";
    var s1 := FIRST.(queue := [ARRIVED], sent := [ARRIVED]);
    assert MoveEvents(FIRST, X, A) == s1;
    assert DropWatch(s1, 2) == SWAPPED.(dirs := BOTH);
  }

  lemma SwapIsRead()
    ensures Next(SWAPPED, Read(2)) == STALE && Enabled(R, SWAPPED, Read(2))
  {
  }

  lemma StaleHappens()
    ensures Reachable(R, STALE)
  {
    SwapBegins();
    SwapEnabled();
    SwapHappens();
    SwapIsRead();
    hide *;
    ReachableStep(R, FIRST, Rename(X, A));
    ReachableStep(R, SWAPPED, Read(2));
  }

  lemma LateOpens()
    ensures InWindow(R, STALE, [A], "a", A, A, "b", 4) && !Kept(STALE, A, A)
  {
    StaleHappens();
    hide Reachable;
    assert A + ["b"] == B && R + ["a"] == A && R <= A;
    assert Target(STALE, ARRIVED) == A && Seen(STALE, "a") == ARRIVED;
    assert ListsSubtree(STALE.dirs, A, [A]);
    assert STALE.buffer[1..] + STALE.queue == [DROPPED];
  }

  lemma LateHappens()
    ensures Turned(STALE, [A], "a", A, "b", 4) == LATE
  {
    assert A + ["b"] == B && R + ["a"] == A;
    var v := STALE.(dirs := ONE[B := 4]);
    assert Next(STALE, Mkdir(A, "b", 4)) == v;
    assert [A][1..] == [] && AddWatches(v, [A]) == AddWatches(AddWatch(v, A), []) == AddWatch(v, A);
    hide Next, AddWatches, AddWatch;
    assert Target(STALE, ARRIVED) == A && Seen(STALE, "a") == ARRIVED;
    LateEvent();
  }

  lemma LateEvent()
    ensures Classify(IN_MOVED_TO + IN_ISDIR) == MovedTo && Classify(IN_IGNORED) == Unknown
  {
  }

  /** Which steps of the monitor drain the queue of `t`, and end in `u`. */
  ghost predicate DrainsTo(root: Path, t: State, tail: seq<Step>, u: State) {
    Allowed(root, t, tail) && MonitorOnly(tail) && u == Run(t, tail) && Pending(u) == []
  }

  lemma LateFinds()
    ensures var u := LATE.(watches := map[1 := 1, 3 := 3, 4 := 4], nextWd := 5, buffer := [],
                           wdMap := map[1 := R, 2 := A, 3 := A, 4 := B],
                           log := [Change(MovedTo, A), Change(Unknown, A)]);
            DrainsTo(R, LATE, [Handle([A, B], "")], u) && Good(u, B)
  {
    var step := Handle([A, B], "");
    assert Target(LATE, Seen(LATE, "")) == A && A <= B;
    assert ListsSubtree(LATE.dirs, A, [A, B]);
    assert [A, B][1..] == [B] && [B][1..] == [];
    assert AddWatch(LATE, A) == LATE;
    var s1 := AddWatch(LATE, B);
    assert AddWatches(LATE, [A, B]) == AddWatches(LATE, [B]) == AddWatches(s1, []) == s1;
    LateEvent();
    OneStep(R, LATE, step);
  }

  lemma LateLoses()
    ensures var u := LATE.(buffer := [], log := [Change(MovedTo, A), Change(Unknown, A + ["z"])]);
            DrainsTo(R, LATE, [Handle([], "z")], u) && !Watched(u, B) && B in u.dirs
  {
    assert Target(LATE, Seen(LATE, "z")) == A + ["z"] && (A + ["z"])[2] == "z" && B[2] == "b";
    LateEvent();
    OneStep(R, LATE, Handle([], "z"));
  }

  lemma OneStep(root: Path, s: State, step: Step)
    requires Enabled(root, s, step)
    ensures Allowed(root, s, [step]) && Run(s, [step]) == Next(s, step)
  {
    assert [step][..0] == [];
  }

  /** What then becomes of the directory no condition on the state can tell: in one and the same state an event
      without a name, on a dropped watch whose record is outdated, finds it or not, as the bytes behind
      the event are read. */
  lemma NamelessEventDecides()
    ensures exists root, s, order, name, target, dir, child, ino, found, lost, t, u ::
              && InWindow(root, s, order, name, target, dir, child, ino) && !Kept(s, target, dir)
              && DrainsTo(root, Turned(s, order, name, dir, child, ino), found, t) && Good(t, dir + [child])
              && DrainsTo(root, Turned(s, order, name, dir, child, ino), lost, u)
              && dir + [child] in u.dirs && !Watched(u, dir + [child])
  {
    LateOpens();
    LateHappens();
    LateFinds();
    LateLoses();
    assert A + ["b"] == B;
  }
}
