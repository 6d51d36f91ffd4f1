/** What the monitor guarantees over whole runs, and where the guarantee stops. */
module MonitorTheorems {
  import opened FindFiles
  import opened Monitor
  import opened MonitorProofs

  // ------------------------------------------------------------------------
  // Coverage over every run
  // ------------------------------------------------------------------------

  /** In every reachable state each directory under the root is watched under its true path, or lies
      at or below the entry that a pending event names through such a directory. */
  lemma {:induction false} CoverageAlways(root: Path, s: State, steps: seq<Step>)
    requires Initial(root, s) && Allowed(root, s, steps)
    ensures Inv(root, Run(s, steps))
    decreases |steps|
  {
    if steps == [] {
      var dirs: Tree, order :|
        WellFormed(dirs) && root in dirs && ListsSubtree(dirs, root, order) && s == Start(dirs, order);
      StartEstablishes(root, dirs, order);
    } else {
      var before := steps[..|steps| - 1];
      CoverageAlways(root, s, before);
      StepKeeps(root, Run(s, before), steps[|steps| - 1]);
    }
  }

  lemma ReachableStep(root: Path, s: State, step: Step)
    requires Reachable(root, s) && Enabled(root, s, step)
    ensures Reachable(root, Next(s, step))
  {
    var init: State, steps: seq<Step> :| Initial(root, init) && Allowed(root, init, steps) && s == Run(init, steps);
    var more := steps + [step];
    assert more[..|more| - 1] == steps;
    assert Allowed(root, init, more) && Next(s, step) == Run(init, more);
  }

  lemma {:induction false} ReachableRun(root: Path, s: State, steps: seq<Step>)
    requires Reachable(root, s) && Allowed(root, s, steps)
    ensures Reachable(root, Run(s, steps))
    decreases |steps|
  {
    if steps != [] {
      ReachableRun(root, s, steps[..|steps| - 1]);
      ReachableStep(root, Run(s, steps[..|steps| - 1]), steps[|steps| - 1]);
    }
  }

  lemma ReachableInv(root: Path, t: State)
    requires Reachable(root, t)
    ensures Inv(root, t)
  {
    var s: State, steps: seq<Step> :| Initial(root, s) && Allowed(root, s, steps) && t == Run(s, steps);
    CoverageAlways(root, s, steps);
  }

  /** Once no event is pending, every directory under the root is watched, under its true path, by a
      descriptor of its own. */
  lemma DrainedIsAccurate(root: Path, t: State, p: Path)
    requires Reachable(root, t) && Pending(t) == []
    requires p in t.dirs && root <= p
    ensures t.dirs[p] in t.watches
    ensures t.watches[t.dirs[p]] in t.wdMap && t.wdMap[t.watches[t.dirs[p]]] == p
    ensures forall q :: Good(t, q) && t.watches[t.dirs[q]] == t.watches[t.dirs[p]] ==> q == p
  {
    ReachableInv(root, t);
    NothingCovered(t, p);
    assert Good(t, p);
  }

  lemma NothingCovered(s: State, p: Path)
    requires Pending(s) == []
    ensures !Covered(s, p)
  {
  }

  // ------------------------------------------------------------------------
  // When the environment falls silent
  // ------------------------------------------------------------------------

  function Handled(steps: seq<Step>): nat {
    if steps == [] then 0
    else Handled(steps[..|steps| - 1]) + if steps[|steps| - 1].Handle? then 1 else 0
  }

  predicate MonitorOnly(steps: seq<Step>) {
    forall step <- steps :: IsMonitorStep(step)
  }

  /** A step of the monitor takes at most the first pending event, and only adds watches. */
  lemma QuietStep(root: Path, s: State, step: Step)
    requires Inv(root, s) && Enabled(root, s, step) && IsMonitorStep(step)
    ensures var t := Next(s, step);
            && Inv(root, t) && t.dirs == s.dirs
            && (if step.Handle? then Pending(s) != [] && Pending(t) == Pending(s)[1..] else Pending(t) == Pending(s))
            && (if step.Handle? then
                  var e := Pending(s)[0];
                  && e.wd in s.wdMap && CanRead(e, step.name)
                  && t.log == s.log + [Change(Classify(e.mask), Append(s.wdMap[e.wd], step.name))]
                else t.log == s.log)
            && t.sent == s.sent
            && (forall i <- s.watches :: i in t.watches && t.watches[i] == s.watches[i])
  {
    StepKeeps(root, s, step);
    if step.Handle? {
      HandleEffect(root, s, step.order, step.name);
      assert Pending(s)[0] == s.buffer[0];
    }
  }

  /** With no environment steps, the pending events are consumed one per turn, in order, and nothing
      is added: the directories stay, descriptors are kept. */
  lemma {:induction false} Quiet(root: Path, s: State, tail: seq<Step>)
    requires Inv(root, s) && Allowed(root, s, tail) && MonitorOnly(tail)
    ensures var t := Run(s, tail);
            && Inv(root, t) && t.dirs == s.dirs
            && Handled(tail) <= |Pending(s)| && Pending(t) == Pending(s)[Handled(tail)..]
            && (forall i <- s.watches :: i in t.watches && t.watches[i] == s.watches[i])
    decreases |tail|
  {
    if tail != [] {
      var before, last := tail[..|tail| - 1], tail[|tail| - 1];
      assert last in tail;
      Quiet(root, s, before);
      QuietStep(root, Run(s, before), last);
    }
  }

  /** However stale `wd_map` has become, once the environment is silent for as many turns of the event
      loop as there are pending events, every directory under the root is watched under its true path. */
  lemma Settles(root: Path, s: State, tail: seq<Step>)
    requires Reachable(root, s)
    requires Allowed(root, s, tail) && MonitorOnly(tail) && Handled(tail) == |Pending(s)|
    ensures Accurate(root, Run(s, tail)) && Run(s, tail).dirs == s.dirs
  {
    ReachableInv(root, s);
    Quiet(root, s, tail);
    NothingPendingIsAccurate(root, Run(s, tail));
  }

  /** Nothing is pending and every directory under the root is watched under its true path. */
  ghost predicate Accurate(root: Path, s: State) {
    Pending(s) == [] && forall p <- s.dirs :: root <= p ==> Good(s, p)
  }

  lemma NothingPendingIsAccurate(root: Path, s: State)
    requires Inv(root, s) && Pending(s) == []
    ensures Accurate(root, s)
  {
    forall p <- s.dirs | root <= p
      ensures Good(s, p)
    {
      NothingCovered(s, p);
    }
  }

  /** The monitor is never stuck while an event is pending. */
  lemma CanStep(root: Path, s: State) returns (step: Step)
    requires Inv(root, s) && Pending(s) != []
    ensures IsMonitorStep(step) && Enabled(root, s, step)
  {
    if s.buffer == [] {
      step := Read(|s.queue|);
    } else {
      var order := Enumerate(set q | q in s.dirs && s.buffer[0].wd in s.wdMap && Target(s, s.buffer[0]) <= q);
      step := Handle(order, s.buffer[0].name);
    }
  }

  /** Some turns of the monitor alone always lead to an accurate state: draining terminates. */
  lemma DrainingEnds(root: Path, s: State) returns (tail: seq<Step>)
    requires Reachable(root, s)
    ensures Allowed(root, s, tail) && MonitorOnly(tail) && Handled(tail) == |Pending(s)|
    ensures Accurate(root, Run(s, tail)) && Run(s, tail).dirs == s.dirs
  {
    ReachableInv(root, s);
    tail := Drain(root, s, []);
    Quiet(root, s, tail);
    NothingPendingIsAccurate(root, Run(s, tail));
  }

  lemma Drain(root: Path, s: State, sofar: seq<Step>) returns (tail: seq<Step>)
    requires Inv(root, s) && Allowed(root, s, sofar) && MonitorOnly(sofar)
    ensures Allowed(root, s, tail) && MonitorOnly(tail) && Pending(Run(s, tail)) == []
    decreases |Pending(Run(s, sofar))|, |Run(s, sofar).queue|
  {
    Quiet(root, s, sofar);
    var u := Run(s, sofar);
    if Pending(u) == [] {
      return sofar;
    }
    var step := CanStep(root, u);
    QuietStep(root, u, step);
    var more := sofar + [step];
    assert more[..|more| - 1] == sofar;
    tail := Drain(root, s, more);
  }

  lemma Enumerate(s: set<Path>) returns (order: seq<Path>)
    ensures forall q :: q in order <==> q in s
    decreases s
  {
    if s == {} {
      order := [];
    } else {
      var p :| p in s;
      var rest := Enumerate(s - {p});
      order := [p] + rest;
    }
  }

  // ------------------------------------------------------------------------
  // Renames
  // ------------------------------------------------------------------------

  /** Handling an event that names directory `a` through its good parent refreshes the whole subtree
      of `a`: descriptors of inodes that were already watched are reused, and every event still
      pending on one of them, even one queued while its path was stale, resolves to the new path. */
  lemma RenameRepair(root: Path, s: State, order: seq<Path>, name: string, q: Path, p: Path)
    requires Inv(root, s) && Enabled(root, s, Handle(order, name))
    requires Covers(s, s.buffer[0], q, p) && p in s.dirs
    ensures var t := Next(s, Handle(order, name));
            && Good(t, p)
            && (Watched(s, p) ==> t.watches[t.dirs[p]] == s.watches[s.dirs[p]])
            && forall x <- Pending(t) :: x.wd == t.watches[t.dirs[p]] ==>
                 x.wd in t.wdMap && Target(t, x) == Append(p, x.name)
  {
    HandleEffect(root, s, order, name);
    var e := s.buffer[0];
    PrefixClosed(s.dirs, p, |q| + 1);
    assert p[..|q| + 1] == q + [e.name] == Target(s, e);
  }
}
