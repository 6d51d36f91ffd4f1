/** What the callback is told: which callbacks there are, of which kind, and when their paths are true. */
module MonitorReports {
  import opened Basics
  import opened FindFiles
  import opened Monitor
  import opened MonitorProofs
  import opened MonitorTheorems

  // ------------------------------------------------------------------------
  // The callbacks are the events sent
  // ------------------------------------------------------------------------

  /** Callback `c` has the kind of event `e` and, if that has a name, ends in it. */
  predicate Tells(c: Change, e: Event) {
    c.ct == Classify(e.mask) && (e.name != "" ==> c.path != [] && Last(c.path) == e.name)
  }

  /** Nothing the kernel queued is lost, duplicated or reordered: the callbacks are the events sent,
      in order, each with its kind and under its name, and what was sent since is still pending. */
  ghost predicate LogMatches(s: State) {
    && |s.log| <= |s.sent| && s.sent[|s.log|..] == Pending(s)
    && (forall e <- s.sent :: e.name == "" || ValidName(e.name))
    && forall i :: 0 <= i < |s.log| ==> Tells(s.log[i], s.sent[i])
  }

  /** Whether it is merged or not, a queued event is the last one pending; it is new unless it was that already. */
  lemma QueueMatches(s: State, e: Event)
    requires LogMatches(s) && (e.name == "" || ValidName(e.name))
    ensures var t := Queue(s, e);
            && LogMatches(t) && s.sent <= t.sent
            && Pending(t) != [] && Pending(t)[|Pending(t)| - 1] == e
            && (Pending(s) != [] && Pending(s)[|Pending(s)| - 1] != e ==> Pending(t) == Pending(s) + [e])
  {
    var t := Queue(s, e);
    if t == s {
      assert Pending(s)[|Pending(s)| - 1] == s.queue[|s.queue| - 1];
    } else {
      assert t.sent[|s.log|..] == s.sent[|s.log|..] + [e];
      assert Pending(t) == Pending(s) + [e];
    }
  }

  lemma HandleMatches(root: Path, s: State, order: seq<Path>, name: string)
    requires Inv(root, s) && Enabled(root, s, Handle(order, name)) && LogMatches(s)
    ensures LogMatches(Next(s, Handle(order, name)))
  {
    HandleEffect(root, s, order, name);
    LogGrows(s, Next(s, Handle(order, name)), name);
  }

  lemma LogGrows(s: State, t: State, name: string)
    requires LogMatches(s) && s.buffer != [] && s.buffer[0].wd in s.wdMap && CanRead(s.buffer[0], name)
    requires t.sent == s.sent && t.queue == s.queue && t.buffer == s.buffer[1..]
    requires t.log == s.log + [Change(Classify(s.buffer[0].mask), Target(s, Seen(s, name)))]
    ensures LogMatches(t)
  {
    hide Classify;
    assert s.sent[|s.log|] == Pending(s)[0] == s.buffer[0];
    assert Pending(t) == Pending(s)[1..] == t.sent[|t.log|..];
  }

  lemma StartMatches(root: Path, s: State)
    requires Initial(root, s)
    ensures LogMatches(s)
  {
    var dirs: Tree, order :|
      WellFormed(dirs) && root in dirs && ListsSubtree(dirs, root, order) && s == Start(dirs, order);
    AddWatchesKeeps(State(dirs, map[], 1, [], [], map[], [], []), order);
  }

  // ------------------------------------------------------------------------
  // From a change of the tree to its callbacks
  // ------------------------------------------------------------------------

  /** A callback that a change in directory `dir` calls for. */
  datatype Announcement = Announcement(dir: Path, kind: ChangeType, name: string)

  function Tell(s: State, dir: Path, kind: ChangeType, name: string): seq<Announcement> {
    if Watched(s, dir) then [Announcement(dir, kind, name)] else []
  }

  /** The callbacks that a step of the environment calls for, in the monitor's own terms. */
  function Announced(s: State, step: Step): seq<Announcement> {
    match step
    case Mkdir(dir, name, _) => Tell(s, dir, Added, name)
    case Rmdir(path) =>
      if path == [] then [] else Tell(s, Parent(path), Removed, Last(path)) + Tell(s, path, Unknown, "")
    case Rename(src, dst) =>
      if src == [] || dst == [] then [] else
      Tell(s, Parent(src), MovedFrom, Last(src)) + Tell(s, Parent(dst), MovedTo, Last(dst)) + Tell(s, dst, Unknown, "")
    case FileOp(dir, name, mask) =>
      Tell(s, dir, if mask == IN_CREATE then Added else if mask == IN_DELETE then Removed
                   else if mask == IN_MODIFY then Modified else if mask == IN_MOVED_FROM then MovedFrom
                   else MovedTo, name)
    case Read(_) => []
    case Handle(_, _) => []
  }

  /** The five bits that count, and all others: the lowest, four between, and those from 0x400 up. */
  datatype Bits = Bits(changed: bool, from: bool, to: bool, created: bool, deleted: bool,
                       lowest: nat, between: nat, high: nat)

  /** In the numbers of <sys/inotify.h>. */
  function Mask(b: Bits): nat {
    b.lowest + (if b.changed then 0x2 else 0) + 0x4 * b.between
    + (if b.from then 0x40 else 0) + (if b.to then 0x80 else 0)
    + (if b.created then 0x100 else 0) + (if b.deleted then 0x200 else 0) + 0x400 * b.high
  }

  predicate IsBits(b: Bits) {
    b.lowest < 2 && b.between < 0x10
  }

  /** The classification depends on five bits of the mask alone, with this priority between them; the
      directory bit, the bit of a dropped watch and all other bits change nothing. */
  lemma ClassifyByPriority(b: Bits)
    requires IsBits(b)
    ensures Classify(Mask(b)) ==
            if b.created then Added else if b.deleted then Removed else if b.changed then Modified
            else if b.from then MovedFrom else if b.to then MovedTo else Unknown
  {
    var changed, from, to := One(b.changed), One(b.from), One(b.to);
    var created, deleted := One(b.created), One(b.deleted);
    var m := Mask(b);
    var above9 := b.high;
    var above8 := 2 * above9 + deleted;
    var above7 := 2 * above8 + created;
    var above6 := 2 * above7 + to;
    var above1 := 0x10 * (2 * above6 + from) + b.between;
    assert m == b.lowest + 2 * changed + 4 * above1;
    HasIs(m, 0x2, changed, above1, b.lowest);
    HasIs(m, 0x40, from, above6, m - 0x40 * (2 * above6 + from));
    HasIs(m, 0x80, to, above7, m - 0x80 * (2 * above7 + to));
    HasIs(m, 0x100, created, above8, m - 0x100 * (2 * above8 + created));
    HasIs(m, 0x200, deleted, above9, m - 0x200 * (2 * above9 + deleted));
    hide Has, Mask;
  }

  /** Every mask is one of these. */
  lemma EveryMask(m: nat) returns (b: Bits)
    ensures IsBits(b) && Mask(b) == m
  {
    var above0 := m / 2;
    var above1 := above0 / 2;
    var above5 := above1 / 0x10;
    var above6 := above5 / 2;
    var above7 := above6 / 2;
    var above8 := above7 / 2;
    b := Bits(above0 % 2 == 1, above5 % 2 == 1, above6 % 2 == 1, above7 % 2 == 1, above8 % 2 == 1,
              m % 2, above1 % 0x10, above8 / 2);
  }

  lemma HasIs(m: nat, bit: nat, x: nat, above: nat, below: nat)
    requires below < bit && x < 2 && m == bit * (2 * above + x) + below
    ensures Has(m, bit) <==> x == 1
  {
    BitIs(m, bit, x, above, below);
  }

  lemma EventKinds()
    ensures Classify(IN_CREATE) == Classify(IN_CREATE + IN_ISDIR) == Added
    ensures Classify(IN_DELETE) == Classify(IN_DELETE + IN_ISDIR) == Removed
    ensures Classify(IN_MOVED_FROM) == Classify(IN_MOVED_FROM + IN_ISDIR) == MovedFrom
    ensures Classify(IN_MOVED_TO) == Classify(IN_MOVED_TO + IN_ISDIR) == MovedTo
    ensures Classify(IN_MODIFY) == Modified && Classify(IN_IGNORED) == Unknown
  {
  }

  predicate Fulfils(s: State, e: Event, a: Announcement) {
    Watched(s, a.dir) && e == Event(s.watches[s.dirs[a.dir]], e.mask, a.name) && Classify(e.mask) == a.kind
  }

  /** The last events are those announced, in order. */
  ghost predicate EndsWith(s: State, events: seq<Event>, told: seq<Announcement>) {
    |told| <= |events| && forall i :: 0 <= i < |told| ==> Fulfils(s, events[|events| - |told| + i], told[i])
  }

  lemma EndsWithMore(s: State, events: seq<Event>, told: seq<Announcement>, e: Event, a: Announcement)
    requires EndsWith(s, events, told) && Fulfils(s, e, a)
    ensures EndsWith(s, events + [e], told + [a])
  {
    hide Fulfils;
    var evs, all := events + [e], told + [a];
    forall i | 0 <= i < |all|
      ensures Fulfils(s, evs[|evs| - |all| + i], all[i])
    {
      if i < |told| {
        assert evs[|evs| - |all| + i] == events[|events| - |told| + i];
      }
    }
  }

  /** Between `s` and `t` events were only added to what was sent, and the last ones pending are those
      announced in `s0`. */
  ghost predicate Sends(s0: State, s: State, t: State, told: seq<Announcement>) {
    LogMatches(t) && s.sent <= t.sent && EndsWith(s0, Pending(t), told)
  }

  lemma TellSends(
    s0: State, s: State, dir: Path, kind: ChangeType, mask: nat, name: string, told: seq<Announcement>)
    requires LogMatches(s) && (name == "" || ValidName(name)) && Classify(mask) == kind
    requires s.dirs == s0.dirs && s.watches == s0.watches
    requires EndsWith(s0, Pending(s), told) && (told == [] || told[|told| - 1].kind != kind)
    ensures Sends(s0, s, Notify(s, dir, mask, name), told + Tell(s0, dir, kind, name))
    ensures Notify(s, dir, mask, name).dirs == s.dirs && Notify(s, dir, mask, name).watches == s.watches
    ensures |Notify(s, dir, mask, name).sent| <= |s.sent| + |Tell(s0, dir, kind, name)|
  {
    if Watched(s, dir) {
      var e := Event(s.watches[s.dirs[dir]], mask, name);
      var a := Announcement(dir, kind, name);
      assert Fulfils(s0, e, a);
      hide Classify, Watched, Fulfils;
      QueueSends(s0, s, e, a, told);
    } else {
      assert told + [] == told;
    }
  }

  lemma QueueSends(s0: State, s: State, e: Event, a: Announcement, told: seq<Announcement>)
    requires LogMatches(s) && (e.name == "" || ValidName(e.name)) && Fulfils(s0, e, a)
    requires EndsWith(s0, Pending(s), told) && (told == [] || told[|told| - 1].kind != a.kind)
    ensures Sends(s0, s, Queue(s, e), told + [a])
  {
    hide Classify, Watched, Queue, ValidName;
    QueueMatches(s, e);
    hide LogMatches;
    if told == [] {
      assert [] + [a] == [a];
    } else {
      assert Fulfils(s0, Pending(s)[|Pending(s)| - 1], told[|told| - 1]);
      EndsWithMore(s0, Pending(s), told, e, a);
    }
  }

  /** The report of a dropped watch is sent as if the directory gave notice of it. */
  lemma DropSends(s0: State, s: State, path: Path, told: seq<Announcement>)
    requires LogMatches(s) && s.dirs == s0.dirs && s.watches == s0.watches && path in s.dirs
    requires EndsWith(s0, Pending(s), told) && (told == [] || told[|told| - 1].kind != Unknown)
    ensures Sends(s0, s, DropWatch(s, s.dirs[path]), told + Tell(s0, path, Unknown, ""))
    ensures |DropWatch(s, s.dirs[path]).sent| <= |s.sent| + |Tell(s0, path, Unknown, "")|
  {
    EventKinds();
    TellSends(s0, s, path, Unknown, IN_IGNORED, "", told);
  }

  lemma RmdirSends(s: State, path: Path)
    requires LogMatches(s) && WellFormed(s.dirs) && path != [] && path in s.dirs
    ensures Sends(s, s, RmdirEvents(s, path), Announced(s, Rmdir(path)))
    ensures |RmdirEvents(s, path).sent| <= |s.sent| + |Announced(s, Rmdir(path))|
  {
    EventKinds();
    assert ValidName(Last(path));
    hide LogMatches, Classify, WellFormed;
    TellSends(s, s, Parent(path), Removed, IN_DELETE + IN_ISDIR, Last(path), []);
    var told := [] + Tell(s, Parent(path), Removed, Last(path));
    assert told == Tell(s, Parent(path), Removed, Last(path));
    var s1 := Notify(s, Parent(path), IN_DELETE + IN_ISDIR, Last(path));
    assert LogMatches(s1);
    DropSends(s, s1, path, told);
  }

  lemma MoveSends(s: State, src: Path, dst: Path)
    requires LogMatches(s) && src != [] && ValidName(Last(src)) && dst != [] && ValidName(Last(dst))
    ensures var t := MoveEvents(s, src, dst);
            && t.dirs == s.dirs && t.watches == s.watches
            && |t.sent| <= |s.sent| + |Tell(s, Parent(src), MovedFrom, Last(src))|
                           + |Tell(s, Parent(dst), MovedTo, Last(dst))|
            && Sends(s, s, t, Tell(s, Parent(src), MovedFrom, Last(src)) + Tell(s, Parent(dst), MovedTo, Last(dst)))
  {
    EventKinds();
    hide LogMatches, Classify, Notify, Watched, Fulfils, ValidName;
    TellSends(s, s, Parent(src), MovedFrom, IN_MOVED_FROM + IN_ISDIR, Last(src), []);
    var from := Tell(s, Parent(src), MovedFrom, Last(src));
    assert [] + from == from;
    var s1 := Notify(s, Parent(src), IN_MOVED_FROM + IN_ISDIR, Last(src));
    TellSends(s, s1, Parent(dst), MovedTo, IN_MOVED_TO + IN_ISDIR, Last(dst), from);
  }

  lemma RenameSends(s: State, src: Path, dst: Path)
    requires LogMatches(s) && WellFormed(s.dirs) && src != [] && src in s.dirs && dst != [] && ValidName(Last(dst))
    ensures Sends(s, s, RenameEvents(s, src, dst), Announced(s, Rename(src, dst)))
    ensures |RenameEvents(s, src, dst).sent| <= |s.sent| + |Announced(s, Rename(src, dst))|
  {
    assert ValidName(Last(src));
    hide LogMatches, WellFormed, Notify, DropWatch, Watched, Fulfils, ValidName;
    MoveSends(s, src, dst);
    var told := Tell(s, Parent(src), MovedFrom, Last(src)) + Tell(s, Parent(dst), MovedTo, Last(dst));
    if dst in s.dirs {
      DropSends(s, MoveEvents(s, src, dst), dst, told);
    } else {
      assert !Watched(s, dst) by { OnlyWatchedIfThere(s, dst); }
      assert told + [] == told;
    }
  }

  lemma OnlyWatchedIfThere(s: State, p: Path)
    ensures Watched(s, p) ==> p in s.dirs
  {
  }

  /** A step adds to the events sent exactly what it calls for, unless the kernel merged it into an
      equal last one, and touches neither the callbacks made nor what is pending. */
  lemma {:induction false} StepSends(root: Path, s: State, step: Step)
    requires Inv(root, s) && Enabled(root, s, step) && LogMatches(s)
    ensures Sends(s, s, Next(s, step), Announced(s, step))
    ensures |Next(s, step).sent| <= |s.sent| + |Announced(s, step)|
  {
    EventKinds();
    match step
    case Mkdir(dir, name, ino) =>
      TellSends(s, s, dir, Added, IN_CREATE + IN_ISDIR, name, []);
      assert [] + Tell(s, dir, Added, name) == Tell(s, dir, Added, name);
    case Rmdir(path) => RmdirSends(s, path);
    case Rename(src, dst) => RenameSends(s, src, dst);
    case FileOp(dir, name, mask) =>
      TellSends(s, s, dir, Classify(mask), mask, name, []);
      assert [] + Tell(s, dir, Classify(mask), name) == Announced(s, step);
    case Read(n) => assert Pending(Next(s, step)) == Pending(s);
    case Handle(order, name) =>
      HandleEffect(root, s, order, name);
      HandleMatches(root, s, order, name);
  }

  lemma {:induction false} LogMatchesAlways(root: Path, s: State, steps: seq<Step>)
    requires Initial(root, s) && Allowed(root, s, steps)
    ensures LogMatches(Run(s, steps))
    decreases |steps|
  {
    if steps == [] {
      StartMatches(root, s);
    } else {
      var before := steps[..|steps| - 1];
      LogMatchesAlways(root, s, before);
      CoverageAlways(root, s, before);
      StepSends(root, Run(s, before), steps[|steps| - 1]);
    }
  }

  lemma ReachableMatches(root: Path, t: State)
    requires Reachable(root, t)
    ensures LogMatches(t)
  {
    var s: State, steps: seq<Step> :| Initial(root, s) && Allowed(root, s, steps) && t == Run(s, steps);
    LogMatchesAlways(root, s, steps);
  }

  /** How many events the reads among these steps took off the queue. */
  function EventsRead(steps: seq<Step>): nat {
    if steps == [] then 0
    else EventsRead(steps[..|steps| - 1]) + if steps[|steps| - 1].Read? then steps[|steps| - 1].n else 0
  }

  lemma ReadsStep(root: Path, s: State, step: Step)
    requires Inv(root, s) && Enabled(root, s, step)
    ensures var t := Next(s, step);
            |t.log| + |t.buffer| == |s.log| + |s.buffer| + if step.Read? then step.n else 0
  {
    if step.Handle? {
      HandleEffect(root, s, step.order, step.name);
    } else {
      hide HandleEvent, Moved, Enabled, Inv;
    }
  }

  /** On every run the events read are those called back and those still in the buffer. */
  lemma {:induction false} ReadsAreHandled(root: Path, s: State, steps: seq<Step>)
    requires Initial(root, s) && Allowed(root, s, steps)
    ensures EventsRead(steps) == |Run(s, steps).log| + |Run(s, steps).buffer|
    decreases |steps|
  {
    if steps == [] {
      var dirs: Tree, order :|
        WellFormed(dirs) && root in dirs && ListsSubtree(dirs, root, order) && s == Start(dirs, order);
      AddWatchesKeeps(State(dirs, map[], 1, [], [], map[], [], []), order);
    } else {
      var before := steps[..|steps| - 1];
      ReadsAreHandled(root, s, before);
      CoverageAlways(root, s, before);
      ReadsStep(root, Run(s, before), steps[|steps| - 1]);
    }
  }

  lemma {:induction false} SentGrows(root: Path, u: State, later: seq<Step>)
    requires Reachable(root, u) && Allowed(root, u, later)
    ensures Reachable(root, Run(u, later)) && u.sent <= Run(u, later).sent
    decreases |later|
  {
    if later != [] {
      var before, last := later[..|later| - 1], later[|later| - 1];
      SentGrows(root, u, before);
      var v := Run(u, before);
      ReachableInv(root, v);
      ReachableMatches(root, v);
      StepSends(root, v, last);
      ReachableStep(root, v, last);
    }
  }

  /** Whatever a step of the environment calls for is called back, in this order, of this kind and
      under this name, in every later run, at the latest when nothing is pending any more; and the
      step calls for nothing else. */
  lemma StepIsReported(root: Path, s: State, step: Step, later: seq<Step>)
    requires Reachable(root, s) && Enabled(root, s, step) && Allowed(root, Next(s, step), later)
    ensures var u, told := Next(s, step), Announced(s, step);
            var t := Run(u, later);
            && |u.sent| <= |s.sent| + |told|
            && (Pending(t) == [] ==> |u.sent| <= |t.log|)
            && forall i :: 0 <= i < |told| ==> Reports(t.log, |u.sent| - |told| + i, told[i])
  {
    var u, told := Next(s, step), Announced(s, step);
    var t := Run(u, later);
    hide Next, Inv, Reachable, Enabled, Announced, Run, Allowed;
    ReachableInv(root, s);
    ReachableMatches(root, s);
    StepSends(root, s, step);
    ReachableStep(root, s, step);
    SentGrows(root, u, later);
    ReachableMatches(root, t);
    hide Reports, Sends, Pending, LogMatches;
    SentIsReported(s, u, t, told);
  }

  /** The callback at place `i`, once it is made, is the one announced. */
  predicate Reports(log: seq<Change>, i: int, a: Announcement) {
    i >= 0 && (i < |log| ==> log[i].ct == a.kind && (a.name != "" ==> log[i].path != [] && Last(log[i].path) == a.name))
  }

  lemma SentIsReported(s: State, u: State, t: State, told: seq<Announcement>)
    requires Sends(s, s, u, told) && LogMatches(t) && u.sent <= t.sent
    ensures Pending(t) == [] ==> |u.sent| <= |t.log|
    ensures forall i :: 0 <= i < |told| ==> Reports(t.log, |u.sent| - |told| + i, told[i])
  {
    forall i | 0 <= i < |told|
      ensures Reports(t.log, |u.sent| - |told| + i, told[i])
    {
      var at := |u.sent| - |told| + i;
      SentIsPending(u, |told| - i);
      assert Fulfils(s, u.sent[at], told[i]) && t.sent[at] == u.sent[at];
      if at < |t.log| {
        assert Tells(t.log[at], t.sent[at]);
      }
    }
  }

  /** The pending events are the last ones sent. */
  lemma SentIsPending(s: State, k: nat)
    requires LogMatches(s) && 0 < k <= |Pending(s)|
    ensures |Pending(s)| <= |s.sent| && s.sent[|s.sent| - k] == Pending(s)[|Pending(s)| - k]
  {
    assert s.sent[|s.log|..][|Pending(s)| - k] == s.sent[|s.sent| - k];
  }

  // ------------------------------------------------------------------------
  // When the environment falls silent, its last report is true
  // ------------------------------------------------------------------------

  /** Event `x` does not name a directory at or above `dir`. */
  ghost predicate LeadsAway(s: State, x: Event, dir: Path) {
    x.name == "" || exists d :: Watched(s, d) && s.watches[s.dirs[d]] == x.wd && !(d + [x.name] <= dir)
  }

  /** The event at place `i` comes from directory `dir`, no later one leads there, and if it was called
      back then under the true path of `dir`. */
  ghost predicate ReportedAt(s: State, i: nat, dir: Path, e: Event) {
    && i < |s.sent| && s.sent[i] == e && e.name != ""
    && Watched(s, dir) && s.watches[s.dirs[dir]] == e.wd
    && (forall j :: i < j < |s.sent| ==> LeadsAway(s, s.sent[j], dir))
    && (i < |s.log| ==> s.log[i] == Change(Classify(e.mask), dir + [e.name]))
  }

  /** When no later event leads to its directory, an event finds that directory good: what a directory
      waits for comes from another one. */
  lemma LastToLeadIsGood(root: Path, s: State, dir: Path, e: Event)
    requires Inv(root, s) && Watched(s, dir) && root <= dir
    requires Pending(s) != [] && Pending(s)[0] == e && e.wd == s.watches[s.dirs[dir]]
    requires forall x <- Pending(s)[1..] :: LeadsAway(s, x, dir)
    ensures Good(s, dir)
  {
    assert Pending(s) == [e] + Pending(s)[1..];
    forall x, q ensures !Covers(s, x, q, dir) {
      if x == e && Good(s, q) && e.wd == s.watches[s.dirs[q]] {
        assert q == dir;
      } else if x in Pending(s)[1..] && x.name != "" && Good(s, q) && x.wd == s.watches[s.dirs[q]] {
        var d :| Watched(s, d) && s.watches[s.dirs[d]] == x.wd && !(d + [x.name] <= dir);
        assert q == d;
      }
    }
    assert !Covered(s, dir);
  }

  lemma LeadsAwayStays(s: State, t: State, x: Event, dir: Path)
    requires LeadsAway(s, x, dir) && t.dirs == s.dirs
    requires forall i <- s.watches :: i in t.watches && t.watches[i] == s.watches[i]
    ensures LeadsAway(t, x, dir)
  {
    if x.name != "" {
      var d :| Watched(s, d) && s.watches[s.dirs[d]] == x.wd && !(d + [x.name] <= dir);
      assert Watched(t, d) && t.watches[t.dirs[d]] == x.wd;
    }
  }

  lemma ReportedStep(root: Path, s: State, i: nat, dir: Path, e: Event, step: Step)
    requires Inv(root, s) && LogMatches(s) && Enabled(root, s, step) && IsMonitorStep(step)
    requires ReportedAt(s, i, dir, e) && root <= dir
    ensures ReportedAt(Next(s, step), i, dir, e)
  {
    QuietStep(root, s, step);
    var t := Next(s, step);
    hide Next, Inv, Enabled;
    forall j | i < j < |t.sent| ensures LeadsAway(t, t.sent[j], dir) {
      assert LeadsAway(s, s.sent[j], dir);
      LeadsAwayStays(s, t, s.sent[j], dir);
    }
    hide LeadsAway;
    if step.Handle? && |s.log| == i {
      assert s.sent[i..] == Pending(s);
      assert Pending(s)[0] == e && Pending(s)[1..] == s.sent[i + 1..];
      LastToLeadIsGood(root, s, dir, e);
    }
  }

  lemma {:induction false} ReportedRun(root: Path, s: State, i: nat, dir: Path, e: Event, tail: seq<Step>)
    requires Reachable(root, s) && Allowed(root, s, tail) && MonitorOnly(tail)
    requires ReportedAt(s, i, dir, e) && root <= dir
    ensures ReportedAt(Run(s, tail), i, dir, e)
    decreases |tail|
  {
    if tail != [] {
      var before, last := tail[..|tail| - 1], tail[|tail| - 1];
      assert last in tail;
      ReportedRun(root, s, i, dir, e, before);
      ReachableRun(root, s, before);
      ReachableInv(root, Run(s, before));
      ReachableMatches(root, Run(s, before));
      ReportedStep(root, Run(s, before), i, dir, e, last);
    }
  }

  predicate SameWatch(s: State, u: State, dir: Path) {
    Watched(s, dir) && Watched(u, dir) && u.watches[u.dirs[dir]] == s.watches[s.dirs[dir]]
  }

  /** A directory that gives notice of a change of its entries is itself not affected by the change. */
  lemma AnnouncerStays(root: Path, s: State, step: Step, a: Announcement)
    requires Inv(root, s) && Enabled(root, s, step) && a in Announced(s, step) && a.name != ""
    ensures SameWatch(s, Next(s, step), a.dir)
  {
    match step
    case Mkdir(dir, name, ino) => MkdirEffect(s, dir, name, ino);
    case Rmdir(path) =>
      RmdirEffect(s, path);
      assert s.dirs[Parent(path)] != s.dirs[path];
    case Rename(src, dst) => RenamersStay(s, src, dst, a.dir);
    case FileOp(dir, name, mask) =>
  }

  lemma OutsideReplaced(dirs: Tree, src: Path, dst: Path, dir: Path)
    requires WellFormed(dirs) && src in dirs && src != [] && dst != [] && !(src <= dst)
    requires dst in dirs ==> Empty(dirs, dst)
    requires dir in dirs && (dir == Parent(src) || dir == Parent(dst))
    ensures !(dst <= dir)
  {
    if |dst| <= |dir| {
      PrefixClosed(dirs, dir, |dst|);
      var d := dir[..|dst|];
      assert dir == Parent(src) && d < src && (dst <= dir ==> d == dst);
    }
  }

  lemma RenamersStay(s: State, src: Path, dst: Path, dir: Path)
    requires WellFormed(s.dirs) && TablesAgree(s) && src in s.dirs && src != [] && dst != [] && !(src <= dst)
    requires dst in s.dirs ==> Empty(s.dirs, dst)
    requires Watched(s, dir) && (dir == Parent(src) || dir == Parent(dst))
    ensures SameWatch(s, Next(s, Rename(src, dst)), dir)
  {
    RenameFrame(s, src, dst);
    MovedAt(s.dirs, src, dst, dir);
    OutsideReplaced(s.dirs, src, dst, dir);
    assert !(src <= dir);
    if dst in s.dirs {
      assert s.dirs[dir] != s.dirs[dst];
    }
  }

  /** What a step announces later does not name a directory at or above one that gave notice before. */
  lemma AnnouncersApart(root: Path, s: State, step: Step, k: nat, j: nat)
    requires Inv(root, s) && Enabled(root, s, step)
    requires var told := Announced(s, step); k < j < |told| && told[k].name != "" && told[j].name != ""
    ensures var told := Announced(s, step); !(told[j].dir + [told[j].name] <= told[k].dir)
  {
    match step
    case Rename(src, dst) =>
      OutsideReplaced(s.dirs, src, dst, Parent(src));
      assert Parent(dst) + [Last(dst)] == dst;
    case Mkdir(_, _, _) =>
    case Rmdir(_) =>
    case FileOp(_, _, _) =>
    case Read(_) =>
    case Handle(_, _) =>
  }

  /** From any reachable state, however stale: if nothing happens after a change of the tree and the
      events are drained, each callback with a name that the change called for was made, and those
      for entries of a directory under the root gave the true path. */
  lemma LastOperationIsReportedTruly(root: Path, s: State, step: Step, k: nat, tail: seq<Step>)
    requires Reachable(root, s) && Enabled(root, s, step)
    requires var told := Announced(s, step); k < |told| && told[k].name != "" && root <= told[k].dir
    requires Allowed(root, Next(s, step), tail) && MonitorOnly(tail) && Pending(Run(Next(s, step), tail)) == []
    ensures var u, told := Next(s, step), Announced(s, step);
            var t, i := Run(u, tail), |u.sent| - |told| + k;
            0 <= i < |t.log| && t.log[i] == Change(told[k].kind, told[k].dir + [told[k].name])
  {
    var u, told := Next(s, step), Announced(s, step);
    var i := |u.sent| - |told| + k;
    hide Next, Inv, Reachable, Allowed, Run, Pending, ReportedAt, LogMatches, Announced, Enabled, LeadsAway;
    ReachableInv(root, s);
    ReachableMatches(root, s);
    StepSends(root, s, step);
    ReachableStep(root, s, step);
    forall j | k <= j < |told| && told[j].name != ""
      ensures SameWatch(s, u, told[j].dir)
      ensures j > k ==> !(told[j].dir + [told[j].name] <= told[k].dir)
    {
      AnnouncerStays(root, s, step, told[j]);
      if j > k {
        AnnouncersApart(root, s, step, k, j);
      }
    }
    AnnouncedIsAt(s, u, told, k);
    ReportedRun(root, u, i, told[k].dir, u.sent[i], tail);
    SentGrows(root, u, tail);
    ReachableMatches(root, Run(u, tail));
    ReportedWhenDrained(Run(u, tail), i, told[k].dir, u.sent[i]);
  }

  lemma ReportedWhenDrained(t: State, i: nat, dir: Path, e: Event)
    requires LogMatches(t) && ReportedAt(t, i, dir, e) && Pending(t) == []
    ensures i < |t.log| && t.log[i] == Change(Classify(e.mask), dir + [e.name])
  {
  }

  lemma AnnouncedIsAt(s: State, u: State, told: seq<Announcement>, k: nat)
    requires Sends(s, s, u, told) && k < |told| && told[k].name != ""
    requires forall j :: k <= j < |told| && told[j].name != "" ==>
               && SameWatch(s, u, told[j].dir)
               && (j > k ==> !(told[j].dir + [told[j].name] <= told[k].dir))
    ensures var i := |u.sent| - |told| + k;
            && i >= 0 && ReportedAt(u, i, told[k].dir, u.sent[i])
            && u.sent[i].name == told[k].name && Classify(u.sent[i].mask) == told[k].kind
  {
    var i := |u.sent| - |told| + k;
    hide Classify;
    SentIsPending(u, |told| - k);
    assert Fulfils(s, u.sent[i], told[k]);
    forall j | i < j < |u.sent| ensures LeadsAway(u, u.sent[j], told[k].dir) {
      SentIsPending(u, |u.sent| - j);
      var a := told[j - i + k];
      assert Fulfils(s, u.sent[j], a);
      if a.name != "" {
        assert Watched(u, a.dir) && u.watches[u.dirs[a.dir]] == u.sent[j].wd;
      }
    }
  }

  // ------------------------------------------------------------------------
  // When a report is true
  // ------------------------------------------------------------------------

  /** Every path in `wd_map` is the root or below it. */
  predicate Rooted(root: Path, s: State) {
    forall w <- s.wdMap :: root <= s.wdMap[w]
  }

  lemma {:induction false} AddWatchesRooted(root: Path, s: State, order: seq<Path>)
    requires Rooted(root, s) && (forall p <- order :: p in s.dirs && root <= p)
    ensures Rooted(root, AddWatches(s, order))
    decreases order
  {
    if order != [] {
      assert order[0] in order && forall p <- order[1..] :: p in order;
      AddWatchesRooted(root, AddWatch(s, order[0]), order[1..]);
    }
  }

  lemma {:induction false} RootedAlways(root: Path, s: State, steps: seq<Step>)
    requires Initial(root, s) && Allowed(root, s, steps)
    ensures Rooted(root, Run(s, steps))
    decreases |steps|
  {
    if steps == [] {
      var dirs: Tree, order :|
        WellFormed(dirs) && root in dirs && ListsSubtree(dirs, root, order) && s == Start(dirs, order);
      AddWatchesRooted(root, State(dirs, map[], 1, [], [], map[], [], []), order);
    } else {
      var before, last := steps[..|steps| - 1], steps[|steps| - 1];
      RootedAlways(root, s, before);
      CoverageAlways(root, s, before);
      RootedStep(root, Run(s, before), last);
    }
  }

  lemma ReachableRooted(root: Path, t: State)
    requires Reachable(root, t)
    ensures Rooted(root, t)
  {
    var s: State, steps: seq<Step> :| Initial(root, s) && Allowed(root, s, steps) && t == Run(s, steps);
    RootedAlways(root, s, steps);
  }

  lemma RootedStep(root: Path, s: State, step: Step)
    requires Rooted(root, s) && Inv(root, s) && Enabled(root, s, step)
    ensures Rooted(root, Next(s, step))
  {
    if step.Handle? {
      assert s.buffer[0] in Pending(s);
      RootedHandle(root, s, step.order, step.name);
    } else {
      OnlyHandlingMaps(s, step);
    }
  }

  lemma RootedHandle(root: Path, s: State, order: seq<Path>, name: string)
    requires Rooted(root, s) && s.buffer != [] && s.buffer[0].wd in s.wdMap
    requires var target := Target(s, Seen(s, name)); target in s.dirs ==> ListsSubtree(s.dirs, target, order)
    ensures Rooted(root, HandleEvent(s, order, name))
  {
    var target := Target(s, Seen(s, name));
    if target in s.dirs {
      forall p <- order ensures root <= p {
        assert root <= target <= p;
      }
      AddWatchesRooted(root, s, order);
    }
  }

  lemma OnlyHandlingMaps(s: State, step: Step)
    requires !step.Handle?
    ensures Next(s, step).wdMap == s.wdMap
  {
    hide Queue, Notify, DropWatch, Moved, HandleEvent;
  }

  /** When an event from directory `p` is handled, the path reported starts from where `p` is now
      exactly when `p` is good. Under the root a false report is passing: another event, still pending, leads to
      `p`. For a directory outside the root it is false, and handling it changes nothing about that. */
  lemma ReportIsTrueExactly(root: Path, s: State, order: seq<Path>, name: string, p: Path)
    requires Reachable(root, s) && Enabled(root, s, Handle(order, name)) && FromDirectory(s, p)
    ensures ReportExact(root, s, Next(s, Handle(order, name)), name, p)
  {
    ReachableInv(root, s);
    ReachableRooted(root, s);
    ReportIsExact(root, s, order, name, p);
  }

  /** The event at the head of the buffer was queued on the watch of directory `p`. */
  predicate FromDirectory(s: State, p: Path) {
    Watched(s, p) && s.buffer != [] && s.buffer[0].wd == s.watches[s.dirs[p]]
  }

  ghost predicate ReportExact(root: Path, s: State, t: State, name: string, p: Path)
    requires FromDirectory(s, p)
  {
    var wd := s.buffer[0].wd;
    && |t.log| == |s.log| + 1
    && (t.log[|s.log|].path == Append(p, name) <==> Good(s, p))
    && (root <= p && !Good(s, p) ==> exists x, q :: Covers(s, x, q, p) && x in s.buffer[1..] + s.queue)
    && (!(root <= p) ==> !Good(s, p) && wd in s.wdMap && wd in t.wdMap && t.wdMap[wd] == s.wdMap[wd])
  }

  lemma ReportIsExact(root: Path, s: State, order: seq<Path>, name: string, p: Path)
    requires Inv(root, s) && Rooted(root, s) && Enabled(root, s, Handle(order, name)) && FromDirectory(s, p)
    ensures ReportExact(root, s, Next(s, Handle(order, name)), name, p)
  {
    HandleEffect(root, s, order, name);
    AppendInjective(p, s.wdMap[s.buffer[0].wd], name);
    if root <= p && !Good(s, p) {
      CoveredByAnother(root, s, p);
    }
    if !(root <= p) {
      OutsideKeepsEntry(root, s, order, name, p);
    }
  }

  lemma AppendInjective(p: Path, q: Path, name: string)
    ensures Append(p, name) == Append(q, name) <==> p == q
  {
    if name != "" {
      assert Parent(p + [name]) == p && Parent(q + [name]) == q;
    }
  }

  lemma CoveredByAnother(root: Path, s: State, p: Path)
    requires Inv(root, s) && Watched(s, p) && root <= p && !Good(s, p)
    requires s.buffer != [] && s.buffer[0].wd == s.watches[s.dirs[p]]
    ensures exists e, q :: Covers(s, e, q, p) && e in s.buffer[1..] + s.queue
  {
    var x, q :| Covers(s, x, q, p);
    assert q != p;
    assert s.dirs[q] != s.dirs[p];
    assert x != s.buffer[0];
    assert Pending(s) == [s.buffer[0]] + (s.buffer[1..] + s.queue);
  }

  lemma OutsideKeepsEntry(root: Path, s: State, order: seq<Path>, name: string, p: Path)
    requires Inv(root, s) && Rooted(root, s) && Enabled(root, s, Handle(order, name))
    requires Watched(s, p) && !(root <= p)
    ensures !Good(s, p)
    ensures var t, wd := Next(s, Handle(order, name)), s.watches[s.dirs[p]];
            && Watched(t, p) && t.dirs[p] == s.dirs[p] && t.watches[t.dirs[p]] == wd
            && wd in s.wdMap && wd in t.wdMap && t.wdMap[wd] == s.wdMap[wd]
  {
    assert s.buffer[0] in Pending(s);
    var target := Target(s, Seen(s, name));
    if target in s.dirs {
      forall q <- order ensures q != p {
        assert root <= target <= q;
      }
      AddWatchesKeeps(s, order);
      AddWatchesElsewhere(s, order, p);
    }
  }

  /** Watching other directories leaves a watched directory's entry in `wd_map` alone. */
  lemma {:induction false} AddWatchesElsewhere(s: State, order: seq<Path>, p: Path)
    requires WellFormed(s.dirs) && TablesAgree(s) && Watched(s, p)
    requires forall q <- order :: q in s.dirs && q != p
    ensures var t := AddWatches(s, order);
            && Watched(t, p) && t.watches[t.dirs[p]] == s.watches[s.dirs[p]]
            && t.watches[t.dirs[p]] in t.wdMap
            && t.wdMap[t.watches[t.dirs[p]]] == s.wdMap[s.watches[s.dirs[p]]]
    decreases order
  {
    if order != [] {
      AddWatchKeeps(s, order[0]);
      assert s.dirs[order[0]] != s.dirs[p];
      AddWatchesElsewhere(AddWatch(s, order[0]), order[1..], p);
    }
  }

  /** Once no event is pending, a watched directory is good exactly when it lies under the root. */
  lemma DrainedGoodExactly(root: Path, t: State, p: Path)
    requires Reachable(root, t) && Pending(t) == [] && Watched(t, p)
    ensures Good(t, p) <==> root <= p
  {
    ReachableInv(root, t);
    ReachableRooted(root, t);
    NothingCovered(t, p);
  }

  // ------------------------------------------------------------------------
  // Directories moved out of the root
  // ------------------------------------------------------------------------

  /** The directory with inode `ino` exists, and not under the root. */
  ghost predicate Outside(root: Path, s: State, ino: Ino) {
    exists p <- s.dirs :: s.dirs[p] == ino && !(root <= p)
  }

  /** That is so after each of the steps. */
  ghost predicate StaysOutside(root: Path, s: State, ino: Ino, steps: seq<Step>) {
    Outside(root, Run(s, steps), ino) && (steps == [] || StaysOutside(root, s, ino, steps[..|steps| - 1]))
  }

  /** The watch of inode `ino` and the path recorded for it. */
  predicate Records(s: State, ino: Ino, wd: Wd, path: Path) {
    ino in s.watches && s.watches[ino] == wd && wd in s.wdMap && s.wdMap[wd] == path
  }

  lemma WatchDropsWithDirectory(root: Path, s: State, step: Step, ino: Ino)
    requires Inv(root, s) && Enabled(root, s, step) && !step.Handle? && ino in s.watches
    requires exists p <- Next(s, step).dirs :: Next(s, step).dirs[p] == ino
    ensures ino in Next(s, step).watches && Next(s, step).watches[ino] == s.watches[ino]
  {
    var u := Next(s, step);
    match step
    case Mkdir(dir, name, i) => MkdirEffect(s, dir, name, i);
    case Rmdir(path) => RmdirEffect(s, path);
    case Rename(src, dst) =>
      RenameFrame(s, src, dst);
      if dst in s.dirs && s.dirs[dst] == ino {
        var p :| p in u.dirs && u.dirs[p] == ino;
        ReplacedIsGone(s.dirs, src, dst, p);
      }
    case FileOp(dir, name, mask) => NotifyKeeps(s, dir, mask, name);
    case Read(n) =>
  }

  lemma ReplacedIsGone(dirs: Tree, src: Path, dst: Path, p: Path)
    requires WellFormed(dirs) && src in dirs && dst in dirs && !(src <= dst) && p in Moved(dirs, src, dst)
    ensures Moved(dirs, src, dst)[p] != dirs[dst]
  {
    MovedAt(dirs, src, dst, p);
    if dst <= p {
      assert src <= src + p[|dst|..];
    }
  }

  lemma OutsideStep(root: Path, s: State, ino: Ino, wd: Wd, path: Path, step: Step)
    requires Inv(root, s) && Rooted(root, s) && Enabled(root, s, step)
    requires Outside(root, s, ino) && Outside(root, Next(s, step), ino) && Records(s, ino, wd, path)
    ensures Records(Next(s, step), ino, wd, path)
  {
    if step.Handle? {
      var p :| p in s.dirs && s.dirs[p] == ino && !(root <= p);
      OutsideKeepsEntry(root, s, step.order, step.name, p);
    } else {
      WatchDropsWithDirectory(root, s, step, ino);
      OnlyHandlingMaps(s, step);
    }
  }

  lemma {:induction false} OutsideRun(root: Path, u: State, ino: Ino, wd: Wd, path: Path, later: seq<Step>)
    requires Reachable(root, u) && Allowed(root, u, later) && StaysOutside(root, u, ino, later)
    requires Records(u, ino, wd, path)
    ensures Records(Run(u, later), ino, wd, path)
    decreases |later|
  {
    if later != [] {
      var before := later[..|later| - 1];
      OutsideRun(root, u, ino, wd, path, before);
      ReachableRun(root, u, before);
      ReachableInv(root, Run(u, before));
      ReachableRooted(root, Run(u, before));
      assert Outside(root, Run(u, before), ino);
      hide Inv, Rooted, Reachable, Outside, Records, Next;
      OutsideStep(root, Run(u, before), ino, wd, path, later[|later| - 1]);
    }
  }

  /** A watched directory that is moved out of the root stays watched by its descriptor, and as long as
      it stays outside, whatever else happens, all its events resolve against the path recorded for it when
      it left: the one it had, if it was good then. */
  lemma MovedOutKeepsOldPath(root: Path, s: State, src: Path, dst: Path, p: Path, later: seq<Step>)
    requires Reachable(root, s) && Enabled(root, s, Rename(src, dst)) && Watched(s, p)
    requires src <= p && !(root <= dst)
    requires var u := Next(s, Rename(src, dst)); Allowed(root, u, later) && StaysOutside(root, u, s.dirs[p], later)
    ensures var t, wd := Run(Next(s, Rename(src, dst)), later), s.watches[s.dirs[p]];
            && wd in s.wdMap && (Good(s, p) ==> s.wdMap[wd] == p)
            && Records(t, s.dirs[p], wd, s.wdMap[wd])
            && forall x <- Pending(t) :: x.wd == wd ==> Target(t, x) == Append(s.wdMap[wd], x.name)
  {
    ReachableInv(root, s);
    RenameRecords(s, src, dst, p);
    ReachableStep(root, s, Rename(src, dst));
    hide Next, Inv, Reachable, Enabled, Allowed, StaysOutside;
    OutsideRun(root, Next(s, Rename(src, dst)), s.dirs[p], s.watches[s.dirs[p]], s.wdMap[s.watches[s.dirs[p]]], later);
  }

  lemma RenameRecords(s: State, src: Path, dst: Path, p: Path)
    requires WellFormed(s.dirs) && TablesAgree(s) && Watched(s, p)
    requires src != [] && dst != [] && src <= p && !(src <= dst)
    ensures var wd := s.watches[s.dirs[p]];
            wd in s.wdMap && Records(Next(s, Rename(src, dst)), s.dirs[p], wd, s.wdMap[wd])
  {
    RenameFrame(s, src, dst);
    if dst in s.dirs {
      assert s.dirs[p] != s.dirs[dst];
    }
  }

  lemma {:induction false} QuietStaysOutside(root: Path, u: State, ino: Ino, tail: seq<Step>)
    requires Reachable(root, u) && Allowed(root, u, tail) && MonitorOnly(tail) && Outside(root, u, ino)
    ensures StaysOutside(root, u, ino, tail)
    decreases |tail|
  {
    ReachableInv(root, u);
    Quiet(root, u, tail);
    if tail != [] {
      QuietStaysOutside(root, u, ino, tail[..|tail| - 1]);
    }
  }

  // A run that leaves a stale entry behind: HOME is watched, and its subdirectory SUB is moved to AWAY.
  const HOME: Path := ["h"]
  const SUB: Path := ["h", "s"]
  const AWAY: Path := ["a"]
  const TREE: Tree := map[[] := 0, HOME := 1, SUB := 2]
  const BEGUN: State := State(TREE, map[1 := 1, 2 := 2], 3, [], [], map[1 := HOME, 2 := SUB], [], [])

  lemma MoveBegins()
    ensures Initial(HOME, BEGUN) && Reachable(HOME, BEGUN)
  {
    MoveStarts();
    MoveTree();
    hide WellFormed, ListsSubtree, Start;
    assert Allowed(HOME, BEGUN, []) && Run(BEGUN, []) == BEGUN;
  }

  lemma MoveEnabled()
    ensures Enabled(HOME, BEGUN, Rename(SUB, AWAY))
  {
    assert Parent(AWAY) == [] && !(SUB <= AWAY) && !(SUB <= HOME) && ValidName(Last(AWAY));
  }

  lemma MoveTree()
    ensures WellFormed(TREE) && ListsSubtree(TREE, HOME, [HOME, SUB])
  {
    assert Parent(HOME) == [] && Parent(SUB) == HOME;
  }

  lemma MoveStarts()
    ensures Start(TREE, [HOME, SUB]) == BEGUN
  {
    var blank := State(TREE, map[], 1, [], [], map[], [], []);
    assert [HOME, SUB][1..] == [SUB] && [SUB][1..] == [];
    var s1 := AddWatch(blank, HOME);
    assert s1 == blank.(watches := map[1 := 1], nextWd := 2, wdMap := map[1 := HOME]);
    assert AddWatch(s1, SUB) == BEGUN;
    assert AddWatches(s1, [SUB]) == AddWatches(BEGUN, []) == BEGUN;
  }

  /** Directory `p` is outside the root and watched, and its descriptor still stands for a path under the
      root where there is no directory. */
  ghost predicate LeftBehind(root: Path, t: State, p: Path) {
    && Watched(t, p) && !(root <= p)
    && var wd := t.watches[t.dirs[p]];
       wd in t.wdMap && root <= t.wdMap[wd] && t.wdMap[wd] !in t.dirs
  }

  lemma SubIsMoved()
    ensures var u := Next(BEGUN, Rename(SUB, AWAY));
            AWAY in u.dirs && u.dirs[AWAY] == 2 && SUB !in u.dirs
  {
    MovedAt(TREE, SUB, AWAY, AWAY);
    MovedAt(TREE, SUB, AWAY, SUB);
    assert SUB + AWAY[|AWAY|..] == SUB && SUB <= SUB;
    assert Next(BEGUN, Rename(SUB, AWAY)).dirs == Moved(TREE, SUB, AWAY);
    hide Moved, Next;
  }

  /** That happens, and draining the queue does not mend it. */
  lemma MovedOutHappens()
    ensures exists root: Path, t: State, p: Path :: Reachable(root, t) && Accurate(root, t) && LeftBehind(root, t, p)
  {
    MoveBegins();
    MoveEnabled();
    SubIsMoved();
    var step := Rename(SUB, AWAY);
    var u := Next(BEGUN, step);
    assert Watched(BEGUN, SUB) && Good(BEGUN, SUB) && BEGUN.dirs[SUB] == 2 && BEGUN.watches[2] == 2;
    assert SUB <= SUB && !(HOME <= AWAY) && HOME <= SUB;
    assert Outside(HOME, u, 2);
    hide Next, Reachable, Enabled, Allowed, Initial, Inv;
    ReachableStep(HOME, BEGUN, step);
    var tail := DrainingEnds(HOME, u);
    var t := Run(u, tail);
    hide Run, Accurate, Pending;
    QuietStaysOutside(HOME, u, 2, tail);
    MovedOutKeepsOldPath(HOME, BEGUN, SUB, AWAY, SUB, tail);
    ReachableRun(HOME, u, tail);
    assert Records(t, 2, 2, SUB) && t.dirs == u.dirs;
    assert LeftBehind(HOME, t, AWAY);
  }
}
