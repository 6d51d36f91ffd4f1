/** The recursive directory walk `find_files`, over the tree that its
    `opendir`/`readdir` calls see. A path is the sequence of its components. */
module FindFiles {

  type Path = seq<string>

  /** What a directory entry leads to. `opens` says whether `opendir` succeeds on the directory;
      `entries` is what `readdir` yields, in its order. */
  datatype Node = File | Dir(opens: bool, entries: seq<Entry>)
  datatype Entry = Entry(name: string, node: Node)

  predicate IsDot(name: string) {
    name == "." || name == ".."
  }

  /** Whether an entry of this kind is listed: filter 1 asks for files, filter 2 for directories. */
  predicate Listed(node: Node, filter: int) {
    if node.Dir? then filter != 1 else filter != 2
  }

  // ------------------------------------------------------------------------
  // The walk as a value: what is appended, and whether every opendir succeeded
  // ------------------------------------------------------------------------

  datatype Outcome = Outcome(out: seq<Path>, ok: bool)

  function Walk(node: Node, path: Path, recursive: bool, filter: int): Outcome
    decreases node, 1
  {
    if node.Dir? && node.opens then WalkEntries(node.entries, path, recursive, filter)
    else Outcome([], false)
  }

  function WalkEntries(es: seq<Entry>, path: Path, recursive: bool, filter: int): Outcome
    decreases es, 0
  {
    if es == [] then Outcome([], true)
    else
      var a := WalkEntry(es[0], path, recursive, filter);
      if !a.ok then a
      else
        var b := WalkEntries(es[1..], path, recursive, filter);
        Outcome(a.out + b.out, b.ok)
  }

  function WalkEntry(e: Entry, path: Path, recursive: bool, filter: int): Outcome
    decreases e, 2
  {
    if IsDot(e.name) then Outcome([], true)
    else
      var here := if Listed(e.node, filter) then [path + [e.name]] else [];
      if e.node.Dir? && recursive then
        var below := Walk(e.node, path + [e.name], recursive, filter);
        Outcome(here + below.out, below.ok)
      else Outcome(here, true)
  }

  lemma {:induction false} WalkEntriesSplit(a: seq<Entry>, b: seq<Entry>, path: Path, recursive: bool, filter: int)
    ensures var x, y := WalkEntries(a, path, recursive, filter), WalkEntries(b, path, recursive, filter);
            WalkEntries(a + b, path, recursive, filter) ==
            if x.ok then Outcome(x.out + y.out, y.ok) else x
  {
    if a == [] {
      assert a + b == b;
    } else {
      assert (a + b)[0] == a[0] && (a + b)[1..] == a[1..] + b;
      WalkEntriesSplit(a[1..], b, path, recursive, filter);
    }
  }

  /** The caller's vector, appended to in place by every level of the recursion. */
  class PathList {
    var items: seq<Path>

    constructor (items: seq<Path>)
      ensures this.items == items
    {
      this.items := items;
    }

    method PushBack(p: Path)
      modifies this
      ensures items == old(items) + [p]
    {
      items := items + [p];
    }
  }

  /** `find_files` itself; `ok` is false when the exception for a failed `opendir` propagates. It passes
      every `closedir` by: `open` is the number of directory handles left open. */
  method Find(node: Node, path: Path, files: PathList, recursive: bool, filter: int)
    returns (ok: bool, ghost open: nat)
    modifies files
    ensures files.items == old(files.items) + Walk(node, path, recursive, filter).out
    ensures ok == Walk(node, path, recursive, filter).ok
    ensures open == if recursive then LeftOpen(node) else 0
    decreases node
  {
    hide Passed, LeftOpen, LeftOpenAmong, Opens, AllOpen, WalkEntries;
    open := 0;
    if !(node.Dir? && node.opens) {
      ClosedLeavesNone(node);
      return false, open;
    }
    open := open + 1;
    var es := node.entries;
    PassedNone(es, path, recursive, filter);
    var i := 0;
    while i < |es|
      invariant 0 <= i <= |es| && open == 1
      invariant WalkEntries(es[..i], path, recursive, filter).ok
      invariant files.items == old(files.items) + WalkEntries(es[..i], path, recursive, filter).out
      invariant recursive ==> Passed(es, es[i..])
    {
      var e := es[i];
      PassedStep(es, i, path, filter);
      i := i + 1;
      WalkEntriesStep(es, i, path, recursive, filter);
      if IsDot(e.name) {
        continue;
      }
      var fullPath := path + [e.name];
      if e.node.Dir? {
        if filter != 1 {
          files.PushBack(fullPath);
        }
        if recursive {
          var below;
          ghost var openBelow: nat;
          below, openBelow := Find(e.node, fullPath, files, recursive, filter);
          if !below {
            open := open + openBelow;
            return false, open;
          }
        }
      } else {
        if filter != 2 {
          files.PushBack(fullPath);
        }
      }
    }
    assert es[..i] == es && es[i..] == [];
    PassedAll(es);
    open := open - 1;
    return true, open;
  }

  // ------------------------------------------------------------------------
  // Directory handles
  // ------------------------------------------------------------------------

  /** The walk gets past entry `e`. */
  predicate Opens(e: Entry) {
    !IsDot(e.name) && e.node.Dir? ==> e.node.opens && AllOpen(e.node.entries)
  }

  /** How many handles a recursive walk leaves open: one for each directory it is in when an `opendir` fails. */
  function LeftOpen(node: Node): nat {
    if node.Dir? && node.opens && !AllOpen(node.entries) then 1 + LeftOpenAmong(node.entries) else 0
  }

  function LeftOpenAmong(es: seq<Entry>): nat {
    if es == [] then 0
    else if Opens(es[0]) then LeftOpenAmong(es[1..])
    else LeftOpen(es[0].node)
  }

  /** The walk of `es` has got as far as `rest`. */
  ghost predicate Passed(es: seq<Entry>, rest: seq<Entry>) {
    (AllOpen(es) <==> AllOpen(rest)) && LeftOpenAmong(es) == LeftOpenAmong(rest)
  }

  lemma ClosedLeavesNone(node: Node)
    requires !(node.Dir? && node.opens)
    ensures LeftOpen(node) == 0
  {
  }

  lemma PassedNone(es: seq<Entry>, path: Path, recursive: bool, filter: int)
    ensures Passed(es, es[0..]) && WalkEntries(es[..0], path, recursive, filter) == Outcome([], true)
  {
    assert es[0..] == es;
  }

  lemma PassedAll(es: seq<Entry>)
    ensures Passed(es, []) ==> LeftOpen(Dir(true, es)) == 0
  {
  }

  lemma PassedStep(es: seq<Entry>, i: nat, path: Path, filter: int)
    requires i < |es|
    ensures Passed(es, es[i..]) && Opens(es[i]) ==> Passed(es, es[i + 1..])
    ensures Passed(es, es[i..]) && !Opens(es[i]) ==>
              LeftOpenAmong(es) == LeftOpen(es[i].node) && LeftOpen(Dir(true, es)) == 1 + LeftOpenAmong(es)
    ensures Opens(es[i]) <==> WalkEntry(es[i], path, true, filter).ok
  {
    assert es[i..] == [es[i]] + es[i + 1..];
    AllOpenCons(es[i], es[i + 1..]);
    hide AllOpen, Opens, WalkEntry;
    OpensExactly(es[i], path, filter);
  }

  lemma AllOpenCons(e: Entry, rest: seq<Entry>)
    ensures AllOpen([e] + rest) <==> Opens(e) && AllOpen(rest)
  {
    assert e in [e] + rest && (forall x <- rest :: x in [e] + rest) && forall x <- [e] + rest :: x == e || x in rest;
  }

  lemma OpensExactly(e: Entry, path: Path, filter: int)
    ensures Opens(e) <==> WalkEntry(e, path, true, filter).ok
  {
    if e.node.Dir? {
      WalkIsPreorder(e.node.entries, path + [e.name], true, filter);
    }
  }

  lemma {:induction false} FailsAtLast(es: seq<Entry>, path: Path, filter: int)
    requires filter != 1 && !AllOpen(es)
    ensures var w := WalkEntries(es, path, true, filter);
            !w.ok && w.out != [] && |w.out[|w.out| - 1]| == |path| + 1 + LeftOpenAmong(es)
    decreases es, 1
  {
    var e, rest := es[0], es[1..];
    assert es[0..] == es;
    PassedNone(es, path, true, filter);
    PassedStep(es, 0, path, filter);
    if Opens(e) {
      FailsAtLast(rest, path, filter);
    } else {
      FailsIn(e, path, filter);
    }
  }

  lemma FailsIn(e: Entry, path: Path, filter: int)
    requires filter != 1 && !Opens(e)
    ensures var w := WalkEntry(e, path, true, filter);
            !w.ok && w.out != [] && |w.out[|w.out| - 1]| == |path| + 1 + LeftOpen(e.node)
    decreases e
  {
    if e.node.opens {
      FailsAtLast(e.node.entries, path + [e.name], filter);
    }
  }

  /** A walk that fails below the top leaves as many handles open as the directory that could not be opened is
      levels below the top; with directories listed that is the last path appended. */
  lemma LeftOpenIsDepth(node: Node, path: Path, filter: int)
    requires filter != 1
    ensures var w := Walk(node, path, true, filter);
            && (w.ok || w.out == [] ==> LeftOpen(node) == 0)
            && (!w.ok && w.out != [] ==> LeftOpen(node) == |w.out[|w.out| - 1]| - |path|)
  {
    if node.Dir? && node.opens {
      WalkIsPreorder(node.entries, path, true, filter);
      if !AllOpen(node.entries) {
        FailsAtLast(node.entries, path, filter);
      }
    }
  }

  lemma WalkEntriesStep(es: seq<Entry>, i: nat, path: Path, recursive: bool, filter: int)
    requires 0 < i <= |es| && WalkEntries(es[..i - 1], path, recursive, filter).ok
    ensures var x := WalkEntries(es[..i - 1], path, recursive, filter);
            var y := WalkEntry(es[i - 1], path, recursive, filter);
            && WalkEntries(es[..i], path, recursive, filter) == Outcome(x.out + y.out, y.ok)
            && (!y.ok ==> WalkEntries(es, path, recursive, filter) == Outcome(x.out + y.out, false))
  {
    var one := [es[i - 1]];
    assert es[..i] == es[..i - 1] + one && es == es[..i] + es[i..];
    WalkEntriesSplit(es[..i - 1], one, path, recursive, filter);
    WalkEntriesSplit(es[..i], es[i..], path, recursive, filter);
    assert one[1..] == [];
    assert WalkEntries(one, path, recursive, filter) == WalkEntry(es[i - 1], path, recursive, filter);
  }

  // ------------------------------------------------------------------------
  // The preorder listing of the tree, and how a walk with failures relates to it
  // ------------------------------------------------------------------------

  function Preorder(es: seq<Entry>, path: Path, recursive: bool, filter: int): seq<Path>
    decreases es, 0
  {
    if es == [] then []
    else PreorderEntry(es[0], path, recursive, filter) + Preorder(es[1..], path, recursive, filter)
  }

  function PreorderEntry(e: Entry, path: Path, recursive: bool, filter: int): seq<Path>
    decreases e, 2
  {
    if IsDot(e.name) then []
    else
      (if Listed(e.node, filter) then [path + [e.name]] else []) +
      (if e.node.Dir? && recursive then Preorder(e.node.entries, path + [e.name], recursive, filter) else [])
  }

  /** Every directory the walk enters below these entries can be opened. */
  predicate AllOpen(es: seq<Entry>) {
    forall e <- es :: !IsDot(e.name) && e.node.Dir? ==> e.node.opens && AllOpen(e.node.entries)
  }

  /** The walk appends a prefix of the preorder listing; it throws exactly when some directory it
      enters cannot be opened, and appends the whole listing otherwise. */
  lemma {:induction false} WalkIsPreorder(es: seq<Entry>, path: Path, recursive: bool, filter: int)
    ensures var w := WalkEntries(es, path, recursive, filter);
            && w.out <= Preorder(es, path, recursive, filter)
            && (w.ok ==> w.out == Preorder(es, path, recursive, filter))
            && (w.ok <==> !recursive || AllOpen(es))
    decreases es
  {
    if es != [] {
      var e, rest := es[0], es[1..];
      if !IsDot(e.name) && e.node.Dir? && recursive {
        WalkIsPreorder(e.node.entries, path + [e.name], recursive, filter);
        assert Walk(e.node, path + [e.name], recursive, filter) ==
               if e.node.opens then WalkEntries(e.node.entries, path + [e.name], recursive, filter)
               else Outcome([], false);
      }
      WalkIsPreorder(rest, path, recursive, filter);
      var x, a := WalkEntry(e, path, recursive, filter), PreorderEntry(e, path, recursive, filter);
      assert x.out <= a && (x.ok ==> x.out == a);
      assert x.ok <==> !recursive || AllOpen([e]);
      assert es == [e] + rest;
      assert AllOpen(es) <==> AllOpen([e]) && AllOpen(rest);
    }
  }

  /** The entries of a directory are listed in the order in which they are read. */
  lemma {:induction false} PreorderConcat(a: seq<Entry>, b: seq<Entry>, path: Path, recursive: bool, filter: int)
    ensures Preorder(a + b, path, recursive, filter) ==
            Preorder(a, path, recursive, filter) + Preorder(b, path, recursive, filter)
  {
    if a == [] {
      assert a + b == b;
    } else {
      assert (a + b)[0] == a[0] && (a + b)[1..] == a[1..] + b;
      PreorderConcat(a[1..], b, path, recursive, filter);
    }
  }

  // ------------------------------------------------------------------------
  // An independent reading of the tree: which relative paths resolve in it
  // ------------------------------------------------------------------------

  /** Some entry resolves the relative path `rel` to a directory (`dir`) or to a file (`!dir`). */
  predicate Resolves(es: seq<Entry>, rel: Path, dir: bool) {
    rel != [] && exists e <- es :: ResolvesVia(e, rel, dir)
  }

  predicate ResolvesVia(e: Entry, rel: Path, dir: bool)
    requires rel != []
  {
    && e.name != "." && e.name != ".." && e.name == rel[0]
    && if |rel| == 1 then e.node.Dir? == dir
       else e.node.Dir? && Resolves(e.node.entries, rel[1..], dir)
  }

  predicate Wanted(es: seq<Entry>, rel: Path, recursive: bool, filter: int) {
    && (recursive || |rel| == 1)
    && ((filter != 1 && Resolves(es, rel, true)) || (filter != 2 && Resolves(es, rel, false)))
  }

  predicate WantedVia(e: Entry, rel: Path, recursive: bool, filter: int)
    requires rel != []
  {
    && (recursive || |rel| == 1)
    && ((filter != 1 && ResolvesVia(e, rel, true)) || (filter != 2 && ResolvesVia(e, rel, false)))
  }

  lemma {:induction false} PreorderUnder(es: seq<Entry>, path: Path, recursive: bool, filter: int)
    ensures forall q <- Preorder(es, path, recursive, filter) :: path < q
    decreases es, 0
  {
    if es != [] {
      PreorderUnderEntry(es[0], path, recursive, filter);
      PreorderUnder(es[1..], path, recursive, filter);
    }
  }

  lemma PreorderUnderEntry(e: Entry, path: Path, recursive: bool, filter: int)
    ensures forall q <- PreorderEntry(e, path, recursive, filter) :: path + [e.name] <= q && path < q
    decreases e, 1
  {
    if !IsDot(e.name) && e.node.Dir? && recursive {
      PreorderUnder(e.node.entries, path + [e.name], recursive, filter);
      forall q <- Preorder(e.node.entries, path + [e.name], recursive, filter)
        ensures path + [e.name] <= q && path < q
      {
        assert path + [e.name] < q;
        assert q[..|path|] == (path + [e.name])[..|path|] == path;
      }
    }
  }

  /** `find_files` lists exactly the paths that resolve in the tree to an entry of the wanted kind. */
  lemma {:induction false} ListsWhatResolves(es: seq<Entry>, path: Path, rel: Path, recursive: bool, filter: int)
    requires rel != []
    ensures path + rel in Preorder(es, path, recursive, filter) <==> Wanted(es, rel, recursive, filter)
    decreases es, 0
  {
    if es != [] {
      ListsWhatResolvesEntry(es[0], path, rel, recursive, filter);
      ListsWhatResolves(es[1..], path, rel, recursive, filter);
      assert es == [es[0]] + es[1..];
      assert forall dir :: Resolves(es, rel, dir) <==> ResolvesVia(es[0], rel, dir) || Resolves(es[1..], rel, dir);
    }
  }

  lemma {:induction false} ListsWhatResolvesEntry(e: Entry, path: Path, rel: Path, recursive: bool, filter: int)
    requires rel != []
    ensures path + rel in PreorderEntry(e, path, recursive, filter) <==> WantedVia(e, rel, recursive, filter)
    decreases e, 1
  {
    var q, p := path + rel, path + [e.name];
    assert q[|path|] == rel[0];
    PreorderUnderEntry(e, path, recursive, filter);
    assert p <= q ==> p[|path|] == q[|path|];
    if !IsDot(e.name) && e.name == rel[0] {
      assert q == p + rel[1..];
      if e.node.Dir? && recursive {
        PreorderUnder(e.node.entries, p, recursive, filter);
        if |rel| > 1 {
          ListsWhatResolves(e.node.entries, p, rel[1..], recursive, filter);
          assert q != p;
        } else {
          assert q == p;
        }
      } else {
        assert |rel| == 1 <==> q == p;
      }
    }
  }

  /** No two entries of one directory share a name, at every level. */
  predicate DistinctNames(es: seq<Entry>) {
    && (forall i, j :: 0 <= i < j < |es| ==> es[i].name != es[j].name)
    && (forall e <- es :: e.node.Dir? ==> DistinctNames(e.node.entries))
  }

  predicate NoDuplicates(s: seq<Path>) {
    forall i, j :: 0 <= i < j < |s| ==> s[i] != s[j]
  }

  lemma NoDuplicatesConcat(a: seq<Path>, b: seq<Path>)
    requires NoDuplicates(a) && NoDuplicates(b)
    requires forall q <- a :: q !in b
    ensures NoDuplicates(a + b)
  {
    var c := a + b;
    forall i, j | 0 <= i < j < |c|
      ensures c[i] != c[j]
    {
      assert i < |a| ==> c[i] in a;
      assert |a| <= j ==> c[j] in b;
    }
  }

  /** Every path is listed once. */
  lemma {:induction false} ListsOnce(es: seq<Entry>, path: Path, recursive: bool, filter: int)
    requires DistinctNames(es)
    ensures NoDuplicates(Preorder(es, path, recursive, filter))
    decreases es
  {
    if es != [] {
      var e, rest := es[0], es[1..];
      assert DistinctNames(rest) by {
        forall i, j | 0 <= i < j < |rest| ensures rest[i].name != rest[j].name {
          assert rest[i] == es[i + 1] && rest[j] == es[j + 1];
        }
        assert forall x <- rest :: x in es;
      }
      ListsOnce(rest, path, recursive, filter);
      assert NoDuplicates(PreorderEntry(e, path, recursive, filter)) by {
        if e.node.Dir? {
          assert e in es;
          ListsOnce(e.node.entries, path + [e.name], recursive, filter);
          PreorderUnder(e.node.entries, path + [e.name], recursive, filter);
          if !IsDot(e.name) && recursive {
            NoDuplicatesConcat(if Listed(e.node, filter) then [path + [e.name]] else [],
                               Preorder(e.node.entries, path + [e.name], recursive, filter));
          }
        }
      }
      SiblingsDisjoint(es, path, recursive, filter);
      NoDuplicatesConcat(PreorderEntry(e, path, recursive, filter), Preorder(rest, path, recursive, filter));
    }
  }

  lemma SiblingsDisjoint(es: seq<Entry>, path: Path, recursive: bool, filter: int)
    requires DistinctNames(es) && es != []
    ensures forall q <- PreorderEntry(es[0], path, recursive, filter) ::
              q !in Preorder(es[1..], path, recursive, filter)
  {
    var e, rest := es[0], es[1..];
    PreorderUnderEntry(e, path, recursive, filter);
    forall q <- PreorderEntry(e, path, recursive, filter)
      ensures q !in Preorder(rest, path, recursive, filter)
    {
      var rel := q[|path|..];
      assert q == path + rel && rel != [];
      assert rel[0] == q[|path|] == (path + [e.name])[|path|] == e.name;
      ListsWhatResolves(rest, path, rel, recursive, filter);
      forall k | 0 <= k < |rest|
        ensures rest[k].name != rel[0]
      {
        assert rest[k] == es[k + 1];
      }
      assert forall x <- rest :: x.name != rel[0];
      NothingResolves(rest, rel, true);
      NothingResolves(rest, rel, false);
    }
  }

  lemma NothingResolves(es: seq<Entry>, rel: Path, dir: bool)
    requires rel != [] && forall x <- es :: x.name != rel[0]
    ensures !Resolves(es, rel, dir)
  {
  }

  lemma TakeConcat(a: seq<Path>, b: seq<Path>, j: nat)
    requires |a| <= j < |a + b|
    ensures (a + b)[j] == b[j - |a|] && (a + b)[..j] == a + b[..j - |a|]
  {
  }

  /** With directories listed and recursion on, a directory precedes everything below it. */
  lemma {:induction false} ParentFirst(es: seq<Entry>, path: Path, filter: int, j: nat)
    requires filter != 1
    requires j < |Preorder(es, path, true, filter)|
    ensures var l := Preorder(es, path, true, filter);
            |l[j]| > |path| && (|l[j]| == |path| + 1 || l[j][..|l[j]| - 1] in l[..j])
    decreases es
  {
    var l := Preorder(es, path, true, filter);
    var a, b := PreorderEntry(es[0], path, true, filter), Preorder(es[1..], path, true, filter);
    assert l == a + b;
    if j < |a| {
      ParentFirstEntry(es[0], path, filter, j);
      assert l[j] == a[j] && l[..j] == a[..j];
    } else {
      ParentFirst(es[1..], path, filter, j - |a|);
      TakeConcat(a, b, j);
    }
  }

  lemma {:induction false} ParentFirstEntry(e: Entry, path: Path, filter: int, j: nat)
    requires filter != 1
    requires j < |PreorderEntry(e, path, true, filter)|
    ensures var a := PreorderEntry(e, path, true, filter);
            |a[j]| > |path| && (|a[j]| == |path| + 1 || a[j][..|a[j]| - 1] in a[..j])
    decreases e
  {
    var a, p := PreorderEntry(e, path, true, filter), path + [e.name];
    if j > 0 {
      var c := Preorder(e.node.entries, p, true, filter);
      assert a == [p] + c && a[j] == c[j - 1];
      ParentFirst(e.node.entries, p, filter, j - 1);
      assert a[..j] == [p] + c[..j - 1];
      PreorderUnder(e.node.entries, p, true, filter);
      assert c[j - 1] in c && p < a[j];
      assert |a[j]| == |p| + 1 ==> a[j][..|a[j]| - 1] == p;
    }
  }

  // ------------------------------------------------------------------------
  // The filters
  // ------------------------------------------------------------------------

  /** `c` interleaves `a` and `b`, keeping the order of each. */
  ghost predicate Merges(a: seq<Path>, b: seq<Path>, c: seq<Path>) {
    if c == [] then a == [] && b == []
    else
      || (a != [] && a[0] == c[0] && Merges(a[1..], b, c[1..]))
      || (b != [] && b[0] == c[0] && Merges(a, b[1..], c[1..]))
  }

  lemma {:induction false} MergesConserves(a: seq<Path>, b: seq<Path>, c: seq<Path>)
    requires Merges(a, b, c)
    ensures multiset(c) == multiset(a) + multiset(b)
  {
    if c != [] {
      assert c == [c[0]] + c[1..];
      if a != [] && a[0] == c[0] && Merges(a[1..], b, c[1..]) {
        assert a == [a[0]] + a[1..];
        MergesConserves(a[1..], b, c[1..]);
      } else {
        assert b == [b[0]] + b[1..];
        MergesConserves(a, b[1..], c[1..]);
      }
    }
  }

  lemma {:induction false} MergesConcat(
    a: seq<Path>, b: seq<Path>, c: seq<Path>, x: seq<Path>, y: seq<Path>, z: seq<Path>)
    requires Merges(a, b, c) && Merges(x, y, z)
    ensures Merges(a + x, b + y, c + z)
    decreases c
  {
    if c == [] {
      assert a + x == x && b + y == y && c + z == z;
    } else {
      assert (c + z)[0] == c[0] && (c + z)[1..] == c[1..] + z;
      if a != [] && a[0] == c[0] && Merges(a[1..], b, c[1..]) {
        MergesConcat(a[1..], b, c[1..], x, y, z);
        assert (a + x)[0] == a[0] && (a + x)[1..] == a[1..] + x;
      } else {
        MergesConcat(a, b[1..], c[1..], x, y, z);
        assert (b + y)[0] == b[0] && (b + y)[1..] == b[1..] + y;
      }
    }
  }

  /** Files and directories split the unfiltered listing between them, in its order. */
  lemma {:induction false} FiltersMerge(es: seq<Entry>, path: Path, recursive: bool)
    ensures Merges(Preorder(es, path, recursive, 1), Preorder(es, path, recursive, 2), Preorder(es, path, recursive, 0))
    decreases es
  {
    if es != [] {
      var e := es[0];
      var p := path + [e.name];
      if !IsDot(e.name) {
        if e.node.Dir? && recursive {
          FiltersMerge(e.node.entries, p, recursive);
          var a, b, c := Preorder(e.node.entries, p, recursive, 1), Preorder(e.node.entries, p, recursive, 2),
                         Preorder(e.node.entries, p, recursive, 0);
          assert ([p] + b)[1..] == b && ([p] + c)[1..] == c && ([p] + b)[0] == p;
          assert Merges(a, [p] + b, [p] + c);
          assert [] + a == a;
        } else {
          assert [p][1..] == [] && [p] + [] == [p];
          assert Merges([], [], []);
          assert Merges([p], [], [p]) && Merges([], [p], [p]);
        }
      }
      var a, b := PreorderEntry(e, path, recursive, 1), PreorderEntry(e, path, recursive, 2);
      var x, y := Preorder(es[1..], path, recursive, 1), Preorder(es[1..], path, recursive, 2);
      assert Merges(a, b, PreorderEntry(e, path, recursive, 0));
      FiltersMerge(es[1..], path, recursive);
      MergesConcat(a, b, PreorderEntry(e, path, recursive, 0), x, y, Preorder(es[1..], path, recursive, 0));
    }
  }

  /** The file listing and the directory listing add up to the unfiltered one. */
  lemma FiltersConserve(es: seq<Entry>, path: Path, recursive: bool)
    ensures multiset(Preorder(es, path, recursive, 0)) ==
            multiset(Preorder(es, path, recursive, 1)) + multiset(Preorder(es, path, recursive, 2))
  {
    FiltersMerge(es, path, recursive);
    MergesConserves(Preorder(es, path, recursive, 1), Preorder(es, path, recursive, 2),
                    Preorder(es, path, recursive, 0));
  }

  /** No path is in both. */
  lemma FiltersDisjoint(es: seq<Entry>, path: Path, recursive: bool, q: Path)
    requires DistinctNames(es) && q in Preorder(es, path, recursive, 1)
    ensures q !in Preorder(es, path, recursive, 2)
  {
    FiltersConserve(es, path, recursive);
    ListsOnce(es, path, recursive, 0);
    var a, b := Preorder(es, path, recursive, 1), Preorder(es, path, recursive, 2);
    OnceInMultiset(Preorder(es, path, recursive, 0), q);
    assert multiset(a)[q] >= 1 && (q in b ==> multiset(b)[q] >= 1);
  }

  lemma {:induction false} OnceInMultiset(s: seq<Path>, q: Path)
    requires NoDuplicates(s)
    ensures multiset(s)[q] <= 1
  {
    if s != [] {
      assert s == [s[0]] + s[1..];
      OnceInMultiset(s[1..], q);
      if s[0] == q {
        assert q !in s[1..];
      }
    }
  }
}
