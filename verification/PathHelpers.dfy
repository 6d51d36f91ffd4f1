/** The path helpers on text, and how they fit the paths that `find_files` emits. */
module PathHelpers {
  import opened Basics
  import opened FindFiles

  predicate IsSeparator(c: char) {
    c == '/' || c == '\\'
  }

  /** `std::filesystem::path(path).append(name)` on Linux, for a name that does not start with `/`. */
  function Join(path: string, name: string): string {
    if path == "" || path[|path| - 1] == '/' then path + name else path + "/" + name
  }

  /** The text of the path with these components below `root`, as the walk builds it. */
  function Text(root: string, p: Path): string {
    if p == [] then root else Join(Text(root, p[..|p| - 1]), p[|p| - 1])
  }

  /** `get_relative_path`; None stands for the exception. */
  function RelativePath(parent: string, child: string): Option<string> {
    if !(parent <= child) then None
    else
      var rest := child[|parent|..];
      if rest != "" && IsSeparator(rest[0]) then Some(rest[1..]) else Some(rest)
  }

  /** `get_file_name`: the match of `[^/\\]+$`, that is the longest end of the text without separators. */
  function FileName(path: string): string {
    if path == "" || IsSeparator(path[|path| - 1]) then ""
    else FileName(path[..|path| - 1]) + [path[|path| - 1]]
  }

  /** Whatever is returned, the child is the parent followed by it, with at most one separator between. */
  lemma RelativeRejoins(parent: string, child: string)
    ensures RelativePath(parent, child).None? <==> !(parent <= child)
    ensures var r := RelativePath(parent, child);
            r.Some? ==> child == parent + r.value || exists c :: IsSeparator(c) && child == parent + [c] + r.value
  {
    if parent <= child {
      var rest := child[|parent|..];
      assert child == parent + rest;
      if rest != "" && IsSeparator(rest[0]) {
        assert child == parent + [rest[0]] + rest[1..];
      }
    }
  }

  /** The test for parenthood is on text alone: a sibling whose name starts with the parent's passes. */
  lemma SiblingIsTakenForChild()
    ensures RelativePath("/a", "/ab") == Some("b")
  {
  }

  /** One separator after the parent is dropped, of either kind, and only one. */
  lemma RelativeDropsOne(parent: string, c: char, rest: string)
    ensures c == '/' || c == '\\' ==> RelativePath(parent, parent + [c] + rest) == Some(rest)
    ensures c != '/' && c != '\\' ==> RelativePath(parent, parent + [c] + rest) == Some([c] + rest)
    ensures RelativePath(parent, parent) == Some("")
  {
    var child := parent + [c] + rest;
    assert child == parent + ([c] + rest);
    assert child[|parent|..] == [c] + rest && ([c] + rest)[1..] == rest;
    assert parent[|parent|..] == "";
  }

  /** `get_file_name` returns what stands behind the last separator of either kind. */
  lemma {:induction false} FileNameExactly(path: string)
    ensures var r := FileName(path);
            && |r| <= |path| && path[|path| - |r|..] == r && '/' !in r && '\\' !in r
            && (|r| < |path| ==> path[|path| - |r| - 1] == '/' || path[|path| - |r| - 1] == '\\')
    decreases |path|
  {
    if path != "" && !IsSeparator(path[|path| - 1]) {
      var init := path[..|path| - 1];
      FileNameExactly(init);
      var r := FileName(path);
      assert r == FileName(init) + [path[|path| - 1]];
      assert path[|path| - |r|..] == init[|path| - |r|..] + [path[|path| - 1]];
    }
  }

  predicate Clean(name: string) {
    name != "" && forall c <- name :: !IsSeparator(c)
  }

  predicate CleanPath(p: Path) {
    forall n <- p :: Clean(n)
  }

  lemma {:induction false} FileNameOf(path: string, name: string)
    requires Clean(name) && (path == "" || IsSeparator(path[|path| - 1]))
    ensures FileName(path + name) == name
    decreases |name|
  {
    var t, init, last := path + name, name[..|name| - 1], name[|name| - 1];
    assert last in name && forall c <- init :: c in name;
    assert t[..|t| - 1] == path + init && t[|t| - 1] == last;
    if init == "" {
      assert path + init == path;
    } else {
      FileNameOf(path, init);
    }
  }

  lemma JoinAssociates(root: string, a: string, b: string)
    requires a != "" && !IsSeparator(a[|a| - 1])
    ensures Join(Join(root, a), b) == Join(root, Join(a, b))
  {
    assert Join(root, a)[|Join(root, a)| - 1] == a[|a| - 1];
    assert Join(a, b) == a + "/" + b;
    var up := if root == "" || root[|root| - 1] == '/' then root else root + "/";
    assert Join(root, a) == up + a && Join(root, Join(a, b)) == up + (a + "/" + b);
    assert (up + a) + "/" + b == up + (a + "/" + b);
  }

  predicate Inner(t: string) {
    t != "" && !IsSeparator(t[0]) && !IsSeparator(t[|t| - 1])
  }

  /** The text of a path is its root joined to its text below an empty root. */
  lemma {:induction false} TextSplits(root: string, p: Path)
    requires p != [] && CleanPath(p)
    ensures Inner(Text("", p)) && Text(root, p) == Join(root, Text("", p))
  {
    var init, last := p[..|p| - 1], p[|p| - 1];
    assert last in p && forall n <- init :: n in p;
    assert Inner(last) by {
      assert last[0] in last && last[|last| - 1] in last;
    }
    if init == [] {
      assert Text("", p) == Join("", last) == last;
    } else {
      TextSplits(root, init);
      var a := Text("", init);
      JoinAssociates(root, a, last);
      assert Text("", p) == Join(a, last) == a + "/" + last;
    }
  }

  /** The components of a text: what stands between its slashes. */
  function Components(t: string): seq<string> {
    if t == "" then [""]
    else
      var rest := Components(t[1..]);
      if t[0] == '/' then [""] + rest else [[t[0]] + rest[0]] + rest[1..]
  }

  lemma {:induction false} ComponentsOfName(name: string)
    requires Clean(name) || name == ""
    ensures Components(name) == [name]
  {
    if name != "" {
      assert name[0] in name && forall c <- name[1..] :: c in name;
      ComponentsOfName(name[1..]);
      assert [name[0]] + name[1..] == name;
    }
  }

  lemma {:induction false} ComponentsJoin(t: string, name: string)
    requires Clean(name)
    ensures Components(t + "/" + name) == Components(t) + [name]
    decreases |t|
  {
    var all := t + "/" + name;
    if t == "" {
      assert all[1..] == name;
      ComponentsOfName(name);
    } else {
      assert all[1..] == t[1..] + "/" + name;
      ComponentsJoin(t[1..], name);
    }
  }

  lemma TextOne(name: string)
    ensures Text("", [name]) == name
  {
    assert [name][..0] == [];
  }

  lemma TextLast(init: Path, last: string)
    requires init != [] && CleanPath(init)
    ensures Text("", init + [last]) == Text("", init) + "/" + last
  {
    TextSplits("", init);
    assert (init + [last])[..|init|] == init;
    hide CleanPath;
  }

  lemma {:induction false} ComponentsOfText(p: Path)
    requires p != [] && CleanPath(p)
    ensures Components(Text("", p)) == p
  {
    var init, last := p[..|p| - 1], p[|p| - 1];
    assert last in p && (forall n <- init :: n in p) && p == init + [last];
    assert CleanPath(init) && Clean(last);
    hide *;
    if init == [] {
      assert p == [last];
      TextOne(last);
      ComponentsOfName(last);
    } else {
      ComponentsOfText(init);
      TextLast(init, last);
      ComponentsJoin(Text("", init), last);
    }
  }

  /** The text of a path below some root is the root, a slash unless it ends in one, and components that can be
      read off between the slashes. */
  lemma TextReadsBack(root: string, p: Path)
    requires p != [] && CleanPath(p)
    ensures Components(Text("", p)) == p
    ensures Text(root, p) == root + (if root == "" || root[|root| - 1] == '/' then "" else "/") + Text("", p)
  {
    ComponentsOfText(p);
    TextSplits(root, p);
    hide Text, Components;
  }

  lemma RelativeOfJoin(root: string, rel: string)
    requires Inner(rel)
    ensures RelativePath(root, Join(root, rel)) == Some(rel)
  {
    var t := Join(root, rel);
    if root == "" || root[|root| - 1] == '/' {
      assert t[|root|..] == rel;
    } else {
      assert t == root + ("/" + rel);
      assert t[|root|..] == "/" + rel && ("/" + rel)[1..] == rel;
    }
  }

  lemma FileNameOfJoin(path: string, name: string)
    requires Clean(name)
    ensures FileName(Join(path, name)) == name
  {
    if path == "" || path[|path| - 1] == '/' {
      FileNameOf(path, name);
    } else {
      FileNameOf(path + "/", name);
    }
  }

  /** On every path below the root, `get_relative_path` succeeds, joining its result to the root gives
      the path again, and `get_file_name` is the last component. */
  lemma HelpersAgree(root: string, p: Path)
    requires p != [] && CleanPath(p)
    ensures RelativePath(root, Text(root, p)) == Some(Text("", p))
    ensures Join(root, Text("", p)) == Text(root, p)
    ensures FileName(Text(root, p)) == p[|p| - 1]
  {
    TextSplits(root, p);
    RelativeOfJoin(root, Text("", p));
    assert p[|p| - 1] in p;
    FileNameOfJoin(Text(root, p[..|p| - 1]), p[|p| - 1]);
  }

  // ------------------------------------------------------------------------
  // Between any two paths
  // ------------------------------------------------------------------------

  /** Component by component: `q` is at least as deep, agrees with `p` above the last component of `p`, and
      has a component there that starts with that of `p`. */
  predicate StartsLike(p: Path, q: Path)
    requires p != []
  {
    && |p| <= |q| && p[..|p| - 1] == q[..|p| - 1]
    && p[|p| - 1] <= q[|p| - 1]
  }

  /** `get_relative_path` accepts two paths below one root exactly when the second starts like the
      first, and what it returns is the way from the first to the second exactly when the first is
      an ancestor of the second, or the same: when the component is not just longer. */
  lemma RelativePathExactly(root: string, p: Path, q: Path)
    requires p != [] && CleanPath(p) && CleanPath(q)
    ensures RelativePath(Text(root, p), Text(root, q)).Some? <==> StartsLike(p, q)
    ensures |p| <= |q| && RelativePath(Text(root, p), Text(root, q)) == Some(Text("", q[|p|..])) <==> p <= q
    ensures p <= q <==> StartsLike(p, q) && p[|p| - 1] == q[|p| - 1]
  {
    PrefixExactly(root, p, q);
    assert p == p[..|p| - 1] + [p[|p| - 1]];
    hide Text, CleanPath, Down;
    if p <= q {
      assert q == p + q[|p|..];
      TextBelow(root, p, q[|p|..]);
    } else if StartsLike(p, q) {
      SiblingIsLonger(root, p, q);
    }
  }

  lemma {:induction false} TextConcat(root: string, p: Path, rest: Path)
    ensures Text(root, p + rest) == Text(Text(root, p), rest)
    decreases |rest|
  {
    if rest == [] {
      assert p + rest == p;
    } else {
      var init := rest[..|rest| - 1];
      assert (p + rest)[..|p + rest| - 1] == p + init;
      TextConcat(root, p, init);
    }
  }

  lemma TextBelow(root: string, p: Path, rest: Path)
    requires CleanPath(p + rest)
    ensures RelativePath(Text(root, p), Text(root, p + rest)) == Some(Text("", rest))
  {
    TextConcat(root, p, rest);
    if rest != [] {
      forall n <- rest ensures Clean(n) {
        assert n in p + rest;
      }
      HelpersAgree(Text(root, p), rest);
    }
  }

  /** What precedes a component below `root`. */
  function Up(root: string): string {
    if root == "" || root[|root| - 1] == '/' then root else root + "/"
  }

  /** What follows a component before `rest`. */
  function Down(rest: Path): string {
    if rest == [] then "" else "/" + Text("", rest)
  }

  lemma TextCons(root: string, p: Path)
    requires p != [] && CleanPath(p)
    ensures Text(root, p) == Text(Join(root, p[0]), p[1..]) == Up(root) + p[0] + Down(p[1..])
  {
    assert [p[0]] + p[1..] == p && [p[0]][..0] == [];
    TextConcat(root, [p[0]], p[1..]);
    assert Text(root, [p[0]]) == Join(root, p[0]);
    assert p[0] in p && forall n <- p[1..] :: n in p;
    hide Text;
    TextDown(root, p[0], p[1..]);
  }

  lemma TextDown(root: string, name: string, rest: Path)
    requires Clean(name) && CleanPath(rest)
    ensures Text(Join(root, name), rest) == Up(root) + name + Down(rest)
  {
    var t := Join(root, name);
    assert t == Up(root) + name;
    assert name[|name| - 1] in name && t[|t| - 1] == name[|name| - 1];
    if rest != [] {
      hide Text, Up;
      TextSplits(t, rest);
      assert Join(t, Text("", rest)) == t + "/" + Text("", rest) == t + Down(rest);
    }
  }

  lemma {:induction false} PrefixExactly(root: string, p: Path, q: Path)
    requires p != [] && CleanPath(p) && CleanPath(q)
    ensures Text(root, p) <= Text(root, q) <==> StartsLike(p, q)
    decreases |p|
  {
    TextCons(root, p);
    assert p[0] in p;
    if q == [] {
      assert |Text(root, p)| > |root|;
    } else {
      TextCons(root, q);
      assert q[0] in q;
      if p[0] == q[0] && |p| > 1 {
        assert forall n <- p[1..] :: n in p;
        assert forall n <- q[1..] :: n in q;
        PrefixExactly(Join(root, p[0]), p[1..], q[1..]);
        StartsLikeCons(p, q);
      } else {
        assert p[..0] == q[..0];
        ComponentsCompare(Up(root), p[0], Down(p[1..]), q[0], Down(q[1..]));
        assert |p| > 1 && |q| >= |p| ==> p[..|p| - 1][0] == p[0] && q[..|p| - 1][0] == q[0];
      }
    }
  }

  lemma StartsLikeCons(p: Path, q: Path)
    requires |p| > 1 && q != [] && p[0] == q[0]
    ensures StartsLike(p, q) <==> StartsLike(p[1..], q[1..])
  {
    if |p| <= |q| {
      assert p[..|p| - 1] == [p[0]] + p[1..][..|p| - 2];
      assert q[..|p| - 1] == [q[0]] + q[1..][..|p| - 2];
      assert p[..|p| - 1][1..] == p[1..][..|p| - 2] && q[..|p| - 1][1..] == q[1..][..|p| - 2];
    }
  }

  /** Components do not hold separators, so texts compare by components. */
  lemma ComponentsCompare(up: string, a: string, x: string, b: string, y: string)
    requires Clean(a) && Clean(b)
    requires (x == "" || x[0] == '/') && (y == "" || y[0] == '/')
    requires x == "" || a != b
    ensures up + a + x <= up + b + y <==> x == "" && a <= b
  {
    var s, t := up + a + x, up + b + y;
    assert s == up + (a + x) && t == up + (b + y);
    assert s[|up|..] == a + x && t[|up|..] == b + y;
    if |a| > |b| {
      assert (a + x)[|b|] == a[|b|] && a[|b|] in a;
      assert y != "" ==> (b + y)[|b|] == '/';
    } else if x != "" && |a| < |b| {
      assert (a + x)[|a|] == '/' && (b + y)[|a|] == b[|a|] && b[|a|] in b;
    } else {
      assert a + x <= b + y ==> a == (a + x)[..|a|] == (b + y)[..|a|] == b[..|a|];
      assert x == "" && a <= b ==> a + x == b[..|a|] == (b + y)[..|a|];
    }
  }

  /** For a sibling with a longer name the rest of the name comes first. */
  lemma SiblingIsLonger(root: string, p: Path, q: Path)
    requires p != [] && CleanPath(p) && CleanPath(q) && StartsLike(p, q) && p[|p| - 1] != q[|p| - 1]
    ensures RelativePath(Text(root, p), Text(root, q)) ==
            Some(q[|p| - 1][|p[|p| - 1]|..] + Down(q[|p|..]))
    ensures |Text("", q[|p|..])| < |q[|p| - 1][|p[|p| - 1]|..] + Down(q[|p|..])|
  {
    var init, a, b, rest := p[..|p| - 1], p[|p| - 1], q[|p| - 1], q[|p|..];
    var low := [b] + rest;
    assert q == init + low && p == init + [a];
    TextConcat(root, init, low);
    TextConcat(root, init, [a]);
    assert b in q && a in p;
    forall n <- low ensures Clean(n) {
      assert n in q;
    }
    assert low[1..] == rest && [a][1..] == [];
    TextCons(Text(root, init), low);
    TextCons(Text(root, init), [a]);
    hide Text;
    LongerName(Up(Text(root, init)), a, b, Down(rest));
  }

  lemma LongerName(up: string, a: string, b: string, down: string)
    requires Clean(b) && a < b
    ensures RelativePath(up + a + "", up + b + down) == Some(b[|a|..] + down)
  {
    var c := b[|a|..];
    assert up + b + down == up + a + "" + (c + down);
    assert (up + b + down)[|up + a + ""|..] == c + down;
    assert c[0] == b[|a|] && c[0] in b;
  }

  // ------------------------------------------------------------------------
  // On the paths of the walk
  // ------------------------------------------------------------------------

  predicate AllClean(es: seq<Entry>) {
    forall e <- es :: Clean(e.name) && (e.node.Dir? ==> AllClean(e.node.entries))
  }

  lemma {:induction false} WalkIsClean(es: seq<Entry>, path: Path, recursive: bool, filter: int)
    requires AllClean(es) && CleanPath(path)
    ensures forall q <- Preorder(es, path, recursive, filter) :: CleanPath(q)
    decreases es
  {
    if es != [] {
      var e := es[0];
      assert e in es && forall x <- es[1..] :: x in es;
      var p := path + [e.name];
      assert CleanPath(p);
      if e.node.Dir? {
        WalkIsClean(e.node.entries, p, recursive, filter);
      }
      WalkIsClean(es[1..], path, recursive, filter);
    }
  }

  /** The helpers agree on everything `find_files(root)` emits, when no name holds a separator. */
  lemma HelpersAgreeWithWalk(root: string, es: seq<Entry>, recursive: bool, filter: int, q: Path)
    requires AllClean(es) && q in Preorder(es, [], recursive, filter)
    ensures RelativePath(root, Text(root, q)) == Some(Text("", q))
    ensures Join(root, Text("", q)) == Text(root, q)
    ensures q != [] && FileName(Text(root, q)) == q[|q| - 1]
  {
    WalkIsClean(es, [], recursive, filter);
    PreorderUnder(es, [], recursive, filter);
    HelpersAgree(root, q);
  }
}
