/** Absolute paths as `pathlib` keeps them: the names between slashes, `..` among them. */
module Paths {
  type Path = seq<string>

  const UP := ".."

  predicate IsRelativeTo(path: Path, root: Path) {
    root <= path
  }

  predicate Covered(path: Path, roots: seq<Path>) {
    exists root :: root in roots && IsRelativeTo(path, root)
  }

  predicate Plain(path: Path) {
    UP !in path
  }

  /** The text of a path: each name after a slash. */
  function PathText(path: Path): string {
    if path == [] then "" else PathText(path[..|path| - 1]) + "/" + path[|path| - 1]
  }

  /** Names as they stand in a path: something, without the slash that separates them. */
  ghost predicate IsPath(path: Path) {
    forall name :: name in path ==> name != "" && '/' !in name
  }

  /** A text that starts with a path and a slash goes on with another. */
  lemma {:induction false} TextOnward(path: Path, rest: Path)
    ensures PathText(path + rest) == PathText(path) + PathText(rest)
    decreases |rest|
  {
    if rest == [] {
      assert path + rest == path;
    } else {
      var n := |rest| - 1;
      TextOnward(path, rest[..n]);
      TextOneMore(path, rest[..n], rest[n]);
      assert rest == rest[..n] + [rest[n]];
    }
  }

  lemma TextOneMore(path: Path, rest: Path, name: string)
    requires PathText(path + rest) == PathText(path) + PathText(rest)
    ensures PathText(path + (rest + [name])) == PathText(path) + PathText(rest + [name])
  {
    hide *;
    OneMoreName(path + rest, name);
    OneMoreName(rest, name);
    assert path + (rest + [name]) == (path + rest) + [name];
    assert PathText(path) + PathText(rest) + "/" + name == PathText(path) + (PathText(rest) + "/" + name);
  }

  lemma TextOfFirst(path: Path)
    requires path != []
    ensures PathText(path) == "/" + path[0] + PathText(path[1..])
  {
    assert path == [path[0]] + path[1..];
    TextOnward([path[0]], path[1..]);
    assert PathText([path[0]]) == "/" + path[0];
  }

  lemma TextStarts(path: Path)
    ensures path != [] ==> PathText(path) != "" && PathText(path)[0] == '/'
    ensures PathText(path) + "/" != "" && (PathText(path) + "/")[0] == '/'
  {
    if path != [] {
      TextOfFirst(path);
    }
  }

  lemma FirstNames(a: string, x: string, b: string, y: string)
    requires '/' !in a && '/' !in b && (x != "" ==> x[0] == '/') && y != "" && y[0] == '/'
    ensures "/" + b + y <= "/" + a + x <==> a == b && y <= x
  {
    var longer, shorter := "/" + a + x, "/" + b + y;
    assert forall k :: 0 <= k < |a| ==> longer[k + 1] == a[k] != '/';
    assert forall k :: 0 <= k < |b| ==> shorter[k + 1] == b[k] != '/';
    assert shorter[|b| + 1] == '/' && (x != "" ==> longer[|a| + 1] == '/');
    if shorter <= longer {
      assert longer[|b| + 1] == '/';
      assert |a| == |b|;
      assert forall k :: 0 <= k < |b| ==> shorter[k + 1] == b[k] && shorter[k + 1] == longer[k + 1];
      assert a == b;
      assert forall k :: 0 <= k < |y| ==> shorter[k + |b| + 1] == y[k] && longer[k + |b| + 1] == x[k];
    }
    if a == b && y <= x {
      assert longer == "/" + b + y + x[|y|..];
    }
  }

  /** One text starts with another and a slash exactly when the path lies inside. */
  lemma {:induction false} InsideIff(path: Path, root: Path)
    requires IsPath(path) && IsPath(root)
    ensures root < path <==> PathText(root) + "/" <= PathText(path)
    decreases |root|
  {
    TextStarts(path);
    assert PathText([]) == "";
    hide PathText;
    if path != [] && root != [] {
      assert path[0] in path && root[0] in root;
      assert forall name :: name in path[1..] ==> name in path;
      assert forall name :: name in root[1..] ==> name in root;
      InsideIff(path[1..], root[1..]);
      InsideOneMore(path[0], path[1..], root[0], root[1..]);
      assert path == [path[0]] + path[1..] && root == [root[0]] + root[1..];
    }
  }

  lemma InsideOneMore(a: string, path: Path, b: string, root: Path)
    requires '/' !in a && '/' !in b
    requires root < path <==> PathText(root) + "/" <= PathText(path)
    ensures [b] + root < [a] + path <==> PathText([b] + root) + "/" <= PathText([a] + path)
  {
    hide *;
    TextOfFirst([a] + path);
    TextOfFirst([b] + root);
    TextStarts(path);
    TextStarts(root);
    assert ([a] + path)[1..] == path && ([b] + root)[1..] == root;
    FirstNames(a, PathText(path), b, PathText(root) + "/");
    assert PathText([b] + root) + "/" == "/" + b + (PathText(root) + "/");
    assert [b] + root < [a] + path <==> a == b && root < path by {
      if [b] + root < [a] + path {
        assert ([b] + root)[0] == ([a] + path)[0];
        assert ([a] + path)[..|root| + 1][1..] == root;
      }
    }
  }

  /** A path is known by its text. */
  lemma SameTextIff(a: Path, b: Path)
    requires IsPath(a) && IsPath(b)
    ensures a == b <==> PathText(a) == PathText(b)
  {
    if PathText(a) == PathText(b) {
      OneMoreName(a, "x");
      OneMoreName(b, "x");
      InsideIff(a + ["x"], b);
      InsideIff(b + ["x"], a);
      assert PathText(a) + "/" + "x" == PathText(a) + "/" + "x";
      assert b < a + ["x"] && a < b + ["x"];
      assert |a| == |b| && a == (b + ["x"])[..|a|];
    }
  }

  // ---------------------------------------------------------------- where a path leads

  function StepFrom(at: Path, name: string): Path {
    if name != UP then at + [name] else if at == [] then [] else at[..|at| - 1]
  }

  /** Where following these names leads; above the root there is only the root. */
  function Follow(at: Path, names: Path): Path {
    if names == [] then at else StepFrom(Follow(at, names[..|names| - 1]), names[|names| - 1])
  }

  function Resolved(path: Path): Path {
    Follow([], path)
  }

  lemma {:induction false} FollowOn(at: Path, first: Path, rest: Path)
    ensures Follow(at, first + rest) == Follow(Follow(at, first), rest)
    decreases |rest|
  {
    if rest == [] {
      assert first + rest == first;
    } else {
      var n := |rest| - 1;
      FollowOn(at, first, rest[..n]);
      assert (first + rest)[..|first + rest| - 1] == first + rest[..n];
    }
  }

  lemma OneMoreName(path: Path, name: string)
    ensures Resolved(path + [name]) == StepFrom(Resolved(path), name)
    ensures PathText(path + [name]) == PathText(path) + "/" + name
  {
    assert (path + [name])[..|path|] == path;
  }

  lemma {:induction false} PlainLeadsToItself(path: Path)
    requires Plain(path)
    ensures Resolved(path) == path
  {
    if path != [] {
      var front := path[..|path| - 1];
      assert path == front + [path[|path| - 1]];
      PlainLeadsToItself(front);
    }
  }

  /** What a walk does, seen from where it starts: how far up it goes at its highest, and
      what it goes down from there. */
  datatype Way = Way(ups: nat, down: Path)

  function WayOf(names: Path): Way {
    if names == [] then Way(0, [])
    else
      var w, last := WayOf(names[..|names| - 1]), names[|names| - 1];
      if last != UP then w.(down := w.down + [last])
      else if w.down == [] then w.(ups := w.ups + 1)
      else w.(down := w.down[..|w.down| - 1])
  }

  /** How far a walk can go up from here. */
  function Lost(at: Path, ups: nat): (k: nat)
    ensures k <= |at|
  {
    if ups <= |at| then ups else |at|
  }

  lemma {:induction false} FollowIsItsWay(at: Path, names: Path)
    ensures var w := WayOf(names);
            Follow(at, names) == at[..|at| - Lost(at, w.ups)] + w.down
  {
    if names == [] {
      assert at[..|at|] + [] == at;
    } else {
      FollowIsItsWay(at, names[..|names| - 1]);
      WayStep(at, WayOf(names[..|names| - 1]), names[|names| - 1]);
    }
  }

  lemma WayStep(at: Path, w: Way, name: string)
    ensures var here := at[..|at| - Lost(at, w.ups)] + w.down;
            && (name != UP ==> StepFrom(here, name) == at[..|at| - Lost(at, w.ups)] + (w.down + [name]))
            && (name == UP && w.down != [] ==>
                  StepFrom(here, name) == at[..|at| - Lost(at, w.ups)] + w.down[..|w.down| - 1])
            && (name == UP && w.down == [] ==> StepFrom(here, name) == at[..|at| - Lost(at, w.ups + 1)] + w.down)
  {
    var kept := at[..|at| - Lost(at, w.ups)];
    assert kept + (w.down + [name]) == (kept + w.down) + [name];
    if w.down != [] {
      assert (kept + w.down)[..|kept + w.down| - 1] == kept + w.down[..|w.down| - 1];
    } else {
      assert kept + w.down == kept;
      assert kept != [] ==> kept[..|kept| - 1] == at[..|at| - Lost(at, w.ups + 1)];
    }
  }

  // ---------------------------------------------------------------- climbing out

  function Count(names: Path, up: bool): nat {
    if names == [] then 0
    else Count(names[..|names| - 1], up) + if (names[|names| - 1] == UP) == up then 1 else 0
  }

  /** At some point the walk has gone up more often than down. */
  ghost predicate Climbs(names: Path) {
    exists i: nat :: i <= |names| && Count(names[..i], true) > Count(names[..i], false)
  }

  lemma {:induction false} ClimbsIffUps(names: Path)
    ensures Climbs(names) <==> WayOf(names).ups > 0
    ensures Count(names, true) + |WayOf(names).down| == Count(names, false) + WayOf(names).ups
  {
    if names == [] {
      assert forall i: nat :: i <= |names| ==> names[..i] == [];
    } else {
      var front := names[..|names| - 1];
      ClimbsIffUps(front);
      assert names[..|names|] == names;
      forall i: nat | i < |names| ensures names[..i] == front[..i] {}
      if Climbs(front) {
        var i: nat :| i <= |front| && Count(front[..i], true) > Count(front[..i], false);
        assert Count(names[..i], true) > Count(names[..i], false);
      }
      if Climbs(names) {
        var i: nat :| i <= |names| && Count(names[..i], true) > Count(names[..i], false);
        assert i < |names| ==> Count(front[..i], true) > Count(front[..i], false);
      }
      if WayOf(names).ups > 0 && !Climbs(front) {
        assert Count(names[..|names|], true) > Count(names[..|names|], false);
      }
    }
  }

  /** A path leads under one of these roots. */
  predicate Reached(path: Path, roots: seq<Path>) {
    exists root :: root in roots && Resolved(root) <= Resolved(path)
  }

  /** Below a root the path never climbs out, or where it has climbed to it goes down into
      one of the roots again, name by name. */
  ghost predicate StaysOrReturns(path: Path, root: Path, roots: seq<Path>)
    requires root <= path
  {
    var below, at := path[|root|..], Resolved(root);
    var w := WayOf(below);
    !Climbs(below) || exists r :: r in roots && Resolved(r) <= at[..|at| - Lost(at, w.ups)] + w.down
  }

  /** Removing the roots reaches a path one of them covers exactly when it stays or returns. */
  lemma ReachedIff(path: Path, root: Path, roots: seq<Path>)
    requires root in roots && root <= path
    ensures Reached(path, roots) <==> StaysOrReturns(path, root, roots)
  {
    var below, at := path[|root|..], Resolved(root);
    assert path == root + below;
    FollowOn([], root, below);
    FollowIsItsWay(at, below);
    ClimbsIffUps(below);
    if !Climbs(below) {
      assert at[..|at| - 0] == at;
      assert at <= Resolved(path);
    }
  }

  /** From a root of plain names, a path that goes up and then to another name lies under
      the root as a prefix, and leads elsewhere. */
  lemma ClimbingPathLeaves(root: Path, other: string)
    requires Plain(root) && root != [] && other != UP && other != root[|root| - 1]
    ensures var path := root + [UP, other];
            && IsRelativeTo(path, root) && !Reached(path, [root])
            && Resolved(path) == root[..|root| - 1] + [other]
  {
    var path := root + [UP, other];
    var up := root + [UP];
    PlainLeadsToItself(root);
    assert up[..|root|] == root && path[..|root| + 1] == up;
    assert Follow([], up) == root[..|root| - 1];
    assert Resolved(path) == StepFrom(Follow([], up), other);
    assert Resolved(path)[|root| - 1] == other;
  }
}
