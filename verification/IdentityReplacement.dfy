/** Publishing a prepared Host identity over the live one: several renames that succeed
    together or leave every live path as it was.

    A disk maps paths to what is there, directories included. Any rename of the commit may
    fail; the undo steps are assumed to succeed. */
module IdentityReplacement {

  type Path = string
  type Content = string
  type Tree = map<Path, Content>

  datatype Move = Move(source: Path, destination: Path)

  function Renamed(tree: Tree, m: Move): Tree
    requires m.source in tree
  {
    (tree - {m.source})[m.destination := tree[m.source]]
  }

  /** Moves of things that are there, to places that are free, one after another. */
  ghost predicate CanRename(tree: Tree, moves: seq<Move>)
    decreases |moves|
  {
    moves == [] ||
    (var m := moves[0];
     m.source in tree && m.destination !in tree && m.source != m.destination && CanRename(Renamed(tree, m), moves[1..]))
  }

  ghost function AllRenamed(tree: Tree, moves: seq<Move>): Tree
    requires CanRename(tree, moves)
    decreases |moves|
  {
    if moves == [] then tree else AllRenamed(Renamed(tree, moves[0]), moves[1..])
  }

  lemma {:induction false} RenameOneMore(tree: Tree, moves: seq<Move>, m: Move)
    requires CanRename(tree, moves)
    requires var now := AllRenamed(tree, moves); m.source in now && m.destination !in now && m.source != m.destination
    ensures CanRename(tree, moves + [m])
    ensures AllRenamed(tree, moves + [m]) == Renamed(AllRenamed(tree, moves), m)
    decreases |moves|
  {
    var longer := moves + [m];
    if moves == [] {
      assert longer[1..] == [];
    } else {
      assert longer[0] == moves[0] && longer[1..] == moves[1..] + [m];
      RenameOneMore(Renamed(tree, moves[0]), moves[1..], m);
    }
  }

  lemma {:induction false} RenameOneFewer(tree: Tree, moves: seq<Move>)
    requires CanRename(tree, moves) && moves != []
    ensures var front, m := moves[..|moves| - 1], moves[|moves| - 1];
            && CanRename(tree, front)
            && var before := AllRenamed(tree, front);
               && m.source in before && m.destination !in before && m.source != m.destination
               && AllRenamed(tree, moves) == Renamed(before, m)
    decreases |moves|
  {
    if |moves| == 1 {
      assert moves[1..] == [] && moves[..0] == [];
    } else {
      var rest := moves[1..];
      RenameOneFewer(Renamed(tree, moves[0]), rest);
      assert rest[..|rest| - 1] == moves[..|moves| - 1][1..];
    }
  }

  /** Moving back undoes a move. */
  lemma MoveBack(before: Tree, m: Move)
    requires m.source in before && m.destination !in before && m.source != m.destination
    ensures Renamed(Renamed(before, m), Move(m.destination, m.source)) == before
  {
  }

  /** Paths no move touches can be forgotten before or after the moves. */
  lemma {:induction false} RenameWithout(tree: Tree, moves: seq<Move>, gone: set<Path>)
    requires CanRename(tree, moves)
    requires forall m :: m in moves ==> m.source !in gone && m.destination !in gone
    ensures CanRename(tree - gone, moves)
    ensures AllRenamed(tree - gone, moves) == AllRenamed(tree, moves) - gone
    decreases |moves|
  {
    if moves != [] {
      var m := moves[0];
      assert m in moves;
      assert Renamed(tree - gone, m) == Renamed(tree, m) - gone;
      RenameWithout(Renamed(tree, m), moves[1..], gone);
    }
  }

  /** No path occurs twice among these moves. */
  predicate Apart(moves: seq<Move>) {
    && (forall i :: 0 <= i < |moves| ==> moves[i].source != moves[i].destination)
    && forall i, j :: 0 <= i < j < |moves| ==>
         {moves[i].source, moves[i].destination} !! {moves[j].source, moves[j].destination}
  }

  ghost predicate Same(a: Tree, b: Tree, p: Path) {
    (p in a <==> p in b) && (p in a ==> a[p] == b[p])
  }

  /** What moves leave of a path none of them names. */
  lemma {:induction false} RenameFrame(tree: Tree, moves: seq<Move>, p: Path)
    requires CanRename(tree, moves)
    requires forall m :: m in moves ==> p != m.source && p != m.destination
    ensures Same(tree, AllRenamed(tree, moves), p)
    decreases |moves|
  {
    if moves != [] {
      assert moves[0] in moves;
      RenameFrame(Renamed(tree, moves[0]), moves[1..], p);
    }
  }

  /** What they leave of the paths one of them names. */
  lemma {:induction false} RenameEffect(tree: Tree, moves: seq<Move>, k: nat)
    requires CanRename(tree, moves) && Apart(moves) && k < |moves|
    ensures var after := AllRenamed(tree, moves);
            && moves[k].source in tree && moves[k].source !in after
            && moves[k].destination in after && after[moves[k].destination] == tree[moves[k].source]
    decreases |moves|
  {
    var m, rest := moves[0], moves[1..];
    assert forall j :: 0 <= j < |rest| ==> rest[j] == moves[j + 1];
    if k == 0 {
      RenameFrame(Renamed(tree, m), rest, m.source);
      RenameFrame(Renamed(tree, m), rest, m.destination);
    } else {
      RenameEffect(Renamed(tree, m), rest, k - 1);
      assert moves[k].source != m.source && moves[k].source != m.destination;
    }
  }

  // ---------------------------------------------------------------- which renames are refused

  /** The operating system refuses none of the next `n` renames. */
  predicate Granted(faults: seq<bool>, n: nat) {
    forall i :: 0 <= i < n && i < |faults| ==> !faults[i]
  }

  function Later(faults: seq<bool>, n: nat): seq<bool> {
    if n <= |faults| then faults[n..] else []
  }

  lemma GrantedFurther(faults: seq<bool>, a: nat, b: nat)
    ensures Granted(faults, a + b) <==> Granted(faults, a) && Granted(Later(faults, a), b)
    ensures Later(Later(faults, a), b) == Later(faults, a + b)
  {
    if Granted(faults, a) && Granted(Later(faults, a), b) {
      forall i | 0 <= i < a + b && i < |faults| ensures !faults[i] {
        if a <= i {
          assert !Later(faults, a)[i - a];
        }
      }
    }
  }

  lemma GrantedLess(faults: seq<bool>, a: nat, b: nat)
    requires a <= b
    ensures Granted(faults, b) ==> Granted(faults, a)
  {
  }

  /** How many of these moves have something to move. */
  function Present(tree: Tree, moves: seq<Move>): (n: nat)
    ensures n <= |moves|
  {
    if moves == [] then 0
    else Present(tree, moves[..|moves| - 1]) + if moves[|moves| - 1].source in tree then 1 else 0
  }

  lemma PresentOneMore(tree: Tree, moves: seq<Move>, m: Move)
    ensures Present(tree, moves + [m]) == Present(tree, moves) + if m.source in tree then 1 else 0
    ensures Present(tree, []) == 0
  {
    assert (moves + [m])[..|moves|] == moves;
  }

  lemma {:induction false} PresentGrows(tree: Tree, moves: seq<Move>, i: nat)
    requires i <= |moves|
    ensures Present(tree, moves[..i]) <= Present(tree, moves)
    decreases |moves|
  {
    if i < |moves| {
      assert moves[..|moves| - 1][..i] == moves[..i];
      PresentGrows(tree, moves[..|moves| - 1], i);
    } else {
      assert moves[..i] == moves;
    }
  }

  lemma PresentNext(tree: Tree, moves: seq<Move>, i: nat)
    requires i < |moves|
    ensures Present(tree, moves[..i + 1]) == Present(tree, moves[..i]) + if moves[i].source in tree then 1 else 0
  {
    assert moves[..i + 1][..i] == moves[..i];
  }

  /** Before anything is renamed. */
  lemma NothingRenamed(tree: Tree, moves: seq<Move>, faults: seq<bool>)
    ensures CanRename(tree, []) && AllRenamed(tree, []) == tree && Apart([])
    ensures Present(tree, moves[..0]) == 0 && Granted(faults, 0) && Later(faults, 0) == faults
  {
  }

  class Disk {
    var tree: Tree
    var faults: seq<bool>  // what the operating system will answer to the next renames

    constructor (tree: Tree, faults: seq<bool>)
      ensures this.tree == tree && this.faults == faults
    {
      this.tree, this.faults := tree, faults;
    }

    method Rename(m: Move) returns (ok: bool)
      modifies this
      ensures ok <==> m.source in old(tree) && Granted(old(faults), 1)
      ensures tree == if ok then Renamed(old(tree), m) else old(tree)
      ensures faults == Later(old(faults), 1)
    {
      ok := m.source in tree && !(faults != [] && faults[0]);
      faults := if faults == [] then [] else faults[1..];
      if ok {
        tree := Renamed(tree, m);
      }
    }

    /** Move aside whatever is there, in order, up to the first failure. */
    method Retire(moves: seq<Move>) returns (ok: bool, moved: seq<Move>)
      requires Apart(moves) && forall m :: m in moves ==> m.destination !in tree
      modifies this
      ensures CanRename(old(tree), moved) && tree == AllRenamed(old(tree), moved) && Apart(moved)
      ensures forall m :: m in moved ==> m in moves
      ensures ok ==> forall m :: m in moves ==> (m in moved <==> m.source in old(tree))
      ensures ok <==> Granted(old(faults), Present(old(tree), moves))
      ensures ok ==> faults == Later(old(faults), Present(old(tree), moves))
    {
      hide CanRename, AllRenamed, Apart, Present, Granted, Later;
      ok, moved := true, [];
      NothingRenamed(tree, moves, faults);
      for i := 0 to |moves|
        invariant |moved| == Present(old(tree), moves[..i])
        invariant Granted(old(faults), |moved|) && faults == Later(old(faults), |moved|)
        invariant ok && CanRename(old(tree), moved) && tree == AllRenamed(old(tree), moved) && Apart(moved)
        invariant forall m :: m in moved ==> m in moves[..i]
        invariant forall m :: m in moves[..i] ==> (m in moved <==> m.source in old(tree))
      {
        var m := moves[i];
        NotYet(moves, i, moved);
        RenameFrame(old(tree), moved, m.source);
        RenameFrame(old(tree), moved, m.destination);
        assert moves[..i + 1] == moves[..i] + [m];
        PresentNext(old(tree), moves, i);
        if m.source in tree {
          GrantedFurther(old(faults), |moved|, 1);
          ok := Rename(m);
          if !ok {
            PresentGrows(old(tree), moves, i + 1);
            GrantedLess(old(faults), |moved| + 1, Present(old(tree), moves));
            return;
          }
          RenameOneMore(old(tree), moved, m);
          moved := moved + [m];
        }
      }
      assert moves[..|moves|] == moves;
    }

    /** Put every staged thing in its place, in order, up to the first failure. */
    method Publish(moves: seq<Move>) returns (ok: bool, published: seq<Move>)
      requires Apart(moves) && forall m :: m in moves ==> m.destination !in tree
      modifies this
      ensures CanRename(old(tree), published) && tree == AllRenamed(old(tree), published)
      ensures published <= moves && (ok ==> published == moves)
      ensures ok <==> (forall m :: m in moves ==> m.source in old(tree)) && Granted(old(faults), |moves|)
    {
      hide CanRename, AllRenamed, Apart, Granted, Later;
      ok, published := true, [];
      NothingRenamed(tree, moves, faults);
      for i := 0 to |moves|
        invariant ok && published == moves[..i]
        invariant forall m :: m in moves[..i] ==> m.source in old(tree)
        invariant Granted(old(faults), i) && faults == Later(old(faults), i)
        invariant CanRename(old(tree), published) && tree == AllRenamed(old(tree), published)
      {
        var m := moves[i];
        NotYet(moves, i, published);
        RenameFrame(old(tree), published, m.source);
        RenameFrame(old(tree), published, m.destination);
        GrantedFurther(old(faults), i, 1);
        ok := Rename(m);
        if !ok {
          GrantedLess(old(faults), i + 1, |moves|);
          return;
        }
        RenameOneMore(old(tree), published, m);
        published := published + [m];
      }
      assert moves[..|moves|] == moves;
    }

    /** Take back what was published, last first. */
    method Unpublish(published: seq<Move>, ghost middle: Tree)
      requires CanRename(middle, published) && Apart(published) && tree == AllRenamed(middle, published)
      modifies this
      ensures tree == middle - set m | m in published :: m.source
    {
      for k := |published| downto 0
        invariant tree == AllRenamed(middle, published) - set m | m in published[k..] :: m.destination
      {
        tree := tree - {published[k].destination};
        assert published[k..] == [published[k]] + published[k + 1..];
      }
      assert published[0..] == published;
      WithoutPublished(middle, published);
    }

    /** Move back what was moved, last first. */
    method MoveAllBack(moved: seq<Move>, ghost start: Tree)
      requires CanRename(start, moved) && tree == AllRenamed(start, moved)
      modifies this
      ensures tree == start
    {
      assert moved[..|moved|] == moved;
      for k := |moved| downto 0
        invariant CanRename(start, moved[..k]) && tree == AllRenamed(start, moved[..k])
      {
        var m := moved[k];
        assert moved[..k + 1][..k] == moved[..k];
        RenameOneFewer(start, moved[..k + 1]);
        MoveBack(AllRenamed(start, moved[..k]), m);
        tree := Renamed(tree, Move(m.destination, m.source));
      }
    }

    method Undo(published: seq<Move>, moved: seq<Move>, ghost before: Tree)
      requires CanRename(before, moved) && CanRename(AllRenamed(before, moved), published) && Apart(published)
      requires tree == AllRenamed(AllRenamed(before, moved), published)
      requires forall m, p :: m in moved && p in published ==> p.source != m.source && p.source != m.destination
      modifies this
      ensures tree == before - set m | m in published :: m.source
    {
      ghost var spent := set m | m in published :: m.source;
      Unpublish(published, AllRenamed(before, moved));
      RenameWithout(before, moved, spent);
      MoveAllBack(moved, before - spent);
    }
  }

  lemma NotYet(moves: seq<Move>, i: nat, done: seq<Move>)
    requires Apart(moves) && i < |moves| && forall m :: m in done ==> m in moves[..i]
    ensures forall m :: m in done ==>
              {m.source, m.destination} !! {moves[i].source, moves[i].destination}
    ensures Apart(done) ==> Apart(done + [moves[i]])
  {
    forall m | m in done ensures {m.source, m.destination} !! {moves[i].source, moves[i].destination} {
      var k :| 0 <= k < i && moves[k] == m;
    }
    var longer := done + [moves[i]];
    assert forall k :: 0 <= k < |done| ==> longer[k] == done[k] && done[k] in done;
  }

  /** Deleting what was published leaves the tree it was published to, without the staged
      things that are spent. */
  lemma WithoutPublished(tree: Tree, published: seq<Move>)
    requires CanRename(tree, published) && Apart(published)
    ensures AllRenamed(tree, published) - (set m | m in published :: m.destination)
         == tree - set m | m in published :: m.source
  {
    var after := AllRenamed(tree, published);
    var gone, spent := set m | m in published :: m.destination, set m | m in published :: m.source;
    forall p ensures Same(after - gone, tree - spent, p) {
      if p in gone {
        var k :| 0 <= k < |published| && published[k].destination == p;
        PublishedWasFree(tree, published, k);
      } else if p in spent {
        var k :| 0 <= k < |published| && published[k].source == p;
        RenameEffect(tree, published, k);
      } else {
        RenameFrame(tree, published, p);
      }
    }
    SameTrees(after - gone, tree - spent);
  }

  lemma SameTrees(a: Tree, b: Tree)
    requires forall p :: Same(a, b, p)
    ensures a == b
  {
    forall p | p in a ensures p in b && a[p] == b[p] {
      assert Same(a, b, p);
    }
    forall p | p in b ensures p in a {
      assert Same(a, b, p);
    }
  }

  lemma {:induction false} PublishedWasFree(tree: Tree, moves: seq<Move>, k: nat)
    requires CanRename(tree, moves) && Apart(moves) && k < |moves|
    ensures moves[k].destination !in tree
    decreases |moves|
  {
    if k > 0 {
      var rest := moves[1..];
      assert forall j :: 0 <= j < |rest| ==> rest[j] == moves[j + 1];
      PublishedWasFree(Renamed(tree, moves[0]), rest, k - 1);
      assert moves[k].destination != moves[0].source;
    }
  }

  /** The paths of one commit: four live places, where each retires to, and what is staged
      for three of them. The retired directory is new, and all of these differ. */
  datatype Replacement = Replacement(
    target: Path, ownerRoot: Path, anchor: Path, binding: Path,
    retiredInputs: Path, retiredOwner: Path, retiredAnchor: Path, retiredBinding: Path,
    stagedInputs: Path, stagedOwner: Path, stagedAnchor: Path)
  {
    function Moves(): seq<Move> {
      [Move(target, retiredInputs), Move(ownerRoot, retiredOwner),
       Move(anchor, retiredAnchor), Move(binding, retiredBinding)]
    }

    function Publications(): seq<Move> {
      [Move(stagedInputs, target), Move(stagedOwner, ownerRoot), Move(stagedAnchor, anchor)]
    }

    function Live(): set<Path> { {target, ownerRoot, anchor, binding} }

    function Retired(): set<Path> { {retiredInputs, retiredOwner, retiredAnchor, retiredBinding} }

    function Staged(): set<Path> { {stagedInputs, stagedOwner, stagedAnchor} }

    predicate Ready(tree: Tree) {
      && |Live()| == 4 && |Retired()| == 4 && |Staged()| == 3
      && Live() !! Retired() && Live() !! Staged() && Retired() !! Staged()
      && Retired() !! tree.Keys
    }

    /** What was live has moved to where it retires, if it was there at all. */
    ghost predicate RetiredTo(before: Tree, after: Tree, live: Path, retired: Path) {
      if live in before then retired in after && after[retired] == before[live] else retired !in after
    }

    /** What the commit promises when it succeeds: the staged inputs, Owner material and anchor
        are live in their own places, each live thing is in its own retired place, nothing is
        staged any more, no binding is left behind, and no other path changed. */
    ghost predicate Replaced(before: Tree, after: Tree) {
      && stagedInputs in before && target in after && after[target] == before[stagedInputs]
      && stagedOwner in before && ownerRoot in after && after[ownerRoot] == before[stagedOwner]
      && stagedAnchor in before && anchor in after && after[anchor] == before[stagedAnchor]
      && {stagedInputs, stagedOwner, stagedAnchor, binding} !! after.Keys
      && RetiredTo(before, after, target, retiredInputs) && RetiredTo(before, after, ownerRoot, retiredOwner)
      && RetiredTo(before, after, anchor, retiredAnchor) && RetiredTo(before, after, binding, retiredBinding)
      && var ours := {target, ownerRoot, anchor, binding, retiredInputs, retiredOwner, retiredAnchor, retiredBinding,
                      stagedInputs, stagedOwner, stagedAnchor};
         forall p :: p !in ours ==> Same(before, after, p)
    }

    /** How many of the four live things are there. */
    function Standing(tree: Tree): nat {
      (if target in tree then 1 else 0) + (if ownerRoot in tree then 1 else 0)
      + (if anchor in tree then 1 else 0) + (if binding in tree then 1 else 0)
    }

    /** All or nothing: on success the new identity is published and the old one retired; on
        a failure at any rename every path but spent staging holds exactly what it held. It
        succeeds exactly when everything is staged and none of its renames is refused. */
    method Commit(disk: Disk) returns (ok: bool)
      requires Ready(disk.tree)
      modifies disk
      ensures ok ==> Replaced(old(disk.tree), disk.tree)
      ensures !ok ==> exists spent ::
                spent <= {stagedInputs, stagedOwner, stagedAnchor} && disk.tree == old(disk.tree) - spent
      ensures ok <==> {stagedInputs, stagedOwner, stagedAnchor} <= old(disk.tree).Keys
                      && Granted(old(disk.faults), Standing(old(disk.tree)) + 3)
    {
      hide CanRename, AllRenamed, Apart, Present, Granted, Later, Replaced, Moves, Publications, Same, Standing;
      ghost var before, faults, n := disk.tree, disk.faults, Present(disk.tree, Moves());
      StandingIsPresent(before);
      PathsAreApart(before);
      NothingRenamed(before, [], faults);
      GrantedFurther(faults, n, 3);
      var moved, published;
      ok, moved := disk.Retire(Moves());
      assert before - {} == before;
      if !ok {
        NothingRenamed(disk.tree, [], faults);
        disk.Undo([], moved, before);
        return;
      }
      ghost var middle := disk.tree;
      Freed(before, moved);
      StagedIsThere(before, middle);
      ok, published := disk.Publish(Publications());
      if !ok {
        PublishedIsStaged(before, moved, published);
        disk.Undo(published, moved, before);
        return;
      }
      CommitReplaces(before, moved, middle);
    }

    lemma StandingIsPresent(tree: Tree)
      ensures Present(tree, Moves()) == Standing(tree)
    {
      hide Present;
      var m := Moves();
      assert m == [m[0]] + [m[1]] + [m[2]] + [m[3]] && [] + [m[0]] == [m[0]];
      PresentOneMore(tree, [], m[0]);
      PresentOneMore(tree, [m[0]], m[1]);
      PresentOneMore(tree, [m[0]] + [m[1]], m[2]);
      PresentOneMore(tree, [m[0]] + [m[1]] + [m[2]], m[3]);
    }

    lemma StagedIsThere(before: Tree, middle: Tree)
      requires forall m :: m in Publications() ==> Same(before, middle, m.source)
      ensures Staged() <= before.Keys <==> forall m :: m in Publications() ==> m.source in middle
      ensures |Publications()| == 3
    {
      assert forall k :: 0 <= k < 3 ==> Publications()[k] in Publications();
    }

    lemma PathsAreApart(tree: Tree)
      requires Ready(tree)
      ensures Apart(Moves()) && Apart(Publications())
      ensures forall m :: m in Moves() ==> m.destination !in tree
    {
    }

    /** Once everything there has retired, every live place is free and staging is as it was. */
    lemma Freed(before: Tree, moved: seq<Move>)
      requires Ready(before) && CanRename(before, moved) && Apart(moved)
      requires forall m :: m in moved ==> m in Moves()
      requires forall m :: m in Moves() ==> (m in moved <==> m.source in before)
      ensures var middle := AllRenamed(before, moved);
              && (forall m :: m in Moves() ==> m.source !in middle) && binding !in middle
              && (forall m :: m in Publications() ==> m.destination !in middle && Same(before, middle, m.source))
    {
      hide AllRenamed, CanRename, Apart;
      assert Moves()[3] in Moves();
      forall m | m in Moves() ensures m.source !in AllRenamed(before, moved) {
        if m in moved {
          var k :| 0 <= k < |moved| && moved[k] == m;
          RenameEffect(before, moved, k);
        } else {
          RenameFrame(before, moved, m.source);
        }
      }
      forall p | p in Staged() ensures Same(before, AllRenamed(before, moved), p) {
        RenameFrame(before, moved, p);
      }
    }

    lemma PublishedIsStaged(before: Tree, moved: seq<Move>, published: seq<Move>)
      requires Ready(before) && published <= Publications() && forall m :: m in moved ==> m in Moves()
      ensures (set m | m in published :: m.source) <= Staged() && Apart(published)
      ensures forall m, p :: m in moved && p in published ==> p.source != m.source && p.source != m.destination
    {
      PathsAreApart(before);
    }

    lemma CommitReplaces(before: Tree, moved: seq<Move>, middle: Tree)
      requires Ready(before) && CanRename(before, moved) && Apart(moved) && middle == AllRenamed(before, moved)
      requires forall m :: m in moved ==> m in Moves()
      requires forall m :: m in Moves() ==> (m in moved <==> m.source in before)
      requires CanRename(middle, Publications())
      ensures Replaced(before, AllRenamed(middle, Publications()))
    {
      hide Apart, CanRename, AllRenamed;
      var after := AllRenamed(middle, Publications());
      PathsAreApart(before);
      Freed(before, moved);
      PublishedHold(before, middle);
      Unpublished(middle);
      assert forall k :: 0 <= k < 3 ==> Publications()[k] in Publications();
      assert forall k :: 0 <= k < 4 ==> Moves()[k] in Moves();
      forall m | m in Moves()
        ensures if m.source in before then m.destination in after && after[m.destination] == before[m.source]
                else m.destination !in after
      {
        RetiredHolds(before, moved, middle, m);
      }
      forall p | p !in Live() + Retired() + Staged() ensures Same(before, after, p) {
        Untouched(before, moved, middle, p);
      }
    }

    lemma PublishedHold(before: Tree, middle: Tree)
      requires CanRename(middle, Publications()) && Apart(Publications())
      requires forall m :: m in Publications() ==> Same(before, middle, m.source)
      ensures var after := AllRenamed(middle, Publications());
              forall m :: m in Publications() ==>
                && m.source in before && m.source !in after
                && m.destination in after && after[m.destination] == before[m.source]
    {
      forall m | m in Publications()
        ensures var after := AllRenamed(middle, Publications());
                && m.source in before && m.source !in after
                && m.destination in after && after[m.destination] == before[m.source]
      {
        var k :| 0 <= k < |Publications()| && Publications()[k] == m;
        RenameEffect(middle, Publications(), k);
      }
    }

    lemma Untouched(before: Tree, moved: seq<Move>, middle: Tree, p: Path)
      requires CanRename(before, moved) && middle == AllRenamed(before, moved) && CanRename(middle, Publications())
      requires (forall m :: m in moved ==> m in Moves()) && p !in Live() + Retired() + Staged()
      ensures Same(before, AllRenamed(middle, Publications()), p)
    {
      RenameFrame(before, moved, p);
      RenameFrame(middle, Publications(), p);
    }

    lemma Unpublished(middle: Tree)
      requires CanRename(middle, Publications()) && |Live()| == 4 && Live() !! Staged() && binding !in middle
      ensures binding !in AllRenamed(middle, Publications())
    {
      RenameFrame(middle, Publications(), binding);
    }

    lemma RetiredHolds(before: Tree, moved: seq<Move>, middle: Tree, m: Move)
      requires Ready(before) && CanRename(before, moved) && Apart(moved) && middle == AllRenamed(before, moved)
      requires CanRename(middle, Publications()) && m in Moves()
      requires forall n :: n in moved ==> n in Moves()
      requires m in moved <==> m.source in before
      ensures var after := AllRenamed(middle, Publications());
              && (m.source in before <==> m.destination in after)
              && (m.source in before ==> after[m.destination] == before[m.source])
    {
      PathsAreApart(before);
      RenameFrame(middle, Publications(), m.destination);
      if m in moved {
        var k :| 0 <= k < |moved| && moved[k] == m;
        RenameEffect(before, moved, k);
      } else {
        forall n | n in moved ensures m.destination != n.source && m.destination != n.destination {
          DestinationsDiffer(m, n);
        }
        RenameFrame(before, moved, m.destination);
      }
    }

    lemma DestinationsDiffer(m: Move, n: Move)
      requires Apart(Moves()) && m in Moves() && n in Moves() && m != n
      ensures m.destination != n.source && m.destination != n.destination
    {
      var i :| 0 <= i < 4 && Moves()[i] == m;
      var j :| 0 <= j < 4 && Moves()[j] == n;
    }
  }
}
