/** Path containment for a reset: which declared paths the roots cover, and which declared
    path claims each entry. */
module ResetScope {
  import opened Common
  import opened ComponentContract
  import opened ComponentTopology
  import opened Paths

  datatype Declared = Declared(componentId: string, paths: seq<Path>)

  datatype Removal = NothingDeclared | Complete(declaredBy: seq<Declared>)

  datatype Refusal = Silent(components: seq<string>) | Stranded(paths: seq<Path>)

  function DeclaredBy(contracts: seq<Contract>): seq<Declared> {
    seq(|contracts|, i requires 0 <= i < |contracts| =>
      Declared(contracts[i].componentId, contracts[i].factoryReset))
  }

  function StrandedIn(paths: seq<Path>, roots: seq<Path>): seq<Path> {
    Filter(paths, (p: Path) => !Covered(p, roots))
  }

  function AllStranded(contracts: seq<Contract>, roots: seq<Path>): seq<Path> {
    if contracts == [] then []
    else AllStranded(contracts[..|contracts| - 1], roots) + StrandedIn(contracts[|contracts| - 1].factoryReset, roots)
  }

  /** Some contract's reset takes this path. */
  ghost predicate Takes(contracts: seq<Contract>, path: Path) {
    exists c :: c in contracts && path in c.factoryReset
  }

  /** Stranded are the factory paths under no root. */
  lemma {:induction false} StrandedAre(contracts: seq<Contract>, roots: seq<Path>)
    ensures forall p :: p in AllStranded(contracts, roots) <==> Takes(contracts, p) && !Covered(p, roots)
    ensures AllStranded(contracts, roots) == []
        <==> forall c, p :: c in contracts && p in c.factoryReset ==> Covered(p, roots)
  {
    hide Covered;
    if contracts != [] {
      var front, last := contracts[..|contracts| - 1], contracts[|contracts| - 1];
      StrandedAre(front, roots);
      assert forall c :: c in contracts <==> c in front || c == last;
      var all := AllStranded(contracts, roots);
      assert forall p :: p in StrandedIn(last.factoryReset, roots) <==> p in last.factoryReset && !Covered(p, roots);
      if all != [] {
        assert all[0] in all;
      }
    }
  }

  /** Refuses on silence and on factory paths outside the roots; otherwise lists them all. */
  method AuthorityToRemove(t: Topology, roots: seq<Path>) returns (r: Result<Removal, Refusal>)
    ensures t.contracts == [] ==> r == Ok(NothingDeclared)
    ensures t.contracts != [] && t.silent != [] ==> r == Err(Silent(t.silent))
    ensures t.contracts != [] && t.silent == [] ==>
              (r.Ok? <==> forall c, p :: c in t.Declared() && p in c.factoryReset ==> Covered(p, roots))
              && (r.Ok? ==>
                    && r.value == Complete(DeclaredBy(t.Declared())) && |r.value.declaredBy| == |t.Declared()|
                    && forall i :: 0 <= i < |t.Declared()| ==>
                         && r.value.declaredBy[i].componentId == t.Declared()[i].componentId
                         && r.value.declaredBy[i].paths == t.Declared()[i].factoryReset)
              && (r.Err? ==>
                    && r.error == Stranded(AllStranded(t.Declared(), roots))
                    && forall p :: p in r.error.paths <==> Takes(t.Declared(), p) && !Covered(p, roots))
  {
    hide Covered, Takes, StrandedIn;
    if t.contracts == [] {
      return Ok(NothingDeclared);
    }
    if t.silent != [] {
      return Err(Silent(t.silent));
    }
    var declared := t.Declared();
    var removed: seq<Declared> := [];
    var stranded: seq<Path> := [];
    for i := 0 to |declared|
      invariant |removed| == i
      invariant forall k :: 0 <= k < i ==> removed[k] == Declared(declared[k].componentId, declared[k].factoryReset)
      invariant stranded == AllStranded(declared[..i], roots)
    {
      assert declared[..i + 1][..i] == declared[..i];
      removed := removed + [Declared(declared[i].componentId, declared[i].factoryReset)];
      stranded := stranded + StrandedIn(declared[i].factoryReset, roots);
    }
    assert declared[..|declared|] == declared;
    assert removed == DeclaredBy(declared);
    StrandedAre(declared, roots);
    if stranded != [] {
      return Err(Stranded(stranded));
    }
    return Ok(Complete(removed));
  }

  /** What some declared contract says a reset takes, or has to take. */
  ghost predicate Declares(contracts: seq<Contract>, path: Path) {
    exists c :: c in contracts && (path in c.factoryReset || exists s :: s in c.authority && s.path == path)
  }

  /** A wipe that goes ahead reaches every declared path if and only if each of them, below
      the root that covers it, never climbs out or goes down into a root again. */
  lemma WipeReachesIff(
      found: seq<Found>, platform: Contract, capabilities: set<string>, t: Topology, roots: seq<Path>)
    requires Acceptable(found, platform, capabilities)
    requires t.Declared() == Chosen(DeclaredIn(found) + [platform], capabilities)
    requires forall c, p :: c in t.Declared() && p in c.factoryReset ==> Covered(p, roots)
    ensures var declared := DeclaredIn(found) + [platform];
            && (forall path :: Declares(declared, path) ==> Covered(path, roots))
            && ((forall path :: Declares(declared, path) ==> Reached(path, roots)) <==>
                forall path, root :: Declares(declared, path) && root in roots && root <= path ==>
                  StaysOrReturns(path, root, roots))
  {
    hide Acceptable, Reached, StaysOrReturns, Selected;
    var declared := DeclaredIn(found) + [platform];
    WipeCoversAllAuthority(found, platform, capabilities, t, roots);
    forall path | Declares(declared, path) ensures Covered(path, roots) {
      var c :| c in declared && (path in c.factoryReset || exists s :: s in c.authority && s.path == path);
      if path in c.factoryReset {
        var i :| 0 <= i < |declared| && declared[i] == c;
        assert t.Declared()[i] == Selected(c, capabilities) && t.Declared()[i] in t.Declared();
        SelectionKeepsState(c, capabilities);
      }
    }
    hide Declares;
    forall path, root | Declares(declared, path) && root in roots && root <= path
      ensures Reached(path, roots) <==> StaysOrReturns(path, root, roots)
    {
      ReachedIff(path, root, roots);
    }
  }

  /** A component whose state climbs out of a root is consistent, its factory path is covered,
      and the wipe of that root leaves the state where it is. */
  lemma ClimbingStateSurvives(root: Path, other: string)
    requires Plain(root) && root != [] && other != UP && other != root[|root| - 1]
    ensures var path := root + [UP, other];
            var c := Contract("", [], [], [], [], [State(path, [])], [root]);
            && Consistent(c) && Covered(root, [root]) && Covered(path, [root]) && !Reached(path, [root])
  {
    var path := root + [UP, other];
    var c := Contract("", [], [], [], [], [State(path, [])], [root]);
    ClimbingPathLeaves(root, other);
    assert root in [root] && c.authority[0] == State(path, []);
    hide Reached;
    assert IsRelativeTo(root, root) && Covered(root, [root]) && Covered(path, [root]);
  }

  /** On an acceptable set whose factory paths are covered, every authority path is covered
      too, of every declared contract: the two containments compose, and selection drops no
      state. */
  lemma WipeCoversAllAuthority(
      found: seq<Found>, platform: Contract, capabilities: set<string>, t: Topology, roots: seq<Path>)
    requires Acceptable(found, platform, capabilities)
    requires t.Declared() == Chosen(DeclaredIn(found) + [platform], capabilities)
    requires forall c, p :: c in t.Declared() && p in c.factoryReset ==> Covered(p, roots)
    ensures forall c, s :: c in DeclaredIn(found) + [platform] && s in c.authority ==> Covered(s.path, roots)
  {
    hide Joined, Consistent, Covered, Selected;
    var declared := DeclaredIn(found) + [platform];
    forall c | c in declared ensures forall s :: s in c.authority ==> Covered(s.path, roots) {
      var i :| 0 <= i < |declared| && declared[i] == c;
      assert t.Declared()[i] == Selected(c, capabilities) && t.Declared()[i] in t.Declared();
      SelectionKeepsState(c, capabilities);
      DeclaredAndSilent(found);
      assert c in DeclaredIn(found) || c == platform;
      AuthorityUnderRoots(c, roots);
    }
  }

  lemma SelectionKeepsState(c: Contract, capabilities: set<string>)
    ensures Selected(c, capabilities).factoryReset == c.factoryReset
    ensures Selected(c, capabilities).authority == c.authority
  {
  }

  lemma AuthorityUnderRoots(c: Contract, roots: seq<Path>)
    requires Consistent(c) && forall p :: p in c.factoryReset ==> Covered(p, roots)
    ensures forall s :: s in c.authority ==> Covered(s.path, roots)
  {
    forall s | s in c.authority ensures Covered(s.path, roots) {
      var factory :| factory in c.factoryReset && IsRelativeTo(s.path, factory);
      var root :| root in roots && IsRelativeTo(factory, root);
      assert IsRelativeTo(s.path, root);
    }
  }

  // ---------------------------------------------------------------- whose it is

  const SIDECARS: seq<string> := ["-shm", "-wal", ".lock", "-journal"]

  function Beside(path: Path, suffix: string): Path
    requires path != []
  {
    path[..|path| - 1] + [path[|path| - 1] + suffix]
  }

  /** Equal, a sidecar of the declared file, or one inside the other. */
  predicate SameState(entry: Path, declared: Path) {
    || entry == declared
    || (declared != [] && exists suffix :: suffix in SIDECARS && entry == Beside(declared, suffix))
    || IsRelativeTo(entry, declared) || IsRelativeTo(declared, entry)
  }

  /** By their texts: the same path, or the declared one with one of four endings, or one of
      them starts with the other and a slash. */
  lemma SameStateIff(entry: Path, declared: Path)
    requires IsPath(entry) && IsPath(declared) && entry != [] && declared != []
    ensures var e, d := PathText(entry), PathText(declared);
            SameState(entry, declared) <==>
              || e == d || e == d + "-shm" || e == d + "-wal" || e == d + ".lock" || e == d + "-journal"
              || d + "/" <= e || e + "/" <= d
  {
    hide PathText, Beside, IsPath;
    SameTextIff(entry, declared);
    InsideIff(entry, declared);
    InsideIff(declared, entry);
    SidecarsIff(entry, declared);
    assert IsRelativeTo(entry, declared) <==> entry == declared || declared < entry;
    assert IsRelativeTo(declared, entry) <==> entry == declared || entry < declared;
  }

  lemma SidecarsIff(entry: Path, declared: Path)
    requires IsPath(entry) && IsPath(declared) && declared != []
    ensures var e, d := PathText(entry), PathText(declared);
            (exists suffix :: suffix in SIDECARS && entry == Beside(declared, suffix)) <==>
              e == d + "-shm" || e == d + "-wal" || e == d + ".lock" || e == d + "-journal"
  {
    hide PathText, Beside, IsPath;
    SidecarIff(entry, declared, "-shm");
    SidecarIff(entry, declared, "-wal");
    SidecarIff(entry, declared, ".lock");
    SidecarIff(entry, declared, "-journal");
    assert SIDECARS[0] in SIDECARS && SIDECARS[1] in SIDECARS && SIDECARS[2] in SIDECARS && SIDECARS[3] in SIDECARS;
  }

  lemma SidecarIff(entry: Path, declared: Path, suffix: string)
    requires IsPath(entry) && IsPath(declared) && declared != [] && '/' !in suffix
    ensures entry == Beside(declared, suffix) <==> PathText(entry) == PathText(declared) + suffix
  {
    hide IsPath;
    var n := |declared| - 1;
    var beside := Beside(declared, suffix);
    assert declared == declared[..n] + [declared[n]];
    OneMoreName(declared[..n], declared[n]);
    OneMoreName(declared[..n], declared[n] + suffix);
    assert PathText(beside) == PathText(declared) + suffix;
    BesideIsPath(declared, suffix);
    SameTextIff(entry, beside);
  }

  lemma BesideIsPath(declared: Path, suffix: string)
    requires IsPath(declared) && declared != [] && '/' !in suffix
    ensures IsPath(Beside(declared, suffix))
  {
    var n := |declared| - 1;
    assert declared[n] in declared && forall name :: name in declared[..n] ==> name in declared;
  }

  /** Declared paths in the order they were first named, each with the last component that
      named it. */
  function Owned(owners: seq<(Path, string)>, path: Path, component: string): (r: seq<(Path, string)>)
    ensures forall o :: o in r ==> o in owners || o == (path, component)
    ensures forall p :: Owns(r, p) <==> Owns(owners, p) || p == path
  {
    if owners == [] then
      assert [(path, component)][0] == (path, component);
      [(path, component)]
    else
      var rest := if owners[0].0 == path then owners[1..] else Owned(owners[1..], path, component);
      var first := if owners[0].0 == path then (path, component) else owners[0];
      assert forall p :: Owns([first] + rest, p) <==> first.0 == p || Owns(rest, p) by {
        OwnsCons(first, rest);
      }
      assert forall p :: Owns(owners, p) <==> owners[0].0 == p || Owns(owners[1..], p) by {
        OwnsCons(owners[0], owners[1..]);
        assert owners == [owners[0]] + owners[1..];
      }
      [first] + rest
  }

  predicate Owns(owners: seq<(Path, string)>, path: Path) {
    exists o :: o in owners && o.0 == path
  }

  lemma OwnsCons(first: (Path, string), rest: seq<(Path, string)>)
    ensures forall p :: Owns([first] + rest, p) <==> first.0 == p || Owns(rest, p)
  {
    forall p ensures Owns([first] + rest, p) <==> first.0 == p || Owns(rest, p) {
      assert first in [first] + rest;
    }
  }

  /** The first owner whose declared path is the entry's state. */
  function OwnerOf(owners: seq<(Path, string)>, entry: Path): (r: Option<string>)
    ensures r.None? <==> forall o :: o in owners ==> !SameState(entry, o.0)
    ensures r.Some? ==> exists o :: o in owners && SameState(entry, o.0) && o.1 == r.value
  {
    if owners == [] then None
    else if SameState(entry, owners[0].0) then Some(owners[0].1)
    else OwnerOf(owners[1..], entry)
  }

  /** Who names which path, in the order they do. */
  function Namings(declaredBy: seq<Declared>): seq<(Path, string)> {
    if declaredBy == [] then []
    else Namings(declaredBy[..|declaredBy| - 1]) + PathsOf(declaredBy[|declaredBy| - 1])
  }

  function PathsOf(d: Declared): seq<(Path, string)> {
    seq(|d.paths|, k requires 0 <= k < |d.paths| => (d.paths[k], d.componentId))
  }

  /** The first path named that is an entry's state. */
  ghost predicate FirstMatch(namings: seq<(Path, string)>, entry: Path, path: Path) {
    exists i :: 0 <= i < |namings| && namings[i].0 == path && SameState(entry, path)
                && forall k :: 0 <= k < i ==> !SameState(entry, namings[k].0)
  }

  /** The last to name a path. */
  ghost predicate LastNamer(namings: seq<(Path, string)>, path: Path, component: string) {
    exists j :: 0 <= j < |namings| && namings[j] == (path, component)
                && forall k :: j < k < |namings| ==> namings[k].0 != path
  }

  /** An entry belongs to the last component that named the first path it matches. */
  ghost predicate Belongs(namings: seq<(Path, string)>, entry: Path, component: string) {
    exists path :: FirstMatch(namings, entry, path) && LastNamer(namings, path, component)
  }

  /** What the owner table says after these namings: each path once, by its last namer, and
      ahead of the others where it was named before them. */
  ghost predicate Follows(owners: seq<(Path, string)>, namings: seq<(Path, string)>) {
    && (forall i, j :: 0 <= i < j < |owners| ==> owners[i].0 != owners[j].0)
    && (forall o :: o in owners ==> LastNamer(namings, o.0, o.1))
    && (forall entry, path :: FirstMatch(owners, entry, path) ==> FirstMatch(namings, entry, path))
    && forall n :: n in namings ==> Owns(owners, n.0)
  }

  lemma FollowsNothing()
    ensures Follows([], [])
  {
  }

  lemma LastNamerNext(namings: seq<(Path, string)>, path: Path, component: string, p: Path, c: string)
    ensures LastNamer(namings + [(path, component)], p, c) <==>
              if p == path then c == component else LastNamer(namings, p, c)
  {
    var more := namings + [(path, component)];
    assert more[|namings|] == (path, component);
    assert forall k :: 0 <= k < |namings| ==> more[k] == namings[k];
    if LastNamer(namings, p, c) && p != path {
      var j :| 0 <= j < |namings| && namings[j] == (p, c) && forall k :: j < k < |namings| ==> namings[k].0 != p;
      assert more[j] == (p, c);
    }
    if LastNamer(more, p, c) && p != path {
      var j :| 0 <= j < |more| && more[j] == (p, c) && forall k :: j < k < |more| ==> more[k].0 != p;
      assert namings[j] == (p, c);
    }
  }

  lemma FirstMatchGrows(namings: seq<(Path, string)>, last: (Path, string), entry: Path, path: Path)
    requires FirstMatch(namings, entry, path)
    ensures FirstMatch(namings + [last], entry, path)
  {
    hide SameState;
    var i :| 0 <= i < |namings| && namings[i].0 == path && SameState(entry, path)
             && forall k :: 0 <= k < i ==> !SameState(entry, namings[k].0);
    var more := namings + [last];
    assert more[i] == namings[i] && forall k :: 0 <= k < i ==> more[k] == namings[k];
  }

  /** One naming more: a path that is there changes hands where it stands, a new one goes last. */
  lemma {:induction false} OwnedIs(owners: seq<(Path, string)>, path: Path, component: string)
    ensures var r := Owned(owners, path, component);
            && (path, component) in r
            && (if Owns(owners, path) then |r| == |owners| else |r| == |owners| + 1 && r[|owners|].0 == path)
            && forall k :: 0 <= k < |owners| ==>
                 r[k].0 == owners[k].0 && (owners[k].0 != path ==> r[k] == owners[k])
  {
    if owners == [] {
      assert Owned(owners, path, component)[0] == (path, component);
    } else {
      assert owners == [owners[0]] + owners[1..];
      OwnsCons(owners[0], owners[1..]);
      if owners[0].0 == path {
        assert Owned(owners, path, component)[0] == (path, component);
      } else {
        OwnedIs(owners[1..], path, component);
        assert Owned(owners, path, component) == [owners[0]] + Owned(owners[1..], path, component);
      }
    }
  }

  lemma NoMatchBefore(owners: seq<(Path, string)>, namings: seq<(Path, string)>, entry: Path)
    requires Follows(owners, namings) && forall o :: o in owners ==> !SameState(entry, o.0)
    ensures forall n :: n in namings ==> !SameState(entry, n.0)
  {
    hide SameState, LastNamer, FirstMatch;
    forall n | n in namings ensures !SameState(entry, n.0) {
      var o :| o in owners && o.0 == n.0;
    }
  }

  lemma NewMatch(namings: seq<(Path, string)>, path: Path, component: string, entry: Path)
    requires SameState(entry, path) && forall n :: n in namings ==> !SameState(entry, n.0)
    ensures FirstMatch(namings + [(path, component)], entry, path)
  {
    hide SameState;
    var more := namings + [(path, component)];
    assert more[|namings|].0 == path && forall k :: 0 <= k < |namings| ==> more[k] in namings;
  }

  lemma FollowsNext(owners: seq<(Path, string)>, namings: seq<(Path, string)>, path: Path, component: string)
    requires Follows(owners, namings)
    ensures Follows(Owned(owners, path, component), namings + [(path, component)])
  {
    hide SameState, LastNamer, FirstMatch, Owned, Follows;
    var after, more := Owned(owners, path, component), namings + [(path, component)];
    OwnedIs(owners, path, component);
    OwnedOnce(owners, namings, path, component);
    forall o | o in after ensures LastNamer(more, o.0, o.1) {
      LastNamerNext(namings, path, component, o.0, o.1);
      OwnedBy(owners, namings, path, component, o);
    }
    forall entry, p | FirstMatch(after, entry, p) ensures FirstMatch(more, entry, p) {
      FirstOfOwned(owners, namings, path, component, entry, p);
    }
    forall n | n in more ensures Owns(after, n.0) {
      OwnsMore(owners, namings, path, component, n);
    }
    FollowsBy(after, more);
  }

  lemma FollowsBy(owners: seq<(Path, string)>, namings: seq<(Path, string)>)
    requires forall i, j :: 0 <= i < j < |owners| ==> owners[i].0 != owners[j].0
    requires forall o :: o in owners ==> LastNamer(namings, o.0, o.1)
    requires forall entry, path :: FirstMatch(owners, entry, path) ==> FirstMatch(namings, entry, path)
    requires forall n :: n in namings ==> Owns(owners, n.0)
    ensures Follows(owners, namings)
  {
    hide SameState, LastNamer, FirstMatch, Owns;
  }

  lemma OwnsMore(owners: seq<(Path, string)>, namings: seq<(Path, string)>, path: Path, component: string,
                 n: (Path, string))
    requires Follows(owners, namings) && n in namings + [(path, component)]
    ensures Owns(Owned(owners, path, component), n.0)
  {
    hide SameState, LastNamer, FirstMatch;
    if n in namings {
      assert Owns(owners, n.0);
    }
  }

  lemma OwnedOnce(owners: seq<(Path, string)>, namings: seq<(Path, string)>, path: Path, component: string)
    requires Follows(owners, namings)
    ensures var after := Owned(owners, path, component);
            forall i, j :: 0 <= i < j < |after| ==> after[i].0 != after[j].0
  {
    hide SameState, LastNamer, FirstMatch;
    var after := Owned(owners, path, component);
    OwnedIs(owners, path, component);
    hide Owned;
    forall i, j | 0 <= i < j < |after| ensures after[i].0 != after[j].0 {
      if j == |owners| {
        assert owners[i] in owners && !Owns(owners, path);
      }
    }
  }

  lemma OwnedBy(owners: seq<(Path, string)>, namings: seq<(Path, string)>, path: Path, component: string,
                o: (Path, string))
    requires Follows(owners, namings) && o in Owned(owners, path, component)
    ensures if o.0 == path then o.1 == component else LastNamer(namings, o.0, o.1)
  {
    hide SameState, LastNamer, FirstMatch, Follows, Owned, Owns;
    var after := Owned(owners, path, component);
    OwnedIs(owners, path, component);
    OwnedOnce(owners, namings, path, component);
    var i :| 0 <= i < |after| && after[i] == o;
    var k :| 0 <= k < |after| && after[k] == (path, component);
    if o.0 == path {
      assert i == k;
    } else {
      assert i < |owners| && owners[i] == o;
      NamedLast(owners, namings, i);
    }
  }

  lemma NamedLast(owners: seq<(Path, string)>, namings: seq<(Path, string)>, i: nat)
    requires Follows(owners, namings) && i < |owners|
    ensures LastNamer(namings, owners[i].0, owners[i].1)
  {
    hide SameState, LastNamer, FirstMatch, Owns;
    assert owners[i] in owners;
  }

  lemma FirstOfOwned(owners: seq<(Path, string)>, namings: seq<(Path, string)>, path: Path, component: string,
                     entry: Path, p: Path)
    requires Follows(owners, namings) && FirstMatch(Owned(owners, path, component), entry, p)
    ensures FirstMatch(namings + [(path, component)], entry, p)
  {
    hide SameState, LastNamer;
    var after := Owned(owners, path, component);
    OwnedIs(owners, path, component);
    hide Owned;
    var i := FirstIndex(after, entry, p);
    if i < |owners| {
      FirstMatchAt(owners, entry, i);
      FirstMatchGrows(namings, (path, component), entry, p);
    } else {
      forall o | o in owners ensures !SameState(entry, o.0) {
        var k :| 0 <= k < |owners| && owners[k] == o;
        assert after[k].0 == o.0;
      }
      NoMatchBefore(owners, namings, entry);
      NewMatch(namings, path, component, entry);
    }
  }

  lemma FirstIndex(namings: seq<(Path, string)>, entry: Path, path: Path) returns (i: nat)
    requires FirstMatch(namings, entry, path)
    ensures i < |namings| && namings[i].0 == path && SameState(entry, path)
    ensures forall k :: 0 <= k < i ==> !SameState(entry, namings[k].0)
  {
    hide SameState;
    i :| 0 <= i < |namings| && namings[i].0 == path && forall k :: 0 <= k < i ==> !SameState(entry, namings[k].0);
  }

  lemma FirstMatchAt(namings: seq<(Path, string)>, entry: Path, i: nat)
    requires i < |namings| && SameState(entry, namings[i].0)
    requires forall k :: 0 <= k < i ==> !SameState(entry, namings[k].0)
    ensures FirstMatch(namings, entry, namings[i].0)
  {
    hide SameState;
  }

  lemma {:induction false} OwnerIsFirst(owners: seq<(Path, string)>, entry: Path) returns (i: nat)
    requires OwnerOf(owners, entry).Some?
    ensures i < |owners| && SameState(entry, owners[i].0) && owners[i].1 == OwnerOf(owners, entry).value
    ensures forall k :: 0 <= k < i ==> !SameState(entry, owners[k].0)
  {
    hide SameState;
    if SameState(entry, owners[0].0) {
      i := 0;
    } else {
      var k := OwnerIsFirst(owners[1..], entry);
      i := k + 1;
      assert forall j :: 0 < j < |owners| ==> owners[j] == owners[1..][j - 1];
    }
  }

  lemma OwnerBelongs(owners: seq<(Path, string)>, namings: seq<(Path, string)>, entry: Path)
    requires Follows(owners, namings) && OwnerOf(owners, entry).Some?
    ensures Belongs(namings, entry, OwnerOf(owners, entry).value)
  {
    hide SameState, LastNamer, FirstMatch, OwnerOf;
    var i := OwnerIsFirst(owners, entry);
    FirstMatchAt(owners, entry, i);
    assert owners[i] in owners;
  }

  /** A component's declaration that covers an entry. */
  ghost predicate Claims(declaredBy: seq<Declared>, component: string, entry: Path) {
    exists d, p :: d in declaredBy && p in d.paths && SameState(entry, p) && d.componentId == component
  }

  /** Some component declared this path. */
  ghost predicate Named(declaredBy: seq<Declared>, path: Path, component: string) {
    exists d :: d in declaredBy && path in d.paths && d.componentId == component
  }

  method OwnPaths(before: seq<(Path, string)>, d: Declared, ghost namings: seq<(Path, string)>)
    returns (owners: seq<(Path, string)>)
    requires Follows(before, namings)
    ensures Follows(owners, namings + PathsOf(d))
    ensures forall o :: o in owners ==> o in before || (o.0 in d.paths && o.1 == d.componentId)
    ensures forall p :: Owns(owners, p) <==> Owns(before, p) || p in d.paths
  {
    hide Owns, Follows;
    owners := before;
    assert namings + PathsOf(d)[..0] == namings;
    for j := 0 to |d.paths|
      invariant Follows(owners, namings + PathsOf(d)[..j])
      invariant forall o :: o in owners ==> o in before || (o.0 in d.paths && o.1 == d.componentId)
      invariant forall p :: Owns(owners, p) <==> Owns(before, p) || p in d.paths[..j]
    {
      FollowsNext(owners, namings + PathsOf(d)[..j], d.paths[j], d.componentId);
      assert namings + PathsOf(d)[..j + 1] == namings + PathsOf(d)[..j] + [(d.paths[j], d.componentId)];
      owners := Owned(owners, d.paths[j], d.componentId);
    }
    assert d.paths[..|d.paths|] == d.paths && PathsOf(d)[..|d.paths|] == PathsOf(d);
  }

  method OwnersOf(declaredBy: seq<Declared>) returns (owners: seq<(Path, string)>)
    ensures Follows(owners, Namings(declaredBy))
    ensures forall o :: o in owners ==> Named(declaredBy, o.0, o.1)
    ensures forall p :: Owns(owners, p) <==> exists d :: d in declaredBy && p in d.paths
  {
    owners := [];
    FollowsNothing();
    for i := 0 to |declaredBy|
      invariant Follows(owners, Namings(declaredBy[..i]))
      invariant forall o :: o in owners ==> Named(declaredBy[..i], o.0, o.1)
      invariant forall p :: Owns(owners, p) <==> exists d :: d in declaredBy[..i] && p in d.paths
    {
      hide Owns, Follows;
      NamesMore(declaredBy, i);
      assert declaredBy[..i + 1][..i] == declaredBy[..i];
      owners := OwnPaths(owners, declaredBy[i], Namings(declaredBy[..i]));
    }
    assert declaredBy[..|declaredBy|] == declaredBy;
  }

  lemma NamesMore(declaredBy: seq<Declared>, i: nat)
    requires i < |declaredBy|
    ensures forall p, c :: Named(declaredBy[..i + 1], p, c)
              <==> Named(declaredBy[..i], p, c) || (p in declaredBy[i].paths && c == declaredBy[i].componentId)
    ensures forall p :: (exists d :: d in declaredBy[..i + 1] && p in d.paths)
              <==> (exists d :: d in declaredBy[..i] && p in d.paths) || p in declaredBy[i].paths
  {
    var less, more, last := declaredBy[..i], declaredBy[..i + 1], declaredBy[i];
    assert more == less + [last] && more[i] == last;
    forall p, c
      ensures Named(more, p, c) <==> Named(less, p, c) || (p in last.paths && c == last.componentId)
    {
      if Named(less, p, c) {
        var d :| d in less && p in d.paths && d.componentId == c;
        assert d in more;
      }
      if p in last.paths && c == last.componentId {
        assert last in more;
      }
      if Named(more, p, c) {
        var d :| d in more && p in d.paths && d.componentId == c;
        assert d in less || d == last;
      }
    }
    forall p
      ensures (exists d :: d in more && p in d.paths) <==> (exists d :: d in less && p in d.paths) || p in last.paths
    {
      if d :| d in less && p in d.paths {
        assert d in more;
      }
      if p in last.paths {
        assert last in more;
      }
    }
  }

  /** The report is a partition: every entry is either claimed, by a component that declared
      it, or listed as nobody's in its place, and none is both. */
  method AttributeAuthority(declaredBy: seq<Declared>, contents: seq<Path>)
    returns (claimed: map<Path, string>, unclaimed: seq<Path>)
    ensures forall e :: e in contents <==> e in claimed || e in unclaimed
    ensures forall e :: e in claimed ==> e !in unclaimed && Claims(declaredBy, claimed[e], e)
    ensures forall e :: e in claimed ==> Belongs(Namings(declaredBy), e, claimed[e])
    ensures forall e :: e in unclaimed ==> forall component :: !Claims(declaredBy, component, e)
    ensures unclaimed == Filter(contents, (e: Path) => e !in claimed)
  {
    var owners := OwnersOf(declaredBy);
    hide Owns, OwnerOf, Named, Claims, Attributed, Filter, Follows, Belongs, Namings;
    claimed, unclaimed := map[], [];
    AttributedNothing(owners);
    assert contents[..0] == [];
    for i := 0 to |contents|
      invariant Attributed(owners, contents[..i], claimed)
      invariant unclaimed == Filter(contents[..i], Unowned(owners))
    {
      var entry := contents[i];
      FilterAppend(contents[..i], entry, Unowned(owners));
      assert contents[..i + 1] == contents[..i] + [entry];
      var owner := OwnerOf(owners, entry);
      if owner.None? {
        AttributedToNobody(owners, contents[..i], entry, claimed);
        unclaimed := unclaimed + [entry];
      } else {
        AttributedTo(owners, contents[..i], entry, claimed);
        claimed := claimed[entry := owner.value];
      }
    }
    assert contents[..|contents|] == contents;
    OwnersClaim(declaredBy, owners);
    AttributedAll(declaredBy, owners, contents, claimed);
    AttributedBelong(owners, Namings(declaredBy), contents, claimed);
  }

  function Unowned(owners: seq<(Path, string)>): Path -> bool {
    (e: Path) => OwnerOf(owners, e).None?
  }

  /** What the report claims of the entries seen so far: all that have an owner, for it. */
  ghost predicate Attributed(owners: seq<(Path, string)>, seen: seq<Path>, claimed: map<Path, string>) {
    && (forall e :: e in claimed ==> e in seen && OwnerOf(owners, e) == Some(claimed[e]))
    && forall e :: e in seen && OwnerOf(owners, e).Some? ==> e in claimed
  }

  lemma AttributedNothing(owners: seq<(Path, string)>)
    ensures Attributed(owners, [], map[]) && Filter([], Unowned(owners)) == []
  {
  }

  lemma AttributedToNobody(owners: seq<(Path, string)>, seen: seq<Path>, entry: Path, claimed: map<Path, string>)
    requires Attributed(owners, seen, claimed) && OwnerOf(owners, entry).None?
    ensures Attributed(owners, seen + [entry], claimed)
  {
    hide OwnerOf;
    assert forall e :: e in seen + [entry] <==> e in seen || e == entry;
  }

  lemma AttributedTo(owners: seq<(Path, string)>, seen: seq<Path>, entry: Path, claimed: map<Path, string>)
    requires Attributed(owners, seen, claimed) && OwnerOf(owners, entry).Some?
    ensures Attributed(owners, seen + [entry], claimed[entry := OwnerOf(owners, entry).value])
  {
    hide OwnerOf;
    assert forall e :: e in seen + [entry] <==> e in seen || e == entry;
  }

  lemma AttributedAll(
      declaredBy: seq<Declared>, owners: seq<(Path, string)>, contents: seq<Path>, claimed: map<Path, string>)
    requires Attributed(owners, contents, claimed)
    requires forall e :: OwnerOf(owners, e).Some? ==> Claims(declaredBy, OwnerOf(owners, e).value, e)
    requires forall e, component :: OwnerOf(owners, e).None? ==> !Claims(declaredBy, component, e)
    ensures var unclaimed := Filter(contents, Unowned(owners));
            && unclaimed == Filter(contents, (e: Path) => e !in claimed)
            && (forall e :: e in contents <==> e in claimed || e in unclaimed)
            && (forall e :: e in claimed ==> e !in unclaimed && Claims(declaredBy, claimed[e], e))
            && forall e :: e in unclaimed ==> forall component :: !Claims(declaredBy, component, e)
  {
    hide OwnerOf, Claims, Filter;
    FilterAgrees(contents, Unowned(owners), (e: Path) => e !in claimed);
  }

  lemma AttributedBelong(
      owners: seq<(Path, string)>, namings: seq<(Path, string)>, seen: seq<Path>, claimed: map<Path, string>)
    requires Follows(owners, namings) && Attributed(owners, seen, claimed)
    ensures forall e :: e in claimed ==> Belongs(namings, e, claimed[e])
  {
    hide OwnerOf, Follows, Belongs;
    forall e | e in claimed ensures Belongs(namings, e, claimed[e]) {
      OwnerBelongs(owners, namings, e);
    }
  }

  lemma OwnersClaim(declaredBy: seq<Declared>, owners: seq<(Path, string)>)
    requires forall o :: o in owners ==> Named(declaredBy, o.0, o.1)
    requires forall p :: Owns(owners, p) <==> exists d :: d in declaredBy && p in d.paths
    ensures forall e :: OwnerOf(owners, e).Some? ==> Claims(declaredBy, OwnerOf(owners, e).value, e)
    ensures forall e, component :: OwnerOf(owners, e).None? ==> !Claims(declaredBy, component, e)
  {
    forall e, component | OwnerOf(owners, e).None? ensures !Claims(declaredBy, component, e) {
      forall d, p | d in declaredBy && p in d.paths ensures !SameState(e, p) {
        assert Owns(owners, p);
      }
    }
  }

  /** An entry above or at an authority path is claimed by the component whose path it is. */
  lemma AuthorityIsClaimed(c: Contract, declaredBy: seq<Declared>, s: State, entry: Path)
    requires Consistent(c) && Declared(c.componentId, c.factoryReset) in declaredBy && s in c.authority
    requires IsRelativeTo(s.path, entry)
    ensures Claims(declaredBy, c.componentId, entry)
  {
    var factory :| factory in c.factoryReset && IsRelativeTo(s.path, factory);
    if |factory| <= |entry| {
      assert entry[..|factory|] == s.path[..|factory|] == factory;
    } else {
      assert factory[..|entry|] == s.path[..|entry|] == entry;
    }
    assert SameState(entry, factory);
  }
}
