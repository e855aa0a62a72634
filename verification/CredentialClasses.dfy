/** Which credential slots have to hold one value: the connected components of the declared
    pairs, found once by union-find and once by a worklist. */
module CredentialClasses {

  datatype Slot = Slot(file: string, key: string)

  datatype Pair = Pair(left: Slot, right: Slot)

  function Slots(pairs: seq<Pair>): set<Slot> {
    (set p | p in pairs :: p.left) + (set p | p in pairs :: p.right)
  }

  // ---------------------------------------------------------------- chains of pairs

  predicate Joins(pairs: seq<Pair>, a: Slot, b: Slot) {
    Pair(a, b) in pairs || Pair(b, a) in pairs
  }

  ghost predicate IsChain(pairs: seq<Pair>, chain: seq<Slot>) {
    |chain| >= 1 && forall i :: 0 <= i < |chain| - 1 ==> Joins(pairs, chain[i], chain[i + 1])
  }

  /** A chain of pairs leads from one slot to the other. */
  ghost predicate Linked(pairs: seq<Pair>, a: Slot, b: Slot) {
    exists chain :: IsChain(pairs, chain) && chain[0] == a && chain[|chain| - 1] == b
  }

  /** Every slot that has to hold what this one holds. */
  ghost function Component(pairs: seq<Pair>, a: Slot): set<Slot> {
    set b | b in Slots(pairs) + {a} && Linked(pairs, a, b)
  }

  lemma LinkedToItself(pairs: seq<Pair>, a: Slot)
    ensures Linked(pairs, a, a)
  {
    assert IsChain(pairs, [a]);
  }

  lemma JoinedAreLinked(pairs: seq<Pair>, a: Slot, b: Slot)
    requires Joins(pairs, a, b)
    ensures Linked(pairs, a, b)
  {
    assert IsChain(pairs, [a, b]);
  }

  lemma LinkedBack(pairs: seq<Pair>, a: Slot, b: Slot)
    requires Linked(pairs, a, b)
    ensures Linked(pairs, b, a)
  {
    var c :| IsChain(pairs, c) && c[0] == a && c[|c| - 1] == b;
    var back := seq(|c|, i requires 0 <= i < |c| => c[|c| - 1 - i]);
    forall i | 0 <= i < |back| - 1 ensures Joins(pairs, back[i], back[i + 1]) {
      assert Joins(pairs, c[|c| - 2 - i], c[|c| - 2 - i + 1]);
    }
    assert IsChain(pairs, back);
  }

  lemma LinkedThrough(pairs: seq<Pair>, a: Slot, b: Slot, c: Slot)
    requires Linked(pairs, a, b) && Linked(pairs, b, c)
    ensures Linked(pairs, a, c)
  {
    var s :| IsChain(pairs, s) && s[0] == a && s[|s| - 1] == b;
    var t :| IsChain(pairs, t) && t[0] == b && t[|t| - 1] == c;
    var both := s + t[1..];
    forall i | 0 <= i < |both| - 1 ensures Joins(pairs, both[i], both[i + 1]) {
      if i < |s| - 1 {
        assert Joins(pairs, s[i], s[i + 1]);
      } else {
        assert Joins(pairs, t[i - |s| + 1], t[i - |s| + 1 + 1]);
      }
    }
    assert IsChain(pairs, both);
  }

  lemma LinkedStays(pairs: seq<Pair>, more: seq<Pair>, a: Slot, b: Slot)
    requires Linked(pairs, a, b) && forall p :: p in pairs ==> p in more
    ensures Linked(more, a, b)
  {
    var c :| IsChain(pairs, c) && c[0] == a && c[|c| - 1] == b;
    assert IsChain(more, c);
  }

  /** A set that no pair leaves is left by no chain. */
  lemma {:induction false} ChainStaysIn(pairs: seq<Pair>, chain: seq<Slot>, s: set<Slot>)
    requires IsChain(pairs, chain) && chain[0] in s
    requires forall a, b :: a in s && Joins(pairs, a, b) ==> b in s
    ensures chain[|chain| - 1] in s
    decreases |chain|
  {
    if |chain| > 1 {
      assert Joins(pairs, chain[0], chain[0 + 1]);
      var rest := chain[1..];
      forall i | 0 <= i < |rest| - 1 ensures Joins(pairs, rest[i], rest[i + 1]) {
        assert Joins(pairs, chain[i + 1], chain[i + 1 + 1]);
      }
      ChainStaysIn(pairs, rest, s);
    }
  }

  lemma ClosedHoldsComponent(pairs: seq<Pair>, a: Slot, s: set<Slot>)
    requires a in s && forall x, y :: x in s && Joins(pairs, x, y) ==> y in s
    ensures Component(pairs, a) <= s
  {
    forall b | b in Component(pairs, a) ensures b in s {
      var c :| IsChain(pairs, c) && c[0] == a && c[|c| - 1] == b;
      ChainStaysIn(pairs, c, s);
    }
  }

  // ---------------------------------------------------------------- union-find

  /** What one slot's entries in a forest say: its parent is known, shares its root, and is
      of higher rank unless the slot is a root itself. */
  ghost predicate Node(parent: map<Slot, Slot>, root: map<Slot, Slot>, rank: map<Slot, nat>, height: nat, s: Slot)
    requires parent.Keys == root.Keys == rank.Keys && s in parent
  {
    && parent[s] in parent && root[s] in parent
    && root[root[s]] == root[s] && root[parent[s]] == root[s]
    && (parent[s] == s <==> root[s] == s)
    && rank[s] <= height
    && (parent[s] != s ==> rank[s] < rank[parent[s]])
  }

  ghost predicate IsForest(parent: map<Slot, Slot>, root: map<Slot, Slot>, rank: map<Slot, nat>, height: nat) {
    && parent.Keys == root.Keys == rank.Keys
    && forall s {:trigger Node(parent, root, rank, height, s)} :: s in parent ==> Node(parent, root, rank, height, s)
  }

  lemma Planted(parent: map<Slot, Slot>, root: map<Slot, Slot>, rank: map<Slot, nat>, height: nat, slot: Slot)
    requires IsForest(parent, root, rank, height) && slot !in parent
    ensures IsForest(parent[slot := slot], root[slot := slot], rank[slot := 0], height)
  {
    forall s | s in parent ensures Node(parent[slot := slot], root[slot := slot], rank[slot := 0], height, s) {
      assert Node(parent, root, rank, height, s);
    }
  }

  /** Pointing a slot at its grandparent keeps every root and brings it closer to its own. */
  lemma Halved(parent: map<Slot, Slot>, root: map<Slot, Slot>, rank: map<Slot, nat>, height: nat, r: Slot)
    requires IsForest(parent, root, rank, height) && r in parent && parent[r] != r
    ensures parent[r] in parent && parent[parent[r]] in parent
    ensures IsForest(parent[r := parent[parent[r]]], root, rank, height)
    ensures root[parent[parent[r]]] == root[r] && rank[r] < rank[parent[parent[r]]] <= height
  {
    assert Node(parent, root, rank, height, r);
    assert Node(parent, root, rank, height, parent[r]);
    assert Node(parent, root, rank, height, parent[parent[r]]);
    var shorter := parent[r := parent[parent[r]]];
    forall s | s in shorter ensures Node(shorter, root, rank, height, s) {
      assert Node(parent, root, rank, height, s);
    }
  }

  ghost function Rerooted(root: map<Slot, Slot>, left: Slot, right: Slot): (r: map<Slot, Slot>)
    ensures r.Keys == root.Keys
  {
    map s | s in root :: if root[s] == left then right else root[s]
  }

  lemma Hung(parent: map<Slot, Slot>, root: map<Slot, Slot>, rank: map<Slot, nat>, height: nat, left: Slot, right: Slot)
    requires IsForest(parent, root, rank, height) && left in parent && right in parent && left != right
    requires root[left] == left && root[right] == right
    ensures IsForest(parent[left := right], Rerooted(root, left, right), rank[right := height + 1], height + 1)
  {
    hide Node, Rerooted;
    assert Node(parent, root, rank, height, left) && Node(parent, root, rank, height, right);
    forall s | s in parent
      ensures Node(parent[left := right], Rerooted(root, left, right), rank[right := height + 1], height + 1, s)
    {
      assert Node(parent, root, rank, height, s);
      HungNode(parent, root, rank, height, left, right, s);
    }
  }

  lemma HungNode(
      parent: map<Slot, Slot>, root: map<Slot, Slot>, rank: map<Slot, nat>, height: nat,
      left: Slot, right: Slot, s: Slot)
    requires parent.Keys == root.Keys == rank.Keys && left in parent && right in parent && s in parent
    requires root[left] == left && root[right] == right && left != right
    requires Node(parent, root, rank, height, left) && Node(parent, root, rank, height, right)
    requires Node(parent, root, rank, height, s)
    ensures Node(parent[left := right], Rerooted(root, left, right), rank[right := height + 1], height + 1, s)
  {
  }

  class Forest {
    var parent: map<Slot, Slot>
    ghost var root: map<Slot, Slot>
    ghost var rank: map<Slot, nat>
    ghost var height: nat

    ghost predicate Valid()
      reads this
    {
      IsForest(parent, root, rank, height)
    }

    constructor ()
      ensures Valid() && parent == map[] && root == map[]
    {
      parent, root, rank, height := map[], map[], map[], 0;
    }

    /** The root of a slot's tree, halving the path to it on the way. */
    method Find(slot: Slot) returns (r: Slot)
      requires Valid()
      modifies this
      ensures Valid()
      ensures root == Grown(old(root), map[slot := slot])
      ensures slot in root && r == root[slot] && r in root && root[r] == r
    {
      if slot !in parent {
        Planted(parent, root, rank, height, slot);
        parent, root, rank := parent[slot := slot], root[slot := slot], rank[slot := 0];
      }
      r := slot;
      assert Node(parent, root, rank, height, slot);
      ghost var roots, tall, ranks := root, height, rank;
      while parent[r] != r
        invariant Valid() && root == roots && height == tall && rank == ranks
        invariant r in parent && slot in root && root[r] == root[slot]
        invariant rank[r] <= height
        decreases height - rank[r]
      {
        Halved(parent, root, rank, height, r);
        parent := parent[r := parent[parent[r]]];
        r := parent[r];
      }
      assert Node(parent, root, rank, height, r);
    }

    lemma KeysAgree()
      requires Valid()
      ensures parent.Keys == root.Keys
    {
    }

    /** Hang one root under another. */
    method Union(left: Slot, right: Slot)
      requires Valid() && left in parent && right in parent
      requires root[left] == left && root[right] == right && left != right
      modifies this
      ensures Valid()
      ensures root == Rerooted(old(root), left, right)
    {
      Hung(parent, root, rank, height, left, right);
      parent := parent[left := right];
      root := Rerooted(root, left, right);
      rank := rank[right := height + 1];
      height := height + 1;
    }

    /** The known slots, one set for each root. */
    method Group() returns (classes: set<set<Slot>>)
      requires Valid()
      modifies this
      ensures Valid() && root == old(root)
      ensures classes == set s | s in root :: ClassOf(root, s)
    {
      hide IsForest;
      KeysAgree();
      var grouped: map<Slot, set<Slot>> := map[];
      var left := parent.Keys;
      while left != {}
        invariant Valid() && root == old(root) && left <= root.Keys
        invariant forall s :: s in root.Keys - left ==> root[s] in grouped
        invariant forall r :: r in grouped ==> grouped[r] == set s | s in root.Keys - left && root[s] == r
        invariant forall r :: r in grouped ==> grouped[r] != {}
        decreases left
      {
        var slot :| slot in left;
        var r := Find(slot);
        assert Grown(old(root), map[slot := slot]) == old(root);
        ghost var done := root.Keys - left;
        left := left - {slot};
        assert root.Keys - left == done + {slot};
        grouped := grouped[r := (if r in grouped then grouped[r] else {}) + {slot}];
      }
      classes := set r | r in grouped :: grouped[r];
      forall s | s in root ensures grouped[root[s]] == ClassOf(root, s) {
        assert s in root.Keys - left;
      }
      forall c | c in classes ensures exists s :: s in root && c == ClassOf(root, s) {
        var r :| r in grouped && c == grouped[r];
        var s :| s in grouped[r];
      }
    }
  }

  ghost function ClassOf(root: map<Slot, Slot>, s: Slot): set<Slot>
    requires s in root
  {
    set t | t in root && root[t] == root[s]
  }

  /** Two known slots have one root exactly when a chain of these pairs joins them. */
  ghost predicate Partition(pairs: seq<Pair>, root: map<Slot, Slot>) {
    && root.Keys == Slots(pairs)
    && forall a, b :: a in root && b in root ==> (root[a] == root[b] <==> Linked(pairs, a, b))
  }

  /** A map with the entries of `more` for keys it does not have. */
  ghost function Grown(m: map<Slot, Slot>, more: map<Slot, Slot>): (r: map<Slot, Slot>)
    ensures r.Keys == m.Keys + more.Keys
  {
    more + m
  }

  /** The roots once both slots of a pair are known. */
  ghost function Known(before: map<Slot, Slot>, p: Pair): map<Slot, Slot> {
    Grown(Grown(before, map[p.left := p.left]), map[p.right := p.right])
  }

  /** The roots once a pair is taken in: its left root hangs under its right one. */
  ghost function Taken(before: map<Slot, Slot>, p: Pair): (after: map<Slot, Slot>)
    ensures after.Keys == before.Keys + {p.left, p.right}
  {
    var known := Known(before, p);
    Rerooted(known, known[p.left], known[p.right])
  }

  /** The roots before a pair is taken in: they partition, and each is its own root. */
  ghost predicate Rooted(pairs: seq<Pair>, root: map<Slot, Slot>) {
    Partition(pairs, root) && forall s :: s in root ==> root[s] in root
  }

  /** Taking in one more pair merges the classes of its two slots and no others. */
  lemma PartitionNext(pairs: seq<Pair>, p: Pair, before: map<Slot, Slot>)
    requires Rooted(pairs, before)
    ensures Rooted(pairs + [p], Taken(before, p))
  {
    hide Linked, Slots, Taken, Rooted, Partition, Known;
    var after := Taken(before, p);
    SlotsNext(pairs, p);
    TakenIsRooted(pairs, p, before);
    RootedKeys(pairs, before);
    forall a, b | a in after && b in after ensures after[a] == after[b] <==> Linked(pairs + [p], a, b) {
      PairNext(pairs, p, before, a, b);
    }
    RootedFrom(pairs + [p], after);
  }

  lemma RootedKeys(pairs: seq<Pair>, root: map<Slot, Slot>)
    requires Rooted(pairs, root)
    ensures root.Keys == Slots(pairs)
  {
  }

  lemma RootedFrom(pairs: seq<Pair>, root: map<Slot, Slot>)
    requires root.Keys == Slots(pairs) && forall s :: s in root ==> root[s] in root
    requires forall a, b :: a in root && b in root ==> (root[a] == root[b] <==> Linked(pairs, a, b))
    ensures Rooted(pairs, root)
  {
    hide Linked, Slots;
  }

  lemma SlotsNext(pairs: seq<Pair>, p: Pair)
    ensures Slots(pairs + [p]) == Slots(pairs) + {p.left, p.right}
  {
  }

  lemma TakenIsRooted(pairs: seq<Pair>, p: Pair, before: map<Slot, Slot>)
    requires Rooted(pairs, before)
    ensures forall s :: s in Taken(before, p) ==> Taken(before, p)[s] in Taken(before, p)
  {
    hide Linked;
  }

  lemma PairNext(pairs: seq<Pair>, p: Pair, before: map<Slot, Slot>, a: Slot, b: Slot)
    requires Rooted(pairs, before) && a in Taken(before, p) && b in Taken(before, p)
    ensures Taken(before, p)[a] == Taken(before, p)[b] <==> Linked(pairs + [p], a, b)
  {
    hide Linked, Rooted, Taken;
    if Taken(before, p)[a] == Taken(before, p)[b] {
      RootsLink(pairs, p, before, a, b);
    }
    if Linked(pairs + [p], a, b) {
      RootsAgree(pairs, p, before, a, b);
    }
  }

  lemma KnownLink(pairs: seq<Pair>, p: Pair, before: map<Slot, Slot>, a: Slot, b: Slot)
    requires Rooted(pairs, before)
    requires a in Known(before, p) && b in Known(before, p) && Known(before, p)[a] == Known(before, p)[b]
    ensures Linked(pairs + [p], a, b)
  {
    hide Linked;
    if a in before && b in before {
      LinkedStays(pairs, pairs + [p], a, b);
    } else {
      assert a == b;
      LinkedToItself(pairs + [p], a);
    }
  }

  lemma RootsLink(pairs: seq<Pair>, p: Pair, before: map<Slot, Slot>, a: Slot, b: Slot)
    requires Rooted(pairs, before) && a in Taken(before, p) && b in Taken(before, p)
    requires Taken(before, p)[a] == Taken(before, p)[b]
    ensures Linked(pairs + [p], a, b)
  {
    hide Linked, Rooted;
    var more, known := pairs + [p], Known(before, p);
    if known[a] == known[b] {
      KnownLink(pairs, p, before, a, b);
    } else {
      var x := if known[a] == known[p.left] then p.left else p.right;
      var y := if known[a] == known[p.left] then p.right else p.left;
      assert Joins(more, x, y);
      KnownLink(pairs, p, before, a, x);
      KnownLink(pairs, p, before, y, b);
      JoinedAreLinked(more, x, y);
      LinkedThrough(more, a, x, y);
      LinkedThrough(more, a, y, b);
    }
  }

  lemma RootsAgree(pairs: seq<Pair>, p: Pair, before: map<Slot, Slot>, a: Slot, b: Slot)
    requires Rooted(pairs, before) && a in Taken(before, p) && b in Taken(before, p) && Linked(pairs + [p], a, b)
    ensures Taken(before, p)[a] == Taken(before, p)[b]
  {
    hide Linked, Partition, Slots, Rooted, Taken, Joins;
    var after := Taken(before, p);
    forall x, y | x in after && Joins(pairs + [p], x, y) ensures y in after && after[y] == after[x] {
      JoinedShareRoot(pairs, p, before, x, y);
    }
    LinkedKeeps(pairs + [p], after, a, b);
  }

  lemma JoinedShareRoot(pairs: seq<Pair>, p: Pair, before: map<Slot, Slot>, x: Slot, y: Slot)
    requires Rooted(pairs, before) && x in Taken(before, p) && Joins(pairs + [p], x, y)
    ensures y in Taken(before, p) && Taken(before, p)[y] == Taken(before, p)[x]
  {
    hide Linked, Partition, Slots, Rooted;
    if Joins(pairs, x, y) {
      SameRoot(pairs, before, x, y);
    } else {
      assert p == Pair(x, y) || p == Pair(y, x);
    }
  }

  lemma SameRoot(pairs: seq<Pair>, root: map<Slot, Slot>, x: Slot, y: Slot)
    requires Rooted(pairs, root) && Joins(pairs, x, y)
    ensures x in root && y in root && root[x] == root[y]
  {
    JoinedAreLinked(pairs, x, y);
    assert x in Slots(pairs) && y in Slots(pairs);
  }

  /** What no pair changes, no chain changes. */
  lemma LinkedKeeps<T>(pairs: seq<Pair>, m: map<Slot, T>, a: Slot, b: Slot)
    requires a in m && Linked(pairs, a, b)
    requires forall x, y :: x in m && Joins(pairs, x, y) ==> y in m && m[y] == m[x]
    ensures b in m && m[b] == m[a]
  {
    var c :| IsChain(pairs, c) && c[0] == a && c[|c| - 1] == b;
    ChainStaysIn(pairs, c, set s | s in m && m[s] == m[a]);
  }

  /** Every declared slot, grouped by the value it shares: the connected components of the
      pair table, for any table. */
  method DeclaredClasses(pairs: seq<Pair>) returns (classes: set<set<Slot>>)
    ensures classes == set s | s in Slots(pairs) :: Component(pairs, s)
  {
    hide Rooted, IsForest, Linked, Taken, Grown, Known, Rerooted;
    var forest := new Forest();
    NothingIsPartitioned();
    assert pairs[..0] == [];
    for i := 0 to |pairs|
      invariant forest.Valid() && fresh(forest)
      invariant Rooted(pairs[..i], forest.root)
    {
      ghost var before := forest.root;
      var p := pairs[i];
      var left := forest.Find(p.left);
      GrownKeeps(forest.root, map[p.right := p.right], left);
      var right := forest.Find(p.right);
      TakenByUnion(before, p);
      if left != right {
        forest.KeysAgree();
        forest.Union(left, right);
      }
      assert forest.root == Taken(before, p);
      PartitionNext(pairs[..i], p, before);
      assert pairs[..i + 1] == pairs[..i] + [p];
    }
    assert pairs[..|pairs|] == pairs;
    classes := forest.Group();
    ClassesAreComponents(pairs, forest.root, classes);
  }

  /** Finding both slots, and hanging one root under the other when they differ, takes the
      pair in. */
  lemma TakenByUnion(before: map<Slot, Slot>, p: Pair)
    ensures var known := Grown(Grown(before, map[p.left := p.left]), map[p.right := p.right]);
            && p.left in known && p.right in known
            && Grown(before, map[p.left := p.left])[p.left] == known[p.left]
            && Taken(before, p) == Rerooted(known, known[p.left], known[p.right])
            && (known[p.left] == known[p.right] ==> Taken(before, p) == known)
  {
  }

  lemma GrownKeeps(m: map<Slot, Slot>, more: map<Slot, Slot>, s: Slot)
    requires s in m
    ensures Grown(m, more)[s] == m[s]
  {
  }

  lemma NothingIsPartitioned()
    ensures Rooted([], map[])
  {
  }

  lemma ClassesAreComponents(pairs: seq<Pair>, root: map<Slot, Slot>, classes: set<set<Slot>>)
    requires Rooted(pairs, root) && classes == set s | s in root :: ClassOf(root, s)
    ensures classes == set s | s in Slots(pairs) :: Component(pairs, s)
  {
    hide Linked;
    forall s | s in root ensures ClassOf(root, s) == Component(pairs, s) {
      ClassIsComponent(pairs, root, s);
    }
    assert root.Keys == Slots(pairs);
  }

  lemma ClassIsComponent(pairs: seq<Pair>, root: map<Slot, Slot>, s: Slot)
    requires Rooted(pairs, root) && s in root
    ensures ClassOf(root, s) == Component(pairs, s)
  {
    hide Linked;
    assert Slots(pairs) + {s} == root.Keys;
    assert forall t :: t in root ==> (t in ClassOf(root, s) <==> t in Component(pairs, s));
  }

  // ---------------------------------------------------------------- the worklist

  ghost function Partners(pairs: seq<Pair>, a: Slot): set<Slot> {
    set b | b in Slots(pairs) && Joins(pairs, a, b)
  }

  ghost predicate ArePartners(pairs: seq<Pair>, partners: map<Slot, set<Slot>>) {
    && partners.Keys == Slots(pairs)
    && forall a :: a in partners ==> partners[a] == Partners(pairs, a)
  }

  method PartnersOf(pairs: seq<Pair>) returns (partners: map<Slot, set<Slot>>)
    ensures partners.Keys == Slots(pairs)
    ensures forall a :: a in partners ==> partners[a] == Partners(pairs, a)
  {
    partners := map[];
    for i := 0 to |pairs|
      invariant ArePartners(pairs[..i], partners)
    {
      hide ArePartners;
      var p := pairs[i];
      assert pairs[..i + 1] == pairs[..i] + [p];
      PartnersNext(pairs[..i], p, partners);
      partners := partners[p.left := (if p.left in partners then partners[p.left] else {}) + {p.right}];
      partners := partners[p.right := (if p.right in partners then partners[p.right] else {}) + {p.left}];
    }
    assert pairs[..|pairs|] == pairs;
  }

  lemma PartnersNext(pairs: seq<Pair>, p: Pair, partners: map<Slot, set<Slot>>)
    requires ArePartners(pairs, partners)
    ensures var once := partners[p.left := (if p.left in partners then partners[p.left] else {}) + {p.right}];
            ArePartners(pairs + [p], once[p.right := (if p.right in once then once[p.right] else {}) + {p.left}])
  {
    var once := partners[p.left := (if p.left in partners then partners[p.left] else {}) + {p.right}];
    var twice := once[p.right := (if p.right in once then once[p.right] else {}) + {p.left}];
    SlotsNext(pairs, p);
    forall a | a in twice ensures twice[a] == Partners(pairs + [p], a) {
      PartnersOfOne(pairs, p, a);
    }
    hide Slots, Partners;
  }

  lemma PartnersOfOne(pairs: seq<Pair>, p: Pair, a: Slot)
    ensures Partners(pairs + [p], a)
         == Partners(pairs, a) + (if a == p.left then {p.right} else {}) + (if a == p.right then {p.left} else {})
    ensures a !in Slots(pairs) ==> Partners(pairs, a) == {}
  {
  }

  /** Every slot that shares the value of this one, by searching outwards. */
  method SharedGroup(pairs: seq<Pair>, node: Slot) returns (found: set<Slot>)
    ensures found == Component(pairs, node)
  {
    hide Linked;
    var partners := PartnersOf(pairs);
    found := {node};
    var pending := [node];
    LinkedToItself(pairs, node);
    ghost var all := Slots(pairs) + {node};
    while pending != []
      invariant node in found && found <= all
      invariant forall s :: s in found ==> Linked(pairs, node, s)
      invariant forall s :: s in pending ==> s in found
      invariant forall s, t :: s in found && s !in pending && Joins(pairs, s, t) ==> t in found
      decreases all - found, |pending|
    {
      var at := pending[|pending| - 1];
      ghost var rest := pending[..|pending| - 1];
      pending := pending[..|pending| - 1];
      var peers := if at in partners then partners[at] else {};
      assert forall t :: Joins(pairs, at, t) ==> at in Slots(pairs) && t in peers;
      ghost var start := found;
      while peers != {}
        invariant node in found && start <= found <= all
        invariant forall s :: s in found ==> Linked(pairs, node, s)
        invariant forall s :: s in pending ==> s in found
        invariant peers <= Partners(pairs, at)
        invariant forall t :: Joins(pairs, at, t) ==> t in found || t in peers
        invariant forall s, t :: s in found && s != at && s !in pending && Joins(pairs, s, t) ==> t in found
        invariant found == start ==> pending == rest
        decreases peers
      {
        var peer :| peer in peers;
        peers := peers - {peer};
        if peer !in found {
          JoinedAreLinked(pairs, at, peer);
          LinkedThrough(pairs, node, at, peer);
          found := found + {peer};
          pending := pending + [peer];
        }
      }
    }
    ClosedHoldsComponent(pairs, node, found);
  }

  /** The slots a repair copies a value over are the slots the Host is aligned to: what the
      worklist finds from a declared slot is the one class the partition puts it in. */
  lemma GroupIsItsClass(pairs: seq<Pair>, node: Slot)
    requires node in Slots(pairs)
    ensures var classes := set s | s in Slots(pairs) :: Component(pairs, s);
            && Component(pairs, node) in classes
            && forall c :: c in classes && node in c ==> c == Component(pairs, node)
  {
    ComponentsAreDisjoint(pairs, node);
  }

  lemma ComponentsAreDisjoint(pairs: seq<Pair>, a: Slot)
    requires a in Slots(pairs)
    ensures a in Component(pairs, a)
    ensures forall b :: b in Slots(pairs) && a in Component(pairs, b) ==> Component(pairs, b) == Component(pairs, a)
  {
    LinkedToItself(pairs, a);
    forall b | b in Slots(pairs) && a in Component(pairs, b) ensures Component(pairs, b) == Component(pairs, a) {
      LinkedBack(pairs, b, a);
      forall c | c in Slots(pairs) ensures Linked(pairs, b, c) <==> Linked(pairs, a, c) {
        if Linked(pairs, b, c) {
          LinkedThrough(pairs, a, b, c);
        }
        if Linked(pairs, a, c) {
          LinkedThrough(pairs, b, a, c);
        }
      }
    }
  }
}
