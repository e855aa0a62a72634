/** One component's operations contract, and what of it a Host with given capabilities gets.

    A contract is already schema-checked here: `ports` is a table keyed by role, kept in
    the order it was written. */
module ComponentContract {
  import opened Common
  import opened Paths

  datatype Unit = Unit(
    id: string, requires_: seq<string>, after: seq<string>, serves: seq<string>,
    capability: Option<string>, socketActivated: bool)

  datatype Port = Port(role: string, number: int)

  datatype Input = Input(name: string, installPath: Path, requiredBy: seq<string>)

  datatype Artifact = Artifact(id: string, capability: Option<string>)

  datatype State = State(path: Path, quiesceUnits: seq<string>)

  datatype Contract = Contract(
    componentId: string, units: seq<Unit>, ports: seq<Port>, inputs: seq<Input>,
    artifacts: seq<Artifact>, authority: seq<State>, factoryReset: seq<Path>)

  const HOST_CAPABILITIES: set<string> :=
    {"rknpu2", "local_asr", "local_tts", "local_llm", "local_laya", "local_laya_participation"}

  // ---------------------------------------------------------------- sequences by comprehension

  function Filter<T(!new)>(s: seq<T>, keep: T -> bool): (r: seq<T>)
    ensures forall x :: x in r <==> x in s && keep(x)
  {
    if s == [] then [] else (if keep(s[0]) then [s[0]] else []) + Filter(s[1..], keep)
  }

  lemma FilterCons<T(!new)>(x: T, rest: seq<T>, keep: T -> bool)
    ensures Filter([x] + rest, keep) == (if keep(x) then [x] else []) + Filter(rest, keep)
  {
    assert ([x] + rest)[0] == x && ([x] + rest)[1..] == rest;
  }

  lemma FilterNone<T(!new)>(keep: T -> bool)
    ensures Filter([], keep) == []
  {
  }

  lemma FilterOne<T(!new)>(x: T, keep: T -> bool)
    ensures Filter([x], keep) == if keep(x) then [x] else []
  {
    hide Filter;
    FilterCons(x, [], keep);
    FilterNone(keep);
    assert [x] + [] == [x];
  }

  lemma {:induction false} FilterAppend<T(!new)>(s: seq<T>, x: T, keep: T -> bool)
    ensures Filter(s + [x], keep) == if keep(x) then Filter(s, keep) + [x] else Filter(s, keep)
  {
    hide Filter;
    FilterNone(keep);
    if s == [] {
      assert s + [x] == [x] && [] + [x] == [x];
      FilterOne(x, keep);
    } else {
      assert s == [s[0]] + s[1..] && s + [x] == [s[0]] + (s[1..] + [x]);
      FilterAppend(s[1..], x, keep);
      FilterCons(s[0], s[1..], keep);
      FilterCons(s[0], s[1..] + [x], keep);
    }
  }

  lemma {:induction false} FilterTwice<T(!new)>(s: seq<T>, p: T -> bool, q: T -> bool, both: T -> bool)
    requires forall x :: x in s ==> (both(x) <==> p(x) && q(x))
    ensures Filter(Filter(s, p), q) == Filter(s, both)
  {
    hide Filter;
    if s == [] {
      FilterNone(p);
      FilterNone(q);
      FilterNone(both);
    } else {
      var x, rest := s[0], s[1..];
      assert s == [x] + rest && x in s;
      FilterTwice(rest, p, q, both);
      FilterCons(x, rest, p);
      FilterCons(x, rest, both);
      FilterCons(x, Filter(rest, p), q);
      assert [] + Filter(rest, p) == Filter(rest, p) && [] + Filter(rest, both) == Filter(rest, both);
    }
  }

  /** Two filters of one sequence agree exactly when they keep the same of its elements. */
  lemma {:induction false} FilterSame<T(!new)>(s: seq<T>, p: T -> bool, q: T -> bool)
    ensures Filter(s, p) == Filter(s, q) <==> forall x :: x in s ==> (p(x) <==> q(x))
  {
    if forall x :: x in s ==> (p(x) <==> q(x)) {
      FilterAgrees(s, p, q);
    } else {
      var x :| x in s && p(x) != q(x);
      assert x in Filter(s, p) <==> p(x);
      assert x in Filter(s, q) <==> q(x);
    }
  }

  lemma {:induction false} FilterAgrees<T(!new)>(s: seq<T>, p: T -> bool, q: T -> bool)
    requires forall x :: x in s ==> (p(x) <==> q(x))
    ensures Filter(s, p) == Filter(s, q)
  {
    if s != [] {
      assert s[0] in s;
      FilterAgrees(s[1..], p, q);
    }
  }

  lemma {:induction false} FilterAll<T(!new)>(s: seq<T>)
    ensures Filter(s, x => true) == s
  {
    if s != [] {
      FilterAll(s[1..]);
    }
  }

  // ---------------------------------------------------------------- selection

  function UnitIds(units: seq<Unit>): set<string> {
    set u | u in units :: u.id
  }

  function Roles(units: seq<Unit>): set<string> {
    set u, r | u in units && r in u.serves :: r
  }

  predicate Wanted(capability: Option<string>, capabilities: set<string>) {
    capability.None? || capability.value in capabilities
  }

  function Units(capabilities: set<string>): Unit -> bool {
    (u: Unit) => Wanted(u.capability, capabilities)
  }

  function Artifacts(capabilities: set<string>): Artifact -> bool {
    (a: Artifact) => Wanted(a.capability, capabilities)
  }

  function StillServed(served: set<string>, wasServed: set<string>): Port -> bool {
    (p: Port) => p.role in served || p.role !in wasServed
  }

  function StillRequired(kept: set<string>): Input -> bool {
    (i: Input) => i.requiredBy == [] || exists u :: u in i.requiredBy && u in kept
  }

  /** The contract left once ports and inputs that no kept unit accounts for are gone. */
  function DropOrphans(c: Contract, declared: Contract, kept: set<string>): Contract {
    c.(ports := Filter(c.ports, StillServed(Roles(c.units), Roles(declared.units))),
       inputs := Filter(c.inputs, StillRequired(kept)))
  }

  function Selected(c: Contract, capabilities: set<string>): Contract {
    var chosen := c.(units := Filter(c.units, Units(capabilities)),
                     artifacts := Filter(c.artifacts, Artifacts(capabilities)));
    var kept := UnitIds(chosen.units);
    if kept != UnitIds(c.units) then DropOrphans(chosen, c, kept) else chosen
  }

  /** An entry asking for a capability nobody defined. */
  predicate AsksUnknown(c: Contract) {
    || (exists u :: u in c.units && u.capability.Some? && u.capability.value !in HOST_CAPABILITIES)
    || (exists a :: a in c.artifacts && a.capability.Some? && a.capability.value !in HOST_CAPABILITIES)
  }

  /** Nothing in the contract asks for a capability that is not one a Host can have. */
  ghost predicate AsksKnown(c: Contract) {
    && (forall u :: u in c.units && u.capability.Some? ==> u.capability.value in HOST_CAPABILITIES)
    && forall a :: a in c.artifacts && a.capability.Some? ==> a.capability.value in HOST_CAPABILITIES
  }

  /** Selection as the loader performs it: an unknown capability is refused. */
  function Select(c: Contract, capabilities: set<string>): Option<Contract> {
    if AsksUnknown(c) then None else Some(Selected(c, capabilities))
  }

  // ---------------------------------------------------------------- what selection keeps

  /** The contract's four filters, for the units kept. */
  function Filtered(c: Contract, capabilities: set<string>): Contract {
    var units := Filter(c.units, Units(capabilities));
    c.(units := units, artifacts := Filter(c.artifacts, Artifacts(capabilities)),
       ports := Filter(c.ports, StillServed(Roles(units), Roles(c.units))),
       inputs := Filter(c.inputs, StillRequired(UnitIds(units))))
  }

  /** Some declared port was served by units that are dropped, and by none that is kept. */
  predicate Orphans(c: Contract, capabilities: set<string>) {
    exists p :: p in c.ports && p.role in Roles(c.units) && p.role !in Roles(Filter(c.units, Units(capabilities)))
  }

  /** Dropping units changes the set of ids. */
  predicate Drops(c: Contract, capabilities: set<string>) {
    UnitIds(Filter(c.units, Units(capabilities))) != UnitIds(c.units)
  }

  predicate Telling(c: Contract, capabilities: set<string>) {
    Orphans(c, capabilities) ==> Drops(c, capabilities)
  }

  ghost predicate DeclaredOnce(c: Contract) {
    forall i, j :: 0 <= i < j < |c.units| ==> c.units[i].id != c.units[j].id
  }

  /** What inputs require and units serve is this component's own. */
  ghost predicate OwnNames(c: Contract) {
    && (forall i, u :: i in c.inputs && u in i.requiredBy ==> u in UnitIds(c.units))
    && forall u, r :: u in c.units && r in u.serves ==> exists p :: p in c.ports && p.role == r
  }

  lemma FewerUnits(c: Contract, capabilities: set<string>)
    ensures var units := Filter(c.units, Units(capabilities));
            Roles(units) <= Roles(c.units) && UnitIds(units) <= UnitIds(c.units)
  {
  }

  /** What one selection does to the ports: nothing when the ids are all still there. */
  lemma SelectedPorts(c: Contract, capabilities: set<string>)
    ensures var r := Selected(c, capabilities);
            && r.units == Filter(c.units, Units(capabilities))
            && r.artifacts == Filter(c.artifacts, Artifacts(capabilities))
            && r.ports == (if Drops(c, capabilities) then Filtered(c, capabilities).ports else c.ports)
            && r.inputs == (if Drops(c, capabilities) then Filtered(c, capabilities).inputs else c.inputs)
  {
  }

  lemma NoOrphans(c: Contract, capabilities: set<string>)
    ensures Filtered(c, capabilities).ports == c.ports <==> !Orphans(c, capabilities)
  {
    var served := Roles(Filter(c.units, Units(capabilities)));
    FilterAll(c.ports);
    FilterSame(c.ports, StillServed(served, Roles(c.units)), x => true);
  }

  lemma InputsStay(c: Contract, capabilities: set<string>)
    requires (forall i, u :: i in c.inputs && u in i.requiredBy ==> u in UnitIds(c.units)) && !Drops(c, capabilities)
    ensures Filtered(c, capabilities).inputs == c.inputs
  {
    FilterAll(c.inputs);
    assert forall i: Input :: i.requiredBy != [] ==> i.requiredBy[0] in i.requiredBy;
    FilterAgrees(c.inputs, StillRequired(UnitIds(c.units)), x => true);
  }

  /** Selection is the four filters exactly when a dropped unit that orphans a port shows in
      the ids. */
  lemma SelectedByFiltersIff(c: Contract, capabilities: set<string>)
    requires OwnNames(c)
    ensures Selected(c, capabilities) == Filtered(c, capabilities) <==> Telling(c, capabilities)
  {
    hide Filtered, Selected, Orphans, Drops;
    SelectedPorts(c, capabilities);
    NoOrphans(c, capabilities);
    SameRest(c, capabilities);
    if !Drops(c, capabilities) {
      InputsStay(c, capabilities);
    }
  }

  lemma SameRest(c: Contract, capabilities: set<string>)
    ensures var r, f := Selected(c, capabilities), Filtered(c, capabilities);
            && r == c.(units := r.units, artifacts := r.artifacts, ports := r.ports, inputs := r.inputs)
            && f == c.(units := r.units, artifacts := r.artifacts, ports := f.ports, inputs := f.inputs)
  {
  }

  /** Units and artifacts of two selections, and how their roles and ids lie in one another. */
  lemma SelectedTwice(c: Contract, a: set<string>, b: set<string>)
    ensures var once, both := Filter(c.units, Units(a)), Filter(c.units, Units(a * b));
            && Filter(once, Units(b)) == both
            && Filter(Filter(c.artifacts, Artifacts(a)), Artifacts(b)) == Filter(c.artifacts, Artifacts(a * b))
            && Roles(both) <= Roles(once) <= Roles(c.units)
            && UnitIds(both) <= UnitIds(once) <= UnitIds(c.units)
  {
    FilterTwice(c.units, Units(a), Units(b), Units(a * b));
    FilterTwice(c.artifacts, Artifacts(a), Artifacts(b), Artifacts(a * b));
    FewerUnits(c, a);
    var once := Selected(c, a);
    FewerUnits(once, b);
  }

  /** Each selection tells, or the other one drops nothing either. */
  predicate Composes(c: Contract, a: set<string>, b: set<string>) {
    var once := Selected(c, a);
    (Telling(c, a) || !Drops(once, b)) && (Telling(once, b) || !Drops(c, a))
  }

  lemma InputsCompose(c: Contract, a: set<string>, b: set<string>)
    ensures Selected(Selected(c, a), b).inputs == Selected(c, a * b).inputs
  {
    SelectedTwice(c, a, b);
    hide Filter;
    var kept, left := UnitIds(Filter(c.units, Units(a))), UnitIds(Filter(c.units, Units(a * b)));
    FilterTwice(c.inputs, StillRequired(kept), StillRequired(left), StillRequired(left));
  }

  lemma PortsCompose(c: Contract, a: set<string>, b: set<string>)
    ensures Selected(Selected(c, a), b).ports == Selected(c, a * b).ports <==> Composes(c, a, b)
  {
    SelectedTwice(c, a, b);
    var once := Selected(c, a);
    var declared, kept, left := Roles(c.units), Roles(once.units), Roles(Filter(c.units, Units(a * b)));
    SelectedPorts(c, a);
    SelectedPorts(once, b);
    SelectedPorts(c, a * b);
    hide Filter, Selected;
    if Drops(c, a) && Drops(once, b) {
      FilterTwice(c.ports, StillServed(kept, declared), StillServed(left, kept), StillServed(left, declared));
    } else if Drops(c, a) {
      FilterSame(c.ports, StillServed(kept, declared), StillServed(left, declared));
    } else if Drops(once, b) {
      FilterSame(c.ports, StillServed(left, kept), StillServed(left, declared));
    }
  }

  /** Selecting for one Host and then another is selecting for what both offer, exactly when
      no selection orphans a port without showing it while the other one drops units. */
  lemma SelectIsAHomomorphismIff(c: Contract, a: set<string>, b: set<string>)
    ensures Selected(Selected(c, a), b) == Selected(c, a * b) <==> Composes(c, a, b)
  {
    PortsCompose(c, a, b);
    OnlyPortsDiffer(c, a, b);
    hide Selected, Composes;
  }

  /** Selecting again for the same Host changes nothing. */
  lemma SelectIsIdempotent(c: Contract, a: set<string>)
    ensures Selected(Selected(c, a), a) == Selected(c, a)
  {
    SelectIsAHomomorphismIff(c, a, a);
    SelectedTwice(c, a, a);
    assert a * a == a;
  }

  /** The ports one selection withdraws: those only dropped units served, once the drop shows. */
  predicate Gone(c: Contract, capabilities: set<string>, role: string) {
    GoneBetween(c.units, Filter(c.units, Units(capabilities)), role)
  }

  predicate GoneBetween(units: seq<Unit>, kept: seq<Unit>, role: string) {
    UnitIds(kept) != UnitIds(units) && role in Roles(units) && role !in Roles(kept)
  }

  /** The ports withdrawn by the first selection or, from its units to those of both, by the
      second. */
  predicate GoneInTurn(c: Contract, a: set<string>, b: set<string>, role: string) {
    var once, both := Filter(c.units, Units(a)), Filter(c.units, Units(a * b));
    GoneBetween(c.units, once, role) || GoneBetween(once, both, role)
  }

  lemma PortsLeft(c: Contract, capabilities: set<string>)
    ensures Selected(c, capabilities).ports == Filter(c.ports, (p: Port) => !Gone(c, capabilities, p.role))
  {
    SelectedPorts(c, capabilities);
    var left := (p: Port) => !Gone(c, capabilities, p.role);
    var served := Roles(Filter(c.units, Units(capabilities)));
    if Drops(c, capabilities) {
      FilterAgrees(c.ports, left, StillServed(served, Roles(c.units)));
    } else {
      FilterAll(c.ports);
      FilterAgrees(c.ports, left, x => true);
    }
  }

  lemma PortsLeftTwice(c: Contract, a: set<string>, b: set<string>)
    ensures Selected(Selected(c, a), b).ports == Filter(c.ports, (p: Port) => !GoneInTurn(c, a, b, p.role))
  {
    PortsLeft(c, a);
    PortsLeft(Selected(c, a), b);
    SelectedPorts(c, a);
    SelectedTwice(c, a, b);
    hide Filter, Selected, GoneBetween;
    FilterTwice(c.ports, (p: Port) => !Gone(c, a, p.role), (p: Port) => !Gone(Selected(c, a), b, p.role),
                (p: Port) => !GoneInTurn(c, a, b, p.role));
  }

  /** The order of two selections matters to nothing but ports, and to none exactly when each
      declared port goes in one order if it goes in the other. */
  lemma SelectCommutesIff(c: Contract, a: set<string>, b: set<string>)
    ensures var ab, ba := Selected(Selected(c, a), b), Selected(Selected(c, b), a);
            && ab == ba.(ports := ab.ports)
            && (ab == ba <==>
                forall p :: p in c.ports ==> (GoneInTurn(c, a, b, p.role) <==> GoneInTurn(c, b, a, p.role)))
  {
    assert a * b == b * a;
    OnlyPortsDiffer(c, a, b);
    OnlyPortsDiffer(c, b, a);
    PortsLeftTwice(c, a, b);
    PortsLeftTwice(c, b, a);
    hide Filter, Selected, GoneInTurn;
    FilterSame(c.ports, (p: Port) => !GoneInTurn(c, a, b, p.role), (p: Port) => !GoneInTurn(c, b, a, p.role));
  }

  lemma OnlyPortsDiffer(c: Contract, a: set<string>, b: set<string>)
    ensures Selected(Selected(c, a), b) == Selected(c, a * b).(ports := Selected(Selected(c, a), b).ports)
  {
    SelectedTwice(c, a, b);
    InputsCompose(c, a, b);
    SameRest(c, a);
    SameRest(Selected(c, a), b);
    SameRest(c, a * b);
    SelectedPorts(c, a);
    SelectedPorts(Selected(c, a), b);
    SelectedPorts(c, a * b);
    hide Selected, Filter, Filtered, Drops;
  }

  lemma SameIdSameUnit(c: Contract, u: Unit, v: Unit)
    requires DeclaredOnce(c) && u in c.units && v in c.units && u.id == v.id
    ensures u == v
  {
  }

  /** Units with ids of their own are never dropped unnoticed. */
  lemma DeclaredOnceTells(c: Contract, capabilities: set<string>)
    requires DeclaredOnce(c)
    ensures Telling(c, capabilities) && forall b :: Telling(Selected(c, capabilities), b)
  {
    KeptIdsKeepUnits(c, c.units, capabilities);
    forall b ensures Telling(Selected(c, capabilities), b) {
      KeptIdsKeepUnits(c, Selected(c, capabilities).units, b);
    }
  }

  lemma KeptIdsKeepUnits(c: Contract, units: seq<Unit>, capabilities: set<string>)
    requires DeclaredOnce(c) && forall u :: u in units ==> u in c.units
    ensures var kept := Filter(units, Units(capabilities));
            UnitIds(kept) == UnitIds(units) ==> Roles(kept) == Roles(units)
  {
    var kept := Filter(units, Units(capabilities));
    if UnitIds(kept) == UnitIds(units) {
      forall u | u in units ensures u in kept {
        assert u.id in UnitIds(units);
        var v :| v in kept && v.id == u.id;
        SameIdSameUnit(c, u, v);
      }
    }
  }

  /** For a contract that declares each unit once, selection is a homomorphism, and the
      order of selections does not matter. */
  lemma SelectIsAHomomorphism(c: Contract, a: set<string>, b: set<string>)
    requires DeclaredOnce(c)
    ensures Selected(Selected(c, a), b) == Selected(c, a * b) == Selected(Selected(c, b), a)
  {
    DeclaredOnceTells(c, a);
    DeclaredOnceTells(c, b);
    SelectIsAHomomorphismIff(c, a, b);
    SelectIsAHomomorphismIff(c, b, a);
    assert a * b == b * a;
  }

  /** Selection keeps exactly the units and artifacts that ask for nothing, or for something the
      Host offers, and everything else a contract says about state. */
  lemma SelectionKeepsTheWanted(c: Contract, capabilities: set<string>)
    ensures var r := Selected(c, capabilities);
            && (forall u :: u in r.units <==>
                  u in c.units && (u.capability == None || exists x :: x in capabilities && u.capability == Some(x)))
            && (forall a :: a in r.artifacts <==>
                  a in c.artifacts
                  && (a.capability == None || exists x :: x in capabilities && a.capability == Some(x)))
            && (forall p :: p in r.ports ==> p in c.ports) && (forall i :: i in r.inputs ==> i in c.inputs)
            && r.componentId == c.componentId && r.authority == c.authority && r.factoryReset == c.factoryReset
            && |r.units| <= |c.units| && |r.artifacts| <= |c.artifacts|
  {
    FilterShortens(c.units, Units(capabilities));
    FilterShortens(c.artifacts, Artifacts(capabilities));
    SelectedPorts(c, capabilities);
  }

  lemma {:induction false} FilterShortens<T(!new)>(s: seq<T>, keep: T -> bool)
    ensures |Filter(s, keep)| <= |s|
  {
    if s != [] {
      FilterShortens(s[1..], keep);
    }
  }

  /** A surviving unit's ports survive with it, and an input goes exactly when only dropped
      units required it, whatever the contract; a port goes exactly when only dropped units
      served it, if and only if the selection tells. */
  lemma SurvivorsKeepWhatTheyServe(c: Contract, capabilities: set<string>)
    requires OwnNames(c)
    ensures var r := Selected(c, capabilities);
            && (forall u, role :: u in r.units && role in u.serves ==> exists p :: p in r.ports && p.role == role)
            && (forall i :: i in c.inputs ==>
                 (i !in r.inputs <==> i.requiredBy != [] && forall u :: u in i.requiredBy ==> u !in UnitIds(r.units)))
            && ((forall p :: p in c.ports ==>
                   (p !in r.ports <==> p.role in Roles(c.units) && p.role !in Roles(r.units)))
                <==> Telling(c, capabilities))
  {
    var r := Selected(c, capabilities);
    SelectedPorts(c, capabilities);
    FewerUnits(c, capabilities);
    forall u, role | u in r.units && role in u.serves ensures exists p :: p in r.ports && p.role == role {
      var p :| p in c.ports && p.role == role;
      assert role in Roles(r.units);
    }
    forall i | i in c.inputs
      ensures i !in r.inputs <==> i.requiredBy != [] && forall u :: u in i.requiredBy ==> u !in UnitIds(r.units)
    {
      if !Drops(c, capabilities) && i.requiredBy != [] {
        assert i.requiredBy[0] in i.requiredBy;
      }
    }
  }

  /** A contract that declares one id twice, for every Host and for Hosts of one capability,
      the latter serving its one port, besides other units. */
  function Doubled(id: string, role: string, capability: string, others: seq<Unit>): Contract {
    Contract("", [Unit(id, [], [], [], None, false), Unit(id, [], [], [role], Some(capability), false)] + others,
             [Port(role, 1)], [], [], [], [])
  }

  /** One id declared twice hides a dropped unit: its port stays. */
  lemma SharedIdHidesADrop(id: string, role: string, capability: string)
    ensures var c := Doubled(id, role, capability, []);
            && Consistent(c) && !Telling(c, {})
            && Selected(c, {}).ports == c.ports && Filtered(c, {}).ports == []
  {
    var plain, serving := Unit(id, [], [], [], None, false), Unit(id, [], [], [role], Some(capability), false);
    var c := Doubled(id, role, capability, []);
    DoubledIsConsistent(id, role, capability);
    hide Filter, UnitIds, Roles, Selected, Consistent;
    assert c.units == [plain, serving];
    KeptOfThree(plain, serving, serving.(id := id + "s"), {});
    TheirIdsAndRoles(plain, serving, plain.(id := id + "s"), role);
    SelectedPorts(c, {});
    FilterOne(Port(role, 1), StillServed(Roles([plain]), Roles(c.units)));
    NoOrphans(c, {});
    hide Units, Artifacts;
  }

  lemma DoubledIsConsistent(id: string, role: string, capability: string)
    ensures Consistent(Doubled(id, role, capability, []))
  {
    var c := Doubled(id, role, capability, []);
    assert c.ports[0] in c.ports;
  }

  /** And when another unit is dropped with it, the port stays or goes with the order in
      which the two are dropped. */
  lemma SharedIdDoesNotCompose(id: string, role: string, capability: string, other: string, second: string)
    requires id != other && capability != second
    ensures var c := Doubled(id, role, capability, [Unit(other, [], [], [], Some(second), false)]);
            && Selected(c, {capability} * {}).ports == []
            && Selected(Selected(c, {capability}), {}).ports == c.ports
  {
    var plain, serving := Unit(id, [], [], [], None, false), Unit(id, [], [], [role], Some(capability), false);
    var more := Unit(other, [], [], [], Some(second), false);
    var c := Doubled(id, role, capability, [more]);
    assert c.units == [plain, serving, more] && {capability} * {} == {};
    KeptOfThree(plain, serving, more, {});
    KeptOfThree(plain, serving, more, {capability});
    TheirIdsAndRoles(plain, serving, more, role);
    hide Filter, UnitIds, Roles, Selected, Units, Artifacts;
    SelectedPorts(c, {capability});
    SelectedPorts(Selected(c, {capability}), {});
    SelectedPorts(c, {});
    FilterOne(Port(role, 1), StillServed(Roles([plain]), Roles(c.units)));
    FilterOne(Port(role, 1), StillServed(Roles([plain, serving]), Roles(c.units)));
  }

  lemma KeptOfThree(x: Unit, y: Unit, z: Unit, capabilities: set<string>)
    requires x.capability == None && (forall u :: u in [y, z] ==> u.capability.Some?)
    requires z.capability.value !in capabilities
    ensures var kept := if y.capability.value in capabilities then [x, y] else [x];
            Filter([x, y], Units(capabilities)) == kept == Filter([x, y, z], Units(capabilities))
  {
    var keep := Units(capabilities);
    hide Filter;
    assert [x, y] == [x] + [y] && [x, y, z] == [x] + ([y] + [z]);
    assert keep(x) && !keep(z) && (keep(y) <==> y.capability.value in capabilities) by {
      assert y in [y, z] && z in [y, z];
    }
    hide Units;
    FilterOne(y, keep);
    FilterOne(z, keep);
    FilterCons(y, [z], keep);
    FilterCons(x, [y], keep);
    FilterCons(x, [y] + [z], keep);
  }

  lemma TheirIdsAndRoles(x: Unit, y: Unit, z: Unit, role: string)
    requires x.id == y.id != z.id && x.serves == z.serves == [] && y.serves == [role]
    ensures UnitIds([x]) == UnitIds([x, y]) == {x.id} && UnitIds([x, y, z]) == {x.id, z.id}
    ensures Roles([x]) == {} && Roles([x, y]) == Roles([x, y, z]) == {role}
  {
    var three := [x, y, z];
    assert three[0] == x && three[1] == y && three[2] == z;
    assert [x][0] in [x] && [x, y][0] in [x, y] && [x, y][1] in [x, y];
    assert three[0] in three && three[1] in three && three[2] in three;
    assert [role][0] in [role];
  }

  // ---------------------------------------------------------------- what a component can check about itself

  /** What the loader demands of one contract by itself. */
  ghost predicate Consistent(c: Contract) {
    && (forall u, r :: u in c.units && r in u.serves ==> exists p :: p in c.ports && p.role == r)
    && (forall i, u :: i in c.inputs && u in i.requiredBy ==> u in UnitIds(c.units))
    && (forall s, u :: s in c.authority && u in s.quiesceUnits ==> u in UnitIds(c.units))
    && (forall s :: s in c.authority ==> Covered(s.path, c.factoryReset))
  }

  method OwnsAll(names: seq<string>, own: set<string>) returns (ok: bool)
    ensures ok <==> forall u :: u in names ==> u in own
  {
    for i := 0 to |names|
      invariant forall u :: u in names[..i] ==> u in own
    {
      if names[i] !in own {
        return false;
      }
    }
    assert names[..|names|] == names;
    return true;
  }

  /** The loops over one contract: what units serve, what inputs require, what state quiesces,
      and what a factory reset covers. */
  method RefuseContradictions(c: Contract) returns (ok: bool)
    ensures ok <==> Consistent(c)
  {
    var units, roles := UnitIds(c.units), set p | p in c.ports :: p.role;
    for i := 0 to |c.units|
      invariant forall u, r :: u in c.units[..i] && r in u.serves ==> r in roles
    {
      var served := OwnsAll(c.units[i].serves, roles);
      if !served {
        var r :| r in c.units[i].serves && r !in roles;
        assert c.units[i] in c.units && forall p :: p in c.ports ==> p.role != r;
        return false;
      }
    }
    assert c.units[..|c.units|] == c.units;
    for i := 0 to |c.inputs|
      invariant forall x, u :: x in c.inputs[..i] && u in x.requiredBy ==> u in units
    {
      var owned := OwnsAll(c.inputs[i].requiredBy, units);
      if !owned {
        assert c.inputs[i] in c.inputs;
        return false;
      }
    }
    assert c.inputs[..|c.inputs|] == c.inputs;
    for i := 0 to |c.authority|
      invariant forall s, u :: s in c.authority[..i] && u in s.quiesceUnits ==> u in units
    {
      var owned := OwnsAll(c.authority[i].quiesceUnits, units);
      if !owned {
        assert c.authority[i] in c.authority;
        return false;
      }
    }
    assert c.authority[..|c.authority|] == c.authority;
    for i := 0 to |c.authority|
      invariant forall s :: s in c.authority[..i] ==> Covered(s.path, c.factoryReset)
    {
      if !exists root :: root in c.factoryReset && root <= c.authority[i].path {
        assert c.authority[i] in c.authority;
        return false;
      }
    }
    assert c.authority[..|c.authority|] == c.authority;
    forall u, r | u in c.units && r in u.serves ensures exists p :: p in c.ports && p.role == r {
      assert r in roles;
    }
    return true;
  }
}
