/** Claims, dependencies and a start order over all contracts selected for one Host. */
module ComponentTopology {
  import opened Common
  import opened ComponentContract
  import opened Paths
  import opened UnitGraph

  datatype Problem =
    | Misplaced(componentId: string)
    | Contradiction(componentId: string)
    | UnknownCapability(componentId: string)
    | Claimed(noun: string, key: string, held: string, claimant: string)
    | Withheld(componentId: string, unit: string, dependency: string, capability: string)
    | Undeclared(componentId: string, unit: string, dependency: string)
    | Cycle(units: seq<string>)

  datatype Topology = Topology(
    contracts: seq<Contract>, platform: Contract, silent: seq<string>,
    unitOwner: map<string, string>, portRoles: map<string, int>)
  {
    /** All contracts of the topology, with the platform's last. */
    function Declared(): seq<Contract> { contracts + [platform] }
  }

  const SYSTEM_TARGETS: set<string> :=
    {"local-fs.target", "network.target", "network-online.target", "dbus.service", "bluetooth.service",
     "NetworkManager.service"}

  // ---------------------------------------------------------------- claims

  function Ids(units: seq<Unit>): seq<string> {
    seq(|units|, i requires 0 <= i < |units| => units[i].id)
  }

  function PortRoles(ports: seq<Port>): seq<string> {
    seq(|ports|, i requires 0 <= i < |ports| => ports[i].role)
  }

  function Names(inputs: seq<Input>): seq<string> {
    seq(|inputs|, i requires 0 <= i < |inputs| => inputs[i].name)
  }

  function InstalledAs(inputs: seq<Input>): seq<string> {
    seq(|inputs|, i requires 0 <= i < |inputs| => PathText(inputs[i].installPath))
  }

  datatype Noun = UnitNoun | PortNoun | InputNoun | FileNoun

  /** What one contract claims under each noun, in order. */
  function Claims(c: Contract, noun: Noun): seq<string> {
    match noun
    case UnitNoun => Ids(c.units)
    case PortNoun => PortRoles(c.ports)
    case InputNoun => Names(c.inputs)
    case FileNoun => InstalledAs(c.inputs)
  }

  function AllClaims(contracts: seq<Contract>, noun: Noun): seq<string> {
    if contracts == [] then []
    else AllClaims(contracts[..|contracts| - 1], noun) + Claims(contracts[|contracts| - 1], noun)
  }

  function Claim(register: map<string, string>, key: string, component: string, noun: string)
    : Result<map<string, string>, Problem>
  {
    if key in register then Err(Claimed(noun, key, register[key], component)) else Ok(register[key := component])
  }

  function Label(noun: Noun): string {
    match noun
    case UnitNoun => "unit"
    case PortNoun => "port role"
    case InputNoun => "install input"
    case FileNoun => "installed file"
  }

  /** A register after one component claimed these keys. */
  function Owned(register: map<string, string>, keys: seq<string>, component: string): map<string, string> {
    register + map k | k in keys :: component
  }

  ghost predicate Grantable(register: map<string, string>, keys: seq<string>) {
    Distinct(keys) && forall k :: k in keys ==> k !in register
  }

  lemma OwnNext(register: map<string, string>, keys: seq<string>, i: nat, component: string)
    requires i < |keys|
    ensures Owned(register, keys[..i + 1], component) == Owned(register, keys[..i], component)[keys[i] := component]
  {
    assert keys[..i + 1] == keys[..i] + [keys[i]];
  }

  lemma GrantNext(register: map<string, string>, keys: seq<string>, i: nat)
    requires i < |keys|
    ensures Grantable(register, keys[..i + 1])
        <==> Grantable(register, keys[..i]) && keys[i] !in register && keys[i] !in keys[..i]
    ensures Grantable(register, keys) ==> Grantable(register, keys[..i + 1])
  {
    hide Distinct;
    var head, one := keys[..i], [keys[i]];
    assert keys[..i + 1] == head + one;
    DistinctAppend(head, one);
    DistinctOne(keys[i]);
    assert keys == keys[..i + 1] + keys[i + 1..];
    DistinctAppend(keys[..i + 1], keys[i + 1..]);
  }

  lemma DistinctOne(key: string)
    ensures Distinct([key])
  {
  }

  /** One loop of claims by one component. */
  method ClaimEach(register: map<string, string>, keys: seq<string>, component: string, noun: Noun)
    returns (r: Result<map<string, string>, Problem>)
    ensures r.Ok? <==> Grantable(register, keys)
    ensures r.Ok? ==> r.value == Owned(register, keys, component)
    ensures r.Err? ==> r.error.Claimed? && r.error.key in keys && r.error.claimant == component
  {
    hide Grantable, Distinct;
    var claimed := register;
    GrantNothing(register, component);
    assert keys[..0] == [];
    for i := 0 to |keys|
      invariant claimed == Owned(register, keys[..i], component) && Grantable(register, keys[..i])
    {
      OwnNext(register, keys, i, component);
      GrantNext(register, keys, i);
      var next := Claim(claimed, keys[i], component, Label(noun));
      if next.Err? {
        return next;
      }
      claimed := next.value;
    }
    assert keys[..|keys|] == keys;
    return Ok(claimed);
  }

  lemma GrantNothing(register: map<string, string>, component: string)
    ensures Grantable(register, []) && Owned(register, [], component) == register
  {
  }

  /** Who owns each claim: the component whose contract makes it. */
  function Owners(contracts: seq<Contract>, noun: Noun): map<string, string> {
    if contracts == [] then map[]
    else
      var last := contracts[|contracts| - 1];
      Owned(Owners(contracts[..|contracts| - 1], noun), Claims(last, noun), last.componentId)
  }

  lemma {:induction false} OwnersAreClaims(contracts: seq<Contract>, noun: Noun)
    ensures forall k :: k in Owners(contracts, noun) <==> k in AllClaims(contracts, noun)
  {
    if contracts != [] {
      OwnersAreClaims(contracts[..|contracts| - 1], noun);
    }
  }

  lemma DistinctAppend(a: seq<string>, b: seq<string>)
    ensures Distinct(a + b) <==> Distinct(a) && Distinct(b) && forall k :: k in b ==> k !in a
  {
    var s := a + b;
    assert forall i :: 0 <= i < |a| ==> s[i] == a[i];
    assert forall j :: 0 <= j < |b| ==> s[|a| + j] == b[j];
    if Distinct(s) {
      forall i, j | 0 <= i < j < |a| ensures a[i] != a[j] {
        assert s[i] != s[j];
      }
      forall i, j | 0 <= i < j < |b| ensures b[i] != b[j] {
        assert s[|a| + i] != s[|a| + j];
      }
      forall k | k in b ensures k !in a {
        var j :| 0 <= j < |b| && b[j] == k;
        assert forall i :: 0 <= i < |a| ==> s[i] != s[|a| + j];
      }
    }
    if Distinct(a) && Distinct(b) && forall k :: k in b ==> k !in a {
      forall i, j | 0 <= i < j < |s| ensures s[i] != s[j] {
        if i < |a| <= j {
          assert a[i] in a && b[j - |a|] in b;
        } else if |a| <= i {
          assert b[i - |a|] != b[j - |a|];
        }
      }
    }
  }

  lemma {:induction false} PrefixDistinct(contracts: seq<Contract>, n: nat, noun: Noun)
    requires n <= |contracts| && Distinct(AllClaims(contracts, noun))
    ensures Distinct(AllClaims(contracts[..n], noun))
    decreases |contracts|
  {
    if n == |contracts| {
      assert contracts[..n] == contracts;
    } else {
      var front := contracts[..|contracts| - 1];
      DistinctAppend(AllClaims(front, noun), Claims(contracts[|contracts| - 1], noun));
      PrefixDistinct(front, n, noun);
      assert front[..n] == contracts[..n];
    }
  }

  /** All claims under one noun: granted exactly when no key is claimed twice, by the same
      component or by two. */
  method ClaimAll(contracts: seq<Contract>, noun: Noun) returns (r: Result<map<string, string>, Problem>)
    ensures r.Ok? <==> Distinct(AllClaims(contracts, noun))
    ensures r.Ok? ==> r.value == Owners(contracts, noun)
    ensures r.Err? ==> r.error.Claimed? && r.error.key in AllClaims(contracts, noun)
  {
    var register := map[];
    for i := 0 to |contracts|
      invariant register == Owners(contracts[..i], noun)
      invariant Distinct(AllClaims(contracts[..i], noun))
    {
      var c := contracts[i];
      assert contracts[..i + 1][..i] == contracts[..i];
      OwnersAreClaims(contracts[..i], noun);
      DistinctAppend(AllClaims(contracts[..i], noun), Claims(c, noun));
      var next := ClaimEach(register, Claims(c, noun), c.componentId, noun);
      if next.Err? {
        if Distinct(AllClaims(contracts, noun)) {
          PrefixDistinct(contracts, i + 1, noun);
        }
        ClaimsGrow(contracts, i, noun);
        return next;
      }
      register := next.value;
    }
    assert contracts[..|contracts|] == contracts;
    return Ok(register);
  }

  lemma {:induction false} ClaimsGrow(contracts: seq<Contract>, i: nat, noun: Noun)
    requires i < |contracts|
    ensures forall k :: k in Claims(contracts[i], noun) ==> k in AllClaims(contracts, noun)
    decreases |contracts|
  {
    if i < |contracts| - 1 {
      ClaimsGrow(contracts[..|contracts| - 1], i, noun);
    }
  }

  lemma OwnersStep(contracts: seq<Contract>, noun: Noun)
    requires contracts != []
    ensures var n := |contracts| - 1;
            var front, last := contracts[..n], contracts[n];
            && AllClaims(contracts, noun) == AllClaims(front, noun) + Claims(last, noun)
            && (forall k :: k in Claims(last, noun) ==>
                 k in Owners(contracts, noun) && Owners(contracts, noun)[k] == last.componentId)
            && forall k :: k in Owners(front, noun) && k !in Claims(last, noun) ==>
                 k in Owners(contracts, noun) && Owners(contracts, noun)[k] == Owners(front, noun)[k]
  {
  }

  /** Where no key is claimed twice, what one component claims is its own and nobody else's. */
  lemma EachClaimHasOneOwner(contracts: seq<Contract>, noun: Noun, i: nat, key: string)
    requires Distinct(AllClaims(contracts, noun)) && i < |contracts| && key in Claims(contracts[i], noun)
    ensures key in Owners(contracts, noun) && Owners(contracts, noun)[key] == contracts[i].componentId
    ensures forall j :: 0 <= j < |contracts| && j != i ==> key !in Claims(contracts[j], noun)
    ensures Distinct(Claims(contracts[i], noun))
  {
    hide Distinct, AllClaims, Owners, Claims;
    ClaimIsRegistered(contracts, noun, i, key);
    forall j | 0 <= j < |contracts| && j != i ensures key !in Claims(contracts[j], noun) {
      ClaimedByOne(contracts, noun, if i < j then i else j, if i < j then j else i, key);
    }
  }

  lemma {:induction false} ClaimIsRegistered(contracts: seq<Contract>, noun: Noun, i: nat, key: string)
    requires Distinct(AllClaims(contracts, noun)) && i < |contracts| && key in Claims(contracts[i], noun)
    ensures key in Owners(contracts, noun) && Owners(contracts, noun)[key] == contracts[i].componentId
    ensures Distinct(Claims(contracts[i], noun))
    decreases |contracts|
  {
    hide Distinct, AllClaims, Owners, Owned, Claims;
    var n := |contracts| - 1;
    var front := contracts[..n];
    OwnersStep(contracts, noun);
    DistinctAppend(AllClaims(front, noun), Claims(contracts[n], noun));
    if i < n {
      assert front[i] == contracts[i];
      ClaimIsRegistered(front, noun, i, key);
      ClaimsGrow(front, i, noun);
    }
  }

  lemma {:induction false} ClaimedByOne(contracts: seq<Contract>, noun: Noun, i: nat, j: nat, key: string)
    requires Distinct(AllClaims(contracts, noun)) && i < j < |contracts|
    ensures !(key in Claims(contracts[i], noun) && key in Claims(contracts[j], noun))
    decreases |contracts|
  {
    hide Distinct, AllClaims, Owners, Owned, Claims;
    var n := |contracts| - 1;
    var front := contracts[..n];
    OwnersStep(contracts, noun);
    DistinctAppend(AllClaims(front, noun), Claims(contracts[n], noun));
    assert front[i] == contracts[i];
    if j < n {
      assert front[j] == contracts[j];
      ClaimedByOne(front, noun, i, j, key);
    } else {
      ClaimsGrow(front, i, noun);
    }
  }

  /** Every unit, port role, install input and installed file is declared in one place only. */
  ghost predicate ClaimedOnce(contracts: seq<Contract>) {
    && (forall i, k, j, l ::
          (&& 0 <= i < |contracts| && 0 <= k < |contracts[i].units|
           && 0 <= j < |contracts| && 0 <= l < |contracts[j].units|
           && contracts[i].units[k].id == contracts[j].units[l].id) ==> i == j && k == l)
    && (forall i, k, j, l ::
          (&& 0 <= i < |contracts| && 0 <= k < |contracts[i].ports|
           && 0 <= j < |contracts| && 0 <= l < |contracts[j].ports|
           && contracts[i].ports[k].role == contracts[j].ports[l].role) ==> i == j && k == l)
    && forall i, k, j, l ::
         (&& 0 <= i < |contracts| && 0 <= k < |contracts[i].inputs|
          && 0 <= j < |contracts| && 0 <= l < |contracts[j].inputs|
          && (|| contracts[i].inputs[k].name == contracts[j].inputs[l].name
              || PathText(contracts[i].inputs[k].installPath) == PathText(contracts[j].inputs[l].installPath))) ==>
           i == j && k == l
  }

  ghost predicate Once(contracts: seq<Contract>, noun: Noun) {
    forall i, k, j, l ::
      (&& 0 <= i < |contracts| && 0 <= k < |Claims(contracts[i], noun)|
       && 0 <= j < |contracts| && 0 <= l < |Claims(contracts[j], noun)|
       && Claims(contracts[i], noun)[k] == Claims(contracts[j], noun)[l]) ==> i == j && k == l
  }

  lemma {:induction false} ClaimOfOne(contracts: seq<Contract>, noun: Noun, key: string) returns (i: nat)
    requires key in AllClaims(contracts, noun)
    ensures i < |contracts| && key in Claims(contracts[i], noun)
    decreases |contracts|
  {
    hide Claims;
    var n := |contracts| - 1;
    if key in Claims(contracts[n], noun) {
      i := n;
    } else {
      i := ClaimOfOne(contracts[..n], noun, key);
    }
  }

  lemma {:induction false} OnceIsDistinct(contracts: seq<Contract>, noun: Noun)
    requires Once(contracts, noun)
    ensures Distinct(AllClaims(contracts, noun))
    decreases |contracts|
  {
    hide Claims;
    if contracts != [] {
      var n := |contracts| - 1;
      var front, last := contracts[..n], Claims(contracts[n], noun);
      assert forall i :: 0 <= i < n ==> front[i] == contracts[i];
      OnceIsDistinct(front, noun);
      forall key | key in last ensures key !in AllClaims(front, noun) {
        if key in AllClaims(front, noun) {
          var i := ClaimOfOne(front, noun, key);
        }
      }
      DistinctAppend(AllClaims(front, noun), last);
    }
  }

  lemma DistinctIsOnce(contracts: seq<Contract>, noun: Noun)
    requires Distinct(AllClaims(contracts, noun))
    ensures Once(contracts, noun)
  {
    hide Claims, AllClaims, Owners;
    forall i, k, j, l | 0 <= i < |contracts| && 0 <= j < |contracts|
      && 0 <= k < |Claims(contracts[i], noun)| && 0 <= l < |Claims(contracts[j], noun)|
      && Claims(contracts[i], noun)[k] == Claims(contracts[j], noun)[l]
      ensures i == j && k == l
    {
      EachClaimHasOneOwner(contracts, noun, i, Claims(contracts[i], noun)[k]);
      assert Claims(contracts[j], noun)[l] in Claims(contracts[j], noun);
    }
  }

  /** What a contract claims, noun by noun. */
  ghost predicate ByNoun(c: Contract) {
    && |Claims(c, UnitNoun)| == |c.units| && |Claims(c, PortNoun)| == |c.ports|
    && |Claims(c, InputNoun)| == |Claims(c, FileNoun)| == |c.inputs|
    && (forall k :: 0 <= k < |c.units| ==> Claims(c, UnitNoun)[k] == c.units[k].id)
    && (forall k :: 0 <= k < |c.ports| ==> Claims(c, PortNoun)[k] == c.ports[k].role)
    && (forall k :: 0 <= k < |c.inputs| ==> Claims(c, InputNoun)[k] == c.inputs[k].name)
    && forall k :: 0 <= k < |c.inputs| ==> Claims(c, FileNoun)[k] == PathText(c.inputs[k].installPath)
  }

  lemma ClaimsByNoun(c: Contract)
    ensures ByNoun(c)
  {
  }

  lemma OnceIsClaimedOnce(contracts: seq<Contract>)
    requires Once(contracts, UnitNoun) && Once(contracts, PortNoun)
    requires Once(contracts, InputNoun) && Once(contracts, FileNoun)
    requires forall i :: 0 <= i < |contracts| ==> ByNoun(contracts[i])
    ensures ClaimedOnce(contracts)
  {
    hide Claims, PathText;
    forall i, k, j, l |
      && 0 <= i < |contracts| && 0 <= k < |contracts[i].units|
      && 0 <= j < |contracts| && 0 <= l < |contracts[j].units|
      && contracts[i].units[k].id == contracts[j].units[l].id
      ensures i == j && k == l
    {
      assert Claims(contracts[i], UnitNoun)[k] == Claims(contracts[j], UnitNoun)[l];
    }
    forall i, k, j, l |
      && 0 <= i < |contracts| && 0 <= k < |contracts[i].ports|
      && 0 <= j < |contracts| && 0 <= l < |contracts[j].ports|
      && contracts[i].ports[k].role == contracts[j].ports[l].role
      ensures i == j && k == l
    {
      assert Claims(contracts[i], PortNoun)[k] == Claims(contracts[j], PortNoun)[l];
    }
    forall i, k, j, l |
      && 0 <= i < |contracts| && 0 <= k < |contracts[i].inputs|
      && 0 <= j < |contracts| && 0 <= l < |contracts[j].inputs|
      && contracts[i].inputs[k].name == contracts[j].inputs[l].name
      ensures i == j && k == l
    {
      assert Claims(contracts[i], InputNoun)[k] == Claims(contracts[j], InputNoun)[l];
    }
    forall i, k, j, l |
      && 0 <= i < |contracts| && 0 <= k < |contracts[i].inputs|
      && 0 <= j < |contracts| && 0 <= l < |contracts[j].inputs|
      && PathText(contracts[i].inputs[k].installPath) == PathText(contracts[j].inputs[l].installPath)
      ensures i == j && k == l
    {
      assert Claims(contracts[i], FileNoun)[k] == Claims(contracts[j], FileNoun)[l];
    }
  }

  lemma ClaimedOnceIsOnce(contracts: seq<Contract>, noun: Noun)
    requires ClaimedOnce(contracts) && forall i :: 0 <= i < |contracts| ==> ByNoun(contracts[i])
    ensures Once(contracts, noun)
  {
    hide Claims, PathText;
    match noun case UnitNoun => case PortNoun => case InputNoun => case FileNoun =>
  }

  ghost predicate AllGranted(contracts: seq<Contract>) {
    && Distinct(AllClaims(contracts, UnitNoun)) && Distinct(AllClaims(contracts, PortNoun))
    && Distinct(AllClaims(contracts, InputNoun)) && Distinct(AllClaims(contracts, FileNoun))
  }

  /** The four registers take every claim exactly when everything is declared once. */
  lemma ClaimedOnceIff(contracts: seq<Contract>)
    ensures ClaimedOnce(contracts) <==> AllGranted(contracts)
  {
    forall i | 0 <= i < |contracts| ensures ByNoun(contracts[i]) {
      ClaimsByNoun(contracts[i]);
    }
    hide ClaimedOnce, Distinct, Claims, ByNoun, Once;
    if ClaimedOnce(contracts) {
      ClaimedOnceIsDistinct(contracts, UnitNoun);
      ClaimedOnceIsDistinct(contracts, PortNoun);
      ClaimedOnceIsDistinct(contracts, InputNoun);
      ClaimedOnceIsDistinct(contracts, FileNoun);
    }
    if AllGranted(contracts) {
      DistinctIsOnce(contracts, UnitNoun);
      DistinctIsOnce(contracts, PortNoun);
      DistinctIsOnce(contracts, InputNoun);
      DistinctIsOnce(contracts, FileNoun);
      OnceIsClaimedOnce(contracts);
    }
  }

  lemma ClaimedOnceIsDistinct(contracts: seq<Contract>, noun: Noun)
    requires ClaimedOnce(contracts) && forall i :: 0 <= i < |contracts| ==> ByNoun(contracts[i])
    ensures Distinct(AllClaims(contracts, noun))
  {
    ClaimedOnceIsOnce(contracts, noun);
    OnceIsDistinct(contracts, noun);
  }

  /** Where installed files are claimed once each, two inputs whose paths have no `..` in them
      are two files. */
  lemma EachFileHasOneWriter(contracts: seq<Contract>, i: nat, k: nat, j: nat, l: nat)
    requires Distinct(AllClaims(contracts, FileNoun)) && i < |contracts| && j < |contracts| && (i, k) != (j, l)
    requires k < |contracts[i].inputs| && l < |contracts[j].inputs|
    requires Plain(contracts[i].inputs[k].installPath) && Plain(contracts[j].inputs[l].installPath)
    ensures Resolved(contracts[i].inputs[k].installPath) != Resolved(contracts[j].inputs[l].installPath)
  {
    var a, b := contracts[i].inputs[k].installPath, contracts[j].inputs[l].installPath;
    hide Distinct, AllClaims, Owners, Claims, Resolved, PathText;
    PlainLeadsToItself(a);
    PlainLeadsToItself(b);
    FileClaim(contracts[i], k);
    FileClaim(contracts[j], l);
    EachClaimHasOneOwner(contracts, FileNoun, i, PathText(a));
    if i == j {
      AtTwoPlaces(Claims(contracts[i], FileNoun), k, l);
    }
  }

  lemma FileClaim(c: Contract, k: nat)
    requires k < |c.inputs|
    ensures k < |Claims(c, FileNoun)| && Claims(c, FileNoun)[k] == PathText(c.inputs[k].installPath)
  {
  }

  lemma AtTwoPlaces(s: seq<string>, k: nat, l: nat)
    requires Distinct(s) && k < |s| && l < |s| && k != l
    ensures s[k] != s[l]
  {
  }

  /** With `..` in one of them, two paths can be claimed by two components and be one file. */
  lemma TwoWritersOfOneFile(folder: string, aside: string, file: string)
    requires folder != UP && aside != UP && file != UP
    ensures var short, long := [folder, file], [folder, aside, UP, file];
            PathText(short) != PathText(long) && Resolved(short) == Resolved(long) == [folder, file]
  {
    hide Resolved, PathText;
    PlainLeadsToItself([folder]);
    PlainLeadsToItself([folder, file]);
    OneMoreName([folder], file);
    OneMoreName([folder], aside);
    OneMoreName([folder] + [aside], UP);
    OneMoreName([folder] + [aside] + [UP], file);
    assert [folder] + [file] == [folder, file] && [folder] + [aside] + [UP] + [file] == [folder, aside, UP, file];
    assert ([folder] + [aside])[..1] == [folder];
  }

  // ---------------------------------------------------------------- dependencies

  function Dependencies(u: Unit): seq<string> {
    u.requires_ + u.after
  }

  /** What a unit waits for, required or only ordered before it. */
  ghost predicate Needs(u: Unit, d: string) {
    d in u.requires_ || d in u.after
  }

  ghost predicate DependenciesKnown(contracts: seq<Contract>, known: set<string>) {
    forall c, u, d :: c in contracts && u in c.units && Needs(u, d) ==> d in known
  }

  /** The units this Host does not select, and the capability each wanted. */
  function WithheldUnits(contracts: seq<Contract>, capabilities: set<string>): map<string, string> {
    if contracts == [] then map[]
    else WithheldUnits(contracts[..|contracts| - 1], capabilities)
         + WithheldIn(contracts[|contracts| - 1].units, capabilities)
  }

  function WithheldIn(units: seq<Unit>, capabilities: set<string>): map<string, string> {
    if units == [] then map[]
    else
      var u := units[|units| - 1];
      var before := WithheldIn(units[..|units| - 1], capabilities);
      if Wanted(u.capability, capabilities) then before else before[u.id := u.capability.value]
  }

  method RefuseUnknownDependencies(
      contracts: seq<Contract>, unitOwner: map<string, string>, withheld: map<string, string>)
    returns (problem: Option<Problem>)
    ensures problem.None? <==> DependenciesKnown(contracts, unitOwner.Keys + SYSTEM_TARGETS)
    ensures problem.Some? ==>
              && (problem.value.Withheld? || problem.value.Undeclared?)
              && problem.value.dependency !in unitOwner.Keys + SYSTEM_TARGETS
              && (problem.value.Withheld? <==> problem.value.dependency in withheld)
              && (problem.value.Withheld? ==> problem.value.capability == withheld[problem.value.dependency])
              && exists c, u :: c in contracts && u in c.units && c.componentId == problem.value.componentId
                                && u.id == problem.value.unit
                                && (problem.value.dependency in u.requires_ || problem.value.dependency in u.after)
  {
    var known := unitOwner.Keys + SYSTEM_TARGETS;
    for i := 0 to |contracts|
      invariant DependenciesKnown(contracts[..i], known)
    {
      var c := contracts[i];
      for j := 0 to |c.units|
        invariant forall u, d :: u in c.units[..j] && Needs(u, d) ==> d in known
      {
        var u := c.units[j];
        var dependencies := Dependencies(u);
        for k := 0 to |dependencies|
          invariant forall d :: d in dependencies[..k] ==> d in known
        {
          var d := dependencies[k];
          if d !in known {
            assert c in contracts && u in c.units && Needs(u, d);
            if d in withheld {
              return Some(Withheld(c.componentId, u.id, d, withheld[d]));
            }
            return Some(Undeclared(c.componentId, u.id, d));
          }
        }
        assert dependencies[..|dependencies|] == dependencies;
        assert forall d :: Needs(u, d) ==> d in dependencies;
      }
    }
    assert contracts[..|contracts|] == contracts;
    return None;
  }

  function AllUnits(contracts: seq<Contract>): seq<Unit> {
    if contracts == [] then [] else AllUnits(contracts[..|contracts| - 1]) + contracts[|contracts| - 1].units
  }

  /** The dependency graph of the units a Host installs. */
  function GraphOf(units: seq<Unit>, owned: set<string>): Graph {
    if units == [] then map[]
    else
      var u := units[|units| - 1];
      GraphOf(units[..|units| - 1], owned)[u.id := Filter(Dependencies(u), (d: string) => d in owned)]
  }

  lemma {:induction false} GraphIsClosed(units: seq<Unit>, owned: set<string>)
    ensures GraphOf(units, owned).Keys == set u | u in units :: u.id
    ensures forall k, d :: k in GraphOf(units, owned) && d in GraphOf(units, owned)[k] ==> d in owned
  {
    if units != [] {
      GraphIsClosed(units[..|units| - 1], owned);
    }
  }

  lemma {:induction false} AllUnitsClaim(contracts: seq<Contract>)
    ensures AllClaims(contracts, UnitNoun) == Ids(AllUnits(contracts))
    ensures forall u :: u in AllUnits(contracts) <==> exists c :: c in contracts && u in c.units
  {
    if contracts != [] {
      var front, last := contracts[..|contracts| - 1], contracts[|contracts| - 1];
      AllUnitsClaim(front);
      IdsTogether(AllUnits(front), last.units);
      hide AllClaims, AllUnits, Ids;
      assert forall c :: c in contracts <==> c in front || c == last;
    }
  }

  lemma IdsTogether(a: seq<Unit>, b: seq<Unit>)
    ensures Ids(a + b) == Ids(a) + Ids(b)
  {
  }

  // ---------------------------------------------------------------- the set

  datatype Found = Found(componentId: string, contract: Option<Contract>)

  function DeclaredIn(found: seq<Found>): seq<Contract> {
    if found == [] then []
    else
      var last := found[|found| - 1].contract;
      DeclaredIn(found[..|found| - 1]) + if last.Some? then [last.value] else []
  }

  function SilentIn(found: seq<Found>): seq<string> {
    if found == [] then []
    else
      var last := found[|found| - 1];
      SilentIn(found[..|found| - 1]) + if last.contract.None? then [last.componentId] else []
  }

  function Chosen(contracts: seq<Contract>, capabilities: set<string>): seq<Contract> {
    seq(|contracts|, i requires 0 <= i < |contracts| => Selected(contracts[i], capabilities))
  }

  function PortNumbers(ports: seq<Port>): map<string, int> {
    if ports == [] then map[]
    else
      var last := ports[|ports| - 1];
      PortNumbers(ports[..|ports| - 1])[last.role := last.number]
  }

  function AllPorts(contracts: seq<Contract>): seq<Port> {
    if contracts == [] then [] else AllPorts(contracts[..|contracts| - 1]) + contracts[|contracts| - 1].ports
  }

  /** Some selected unit has this id. */
  ghost predicate IsUnit(chosen: seq<Contract>, id: string) {
    exists c, u :: c in chosen && u in c.units && u.id == id
  }

  /** One selected unit waits for another. */
  ghost predicate WaitsFor(chosen: seq<Contract>, a: string, b: string) {
    IsUnit(chosen, b) && exists c, u :: c in chosen && u in c.units && u.id == a && Needs(u, b)
  }

  /** Units waiting for one another all the way round. */
  ghost predicate WaitsForItself(chosen: seq<Contract>, walk: seq<string>) {
    && |walk| >= 2 && walk[0] == walk[|walk| - 1]
    && forall i :: 0 <= i < |walk| - 1 ==> WaitsFor(chosen, walk[i], walk[i + 1])
  }

  /** What selected contracts have to be together: everything declared once, nothing waited for
      that is neither a selected unit nor the system's, and nothing that waits for itself. */
  ghost predicate Joined(chosen: seq<Contract>) {
    && ClaimedOnce(chosen)
    && (forall c, u, d :: c in chosen && u in c.units && Needs(u, d) ==> IsUnit(chosen, d) || d in SYSTEM_TARGETS)
    && forall walk :: !WaitsForItself(chosen, walk)
  }

  ghost predicate Acyclic(g: Graph) {
    forall walk :: !IsCycle(g, walk)
  }

  /** The same, by the registers and the graph that are built. */
  ghost predicate JoinedByTables(chosen: seq<Contract>) {
    var ids := Owners(chosen, UnitNoun).Keys;
    && AllGranted(chosen)
    && DependenciesKnown(chosen, ids + SYSTEM_TARGETS)
    && Acyclic(GraphOf(AllUnits(chosen), ids))
  }

  lemma UnitsAreOwned(chosen: seq<Contract>)
    ensures forall id :: id in Owners(chosen, UnitNoun) <==> IsUnit(chosen, id)
  {
    hide Owners, AllClaims, AllUnits;
    OwnersAreClaims(chosen, UnitNoun);
    AllUnitsClaim(chosen);
    var units := AllUnits(chosen);
    forall id ensures id in Owners(chosen, UnitNoun) <==> IsUnit(chosen, id) {
      if id in Owners(chosen, UnitNoun) {
        var k :| 0 <= k < |Ids(units)| && Ids(units)[k] == id;
        assert units[k] in units;
      }
      if IsUnit(chosen, id) {
        var c, u :| c in chosen && u in c.units && u.id == id;
        assert u in units;
        var k :| 0 <= k < |units| && units[k] == u;
        assert Ids(units)[k] == id;
      }
    }
  }

  /** The graph's edges are what selected units wait for among themselves, and nothing else. */
  lemma EdgesAreWaits(chosen: seq<Contract>, a: string, b: string)
    requires Distinct(AllClaims(chosen, UnitNoun))
    ensures Edge(GraphOf(AllUnits(chosen), Owners(chosen, UnitNoun).Keys), a, b) <==> WaitsFor(chosen, a, b)
  {
    hide Owners, AllClaims, AllUnits, GraphOf, Distinct, Dependencies;
    var units, owned := AllUnits(chosen), Owners(chosen, UnitNoun).Keys;
    var g := GraphOf(units, owned);
    UnitsAreOwned(chosen);
    AllUnitsClaim(chosen);
    GraphIsClosed(units, owned);
    if Edge(g, a, b) {
      var u :| u in units && u.id == a;
      var k :| 0 <= k < |units| && units[k] == u;
      GraphListsDependencies(units, owned, k);
    }
    if WaitsFor(chosen, a, b) {
      var c, u :| c in chosen && u in c.units && u.id == a && Needs(u, b);
      assert u in units;
      var k :| 0 <= k < |units| && units[k] == u;
      GraphListsDependencies(units, owned, k);
    }
  }

  lemma JoinedIff(chosen: seq<Contract>)
    ensures Joined(chosen) <==> JoinedByTables(chosen)
  {
    hide AllClaims, Owners, GraphOf, AllUnits, Distinct, WaitsFor, Needs, IsUnit, ClaimedOnce;
    ClaimedOnceIff(chosen);
    UnitsAreOwned(chosen);
    if AllGranted(chosen) {
      var g := GraphOf(AllUnits(chosen), Owners(chosen, UnitNoun).Keys);
      forall a, b ensures Edge(g, a, b) <==> WaitsFor(chosen, a, b) {
        EdgesAreWaits(chosen, a, b);
      }
      hide Edge;
      forall walk ensures IsCycle(g, walk) <==> WaitsForItself(chosen, walk) {}
    }
  }

  /** What a set of contracts has to be for a Host of these capabilities to be described. */
  ghost predicate Acceptable(found: seq<Found>, platform: Contract, capabilities: set<string>) {
    && (forall f, c :: f in found && f.contract == Some(c) ==>
          c.componentId == f.componentId && Consistent(c) && AsksKnown(c))
    && Consistent(platform) && AsksKnown(platform)
    && Joined(Chosen(DeclaredIn(found) + [platform], capabilities))
  }

  /** The contracts that are there, and the components without one. */
  lemma {:induction false} DeclaredAndSilent(found: seq<Found>)
    ensures forall c :: c in DeclaredIn(found) <==> exists f :: f in found && f.contract == Some(c)
    ensures forall id :: id in SilentIn(found) <==> exists f :: f in found && f.contract == None && f.componentId == id
    ensures |DeclaredIn(found)| + |SilentIn(found)| == |found|
  {
    if found != [] {
      var front, last := found[..|found| - 1], found[|found| - 1];
      DeclaredAndSilent(front);
      assert forall f :: f in found <==> f in front || f == last;
    }
  }

  method LoadContracts(found: seq<Found>, platform: Contract)
    returns (r: Result<seq<Contract>, Problem>, silent: seq<string>)
    ensures r.Ok? <==> Consistent(platform) && forall f, c :: f in found && f.contract == Some(c) ==>
                         c.componentId == f.componentId && Consistent(c)
    ensures r.Ok? ==> r.value == DeclaredIn(found) + [platform] && silent == SilentIn(found)
    ensures r.Err? ==> r.error.Misplaced? || r.error.Contradiction?
  {
    var declared := [];
    silent := [];
    for i := 0 to |found|
      invariant declared == DeclaredIn(found[..i]) && silent == SilentIn(found[..i])
      invariant forall f, c :: f in found[..i] && f.contract == Some(c) ==>
                  c.componentId == f.componentId && Consistent(c)
    {
      var f := found[i];
      assert found[..i + 1][..i] == found[..i];
      if f.contract.None? {
        silent := silent + [f.componentId];
      } else {
        var c := f.contract.value;
        assert f in found;
        if c.componentId != f.componentId {
          return Err(Misplaced(f.componentId)), silent;
        }
        var consistent := RefuseContradictions(c);
        if !consistent {
          DeclaredGrows(found, i);
          return Err(Contradiction(f.componentId)), silent;
        }
        declared := declared + [c];
      }
    }
    assert found[..|found|] == found;
    var all := declared + [platform];
    assert all[|declared|] == platform;
    var consistent := RefuseContradictions(platform);
    if !consistent {
      return Err(Contradiction(platform.componentId)), silent;
    }
    return Ok(declared + [platform]), silent;
  }

  lemma {:induction false} DeclaredGrows(found: seq<Found>, i: nat)
    requires i < |found| && found[i].contract.Some?
    ensures found[i].contract.value in DeclaredIn(found)
    decreases |found|
  {
    if i < |found| - 1 {
      DeclaredGrows(found[..|found| - 1], i);
    }
  }

  method SelectAll(contracts: seq<Contract>, capabilities: set<string>) returns (r: Result<seq<Contract>, Problem>)
    ensures r.Ok? <==> forall c :: c in contracts ==> AsksKnown(c)
    ensures r.Ok? ==> r.value == Chosen(contracts, capabilities)
    ensures r.Err? ==> r.error.UnknownCapability?
  {
    var chosen := [];
    for i := 0 to |contracts|
      invariant chosen == Chosen(contracts[..i], capabilities)
      invariant forall c :: c in contracts[..i] ==> AsksKnown(c)
    {
      assert contracts[i] in contracts;
      var next := Select(contracts[i], capabilities);
      if next.None? {
        return Err(UnknownCapability(contracts[i].componentId));
      }
      chosen := chosen + [next.value];
    }
    assert contracts[..|contracts|] == contracts;
    return Ok(chosen);
  }

  /** Every selected unit once, each after all it depends on among them; whatever else it
      depends on is the system's. */
  ghost predicate CanStart(chosen: seq<Contract>, order: seq<string>) {
    var units := AllUnits(chosen);
    && Distinct(order)
    && (forall id :: id in order <==> exists u :: u in units && u.id == id)
    && forall i, u, d :: 0 <= i < |order| && u in units && u.id == order[i] && Needs(u, d) ==>
         d in order[..i] || (d in SYSTEM_TARGETS && d !in order)
  }

  lemma OrderStarts(chosen: seq<Contract>, order: seq<string>)
    requires JoinedByTables(chosen)
    requires var g := GraphOf(AllUnits(chosen), Owners(chosen, UnitNoun).Keys);
             IsStartOrder(g, order) && forall id :: id in order <==> id in g
    ensures CanStart(chosen, order)
  {
    hide Distinct, Acyclic, GraphOf, AllUnits, Owners, DependenciesKnown, IsStartOrder;
    var units, owned := AllUnits(chosen), Owners(chosen, UnitNoun).Keys;
    GraphOfOwned(chosen);
    GraphIsClosed(units, owned);
    AllUnitsClaim(chosen);
    StartOrderIsDistinct(GraphOf(units, owned), order);
    forall i, u, d | 0 <= i < |order| && u in units && u.id == order[i] && Needs(u, d)
      ensures d in order[..i] || (d in SYSTEM_TARGETS && d !in order)
    {
      KnownDependency(chosen, owned, u, d);
      if d in owned {
        StartsAfter(units, owned, order, i, u, d);
      }
    }
  }

  lemma StartOrderIsDistinct(g: Graph, order: seq<string>)
    requires IsStartOrder(g, order)
    ensures Distinct(order)
  {
  }

  lemma KnownDependency(chosen: seq<Contract>, owned: set<string>, u: Unit, d: string)
    requires DependenciesKnown(chosen, owned + SYSTEM_TARGETS) && u in AllUnits(chosen) && Needs(u, d)
    ensures d in owned || d in SYSTEM_TARGETS
  {
    AllUnitsClaim(chosen);
    var c :| c in chosen && u in c.units;
    assert d in owned + SYSTEM_TARGETS;
  }

  lemma StartsAfter(units: seq<Unit>, owned: set<string>, order: seq<string>, i: nat, u: Unit, d: string)
    requires IsStartOrder(GraphOf(units, owned), order) && Distinct(Ids(units))
    requires i < |order| && u in units && u.id == order[i] && Needs(u, d) && d in owned
    ensures d in order[..i]
  {
    var k :| 0 <= k < |units| && units[k] == u;
    GraphListsDependencies(units, owned, k);
    assert Edge(GraphOf(units, owned), order[i], d);
  }

  lemma {:induction false} GraphListsDependencies(units: seq<Unit>, owned: set<string>, k: nat)
    requires k < |units| && Distinct(Ids(units))
    ensures units[k].id in GraphOf(units, owned)
    ensures forall d :: d in GraphOf(units, owned)[units[k].id] <==> Needs(units[k], d) && d in owned
    decreases |units|
  {
    var n := |units| - 1;
    if k < n {
      assert Ids(units)[k] != Ids(units)[n];
      assert forall i :: 0 <= i < n ==> Ids(units[..n])[i] == Ids(units)[i];
      GraphListsDependencies(units[..n], owned, k);
    }
  }

  /** Claims noun by noun, then dependencies, then cycles. */
  method Join(chosen: seq<Contract>, withheld: map<string, string>) returns (r: Result<map<string, string>, Problem>)
    ensures r.Ok? <==> Joined(chosen)
    ensures r.Ok? ==> r.value == Owners(chosen, UnitNoun) && exists order :: CanStart(chosen, order)
    ensures r.Err? && r.error.Withheld? ==>
              r.error.dependency in withheld && r.error.capability == withheld[r.error.dependency]
  {
    hide Distinct, AllClaims, DependenciesKnown, GraphOf, AllUnits, Owners, IsCycle, IsStartOrder, CanStart, Joined;
    JoinedIff(chosen);
    var unitOwner := ClaimAll(chosen, UnitNoun);
    if unitOwner.Err? {
      return Err(unitOwner.error);
    }
    var portOwner := ClaimAll(chosen, PortNoun);
    if portOwner.Err? {
      return Err(portOwner.error);
    }
    var inputOwner := ClaimAll(chosen, InputNoun);
    if inputOwner.Err? {
      return Err(inputOwner.error);
    }
    var installedAs := ClaimAll(chosen, FileNoun);
    if installedAs.Err? {
      return Err(installedAs.error);
    }
    var unknown := RefuseUnknownDependencies(chosen, unitOwner.value, withheld);
    if unknown.Some? {
      return Err(unknown.value);
    }
    GraphOfOwned(chosen);
    var cycle, order := RefuseCycles(GraphOf(AllUnits(chosen), unitOwner.value.Keys));
    if cycle.Some? {
      return Err(Cycle(cycle.value));
    }
    OrderStarts(chosen, order);
    return unitOwner;
  }

  /** Some selected contract declares this port role. */
  ghost predicate IsPort(chosen: seq<Contract>, role: string) {
    exists c, p :: c in chosen && p in c.ports && p.role == role
  }

  /** A declared unit of this id asks for this capability, and the Host does not offer it. */
  ghost predicate IsWithheld(declared: seq<Contract>, capabilities: set<string>, id: string, capability: string) {
    exists c, u :: c in declared && u in c.units && u.id == id && u.capability == Some(capability)
                   && capability !in capabilities
  }

  lemma {:induction false} WithheldInUnits(units: seq<Unit>, capabilities: set<string>)
    ensures forall id :: id in WithheldIn(units, capabilities) ==>
              exists u :: u in units && u.id == id && u.capability == Some(WithheldIn(units, capabilities)[id])
                          && u.capability.value !in capabilities
    ensures forall u :: u in units && u.capability.Some? && u.capability.value !in capabilities ==>
              u.id in WithheldIn(units, capabilities)
  {
    if units != [] {
      var front, last := units[..|units| - 1], units[|units| - 1];
      WithheldInUnits(front, capabilities);
      assert forall u :: u in units <==> u in front || u == last;
    }
  }

  /** Withheld are the ids of the declared units whose capability the Host does not offer, each
      with one that such a unit asks for. */
  lemma {:induction false} WithheldAre(contracts: seq<Contract>, capabilities: set<string>)
    ensures forall id :: id in WithheldUnits(contracts, capabilities) ==>
              IsWithheld(contracts, capabilities, id, WithheldUnits(contracts, capabilities)[id])
    ensures forall id, x :: IsWithheld(contracts, capabilities, id, x) ==> id in WithheldUnits(contracts, capabilities)
  {
    hide WithheldIn;
    if contracts != [] {
      var front, last := contracts[..|contracts| - 1], contracts[|contracts| - 1];
      WithheldAre(front, capabilities);
      WithheldInUnits(last.units, capabilities);
      assert forall c :: c in contracts <==> c in front || c == last;
      forall id | id in WithheldUnits(contracts, capabilities)
        ensures IsWithheld(contracts, capabilities, id, WithheldUnits(contracts, capabilities)[id])
      {
        if id in WithheldIn(last.units, capabilities) {
          assert last in contracts;
        } else {
          assert IsWithheld(front, capabilities, id, WithheldUnits(front, capabilities)[id]);
        }
      }
      forall id, x | IsWithheld(contracts, capabilities, id, x)
        ensures id in WithheldUnits(contracts, capabilities)
      {
        var c, u :| c in contracts && u in c.units && u.id == id && u.capability == Some(x) && x !in capabilities;
        if c != last {
          assert IsWithheld(front, capabilities, id, x);
        }
      }
    }
  }

  lemma {:induction false} NumbersOf(ports: seq<Port>)
    requires forall i, j :: 0 <= i < j < |ports| ==> ports[i].role != ports[j].role
    ensures forall p :: p in ports ==> p.role in PortNumbers(ports) && PortNumbers(ports)[p.role] == p.number
    ensures forall role :: role in PortNumbers(ports) ==> exists p :: p in ports && p.role == role
  {
    if ports != [] {
      var n := |ports| - 1;
      NumbersOf(ports[..n]);
      assert forall p :: p in ports <==> p in ports[..n] || p == ports[n];
      forall p | p in ports[..n] ensures p.role != ports[n].role {
        var i :| 0 <= i < n && ports[i] == p;
      }
    }
  }

  lemma {:induction false} AllPortsClaim(contracts: seq<Contract>)
    ensures AllClaims(contracts, PortNoun) == PortRoles(AllPorts(contracts))
    ensures forall p :: p in AllPorts(contracts) <==> exists c :: c in contracts && p in c.ports
  {
    if contracts != [] {
      var front, last := contracts[..|contracts| - 1], contracts[|contracts| - 1];
      AllPortsClaim(front);
      RolesTogether(AllPorts(front), last.ports);
      hide AllClaims, AllPorts, PortRoles;
      assert forall c :: c in contracts <==> c in front || c == last;
    }
  }

  lemma RolesTogether(a: seq<Port>, b: seq<Port>)
    ensures PortRoles(a + b) == PortRoles(a) + PortRoles(b)
  {
  }

  /** The registers say of every unit whose it is, and of every port role its number. */
  lemma RegistersSay(chosen: seq<Contract>)
    requires Joined(chosen)
    ensures forall c, u :: c in chosen && u in c.units ==>
              u.id in Owners(chosen, UnitNoun) && Owners(chosen, UnitNoun)[u.id] == c.componentId
    ensures forall id :: id in Owners(chosen, UnitNoun) ==> IsUnit(chosen, id)
    ensures forall c, p :: c in chosen && p in c.ports ==>
              p.role in PortNumbers(AllPorts(chosen)) && PortNumbers(AllPorts(chosen))[p.role] == p.number
    ensures forall role :: role in PortNumbers(AllPorts(chosen)) ==> IsPort(chosen, role)
  {
    hide Owners, AllPorts, PortNumbers, AllClaims, Joined, ClaimedOnce;
    assert AllGranted(chosen) by {
      JoinedIff(chosen);
    }
    UnitsAreOwned(chosen);
    forall c, u | c in chosen && u in c.units
      ensures u.id in Owners(chosen, UnitNoun) && Owners(chosen, UnitNoun)[u.id] == c.componentId
    {
      var i :| 0 <= i < |chosen| && chosen[i] == c;
      var k :| 0 <= k < |c.units| && c.units[k] == u;
      assert Claims(c, UnitNoun)[k] == u.id;
      EachClaimHasOneOwner(chosen, UnitNoun, i, u.id);
    }
    AllPortsClaim(chosen);
    var ports := AllPorts(chosen);
    forall i, j | 0 <= i < j < |ports| ensures ports[i].role != ports[j].role {
      assert PortRoles(ports)[i] != PortRoles(ports)[j];
    }
    NumbersOf(ports);
    forall role | role in PortNumbers(ports) ensures IsPort(chosen, role) {
      var p :| p in ports && p.role == role;
    }
  }

  /** Reading succeeds exactly on acceptable sets, and then says who owns every unit, which
      components were silent, and which port each role has. */
  method ReadComponentContracts(found: seq<Found>, platform: Contract, capabilities: set<string>)
    returns (r: Result<Topology, Problem>)
    ensures r.Ok? <==> Acceptable(found, platform, capabilities)
    ensures r.Ok? ==>
              && r.value.Declared() == Chosen(DeclaredIn(found) + [platform], capabilities)
              && r.value.silent == SilentIn(found)
              && (forall c, u :: c in r.value.Declared() && u in c.units ==>
                    u.id in r.value.unitOwner && r.value.unitOwner[u.id] == c.componentId)
              && (forall id :: id in r.value.unitOwner ==> IsUnit(r.value.Declared(), id))
              && (forall c, p :: c in r.value.Declared() && p in c.ports ==>
                    p.role in r.value.portRoles && r.value.portRoles[p.role] == p.number)
              && (forall role :: role in r.value.portRoles ==> IsPort(r.value.Declared(), role))
              && exists order :: CanStart(r.value.Declared(), order)
    ensures r.Err? && r.error.Withheld? ==>
              IsWithheld(DeclaredIn(found) + [platform], capabilities, r.error.dependency, r.error.capability)
  {
    hide CanStart, Joined, Consistent, AsksKnown, DeclaredIn, SilentIn, IsUnit, IsPort, IsWithheld;
    hide Chosen, Owners, AllPorts, PortNumbers, WithheldUnits, Selected;
    DeclaredAndSilent(found);
    var loaded, silent := LoadContracts(found, platform);
    if loaded.Err? {
      return Err(loaded.error);
    }
    ghost var declared := DeclaredIn(found);
    assert forall c :: c in declared + [platform] <==> c in declared || c == platform;
    var selected := SelectAll(loaded.value, capabilities);
    if selected.Err? {
      return Err(selected.error);
    }
    var chosen := selected.value;
    ChosenOfEach(loaded.value, capabilities);
    var unitOwner := Join(chosen, WithheldUnits(loaded.value, capabilities));
    if unitOwner.Err? {
      WithheldAre(loaded.value, capabilities);
      return Err(unitOwner.error);
    }
    var n := |chosen| - 1;
    var t := Topology(chosen[..n], chosen[n], silent, unitOwner.value, PortNumbers(AllPorts(chosen)));
    assert t.Declared() == chosen;
    hide Topology.Declared;
    RegistersSay(chosen);
    return Ok(t);
  }

  lemma ChosenOfEach(contracts: seq<Contract>, capabilities: set<string>)
    ensures |Chosen(contracts, capabilities)| == |contracts|
  {
  }

  lemma GraphOfOwned(contracts: seq<Contract>)
    ensures var owned := Owners(contracts, UnitNoun).Keys; var g := GraphOf(AllUnits(contracts), owned);
            g.Keys == owned && Closed(g)
  {
    var owned := Owners(contracts, UnitNoun).Keys;
    GraphIsClosed(AllUnits(contracts), owned);
    OwnersAreClaims(contracts, UnitNoun);
    AllUnitsClaim(contracts);
    var units := AllUnits(contracts);
    assert forall i :: 0 <= i < |units| ==> Ids(units)[i] == units[i].id;
  }
}
