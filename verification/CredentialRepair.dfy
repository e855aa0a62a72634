/** The pass that fills what a set of environment files is missing, and the two conditions the
    input contract checks, on what the files say. */
module CredentialRepair {
  import opened Common
  import opened CredentialClasses

  /** The three disjoint key sets of one environment file. */
  datatype FileKeys = FileKeys(required: set<string>, optional: set<string>, rendered: set<string>)

  type Env = map<string, string>
  type Envs = map<string, Env>

  /** The product's tables, as parameters. */
  datatype Tables = Tables(
    declared: map<string, FileKeys>, fixed: map<string, string>, pairs: seq<Pair>,
    providers: set<Slot>, retired: map<string, set<string>>)
  {
    /** One key has one writer, every shared slot is a required credential, and every fixed
        value is a value. */
    ghost predicate WellFormed() {
      && (forall f :: f in declared ==>
            declared[f].required !! declared[f].optional
            && (declared[f].required + declared[f].optional) !! declared[f].rendered)
      && (forall s :: s in Slots(pairs) ==>
            s.file in declared && s.key in declared[s.file].required && s.key !in fixed)
      && (forall s :: s in providers ==> s.file in declared)
      && retired.Keys <= declared.Keys
    }
  }

  const SHORTEST_SHARED := 24

  // ---------------------------------------------------------------- values in slots

  predicate Present(envs: Envs, s: Slot) {
    s.file in envs && s.key in envs[s.file]
  }

  function Values(envs: Envs, group: set<Slot>): set<string> {
    set s | s in group && Present(envs, s) && envs[s.file][s.key] != "" :: envs[s.file][s.key]
  }

  /** At most one value among the slots of a group that hold one. */
  predicate Agreed(envs: Envs, group: set<Slot>) {
    forall v, w :: v in Values(envs, group) && w in Values(envs, group) ==> v == w
  }

  function Missing(t: Tables, envs: Envs): set<Slot>
    requires envs.Keys == t.declared.Keys
  {
    set f, k | f in t.declared && k in t.declared[f].required && k !in envs[f] :: Slot(f, k)
  }

  function With(envs: Envs, s: Slot, value: string): (r: Envs)
    requires s.file in envs
    ensures r.Keys == envs.Keys
  {
    envs[s.file := envs[s.file][s.key := value]]
  }

  lemma ValuesWith(envs: Envs, s: Slot, value: string, group: set<Slot>)
    requires s.file in envs && !Present(envs, s)
    ensures Values(With(envs, s, value), group)
         == Values(envs, group) + if s in group && value != "" then {value} else {}
  {
    var after := With(envs, s, value);
    forall x | x in group && x != s ensures Present(after, x) <==> Present(envs, x) {}
    forall x | x in group && x != s && Present(envs, x) ensures after[x.file][x.key] == envs[x.file][x.key] {}
  }

  /** Everything that was there is still there, as it was. */
  ghost predicate Extends(before: Envs, after: Envs) {
    && before.Keys == after.Keys
    && forall s :: Present(before, s) ==> Present(after, s) && after[s.file][s.key] == before[s.file][s.key]
  }

  /** A value somebody can use: present, long enough, and not a template's placeholder. */
  type Usable = (string, string) -> bool

  ghost predicate ProvidersUsable(t: Tables, envs: Envs, usable: Usable) {
    forall s :: s in t.providers ==> Present(envs, s) && usable(envs[s.file][s.key], s.key)
  }

  datatype RepairError =
    | MissingProviders(slots: set<Slot>) | ValuesDisagree(slot: Slot) | Unreadable(file: string) | Unsafe(file: string)

  /** A missing credential whose class holds two different values stops the repair. */
  ghost predicate Repairable(t: Tables, envs: Envs)
    requires envs.Keys == t.declared.Keys
  {
    forall s :: s in Missing(t, envs) && s.key !in t.fixed ==> Agreed(envs, Component(t.pairs, s))
  }

  /** What a repair achieves: nothing present changes, nothing required is missing, fixed
      values are the contract's, and every class it touched holds one value. */
  ghost predicate Repaired(t: Tables, before: Envs, after: Envs)
    requires before.Keys == t.declared.Keys
  {
    && Extends(before, after)
    && (forall f :: f in t.declared ==> after[f].Keys == before[f].Keys + t.declared[f].required)
    && (forall s :: s in Missing(t, before) && s.key in t.fixed ==> after[s.file][s.key] == t.fixed[s.key])
    && forall s :: s in Missing(t, before) && s.key !in t.fixed ==>
         after[s.file][s.key] != "" && Agreed(after, Component(t.pairs, s))
  }

  // ---------------------------------------------------------------- the repair

  /** What the pass has done so far: `left` is still missing. */
  ghost predicate Underway(t: Tables, before: Envs, envs: Envs, left: set<Slot>)
    requires before.Keys == t.declared.Keys
  {
    && Extends(before, envs) && left <= Missing(t, before)
    && (forall s :: s in Missing(t, before) ==> (s in left <==> !Present(envs, s)))
    && (forall s :: Present(envs, s) ==> Present(before, s) || s in Missing(t, before))
    && (forall s :: s in Missing(t, before) - left && s.key in t.fixed ==> envs[s.file][s.key] == t.fixed[s.key])
    && (forall s :: s in Missing(t, before) - left && s.key !in t.fixed ==> envs[s.file][s.key] != "")
    && (forall s :: s in Missing(t, before) - left && s.key !in t.fixed ==> Agreed(envs, Component(t.pairs, s)))
    && (forall s :: s in left && s.key !in t.fixed ==>
          (Agreed(envs, Component(t.pairs, s)) <==> Agreed(before, Component(t.pairs, s))))
  }

  /** A slot written from the contract lies in no class but its own. */
  lemma FixedAlone(t: Tables, s: Slot, other: Slot)
    requires t.WellFormed() && s.key in t.fixed && other.key !in t.fixed
    ensures s !in Component(t.pairs, other)
  {
  }

  /** Filling a slot with its class's value, or a new one, keeps every class as agreed as it was. */
  lemma FillKeepsAgreement(t: Tables, envs: Envs, s: Slot, value: string, other: Slot)
    requires t.WellFormed() && s.file in envs && !Present(envs, s)
    requires other.key !in t.fixed && Component(t.pairs, other) <= Slots(t.pairs) + {other}
    requires s.key !in t.fixed ==>
      value != "" && Agreed(envs, Component(t.pairs, s))
      && (Values(envs, Component(t.pairs, s)) != {} ==> value in Values(envs, Component(t.pairs, s)))
    ensures Agreed(With(envs, s, value), Component(t.pairs, other)) <==> Agreed(envs, Component(t.pairs, other))
  {
    hide Component, Slots, Values, With;
    var group := Component(t.pairs, other);
    ValuesWith(envs, s, value, group);
    if s.key in t.fixed {
      FixedAlone(t, s, other);
    } else if s in group {
      SameComponent(t.pairs, other, s);
      assert Values(envs, group) == Values(envs, Component(t.pairs, s));
    }
  }

  lemma SameComponent(pairs: seq<Pair>, a: Slot, b: Slot)
    requires b in Component(pairs, a)
    ensures Component(pairs, b) == Component(pairs, a)
  {
    if b != a {
      LinkedFromDeclared(pairs, a, b);
      ComponentsAreDisjoint(pairs, b);
    }
  }

  lemma LinkedFromDeclared(pairs: seq<Pair>, a: Slot, b: Slot)
    requires b in Component(pairs, a) && b != a
    ensures a in Slots(pairs) && b in Slots(pairs)
  {
    var c :| IsChain(pairs, c) && c[0] == a && c[|c| - 1] == b;
    assert Joins(pairs, c[0], c[0 + 1]);
  }

  lemma FillNext(t: Tables, before: Envs, envs: Envs, left: set<Slot>, s: Slot, value: string)
    requires t.WellFormed() && before.Keys == t.declared.Keys && Underway(t, before, envs, left) && s in left
    requires s.key in t.fixed ==> value == t.fixed[s.key]
    requires s.key !in t.fixed ==>
      value != "" && Agreed(envs, Component(t.pairs, s))
      && (Values(envs, Component(t.pairs, s)) != {} ==> value in Values(envs, Component(t.pairs, s)))
    ensures Underway(t, before, With(envs, s, value), left - {s})
  {
    hide Component, Agreed, Slots;
    var after := With(envs, s, value);
    forall x ensures Present(after, x) <==> Present(envs, x) || x == s {}
    forall x | Present(envs, x) ensures after[x.file][x.key] == envs[x.file][x.key] {}
    forall x | x in Missing(t, before) && x.key !in t.fixed
      ensures Agreed(after, Component(t.pairs, x)) <==> Agreed(envs, Component(t.pairs, x))
    {
      ComponentIsDeclared(t.pairs, x);
      FillKeepsAgreement(t, envs, s, value, x);
    }
  }

  lemma ComponentIsDeclared(pairs: seq<Pair>, x: Slot)
    ensures Component(pairs, x) <= Slots(pairs) + {x}
  {
  }

  lemma UnderwayAtFirst(t: Tables, envs: Envs)
    requires envs.Keys == t.declared.Keys
    ensures Underway(t, envs, envs, Missing(t, envs))
  {
  }

  lemma UnderwayAtLast(t: Tables, before: Envs, envs: Envs)
    requires before.Keys == t.declared.Keys && Underway(t, before, envs, {})
    ensures Repaired(t, before, envs) && Repairable(t, before)
  {
    hide Component;
    forall f | f in t.declared ensures envs[f].Keys == before[f].Keys + t.declared[f].required {
      forall k ensures k in envs[f] <==> k in before[f] || k in t.declared[f].required {
        assert Present(envs, Slot(f, k)) <==> k in envs[f];
        assert Present(before, Slot(f, k)) <==> k in before[f];
        assert Slot(f, k) in Missing(t, before) <==> k in t.declared[f].required && k !in before[f];
      }
    }
    forall s | s in Missing(t, before) && s.key !in t.fixed ensures Agreed(before, Component(t.pairs, s)) {
      ValuesGrow(before, envs, Component(t.pairs, s));
    }
  }

  lemma ValuesGrow(before: Envs, after: Envs, group: set<Slot>)
    requires Extends(before, after)
    ensures Values(before, group) <= Values(after, group)
  {
  }

  type Minter = Slot -> string

  /** A value that was minted for one of these slots. */
  ghost predicate IsMinted(mint: Minter, group: set<Slot>, value: string) {
    exists x :: x in group && value == mint(x)
  }

  /** What was filled where a class held nothing is what was minted for one of its slots. */
  ghost predicate MintedWhereNew(t: Tables, before: Envs, envs: Envs, filled: set<Slot>, mint: Minter) {
    forall s :: s in filled && s.key !in t.fixed && Values(before, Component(t.pairs, s)) == {} ==>
      Present(envs, s) && IsMinted(mint, Component(t.pairs, s), envs[s.file][s.key])
  }

  ghost predicate Minted(t: Tables, before: Envs, after: Envs, mint: Minter)
    requires before.Keys == t.declared.Keys
  {
    MintedWhereNew(t, before, after, Missing(t, before), mint)
  }

  ghost predicate MintsLong(mint: Minter) {
    forall s :: |mint(s)| >= SHORTEST_SHARED
  }

  lemma MintedNext(t: Tables, before: Envs, envs: Envs, left: set<Slot>, s: Slot, value: string, mint: Minter)
    requires t.WellFormed() && before.Keys == t.declared.Keys && Underway(t, before, envs, left) && s in left
    requires MintedWhereNew(t, before, envs, Missing(t, before) - left, mint)
    requires s.key !in t.fixed ==>
      value in Values(envs, Component(t.pairs, s)) || IsMinted(mint, Component(t.pairs, s), value)
    ensures MintedWhereNew(t, before, With(envs, s, value), Missing(t, before) - (left - {s}), mint)
  {
    hide Component, Slots, Underway, Values, IsMinted;
    var group := Component(t.pairs, s);
    if s.key !in t.fixed && Values(before, group) == {} && value in Values(envs, group) {
      ExistingIsMinted(t, before, envs, left, s, value, mint);
    }
    LeftIsMissing(t, before, envs, left);
    var after := With(envs, s, value);
    forall x | x in Missing(t, before) - left
      ensures Present(after, x) && after[x.file][x.key] == envs[x.file][x.key]
    {}
  }

  lemma LeftIsMissing(t: Tables, before: Envs, envs: Envs, left: set<Slot>)
    requires before.Keys == t.declared.Keys && Underway(t, before, envs, left)
    ensures forall s :: s in left ==> s.file in envs && !Present(envs, s)
    ensures forall s :: s in Missing(t, before) - left ==> Present(envs, s)
  {
  }

  /** A value found in a class that held nothing at first was minted for one of its slots. */
  lemma ExistingIsMinted(
      t: Tables, before: Envs, envs: Envs, left: set<Slot>, s: Slot, value: string, mint: Minter)
    requires t.WellFormed() && before.Keys == t.declared.Keys && Underway(t, before, envs, left)
    requires MintedWhereNew(t, before, envs, Missing(t, before) - left, mint)
    requires s.key !in t.fixed && Values(before, Component(t.pairs, s)) == {}
    requires value in Values(envs, Component(t.pairs, s))
    ensures IsMinted(mint, Component(t.pairs, s), value)
  {
    hide Component, Slots, IsMinted, Values;
    var group := Component(t.pairs, s);
    var x := HolderOf(envs, group, value);
    HeldIsValue(before, group, x);
    SameComponent(t.pairs, s, x);
    if x.key in t.fixed {
      FixedAlone(t, x, s);
    }
  }

  lemma HolderOf(envs: Envs, group: set<Slot>, value: string) returns (x: Slot)
    requires value in Values(envs, group)
    ensures x in group && Present(envs, x) && envs[x.file][x.key] == value != ""
  {
    x :| x in group && Present(envs, x) && envs[x.file][x.key] == value && value != "";
  }

  lemma HeldIsValue(envs: Envs, group: set<Slot>, x: Slot)
    ensures x in group && Present(envs, x) && envs[x.file][x.key] != "" ==> envs[x.file][x.key] in Values(envs, group)
  {
  }

  /** The pass over what is missing: it stops exactly at a class that already disagrees. */
  method FillMissing(t: Tables, before: Envs, mint: Minter) returns (r: Result<Envs, RepairError>)
    requires t.WellFormed() && before.Keys == t.declared.Keys
    requires MintsLong(mint)
    ensures r.Ok? <==> Repairable(t, before)
    ensures r.Ok? ==> Repaired(t, before, r.value) && Minted(t, before, r.value, mint)
    ensures r.Err? ==>
              && r.error.ValuesDisagree? && r.error.slot in Missing(t, before)
              && r.error.slot.key !in t.fixed && !Agreed(before, Component(t.pairs, r.error.slot))
  {
    hide Component, Missing, Repaired, Repairable, Underway, Agreed, Values, With, Slots;
    SharedIsNotFixed(t);
    NothingFilled(t, before, mint);
    var envs := before;
    var left := Missing(t, envs);
    UnderwayAtFirst(t, before);
    var minted: map<set<Slot>, string> := map[];
    while left != {}
      invariant Underway(t, before, envs, left)
      invariant MintedWhereNew(t, before, envs, Missing(t, before) - left, mint)
      invariant forall g :: g in minted ==> |minted[g]| >= SHORTEST_SHARED && IsMinted(mint, g, minted[g])
      decreases left
    {
      var s :| s in left;
      UnderwayAt(t, before, envs, left, s);
      var value;
      if s.key in t.fixed {
        value := t.fixed[s.key];
      } else {
        var group := SharedGroup(t.pairs, s);
        var existing := Values(envs, group);
        AgreedIsOneValue(envs, group);
        if existing != {} {
          value :| value in existing;
          if existing != {value} {
            NotRepairable(t, before, s);
            return Err(ValuesDisagree(s));
          }
        } else {
          if group !in minted {
            assert s in group by {
              LinkedToItself(t.pairs, s);
              InOwnComponent(t.pairs, s);
            }
            minted := minted[group := mint(s)];
          }
          value := minted[group];
        }
      }
      FillNext(t, before, envs, left, s, value);
      MintedNext(t, before, envs, left, s, value, mint);
      envs := With(envs, s, value);
      left := left - {s};
    }
    UnderwayAtLast(t, before, envs);
    assert Missing(t, before) - left == Missing(t, before);
    return Ok(envs);
  }

  lemma SharedIsNotFixed(t: Tables)
    requires t.WellFormed()
    ensures forall s :: s in Slots(t.pairs) ==> s.key !in t.fixed
  {
  }

  lemma NothingFilled(t: Tables, before: Envs, mint: Minter)
    requires before.Keys == t.declared.Keys
    ensures MintedWhereNew(t, before, before, Missing(t, before) - Missing(t, before), mint)
  {
  }

  lemma UnderwayAt(t: Tables, before: Envs, envs: Envs, left: set<Slot>, s: Slot)
    requires before.Keys == t.declared.Keys && Underway(t, before, envs, left) && s in left
    ensures s.file in envs && s in Missing(t, before)
    ensures s.key !in t.fixed ==> (Agreed(envs, Component(t.pairs, s)) <==> Agreed(before, Component(t.pairs, s)))
  {
  }

  lemma AgreedIsOneValue(envs: Envs, group: set<Slot>)
    ensures Agreed(envs, group) <==> forall v :: v in Values(envs, group) ==> Values(envs, group) == {v}
    ensures "" !in Values(envs, group)
  {
    if Agreed(envs, group) {
      forall v | v in Values(envs, group) ensures Values(envs, group) == {v} {}
    }
  }

  lemma NotRepairable(t: Tables, before: Envs, s: Slot)
    requires before.Keys == t.declared.Keys
    requires s in Missing(t, before) && s.key !in t.fixed && !Agreed(before, Component(t.pairs, s))
    ensures !Repairable(t, before)
  {
  }

  function Stale(t: Tables, f: string): set<string>
    requires f in t.declared
  {
    t.declared[f].rendered + if f in t.retired then t.retired[f] else {}
  }

  /** Every file without its rendered and its retired keys. */
  function Withdrawn(t: Tables, envs: Envs): Envs
    requires envs.Keys == t.declared.Keys
  {
    map f | f in envs :: envs[f] - Stale(t, f)
  }

  // ---------------------------------------------------------------- the contract

  /** The key-set check of the input contract, for one file. */
  ghost predicate FileHolds(keys: FileKeys, env: Env) {
    env.Keys !! keys.rendered && keys.required <= env.Keys <= keys.required + keys.optional
  }

  ghost predicate KeySetsHold(t: Tables, envs: Envs)
    requires envs.Keys == t.declared.Keys
  {
    forall f :: f in t.declared ==> FileHolds(t.declared[f], envs[f])
  }

  /** The relationship check: both sides of a pair hold one value, long enough. */
  ghost predicate PairHolds(envs: Envs, p: Pair) {
    && Present(envs, p.left) && Present(envs, p.right)
    && envs[p.left.file][p.left.key] == envs[p.right.file][p.right.key]
    && |envs[p.left.file][p.left.key]| >= SHORTEST_SHARED
  }

  ghost predicate SharedValuesHold(t: Tables, envs: Envs) {
    forall p :: p in t.pairs ==> PairHolds(envs, p)
  }

  /** The prior input set holds only keys somebody once declared. */
  ghost predicate OnlyKnownKeys(t: Tables, envs: Envs)
    requires envs.Keys == t.declared.Keys
  {
    forall f :: f in t.declared ==> Known(t, f, envs[f])
  }

  ghost predicate Known(t: Tables, f: string, env: Env)
    requires f in t.declared
  {
    forall k :: k in env ==>
      || k in t.declared[f].required || k in t.declared[f].optional || k in t.declared[f].rendered
      || (f in t.retired && k in t.retired[f])
  }

  /** What it holds in shared slots is long enough, and agreed within each class. */
  ghost predicate SharedAgree(t: Tables, envs: Envs) {
    && (forall s :: s in Slots(t.pairs) && Present(envs, s) ==> |envs[s.file][s.key]| >= SHORTEST_SHARED)
    && forall s :: s in Slots(t.pairs) ==> Agreed(envs, Component(t.pairs, s))
  }

  /** After withdrawing and filling what is missing, the key sets are the contract's exactly
      when the prior set held only required, optional, rendered or retired keys. */
  lemma KeySetsHoldIff(t: Tables, prior: Envs, after: Envs)
    requires t.WellFormed() && prior.Keys == t.declared.Keys == after.Keys
    requires forall f :: f in t.declared ==> Refilled(t, f, prior[f], after[f])
    ensures KeySetsHold(t, after) <==> OnlyKnownKeys(t, prior)
  {
    hide FileHolds, Known, Refilled;
    forall f | f in t.declared ensures FileHolds(t.declared[f], after[f]) <==> Known(t, f, prior[f]) {
      FileHoldsIff(t, f, prior[f], after[f]);
    }
  }

  /** What the file held less its rendered and its retired keys, and what the contract requires. */
  ghost predicate Refilled(t: Tables, f: string, prior: Env, after: Env)
    requires f in t.declared
  {
    forall k :: k in after <==>
      || (k in prior && k !in t.declared[f].rendered && !(f in t.retired && k in t.retired[f]))
      || k in t.declared[f].required
  }

  lemma FileHoldsIff(t: Tables, f: string, prior: Env, after: Env)
    requires t.WellFormed() && f in t.declared && Refilled(t, f, prior, after)
    ensures FileHolds(t.declared[f], after) <==> Known(t, f, prior)
  {
    var keys := t.declared[f];
    if Known(t, f, prior) {
      assert forall k :: k in after.Keys ==> k in keys.required + keys.optional;
    }
    if FileHolds(keys, after) {
      forall k | k in prior && k !in keys.rendered && !(f in t.retired && k in t.retired[f])
        ensures k in keys.required || k in keys.optional
      {
        assert k in after.Keys;
      }
    }
  }

  lemma InOwnComponent(pairs: seq<Pair>, s: Slot)
    ensures s in Component(pairs, s)
  {
    LinkedToItself(pairs, s);
  }

  lemma GroupIsShared(pairs: seq<Pair>, s: Slot, x: Slot)
    requires s in Slots(pairs) && x in Component(pairs, s)
    ensures x in Slots(pairs)
  {
  }

  lemma SharedSlotIsThere(t: Tables, kept: Envs, after: Envs, s: Slot)
    requires t.WellFormed() && kept.Keys == t.declared.Keys && Repaired(t, kept, after) && s in Slots(t.pairs)
    ensures Present(after, s) && Extends(kept, after)
    ensures !Present(kept, s) ==>
              s in Missing(t, kept) && after[s.file][s.key] != "" && Agreed(after, Component(t.pairs, s))
  {
    hide Component, Agreed, Slots;
    assert s.key in after[s.file].Keys;
  }

  lemma RepairExtends(t: Tables, kept: Envs, after: Envs)
    requires kept.Keys == t.declared.Keys && Repaired(t, kept, after)
    ensures Extends(kept, after)
  {
  }

  lemma PairIsOneClass(pairs: seq<Pair>, p: Pair)
    requires p in pairs
    ensures p.left in Component(pairs, p.left) && p.right in Component(pairs, p.left)
    ensures Component(pairs, p.right) == Component(pairs, p.left)
  {
    LinkedToItself(pairs, p.left);
    JoinedAreLinked(pairs, p.left, p.right);
    SameComponent(pairs, p.left, p.right);
  }

  /** Where the shared values hold, each class holds one of them, as did all that was there. */
  lemma HoldsAlongChains(t: Tables, kept: Envs, after: Envs, s: Slot)
    requires Extends(kept, after) && SharedValuesHold(t, after) && s in Slots(t.pairs)
    ensures Agreed(kept, Component(t.pairs, s))
    ensures Present(kept, s) ==> |kept[s.file][s.key]| >= SHORTEST_SHARED
    ensures forall x :: x in Component(t.pairs, s) ==>
              Present(after, s) && Present(after, x) && after[x.file][x.key] == after[s.file][s.key]
  {
    hide Component, Agreed;
    var held := Shared(t.pairs, after);
    SharedIsHeld(t.pairs, after, s);
    forall x | x in Component(t.pairs, s) ensures x in held && held[x] == held[s] {
      ComponentLinks(t.pairs, s, x);
      ValueAlongChain(t.pairs, held, s, x);
    }
    OneValueAgrees(kept, Component(t.pairs, s), held[s]);
  }

  lemma OneValueAgrees(envs: Envs, group: set<Slot>, value: string)
    requires forall x :: x in group && Present(envs, x) ==> envs[x.file][x.key] == value
    ensures Agreed(envs, group)
  {
  }

  lemma ComponentLinks(pairs: seq<Pair>, a: Slot, b: Slot)
    requires b in Component(pairs, a)
    ensures Linked(pairs, a, b)
  {
  }

  ghost function Shared(pairs: seq<Pair>, envs: Envs): map<Slot, string> {
    map x | x in Slots(pairs) && Present(envs, x) :: envs[x.file][x.key]
  }

  lemma SharedIsHeld(pairs: seq<Pair>, envs: Envs, s: Slot)
    requires (forall p :: p in pairs ==> PairHolds(envs, p)) && s in Slots(pairs)
    ensures s in Shared(pairs, envs) && |Shared(pairs, envs)[s]| >= SHORTEST_SHARED
    ensures forall x, y :: x in Shared(pairs, envs) && Joins(pairs, x, y) ==>
              y in Shared(pairs, envs) && Shared(pairs, envs)[y] == Shared(pairs, envs)[x]
  {
    var p :| p in pairs && (p.left == s || p.right == s);
    assert PairHolds(envs, p);
    forall x, y | x in Shared(pairs, envs) && Joins(pairs, x, y)
      ensures y in Shared(pairs, envs) && Shared(pairs, envs)[y] == Shared(pairs, envs)[x]
    {
      var q := if Pair(x, y) in pairs then Pair(x, y) else Pair(y, x);
      assert q in pairs && PairHolds(envs, q);
    }
  }

  lemma ValueAlongChain(pairs: seq<Pair>, held: map<Slot, string>, a: Slot, b: Slot)
    requires a in held && Linked(pairs, a, b)
    requires forall x, y :: x in held && Joins(pairs, x, y) ==> y in held && held[y] == held[x]
    ensures b in held && held[b] == held[a]
  {
    LinkedKeeps(pairs, held, a, b);
  }

  /** The two checks, in the order the contract makes them. */
  method ContractHolds(t: Tables, envs: Envs) returns (ok: bool)
    requires t.WellFormed() && envs.Keys == t.declared.Keys
    ensures ok <==> KeySetsHold(t, envs) && SharedValuesHold(t, envs)
  {
    var left := t.declared.Keys;
    while left != {}
      invariant left <= t.declared.Keys
      invariant forall f :: f in t.declared && f !in left ==> FileHolds(t.declared[f], envs[f])
      decreases left
    {
      var name :| name in left;
      var keys, present := t.declared[name], envs[name].Keys;
      if present * keys.rendered != {} {
        return false;
      }
      if !(keys.required <= present) || !(present <= keys.required + keys.optional) {
        return false;
      }
      left := left - {name};
    }
    for i := 0 to |t.pairs|
      invariant forall p :: p in t.pairs[..i] ==> PairHolds(envs, p)
    {
      var p := t.pairs[i];
      assert p.left in Slots(t.pairs) && p.right in Slots(t.pairs);
      assert FileHolds(t.declared[p.left.file], envs[p.left.file]);
      assert FileHolds(t.declared[p.right.file], envs[p.right.file]);
      var left, right := envs[p.left.file][p.left.key], envs[p.right.file][p.right.key];
      if left != right || |left| < SHORTEST_SHARED {
        assert !PairHolds(envs, p);
        return false;
      }
    }
    assert t.pairs[..|t.pairs|] == t.pairs;
    return true;
  }

  /** Shared values that agree never stop a repair. */
  lemma AgreedIsRepairable(t: Tables, envs: Envs)
    requires envs.Keys == t.declared.Keys && SharedAgree(t, envs)
    ensures Repairable(t, envs)
  {
    hide Component;
    forall s | s in Missing(t, envs) && s.key !in t.fixed ensures Agreed(envs, Component(t.pairs, s)) {
      if s !in Slots(t.pairs) {
        LonelySlot(t.pairs, s);
      }
    }
  }

  lemma LonelySlot(pairs: seq<Pair>, s: Slot)
    requires s !in Slots(pairs)
    ensures Component(pairs, s) == {s}
  {
    InOwnComponent(pairs, s);
    forall x | x in Component(pairs, s) ensures x == s {
      if x != s {
        LinkedFromDeclared(pairs, s, x);
      }
    }
  }
}
