/** The repair and the withdrawal on the environment files themselves. Each verb reads what the
    last one wrote, and a value loses one pair of quotes each time its file is written and read
    again. */
module CredentialFiles {
  import opened Common
  import opened CredentialClasses
  import opened CredentialRepair
  import opened TextLines
  import ProviderEnv

  type Texts = map<string, string>

  predicate Readable(texts: Texts) {
    forall f :: f in texts ==> ProviderEnv.Parsed(texts[f]).Some?
  }

  /** What the files say. */
  function Reading(texts: Texts): (r: Envs)
    requires Readable(texts)
    ensures r.Keys == texts.Keys
  {
    map f | f in texts :: ProviderEnv.Parsed(texts[f]).value
  }

  function Written(env: Env, order: Order): string
    requires IsOrder(order) && ProviderEnv.Writable(env)
  {
    OrderListsKeys(env.Keys, order);
    ProviderEnv.Serialized(env, order(env.Keys)).value
  }

  /** The directory after these files are written anew. */
  ghost predicate Rewritten(before: Texts, after: Texts, names: set<string>, envs: Envs, order: Order)
    requires IsOrder(order)
  {
    && after.Keys == before.Keys == envs.Keys
    && forall f :: f in before ==>
         if f in names then ProviderEnv.Writable(envs[f]) && after[f] == Written(envs[f], order)
         else after[f] == before[f]
  }

  /** What these files say once they are written and read again. */
  function Reread(envs: Envs, names: set<string>): (r: Envs)
    ensures r.Keys == envs.Keys
  {
    map f | f in envs :: if f in names then ProviderEnv.Unwrapped(envs[f]) else envs[f]
  }

  /** No value that these files hold is wrapped in quotes. */
  ghost predicate NothingWrapped(envs: Envs, names: set<string>) {
    forall s :: Present(envs, s) && s.file in names ==> !ProviderEnv.Quoted(envs[s.file][s.key])
  }

  /** No value that these files hold is empty. */
  ghost predicate NothingEmpty(envs: Envs, names: set<string>) {
    forall s :: Present(envs, s) && s.file in names ==> envs[s.file][s.key] != ""
  }

  lemma RewrittenReads(before: Texts, after: Texts, names: set<string>, envs: Envs, order: Order)
    requires IsOrder(order) && Rewritten(before, after, names, envs, order)
    requires forall f :: f in before && f !in names ==> ProviderEnv.Parsed(before[f]) == Some(envs[f])
    ensures Readable(after) && Reading(after) == Reread(envs, names)
  {
    hide ProviderEnv.Parsed, ProviderEnv.Serialized, ProviderEnv.Writable, ProviderEnv.Unwrapped, IsOrder;
    forall f | f in after ensures ProviderEnv.Parsed(after[f]) == Some(Reread(envs, names)[f]) {
      if f in names {
        OrderListsKeys(envs[f].Keys, order);
        ProviderEnv.ParseOfSerialized(envs[f], order(envs[f].Keys));
      }
    }
  }

  /** Reading again keeps everything that was there exactly when no value of a rewritten file
      is wrapped in quotes. */
  lemma RereadExtendsIff(envs: Envs, names: set<string>)
    ensures Extends(envs, Reread(envs, names)) <==> NothingWrapped(envs, names)
  {
    hide ProviderEnv.Quoted, ProviderEnv.Unquoted;
    forall s | Present(envs, s)
      ensures Present(Reread(envs, names), s)
      ensures Reread(envs, names)[s.file][s.key] == envs[s.file][s.key]
          <==> !(s.file in names && ProviderEnv.Quoted(envs[s.file][s.key]))
    {
      ProviderEnv.UnquotedIsShorter(envs[s.file][s.key]);
    }
  }

  // ---------------------------------------------------------------- what is written

  /** A value that is written and read back as it is. */
  predicate Lasts(value: string) {
    value != "" && ProviderEnv.Plain(value) && !ProviderEnv.Quoted(value)
  }

  /** The names the product requires and the values it fixes fit on a line. */
  ghost predicate TablesLast(t: Tables) {
    && (forall f, k :: f in t.declared && k in t.declared[f].required ==> ProviderEnv.IsKey(k))
    && forall k :: k in t.fixed ==> Lasts(t.fixed[k])
  }

  ghost predicate MintsTokens(mint: Minter) {
    forall s :: |mint(s)| >= SHORTEST_SHARED && Lasts(mint(s))
  }

  /** The files a repair writes. */
  function Touched(t: Tables, envs: Envs): (r: set<string>)
    requires envs.Keys == t.declared.Keys
    ensures r <= envs.Keys
  {
    set s | s in Missing(t, envs) :: s.file
  }

  lemma UntouchedStay(t: Tables, before: Envs, after: Envs, f: string)
    requires before.Keys == t.declared.Keys && Repaired(t, before, after)
    requires f in before && f !in Touched(t, before)
    ensures after[f] == before[f]
  {
    hide Component;
    assert forall k :: k in t.declared[f].required && k !in before[f] ==> Slot(f, k) in Missing(t, before);
    assert forall k :: k in before[f] ==> Present(before, Slot(f, k));
  }

  /** Where a value that was filled in comes from. */
  lemma FilledIsKnown(t: Tables, before: Envs, after: Envs, mint: Minter, s: Slot)
    requires before.Keys == t.declared.Keys && Repaired(t, before, after) && Minted(t, before, after, mint)
    requires s in Missing(t, before)
    ensures Present(after, s)
    ensures s.key in t.fixed ==> after[s.file][s.key] == t.fixed[s.key]
    ensures s.key !in t.fixed ==>
              if Values(before, Component(t.pairs, s)) != {}
              then after[s.file][s.key] in Values(before, Component(t.pairs, s))
              else IsMinted(mint, Component(t.pairs, s), after[s.file][s.key])
  {
    hide Component;
    var group := Component(t.pairs, s);
    assert s.key in after[s.file].Keys;
    if s.key !in t.fixed && Values(before, group) != {} {
      ValuesGrow(before, after, group);
      InOwnComponent(t.pairs, s);
      HeldIsValue(after, group, s);
      var v :| v in Values(before, group);
    }
  }

  ghost predicate AllPlain(envs: Envs) {
    forall s :: Present(envs, s) ==> ProviderEnv.Plain(envs[s.file][s.key])
  }

  lemma FilledIsPlain(t: Tables, before: Envs, after: Envs, mint: Minter, s: Slot)
    requires before.Keys == t.declared.Keys && Repaired(t, before, after) && Minted(t, before, after, mint)
    requires TablesLast(t) && MintsTokens(mint) && AllPlain(before) && s in Missing(t, before)
    ensures Present(after, s) && ProviderEnv.IsKey(s.key)
    ensures after[s.file][s.key] != "" && ProviderEnv.Plain(after[s.file][s.key])
  {
    hide Component, Repaired, Minted, ProviderEnv.Plain, ProviderEnv.IsKey, ProviderEnv.Quoted;
    FilledIsKnown(t, before, after, mint, s);
    if s.key !in t.fixed && Values(before, Component(t.pairs, s)) != {} {
      var _ := HolderOf(before, Component(t.pairs, s), after[s.file][s.key]);
    }
  }

  /** A repaired file can be written exactly when nothing it held is empty. */
  lemma RepairedIsWritableIff(t: Tables, before: Envs, after: Envs, mint: Minter, f: string)
    requires before.Keys == t.declared.Keys && Repaired(t, before, after) && Minted(t, before, after, mint)
    requires TablesLast(t) && MintsTokens(mint) && f in before
    requires AllPlain(before) && ProviderEnv.Readings(before[f])
    ensures ProviderEnv.Writable(after[f]) <==> NothingEmpty(before, {f})
  {
    hide Component, Minted, ProviderEnv.Plain, ProviderEnv.IsKey;
    forall k | k in after[f]
      ensures ProviderEnv.IsKey(k) && ProviderEnv.Plain(after[f][k])
      ensures after[f][k] == "" ==> k in before[f] && before[f][k] == ""
    {
      var s := Slot(f, k);
      if k in before[f] {
        assert Present(before, s);
      } else {
        assert s in Missing(t, before);
        FilledIsPlain(t, before, after, mint, s);
      }
    }
    forall k | k in before[f] ensures k in after[f] && after[f][k] == before[f][k] {
      assert Present(before, Slot(f, k));
    }
    if ProviderEnv.Writable(after[f]) {
      forall s | Present(before, s) && s.file == f ensures before[s.file][s.key] != "" {}
    }
    if NothingEmpty(before, {f}) {
      forall k | k in before[f] ensures before[f][k] != "" {
        assert Present(before, Slot(f, k));
      }
    }
  }

  // ---------------------------------------------------------------- shared values

  /** Once the rewritten files are read again, what was kept in shared slots is long and agreed,
      and no class with a slot to fill keeps a value wrapped in quotes where it stays as it is. */
  ghost predicate SharedSettled(t: Tables, kept: Envs)
    requires kept.Keys == t.declared.Keys
  {
    && SharedAgree(t, Reread(kept, Touched(t, kept)))
    && forall s, x :: s in Missing(t, kept) && s in Slots(t.pairs) && x in Component(t.pairs, s) ==>
         Present(kept, x) && x.file !in Touched(t, kept) ==> !ProviderEnv.Quoted(kept[x.file][x.key])
  }

  lemma RereadKeepsExtending(before: Envs, after: Envs, names: set<string>)
    requires Extends(before, after)
    ensures Extends(Reread(before, names), Reread(after, names))
  {
    hide ProviderEnv.Unquoted;
    forall s | Present(Reread(before, names), s)
      ensures Present(Reread(after, names), s)
      ensures Reread(after, names)[s.file][s.key] == Reread(before, names)[s.file][s.key]
    {
      assert Present(before, s);
    }
  }

  function ReadBack(s: Slot, value: string, names: set<string>): string {
    if s.file in names then ProviderEnv.Unquoted(value) else value
  }

  lemma RereadSlot(envs: Envs, names: set<string>, s: Slot)
    ensures Present(Reread(envs, names), s) <==> Present(envs, s)
    ensures Present(envs, s) ==> Reread(envs, names)[s.file][s.key] == ReadBack(s, envs[s.file][s.key], names)
  {
  }

  lemma TouchedSlot(t: Tables, kept: Envs, s: Slot)
    requires kept.Keys == t.declared.Keys && s in Missing(t, kept)
    ensures s.file in Touched(t, kept) && !Present(kept, s)
  {
  }

  lemma SharedIsLong(t: Tables, envs: Envs, s: Slot, y: Slot)
    requires SharedAgree(t, envs) && s in Slots(t.pairs) && y in Component(t.pairs, s) && Present(envs, y)
    ensures |envs[y.file][y.key]| >= SHORTEST_SHARED && envs[y.file][y.key] in Values(envs, Component(t.pairs, s))
    ensures Agreed(envs, Component(t.pairs, s))
  {
    hide Component, Slots, Agreed;
    GroupIsShared(t.pairs, s, y);
    HeldIsValue(envs, Component(t.pairs, s), y);
  }

  lemma SharedIsOneValue(t: Tables, envs: Envs, s: Slot, y: Slot, z: Slot)
    requires SharedAgree(t, envs) && s in Slots(t.pairs)
    requires y in Component(t.pairs, s) && Present(envs, y) && z in Component(t.pairs, s) && Present(envs, z)
    ensures envs[y.file][y.key] == envs[z.file][z.key]
  {
    hide Component, Slots;
    SharedIsLong(t, envs, s, y);
    SharedIsLong(t, envs, s, z);
  }

  /** What a slot of a class is read back with, where the class keeps the value of z. */
  lemma KeptSlotSettles(t: Tables, kept: Envs, s: Slot, z: Slot)
    requires t.WellFormed() && kept.Keys == t.declared.Keys && s in Slots(t.pairs)
    requires SharedSettled(t, kept) && z in Component(t.pairs, s) && Present(kept, z)
    ensures |ReadBack(z, kept[z.file][z.key], Touched(t, kept))| >= SHORTEST_SHARED
    ensures forall y :: y in Component(t.pairs, s) && Present(kept, y) ==>
              ReadBack(y, kept[y.file][y.key], Touched(t, kept)) == ReadBack(z, kept[z.file][z.key], Touched(t, kept))
  {
    hide Component, Slots, Missing, Touched, SharedAgree, ReadBack;
    var T, group := Touched(t, kept), Component(t.pairs, s);
    RereadSlot(kept, T, z);
    SharedIsLong(t, Reread(kept, T), s, z);
    forall y | y in group && Present(kept, y)
      ensures ReadBack(y, kept[y.file][y.key], T) == ReadBack(z, kept[z.file][z.key], T)
    {
      RereadSlot(kept, T, y);
      SharedIsOneValue(t, Reread(kept, T), s, y, z);
    }
  }

  /** Where a class keeps nothing, nothing of it was there. */
  lemma NothingKept(t: Tables, kept: Envs, s: Slot)
    requires t.WellFormed() && kept.Keys == t.declared.Keys && s in Slots(t.pairs)
    requires SharedSettled(t, kept) && Values(kept, Component(t.pairs, s)) == {}
    ensures forall y :: y in Component(t.pairs, s) ==> !Present(kept, y)
  {
    hide Component, Slots, Missing, Touched, SharedAgree;
    var T, group := Touched(t, kept), Component(t.pairs, s);
    forall y | y in group ensures !Present(kept, y) {
      if Present(kept, y) {
        RereadSlot(kept, T, y);
        SharedIsLong(t, Reread(kept, T), s, y);
        HeldIsValue(kept, group, y);
      }
    }
  }

  /** A shared slot of a settled set holds a long value, the one its whole class is read back with. */
  lemma SettledSlot(t: Tables, kept: Envs, after: Envs, mint: Minter, s: Slot)
    requires t.WellFormed() && kept.Keys == t.declared.Keys && s in Slots(t.pairs)
    requires Repaired(t, kept, after) && Minted(t, kept, after, mint) && MintsTokens(mint)
    requires SharedSettled(t, kept)
    ensures Present(after, s)
    ensures |ReadBack(s, after[s.file][s.key], Touched(t, kept))| >= SHORTEST_SHARED
    ensures forall y :: y in Component(t.pairs, s) && Present(kept, y) ==>
              ReadBack(s, after[s.file][s.key], Touched(t, kept)) == ReadBack(y, kept[y.file][y.key], Touched(t, kept))
  {
    hide Component, Slots, Repaired, Minted, Missing, Touched, SharedAgree, Agreed, Values;
    var T, group := Touched(t, kept), Component(t.pairs, s);
    SharedSlotIsThere(t, kept, after, s);
    if Present(kept, s) {
      InOwnComponent(t.pairs, s);
      KeptSlotSettles(t, kept, s, s);
    } else {
      TouchedSlot(t, kept, s);
      FilledIsKnown(t, kept, after, mint, s);
      SharedIsNotFixed(t);
      if Values(kept, group) == {} {
        NothingKept(t, kept, s);
      } else {
        var z := HolderOf(kept, group, after[s.file][s.key]);
        KeptSlotSettles(t, kept, s, z);
      }
    }
  }

  lemma SettledPair(t: Tables, kept: Envs, after: Envs, mint: Minter, p: Pair)
    requires t.WellFormed() && kept.Keys == t.declared.Keys && p in t.pairs
    requires Repaired(t, kept, after) && Minted(t, kept, after, mint) && MintsTokens(mint)
    requires SharedSettled(t, kept)
    ensures PairHolds(Reread(after, Touched(t, kept)), p)
  {
    hide Component, Repaired, Minted, MintsTokens, Missing, Touched, SharedSettled, ReadBack, Agreed, Values;
    var T, group := Touched(t, kept), Component(t.pairs, p.left);
    assert p.left in Slots(t.pairs) && p.right in Slots(t.pairs);
    PairIsOneClass(t.pairs, p);
    SettledSlot(t, kept, after, mint, p.left);
    SettledSlot(t, kept, after, mint, p.right);
    RereadSlot(after, T, p.left);
    RereadSlot(after, T, p.right);
    if y :| y in group && Present(kept, y) {
    } else {
      BothFilled(t, kept, after, p);
    }
  }

  lemma BothFilled(t: Tables, kept: Envs, after: Envs, p: Pair)
    requires t.WellFormed() && kept.Keys == t.declared.Keys && p in t.pairs && Repaired(t, kept, after)
    requires !Present(kept, p.left) && !Present(kept, p.right)
    ensures Present(after, p.left) && Present(after, p.right)
    ensures after[p.left.file][p.left.key] == after[p.right.file][p.right.key]
    ensures p.left.file in Touched(t, kept) && p.right.file in Touched(t, kept)
  {
    hide Component, Repaired, Missing, Touched;
    assert p.left in Slots(t.pairs) && p.right in Slots(t.pairs);
    PairIsOneClass(t.pairs, p);
    SharedSlotIsThere(t, kept, after, p.left);
    SharedSlotIsThere(t, kept, after, p.right);
    TouchedSlot(t, kept, p.left);
    TouchedSlot(t, kept, p.right);
    HeldIsValue(after, Component(t.pairs, p.left), p.left);
    HeldIsValue(after, Component(t.pairs, p.left), p.right);
  }

  /** After a repair the written files hold one long value on both sides of every pair exactly
      when what it started from was settled. */
  lemma SharedValuesHoldIff(t: Tables, kept: Envs, after: Envs, mint: Minter)
    requires t.WellFormed() && kept.Keys == t.declared.Keys
    requires Repaired(t, kept, after) && Minted(t, kept, after, mint) && MintsTokens(mint)
    ensures SharedValuesHold(t, Reread(after, Touched(t, kept))) <==> SharedSettled(t, kept)
  {
    hide Component, Repaired, Minted, MintsTokens, Missing, Touched, Reread, PairHolds, SharedSettled;
    if SharedSettled(t, kept) {
      forall p | p in t.pairs ensures PairHolds(Reread(after, Touched(t, kept)), p) {
        SettledPair(t, kept, after, mint, p);
      }
    }
    if SharedValuesHold(t, Reread(after, Touched(t, kept))) {
      SettledByHolding(t, kept, after);
    }
  }

  lemma SettledByHolding(t: Tables, kept: Envs, after: Envs)
    requires t.WellFormed() && kept.Keys == t.declared.Keys && Repaired(t, kept, after)
    requires SharedValuesHold(t, Reread(after, Touched(t, kept)))
    ensures SharedSettled(t, kept)
  {
    hide Component, Repaired, Missing, Touched, Reread, SharedValuesHold, Agreed, Slots;
    var T := Touched(t, kept);
    RepairExtends(t, kept, after);
    RereadKeepsExtending(kept, after, T);
    forall s | s in Slots(t.pairs)
      ensures Agreed(Reread(kept, T), Component(t.pairs, s))
      ensures Present(Reread(kept, T), s) ==> |Reread(kept, T)[s.file][s.key]| >= SHORTEST_SHARED
    {
      HoldsAlongChains(t, Reread(kept, T), Reread(after, T), s);
    }
    forall s, x | s in Missing(t, kept) && s in Slots(t.pairs) && x in Component(t.pairs, s)
                  && Present(kept, x) && x.file !in T
      ensures !ProviderEnv.Quoted(kept[x.file][x.key])
    {
      CopyOfWrapped(t, kept, after, s, x);
    }
  }

  /** A copy of a wrapped value is read back without its quotes, so it differs from one that is
      left where it was. */
  lemma CopyOfWrapped(t: Tables, kept: Envs, after: Envs, s: Slot, x: Slot)
    requires t.WellFormed() && kept.Keys == t.declared.Keys && Repaired(t, kept, after)
    requires SharedValuesHold(t, Reread(after, Touched(t, kept)))
    requires s in Missing(t, kept) && s in Slots(t.pairs) && x in Component(t.pairs, s)
    requires Present(kept, x) && x.file !in Touched(t, kept)
    ensures !ProviderEnv.Quoted(kept[x.file][x.key])
  {
    hide Component, Repaired, Missing, Touched, Reread, SharedValuesHold, Slots;
    var T := Touched(t, kept);
    TouchedSlot(t, kept, s);
    SharedSlotIsThere(t, kept, after, s);
    HoldsAlongChains(t, Reread(after, T), Reread(after, T), s);
    RereadSlot(after, T, s);
    RereadSlot(after, T, x);
    ProviderEnv.UnquotedIsShorter(kept[x.file][x.key]);
    InOwnComponent(t.pairs, s);
    HeldIsValue(after, Component(t.pairs, s), s);
    HeldIsValue(after, Component(t.pairs, s), x);
  }

  // ---------------------------------------------------------------- the withdrawal

  /** The files that hold a key the withdrawal takes out. */
  function HoldsStale(t: Tables, envs: Envs): set<string>
    requires envs.Keys == t.declared.Keys
  {
    set f | f in envs && envs[f].Keys * Stale(t, f) != {}
  }

  /** What the files say after a withdrawal wrote those that held one. */
  function WithdrawnRead(t: Tables, envs: Envs): (r: Envs)
    requires envs.Keys == t.declared.Keys
    ensures r.Keys == envs.Keys
  {
    Reread(Withdrawn(t, envs), HoldsStale(t, envs))
  }

  /** One file after the withdrawal, which reads only the files a stale key could be in. */
  function Withdrawal(t: Tables, f: string, text: string, order: Order): Result<string, RepairError>
    requires f in t.declared && IsOrder(order)
  {
    if Stale(t, f) == {} then Ok(text)
    else
      match ProviderEnv.Parsed(text)
      case None => Err(Unreadable(f))
      case Some(env) =>
        if env.Keys * Stale(t, f) == {} then Ok(text)
        else if ProviderEnv.Writable(env - Stale(t, f)) then Ok(Written(env - Stale(t, f), order))
        else Err(Unsafe(f))
  }

  ghost predicate AllWithdrawn(t: Tables, before: Texts, after: Texts, order: Order)
    requires IsOrder(order) && before.Keys == t.declared.Keys
  {
    after.Keys == before.Keys && forall f :: f in before ==> Withdrawal(t, f, before[f], order) == Ok(after[f])
  }

  lemma ReadingIsPlain(texts: Texts, f: string)
    requires f in texts && ProviderEnv.Parsed(texts[f]).Some?
    ensures ProviderEnv.Readings(ProviderEnv.Parsed(texts[f]).value)
  {
    ProviderEnv.ReadIsPlain(SplitLines(texts[f]), map[]);
  }

  /** What one file says after the withdrawal. */
  function FileRead(t: Tables, f: string, env: Env): Env
    requires f in t.declared
  {
    if env.Keys * Stale(t, f) != {} then ProviderEnv.Unwrapped(env - Stale(t, f)) else env - Stale(t, f)
  }

  lemma FileOfWithdrawnRead(t: Tables, envs: Envs, f: string)
    requires envs.Keys == t.declared.Keys && f in envs
    ensures WithdrawnRead(t, envs)[f] == FileRead(t, f, envs[f])
  {
    hide Stale, ProviderEnv.Unwrapped;
  }

  lemma FileWithdrawn(t: Tables, f: string, before: string, after: string, order: Order)
    requires f in t.declared && IsOrder(order) && Withdrawal(t, f, before, order) == Ok(after)
    ensures ProviderEnv.Parsed(after).Some? <==> ProviderEnv.Parsed(before).Some?
    ensures ProviderEnv.Parsed(before).Some? ==>
              ProviderEnv.Parsed(after).value == FileRead(t, f, ProviderEnv.Parsed(before).value)
  {
    hide ProviderEnv.Parsed, ProviderEnv.Serialized, ProviderEnv.Writable, ProviderEnv.Unwrapped, IsOrder, Stale;
    if ProviderEnv.Parsed(before).Some? {
      var env := ProviderEnv.Parsed(before).value;
      if env.Keys * Stale(t, f) == {} {
        NothingToDrop(env, Stale(t, f));
      } else {
        OrderListsKeys((env - Stale(t, f)).Keys, order);
        ProviderEnv.ParseOfSerialized(env - Stale(t, f), order((env - Stale(t, f)).Keys));
      }
    }
  }

  /** What a file says after the withdrawal: every key it held but the rendered and the retired
      ones, with its value, and where one of those was there, less the quotes around it. */
  ghost predicate LeavesTheRest(t: Tables, f: string, was: Env, now: Env)
    requires f in t.declared
  {
    && (forall k :: k in now <==>
          k in was && k !in t.declared[f].rendered && !(f in t.retired && k in t.retired[f]))
    && forall k :: k in now ==>
         now[k] == if now.Keys == was.Keys then was[k] else ProviderEnv.Unquoted(was[k])
  }

  lemma FileLeavesTheRest(t: Tables, f: string, before: string, after: string, order: Order)
    requires f in t.declared && IsOrder(order) && Withdrawal(t, f, before, order) == Ok(after)
    ensures ProviderEnv.Parsed(before).Some? ==>
              && ProviderEnv.Parsed(after).Some?
              && LeavesTheRest(t, f, ProviderEnv.Parsed(before).value, ProviderEnv.Parsed(after).value)
              && (ProviderEnv.Parsed(after).value.Keys == ProviderEnv.Parsed(before).value.Keys ==> after == before)
  {
    hide ProviderEnv.Parsed, ProviderEnv.Writable, ProviderEnv.Unquoted, Written, IsOrder;
    FileWithdrawn(t, f, before, after, order);
    if ProviderEnv.Parsed(before).Some? {
      var was, now := ProviderEnv.Parsed(before).value, ProviderEnv.Parsed(after).value;
      if was.Keys * Stale(t, f) == {} {
        NothingToDrop(was, Stale(t, f));
      } else {
        assert now.Keys == was.Keys - Stale(t, f);
        assert was.Keys != now.Keys;
      }
      assert forall k :: k in now <==> k in was && k !in Stale(t, f);
    }
  }

  /** A withdrawal that goes through leaves files that can be read as before, and they say what
      was there without the stale keys, less the quotes that rewriting cost. */
  lemma WithdrawalReads(t: Tables, before: Texts, after: Texts, order: Order)
    requires IsOrder(order) && before.Keys == t.declared.Keys && AllWithdrawn(t, before, after, order)
    ensures Readable(after) <==> Readable(before)
    ensures Readable(before) ==> Reading(after) == WithdrawnRead(t, Reading(before))
  {
    hide ProviderEnv.Parsed, IsOrder, Withdrawal, FileRead, WithdrawnRead;
    forall f | f in before
      ensures ProviderEnv.Parsed(after[f]).Some? <==> ProviderEnv.Parsed(before[f]).Some?
      ensures ProviderEnv.Parsed(before[f]).Some? ==>
                ProviderEnv.Parsed(after[f]).value == FileRead(t, f, ProviderEnv.Parsed(before[f]).value)
    {
      FileWithdrawn(t, f, before[f], after[f], order);
    }
    if Readable(before) {
      forall f | f in before ensures Reading(after)[f] == WithdrawnRead(t, Reading(before))[f] {
        FileOfWithdrawnRead(t, Reading(before), f);
      }
    }
  }

  lemma NothingToDrop(env: Env, stale: set<string>)
    requires env.Keys * stale == {}
    ensures env - stale == env
  {
    forall k | k in env ensures k !in stale {
      assert k !in env.Keys * stale;
    }
  }

  /** A file that loses a rendered or a retired key keeps no empty value. */
  ghost predicate KeepsNothingEmpty(t: Tables, f: string, env: Env)
    requires f in t.declared
  {
    forall gone, k :: gone in env && k in env ==>
      (gone in t.declared[f].rendered || (f in t.retired && gone in t.retired[f])) ==>
      k !in t.declared[f].rendered && !(f in t.retired && k in t.retired[f]) ==> env[k] != ""
  }

  /** On files that can be read the withdrawal goes through exactly when no file it rewrites
      keeps an empty value. */
  lemma CanWithdrawIff(t: Tables, before: Texts, order: Order)
    requires IsOrder(order) && before.Keys == t.declared.Keys && Readable(before)
    ensures (forall f :: f in before ==> Withdrawal(t, f, before[f], order).Ok?)
        <==> forall f :: f in before ==> KeepsNothingEmpty(t, f, Reading(before)[f])
  {
    hide ProviderEnv.Parsed, IsOrder, Withdrawal, KeepsNothingEmpty;
    forall f | f in before
      ensures Withdrawal(t, f, before[f], order).Ok? <==> KeepsNothingEmpty(t, f, Reading(before)[f])
    {
      FileCanBeWithdrawn(t, f, before, order);
    }
  }

  lemma FileCanBeWithdrawn(t: Tables, f: string, texts: Texts, order: Order)
    requires f in t.declared && f in texts && IsOrder(order) && ProviderEnv.Parsed(texts[f]).Some?
    ensures Withdrawal(t, f, texts[f], order).Ok? <==>
              KeepsNothingEmpty(t, f, ProviderEnv.Parsed(texts[f]).value)
  {
    hide ProviderEnv.Parsed, ProviderEnv.Serialized, ProviderEnv.Writable, ProviderEnv.Readings, IsOrder, Written;
    var env, stale := ProviderEnv.Parsed(texts[f]).value, Stale(t, f);
    ReadingIsPlain(texts, f);
    RestIsWritable(env, stale);
    if gone :| gone in env && gone in stale {
      assert gone in env.Keys * stale;
    } else {
      assert env.Keys * stale == {};
    }
  }

  lemma RestIsWritable(env: Env, stale: set<string>)
    requires ProviderEnv.Readings(env)
    ensures ProviderEnv.Writable(env - stale) <==> forall k :: k in env && k !in stale ==> env[k] != ""
  {
    hide ProviderEnv.IsKey, ProviderEnv.Plain;
    var rest := env - stale;
    assert forall k :: k in rest <==> k in env && k !in stale;
  }

  // ---------------------------------------------------------------- the verbs

  /** The input directory of one profile. */
  class InputSet {
    const tables: Tables
    const order: Order
    var files: Texts

    constructor (tables: Tables, order: Order, files: Texts)
      ensures this.tables == tables && this.order == order && this.files == files
    {
      this.tables, this.order, this.files := tables, order, files;
    }

    method Read() returns (r: Result<Envs, RepairError>)
      ensures r.Ok? <==> Readable(files)
      ensures r.Ok? ==> r.value == Reading(files)
      ensures r.Err? ==> r.error.Unreadable? && r.error.file in files && ProviderEnv.Parsed(files[r.error.file]).None?
    {
      hide ProviderEnv.Parsed;
      var envs: Envs := map[];
      var left := files.Keys;
      while left != {}
        invariant left <= files.Keys && envs.Keys == files.Keys - left
        invariant forall f :: f in envs ==> ProviderEnv.Parsed(files[f]) == Some(envs[f])
        decreases left
      {
        var name :| name in left;
        var env := ProviderEnv.ParseProviderEnv(files[name]);
        if env.None? {
          return Err(Unreadable(name));
        }
        envs := envs[name := env.value];
        left := left - {name};
      }
      return Ok(envs);
    }

    /** Place the changed files one by one; a file with an unsafe value is never placed. */
    method Place(names: set<string>, envs: Envs) returns (refused: Option<string>)
      requires IsOrder(order) && files.Keys == envs.Keys && names <= files.Keys
      modifies this
      ensures files.Keys == envs.Keys
      ensures forall f :: f in files ==>
                files[f] == old(files)[f]
                || (f in names && ProviderEnv.Writable(envs[f]) && files[f] == Written(envs[f], order))
      ensures refused.None? <==> forall f :: f in names ==> ProviderEnv.Writable(envs[f])
      ensures refused.None? ==> Rewritten(old(files), files, names, envs, order)
      ensures refused.Some? ==> refused.value in names && !ProviderEnv.Writable(envs[refused.value])
    {
      hide ProviderEnv.Writable, ProviderEnv.Serialized, Written, IsOrder;
      var left := names;
      while left != {}
        invariant left <= names && files.Keys == envs.Keys
        invariant forall f :: f in files && f !in names - left ==> files[f] == old(files)[f]
        invariant forall f :: f in names - left ==>
          ProviderEnv.Writable(envs[f]) && files[f] == Written(envs[f], order)
        decreases left
      {
        var name :| name in left;
        if !ProviderEnv.Writable(envs[name]) {
          return Some(name);
        }
        files := files[name := Written(envs[name], order)];
        left := left - {name};
      }
      return None;
    }

    /** Drop those fields, rewriting only the files that hold one. */
    method WithdrawRendered() returns (refused: Option<RepairError>, withdrawn: set<Slot>)
      requires IsOrder(order) && files.Keys == tables.declared.Keys
      modifies this
      ensures files.Keys == tables.declared.Keys
      ensures refused.None? <==> forall f :: f in old(files) ==> Withdrawal(tables, f, old(files)[f], order).Ok?
      ensures refused.None? ==> AllWithdrawn(tables, old(files), files, order)
      ensures refused.None? ==> forall s :: s in withdrawn <==> IsWithdrawn(tables, old(files), s)
      ensures refused.None? ==> forall f :: f in files && ProviderEnv.Parsed(old(files)[f]).Some? ==>
                && ProviderEnv.Parsed(files[f]).Some?
                && LeavesTheRest(tables, f, ProviderEnv.Parsed(old(files)[f]).value, ProviderEnv.Parsed(files[f]).value)
      ensures refused.Some? ==>
                exists f :: f in old(files) && Withdrawal(tables, f, old(files)[f], order) == Err(refused.value)
      ensures forall f :: f in files ==>
                files[f] == old(files)[f] || Withdrawal(tables, f, old(files)[f], order) == Ok(files[f])
    {
      hide ProviderEnv.Parsed, ProviderEnv.Writable, ProviderEnv.Serialized, Written, IsOrder, Stale, IsWithdrawn;
      withdrawn := {};
      var left := tables.declared.Keys;
      AllInside(tables, files);
      ghost var before := files;
      while left != {}
        invariant left <= tables.declared.Keys && files.Keys == before.Keys
        invariant forall f :: f in left ==> files[f] == before[f]
        invariant forall f :: f in before && f !in left ==> Withdrawal(tables, f, before[f], order) == Ok(files[f])
        invariant WithdrawnOutside(tables, before, left, withdrawn)
        decreases left
      {
        var name :| name in left;
        var stale := Stale(tables, name);
        if stale != {} {
          var env := ProviderEnv.ParseProviderEnv(files[name]);
          if env.None? {
            return Some(Unreadable(name)), withdrawn;
          }
          if env.value.Keys * stale != {} {
            var values := env.value - stale;
            if !ProviderEnv.Writable(values) {
              return Some(Unsafe(name)), withdrawn;
            }
            files := files[name := Written(values, order)];
          }
          stale := env.value.Keys * stale;
        }
        WithdrawnNext(tables, before, left, withdrawn, name, stale);
        withdrawn := withdrawn + set k | k in stale :: Slot(name, k);
        left := left - {name};
      }
      AllOutside(tables, before, withdrawn);
      EachLeavesTheRest(tables, before, files, order);
      return None, withdrawn;
    }

    /** Add what is missing, copying a shared value before minting one. A dry run writes nothing,
        and neither does a refusal before the first file that cannot be written. */
    method AddMissing(apply: bool, usable: Usable, mint: Minter)
      returns (error: Option<RepairError>, added: set<Slot>, ghost repaired: Envs)
      requires tables.WellFormed() && TablesLast(tables) && MintsTokens(mint)
      requires IsOrder(order) && files.Keys == tables.declared.Keys
      modifies this
      ensures files.Keys == tables.declared.Keys
      ensures error.None? <==>
                Readable(old(files)) && GoesThrough(tables, Reading(old(files)), apply, usable)
      ensures error.None? || error.value.Unsafe? ==>
                && Readable(old(files)) && Repaired(tables, Reading(old(files)), repaired)
                && Minted(tables, Reading(old(files)), repaired, mint)
      ensures error.None? ==> added == Missing(tables, Reading(old(files)))
      ensures error.None? && apply ==>
                Readable(files) && Reading(files) == Reread(repaired, Touched(tables, Reading(old(files))))
      ensures forall f :: f in files ==>
                files[f] == old(files)[f]
                || (apply && (error.None? || error.value.Unsafe?) && f in Touched(tables, Reading(old(files)))
                    && ProviderEnv.Writable(repaired[f]) && files[f] == Written(repaired[f], order))
      ensures error.Some? ==> Explained(tables, old(files), apply, usable, error.value)
    {
      hide Missing, Repaired, Repairable, Minted, Touched, ProviderEnv.Parsed, IsOrder, Written,
        TablesLast, MintsTokens, NothingEmpty, ProviderEnv.Writable, ProvidersUsable, Reading, Readable, Reread,
        Rewritten, Component, Agreed, Extends;
      repaired, added := map[], {};
      var read := Read();
      if read.Err? {
        return Some(read.error), added, repaired;
      }
      var envs := read.value;
      var short := set s | s in tables.providers && !(Present(envs, s) && usable(envs[s.file][s.key], s.key));
      ShortIff(tables, envs, usable, short);
      if short != {} {
        return Some(MissingProviders(short)), added, repaired;
      }
      TokensAreLong(mint);
      var filled := FillMissing(tables, envs, mint);
      if filled.Err? {
        return Some(filled.error), added, repaired;
      }
      repaired := filled.value;
      RepairExtends(tables, envs, repaired);
      if apply {
        var names := set s | s in Missing(tables, envs) :: s.file;
        assert names == Touched(tables, envs) by {
          TouchedFiles(tables, envs);
        }
        CanPlaceIff(tables, files, repaired, mint);
        var refused := Place(names, filled.value);
        if refused.Some? {
          return Some(Unsafe(refused.value)), added, repaired;
        }
        PlacedReads(tables, old(files), files, repaired, order);
      }
      return None, Missing(tables, envs), repaired;
    }
  }

  /** When a repair of readable files goes through. */
  ghost predicate GoesThrough(t: Tables, envs: Envs, apply: bool, usable: Usable)
    requires envs.Keys == t.declared.Keys
  {
    && ProvidersUsable(t, envs, usable) && Repairable(t, envs)
    && (apply ==> NothingEmpty(envs, Touched(t, envs)))
  }

  /** What each refusal of a repair says is so. */
  ghost predicate Explained(t: Tables, texts: Texts, apply: bool, usable: Usable, error: RepairError)
    requires texts.Keys == t.declared.Keys
  {
    if error.Unreadable? then error.file in texts && ProviderEnv.Parsed(texts[error.file]).None?
    else
      && Readable(texts)
      && var envs := Reading(texts);
         match error
         case MissingProviders(slots) =>
           slots != {} && forall s :: s in slots <==>
             s in t.providers && !(Present(envs, s) && usable(envs[s.file][s.key], s.key))
         case ValuesDisagree(slot) =>
           && ProvidersUsable(t, envs, usable) && slot in Missing(t, envs)
           && slot.key !in t.fixed && !Agreed(envs, Component(t.pairs, slot))
         case Unsafe(file) =>
           apply && file in Touched(t, envs) && !NothingEmpty(envs, {file})
  }

  lemma ShortIff(t: Tables, envs: Envs, usable: Usable, short: set<Slot>)
    requires forall s :: s in short <==>
               s in t.providers && !(Present(envs, s) && usable(envs[s.file][s.key], s.key))
    ensures short == {} <==> ProvidersUsable(t, envs, usable)
  {
    if short == {} {
      forall s | s in t.providers ensures Present(envs, s) && usable(envs[s.file][s.key], s.key) {
        assert s !in short;
      }
    }
  }

  lemma TokensAreLong(mint: Minter)
    requires MintsTokens(mint)
    ensures MintsLong(mint)
  {
  }

  lemma TouchedFiles(t: Tables, envs: Envs)
    requires envs.Keys == t.declared.Keys
    ensures Touched(t, envs) == set s | s in Missing(t, envs) :: s.file
  {
  }

  lemma ReadIsAllPlain(texts: Texts)
    requires Readable(texts)
    ensures AllPlain(Reading(texts)) && forall f :: f in texts ==> ProviderEnv.Readings(Reading(texts)[f])
  {
    hide ProviderEnv.Parsed, ProviderEnv.Plain, ProviderEnv.IsKey;
    forall f | f in texts ensures ProviderEnv.Readings(Reading(texts)[f]) {
      ReadingIsPlain(texts, f);
    }
  }

  lemma CanPlaceIff(t: Tables, texts: Texts, after: Envs, mint: Minter)
    requires texts.Keys == t.declared.Keys && Readable(texts) && TablesLast(t) && MintsTokens(mint)
    requires Repaired(t, Reading(texts), after) && Minted(t, Reading(texts), after, mint)
    ensures forall f :: f in texts ==> (ProviderEnv.Writable(after[f]) <==> NothingEmpty(Reading(texts), {f}))
    ensures (forall f :: f in Touched(t, Reading(texts)) ==> ProviderEnv.Writable(after[f]))
        <==> NothingEmpty(Reading(texts), Touched(t, Reading(texts)))
  {
    hide Missing, Repaired, Minted, Touched, TablesLast, MintsTokens, ProviderEnv.Parsed, ProviderEnv.Writable,
      AllPlain;
    var envs := Reading(texts);
    ReadIsAllPlain(texts);
    RepairExtends(t, envs, after);
    forall f | f in texts ensures ProviderEnv.Writable(after[f]) <==> NothingEmpty(envs, {f}) {
      RepairedIsWritableIff(t, envs, after, mint, f);
    }
    if forall f :: f in Touched(t, envs) ==> ProviderEnv.Writable(after[f]) {
      forall s | Present(envs, s) && s.file in Touched(t, envs) ensures envs[s.file][s.key] != "" {
        assert NothingEmpty(envs, {s.file});
      }
    }
  }

  lemma PlacedReads(t: Tables, before: Texts, after: Texts, repaired: Envs, order: Order)
    requires before.Keys == t.declared.Keys && Readable(before) && Repaired(t, Reading(before), repaired)
    requires IsOrder(order) && Rewritten(before, after, Touched(t, Reading(before)), repaired, order)
    ensures Readable(after) && Reading(after) == Reread(repaired, Touched(t, Reading(before)))
  {
    hide Missing, Repaired, Touched, ProviderEnv.Parsed, Written, ProviderEnv.Writable, IsOrder;
    forall f | f in before && f !in Touched(t, Reading(before))
      ensures ProviderEnv.Parsed(before[f]) == Some(repaired[f])
    {
      UntouchedStay(t, Reading(before), repaired, f);
    }
    RewrittenReads(before, after, Touched(t, Reading(before)), repaired, order);
  }

  lemma EachLeavesTheRest(t: Tables, before: Texts, after: Texts, order: Order)
    requires IsOrder(order) && before.Keys == t.declared.Keys && AllWithdrawn(t, before, after, order)
    ensures forall f :: f in after && ProviderEnv.Parsed(before[f]).Some? ==>
              && ProviderEnv.Parsed(after[f]).Some?
              && LeavesTheRest(t, f, ProviderEnv.Parsed(before[f]).value, ProviderEnv.Parsed(after[f]).value)
  {
    hide ProviderEnv.Parsed, Withdrawal, LeavesTheRest, IsOrder;
    forall f | f in after && ProviderEnv.Parsed(before[f]).Some?
      ensures ProviderEnv.Parsed(after[f]).Some?
      ensures LeavesTheRest(t, f, ProviderEnv.Parsed(before[f]).value, ProviderEnv.Parsed(after[f]).value)
    {
      FileLeavesTheRest(t, f, before[f], after[f], order);
    }
  }

  /** A key that a file holds and the withdrawal takes out. */
  ghost predicate IsWithdrawn(t: Tables, texts: Texts, s: Slot) {
    && s.file in t.declared && s.file in texts
    && (s.key in t.declared[s.file].rendered || (s.file in t.retired && s.key in t.retired[s.file]))
    && ProviderEnv.Parsed(texts[s.file]).Some? && s.key in ProviderEnv.Parsed(texts[s.file]).value
  }

  /** The withdrawn keys of the files that are not left. */
  ghost predicate WithdrawnOutside(t: Tables, texts: Texts, left: set<string>, withdrawn: set<Slot>) {
    forall s :: s in withdrawn <==> IsWithdrawn(t, texts, s) && s.file !in left
  }

  lemma AllInside(t: Tables, texts: Texts)
    ensures WithdrawnOutside(t, texts, t.declared.Keys, {})
  {
  }

  lemma AllOutside(t: Tables, texts: Texts, withdrawn: set<Slot>)
    requires WithdrawnOutside(t, texts, {}, withdrawn)
    ensures forall s :: s in withdrawn <==> IsWithdrawn(t, texts, s)
  {
  }

  lemma WithdrawnNext(
      t: Tables, texts: Texts, left: set<string>, withdrawn: set<Slot>, name: string, keys: set<string>)
    requires WithdrawnOutside(t, texts, left, withdrawn) && name in t.declared && name in texts
    requires keys <= Stale(t, name)
    requires Stale(t, name) != {} ==>
      ProviderEnv.Parsed(texts[name]).Some? && keys == ProviderEnv.Parsed(texts[name]).value.Keys * Stale(t, name)
    ensures WithdrawnOutside(t, texts, left - {name}, withdrawn + set k | k in keys :: Slot(name, k))
  {
    hide ProviderEnv.Parsed;
    forall s: Slot | s.file == name ensures IsWithdrawn(t, texts, s) <==> s.key in keys {}
  }

  /** The withdrawal, the repair of what it left, and the contract check on what that left: when
      the two verbs go through and what the check then says, by the files as they were. */
  method WithdrawThenAdd(inputs: InputSet, usable: Usable, mint: Minter) returns (done: bool, accepted: bool)
    requires inputs.tables.WellFormed() && TablesLast(inputs.tables) && MintsTokens(mint)
    requires IsOrder(inputs.order) && inputs.files.Keys == inputs.tables.declared.Keys
    modifies inputs
    ensures done ==> Readable(old(inputs.files)) && Readable(inputs.files)
    ensures accepted ==> done
    ensures Readable(old(inputs.files)) ==>
              var t, prior := inputs.tables, Reading(old(inputs.files));
              var kept := WithdrawnRead(t, prior);
              && (done <==>
                    && (forall f :: f in prior ==> KeepsNothingEmpty(t, f, prior[f]))
                    && GoesThrough(t, kept, true, usable))
              && (done ==> (accepted <==> OnlyKnownKeys(t, prior) && SharedSettled(t, kept)))
              && (done ==> (Extends(kept, Reading(inputs.files)) <==> NothingWrapped(kept, Touched(t, kept))))
  {
    hide ProviderEnv.Parsed, ProviderEnv.Writable, Written, IsOrder, TablesLast, MintsTokens, Readable, Reading, Reread,
      Withdrawal, AllWithdrawn, Withdrawn, HoldsStale, WithdrawnRead, NothingEmpty, KeepsNothingEmpty,
      GoesThrough, OnlyKnownKeys, SharedSettled, Extends, NothingWrapped, Touched, Repaired, Minted, Missing,
      KeySetsHold, SharedValuesHold, LeavesTheRest;
    done, accepted := false, false;
    ghost var t, before := inputs.tables, inputs.files;
    if Readable(before) {
      CanWithdrawIff(t, before, inputs.order);
    }
    var refused, _ := inputs.WithdrawRendered();
    if refused.Some? {
      return;
    }
    ghost var left := inputs.files;
    WithdrawalReads(t, before, left, inputs.order);
    var error, _, repaired := inputs.AddMissing(true, usable, mint);
    if error.Some? {
      return;
    }
    done := true;
    var read := inputs.Read();
    accepted := ContractHolds(inputs.tables, read.value);
    RepairedThenChecked(t, Reading(before), repaired, mint);
  }

  lemma FileIsRefilled(t: Tables, f: string, prior: Env, kept: Env, after: Env)
    requires f in t.declared && kept.Keys == (prior - Stale(t, f)).Keys
    requires after.Keys == kept.Keys + t.declared[f].required
    ensures Refilled(t, f, prior, after)
  {
    assert forall k :: k in after <==> k in after.Keys;
  }

  /** What the check says, and what reading again keeps, after a repair of what was withdrawn. */
  lemma RepairedThenChecked(t: Tables, prior: Envs, repaired: Envs, mint: Minter)
    requires t.WellFormed() && prior.Keys == t.declared.Keys && MintsTokens(mint)
    requires Repaired(t, WithdrawnRead(t, prior), repaired) && Minted(t, WithdrawnRead(t, prior), repaired, mint)
    ensures var kept := WithdrawnRead(t, prior);
            var after := Reread(repaired, Touched(t, kept));
            && after.Keys == t.declared.Keys
            && (KeySetsHold(t, after) && SharedValuesHold(t, after)
                <==> OnlyKnownKeys(t, prior) && SharedSettled(t, kept))
            && (Extends(kept, after) <==> NothingWrapped(kept, Touched(t, kept)))
  {
    hide Component, Minted, MintsTokens, Missing, Touched, SharedSettled, KeySetsHold, SharedValuesHold,
      OnlyKnownKeys, Stale, ProviderEnv.Unquoted;
    var kept := WithdrawnRead(t, prior);
    var after := Reread(repaired, Touched(t, kept));
    SharedValuesHoldIff(t, kept, repaired, mint);
    forall f | f in t.declared ensures Refilled(t, f, prior[f], after[f]) {
      FileIsRefilled(t, f, prior[f], kept[f], after[f]) by {
        assert kept[f].Keys == (prior[f] - Stale(t, f)).Keys;
      }
    }
    KeySetsHoldIff(t, prior, after);
    ReadBackExtendsIff(t, kept, repaired);
  }

  /** A repair changes nothing that was there exactly when no file it writes holds a value
      wrapped in quotes. */
  lemma ReadBackExtendsIff(t: Tables, before: Envs, after: Envs)
    requires before.Keys == t.declared.Keys && Repaired(t, before, after)
    ensures Extends(before, Reread(after, Touched(t, before))) <==> NothingWrapped(before, Touched(t, before))
  {
    hide Touched, Repaired, ProviderEnv.Unquoted, ProviderEnv.Quoted;
    var names := Touched(t, before);
    RepairExtends(t, before, after);
    forall s | Present(before, s)
      ensures Present(Reread(after, names), s)
      ensures Reread(after, names)[s.file][s.key] == before[s.file][s.key]
          <==> !(s.file in names && ProviderEnv.Quoted(before[s.file][s.key]))
    {
      RereadSlot(after, names, s);
      ProviderEnv.UnquotedIsShorter(before[s.file][s.key]);
    }
  }

  /** A second repair finds nothing missing and writes nothing, and it is refused exactly when a
      provider's value stopped being usable by losing its quotes in the first. */
  lemma SecondRepair(t: Tables, before: Envs, after: Envs, apply: bool, usable: Usable)
    requires t.WellFormed() && before.Keys == t.declared.Keys && Repaired(t, before, after)
    requires ProvidersUsable(t, before, usable)
    ensures var again := Reread(after, Touched(t, before));
            && again.Keys == t.declared.Keys && Missing(t, again) == {} && Touched(t, again) == {}
            && (GoesThrough(t, again, apply, usable) <==>
                forall s :: s in t.providers && s.file in Touched(t, before) ==>
                  usable(ProviderEnv.Unquoted(before[s.file][s.key]), s.key))
  {
    hide Component, Touched, ProviderEnv.Unquoted;
    var names := Touched(t, before);
    var again := Reread(after, names);
    forall s | s in t.providers
      ensures Present(again, s)
      ensures again[s.file][s.key] == ReadBack(s, before[s.file][s.key], names)
    {
      RereadSlot(after, names, s);
    }
    assert Missing(t, again) == {} by {
      forall f, k | f in t.declared && k in t.declared[f].required ensures k in again[f] {
        assert k in after[f].Keys;
      }
    }
    TouchedFiles(t, again);
    assert forall s :: s in t.providers ==> usable(before[s.file][s.key], s.key);
  }

  /** The repair twice in a row. */
  method AddTwice(inputs: InputSet, usable: Usable, mint: Minter)
    returns (first: Option<RepairError>, second: Option<RepairError>, ghost between: Texts)
    requires inputs.tables.WellFormed() && TablesLast(inputs.tables) && MintsTokens(mint)
    requires IsOrder(inputs.order) && inputs.files.Keys == inputs.tables.declared.Keys
    modifies inputs
    ensures first.None? ==> Readable(old(inputs.files)) && Readable(between) && inputs.files == between
    ensures first.None? ==>
              var t, before := inputs.tables, Reading(old(inputs.files));
              second.None? <==>
              forall s :: s in t.providers && s.file in Touched(t, before) ==>
                Present(before, s) && usable(ProviderEnv.Unquoted(before[s.file][s.key]), s.key)
  {
    hide ProviderEnv.Parsed, ProviderEnv.Writable, ProviderEnv.Unquoted, Written, IsOrder, TablesLast, MintsTokens,
      Readable, Reading, Reread, NothingEmpty, Touched, Repaired, Minted, Missing, Explained;
    ghost var t, prior := inputs.tables, inputs.files;
    var error, _, repaired := inputs.AddMissing(true, usable, mint);
    first, second, between := error, None, inputs.files;
    if first.None? {
      SecondRepair(t, Reading(prior), repaired, true, usable);
      var again, _, _ := inputs.AddMissing(true, usable, mint);
      second := again;
    }
  }

  const SHORTEST_PROVIDER := 8

  /** A provider's value of nine characters or fewer that is wrapped in quotes was usable, and is
      too short for every later run once its file has been written. */
  lemma ShortProviderStopsTheNextRun(
      t: Tables, before: Envs, after: Envs, s: Slot, apply: bool, usable: Usable)
    requires t.WellFormed() && before.Keys == t.declared.Keys && Repaired(t, before, after)
    requires ProvidersUsable(t, before, usable) && forall v, k :: usable(v, k) ==> |v| >= SHORTEST_PROVIDER
    requires s in t.providers && s.file in Touched(t, before)
    requires ProviderEnv.Quoted(before[s.file][s.key]) && |before[s.file][s.key]| < SHORTEST_PROVIDER + 2
    ensures !GoesThrough(t, Reread(after, Touched(t, before)), apply, usable)
  {
    hide Touched, Missing, Repaired;
    SecondRepair(t, before, after, apply, usable);
    ProviderEnv.UnquotedIsShorter(before[s.file][s.key]);
  }

  /** Without a wrapped value the shared values are settled when they are long and agreed. */
  lemma SettledWhenNothingIsWrapped(t: Tables, kept: Envs)
    requires kept.Keys == t.declared.Keys && NothingWrapped(kept, kept.Keys)
    ensures SharedSettled(t, kept) <==> SharedAgree(t, kept)
  {
    hide Component, Slots, SharedAgree, Missing, Touched, ProviderEnv.Quoted, ProviderEnv.Unquoted;
    forall f | f in kept ensures Reread(kept, Touched(t, kept))[f] == kept[f] {
      forall k | k in kept[f] ensures ProviderEnv.Unquoted(kept[f][k]) == kept[f][k] {
        assert Present(kept, Slot(f, k));
        ProviderEnv.UnquotedIsShorter(kept[f][k]);
      }
      assert ProviderEnv.Unwrapped(kept[f]) == kept[f];
    }
    assert Reread(kept, Touched(t, kept)) == kept;
  }

  const ONE := Slot("hub.env", "ONE")
  const OTHER := Slot("data.env", "OTHER")
  const MORE := Slot("hub.env", "MORE")

  /** Two files that share one credential, and a second key that the first of them needs. */
  const TWO_FILES := Tables(
    map["hub.env" := FileKeys({"ONE", "MORE"}, {}, {}), "data.env" := FileKeys({"OTHER"}, {}, {})],
    map[], [Pair(ONE, OTHER)], {}, map[])

  function BothSides(value: string): (r: Envs)
    ensures r.Keys == TWO_FILES.declared.Keys
  {
    map["hub.env" := map["ONE" := value], "data.env" := map["OTHER" := value]]
  }

  lemma TwoFilesShareOne()
    ensures TWO_FILES.WellFormed() && Slots(TWO_FILES.pairs) == {ONE, OTHER}
    ensures OTHER in Component(TWO_FILES.pairs, ONE) && ONE in Component(TWO_FILES.pairs, ONE)
  {
    hide Component;
    assert TWO_FILES.pairs[0] == Pair(ONE, OTHER);
    PairIsOneClass(TWO_FILES.pairs, Pair(ONE, OTHER));
  }

  lemma OneFileIsTouched(value: string)
    ensures Missing(TWO_FILES, BothSides(value)) == {MORE}
    ensures Touched(TWO_FILES, BothSides(value)) == {"hub.env"}
  {
    assert "hub.env" != "data.env" && "ONE" != "MORE";
    assert Missing(TWO_FILES, BothSides(value)) == {MORE} by {
      forall s ensures s in Missing(TWO_FILES, BothSides(value)) <==> s == MORE {}
    }
    TouchedFiles(TWO_FILES, BothSides(value));
  }

  /** Both sides of a pair agree on any long value wrapped in quotes, the repair goes through, and
      the check refuses what it leaves: only one of the two files was written. */
  lemma WrappedPairIsSplit(value: string)
    requires ProviderEnv.Quoted(value) && |value| >= SHORTEST_SHARED
    ensures TWO_FILES.WellFormed() && SharedAgree(TWO_FILES, BothSides(value))
    ensures GoesThrough(TWO_FILES, BothSides(value), true, (v, k) => true)
    ensures !SharedSettled(TWO_FILES, BothSides(value))
  {
    hide Component, Missing, Touched, Slots, ProviderEnv.Quoted, ProviderEnv.Unquoted;
    var t, kept := TWO_FILES, BothSides(value);
    TwoFilesShareOne();
    OneFileIsTouched(value);
    forall s | s in Slots(t.pairs) ensures Agreed(kept, Component(t.pairs, s)) {
      OneValueAgrees(kept, Component(t.pairs, s), value);
    }
    AgreedIsRepairable(t, kept);
    var back := Reread(kept, {"hub.env"});
    RereadSlot(kept, {"hub.env"}, ONE);
    RereadSlot(kept, {"hub.env"}, OTHER);
    ProviderEnv.UnquotedIsShorter(value);
    if SharedAgree(t, back) {
      SharedIsOneValue(t, back, ONE, ONE, OTHER);
      assert false;
    }
  }
}
