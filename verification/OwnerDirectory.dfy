/** The signed Owner directory one profile's material holds, and its revision line.

    A directory is adopted from the Host that serves one, returned as it is while it is
    current, and otherwise reissued at the next revision. Signatures are idealised: a
    descriptor names who signed it, and only the material's own signer is believed. */
module OwnerDirectory {
  import opened Common

  datatype Uri = Uri(host: string, port: int, path: string)

  datatype Endpoint = Endpoint(authority: string, audience: string, uri: Uri, transport: string, priority: int)

  datatype Descriptor = Descriptor(
    owner: string, generation: int, revision: int, uri: Uri, endpoints: seq<Endpoint>,
    issuedAt: int, expiresAt: int, signer: string)

  /** A directory file, by what reading it gives: a document of the current contract, one
      from before it with the two fields that can still be read, or neither. `layout`
      stands for everything about the bytes that the document does not say. */
  datatype File =
    | Current(doc: Descriptor, layout: string)
    | Older(ownerField: Option<string>, revisionField: Option<int>, hostField: Option<string>, layout: string)
    | Unreadable(layout: string)
  {
    /** The revision written in it, when it has one. */
    function Revision(): Option<int> {
      match this
      case Current(d, _) => Some(d.revision)
      case Older(_, r, _, _) => r
      case Unreadable(_) => None
    }

    /** The host its own route names, when it states one. */
    function UriHost(): Option<string> {
      match this
      case Current(d, _) => Some(d.uri.host)
      case Older(_, _, h, _) => h
      case Unreadable(_) => None
    }
  }

  /** The material that signs, and the Host endpoint it signs for. */
  datatype Issuer = Issuer(owner: string, signer: string, host: string, port: int) {
    function DescriptorUri(): Uri {
      Uri(host, port, "/api/device-onboarding/v1/descriptor")
    }

    function Endpoints(): seq<Endpoint> {
      [Endpoint("admission", owner + ":admission", Uri(host, port, "/api/admission/v1"), "https-json", 0),
       Endpoint("device-control", owner + ":device-control", Uri(host, port, "/api/device-control/v1"),
                "https-json", 0)]
    }
  }

  datatype DirectoryError =
    | ServedUnreadable | ServedByOtherOwner | ServedNotSigned | GenerationsDisagree
    | HeldUnreadable | HeldHasNoLine | HeldNotSigned

  const YEAR := 365 * 24 * 60 * 60
  const ISSUED_LAYOUT := "indented"

  // ---------------------------------------------------------------- adoption

  /** The held directory is on the same line as the served one, and further along it. */
  predicate HeldIsNewer(held: Option<File>, served: Descriptor, issuer: Issuer, generation: int) {
    && held.Some? && held.value.Current?
    && held.value.doc.owner == issuer.owner
    && held.value.doc.generation == generation
    && held.value.doc.revision > served.revision
  }

  function RefusedServed(served: File, issuer: Issuer, generation: int): Option<DirectoryError> {
    if !served.Current? then Some(ServedUnreadable)
    else if served.doc.owner != issuer.owner then Some(ServedByOtherOwner)
    else if served.doc.signer != issuer.signer then Some(ServedNotSigned)
    else if served.doc.generation != generation then Some(GenerationsDisagree)
    else None
  }

  /** What the material holds once it has looked at what the Host serves. */
  function Adopted(held: Option<File>, served: File, issuer: Issuer, generation: int): Result<File, DirectoryError> {
    var refused := RefusedServed(served, issuer, generation);
    if refused.Some? then Err(refused.value)
    else if HeldIsNewer(held, served.doc, issuer, generation) then Ok(held.value)
    else Ok(served)
  }

  // ---------------------------------------------------------------- issuing

  /** A held directory that says what would be issued now, apart from its dates. */
  predicate UpToDate(d: Descriptor, issuer: Issuer, generation: int, now: int) {
    && d.owner == issuer.owner && d.generation == generation
    && d.endpoints == issuer.Endpoints() && d.uri == issuer.DescriptorUri()
    && d.issuedAt <= now < d.expiresAt
  }

  function NewDirectory(issuer: Issuer, generation: int, revision: int, now: int): File {
    Current(Descriptor(issuer.owner, generation, revision, issuer.DescriptorUri(), issuer.Endpoints(),
                       now, now + YEAR, issuer.signer), ISSUED_LAYOUT)
  }

  function Issued(held: Option<File>, issuer: Issuer, generation: int, now: int): Result<File, DirectoryError> {
    match held
    case None => Ok(NewDirectory(issuer, generation, 1, now))
    case Some(Unreadable(_)) => Err(HeldUnreadable)
    case Some(Older(owner, revision, _, _)) =>
      if owner != Some(issuer.owner) || revision.None? || revision.value < 1 then Err(HeldHasNoLine)
      else Ok(NewDirectory(issuer, generation, revision.value + 1, now))
    case Some(Current(d, _)) =>
      if UpToDate(d, issuer, generation, now) then
        if d.signer == issuer.signer then Ok(held.value) else Err(HeldNotSigned)
      else Ok(NewDirectory(issuer, generation, if d.generation == generation then d.revision + 1 else 1, now))
  }

  /** What is held before issuing: the adopted directory when the Host serves one. */
  function Baseline(held: Option<File>, served: Option<File>, issuer: Issuer, generation: int)
    : Result<Option<File>, DirectoryError>
  {
    if served.None? then Ok(held)
    else match Adopted(held, served.value, issuer, generation)
         case Ok(f) => Ok(Some(f))
         case Err(e) => Err(e)
  }

  function Rendered(held: Option<File>, served: Option<File>, issuer: Issuer, generation: int, now: int)
    : Result<File, DirectoryError>
  {
    match Baseline(held, served, issuer, generation)
    case Err(e) => Err(e)
    case Ok(base) => Issued(base, issuer, generation, now)
  }

  /** The file left behind by a render, whether or not it succeeded. */
  function HeldAfter(held: Option<File>, served: Option<File>, issuer: Issuer, generation: int, now: int)
    : Option<File>
  {
    match Baseline(held, served, issuer, generation)
    case Err(_) => held
    case Ok(base) => match Issued(base, issuer, generation, now)
                     case Ok(f) => Some(f)
                     case Err(_) => base
  }

  class Material {
    var held: Option<File>
    var writes: nat

    constructor ()
      ensures held == None && writes == 0
    {
      held, writes := None, 0;
    }

    method Write(file: File)
      modifies this
      ensures held == Some(file) && writes == old(writes) + 1
    {
      held := Some(file);
      writes := writes + 1;
    }

    method AdoptServed(served: File, issuer: Issuer, generation: int) returns (refused: Option<DirectoryError>)
      modifies this
      ensures match Adopted(old(held), served, issuer, generation)
              case Ok(f) => refused == None && held == Some(f)
              case Err(e) => refused == Some(e) && held == old(held)
      ensures writes == if held == old(held) then old(writes) else old(writes) + 1
    {
      refused := RefusedServed(served, issuer, generation);
      if refused.Some? {
        return;
      }
      if held.Some? {
        if held.value == served {
          return;
        }
        if HeldIsNewer(held, served.doc, issuer, generation) {
          return;
        }
      }
      Write(served);
    }

    method Directory(served: Option<File>, issuer: Issuer, generation: int, now: int)
      returns (r: Result<File, DirectoryError>)
      modifies this
      ensures r == Rendered(old(held), served, issuer, generation, now)
      ensures held == HeldAfter(old(held), served, issuer, generation, now)
      ensures held == old(held) ==> writes == old(writes)
    {
      if served.Some? {
        var refused := AdoptServed(served.value, issuer, generation);
        if refused.Some? {
          return Err(refused.value);
        }
      }
      ghost var adopted := writes;
      var revision := 1;
      if held.Some? {
        match held.value {
          case Unreadable(_) =>
            return Err(HeldUnreadable);
          case Older(owner, line, _, _) =>
            if owner != Some(issuer.owner) || line.None? || line.value < 1 {
              return Err(HeldHasNoLine);
            }
            revision := line.value + 1;
          case Current(current, _) =>
            if UpToDate(current, issuer, generation, now) {
              if current.signer != issuer.signer {
                return Err(HeldNotSigned);
              }
              return Ok(held.value);
            }
            if current.generation == generation {
              revision := current.revision + 1;
            }
        }
      }
      IssuedDiffersFromHeld(old(held), served, issuer, generation, now);
      var encoded := NewDirectory(issuer, generation, revision, now);
      Write(encoded);
      return Ok(encoded);
    }
  }

  /** A reissued directory is never the file that was held before the render. */
  lemma IssuedDiffersFromHeld(held: Option<File>, served: Option<File>, issuer: Issuer, generation: int, now: int)
    ensures var base := Baseline(held, served, issuer, generation);
            var r := Rendered(held, served, issuer, generation, now);
            base.Ok? && r.Ok? && base.value != Some(r.value) ==> held != Some(r.value)
  {
  }

  /** Whatever is rendered is signed by this material, for this Owner, generation, Host and
      endpoints, and is in date. */
  lemma RenderedIsOurs(held: Option<File>, served: Option<File>, issuer: Issuer, generation: int, now: int)
    ensures var r := Rendered(held, served, issuer, generation, now);
            r.Ok? ==> r.value.Current? && UpToDate(r.value.doc, issuer, generation, now)
                      && r.value.doc.signer == issuer.signer
  {
  }

  /** A served directory this material believes: readable, of its Owner and generation, and
      signed by it. */
  predicate Believed(served: File, issuer: Issuer, generation: int) {
    && served.Current? && served.doc.owner == issuer.owner && served.doc.signer == issuer.signer
    && served.doc.generation == generation
  }

  /** Rendering for a Host that serves a directory: refused for exactly those not believed, and
      otherwise rendering as though the further of the two on this line had been held. */
  lemma RenderServed(held: Option<File>, served: File, issuer: Issuer, generation: int, now: int)
    ensures var further := held.Some? && held.value.Current? && held.value.doc.owner == issuer.owner
                           && held.value.doc.generation == generation && served.Current?
                           && held.value.doc.revision > served.doc.revision;
            var r := Rendered(held, Some(served), issuer, generation, now);
            if Believed(served, issuer, generation)
            then r == Rendered(if further then held else Some(served), None, issuer, generation, now)
            else && r.Err? && HeldAfter(held, Some(served), issuer, generation, now) == held
                 && (r.error == ServedUnreadable <==> !served.Current?)
                 && (r.error == ServedByOtherOwner <==> served.Current? && served.doc.owner != issuer.owner)
                 && (r.error == ServedNotSigned <==>
                       served.Current? && served.doc.owner == issuer.owner && served.doc.signer != issuer.signer)
                 && (served.Current? && served.doc.owner == issuer.owner && served.doc.signer == issuer.signer ==>
                       r.error == GenerationsDisagree)
  {
  }

  /** How far this line has come in what is held: 0 where it has not begun. */
  function LineIn(held: Option<File>, generation: int): int {
    match held
    case None => 0
    case Some(Unreadable(_)) => 0
    case Some(Older(_, revision, _, _)) => if revision.Some? then revision.value else 0
    case Some(Current(d, _)) => if d.generation == generation then d.revision else 0
  }

  /** Rendering from what is held: it is returned while it is in date and says where this Host
      is reached, and only if this material signed it; otherwise the next directory of its line
      is issued, for a year, unless what is held cannot be read or has no line. */
  lemma RenderAlone(held: Option<File>, issuer: Issuer, generation: int, now: int)
    ensures var r := Rendered(held, None, issuer, generation, now);
            var settled := held.Some? && held.value.Current?
                           && var d := held.value.doc;
                              && d.owner == issuer.owner && d.generation == generation
                              && d.uri.host == issuer.host && d.uri.port == issuer.port
                              && d.uri == issuer.DescriptorUri() && d.endpoints == issuer.Endpoints()
                              && now >= d.issuedAt && now < d.expiresAt;
            var lineless := held.Some? && held.value.Older?
                            && !(held.value.ownerField == Some(issuer.owner) && LineIn(held, generation) > 0);
            && (settled && held.value.doc.signer == issuer.signer <==> r.Ok? && Some(r.value) == held)
            && (r == Err(HeldNotSigned) <==> settled && held.value.doc.signer != issuer.signer)
            && (r == Err(HeldUnreadable) <==> held.Some? && held.value.Unreadable?)
            && (r == Err(HeldHasNoLine) <==> lineless)
            && (r.Err? ==> HeldAfter(held, None, issuer, generation, now) == held)
            && (r.Ok? && Some(r.value) != held ==>
                  && r.value.Current? && r.value.doc.revision == LineIn(held, generation) + 1
                  && r.value.doc.issuedAt == now && r.value.doc.expiresAt == now + 365 * 86400)
  {
  }

  /** Whatever is rendered sends a device to this Host for each of the two authorities, under
      this Owner's name, and nowhere else. */
  lemma RenderedReachesTheHost(held: Option<File>, served: Option<File>, issuer: Issuer, generation: int, now: int)
    ensures var r := Rendered(held, served, issuer, generation, now);
            r.Ok? ==>
              && r.value.Current? && r.value.UriHost() == Some(issuer.host) && r.value.doc.uri.port == issuer.port
              && |r.value.doc.endpoints| == 2
              && (forall e :: e in r.value.doc.endpoints ==>
                    && e.uri.host == issuer.host && e.uri.port == issuer.port
                    && e.uri.path == "/api/" + e.authority + "/v1" && e.transport == "https-json" && e.priority == 0
                    && e.audience == issuer.owner + ":" + e.authority)
              && (exists e :: e in r.value.doc.endpoints && e.authority == "admission")
              && exists e :: e in r.value.doc.endpoints && e.authority == "device-control"
  {
    RenderedIsOurs(held, served, issuer, generation, now);
    TwoAuthorities(issuer);
    hide Rendered;
    var endpoints := issuer.Endpoints();
    assert endpoints[0] in endpoints && endpoints[1] in endpoints;
  }

  lemma TwoAuthorities(issuer: Issuer)
    ensures var endpoints := issuer.Endpoints();
            && |endpoints| == 2 && endpoints[0].authority == "admission" && endpoints[1].authority == "device-control"
            && forall e :: e in endpoints ==>
                 && e.uri.host == issuer.host && e.uri.port == issuer.port
                 && e.uri.path == "/api/" + e.authority + "/v1" && e.transport == "https-json" && e.priority == 0
                 && e.audience == issuer.owner + ":" + e.authority
  {
    assert ":admission" == ":" + "admission" && ":device-control" == ":" + "device-control";
    assert issuer.owner + ":admission" == issuer.owner + ":" + "admission";
    assert issuer.owner + ":device-control" == issuer.owner + ":" + "device-control";
    assert "/api/admission/v1" == "/api/" + "admission" + "/v1";
    assert "/api/device-control/v1" == "/api/" + "device-control" + "/v1";
  }

  // ---------------------------------------------------------------- the revision line

  function Max(a: int, b: int): int {
    if a >= b then a else b
  }

  /** The highest revision seen at this generation: held, or served by the Host. */
  function Seen(held: File, served: Option<File>): int
    requires held.Current?
  {
    if served.Some? && served.value.Current? then Max(held.doc.revision, served.value.doc.revision)
    else held.doc.revision
  }

  /** Where a readable directory of this Owner and generation is held, a render returns the
      newer of held and served, or issues exactly one past both. */
  lemma RenderContinuesTheLine(held: File, served: Option<File>, issuer: Issuer, generation: int, now: int)
    requires held.Current? && held.doc.owner == issuer.owner && held.doc.generation == generation
    ensures var r := Rendered(Some(held), served, issuer, generation, now);
            r.Ok? ==>
              && r.value.Current? && r.value.doc.owner == issuer.owner && r.value.doc.generation == generation
              && (|| (r.value == held && r.value.doc.revision == Seen(held, served))
                  || (Some(r.value) == served && r.value.doc.revision == Seen(held, served))
                  || (r.value.doc.revision == Seen(held, served) + 1 && r.value.doc.issuedAt == now))
  {
  }

  datatype Render = Render(served: Option<File>, host: string, port: int, now: int)

  function At(issuer: Issuer, step: Render): Issuer {
    issuer.(host := step.host, port := step.port)
  }

  /** What is held after renders for Hosts of one generation, at any endpoints and times. */
  function HeldAfterAll(held: Option<File>, issuer: Issuer, generation: int, steps: seq<Render>): Option<File>
    decreases |steps|
  {
    if steps == [] then held
    else
      var s := steps[0];
      HeldAfterAll(HeldAfter(held, s.served, At(issuer, s), generation, s.now), issuer, generation, steps[1..])
  }

  ghost predicate OnLine(held: Option<File>, owner: string, generation: int, revision: int) {
    && held.Some? && held.value.Current?
    && held.value.doc.owner == owner && held.value.doc.generation == generation
    && held.value.doc.revision >= revision
  }

  /** Over any run at one generation, failures included, the held revision never falls. */
  lemma {:induction false} RevisionNeverFalls(
      held: Option<File>, issuer: Issuer, generation: int, steps: seq<Render>, revision: int)
    requires OnLine(held, issuer.owner, generation, revision)
    ensures OnLine(HeldAfterAll(held, issuer, generation, steps), issuer.owner, generation, revision)
    decreases |steps|
  {
    if steps != [] {
      var s := steps[0];
      var here := At(issuer, s);
      RenderContinuesTheLine(held.value, s.served, here, generation, s.now);
      RevisionNeverFalls(HeldAfter(held, s.served, here, generation, s.now), issuer, generation, steps[1..], revision);
    }
  }

  /** After any run at one generation, a newly issued directory is past the one held before
      it was issued, which the run never left behind, and past the one the Host serves. */
  lemma IssuedRevisionsAreNew(
      held: Option<File>, issuer: Issuer, generation: int, steps: seq<Render>, revision: int, last: Render)
    requires OnLine(held, issuer.owner, generation, revision)
    ensures var before := HeldAfterAll(held, issuer, generation, steps);
            var r := Rendered(before, last.served, At(issuer, last), generation, last.now);
            r.Ok? && Some(r.value) != before && Some(r.value) != last.served ==>
              && before.Some? && before.value.Current? && before.value.doc.revision >= revision
              && r.value.Current? && r.value.doc.revision > before.value.doc.revision
              && (last.served.Some? ==>
                    last.served.value.Current? && r.value.doc.revision > last.served.value.doc.revision)
  {
    RevisionNeverFalls(held, issuer, generation, steps, revision);
    var before := HeldAfterAll(held, issuer, generation, steps);
    RenderContinuesTheLine(before.value, last.served, At(issuer, last), generation, last.now);
  }

  /** Whether a render of what is now the baseline has to issue a new document. */
  function Step(d: Descriptor, issuer: Issuer, generation: int, now: int): int {
    if UpToDate(d, issuer, generation, now) then 0 else 1
  }

  /** The situations in which a render leaves the line below the revision it held: a
      directory of another generation or Owner is given up, or one from before the current
      contract is replaced by what the Host serves. */
  predicate GivesUpTheLine(held: File, served: Option<File>, issuer: Issuer, generation: int, now: int)
    requires held.Revision().Some?
    requires served.Some? ==> served.value.Current?
  {
    var mine := held.Current? && held.doc.owner == issuer.owner && held.doc.generation == generation;
    if mine then false
    else if served.Some? then
      served.value.doc.revision + Step(served.value.doc, issuer, generation, now) < held.Revision().value
    else held.Current? && held.doc.generation != generation && held.doc.revision > 1
  }

  /** For every file that carries a revision: a successful render goes below it exactly in
      those situations. */
  lemma RevisionFallsExactlyWhen(held: File, served: Option<File>, issuer: Issuer, generation: int, now: int)
    requires held.Revision().Some?
    requires served.Some? ==> served.value.Current?
    requires Rendered(Some(held), served, issuer, generation, now).Ok?
    ensures var r := Rendered(Some(held), served, issuer, generation, now).value;
            && r.Current?
            && (r.doc.revision < held.Revision().value <==> GivesUpTheLine(held, served, issuer, generation, now))
  {
  }

  /** Interleaving two generations restarts the line of each. */
  lemma GenerationsInterleaveBackwards()
    ensures exists held: File, issuer: Issuer ::
              && held.Current? && held.doc.generation == 8 && held.doc.owner == issuer.owner
              && var away := HeldAfter(Some(held), None, issuer, 1, 0);
                 var back := HeldAfter(away, None, issuer, 8, 0);
                 && back.Some? && back.value.Current? && back.value.doc.generation == 8
                 && back.value.doc.revision < held.doc.revision
  {
    var issuer := Issuer("owner-a", "signer", "host", 8443);
    var held := NewDirectory(issuer, 8, 5, 0);
    var away := HeldAfter(Some(held), None, issuer, 1, 0);
    assert away == Some(NewDirectory(issuer, 1, 1, 0));
    assert HeldAfter(away, None, issuer, 8, 0) == Some(NewDirectory(issuer, 8, 1, 0));
  }

  /** A held document from before the current contract yields to an older served one. */
  lemma OlderContractYields()
    ensures exists held: File, served: File, issuer: Issuer ::
              && held.Older? && held.Revision() == Some(7)
              && Rendered(Some(held), Some(served), issuer, 1, 0) == Ok(served) && served.Revision() == Some(3)
  {
    var issuer := Issuer("owner-a", "signer", "host", 8443);
    var held := Older(Some("owner-a"), Some(7), None, "");
    var served := NewDirectory(issuer, 1, 3, 0);
    assert Rendered(Some(held), Some(served), issuer, 1, 0) == Ok(served);
  }

  // ---------------------------------------------------------------- adoption is a fixpoint

  /** A believed served directory comes back byte for byte exactly when it is current and
      nothing newer is waiting to be delivered. */
  lemma AdoptedByteForByteIff(held: Option<File>, served: File, issuer: Issuer, generation: int, now: int)
    requires RefusedServed(served, issuer, generation) == None
    ensures Rendered(held, Some(served), issuer, generation, now) == Ok(served)
        <==> UpToDate(served.doc, issuer, generation, now) && !HeldIsNewer(held, served.doc, issuer, generation)
  {
  }

  /** What was rendered is what a later look at the same Host, or at one that serves it,
      takes as the baseline. */
  lemma BaselineStays(held: Option<File>, served: Option<File>, issuer: Issuer, generation: int, now: int)
    requires Rendered(held, served, issuer, generation, now).Ok?
    ensures var r := Rendered(held, served, issuer, generation, now).value;
            && Baseline(Some(r), served, issuer, generation) == Ok(Some(r))
            && Baseline(Some(r), Some(r), issuer, generation) == Ok(Some(r))
            && HeldAfter(held, served, issuer, generation, now) == Some(r)
  {
  }

  /** A baseline that is this material's own and up to date is not issued over. */
  lemma SettledStays(r: File, served: Option<File>, issuer: Issuer, generation: int, later: int)
    requires r.Current? && UpToDate(r.doc, issuer, generation, later) && r.doc.signer == issuer.signer
    requires Baseline(Some(r), served, issuer, generation) == Ok(Some(r))
    ensures Rendered(Some(r), served, issuer, generation, later) == Ok(r)
    ensures HeldAfter(Some(r), served, issuer, generation, later) == Some(r)
  {
    hide Baseline, UpToDate;
  }

  /** Rendering again changes nothing, for a Host that serves the previous result, for one
      that serves none, and for one that still serves what it served before. */
  lemma RenderIsStable(held: Option<File>, served: Option<File>, issuer: Issuer, generation: int, now: int, later: int)
    requires Rendered(held, served, issuer, generation, now).Ok?
    requires var r := Rendered(held, served, issuer, generation, now).value;
             r.Current? && now <= later < r.doc.expiresAt
    ensures var r := Rendered(held, served, issuer, generation, now).value;
            && HeldAfter(held, served, issuer, generation, now) == Some(r)
            && Rendered(Some(r), Some(r), issuer, generation, later) == Ok(r)
            && HeldAfter(Some(r), Some(r), issuer, generation, later) == Some(r)
            && Rendered(Some(r), None, issuer, generation, later) == Ok(r)
            && Rendered(Some(r), served, issuer, generation, later) == Ok(r)
            && HeldAfter(Some(r), served, issuer, generation, later) == Some(r)
  {
    RenderedIsOurs(held, served, issuer, generation, now);
    BaselineStays(held, served, issuer, generation, now);
    var r := Rendered(held, served, issuer, generation, now).value;
    assert Baseline(Some(r), None, issuer, generation) == Ok(Some(r));
    hide Rendered, HeldAfter, Baseline;
    SettledStays(r, served, issuer, generation, later);
    SettledStays(r, Some(r), issuer, generation, later);
    SettledStays(r, None, issuer, generation, later);
  }
}
