/** One operation of the Owner Authority protocol, from one Host's report to one record.

    The functions say what an operation does to this profile; `HostLayer`, `DeliveryStore`,
    `Controller` and, on a machine that is its own Host, `LocalProduct` are the objects that
    do it, proved against them. */
module AuthorityProtocol {
  import opened Common
  import opened OwnerDirectory
  import opened InstallDecision

  /** What this workstation holds for one Host: keys, identity, and two written facts. */
  datatype Profile = Profile(
    owner: string, signer: string, hostId: string, identity: string, port: int,
    binding: Option<Binding>, held: Option<File>)
  {
    predicate Valid() { ValidHostId(hostId) }

    function Issuer(): Issuer
      requires Valid()
    {
      OwnerDirectory.Issuer.Issuer(owner, signer, HubHostname(hostId), port)
    }

    function Decide(context: Context): Decision {
      InstallDecision.Decide(context, owner, hostId, identity, binding)
    }
  }

  /** An operation that was allowed to proceed: what it decided and what it renders. */
  datatype Operation = Operation(
    context: Context, decision: Decision, authority: HostAuthority, lineage: Document, directory: File)

  datatype Refusal =
    | Refused(decision: Decision) | LineageInvalid | DirectoryRefused(error: DirectoryError)
    | NothingEstablished | LineageNotEstablished | DeliveredElsewhere | DirectoryNotOurs

  // ---------------------------------------------------------------- delivery

  /** The binding after recording a delivery: kept when it verifies, written when absent. */
  function Bound(binding: Option<Binding>, hostId: string, hardware: Hardware): Option<Binding> {
    if binding.Some? then
      if VerifiesBinding(binding.value, hostId, hardware) then binding else None
    else if ValidHostId(hostId) && ValidHardware(hardware) then Some(Recorded(1, hostId, hardware))
    else None
  }

  /** Recording fills an absent binding or finds its own; it never replaces one. */
  lemma BindingIsWrittenOnce(binding: Option<Binding>, hostId: string, hardware: Hardware)
    ensures var b := Bound(binding, hostId, hardware);
            && (b.Some? ==> VerifiesBinding(b.value, hostId, hardware))
            && (b.Some? <==> && (binding == None || binding == Some(Recorded(1, hostId, hardware)))
                             && ValidHostId(hostId) && ValidHardware(hardware))
            && (b.Some? ==> b == Some(Recorded(1, hostId, hardware)))
            && (b.Some? && binding.Some? ==> b == binding)
            && (b.Some? ==> Bound(b, hostId, hardware) == b)
            && forall other :: b.Some? && other != hardware ==> Bound(b, hostId, other) == None
  {
  }

  class DeliveryStore {
    var binding: Option<Binding>

    constructor ()
      ensures binding == None
    {
      binding := None;
    }

    method BindDelivery(hostId: string, hardware: Hardware) returns (ok: bool)
      modifies this
      ensures ok <==> Bound(old(binding), hostId, hardware).Some?
      ensures binding == if ok then Bound(old(binding), hostId, hardware) else old(binding)
    {
      if binding.Some? {
        return VerifiesBinding(binding.value, hostId, hardware);
      }
      if !ValidHostId(hostId) || !ValidHardware(hardware) {
        return false;
      }
      binding := Some(Recorded(1, hostId, hardware));
      return true;
    }
  }

  // ---------------------------------------------------------------- adopting a decision

  /** The Authority an operation renders for: the Host's own, or a fresh one. */
  function AuthorityFor(decision: Decision, context: Context, token: string): Result<HostAuthority, Refusal> {
    if !decision.Proceeds() then Err(Refused(decision))
    else if decision.HostEstablished() then
      if context.established.None? || EstablishedFrom(context.established.value).None? then Err(LineageInvalid)
      else Ok(EstablishedFrom(context.established.value).value)
    else Ok(Fresh(token))
  }

  /** What a render adopts from: the reported directory, unless the Authority is fresh. */
  function ServedWith(decision: Decision, context: Context): Option<File> {
    if decision.HostEstablished() then context.directory else None
  }

  datatype Begun = Begun(outcome: Result<Operation, Refusal>, held: Option<File>)

  /** Decide, adopt and render; only the held directory can change. */
  function Begin(p: Profile, context: Context, token: string, now: int): (begun: Begun)
    requires p.Valid()
    ensures begun.outcome.Ok? ==>
              var op := begun.outcome.value;
              op.context == context && op.decision == p.Decide(context) && op.decision.Proceeds()
  {
    var decision := p.Decide(context);
    var authority := AuthorityFor(decision, context, token);
    if authority.Err? then Begun(Err(authority.error), p.held)
    else
      var lineage := LineageOf(authority.value, p.owner);
      if lineage.None? then Begun(Err(LineageInvalid), p.held)
      else
        var served := ServedWith(decision, context);
        var g := authority.value.generation;
        var rendered := Rendered(p.held, served, p.Issuer(), g, now);
        var held := HeldAfter(p.held, served, p.Issuer(), g, now);
        if rendered.Err? then Begun(Err(DirectoryRefused(rendered.error)), held)
        else Begun(Ok(Operation(context, decision, authority.value, lineage.value, rendered.value)), held)
  }

  /** After the install: the Host's own account is the only proof, then the board is recorded. */
  function Confirm(p: Profile, op: Operation, reported: Option<Document>): Result<Option<Binding>, Refusal> {
    if reported != Some(op.lineage) then Err(LineageNotEstablished)
    else if !op.decision.RecordsDelivery() then Ok(p.binding)
    else
      var bound := Bound(p.binding, p.hostId, op.context.hardware);
      if bound.None? then Err(DeliveredElsewhere) else Ok(bound)
  }

  /** The binding left by an operation that accepts only established Hosts. */
  function RequireEstablished(p: Profile, context: Context): Result<Option<Binding>, Refusal> {
    var decision := p.Decide(context);
    if !decision.HostEstablished() then Err(if decision.Proceeds() then NothingEstablished else Refused(decision))
    else if EstablishedFrom(context.established.value).None? then Err(LineageInvalid)
    else if !decision.RecordsDelivery() then Ok(p.binding)
    else
      var bound := Bound(p.binding, p.hostId, context.hardware);
      if bound.None? then Err(DeliveredElsewhere) else Ok(bound)
  }

  /** The explicit verb: adopt delivery evidence, with the served directory's signature. */
  function TrustDelivery(p: Profile, context: Context): Result<Option<Binding>, Refusal> {
    var decision := p.Decide(context);
    if decision.Continue? then Ok(p.binding)
    else if decision.FirstInstall? then Err(NothingEstablished)
    else if !decision.AdoptDelivery? then Err(Refused(decision))
    else
      var d := context.directory.value;
      if !d.Current? || d.doc.owner != p.owner || d.doc.signer != p.signer then Err(DirectoryNotOurs)
      else
        var bound := Bound(p.binding, p.hostId, context.hardware);
        if bound.None? then Err(DeliveredElsewhere) else Ok(bound)
  }

  /** Who drives the protocol: a workstation addressing a board, or a machine that is its
      own Host. The latter holds the identity it compares with, and serves the directory its
      material holds when none is placed. */
  datatype Driver = Remote | Local {
    function Observes(p: Profile, reported: Context): (c: Context)
      ensures Honest(reported) ==> Honest(c)
    {
      if Local? && reported.directory.None? then reported.(directory := p.held) else reported
    }

    function Acts(p: Profile, reported: Context): Profile {
      if Local? then p.(identity := if reported.identity.Some? then reported.identity.value else "") else p
    }
  }

  /** After its Hub started, a machine that is its own Host records itself, once. */
  function CommitHere(p: Profile, reported: Context): Result<Option<Binding>, Refusal> {
    var context := Local.Observes(p, reported);
    var decision := Local.Acts(p, reported).Decide(context);
    if decision.FirstInstall? then Ok(p.binding)
    else if !decision.Proceeds() then Err(Refused(decision))
    else if !decision.RecordsDelivery() then Ok(p.binding)
    else
      var bound := Bound(p.binding, p.hostId, context.hardware);
      if bound.None? then Err(DeliveredElsewhere) else Ok(bound)
  }

  // ---------------------------------------------------------------- what an operation may render

  /** An operation renders exactly the lineage the Host holds; only a first install names a
      new one, at generation 1, and only for a Host that reports none. */
  lemma RendersWhatTheHostHolds(p: Profile, context: Context, token: string, now: int)
    requires p.Valid() && Honest(context)
    ensures var begun := Begin(p, context, token, now);
            begun.outcome.Ok? ==>
              var op := begun.outcome.value;
              && op.lineage.Lineage? && op.lineage.Owner() == Some(p.owner)
              && (op.decision.FirstInstall? <==> context.marker.None?)
              && (context.marker.Some? ==> Some(op.lineage) == context.marker == context.anchor)
              && (context.marker.None? ==> op.lineage.generation == 1 && !op.authority.established
                                           && op.lineage.stateId == STATE_PREFIX + token && p.binding == None)
              && (op.authority.established <==> context.marker.Some?)
  {
    if p.Decide(context).HostEstablished() && EstablishedFrom(context.established.value).Some? {
      EstablishedIsRenderedExactly(context.established.value, p.owner);
    }
  }

  // ---------------------------------------------------------------- when each verb goes through

  /** Both copies of the lineage, and the same one of this Owner. */
  predicate HoldsOurs(p: Profile, context: Context) {
    && context.marker.Some? && context.marker == context.anchor
    && context.marker.value.Owner() == Some(p.owner)
  }

  /** The board this profile recorded. */
  predicate IsRecorded(p: Profile, context: Context) {
    p.binding == Some(Recorded(1, p.hostId, context.hardware)) && ValidHardware(context.hardware)
  }

  /** The file's own route is the name rendered for this Host. */
  predicate RoutesTo(directory: Option<File>, hostId: string)
    requires ValidHostId(hostId)
  {
    directory.Some? && directory.value.UriHost() == Some("eidolon-hub-" + hostId[6..] + ".local")
  }

  /** Evidence that stands in for a record: this Owner's Authority, this identity, and a
      directory that names this Host. */
  predicate Proven(p: Profile, context: Context)
    requires p.Valid()
  {
    && p.binding == None && HoldsOurs(p, context) && context.identity == Some(p.identity)
    && RoutesTo(context.directory, p.hostId)
  }

  /** The explicit verb: on the recorded board it changes nothing; without a record it writes
      one exactly for a board that proves itself, serves a directory this profile's own signer
      signed for its Owner, and names its hardware. */
  lemma TrustGoesThroughIff(p: Profile, context: Context)
    requires p.Valid() && Honest(context)
    ensures var r := TrustDelivery(p, context);
            var signed := context.directory.Some? && context.directory.value.Current?
                          && context.directory.value.doc.owner == p.owner
                          && context.directory.value.doc.signer == p.signer;
            && (r.Ok? <==> || (HoldsOurs(p, context) && IsRecorded(p, context))
                           || (Proven(p, context) && signed && ValidHardware(context.hardware)))
            && (r.Ok? ==> r.value == Some(Recorded(1, p.hostId, context.hardware)))
            && (r == Err(DirectoryNotOurs) <==> Proven(p, context) && !signed)
            && (r == Err(DeliveredElsewhere) <==> Proven(p, context) && signed && !ValidHardware(context.hardware))
            && (r == Err(NothingEstablished) <==>
                  p.binding == None && context.marker == None && context.anchor == None)
  {
    NamesHostIff(context.directory, p.hostId);
    hide ValidHostId, ValidHardware, DirectoryNamesHost;
  }

  /** An operation on an installed Host: on the recorded board it changes nothing; without a
      record it writes one exactly for a board that proves itself and names its hardware. What
      the board holds has to be a lineage that can be rendered. */
  lemma RequireGoesThroughIff(p: Profile, context: Context)
    requires p.Valid() && Honest(context)
    ensures var r := RequireEstablished(p, context);
            var ours := HoldsOurs(p, context) && Renderable(context.marker.value);
            && (r.Ok? <==> ours && (IsRecorded(p, context) || (Proven(p, context) && ValidHardware(context.hardware))))
            && (r.Ok? ==> r.value == Some(Recorded(1, p.hostId, context.hardware)))
            && (r == Err(LineageInvalid) <==>
                  HoldsOurs(p, context) && !ours && (IsRecorded(p, context) || Proven(p, context)))
            && (r == Err(DeliveredElsewhere) <==> ours && Proven(p, context) && !ValidHardware(context.hardware))
            && (r == Err(NothingEstablished) <==>
                  p.binding == None && context.marker == None && context.anchor == None)
  {
    NamesHostIff(context.directory, p.hostId);
    if context.marker.Some? {
      EstablishedIffRenderable(context.marker.value);
    }
    hide ValidHostId, ValidHardware, DirectoryNamesHost, EstablishedFrom, Renderable;
  }

  /** The directory a machine serves that is its own Host: the one placed, or its material's. */
  function ServedHere(p: Profile, reported: Context): Option<File> {
    if reported.directory.Some? then reported.directory else p.held
  }

  /** A machine that is its own Host, after its Hub started: it records itself exactly when its
      Hub established this Owner's Authority, it holds an identity, the directory it serves
      names it, and its hardware is named; before anything is established it is left alone. */
  lemma CommitGoesThroughIff(p: Profile, reported: Context)
    requires p.Valid() && Honest(reported)
    ensures var r := CommitHere(p, reported);
            var nothing := p.binding == None && reported.marker == None && reported.anchor == None;
            var proven := p.binding == None && HoldsOurs(p, reported) && reported.identity.Some?
                          && RoutesTo(ServedHere(p, reported), p.hostId);
            && (r.Ok? <==> || nothing || (HoldsOurs(p, reported) && IsRecorded(p, reported))
                           || (proven && ValidHardware(reported.hardware)))
            && (r.Ok? ==> r.value == if nothing then None else Some(Recorded(1, p.hostId, reported.hardware)))
            && (r == Err(DeliveredElsewhere) <==> proven && !ValidHardware(reported.hardware))
  {
    NamesHostIff(ServedHere(p, reported), p.hostId);
    hide ValidHostId, ValidHardware, DirectoryNamesHost;
  }

  /** After an install: the board has to report the very lineage that was rendered; then a first
      install or an adoption records it unless another is recorded, and a continuation does not. */
  lemma ConfirmGoesThroughIff(p: Profile, op: Operation, reported: Option<Document>)
    requires p.Valid()
    ensures var r := Confirm(p, op, reported);
            var fits := ValidHardware(op.context.hardware)
                        && (p.binding == None || p.binding == Some(Recorded(1, p.hostId, op.context.hardware)));
            var records := op.decision == FirstInstall || op.decision == AdoptDelivery;
            && (r.Ok? <==> reported == Some(op.lineage) && (records ==> fits))
            && (r.Ok? ==> r.value == if records then Some(Recorded(1, p.hostId, op.context.hardware)) else p.binding)
            && (r == Err(LineageNotEstablished) <==> reported != Some(op.lineage))
  {
    hide ValidHostId, ValidHardware;
  }

  /** What a render is for: the Host's own Authority, adopting the directory it serves, or a
      fresh one at generation 1. */
  lemma BeginGoesThroughIff(p: Profile, context: Context, token: string, now: int)
    requires p.Valid() && Honest(context)
    ensures var r := Begin(p, context, token, now).outcome;
            var empty := context.marker == None && context.anchor == None && p.binding == None;
            var ours := HoldsOurs(p, context) && Renderable(context.marker.value)
                        && (IsRecorded(p, context) || Proven(p, context));
            var rendered := if empty then Rendered(p.held, None, p.Issuer(), 1, now)
                            else if ours then
                              Rendered(p.held, context.directory, p.Issuer(), context.marker.value.generation, now)
                            else Err(ServedUnreadable);
            && (r.Ok? <==> (empty || ours) && rendered.Ok?)
            && (r.Ok? ==> r.value.directory == rendered.value)
            && ((empty || ours) && rendered.Err? ==> r == Err(DirectoryRefused(rendered.error)))
  {
    NamesHostIff(context.directory, p.hostId);
    if context.marker.Some? {
      EstablishedIffRenderable(context.marker.value);
    }
    hide ValidHostId, ValidHardware, DirectoryNamesHost, Renderable, Rendered, HeldAfter, HubHostname;
  }

  // ---------------------------------------------------------------- the objects

  class HostLayer {
    const owner: string
    const signer: string
    const hostId: string
    const identity: string
    const port: int
    const delivery: DeliveryStore
    const material: Material
    var installContext: Option<Context>
    var installDecision: Option<Decision>
    var hostAuthority: Option<HostAuthority>
    var servedDirectory: Option<File>

    function State(): Profile
      reads delivery, material
    {
      Profile(owner, signer, hostId, identity, port, delivery.binding, material.held)
    }

    constructor (p: Profile, delivery: DeliveryStore, material: Material)
      requires p.binding == delivery.binding && p.held == material.held
      ensures State() == p && this.delivery == delivery && this.material == material
      ensures installContext == None && installDecision == None && hostAuthority == None && servedDirectory == None
    {
      owner, signer, hostId, identity, port := p.owner, p.signer, p.hostId, p.identity, p.port;
      this.delivery, this.material := delivery, material;
      installContext, installDecision, hostAuthority, servedDirectory := None, None, None, None;
    }

    method ForgetHost()
      modifies this
      ensures installContext == None && installDecision == None && hostAuthority == None && servedDirectory == None
    {
      installContext, installDecision, hostAuthority, servedDirectory := None, None, None, None;
    }

    method ObserveInstallContext(reported: Context)
      modifies this`installContext
      ensures installContext == Some(reported)
    {
      installContext := Some(reported);
    }

    method DecideInstall(context: Context) returns (decision: Decision)
      modifies this`installDecision
      ensures decision == State().Decide(context) && installDecision == Some(decision)
    {
      decision := Decide(context, owner, hostId, identity, delivery.binding);
      installDecision := Some(decision);
    }

    method AdoptDecision(context: Context, decision: Decision, token: string)
      returns (r: Result<HostAuthority, Refusal>)
      modifies this`hostAuthority, this`servedDirectory
      ensures r == AuthorityFor(decision, context, token)
      ensures r.Ok? ==> hostAuthority == Some(r.value) && servedDirectory == ServedWith(decision, context)
      ensures r.Err? ==> hostAuthority == old(hostAuthority) && servedDirectory == old(servedDirectory)
    {
      if !decision.Proceeds() {
        return Err(Refused(decision));
      }
      if decision.HostEstablished() {
        if context.established.None? || EstablishedFrom(context.established.value).None? {
          return Err(LineageInvalid);
        }
        hostAuthority := EstablishedFrom(context.established.value);
        servedDirectory := context.directory;
      } else {
        hostAuthority, servedDirectory := Some(Fresh(token)), None;
      }
      return Ok(hostAuthority.value);
    }

    method RecordDelivery() returns (ok: bool)
      modifies delivery
      ensures installContext.None? ==> !ok && delivery.binding == old(delivery.binding)
      ensures installContext.Some? ==>
                var bound := Bound(old(delivery.binding), hostId, installContext.value.hardware);
                ok == bound.Some? && delivery.binding == if ok then bound else old(delivery.binding)
    {
      if installContext.None? {
        return false;
      }
      ok := delivery.BindDelivery(hostId, installContext.value.hardware);
    }

    /** Observes, decides and, where the evidence stands in for a record, writes one. */
    method RequireEstablishedHost(reported: Context, token: string) returns (r: Result<Decision, Refusal>)
      modifies this, delivery
      ensures var result := RequireEstablished(old(State()), reported);
              && r.Ok? == result.Ok?
              && delivery.binding == (if result.Ok? then result.value else old(delivery.binding))
              && (r.Err? ==> r.error == result.error)
              && (r.Ok? ==> r.value == old(State()).Decide(reported))
              && (r.Ok? ==> hostAuthority == EstablishedFrom(reported.established.value)
                            && servedDirectory == reported.directory)
    {
      ObserveInstallContext(reported);
      var decision := DecideInstall(reported);
      if !decision.HostEstablished() {
        return Err(if decision.Proceeds() then NothingEstablished else Refused(decision));
      }
      var adopted := AdoptDecision(reported, decision, token);
      if adopted.Err? {
        return Err(adopted.error);
      }
      if decision.RecordsDelivery() {
        var ok := RecordDelivery();
        if !ok {
          return Err(DeliveredElsewhere);
        }
      }
      return Ok(decision);
    }
  }

  class Controller {
    const hostLayer: HostLayer

    constructor (hostLayer: HostLayer)
      ensures this.hostLayer == hostLayer
    {
      this.hostLayer := hostLayer;
    }

    method AuthorityCapability(reported: Context, token: string, now: int) returns (r: Result<Operation, Refusal>)
      requires hostLayer.State().Valid()
      modifies hostLayer, hostLayer.material
      ensures Begin(old(hostLayer.State()), reported, token, now) == Begun(r, hostLayer.material.held)
      ensures hostLayer.installContext == Some(reported)
    {
      hostLayer.ObserveInstallContext(reported);
      var decision := hostLayer.DecideInstall(reported);
      var authority := hostLayer.AdoptDecision(reported, decision, token);
      if authority.Err? {
        return Err(authority.error);
      }
      var lineage := LineageOf(authority.value, hostLayer.owner);
      if lineage.None? {
        return Err(LineageInvalid);
      }
      var issuer := hostLayer.State().Issuer();
      var rendered := hostLayer.material.Directory(
        hostLayer.servedDirectory, issuer, authority.value.generation, now);
      if rendered.Err? {
        return Err(DirectoryRefused(rendered.error));
      }
      return Ok(Operation(reported, decision, authority.value, lineage.value, rendered.value));
    }

    method ConfirmAuthorityEstablished(op: Operation, reported: Option<Document>) returns (r: Result<(), Refusal>)
      requires hostLayer.installContext == Some(op.context)
      modifies hostLayer.delivery
      ensures var result := Confirm(old(hostLayer.State()), op, reported);
              && r.Ok? == result.Ok? && (r.Err? ==> r.error == result.error)
              && hostLayer.delivery.binding ==
                 (if result.Ok? then result.value else old(hostLayer.delivery.binding))
    {
      if reported != Some(op.lineage) {
        return Err(LineageNotEstablished);
      }
      if op.decision.RecordsDelivery() {
        var ok := hostLayer.RecordDelivery();
        if !ok {
          return Err(DeliveredElsewhere);
        }
      }
      return Ok(());
    }

    method TrustHostDelivery(reported: Context, apply: bool) returns (r: Result<Decision, Refusal>)
      modifies hostLayer, hostLayer.delivery
      ensures var result := TrustDelivery(old(hostLayer.State()), reported);
              && hostLayer.delivery.binding ==
                 (if apply && result.Ok? then result.value else old(hostLayer.delivery.binding))
              && (r.Ok? ==> r.value == old(hostLayer.State()).Decide(reported))
              && (r.Ok? <==> result.Ok? || (!apply && result.error.DeliveredElsewhere?))
              && (r.Err? ==> r.error == result.error)
    {
      hostLayer.ObserveInstallContext(reported);
      var decision := hostLayer.DecideInstall(reported);
      if decision.Continue? {
        return Ok(decision);
      }
      if decision.FirstInstall? {
        return Err(NothingEstablished);
      }
      if !decision.AdoptDelivery? {
        return Err(Refused(decision));
      }
      var served := reported.directory.value;
      if !served.Current? || served.doc.owner != hostLayer.owner || served.doc.signer != hostLayer.signer {
        return Err(DirectoryNotOurs);
      }
      if apply {
        var ok := hostLayer.RecordDelivery();
        if !ok {
          return Err(DeliveredElsewhere);
        }
      }
      return Ok(decision);
    }
  }

  class LocalProduct {
    const owner: string
    const signer: string
    const hostId: string
    const port: int
    const delivery: DeliveryStore
    const material: Material

    function State(): Profile
      reads delivery, material
    {
      Profile(owner, signer, hostId, "", port, delivery.binding, material.held)
    }

    constructor (p: Profile, delivery: DeliveryStore, material: Material)
      requires p.binding == delivery.binding && p.held == material.held && p.identity == ""
      ensures State() == p && this.delivery == delivery && this.material == material
    {
      owner, signer, hostId, port := p.owner, p.signer, p.hostId, p.port;
      this.delivery, this.material := delivery, material;
    }

    method DecideInstall(reported: Context) returns (decision: Decision, context: Context)
      ensures context == Local.Observes(State(), reported)
      ensures decision == Local.Acts(State(), reported).Decide(context)
    {
      context := if reported.directory.Some? then reported else reported.(directory := material.held);
      var held := if context.identity.Some? then context.identity.value else "";
      decision := Decide(context, owner, hostId, held, delivery.binding);
    }

    method IssueOwnerDomainAssets(reported: Context, token: string, now: int) returns (r: Result<Operation, Refusal>)
      requires State().Valid()
      modifies material
      ensures var p := old(State());
              Begin(Local.Acts(p, reported), Local.Observes(p, reported), token, now) == Begun(r, material.held)
    {
      var decision, context := DecideInstall(reported);
      var authority := AuthorityFor(decision, context, token);
      if authority.Err? {
        return Err(authority.error);
      }
      var lineage := LineageOf(authority.value, owner);
      if lineage.None? {
        return Err(LineageInvalid);
      }
      var rendered := material.Directory(
        ServedWith(decision, context), State().Issuer(), authority.value.generation, now);
      if rendered.Err? {
        return Err(DirectoryRefused(rendered.error));
      }
      return Ok(Operation(context, decision, authority.value, lineage.value, rendered.value));
    }

    method CommitOwnerAuthority(reported: Context) returns (r: Result<Decision, Refusal>)
      modifies delivery
      ensures var result := CommitHere(old(State()), reported);
              && r.Ok? == result.Ok? && (r.Err? ==> r.error == result.error)
              && delivery.binding == (if result.Ok? then result.value else old(delivery.binding))
    {
      var decision, context := DecideInstall(reported);
      if decision.FirstInstall? {
        return Ok(decision);
      }
      if !decision.Proceeds() {
        return Err(Refused(decision));
      }
      if decision.RecordsDelivery() {
        var ok := delivery.BindDelivery(hostId, context.hardware);
        if !ok {
          return Err(DeliveredElsewhere);
        }
      }
      return Ok(decision);
    }
  }
}
