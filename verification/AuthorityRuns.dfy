/** The Owner Authority protocol over whole runs: one profile, any number of boards, any
    interleaving of operations, crashes, retries and boards swapped between operations.

    An operation keeps to the board it began on, and `HubConsumes` changes only a board
    without a marker. Everything else may happen between any two steps.

    A replacement of the identity ends in any profile without a binding. A machine that is its
    own Host deletes the binding before it commits the new identity, so where that commit is
    refused the profile is the old one and the binding is gone all the same. */
module AuthorityRuns {
  import opened Common
  import opened OwnerDirectory
  import opened InstallDecision
  import opened AuthorityProtocol

  type BoardId = nat
  type OperationId = nat

  datatype Board = Board(
    hardware: Hardware, marker: Option<Document>, anchor: Option<Document>,
    identity: Option<string>, directory: Option<File>, capability: Option<Capability>)

  /** An operation in flight, and the board it talks to. */
  datatype InFlight = InFlight(board: BoardId, op: Operation)

  datatype World = World(
    profile: Profile, boards: map<BoardId, Board>, inFlight: map<OperationId, InFlight>, minted: set<Document>)
  {
    ghost predicate Valid() {
      && profile.Valid()
      && forall id :: id in inFlight ==>
           && inFlight[id].board in boards
           && inFlight[id].op.context.hardware == boards[inFlight[id].board].hardware
    }
  }

  datatype Part = ShipIdentity | ShipDirectory | ShipCapability

  datatype Step =
    | Install(id: OperationId, board: BoardId, token: string, now: int, driver: Driver)  // observe, decide, render
    | Ship(id: OperationId, part: Part)                                  // one staged file reaches the board
    | HubConsumes(board: BoardId)                                        // Hub takes a pending capability
    | HubAnchors(board: BoardId)                                         // and saves its anchor
    | ConfirmInstall(id: OperationId)
    | Crash(id: OperationId)
    | Converge(board: BoardId)                                           // an operation on an installed Host
    | Trust(board: BoardId)
    | Commit(board: BoardId)                                             // a machine that is its own Host
    | Replace(next: Profile)                                             // a new Host identity, or a failed attempt
    | Outside(board: BoardId, found: Board)                              // anything done to a board by others

  /** What a board's agent reports: both copies, and established when they agree. */
  function Report(b: Board): (c: Context)
    ensures Honest(c)
  {
    Context(b.marker, b.anchor, if b.marker.Some? && b.marker == b.anchor then b.marker else None,
            b.directory, b.hardware, b.identity)
  }

  function Shipped(b: Board, p: Profile, op: Operation, part: Part): Board {
    match part
    case ShipIdentity => b.(identity := Some(p.identity))
    case ShipDirectory => b.(directory := Some(op.directory))
    case ShipCapability => b.(capability := Some(BootstrapDocument(op.lineage, op.authority.established)))
  }

  function Consume(b: Board): Board {
    if b.marker.None? && b.capability.Some? && b.capability.value.Pending?
    then b.(marker := Some(b.capability.value.lineage), capability := None) else b
  }

  function Bind(w: World, result: Result<Option<Binding>, Refusal>): World {
    if result.Ok? then w.(profile := w.profile.(binding := result.value)) else w
  }

  /** Observe, decide, adopt and render: nothing on any board, and no binding, is touched. */
  function AfterInstall(w: World, id: OperationId, board: BoardId, token: string, now: int, driver: Driver)
    : (after: World)
    requires w.Valid() && id !in w.inFlight && board in w.boards
    ensures after.boards == w.boards && after.profile == w.profile.(held := after.profile.held)
  {
    var reported := Report(w.boards[board]);
    var begun := Begin(driver.Acts(w.profile, reported), driver.Observes(w.profile, reported), token, now);
    var held := w.(profile := w.profile.(held := begun.held));
    if begun.outcome.Err? then held
    else
      var op := begun.outcome.value;
      held.(inFlight := w.inFlight[id := InFlight(board, op)],
            minted := if op.decision.FirstInstall? then w.minted + {op.lineage} else w.minted)
  }

  /** One step; a step that is refused or does not apply leaves the world as it is, except
      for what a refused render has already adopted. */
  function Apply(w: World, s: Step): World
    requires w.Valid()
  {
    match s
    case Install(id, board, token, now, driver) =>
      if id in w.inFlight || board !in w.boards then w else AfterInstall(w, id, board, token, now, driver)
    case Ship(id, part) =>
      if id !in w.inFlight then w
      else
        var f := w.inFlight[id];
        w.(boards := w.boards[f.board := Shipped(w.boards[f.board], w.profile, f.op, part)])
    case HubConsumes(board) =>
      if board !in w.boards then w else w.(boards := w.boards[board := Consume(w.boards[board])])
    case HubAnchors(board) =>
      if board !in w.boards || w.boards[board].anchor.Some? then w
      else w.(boards := w.boards[board := w.boards[board].(anchor := w.boards[board].marker)])
    case ConfirmInstall(id) =>
      if id !in w.inFlight then w
      else
        var f := w.inFlight[id];
        Bind(w, Confirm(w.profile, f.op, Report(w.boards[f.board]).established)).(inFlight := w.inFlight - {id})
    case Crash(id) => w.(inFlight := w.inFlight - {id})
    case Converge(board) =>
      if board !in w.boards then w else Bind(w, RequireEstablished(w.profile, Report(w.boards[board])))
    case Trust(board) =>
      if board !in w.boards then w else Bind(w, TrustDelivery(w.profile, Report(w.boards[board])))
    case Commit(board) =>
      if board !in w.boards then w else Bind(w, CommitHere(w.profile, Report(w.boards[board])))
    case Replace(next) =>
      if !next.Valid() then w
      else w.(profile := next.(binding := None), inFlight := map[])
    case Outside(board, found) =>
      if board !in w.boards || found.hardware != w.boards[board].hardware then w
      else w.(boards := w.boards[board := found])
  }

  /** An operation whose directory is this profile's own, for the generation it renders and
      the Host it was delivered to. */
  predicate Deliverable(owner: string, signer: string, hostId: string, op: Operation) {
    && op.lineage.Lineage? && op.directory.Current?
    && op.directory.doc.owner == owner && op.directory.doc.signer == signer
    && op.directory.doc.generation == op.lineage.generation
    && DirectoryNamesHost(Some(op.directory), hostId)
  }

  /** What stays true of every reachable world. */
  ghost predicate Sound(w: World) {
    && w.Valid()
    && (forall l :: l in w.minted ==> l.Lineage? && l.generation == 1)
    && forall id :: id in w.inFlight ==>
         var op := w.inFlight[id].op;
         && op.lineage.Owner() == Some(w.profile.owner)
         && op.decision.Proceeds()
         && (op.authority.established <==> !op.decision.FirstInstall?)
         && (op.decision.FirstInstall? ==> op.lineage in w.minted)
         && Deliverable(w.profile.owner, w.profile.signer, w.profile.hostId, op)
  }

  lemma OperationIsDeliverable(w: World, board: BoardId, token: string, now: int, driver: Driver)
    requires w.Valid() && board in w.boards
    ensures var reported := Report(w.boards[board]);
            var begun := Begin(driver.Acts(w.profile, reported), driver.Observes(w.profile, reported), token, now);
            begun.outcome.Ok? ==>
              Deliverable(w.profile.owner, w.profile.signer, w.profile.hostId, begun.outcome.value)
  {
    hide Rendered, UpToDate, DirectoryNamesHost, Report;
    var reported := Report(w.boards[board]);
    var p, context := driver.Acts(w.profile, reported), driver.Observes(w.profile, reported);
    var begun := Begin(p, context, token, now);
    if begun.outcome.Ok? {
      var op := begun.outcome.value;
      RenderedNamesHost(p, ServedWith(op.decision, context), op.authority.generation, now);
    }
  }

  lemma RenderedNamesHost(p: Profile, served: Option<File>, generation: int, now: int)
    requires p.Valid()
    ensures var r := Rendered(p.held, served, p.Issuer(), generation, now);
            r.Ok? ==>
              && r.value.Current? && r.value.doc.owner == p.owner && r.value.doc.signer == p.signer
              && r.value.doc.generation == generation && DirectoryNamesHost(Some(r.value), p.hostId)
  {
    RenderedIsOurs(p.held, served, p.Issuer(), generation, now);
    hide Rendered;
    var r := Rendered(p.held, served, p.Issuer(), generation, now);
    if r.Ok? {
      DirectoryNamesItsHost(r.value, p.hostId, p.hostId);
    }
  }

  /** What an install of any driver may render. */
  lemma DriverRendersWhatTheHostHolds(w: World, board: BoardId, token: string, now: int, driver: Driver)
    requires w.Valid() && board in w.boards
    ensures var reported := Report(w.boards[board]);
            var begun := Begin(driver.Acts(w.profile, reported), driver.Observes(w.profile, reported), token, now);
            begun.outcome.Ok? ==>
              var op := begun.outcome.value;
              && op.lineage.Lineage? && op.lineage.Owner() == Some(w.profile.owner)
              && (op.decision.FirstInstall? <==> reported.marker.None?)
              && (reported.marker.Some? ==> Some(op.lineage) == reported.marker == reported.anchor)
              && (reported.marker.None? ==> op.lineage.generation == 1 && !op.authority.established
                                            && op.lineage.stateId == STATE_PREFIX + token && w.profile.binding == None)
              && (op.authority.established <==> reported.marker.Some?)
              && Deliverable(w.profile.owner, w.profile.signer, w.profile.hostId, op)
  {
    OperationIsDeliverable(w, board, token, now, driver);
    hide Begin, Report, Deliverable;
    var reported := Report(w.boards[board]);
    RendersWhatTheHostHolds(driver.Acts(w.profile, reported), driver.Observes(w.profile, reported), token, now);
  }

  /** Staging renders once more, for the same served directory: in date, what it places is
      what was rendered first, and the material holds no other. */
  lemma StagingRendersTheSame(
      w: World, id: OperationId, board: BoardId, token: string, now: int, driver: Driver, later: int)
    requires w.Valid() && id !in w.inFlight && id in Apply(w, Install(id, board, token, now, driver)).inFlight
    requires var d := Apply(w, Install(id, board, token, now, driver)).inFlight[id].op.directory;
             d.Current? && now <= later < d.doc.expiresAt
    ensures var after := Apply(w, Install(id, board, token, now, driver));
            var p, op := after.profile, after.inFlight[id].op;
            var served, g := ServedWith(op.decision, op.context), op.authority.generation;
            && Rendered(p.held, served, p.Issuer(), g, later) == Ok(op.directory)
            && HeldAfter(p.held, served, p.Issuer(), g, later) == Some(op.directory)
  {
    hide Rendered, HeldAfter, Report, ValidHostId;
    var op := Apply(w, Install(id, board, token, now, driver)).inFlight[id].op;
    RenderIsStable(w.profile.held, ServedWith(op.decision, op.context), w.profile.Issuer(), op.authority.generation,
                   now, later);
  }

  lemma InstallKeepsSound(w: World, id: OperationId, board: BoardId, token: string, now: int, driver: Driver)
    requires Sound(w) && id !in w.inFlight && board in w.boards
    ensures Sound(AfterInstall(w, id, board, token, now, driver))
    ensures w.minted <= AfterInstall(w, id, board, token, now, driver).minted
  {
    hide Begin, Deliverable;
    DriverRendersWhatTheHostHolds(w, board, token, now, driver);
  }

  lemma StepKeepsSound(w: World, s: Step)
    requires Sound(w)
    ensures Sound(Apply(w, s))
    ensures w.minted <= Apply(w, s).minted
    ensures forall b :: b in w.boards ==>
              b in Apply(w, s).boards && Apply(w, s).boards[b].hardware == w.boards[b].hardware
  {
    hide AfterInstall, Confirm, RequireEstablished, TrustDelivery, CommitHere, Deliverable;
    if s.Install? && s.id !in w.inFlight && s.board in w.boards {
      InstallKeepsSound(w, s.id, s.board, s.token, s.now, s.driver);
    }
  }

  ghost function Run(w: World, steps: seq<Step>): (end: World)
    requires Sound(w)
    ensures Sound(end) && w.minted <= end.minted
    ensures forall b :: b in w.boards ==> b in end.boards && end.boards[b].hardware == w.boards[b].hardware
    decreases |steps|
  {
    if steps == [] then w
    else
      var before := Run(w, steps[..|steps| - 1]);
      StepKeepsSound(before, steps[|steps| - 1]);
      Apply(before, steps[|steps| - 1])
  }

  // ---------------------------------------------------------------- the binding

  /** A board that shows an Authority of this Owner: both its copies say so. */
  ghost predicate ReportsOur(w: World, board: BoardId) {
    && board in w.boards
    && w.boards[board].marker.Some? && w.boards[board].marker == w.boards[board].anchor
    && w.boards[board].marker.value.Owner() == Some(w.profile.owner)
  }

  predicate KeepsIdentity(steps: seq<Step>) {
    forall k :: 0 <= k < |steps| ==> !steps[k].Replace?
  }

  lemma BindingStandsOneStep(w: World, s: Step)
    requires Sound(w) && !s.Replace? && w.profile.binding.Some?
    ensures Apply(w, s).profile == w.profile.(held := Apply(w, s).profile.held)
  {
    hide AfterInstall, Report, ValidHostId, ValidHardware, EstablishedFrom, Deliverable;
  }

  /** Over any run, a recorded binding is never rewritten: only a new identity retires it. */
  lemma {:induction false} BindingStands(w: World, steps: seq<Step>)
    requires Sound(w) && KeepsIdentity(steps) && w.profile.binding.Some?
    ensures Run(w, steps).profile == w.profile.(held := Run(w, steps).profile.held)
    decreases |steps|
  {
    if steps != [] {
      var front := steps[..|steps| - 1];
      assert KeepsIdentity(front);
      BindingStands(w, front);
      BindingStandsOneStep(Run(w, front), steps[|steps| - 1]);
    }
  }

  lemma ReplacementRetires(w: World, s: Step)
    requires Sound(w) && s.Replace?
    ensures Apply(w, s) == w || Apply(w, s).profile.binding == None
  {
  }

  /** A binding that is no longer there at the end of a run was still there at some step of
      it, and that step replaced the identity and left none. */
  lemma {:induction false} BindingEndsByReplacement(w: World, steps: seq<Step>) returns (k: nat)
    requires Sound(w) && w.profile.binding.Some? && Run(w, steps).profile.binding != w.profile.binding
    ensures k < |steps| && steps[k].Replace?
    ensures Run(w, steps[..k]).profile.binding == w.profile.binding && Run(w, steps[..k + 1]).profile.binding.None?
    decreases |steps|
  {
    hide Apply, Sound;
    var n := |steps| - 1;
    var front, before := steps[..n], Run(w, steps[..n]);
    if before.profile.binding != w.profile.binding {
      k := BindingEndsByReplacement(w, front);
      assert front[..k] == steps[..k] && front[..k + 1] == steps[..k + 1];
    } else {
      k := n;
      assert steps[..n + 1] == steps;
      if steps[n].Replace? {
        ReplacementRetires(before, steps[n]);
      } else {
        BindingStandsOneStep(before, steps[n]);
      }
    }
  }

  /** An operation that outlives a replacement of the identity still records the new one when
      its board reports what it shipped; the board then shows an Authority of the new Owner
      exactly when the two identities have one Owner. */
  lemma LateConfirmation(w: World, id: OperationId, next: Profile)
    requires Sound(w) && id in w.inFlight && next.Valid()
    ensures var f := w.inFlight[id];
            var b := w.boards[f.board];
            var replaced := w.(profile := next.(binding := None));
            var bound := Apply(replaced, ConfirmInstall(id)).profile.binding;
            && (bound.Some? <==>
                  && b.marker == b.anchor == Some(f.op.lineage)
                  && f.op.decision.RecordsDelivery() && ValidHardware(b.hardware))
            && (bound.Some? ==>
                  && bound == Some(Recorded(1, next.hostId, b.hardware))
                  && (ReportsOur(replaced, f.board) <==> next.owner == w.profile.owner))
  {
    hide ValidHostId, ValidHardware, Deliverable;
  }

  /** What a step has to see on a board to record it: the lineage it shipped, for a confirmation;
      otherwise this Owner's Authority and evidence that this profile's identity is there. */
  ghost predicate Seen(w: World, s: Step, board: BoardId)
    requires Sound(w) && board in w.boards
  {
    var p, b := w.profile, w.boards[board];
    var here := b.identity == Some(p.identity) && RoutesTo(b.directory, p.hostId);
    && ValidHardware(b.hardware)
    && match s
       case ConfirmInstall(id) =>
         && id in w.inFlight && w.inFlight[id].board == board
         && b.marker == b.anchor == Some(w.inFlight[id].op.lineage)
         && w.inFlight[id].op.decision != Continue
       case Converge(asked) => asked == board && ReportsOur(w, board) && here && Renderable(b.marker.value)
       case Trust(asked) =>
         && asked == board && ReportsOur(w, board) && here
         && b.directory.value.Current? && b.directory.value.doc.owner == p.owner
         && b.directory.value.doc.signer == p.signer
       case Commit(asked) =>
         && asked == board && ReportsOur(w, board) && b.identity.Some?
         && RoutesTo(if b.directory.Some? then b.directory else p.held, p.hostId)
       case _ => false
  }

  /** An install gets in flight exactly where the board and the profile are both empty, or the
      board holds this Owner's Authority and is the recorded one or, without a record, proves
      itself; and the render goes through. A workstation asks for its own identity on the board
      and for the directory the board serves; a machine that is its own Host for any identity,
      and for the directory its material holds where none is placed. */
  lemma InstallGoesThroughIff(w: World, id: OperationId, board: BoardId, token: string, now: int, driver: Driver)
    requires Sound(w) && id !in w.inFlight && board in w.boards
    ensures var p, b := w.profile, w.boards[board];
            var served := if driver.Local? && b.directory.None? then p.held else b.directory;
            var known := if driver.Local? then b.identity.Some? else b.identity == Some(p.identity);
            var empty := b.marker.None? && b.anchor.None? && p.binding.None?;
            var ours := ReportsOur(w, board) && Renderable(b.marker.value);
            var recorded := p.binding == Some(Recorded(1, p.hostId, b.hardware)) && ValidHardware(b.hardware);
            var proven := p.binding.None? && known && RoutesTo(served, p.hostId);
            var rendered := if empty then Rendered(p.held, None, p.Issuer(), 1, now)
                            else if ours then Rendered(p.held, served, p.Issuer(), b.marker.value.generation, now)
                            else Err(ServedUnreadable);
            var after := Apply(w, Install(id, board, token, now, driver));
            && (id in after.inFlight <==> (empty || (ours && (recorded || proven))) && rendered.Ok?)
            && (id in after.inFlight ==> after.inFlight[id].op.directory == rendered.value)
  {
    var reported := Report(w.boards[board]);
    BeginGoesThroughIff(driver.Acts(w.profile, reported), driver.Observes(w.profile, reported), token, now);
    hide Begin, Rendered, RoutesTo, Renderable, ValidHardware, ValidHostId;
  }

  /** A profile without a binding gets one from a step exactly where the step sees that. */
  lemma BindingIsRecordedIff(w: World, s: Step)
    requires Sound(w) && w.profile.binding.None?
    ensures Apply(w, s).profile.binding.Some? <==> exists board :: board in w.boards && Seen(w, s, board)
  {
    hide Seen, ValidHardware, RoutesTo;
    if board :| board in w.boards && Seen(w, s, board) {
      SeenIsRecorded(w, s, board);
    }
    if Apply(w, s).profile.binding.Some? {
      var board := BindingIsProved(w, s);
    }
  }

  lemma SeenIsRecorded(w: World, s: Step, board: BoardId)
    requires Sound(w) && w.profile.binding.None? && board in w.boards && Seen(w, s, board)
    ensures Apply(w, s).profile.binding == Some(Recorded(1, w.profile.hostId, w.boards[board].hardware))
  {
    StepOnBoard(w, s, board);
    hide Apply, RoutesTo, Renderable, ValidHardware, TrustDelivery, RequireEstablished, CommitHere, Confirm;
  }

  /** The step that records a binding saw a board of that very hardware report an Authority
      of this Owner. */
  lemma BindingIsProved(w: World, s: Step) returns (board: BoardId)
    requires Sound(w) && w.profile.binding.None? && Apply(w, s).profile.binding.Some?
    ensures ReportsOur(w, board) && Seen(w, s, board) && !s.Replace?
    ensures Apply(w, s).profile
         == w.profile.(binding := Some(Recorded(1, w.profile.hostId, w.boards[board].hardware)))
  {
    board := if s.ConfirmInstall? then w.inFlight[s.id].board else s.board;
    StepOnBoard(w, s, board);
    hide Deliverable, RoutesTo, Renderable, ValidHostId, ValidHardware, TrustDelivery, RequireEstablished, CommitHere,
      Confirm, EstablishedFrom, AfterInstall;
  }

  /** When each recording verb goes through for one board. */
  lemma StepOnBoard(w: World, s: Step, board: BoardId)
    requires Sound(w) && w.profile.binding.None? && board in w.boards
    requires s.ConfirmInstall? ==> s.id in w.inFlight && w.inFlight[s.id].board == board
    requires s.Converge? || s.Trust? || s.Commit? ==> s.board == board
    ensures s.ConfirmInstall? || s.Converge? || s.Trust? || s.Commit? ==>
              var after := Apply(w, s).profile;
              && (after.binding.Some? <==> Seen(w, s, board))
              && (after.binding.Some? ==>
                    after.binding == Some(Recorded(1, w.profile.hostId, w.boards[board].hardware)))
  {
    var p, c := w.profile, Report(w.boards[board]);
    if s.ConfirmInstall? {
      ConfirmGoesThroughIff(p, w.inFlight[s.id].op, c.established);
    }
    RequireGoesThroughIff(p, c);
    TrustGoesThroughIff(p, c);
    CommitGoesThroughIff(p, c);
    hide Deliverable, RoutesTo, Renderable, ValidHostId, ValidHardware, TrustDelivery, RequireEstablished, CommitHere,
      Confirm, EstablishedFrom, AfterInstall;
  }

  /** Over any run, identity replacements included, every binding that stands at the end was
      recorded for a board that showed this Owner's Authority at that moment. */
  lemma {:induction false} EveryBindingWasProved(w: World, steps: seq<Step>) returns (k: nat, board: BoardId)
    requires Sound(w) && w.profile.binding.None? && Run(w, steps).profile.binding.Some?
    ensures k < |steps|
    ensures var seen := Run(w, steps[..k]);
            && ReportsOur(seen, board) && Seen(seen, steps[k], board)
            && Run(w, steps).profile.binding == Some(Recorded(1, seen.profile.hostId, seen.boards[board].hardware))
            && Run(w, steps).profile.owner == seen.profile.owner
            && Run(w, steps).profile.hostId == seen.profile.hostId
    decreases |steps|
  {
    hide Apply, ReportsOur, Seen;
    var n := |steps| - 1;
    var front, before := steps[..n], Run(w, steps[..n]);
    if before.profile.binding.None? {
      k := n;
      board := BindingIsProved(before, steps[n]);
    } else {
      k, board := EveryBindingWasProved(w, front);
      assert front[..k] == steps[..k];
      if steps[n].Replace? {
        ReplacementRetires(before, steps[n]);
      } else {
        BindingStandsOneStep(before, steps[n]);
      }
    }
  }

  /** While a binding stands, an operation that proceeds is on the recorded board, and it is
      never an install that would name or record anything new. */
  lemma OnlyTheBoundBoardProceeds(
      w: World, id: OperationId, board: BoardId, token: string, now: int, driver: Driver)
    requires Sound(w) && w.profile.binding.Some? && id !in w.inFlight
    requires id in Apply(w, Install(id, board, token, now, driver)).inFlight
    ensures var op := Apply(w, Install(id, board, token, now, driver)).inFlight[id].op;
            && op.decision.Continue?
            && w.profile.binding == Some(Recorded(1, w.profile.hostId, w.boards[board].hardware))
  {
    var reported := Report(w.boards[board]);
    BoundProfileProceedsOnItsBoardOnly(
      driver.Observes(w.profile, reported), w.profile.owner, w.profile.hostId,
      driver.Acts(w.profile, reported).identity, w.profile.binding.value);
  }

  // ---------------------------------------------------------------- the lineage

  predicate LeftAlone(steps: seq<Step>, board: BoardId) {
    forall k :: 0 <= k < |steps| ==> !(steps[k].Outside? && steps[k].board == board)
  }

  /** A capability waiting on this board, if any, was minted by a first install. */
  ghost predicate WaitingIsMinted(w: World, board: BoardId) {
    && board in w.boards
    && var c := w.boards[board].capability;
       c.Some? && c.value.Pending? ==> c.value.lineage in w.minted
  }

  lemma LineageOneStep(w: World, s: Step, board: BoardId)
    requires Sound(w) && WaitingIsMinted(w, board) && !(s.Outside? && s.board == board)
    ensures WaitingIsMinted(Apply(w, s), board) && w.minted <= Apply(w, s).minted
    ensures w.boards[board].marker.Some? ==> Apply(w, s).boards[board].marker == w.boards[board].marker
    ensures w.boards[board].anchor.Some? ==> Apply(w, s).boards[board].anchor == w.boards[board].anchor
    ensures var now := Apply(w, s).boards[board].marker;
            now != w.boards[board].marker ==> now.Some? && now.value in w.minted
  {
    hide AfterInstall, Confirm, RequireEstablished, TrustDelivery, CommitHere, Report, Sound;
    StepKeepsSound(w, s);
    if s.Ship? && s.id in w.inFlight {
      PendingIsMinted(w, s.id);
    }
  }

  lemma PendingIsMinted(w: World, id: OperationId)
    requires Sound(w) && id in w.inFlight
    ensures var op := w.inFlight[id].op;
            BootstrapDocument(op.lineage, op.authority.established).Pending? ==> op.lineage in w.minted
  {
  }

  /** Over any run of this protocol, what a board has established never changes; what a board
      establishes during it is a lineage some first install minted, at generation 1. */
  lemma {:induction false} LineageNeverChanges(w: World, steps: seq<Step>, board: BoardId)
    requires Sound(w) && WaitingIsMinted(w, board) && LeftAlone(steps, board)
    ensures WaitingIsMinted(Run(w, steps), board)
    ensures w.boards[board].marker.Some? ==> Run(w, steps).boards[board].marker == w.boards[board].marker
    ensures w.boards[board].anchor.Some? ==> Run(w, steps).boards[board].anchor == w.boards[board].anchor
    ensures var now := Run(w, steps).boards[board].marker;
            now != w.boards[board].marker ==>
              now.Some? && now.value in Run(w, steps).minted && now.value.Lineage? && now.value.generation == 1
    decreases |steps|
  {
    hide Apply;
    if steps != [] {
      var front := steps[..|steps| - 1];
      assert LeftAlone(front, board);
      LineageNeverChanges(w, front, board);
      LineageOneStep(Run(w, front), steps[|steps| - 1], board);
    }
  }

  /** Only a first install mints, and what it mints is new to a board that reports nothing. */
  lemma OnlyFirstInstallMints(w: World, s: Step)
    requires Sound(w) && Apply(w, s).minted != w.minted
    ensures s.Install? && s.board in w.boards && w.boards[s.board].marker == w.boards[s.board].anchor == None
    ensures w.profile.binding.None?
    ensures exists l ::
              Apply(w, s).minted == w.minted + {l} && l == Lineage(1, w.profile.owner, 1, STATE_PREFIX + s.token)
  {
    DriverRendersWhatTheHostHolds(w, s.board, s.token, s.now, s.driver);
    var l := Apply(w, s).inFlight[s.id].op.lineage;
    assert Apply(w, s).minted == w.minted + {l};
  }

  /** A Hub that consumed a capability left by an earlier, crashed attempt: the install that
      comes after it is refused at confirmation and writes nothing, and whatever proceeds on
      that board next renders the lineage the board holds, as already consumed. */
  lemma StaleCapabilityIsCaught(
      w: World, id: OperationId, next: OperationId, token: string, now: int, driver: Driver)
    requires Sound(w) && id in w.inFlight && next !in w.inFlight
    requires var f := w.inFlight[id];
             && Report(w.boards[f.board]).established.Some?
             && Report(w.boards[f.board]).established != Some(f.op.lineage)
    ensures var board := w.inFlight[id].board;
            var refused := Apply(w, ConfirmInstall(id));
            && refused.profile == w.profile && refused.boards == w.boards
            && var retried := Apply(refused, Install(next, board, token, now, driver));
               next in retried.inFlight ==>
                 var op := retried.inFlight[next].op;
                 && Some(op.lineage) == w.boards[board].marker
                 && !op.decision.FirstInstall?
                 && BootstrapDocument(op.lineage, op.authority.established) == Consumed(op.lineage)
                 && retried.minted == w.minted
  {
    var board := w.inFlight[id].board;
    DriverRendersWhatTheHostHolds(w, board, token, now, driver);
  }

  // ---------------------------------------------------------------- a delivered board

  ghost predicate DistinctHardware(w: World) {
    forall a, b :: a in w.boards && b in w.boards && w.boards[a].hardware == w.boards[b].hardware ==> a == b
  }

  /** The profile records this board, both of whose lineage copies are `lineage`. */
  ghost predicate Delivered(w: World, board: BoardId, lineage: Document) {
    && board in w.boards
    && w.boards[board].marker == w.boards[board].anchor == Some(lineage)
    && lineage.Owner() == Some(w.profile.owner)
    && w.profile.binding == Some(Recorded(1, w.profile.hostId, w.boards[board].hardware))
  }

  /** A first install that is confirmed leaves its board delivered. */
  lemma ConfirmDelivers(w: World, id: OperationId)
    requires Sound(w) && id in w.inFlight && w.profile.binding.None?
    requires Apply(w, ConfirmInstall(id)).profile.binding.Some?
    ensures Delivered(Apply(w, ConfirmInstall(id)), w.inFlight[id].board, w.inFlight[id].op.lineage)
  {
  }

  /** Once delivered, a board stays delivered over every run that neither replaces the
      identity nor is tampered with from outside, and from then on an operation proceeds on
      no other board and names no other lineage. */
  lemma DeliveredForGood(
      w: World, steps: seq<Step>, board: BoardId, lineage: Document,
      id: OperationId, asked: BoardId, token: string, now: int, driver: Driver)
    requires Sound(w) && WaitingIsMinted(w, board) && DistinctHardware(w) && Delivered(w, board, lineage)
    requires KeepsIdentity(steps) && LeftAlone(steps, board)
    ensures Delivered(Run(w, steps), board, lineage)
    ensures var end := Run(w, steps);
            var after := Apply(end, Install(id, asked, token, now, driver));
            asked in w.boards && id !in end.inFlight && id in after.inFlight ==>
              asked == board && after.inFlight[id].op.lineage == lineage && after.inFlight[id].op.decision.Continue?
  {
    BindingStands(w, steps);
    LineageNeverChanges(w, steps, board);
    var end := Run(w, steps);
    if asked in w.boards && id !in end.inFlight && id in Apply(end, Install(id, asked, token, now, driver)).inFlight {
      OnlyTheBoundBoardProceeds(end, id, asked, token, now, driver);
      DriverRendersWhatTheHostHolds(end, asked, token, now, driver);
    }
  }
}
