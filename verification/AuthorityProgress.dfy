/** What the Owner Authority protocol achieves, and not only what it avoids: an install left
    to finish delivers its board, and one spoiled by a stale capability delivers on its retry. */
module AuthorityProgress {
  import opened Common
  import opened OwnerDirectory
  import opened InstallDecision
  import opened AuthorityProtocol
  import opened AuthorityRuns

  /** The rest of an install, with Hub's two steps in between. */
  function Finish(id: OperationId, board: BoardId): seq<Step> {
    [Ship(id, ShipIdentity), Ship(id, ShipDirectory), Ship(id, ShipCapability),
     HubConsumes(board), HubAnchors(board), ConfirmInstall(id)]
  }

  /** A step that touches neither the board, nor the operation, nor the identity; what the
      material holds may change. */
  predicate LeavesAlone(w: World, s: Step, id: OperationId, board: BoardId)
    requires w.Valid() && board in w.boards
  {
    var after := Apply(w, s);
    && board in after.boards && after.boards[board] == w.boards[board]
    && after.profile == w.profile.(held := after.profile.held)
    && (id in w.inFlight ==> id in after.inFlight && after.inFlight[id] == w.inFlight[id])
  }

  /** A run in which the first `done` of those steps occur in order, and every other step
      leaves the install alone. */
  ghost predicate Carries(w: World, steps: seq<Step>, id: OperationId, board: BoardId, done: nat)
    requires Sound(w) && board in w.boards
    decreases |steps|
  {
    if steps == [] then done == 0
    else
      var front, s := steps[..|steps| - 1], steps[|steps| - 1];
      || (1 <= done <= 6 && s == Finish(id, board)[done - 1] && Carries(w, front, id, board, done - 1))
      || (LeavesAlone(Run(w, front), s, id, board) && Carries(w, front, id, board, done))
  }

  /** The board after so many of them. */
  function Stage(b: Board, p: Profile, op: Operation, done: nat): Board {
    var named := if done >= 1 then b.(identity := Some(p.identity)) else b;
    var served := if done >= 2 then named.(directory := Some(op.directory)) else named;
    if done < 3 then served
    else if done == 3 then served.(capability := Some(Pending(op.lineage)))
    else served.(capability := None, marker := Some(op.lineage), anchor := if done == 4 then None else Some(op.lineage))
  }

  ghost predicate AtStage(start: World, w: World, id: OperationId, board: BoardId, done: nat)
    requires id in start.inFlight && board in start.boards && start.inFlight[id].board == board
  {
    var f, b := start.inFlight[id], start.boards[board];
    && board in w.boards && w.boards[board] == Stage(b, start.profile, f.op, done)
    && w.profile == start.profile.(
         held := w.profile.held,
         binding := if done == 6 then Some(Recorded(1, start.profile.hostId, b.hardware)) else start.profile.binding)
    && (done < 6 ==> id in w.inFlight && w.inFlight[id] == f)
  }

  /** A first install in flight for a board that is still empty, of hardware one can record. */
  ghost predicate OnEmptyBoard(w: World, id: OperationId) {
    && id in w.inFlight && w.inFlight[id].op.decision.FirstInstall? && w.profile.binding.None?
    && w.inFlight[id].board in w.boards
    && var b := w.boards[w.inFlight[id].board];
       b.marker == b.anchor == None && ValidHardware(b.hardware)
  }

  lemma StageNext(start: World, w: World, id: OperationId, board: BoardId, done: nat)
    requires Sound(start) && OnEmptyBoard(start, id) && start.inFlight[id].board == board
    requires Sound(w) && done < 6 && AtStage(start, w, id, board, done)
    ensures AtStage(start, Apply(w, Finish(id, board)[done]), id, board, done + 1)
  {
    hide Deliverable, ValidHardware, ValidHostId;
  }

  lemma {:induction false} StageReached(w: World, steps: seq<Step>, id: OperationId, board: BoardId, done: nat)
    requires Sound(w) && OnEmptyBoard(w, id) && w.inFlight[id].board == board && Carries(w, steps, id, board, done)
    ensures done <= 6 && AtStage(w, Run(w, steps), id, board, done)
    decreases |steps|
  {
    hide Apply, Sound;
    if steps != [] {
      var front, s := steps[..|steps| - 1], steps[|steps| - 1];
      if 1 <= done <= 6 && s == Finish(id, board)[done - 1] && Carries(w, front, id, board, done - 1) {
        StageReached(w, front, id, board, done - 1);
        StageNext(w, Run(w, front), id, board, done - 1);
      } else {
        StageReached(w, front, id, board, done);
      }
    }
  }

  /** The steps alone are such a run. */
  lemma FinishCarries(w: World, id: OperationId, board: BoardId, done: nat)
    requires Sound(w) && board in w.boards && done <= 6
    ensures Carries(w, Finish(id, board)[..done], id, board, done)
  {
    hide Apply, Sound, LeavesAlone;
    if done > 0 {
      FinishCarries(w, id, board, done - 1);
      assert Finish(id, board)[..done][..done - 1] == Finish(id, board)[..done - 1];
    }
  }

  /** A board this identity can be traced to without any record of the delivery. */
  predicate ProvesIdentity(w: World, board: BoardId)
    requires board in w.boards
  {
    && w.profile.(binding := None).Decide(Report(w.boards[board])).AdoptDelivery?
    && w.profile.Decide(Report(w.boards[board])).Continue?
  }

  lemma DeliveredProvesIdentity(w: World, board: BoardId, lineage: Document)
    requires Sound(w) && Delivered(w, board, lineage) && ValidHardware(w.boards[board].hardware)
    requires w.boards[board].identity == Some(w.profile.identity)
    requires DirectoryNamesHost(w.boards[board].directory, w.profile.hostId)
    ensures ProvesIdentity(w, board)
  {
    hide ValidHardware, ValidHostId, DirectoryNamesHost, IsHex;
  }

  /** Any run that carries a first install through, whatever else happens on other boards
      and in other operations, leaves its board delivered: the board holds the lineage it
      minted and the profile's identity and directory, the profile records the board, and
      without that record the board could still prove itself. */
  lemma FinishedInstallDelivers(w: World, steps: seq<Step>, id: OperationId)
    requires Sound(w) && OnEmptyBoard(w, id) && Carries(w, steps, id, w.inFlight[id].board, 6)
    ensures var f := w.inFlight[id];
            var end := Run(w, steps);
            && Delivered(end, f.board, f.op.lineage)
            && end.boards[f.board].directory == Some(f.op.directory)
            && ProvesIdentity(end, f.board)
  {
    hide Apply, Run, Carries, ValidHardware, DirectoryNamesHost, ProvesIdentity;
    var f := w.inFlight[id];
    StageReached(w, steps, id, f.board, 6);
    DeliveredProvesIdentity(Run(w, steps), f.board, f.op.lineage);
  }

  /** Confirming records the board once it reports the lineage the operation carries. */
  lemma ConfirmRecords(w: World, id: OperationId)
    requires Sound(w) && id in w.inFlight && w.inFlight[id].op.decision.RecordsDelivery()
    requires w.profile.binding.None?
    requires var f := w.inFlight[id];
             var b := w.boards[f.board];
             b.marker == b.anchor == Some(f.op.lineage) && ValidHardware(b.hardware)
    ensures var f := w.inFlight[id];
            var end := Apply(w, ConfirmInstall(id));
            && Sound(end) && Delivered(end, f.board, f.op.lineage)
            && end.boards == w.boards
            && end.profile == w.profile.(binding := end.profile.binding)
  {
    StepKeepsSound(w, ConfirmInstall(id));
  }

  /** An install whose board meanwhile established the capability of an earlier, crashed
      attempt is refused; asked again, the same board is proceeded on and delivered, with the
      lineage it established. */
  lemma StaleCapabilityRecovers(w: World, id: OperationId, next: OperationId, token: string, now: int, stale: Document)
    requires Sound(w) && id in w.inFlight && next !in w.inFlight && w.profile.binding.None?
    requires w.inFlight[id].op.decision.FirstInstall?
    requires var f := w.inFlight[id];
             var b := w.boards[f.board];
             && b.marker == b.anchor == Some(stale) && stale != f.op.lineage && stale in w.minted
             && stale.Owner() == Some(w.profile.owner) && EstablishedFrom(stale).Some?
             && b.identity == Some(w.profile.identity) && b.directory == Some(f.op.directory)
             && ValidHardware(b.hardware)
    requires w.profile.held.Some? && w.profile.held.value.Current? ==>
               w.profile.held.value.doc.signer == w.profile.signer
    ensures var board := w.inFlight[id].board;
            var refused := Apply(w, ConfirmInstall(id));
            && refused.profile == w.profile && Sound(refused)
            && var retried := Apply(refused, Install(next, board, token, now, Remote));
            && Sound(retried)
            && Delivered(Apply(retried, ConfirmInstall(next)), board, stale)
  {
    var f := w.inFlight[id];
    var board := f.board;
    StepKeepsSound(w, ConfirmInstall(id));
    var refused := Apply(w, ConfirmInstall(id));
    assert refused.boards == w.boards && refused.profile == w.profile;
    StepKeepsSound(refused, Install(next, board, token, now, Remote));
    RetryProceeds(refused, next, board, token, now, stale, f.op.directory);
    var retried := Apply(refused, Install(next, board, token, now, Remote));
    ConfirmRecords(retried, next);
  }

  lemma RetryProceeds(
      w: World, next: OperationId, board: BoardId, token: string, now: int, stale: Document, directory: File)
    requires Sound(w) && next !in w.inFlight && board in w.boards && w.profile.binding.None?
    requires var b := w.boards[board];
             && b.marker == b.anchor == Some(stale) && EstablishedFrom(stale).Some?
             && stale.Owner() == Some(w.profile.owner)
             && b.identity == Some(w.profile.identity) && b.directory == Some(directory)
    requires directory.Current? && directory.doc.owner == w.profile.owner && directory.doc.signer == w.profile.signer
    requires directory.doc.generation == stale.generation && DirectoryNamesHost(Some(directory), w.profile.hostId)
    requires w.profile.held.Some? && w.profile.held.value.Current? ==>
               w.profile.held.value.doc.signer == w.profile.signer
    ensures var after := Apply(w, Install(next, board, token, now, Remote));
            && next in after.inFlight && after.boards == w.boards
            && after.profile == w.profile.(held := after.profile.held)
            && after.inFlight[next].board == board
            && after.inFlight[next].op.decision.AdoptDelivery? && after.inFlight[next].op.lineage == stale
  {
    hide Deliverable, DirectoryNamesHost, ValidHardware, ValidHostId, IsHex;
    EstablishedIsRenderedExactly(stale, w.profile.owner);
    AdoptingRenders(w.profile, directory, stale.generation, now);
  }

  /** Adopting this profile's own directory never stops a render. */
  lemma AdoptingRenders(p: Profile, directory: File, generation: int, now: int)
    requires p.Valid() && directory.Current?
    requires directory.doc.owner == p.owner && directory.doc.signer == p.signer
    requires directory.doc.generation == generation
    requires p.held.Some? && p.held.value.Current? ==> p.held.value.doc.signer == p.signer
    ensures Rendered(p.held, Some(directory), p.Issuer(), generation, now).Ok?
  {
  }
}
