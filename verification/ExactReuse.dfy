/**
 The exact-reuse chain: a read-only inspection that found nothing to change, the receipt
 built from it, the operator-side validator and the bounded reuse gate. The last two judge
 the receipt on their own terms, so agreement along the chain is a theorem.
 */
module ExactReuse {
  import opened Objects
  import opened Identifiers
  import Planning

  datatype Desired = Desired(
    fingerprint: string, profile: string, installSpec: string, workerService: Option<string>,
    graphProfile: Option<string>, allowGraphBuild: bool)

  datatype JarvisState = JarvisState(
    initialized: bool, config: Option<string>, repos: Option<string>, graph: Option<string>,
    managedRegistered: bool, builtinRegistered: bool)

  /** What the inspection reads; optional strings are the failures of its helpers. */
  datatype Observation = Observation(
    receiptDigest: Option<string>,       // digest of the install receipt file
    installation: Option<seq<string>>,   // identity problems, or no installation info at all
    generation: Option<string>,          // the generation the install receipt names
    currentTarget: Option<string>,       // where the verified stable links lead
    frpc: Option<string>, frps: Option<string>, uv: seq<string>,
    jarvis: JarvisState,
    queueReady: bool,
    serviceActive: Option<bool>, serviceEnabled: Option<bool>, workerReady: bool)

  datatype Readiness = Readiness(
    service: Option<string>, active: Option<bool>, enabled: Option<bool>, queueReady: bool, workerReady: Option<bool>)

  datatype Inspection = Inspection(
    reasons: seq<string>, receiptDigest: Option<string>, generation: Option<string>, currentTarget: Option<string>,
    jarvis: JarvisState, readiness: Readiness)

  /** The desired deployment is live, exactly. */
  predicate Live(desired: Desired, o: Observation) {
    && o.receiptDigest.Some? && o.installation == Some([])
    && o.generation == Some(desired.fingerprint) && o.currentTarget.Some?
    && o.frpc.None? && o.frps.None? && o.uv == []
    && o.jarvis.initialized && o.jarvis.managedRegistered && o.jarvis.builtinRegistered
    && o.queueReady
    && (desired.workerService.Some? ==>
          o.serviceActive == Some(true) && o.workerReady && o.serviceEnabled == Some(true))
  }

  function Noted(reasons: seq<string>, problem: bool, text: string): seq<string> {
    if problem then reasons + [text] else reasons
  }

  /** The inspection appends a reason for everything that is off, so it is exact precisely when
      the deployment is live. */
  method InspectExactNoop(desired: Desired, o: Observation) returns (inspection: Inspection)
    ensures inspection.reasons == [] <==>
              && o.receiptDigest != None && o.installation == Some([])
              && o.generation == Some(desired.fingerprint) && o.currentTarget != None
              && o.frpc == None && o.frps == None && o.uv == []
              && o.jarvis.initialized && o.jarvis.managedRegistered && o.jarvis.builtinRegistered
              && o.queueReady
              && (desired.workerService == None
                  || (o.serviceActive == Some(true) && o.serviceEnabled == Some(true) && o.workerReady))
    ensures inspection.receiptDigest == o.receiptDigest && inspection.generation == o.generation
    ensures inspection.currentTarget == o.currentTarget && inspection.jarvis == o.jarvis
    ensures inspection.readiness.service == desired.workerService
    ensures inspection.readiness.active == o.serviceActive && inspection.readiness.enabled == o.serviceEnabled
    ensures inspection.readiness.queueReady == o.queueReady
    ensures inspection.readiness.workerReady == Some(true) <==>
              desired.workerService.Some? && o.serviceActive == Some(true) && o.workerReady
  {
    var reasons := InspectInstallation(desired, o);
    reasons := InspectHost(o, reasons);
    var workerReady;
    reasons, workerReady := InspectService(desired, o, reasons);
    inspection := Inspection(reasons, o.receiptDigest, o.generation, o.currentTarget, o.jarvis,
      Readiness(desired.workerService, o.serviceActive, o.serviceEnabled, o.queueReady, workerReady));
  }

  method InspectInstallation(desired: Desired, o: Observation) returns (reasons: seq<string>)
    ensures reasons == [] <==>
              && o.receiptDigest.Some? && o.installation == Some([])
              && o.generation == Some(desired.fingerprint) && o.currentTarget.Some?
  {
    reasons := Noted([], o.receiptDigest.None? || o.installation.None?, "installation identity did not verify");
    if o.installation.Some? {
      reasons := reasons + o.installation.value;
    }
    reasons := Noted(reasons, o.generation != Some(desired.fingerprint), "receipt does not name the desired generation");
    reasons := Noted(reasons, o.currentTarget.None?, "stable activation links did not verify");
  }

  method InspectHost(o: Observation, reasons: seq<string>) returns (reasons': seq<string>)
    ensures reasons' == [] <==>
              && reasons == []
              && o.frpc.None? && o.frps.None? && o.uv == []
              && o.jarvis.initialized && o.jarvis.managedRegistered && o.jarvis.builtinRegistered
              && o.queueReady
  {
    reasons' := Noted(reasons, o.frpc.Some?, "frpc did not verify");
    reasons' := Noted(reasons', o.frps.Some?, "frps did not verify");
    reasons' := reasons' + o.uv;
    reasons' := Noted(reasons', !o.jarvis.initialized, "JARVIS is not initialized");
    reasons' := Noted(reasons', !o.jarvis.managedRegistered, "managed repository is not registered");
    reasons' := Noted(reasons', !o.jarvis.builtinRegistered, "builtin repository slot is not registered");
    reasons' := Noted(reasons', !o.queueReady, "queue migration readiness did not verify");
  }

  method InspectService(desired: Desired, o: Observation, reasons: seq<string>)
    returns (reasons': seq<string>, workerReady: Option<bool>)
    ensures reasons' == [] <==>
              && reasons == []
              && (desired.workerService.Some? ==>
                    o.serviceActive == Some(true) && o.workerReady && o.serviceEnabled == Some(true))
    ensures workerReady == Some(true) <==> desired.workerService.Some? && o.serviceActive == Some(true) && o.workerReady
  {
    reasons', workerReady := reasons, None;
    if desired.workerService.None? {
      return;
    }
    if o.serviceActive == Some(false) {
      workerReady := Some(false);
      reasons' := reasons + ["managed endpoint service is inactive"];
    } else if o.serviceActive == Some(true) {
      workerReady := Some(o.workerReady);
      reasons' := Noted(reasons, !o.workerReady, "active endpoint worker readiness did not verify");
    } else {
      reasons' := reasons + ["managed endpoint service state was not observed"];
    }
    reasons' := Noted(reasons', o.serviceEnabled != Some(true), "managed endpoint service is not enabled");
  }

  /* ---------- the receipt ---------- */

  datatype Outcome = NoopVerified | VerifiedAfterTransfer | Repaired | Reconciled | Full

  datatype Component = Component(action: Planning.ReceiptAction, duration: real)

  datatype Operations = Operations(
    downloads: int, restarts: int, starts: int, stops: int, enables: int,
    submissions: int, cancellations: int, collections: int, payloads: int, payloadBytes: int)

  datatype GraphAction = Preserved | Loaded | Built

  datatype Receipt = Receipt(
    profile: string, installSpec: string, fingerprint: string, outcome: Outcome, installDigest: Option<string>,
    duration: real, components: map<string, Component>, operations: Operations, downloadList: seq<string>,
    worker: Readiness, pendingInstall: bool, activeAfter: Option<bool>, enabledAfter: Option<bool>,
    activeGeneration: Option<string>, currentTarget: Option<string>,
    queueAudited: bool, queueDuration: real,
    initialized: bool, initDuration: real,
    graph: GraphAction, graphDuration: real, graphProfile: Option<string>, allowGraphBuild: bool,
    builtinResult: bool, commands: seq<seq<string>>,
    before: JarvisState, after: JarvisState, linkReused: bool,
    reposUpdated: bool, added: seq<string>, removed: seq<string>,
    reposBefore: Option<string>, reposAfter: Option<string>)

  const REQUIRED: set<string> := {"clio-relay", "clio-kit", "jarvis-cd", "jarvis-util", "frp", "uv"}

  const NOTHING: Operations := Operations(0, 0, 0, 0, 0, 0, 0, 0, 0, 0)

  /** The receipt of a verified no-op, with the builder's defaults; `None` is its ValueError. */
  function MakeNoopReceipt(desired: Desired, inspection: Inspection, active: Option<string>, duration: real): Option<Receipt> {
    if duration < 0.0 then None
    else Some(Receipt(
      desired.profile, desired.installSpec, desired.fingerprint, NoopVerified, inspection.receiptDigest,
      duration, map name | name in REQUIRED :: Component(Planning.Reused, duration), NOTHING, [],
      inspection.readiness, false, inspection.readiness.active, inspection.readiness.enabled,
      active, inspection.currentTarget,
      false, 0.0, false, 0.0, Preserved, 0.0, desired.graphProfile, desired.allowGraphBuild, false, [],
      inspection.jarvis, inspection.jarvis, true, false, [], [], inspection.jarvis.repos, inspection.jarvis.repos))
  }

  /* ---------- the validator ---------- */

  predicate CountsValid(o: Operations) {
    && o.downloads >= 0 && o.restarts >= 0 && o.starts >= 0 && o.stops >= 0 && o.enables >= 0
    && o.submissions == 0 && o.cancellations == 0 && o.collections == 0
    && (o.payloads == 0 || o.payloads == 2) && o.payloadBytes >= 0
    && (o.payloads == 0 <==> o.payloadBytes == 0)
  }

  /** The checks every receipt must pass. */
  predicate ContractHolds(r: Receipt, desired: Desired) {
    && r.profile == desired.profile && r.installSpec == desired.installSpec && r.fingerprint == desired.fingerprint
    && r.installDigest.Some? && IsSha256(r.installDigest.value)
    && r.duration >= 0.0
    && REQUIRED <= r.components.Keys
    && (forall name :: name in r.components ==> r.components[name].duration >= 0.0)
    && CountsValid(r.operations) && |r.downloadList| == r.operations.downloads
    && r.worker.service == desired.workerService
    && (desired.workerService.Some? ==>
          if r.outcome.Full? && r.pendingInstall
          then r.worker.active == Some(false) && r.worker.enabled == Some(false) && r.worker.workerReady == Some(false)
          else r.worker.active == Some(true) && r.worker.workerReady == Some(true) && !r.pendingInstall)
    && r.activeGeneration == Some(desired.fingerprint)
    && r.currentTarget.Some? && r.currentTarget.value != ""
    && r.queueDuration >= 0.0 && (r.queueAudited ==> r.queueDuration > 0.0)
    && (if r.initialized then r.initDuration > 0.0 else r.initDuration == 0.0)
    && r.graphProfile == desired.graphProfile && r.allowGraphBuild == desired.allowGraphBuild
    && (if r.graph.Preserved? then r.graphDuration == 0.0 && !r.builtinResult else r.graphDuration > 0.0 && r.builtinResult)
    && (forall i :: 0 <= i < |r.commands| ==> r.commands[i] != [] && "" !in r.commands[i])
    && r.reposBefore == r.before.repos && r.reposAfter == r.after.repos
    && r.after.managedRegistered && r.after.builtinRegistered
  }

  predicate BytesIdentical(r: Receipt) {
    r.before.config == r.after.config && r.before.graph == r.after.graph && r.before.repos == r.after.repos
  }

  /** A no-op receipt reports no mutation of any kind. */
  predicate NoopHolds(r: Receipt) {
    && (forall name :: name in r.components ==> r.components[name].action.Reused?)
    && r.operations == NOTHING
    && !r.queueAudited && r.queueDuration == 0.0
    && !r.initialized && r.graph.Preserved? && r.commands == []
    && BytesIdentical(r) && r.linkReused && !r.reposUpdated
  }

  predicate NoopValidated(r: Receipt, desired: Desired) {
    r.outcome.NoopVerified? && ContractHolds(r, desired) && NoopHolds(r)
  }

  /* ---------- the reuse gate ---------- */

  const EXACT_MAXIMUM: real := 30.0
  const REPAIR_MAXIMUM: real := 60.0

  /** The gate as a program: it walks the components and stops at the first offence. */
  method ReuseAccepted(r: Receipt, elapsed: real) returns (accepted: Option<bool>)
    ensures accepted.None? <==> !r.outcome.NoopVerified? && !r.outcome.Repaired?
    ensures accepted.Some? ==> (accepted.value <==> Acceptable(r, elapsed))
  {
    if !r.outcome.NoopVerified? && !r.outcome.Repaired? {
      return None;
    }
    var maximum := if r.outcome.NoopVerified? then EXACT_MAXIMUM else REPAIR_MAXIMUM;
    if elapsed < 0.0 || elapsed > maximum {
      return Some(false);
    }
    var o := r.operations;
    if !(o.downloads == o.payloads == o.payloadBytes == o.submissions == o.cancellations == o.collections == 0) {
      return Some(false);
    }
    if o.starts < 0 || o.restarts < 0 || o.stops < 0 || o.enables < 0 {
      return Some(false);
    }
    if r.outcome.NoopVerified? && !(o.starts == o.restarts == o.stops == o.enables == 0) {
      return Some(false);
    }
    if r.outcome.Repaired? && (o.starts + o.restarts != 1 || o.stops != 0 || o.enables > 1) {
      return Some(false);
    }
    if r.commands != [] || r.initialized || !r.graph.Preserved? {
      return Some(false);
    }
    if r.before.config != r.after.config || r.before.graph != r.after.graph || !r.linkReused || r.reposUpdated {
      return Some(false);
    }
    if !(REQUIRED <= r.components.Keys) {
      return Some(false);
    }
    var names := r.components.Keys;
    while names != {}
      invariant names <= r.components.Keys
      invariant forall name :: name in r.components && name !in names ==> name != "" && r.components[name].action.Reused?
      decreases names
    {
      var name :| name in names;
      if name == "" || !r.components[name].action.Reused? {
        return Some(false);
      }
      names := names - {name};
    }
    return Some(r.activeAfter == Some(true) && r.enabledAfter == Some(true));
  }

  /** What the gate demands: in time, idle but for one bounded service activation of a repair,
      every component reused and the endpoint left persistent. */
  predicate Acceptable(r: Receipt, elapsed: real) {
    && 0.0 <= elapsed <= (if r.outcome.NoopVerified? then EXACT_MAXIMUM else REPAIR_MAXIMUM)
    && r.operations == NOTHING.(starts := r.operations.starts, restarts := r.operations.restarts, enables := r.operations.enables)
    && (if r.outcome.NoopVerified?
        then r.operations == NOTHING
        else r.operations.starts >= 0 && r.operations.restarts >= 0
             && r.operations.starts + r.operations.restarts == 1 && 0 <= r.operations.enables <= 1)
    && r.commands == [] && !r.initialized && r.graph.Preserved?
    && r.before.config == r.after.config && r.before.graph == r.after.graph && r.linkReused && !r.reposUpdated
    && REQUIRED <= r.components.Keys
    && (forall name :: name in r.components ==> name != "" && r.components[name].action.Reused?)
    && r.activeAfter == Some(true) && r.enabledAfter == Some(true)
  }

  /* ---------- the validator and the gate against the builder ---------- */

  /** What the builder would have written where the receipt is free to differ: the components it
      lists, the states it read and the marks it carries for other outcomes. */
  function Levelled(r: Receipt): Receipt {
    var c := Component(Planning.Reused, r.duration);
    r.(components := map["clio-relay" := c, "clio-kit" := c, "jarvis-cd" := c, "jarvis-util" := c, "frp" := c, "uv" := c],
       pendingInstall := false, activeAfter := r.worker.active, enabledAfter := r.worker.enabled,
       before := r.after, added := [], removed := [])
  }

  /** The validator accepts exactly the receipts the builder makes, up to those fields: every
      other field is forced, and these are bounded. */
  lemma NoopValidatedIff(r: Receipt, desired: Desired)
    ensures NoopValidated(r, desired) <==>
              && MakeNoopReceipt(
                   desired, Inspection([], r.installDigest, r.activeGeneration, r.currentTarget, r.after, r.worker),
                   Some(desired.fingerprint), r.duration) == Some(Levelled(r))
              && r.installDigest.Some? && IsSha256(r.installDigest.value)
              && r.currentTarget.Some? && r.currentTarget.value != ""
              && r.worker.service == desired.workerService
              && (desired.workerService.Some? ==>
                    r.worker.active == Some(true) && r.worker.workerReady == Some(true) && !r.pendingInstall)
              && {"clio-relay", "clio-kit", "jarvis-cd", "jarvis-util", "frp", "uv"} <= r.components.Keys
              && (forall name :: name in r.components ==>
                    r.components[name].action == Planning.Reused && r.components[name].duration >= 0.0)
              && r.after.managedRegistered && r.after.builtinRegistered
              && r.before.config == r.after.config && r.before.graph == r.after.graph && r.before.repos == r.after.repos
  {
    var c := Component(Planning.Reused, r.duration);
    assert Levelled(r).components == map name | name in REQUIRED :: c;
  }

  /** Whatever its outcome, a receipt may report service operations and downloads it lists, no
      payload or two with bytes, and never a scheduler job or a collected generation. */
  lemma OperationsIff(r: Receipt, desired: Desired, o: Operations)
    requires ContractHolds(r, desired)
    ensures ContractHolds(r.(operations := o), desired) <==>
              && o.downloads == |r.downloadList|
              && o.restarts >= 0 && o.starts >= 0 && o.stops >= 0 && o.enables >= 0
              && o.submissions == 0 && o.cancellations == 0 && o.collections == 0
              && ((o.payloads == 0 && o.payloadBytes == 0) || (o.payloads == 2 && o.payloadBytes > 0))
  {
  }

  /** What the validator re-checks of an inspection: it takes the queue, frp, uv, the enabled
      service and the initialized state on trust. */
  lemma BuiltIsValidatedIff(desired: Desired, inspection: Inspection, active: Option<string>, duration: real)
    requires duration >= 0.0
    ensures NoopValidated(MakeNoopReceipt(desired, inspection, active, duration).value, desired) <==>
              && inspection.receiptDigest.Some? && IsSha256(inspection.receiptDigest.value)
              && active == Some(desired.fingerprint)
              && inspection.currentTarget.Some? && inspection.currentTarget.value != ""
              && inspection.readiness.service == desired.workerService
              && (desired.workerService.Some? ==>
                    inspection.readiness.active == Some(true) && inspection.readiness.workerReady == Some(true))
              && inspection.jarvis.managedRegistered && inspection.jarvis.builtinRegistered
  {
  }

  /** Whoever built it, a validated no-op receipt passes the gate exactly in time and with the
      endpoint left active and enabled. */
  lemma ValidatedIsAcceptableIff(r: Receipt, desired: Desired, elapsed: real)
    requires NoopValidated(r, desired)
    ensures Acceptable(r, elapsed) <==>
              && 0.0 <= elapsed <= 30.0 && "" !in r.components
              && r.activeAfter == Some(true) && r.enabledAfter == Some(true)
  {
  }

  /** One start or restart, and perhaps one enable. */
  function Activation(restarted: bool, enabled: bool): Operations {
    var once, enables := if restarted then 1 else 0, if enabled then 1 else 0;
    Operations(0, once, 1 - once, 0, enables, 0, 0, 0, 0, 0)
  }

  /** A repair may have started or restarted the service once and enabled it once, in a minute. */
  lemma RepairIsAcceptableIff(r: Receipt, elapsed: real)
    requires r.outcome == Repaired
    ensures Acceptable(r, elapsed) <==>
              && 0.0 <= elapsed <= 60.0
              && (exists restarted, enabled :: r.operations == Activation(restarted, enabled))
              && r.commands == [] && !r.initialized && r.graph == Preserved
              && r.before.config == r.after.config && r.before.graph == r.after.graph && r.linkReused && !r.reposUpdated
              && {"clio-relay", "clio-kit", "jarvis-cd", "jarvis-util", "frp", "uv"} <= r.components.Keys
              && (forall name :: name in r.components ==> name != "" && r.components[name].action == Planning.Reused)
              && r.activeAfter == Some(true) && r.enabledAfter == Some(true)
  {
    var o := r.operations;
    if Acceptable(r, elapsed) {
      assert o == Activation(o.restarts == 1, o.enables == 1);
    }
  }

  /* ---------- the chain ---------- */

  /** For every desired state, given that a digest helper yields digests and that a resolved link
      target is not empty: a clean inspection yields a receipt that the validator accepts,
      and that the reuse gate accepts exactly within 30 seconds and with the endpoint observed
      active and enabled, which a desired worker service guarantees. */
  method ExactNoopChain(desired: Desired, o: Observation, duration: real, elapsed: real)
    returns (exact: bool, receipt: Option<Receipt>, accepted: bool)
    requires o.receiptDigest.Some? ==> IsSha256(o.receiptDigest.value)
    requires o.currentTarget.Some? ==> o.currentTarget.value != ""
    ensures exact <==> Live(desired, o)
    ensures receipt.Some? <==> exact && duration >= 0.0
    ensures receipt.Some? ==> NoopValidated(receipt.value, desired)
    ensures accepted <==> receipt.Some? && 0.0 <= elapsed <= 30.0
                          && o.serviceActive == Some(true) && o.serviceEnabled == Some(true)
    ensures receipt.Some? && desired.workerService.Some? ==> (accepted <==> 0.0 <= elapsed <= 30.0)
  {
    var inspection := InspectExactNoop(desired, o);
    exact, receipt, accepted := inspection.reasons == [], None, false;
    if !exact {
      return;
    }
    receipt := MakeNoopReceipt(desired, inspection, inspection.generation, duration);
    if receipt.Some? {
      var verdict := ReuseAccepted(receipt.value, elapsed);
      assert "" !in REQUIRED;
      accepted := verdict.value;
    }
  }
}
