/**
 The reconcile planner: it accumulates reasons over every component's evidence, remembers
 which of them are mere version upgrades, and picks the smallest transaction. What it marks
 for reuse is carried by the commit step into the receipt that the validator judges.
 */
module Planning {
  import opened Objects
  import J = Journals

  datatype Component = Relay | Kit | Cd | Util | Frp | Uv

  datatype Action = Reuse | Replace

  datatype Plan = Plan(mode: J.Mode, reasons: seq<string>, actions: map<Component, Action>)

  /** The recorded artifact of a component, and whether the file on disk still is it. */
  datatype Artifact = Artifact(digest: string, hasPath: bool, reverifies: bool)

  datatype Desired = Desired(
    kitVersion: string, kitDigest: string, cdVersion: string, cdDigest: string, utilCommit: string)

  /** Everything the planner observes. `preliminary` is the reason to give up on reuse before
      any component is looked at; the other optional strings are failures. */
  datatype Evidence = Evidence(
    preliminary: Option<string>,
    kitVersion: Option<string>, kitArtifact: Option<Artifact>, kitRuntime: bool,
    cdVersion: Option<string>, cdArtifact: Option<Artifact>, cdRuntime: bool,
    utilCommit: Option<string>, utilProblems: seq<string>,
    frpc: Option<string>, frps: Option<string>,
    uvBinary: Option<string>, uvProbe: Option<string>,
    initialized: bool, boundary: bool,
    exactReasons: seq<string>,
    captureFailure: Option<string>,
    relayReusable: bool)

  const COMPONENTS: set<Component> := {Relay, Kit, Cd, Util, Frp, Uv}

  /* ---------- what reuse means ---------- */

  predicate ArtifactHolds(artifact: Option<Artifact>, digest: string) {
    artifact.Some? && artifact.value.digest == digest && artifact.value.hasPath && artifact.value.reverifies
  }

  /** Every check of one component passed. */
  predicate Passed(desired: Desired, e: Evidence, component: Component) {
    match component
    case Relay => e.exactReasons == []
    case Kit => e.kitVersion == Some(desired.kitVersion) && ArtifactHolds(e.kitArtifact, desired.kitDigest) && e.kitRuntime
    case Cd => e.cdVersion == Some(desired.cdVersion) && ArtifactHolds(e.cdArtifact, desired.cdDigest) && e.cdRuntime
    case Util => e.utilCommit == Some(desired.utilCommit) && e.utilProblems == []
    case Frp => e.frpc.None? && e.frps.None?
    case Uv => e.uvBinary.None? && e.uvProbe.None?
  }

  predicate KitUpgrades(desired: Desired, e: Evidence) { e.kitVersion != Some(desired.kitVersion) }

  predicate CdUpgrades(desired: Desired, e: Evidence) { e.cdVersion != Some(desired.cdVersion) }

  /** Something is wrong that a version upgrade does not explain. */
  predicate Broken(desired: Desired, e: Evidence) {
    || (!KitUpgrades(desired, e) && !Passed(desired, e, Kit))
    || (!CdUpgrades(desired, e) && !Passed(desired, e, Cd))
    || !Passed(desired, e, Util)
    || !Passed(desired, e, Frp)
    || !Passed(desired, e, Uv)
    || !e.initialized
    || !e.boundary
  }

  function ModeOf(desired: Desired, e: Evidence): J.Mode {
    if e.preliminary.Some? || Broken(desired, e) then J.Full
    else if KitUpgrades(desired, e) || CdUpgrades(desired, e) then
      (if e.captureFailure.None? then J.ComponentUpgrade else J.Full)
    else if e.exactReasons == [] then J.Repair
    else if e.captureFailure.Some? then J.Full
    else if !e.relayReusable then J.ComponentUpgrade
    else J.RelayOnly
  }

  /** The recorded artifact is the desired one, is on disk, and still is what was recorded. */
  predicate Intact(version: Option<string>, artifact: Option<Artifact>, runtime: bool, wanted: string, digest: string) {
    version == Some(wanted) && artifact == Some(Artifact(digest, true, true)) && runtime
  }

  /** The mode by the observations themselves. */
  lemma ModeIff(desired: Desired, e: Evidence)
    ensures var shared := e.preliminary == None && e.utilCommit == Some(desired.utilCommit) && e.utilProblems == []
                          && e.frpc == None && e.frps == None && e.uvBinary == None && e.uvProbe == None
                          && e.initialized && e.boundary;
            var kit := Intact(e.kitVersion, e.kitArtifact, e.kitRuntime, desired.kitVersion, desired.kitDigest);
            var cd := Intact(e.cdVersion, e.cdArtifact, e.cdRuntime, desired.cdVersion, desired.cdDigest);
            && (ModeOf(desired, e) == J.Repair <==> shared && kit && cd && e.exactReasons == [])
            && (ModeOf(desired, e) == J.RelayOnly <==>
                  shared && kit && cd && e.exactReasons != [] && e.captureFailure == None && e.relayReusable)
            && (ModeOf(desired, e) == J.ComponentUpgrade <==>
                  && shared && e.captureFailure == None
                  && (kit || e.kitVersion != Some(desired.kitVersion))
                  && (cd || e.cdVersion != Some(desired.cdVersion))
                  && (kit && cd ==> e.exactReasons != [] && !e.relayReusable))
            && (e.preliminary != None ==> ModeOf(desired, e) == J.Full)
  {
  }

  /* ---------- reason accumulation ---------- */

  predicate StartsWithUv(reason: string) { |reason| >= 3 && reason[..3] == "uv " }

  /** Upgrade reasons are a copy of the reasons until something else is added, and stay apart
      from then on; none of them is mistaken for a failure of uv. */
  predicate Ledger(reasons: seq<string>, upgrades: seq<string>, broken: bool) {
    && |upgrades| <= |reasons|
    && (if broken then |upgrades| < |reasons| else reasons == upgrades)
    && (forall i :: 0 <= i < |upgrades| ==> !StartsWithUv(upgrades[i]))
  }

  function Noted(reasons: seq<string>, problem: Option<string>): seq<string> {
    if problem.Some? then reasons + [problem.value] else reasons
  }

  lemma NotedIsBroken(reasons: seq<string>, upgrades: seq<string>, broken: bool, problem: Option<string>)
    requires Ledger(reasons, upgrades, broken)
    ensures Ledger(Noted(reasons, problem), upgrades, broken || problem.Some?)
  {
  }

  function VersionReason(component: Component): (reason: string)
    requires component.Kit? || component.Cd?
    ensures !StartsWithUv(reason)
  {
    var reason := (if component.Kit? then "clio-kit" else "jarvis-cd") + " version requires a staged upgrade";
    assert reason[..3][0] == reason[0] != 'u';
    reason
  }

  /** One turn of the loop over clio-kit and jarvis-cd. */
  method CheckComponent(
    component: Component, matches: bool, artifact: Option<Artifact>, digest: string,
    reasons: seq<string>, upgrades: seq<string>, ghost broken: bool)
    returns (reasons': seq<string>, upgrades': seq<string>)
    requires component.Kit? || component.Cd?
    requires Ledger(reasons, upgrades, broken)
    ensures Ledger(reasons', upgrades', broken || (matches && !ArtifactHolds(artifact, digest)))
    ensures |upgrades'| == |upgrades| + if matches then 0 else 1
  {
    reasons', upgrades' := reasons, upgrades;
    if !matches {
      var reason := VersionReason(component);
      reasons', upgrades' := reasons + [reason], upgrades + [reason];
      return;
    }
    if artifact.None? {
      reasons' := reasons + ["artifact identity is missing"];
      return;
    }
    if artifact.value.digest != digest || !artifact.value.hasPath {
      reasons' := reasons + ["artifact identity is not reusable"];
      return;
    }
    if !artifact.value.reverifies {
      reasons' := reasons + ["artifact did not reverify"];
    }
  }

  /** The uv probe is skipped when some reason already names uv; that can only hide a failure
      from a ledger that is broken anyway. */
  method VerifyUv(
    binary: Option<string>, probe: Option<string>, reasons: seq<string>, upgrades: seq<string>, ghost broken: bool)
    returns (reasons': seq<string>)
    requires Ledger(reasons, upgrades, broken)
    ensures Ledger(reasons', upgrades, broken || binary.Some? || probe.Some?)
  {
    reasons' := Noted(reasons, binary);
    NotedIsBroken(reasons, upgrades, broken, binary);
    if exists i :: 0 <= i < |reasons'| && StartsWithUv(reasons'[i]) {
      return;
    }
    NotedIsBroken(reasons', upgrades, broken || binary.Some?, probe);
    reasons' := Noted(reasons', probe);
  }

  function Marked(replaced: set<Component>): map<Component, Action> {
    map c | c in COMPONENTS :: if c in replaced then Replace else Reuse
  }

  /** Plan the transaction. Its mode is the one the evidence calls for, and a component is
      marked for reuse only if every one of its checks passed. */
  method PlanReconcile(desired: Desired, e: Evidence) returns (plan: Plan)
    ensures plan.mode == ModeOf(desired, e)
    ensures plan.actions.Keys == COMPONENTS
    ensures forall c :: c in COMPONENTS && plan.actions[c] == Reuse ==> Passed(desired, e, c)
    ensures plan.mode.RelayOnly? ==> plan.actions == Marked({Relay})
    ensures plan.mode.ComponentUpgrade? ==> plan.actions == Marked({Relay, Kit, Cd})
  {
    if e.preliminary.Some? {
      return Plan(J.Full, [e.preliminary.value], Marked(COMPONENTS));
    }
    var reasons, upgrades := GatherReasons(desired, e);
    if reasons != [] {
      if upgrades != [] && reasons == upgrades {
        if e.captureFailure.Some? {
          return Plan(J.Full, [e.captureFailure.value], Marked(COMPONENTS));
        }
        return Plan(J.ComponentUpgrade, upgrades, Marked({Relay, Kit, Cd}));
      }
      return Plan(J.Full, reasons, Marked(COMPONENTS));
    }
    if e.exactReasons == [] {
      return Plan(J.Repair, ["queue or worker readiness requires repair"], Marked({}));
    }
    if e.captureFailure.Some? {
      return Plan(J.Full, [e.captureFailure.value], Marked(COMPONENTS));
    }
    if !e.relayReusable {
      return Plan(J.ComponentUpgrade, ["relay execution runtime requires a staged replacement"], Marked({Relay, Kit, Cd}));
    }
    return Plan(J.RelayOnly, ["relay desired identity changed"], Marked({Relay}));
  }

  /** `reasons == upgrades` exactly when nothing but version upgrades was found. */
  method GatherReasons(desired: Desired, e: Evidence) returns (reasons: seq<string>, upgrades: seq<string>)
    ensures reasons == upgrades <==> !Broken(desired, e)
    ensures upgrades != [] <==> KitUpgrades(desired, e) || CdUpgrades(desired, e)
    ensures reasons == [] ==> upgrades == []
  {
    var kit, cd := e.kitVersion == Some(desired.kitVersion), e.cdVersion == Some(desired.cdVersion);
    reasons, upgrades := CheckComponent(Kit, kit, e.kitArtifact, desired.kitDigest, [], [], false);
    ghost var broken := kit && !ArtifactHolds(e.kitArtifact, desired.kitDigest);
    reasons, upgrades := CheckComponent(Cd, cd, e.cdArtifact, desired.cdDigest, reasons, upgrades, broken);
    broken := broken || (cd && !ArtifactHolds(e.cdArtifact, desired.cdDigest));
    reasons := GatherRuntimeReasons(desired, e, kit, cd, reasons, upgrades, broken);
    broken := broken || !Passed(desired, e, Util) || (kit && !e.kitRuntime) || (cd && !e.cdRuntime);
    reasons := GatherHostReasons(e, reasons, upgrades, broken);
  }

  method GatherRuntimeReasons(
    desired: Desired, e: Evidence, kit: bool, cd: bool, reasons: seq<string>, upgrades: seq<string>, ghost broken: bool)
    returns (reasons': seq<string>)
    requires Ledger(reasons, upgrades, broken)
    ensures Ledger(reasons', upgrades,
                   broken || !Passed(desired, e, Util) || (kit && !e.kitRuntime) || (cd && !e.cdRuntime))
  {
    if e.utilCommit != Some(desired.utilCommit) {
      reasons' := reasons + ["jarvis-util commit is not reusable"];
    } else {
      reasons' := reasons + e.utilProblems;
    }
    if kit && !e.kitRuntime {
      reasons' := reasons' + ["clio-kit live runtime is not reusable"];
    }
    if cd && !e.cdRuntime {
      reasons' := reasons' + ["JARVIS-CD live execution runtime is not reusable"];
    }
  }

  method GatherHostReasons(e: Evidence, reasons: seq<string>, upgrades: seq<string>, ghost broken: bool)
    returns (reasons': seq<string>)
    requires Ledger(reasons, upgrades, broken)
    ensures Ledger(reasons', upgrades,
                   broken || e.frpc.Some? || e.frps.Some? || e.uvBinary.Some? || e.uvProbe.Some?
                   || !e.initialized || !e.boundary)
  {
    NotedIsBroken(reasons, upgrades, broken, e.frpc);
    reasons' := Noted(reasons, e.frpc);
    NotedIsBroken(reasons', upgrades, broken || e.frpc.Some?, e.frps);
    reasons' := Noted(reasons', e.frps);
    reasons' := VerifyUv(e.uvBinary, e.uvProbe, reasons', upgrades, broken || e.frpc.Some? || e.frps.Some?);
    if !e.initialized {
      reasons' := reasons' + ["JARVIS is not initialized"];
    }
    if !e.boundary {
      reasons' := reasons' + ["legacy JARVIS execution environment is not reusable"];
    }
  }

  /* ---------- from the plan to the receipt ---------- */

  datatype ReceiptAction = Reused | Prepared | Materialized | Replaced

  /** What the receipt validator demands of a reconciled transaction. */
  function Expected(mode: J.Mode): map<Component, ReceiptAction> {
    match mode
    case ComponentUpgrade => map[Relay := Replaced, Kit := Replaced, Cd := Replaced, Util := Reused, Frp := Reused, Uv := Reused]
    case RelayOnly => map[Relay := Prepared, Kit := Reused, Cd := Reused, Util := Reused, Frp := Reused, Uv := Reused]
    case _ => map[]
  }

  /** The commit step's component evidence. */
  method ReceiptActions(plan: Plan) returns (components: map<Component, ReceiptAction>)
    ensures components.Keys == plan.actions.Keys + {Frp, Uv, Util}
    ensures forall c :: c in plan.actions ==>
              components[c] == (if plan.actions[c].Reuse? then Reused
                                else if plan.mode.ComponentUpgrade? then Replaced else Prepared)
    ensures forall c :: c in components && c !in plan.actions ==> components[c] == Reused
  {
    components := map[];
    var names := plan.actions.Keys;
    while names != {}
      invariant names <= plan.actions.Keys
      invariant components.Keys == plan.actions.Keys - names
      invariant forall c :: c in components ==>
                  components[c] == (if plan.actions[c].Reuse? then Reused
                                    else if plan.mode.ComponentUpgrade? then Replaced else Prepared)
      decreases names
    {
      var name :| name in names;
      var action := plan.actions[name];
      components := components[name := if action.Replace? && plan.mode.ComponentUpgrade? then Replaced
                                       else if action.Replace? then Prepared else Reused];
      names := names - {name};
    }
    if Frp !in components { components := components[Frp := Reused]; }
    if Uv !in components { components := components[Uv := Reused]; }
    if Util !in components { components := components[Util := Reused]; }
  }

  /** Plan soundness through to the receipt: whatever was planned, the receipt of a relay-only
      or component-upgrade transaction carries exactly the actions the validator demands. */
  method PlanThroughToReceipt(desired: Desired, e: Evidence)
    returns (plan: Plan, components: map<Component, ReceiptAction>)
    ensures plan.mode == ModeOf(desired, e)
    ensures plan.mode.RelayOnly? || plan.mode.ComponentUpgrade? ==> components == Expected(plan.mode)
    ensures forall c :: c in components && components[c] == Reused ==> Passed(desired, e, c)
  {
    plan := PlanReconcile(desired, e);
    components := ReceiptActions(plan);
  }
}
