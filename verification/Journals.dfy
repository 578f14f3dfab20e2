/**
 The two crash journals of a bootstrap transaction: the dependency-free one that a virgin
 host uses, and the packaged one. One journal file, two programs that advance it; what
 each writes must be readable by the next process, so a step counts only when its result
 loads again.
 */
module Journals {
  import opened Objects
  import opened Identifiers
  import opened OwnedPaths

  datatype Machine = DependencyFree | Packaged

  datatype Mode = Full | RelayOnly | ComponentUpgrade | Repair

  datatype State =
    | Locked | Recovering | Inspected | NoopVerified | Preparing | Prepared | Fencing | Fenced
    | Activating | Activated | MigrationStarted | Migrated | Starting | ServiceVerified
    | Committed | Recovered

  datatype Recovery = Discard | Rollback | Forward | NoRecovery

  datatype Journal = Journal(
    invocation: string,
    fingerprint: string,
    mode: Mode,
    state: State,
    prepared: Option<string>,
    recoveredFrom: Option<State>,
    irreversible: bool,
    owned: map<string, Owned>,
    phases: map<string, string>)

  datatype Event =
    | Advance(target: State, generation: string)
    | RecordPhase(phase: string, identity: string)
    | RecordOwned(name: string, observed: Identity)
    | DiscardOwned
    | CompleteRecovery

  /** The transition table, which both programs share. */
  function Transitions(state: State): set<State> {
    match state
    case Locked => {Recovering, Inspected}
    case Recovering => {Inspected, MigrationStarted, Migrated, Starting, ServiceVerified, Committed}
    case Inspected => {NoopVerified, Preparing, Fencing}
    case NoopVerified => {Committed}
    case Preparing => {Prepared}
    case Prepared => {Fencing, Activating}
    case Fencing => {Fenced}
    case Fenced => {Activating, Preparing}
    case Activating => {Activated}
    case Activated => {MigrationStarted}
    case MigrationStarted => {Migrated}
    case Migrated => {Starting, ServiceVerified}
    case Starting => {ServiceVerified}
    case ServiceVerified => {Committed}
    case Committed => {}
    case Recovered => {}
  }

  predicate Terminal(state: State) { state == Committed || state == Recovered }

  predicate NeedsGeneration(state: State) {
    state in {Prepared, Activating, Activated, MigrationStarted, Migrated, Starting, ServiceVerified, Committed}
  }

  predicate NeedsBoundary(state: State) {
    state in {MigrationStarted, Migrated, Starting, ServiceVerified, Committed}
  }

  /** Only the dependency-free journal bounds the length of a name and the number of owned
      paths, demands some phase, and insists that a generation is a digest. */
  predicate NameAccepted(machine: Machine, name: string) {
    IsIdentifier(name) && (machine.DependencyFree? ==> |name| <= 160)
  }

  predicate OwnedAccepted(machine: Machine, owned: map<string, Owned>) {
    && (machine.DependencyFree? ==> |owned| <= 128 && forall name :: name in owned ==> NameAccepted(machine, name))
    && (forall name :: name in owned ==> WellRecorded(owned[name]))
    && (forall a, b :: a in owned && b in owned && a != b ==> owned[a].path != owned[b].path)
  }

  predicate PhasesAccepted(machine: Machine, phases: map<string, string>) {
    && (machine.DependencyFree? ==> |phases| > 0)
    && (forall name :: name in phases ==> NameAccepted(machine, name) && IsSha256(phases[name]))
  }

  predicate GenerationAccepted(machine: Machine, j: Journal) {
    if machine.DependencyFree?
    then (j.prepared.Some? ==> IsSha256(j.prepared.value)) && (NeedsGeneration(j.state) ==> j.prepared.Some?)
    else NeedsGeneration(j.state) ==> j.prepared.Some? && j.prepared.value != ""
  }

  /** A journal on disk is accepted when it is loaded. */
  predicate Loads(machine: Machine, j: Journal) {
    && NameAccepted(machine, j.invocation)
    && IsSha256(j.fingerprint)
    && OwnedAccepted(machine, j.owned)
    && PhasesAccepted(machine, j.phases)
    && GenerationAccepted(machine, j)
    && (NeedsBoundary(j.state) ==> j.irreversible)
  }

  /** The states at which a program raises the irreversible boundary. */
  predicate Crosses(machine: Machine, mode: Mode, target: State) {
    target == MigrationStarted || (machine.Packaged? && target == Activating && mode != Full)
  }

  function RecoveryMode(j: Journal): Recovery {
    if Terminal(j.state) then NoRecovery
    else if j.irreversible then Forward
    else if j.mode == Full then Discard
    else if j.state == Activating || j.state == Activated then Rollback
    else Discard
  }

  /** The in-memory effect of one event, before anything is validated or written. */
  function Stepped(machine: Machine, j: Journal, event: Event): Option<Journal> {
    match event
    case Advance(target, generation) =>
      if target !in Transitions(j.state) then None
      else Some(j.(
        state := target,
        prepared := if target == Prepared then Some(generation) else j.prepared,
        irreversible := j.irreversible || Crosses(machine, j.mode, target)))
    case RecordPhase(phase, identity) =>
      if Terminal(j.state) || !NameAccepted(machine, phase) || !IsSha256(identity)
         || (phase in j.phases && j.phases[phase] != identity) then None
      else Some(j.(phases := j.phases[phase := identity]))
    case RecordOwned(name, observed) =>
      if machine.Packaged? || Terminal(j.state) || name !in j.owned
         || (j.owned[name].identity.Some? && j.owned[name].identity.value != observed)
         || !KindAccepts(j.owned[name].kind, observed) then None
      else Some(j.(owned := j.owned[name := j.owned[name].(identity := Some(observed))]))
    case DiscardOwned =>
      if machine.Packaged? || j.mode != Full || RecoveryMode(j) != Discard then None
      else Some(j.(state := Recovered, recoveredFrom := Some(j.state)))
    case CompleteRecovery =>
      if machine.DependencyFree? || Terminal(j.state) then None
      else Some(j.(state := Recovered,
                   recoveredFrom := if j.recoveredFrom.None? then Some(j.state) else j.recoveredFrom))
  }

  /** Load, step, write, and load again. */
  function Apply(machine: Machine, j: Journal, event: Event): Option<Journal> {
    if !Loads(machine, j) then None
    else
      var stepped := Stepped(machine, j, event);
      if stepped.Some? && Loads(machine, stepped.value) then stepped else None
  }

  predicate Created(j: Journal) {
    && j.state == Locked && j.prepared.None? && j.recoveredFrom.None? && !j.irreversible
    && j.phases == map["locked" := j.fingerprint]
    && forall name :: name in j.owned ==> j.owned[name].identity.None?
  }

  /* ---------- the two programs agree ---------- */

  /** Apply a sequence of events; `None` once some step does not survive. */
  function ApplyAll(machine: Machine, j: Journal, events: seq<Event>): Option<Journal>
    decreases |events|
  {
    if events == [] then (if Loads(machine, j) then Some(j) else None)
    else
      var next := Apply(machine, j, events[0]);
      if next.None? then None else ApplyAll(machine, next.value, events[1..])
  }

  /** Events that both programs perform: transitions to a proper generation, and phases. */
  predicate Shared(event: Event) {
    match event
    case Advance(_, generation) => IsSha256(generation)
    case RecordPhase(phase, _) => |phase| <= 160
    case _ => false
  }

  /** The packaged journal has already raised the boundary of a replacement that is activating. */
  predicate Ahead(j: Journal) { j.mode != Full && (j.state == Activating || j.state == Activated) }

  function Twin(j: Journal): Journal { j.(irreversible := j.irreversible || Ahead(j)) }

  lemma TwinLoads(j: Journal)
    requires Loads(DependencyFree, j)
    ensures Loads(Packaged, Twin(j))
  {
  }

  lemma TwinLoadsBack(j: Journal)
    requires Loads(Packaged, Twin(j))
    requires OwnedAccepted(DependencyFree, j.owned) && PhasesAccepted(DependencyFree, j.phases)
    requires NameAccepted(DependencyFree, j.invocation)
    requires j.prepared.Some? ==> IsSha256(j.prepared.value)
    ensures Loads(DependencyFree, j)
  {
  }

  lemma {:induction false} StepKeepsTwins(j: Journal, event: Event)
    requires Loads(DependencyFree, j) && Shared(event)
    ensures var a, b := Apply(DependencyFree, j, event), Apply(Packaged, Twin(j), event);
            (a.Some? <==> b.Some?) && (a.Some? ==> b.value == Twin(a.value))
  {
    TwinLoads(j);
    SteppedKeepsTwins(j, event);
    var a := Stepped(DependencyFree, j, event);
    if a.Some? {
      if Loads(DependencyFree, a.value) {
        TwinLoads(a.value);
      }
      if Loads(Packaged, Twin(a.value)) {
        TwinLoadsBack(a.value);
      }
    }
  }

  /** In memory the two programs take the same step, and everything but the boundary and the
      generation stays as acceptable as it was. */
  lemma {:induction false} SteppedKeepsTwins(j: Journal, event: Event)
    requires Loads(DependencyFree, j) && Shared(event)
    ensures var a, b := Stepped(DependencyFree, j, event), Stepped(Packaged, Twin(j), event);
            && (a.Some? <==> b.Some?)
            && (a.Some? ==>
                  && b.value == Twin(a.value)
                  && a.value.owned == j.owned && a.value.invocation == j.invocation
                  && PhasesAccepted(DependencyFree, a.value.phases)
                  && (a.value.prepared.Some? ==> IsSha256(a.value.prepared.value)))
  {
    if event.RecordPhase? && Stepped(DependencyFree, j, event).Some? {
      assert PhasesAccepted(DependencyFree, j.phases[event.phase := event.identity]);
    }
  }

  /** Bisimulation. From one created journal, exactly the same event sequences survive both
      programs. In full mode the two journals stay equal; in the other modes they differ in
      the boundary flag alone, precisely while the state is activating or activated, where one
      says rollback and the other forward. */
  lemma {:induction false} JournalsAreBisimilar(j: Journal, events: seq<Event>)
    requires Created(j) && Loads(DependencyFree, j)
    requires forall i :: 0 <= i < |events| ==> Shared(events[i])
    ensures var a, b := ApplyAll(DependencyFree, j, events), ApplyAll(Packaged, j, events);
            && (a.Some? <==> b.Some?)
            && (a.Some? ==>
                  && b.value == a.value.(irreversible := b.value.irreversible)
                  && (j.mode == Full ==> a == b)
                  && (a.value.irreversible != b.value.irreversible <==> Ahead(b.value) && !a.value.irreversible)
                  && (RecoveryMode(a.value) != RecoveryMode(b.value) <==> Ahead(a.value))
                  && (Ahead(a.value) ==>
                        RecoveryMode(a.value) == Rollback && RecoveryMode(b.value) == Forward))
  {
    TwinLoads(j);
    assert Twin(j) == j;
    TwinsStayTwins(j, events);
    if ApplyAll(DependencyFree, j, events).Some? {
      ApplyAllKeeps(DependencyFree, j, events);
    }
  }

  lemma {:induction false} TwinsStayTwins(j: Journal, events: seq<Event>)
    requires Loads(DependencyFree, j)
    requires forall i :: 0 <= i < |events| ==> Shared(events[i])
    ensures var a, b := ApplyAll(DependencyFree, j, events), ApplyAll(Packaged, Twin(j), events);
            (a.Some? <==> b.Some?) && (a.Some? ==> b.value == Twin(a.value))
    decreases |events|
  {
    TwinLoads(j);
    if events != [] {
      StepKeepsTwins(j, events[0]);
      var next := Apply(DependencyFree, j, events[0]);
      if next.Some? {
        TwinsStayTwins(next.value, events[1..]);
      }
    }
  }

  /* ---------- what every run keeps ---------- */

  /** Nothing generation-bound before a generation is prepared, and the boundary is up exactly
      from the state that raises it. */
  predicate Ordered(machine: Machine, j: Journal) {
    && (j.state in {Locked, Recovering, Inspected, NoopVerified} ==> j.prepared.None?)
    && (!Terminal(j.state) ==>
          (j.irreversible <==> NeedsBoundary(j.state) || (machine.Packaged? && Ahead(j))))
  }

  lemma {:induction false} StepKeepsOrdered(machine: Machine, j: Journal, event: Event)
    requires Ordered(machine, j) && Apply(machine, j, event).Some?
    ensures Ordered(machine, Apply(machine, j, event).value)
    ensures Apply(machine, j, event).value.mode == j.mode
  {
    var j' := Apply(machine, j, event).value;
    if event.Advance? {
      AdvanceKeepsOrdered(machine, j, j', event);
    }
  }

  lemma {:induction false} AdvanceKeepsOrdered(machine: Machine, j: Journal, j': Journal, event: Event)
    requires Ordered(machine, j) && event.Advance? && Stepped(machine, j, event) == Some(j')
    requires GenerationAccepted(machine, j') && (NeedsBoundary(j'.state) ==> j'.irreversible)
    ensures Ordered(machine, j')
  {
  }

  lemma {:induction false} ApplyAllKeeps(machine: Machine, j: Journal, events: seq<Event>)
    requires Ordered(machine, j) && ApplyAll(machine, j, events).Some?
    ensures Ordered(machine, ApplyAll(machine, j, events).value)
    ensures ApplyAll(machine, j, events).value.mode == j.mode
    decreases |events|
  {
    if events != [] {
      var next := Apply(machine, j, events[0]);
      StepKeepsOrdered(machine, j, events[0]);
      ApplyAllKeeps(machine, next.value, events[1..]);
    }
  }

  /** The journals a machine persists, one after the other, from creation. */
  ghost predicate History(machine: Machine, run: seq<Journal>) {
    && |run| > 0
    && Created(run[0]) && Loads(machine, run[0])
    && forall i: nat :: 0 < i < |run| ==> FollowsAt(machine, run, i)
  }

  ghost predicate FollowsAt(machine: Machine, run: seq<Journal>, i: nat)
    requires 0 < i < |run|
  {
    Follows(machine, run[i - 1], run[i])
  }

  ghost predicate Follows(machine: Machine, j: Journal, j': Journal) {
    exists event :: Apply(machine, j, event) == Some(j')
  }

  lemma {:induction false} HistoryIsOrdered(machine: Machine, run: seq<Journal>, i: nat)
    requires History(machine, run) && i < |run|
    ensures Ordered(machine, run[i]) && Loads(machine, run[i])
  {
    if i > 0 {
      var j, j' := run[i - 1], run[i];
      HistoryIsOrdered(machine, run, i - 1);
      assert Ordered(machine, j);
      assert FollowsAt(machine, run, i);
      var event :| Apply(machine, j, event) == Some(j');
      StepKeepsOrdered(machine, j, event);
    }
  }

  /** The only state from which a state past `activating` is entered, whatever the table lists. */
  predicate EnteredFrom(from: State, to: State) {
    match to
    case Activated => from == Activating
    case MigrationStarted => from == Activated
    case Migrated => from == MigrationStarted
    case Starting => from == Migrated
    case ServiceVerified => from == Migrated || from == Starting
    case Committed => from == ServiceVerified
    case _ => true
  }

  /** What one surviving event may change. */
  lemma {:induction false} EventEffect(machine: Machine, j: Journal, event: Event)
    requires Ordered(machine, j) && Apply(machine, j, event).Some?
    ensures var j' := Apply(machine, j, event).value;
            && (j'.state == j.state || EnteredFrom(j.state, j'.state))
            && (j'.state != Prepared ==> j'.prepared == j.prepared)
  {
    var j' := Apply(machine, j, event).value;
    if event.Advance? {
      AdvanceEffect(machine, j, j', event);
    }
  }

  lemma {:induction false} AdvanceEffect(machine: Machine, j: Journal, j': Journal, event: Event)
    requires Ordered(machine, j) && event.Advance? && Stepped(machine, j, event) == Some(j')
    requires GenerationAccepted(machine, j') && (NeedsBoundary(j'.state) ==> j'.irreversible)
    ensures j'.state == j.state || EnteredFrom(j.state, j'.state)
  {
  }

  lemma EventExtends(machine: Machine, j: Journal, event: Event)
    requires Apply(machine, j, event).Some?
    ensures Extends(j, Apply(machine, j, event).value)
  {
    SteppedExtends(machine, j, event);
  }

  lemma {:induction false} SteppedExtends(machine: Machine, j: Journal, event: Event)
    requires Stepped(machine, j, event).Some?
    ensures Extends(j, Stepped(machine, j, event).value)
  {
  }

  /** Along a history nothing is taken back: the boundary stays up, recorded phases and owned
      identities keep their values, and a declared path keeps its name and kind. */
  predicate Extends(j: Journal, j': Journal) {
    && j'.mode == j.mode && j'.invocation == j.invocation && j'.fingerprint == j.fingerprint
    && (j.irreversible ==> j'.irreversible)
    && (forall name :: name in j.phases ==> name in j'.phases && j'.phases[name] == j.phases[name])
    && j'.owned.Keys == j.owned.Keys
    && (forall name :: name in j.owned ==>
          && j'.owned[name].path == j.owned[name].path
          && j'.owned[name].kind == j.owned[name].kind
          && (j.owned[name].identity.Some? ==> j'.owned[name].identity == j.owned[name].identity))
  }

  /** The outline of a history: what each persisted journal keeps of the one before. */
  predicate Linked(j: Journal, j': Journal) {
    && (j'.state == j.state || EnteredFrom(j.state, j'.state))
    && (j'.state != Prepared ==> j'.prepared == j.prepared)
    && Extends(j, j')
  }

  predicate LinkedAt(run: seq<Journal>, i: nat)
    requires 0 < i < |run|
  {
    Linked(run[i - 1], run[i])
  }

  predicate Chain(run: seq<Journal>) {
    && |run| > 0
    && run[0].state == Locked && run[0].prepared.None?
    && forall i: nat :: 0 < i < |run| ==> LinkedAt(run, i)
  }

  lemma {:induction false} HistoryIsChain(machine: Machine, run: seq<Journal>)
    requires History(machine, run)
    ensures Chain(run)
  {
    forall i: nat | i < |run|
      ensures Ordered(machine, run[i])
    {
      HistoryIsOrdered(machine, run, i);
    }
    StepsAreLinked(machine, run);
  }

  lemma StepsAreLinked(machine: Machine, run: seq<Journal>)
    requires forall i: nat :: i < |run| ==> Ordered(machine, run[i])
    requires forall i: nat :: 0 < i < |run| ==> FollowsAt(machine, run, i)
    ensures forall i: nat :: 0 < i < |run| ==> LinkedAt(run, i)
  {
    forall i: nat | 0 < i < |run|
      ensures LinkedAt(run, i)
    {
      assert FollowsAt(machine, run, i);
      StepIsLinked(machine, run[i - 1], run[i]);
    }
  }

  lemma StepIsLinked(machine: Machine, j: Journal, j': Journal)
    requires Ordered(machine, j) && Follows(machine, j, j')
    ensures Linked(j, j')
  {
    var event :| Apply(machine, j, event) == Some(j');
    EventEffect(machine, j, event);
    EventExtends(machine, j, event);
  }

  /** A recorded generation was recorded by passing through `prepared`. */
  lemma {:induction false} PreparedWasVisited(run: seq<Journal>, i: nat) returns (k: nat)
    requires Chain(run) && i < |run| && run[i].prepared.Some?
    ensures k <= i && run[k].state == Prepared
  {
    k := i;
    if run[i].state != Prepared {
      assert LinkedAt(run, i);
      k := PreparedWasVisited(run, i - 1);
    }
  }

  /** A journal past `activating` came through a state that may precede it. */
  lemma {:induction false} Came(run: seq<Journal>, i: nat) returns (k: nat)
    requires Chain(run) && i < |run| && (NeedsBoundary(run[i].state) || run[i].state == Activated)
    ensures k < i && run[k].state != run[i].state && EnteredFrom(run[k].state, run[i].state)
  {
    assert LinkedAt(run, i);
    if run[i - 1].state != run[i].state {
      k := i - 1;
    } else {
      k := Came(run, i - 1);
    }
  }

  /** Every history that reaches `committed` passed the six milestones in this order, whichever
      program wrote it and despite the shortcuts of the transition table. */
  lemma {:induction false} CommittedPassedEveryMilestone(machine: Machine, run: seq<Journal>, i: nat)
    returns (prepared: nat, activating: nat, activated: nat, started: nat, migrated: nat, verified: nat)
    requires History(machine, run) && i < |run| && run[i].state == Committed
    ensures prepared < activating < activated < started < migrated < verified < i
    ensures run[prepared].state == Prepared && run[activating].state == Activating
    ensures run[activated].state == Activated && run[started].state == MigrationStarted
    ensures run[migrated].state == Migrated && run[verified].state == ServiceVerified
  {
    HistoryIsChain(machine, run);
    activating, activated, started, migrated, verified := LaterMilestones(run, i);
    GenerationIsRecorded(machine, run, activating);
    prepared := PreparedWasVisited(run, activating);
  }

  lemma {:induction false} LaterMilestones(run: seq<Journal>, i: nat)
    returns (activating: nat, activated: nat, started: nat, migrated: nat, verified: nat)
    requires Chain(run) && i < |run| && run[i].state == Committed
    ensures activating < activated < started < migrated < verified < i
    ensures run[activating].state == Activating && run[activated].state == Activated
    ensures run[started].state == MigrationStarted
    ensures run[migrated].state == Migrated && run[verified].state == ServiceVerified
  {
    verified := Came(run, i);
    migrated := Came(run, verified);
    if run[migrated].state == Starting {
      migrated := Came(run, migrated);
    }
    started := Came(run, migrated);
    activated := Came(run, started);
    activating := Came(run, activated);
  }

  lemma {:induction false} GenerationIsRecorded(machine: Machine, run: seq<Journal>, i: nat)
    requires History(machine, run) && i < |run| && NeedsGeneration(run[i].state)
    ensures run[i].prepared.Some?
  {
    HistoryIsOrdered(machine, run, i);
  }

  lemma {:induction false} ChainOnlyExtends(run: seq<Journal>, i: nat, k: nat)
    requires Chain(run) && i <= k < |run|
    ensures Extends(run[i], run[k])
  {
    if i < k {
      ChainOnlyExtends(run, i, k - 1);
      assert LinkedAt(run, k);
      ExtendsIsTransitive(run[i], run[k - 1], run[k]);
    }
  }

  lemma {:induction false} HistoryOnlyExtends(machine: Machine, run: seq<Journal>, i: nat, k: nat)
    requires History(machine, run) && i <= k < |run|
    ensures run[k].mode == run[i].mode && run[k].invocation == run[i].invocation && run[k].fingerprint == run[i].fingerprint
    ensures run[i].irreversible ==> run[k].irreversible
    ensures forall name :: name in run[i].phases ==> name in run[k].phases && run[k].phases[name] == run[i].phases[name]
    ensures run[k].owned.Keys == run[i].owned.Keys
    ensures forall name :: name in run[i].owned ==>
              var was, now := run[i].owned[name], run[k].owned[name];
              && now.path == was.path && now.kind == was.kind
              && (was.identity != None ==> now.identity == was.identity)
  {
    HistoryIsChain(machine, run);
    ChainOnlyExtends(run, i, k);
  }

  lemma ExtendsIsTransitive(a: Journal, b: Journal, c: Journal)
    requires Extends(a, b) && Extends(b, c)
    ensures Extends(a, c)
  {
  }

  /** Once `migration_started` has been journaled no owned path is ever discarded, and while
      the journal is unfinished the only recovery is forward. */
  lemma {:induction false} NoDiscardAfterMigration(machine: Machine, run: seq<Journal>, i: nat, k: nat)
    requires History(machine, run) && i <= k < |run| && run[i].state == MigrationStarted
    ensures Apply(machine, run[k], DiscardOwned).None?
    ensures RecoveryMode(run[k]) == (if Terminal(run[k].state) then NoRecovery else Forward)
  {
    HistoryIsOrdered(machine, run, i);
    HistoryOnlyExtends(machine, run, i, k);
  }

  /** A packaged history never asks for a rollback. */
  lemma {:induction false} PackagedNeverRollsBack(run: seq<Journal>, i: nat)
    requires History(Packaged, run) && i < |run|
    ensures RecoveryMode(run[i]) != Rollback
  {
    HistoryIsOrdered(Packaged, run, i);
  }

  /* ---------- the step relation of a history, exactly ---------- */

  /** Only a recovered journal names the state it was recovered from, and a recorded generation
      is never empty. */
  predicate Settled(machine: Machine, j: Journal) {
    && (j.recoveredFrom.Some? <==> j.state == Recovered)
    && (j.prepared.Some? ==> j.prepared.value != "")
    && (machine.DependencyFree? && j.prepared.Some? ==> IsSha256(j.prepared.value))
  }

  lemma CreatedIsSettled(machine: Machine, j: Journal)
    requires Created(j)
    ensures Settled(machine, j)
  {
  }

  lemma {:induction false} StepKeepsSettled(machine: Machine, j: Journal, event: Event)
    requires Settled(machine, j) && Apply(machine, j, event).Some?
    ensures Settled(machine, Apply(machine, j, event).value)
  {
  }

  lemma {:induction false} HistoryIsSettled(machine: Machine, run: seq<Journal>, i: nat)
    requires History(machine, run) && i < |run|
    ensures Settled(machine, run[i])
  {
    if i == 0 {
      CreatedIsSettled(machine, run[0]);
    } else {
      var j, j' := run[i - 1], run[i];
      HistoryIsSettled(machine, run, i - 1);
      assert Settled(machine, j);
      assert FollowsAt(machine, run, i);
      var event :| Apply(machine, j, event) == Some(j');
      StepKeepsSettled(machine, j, event);
    }
  }

  /** The edges a history can take: the table's shortcuts out of `recovering` and
      `noop_verified` never survive, and `activating` is entered only with a generation. */
  predicate Edge(machine: Machine, j: Journal, target: State, generation: string) {
    match j.state
    case Locked => target == Recovering || target == Inspected
    case Recovering => target == Inspected
    case Inspected => target == NoopVerified || target == Preparing || target == Fencing
    case Preparing => target == Prepared && (if machine.DependencyFree? then IsSha256(generation) else generation != "")
    case Prepared => target == Fencing || target == Activating
    case Fencing => target == Fenced
    case Fenced => target == Preparing || (target == Activating && j.prepared.Some?)
    case Activating => target == Activated
    case Activated => target == MigrationStarted
    case MigrationStarted => target == Migrated
    case Migrated => target == Starting || target == ServiceVerified
    case Starting => target == ServiceVerified
    case ServiceVerified => target == Committed
    case _ => false
  }

  /** The boundary is up by state, mode and program alone. */
  predicate Past(machine: Machine, mode: Mode, state: State) {
    || state in {MigrationStarted, Migrated, Starting, ServiceVerified, Committed}
    || (machine == Packaged && mode != Full && state in {Activating, Activated})
  }

  lemma {:induction false} AdvanceSurvivesIff(
    machine: Machine, run: seq<Journal>, i: nat, target: State, generation: string)
    requires History(machine, run) && i < |run|
    ensures var j := run[i];
            Apply(machine, j, Advance(target, generation)) ==
              if Edge(machine, j, target, generation)
              then Some(j.(state := target,
                           prepared := if target == Prepared then Some(generation) else j.prepared,
                           irreversible := Past(machine, j.mode, target)))
              else None
  {
    HistoryIsOrdered(machine, run, i);
    HistoryIsSettled(machine, run, i);
    AdvanceIsExact(machine, run[i], target, generation);
  }

  lemma {:induction false} AdvanceIsExact(machine: Machine, j: Journal, target: State, generation: string)
    requires Ordered(machine, j) && Settled(machine, j) && Loads(machine, j)
    ensures Apply(machine, j, Advance(target, generation)) ==
              if Edge(machine, j, target, generation)
              then Some(j.(state := target,
                           prepared := if target == Prepared then Some(generation) else j.prepared,
                           irreversible := Past(machine, j.mode, target)))
              else None
  {
    AdvanceLoadsIff(machine, j, target, generation);
    if target in Transitions(j.state) {
      AdvanceIsAcceptedIff(machine, j, target, generation);
    } else {
      EdgesAreListed(machine, j, target, generation);
    }
  }

  lemma EdgesAreListed(machine: Machine, j: Journal, target: State, generation: string)
    ensures Edge(machine, j, target, generation) ==> target in Transitions(j.state)
  {
  }

  lemma {:induction false} AdvanceIsAcceptedIff(machine: Machine, j: Journal, target: State, generation: string)
    requires Ordered(machine, j) && Settled(machine, j)
    requires GenerationAccepted(machine, j) && (NeedsBoundary(j.state) ==> j.irreversible)
    requires target in Transitions(j.state)
    ensures var next := Stepped(machine, j, Advance(target, generation)).value;
            && (GenerationAccepted(machine, next) && (NeedsBoundary(target) ==> next.irreversible)
                <==> Edge(machine, j, target, generation))
            && (Edge(machine, j, target, generation) ==> (next.irreversible <==> Past(machine, j.mode, target)))
  {
  }

  lemma {:induction false} AdvanceLoadsIff(machine: Machine, j: Journal, target: State, generation: string)
    requires Loads(machine, j)
    ensures var next := Stepped(machine, j, Advance(target, generation));
            Apply(machine, j, Advance(target, generation)) ==
              if next.Some? && GenerationAccepted(machine, next.value) && (NeedsBoundary(target) ==> next.value.irreversible)
              then next else None
  {
  }

  /** What recovery a journal asks for, by state, mode and program. */
  lemma {:induction false} RecoveryIsByState(machine: Machine, run: seq<Journal>, i: nat)
    requires History(machine, run) && i < |run|
    ensures RecoveryMode(run[i]) ==
              match run[i].state
              case Committed | Recovered => NoRecovery
              case MigrationStarted | Migrated | Starting | ServiceVerified => Forward
              case Activating | Activated =>
                if run[i].mode == Full then Discard else if machine == Packaged then Forward else Rollback
              case _ => Discard
  {
    HistoryIsOrdered(machine, run, i);
  }

  /** A phase is recorded once, under a plain name, with a digest, while the journal is open. */
  lemma {:induction false} PhaseSurvivesIff(machine: Machine, run: seq<Journal>, i: nat, phase: string, identity: string)
    requires History(machine, run) && i < |run|
    ensures var j := run[i];
            Apply(machine, j, RecordPhase(phase, identity)) ==
              if && j.state != Committed && j.state != Recovered
                 && 1 <= |phase| && (machine == DependencyFree ==> |phase| <= 160)
                 && (forall c :: c in phase ==> 'a' <= c <= 'z' || 'A' <= c <= 'Z' || '0' <= c <= '9' || c in "_.-")
                 && |identity| == 64 && (forall c :: c in identity ==> c in "0123456789abcdef")
                 && (phase in j.phases ==> j.phases[phase] == identity)
              then Some(j.(phases := j.phases[phase := identity]))
              else None
  {
    HistoryIsOrdered(machine, run, i);
    PhaseIsExact(machine, run[i], phase, identity);
    IdentifierIff(phase);
    Sha256Iff(identity);
  }

  lemma {:induction false} PhaseIsExact(machine: Machine, j: Journal, phase: string, identity: string)
    requires Loads(machine, j)
    ensures Apply(machine, j, RecordPhase(phase, identity)) ==
              if Terminal(j.state) || !NameAccepted(machine, phase) || !IsSha256(identity)
                 || (phase in j.phases && j.phases[phase] != identity)
              then None else Some(j.(phases := j.phases[phase := identity]))
  {
    var phases := j.phases[phase := identity];
    assert phase in phases;
    if NameAccepted(machine, phase) && IsSha256(identity) {
      assert PhasesAccepted(machine, phases);
    }
  }

  /** What an identity must be for a path declared of this kind. */
  predicate Binds(kind: OwnedKind, observed: Identity) {
    match observed.fileType
    case DirectoryType => kind == OwnedDirectory && observed.content == None
    case FileType => (kind == OwnedFile || kind == OwnedFileOrSymlink) && observed.content != None
    case SymlinkType => (kind == OwnedSymlink || kind == OwnedFileOrSymlink) && observed.content != None
  }

  lemma WellBoundIff(item: Owned, observed: Identity)
    requires WellRecorded(item)
    ensures WellRecorded(item.(identity := Some(observed))) <==> Binds(item.kind, observed)
  {
  }

  /** Only the dependency-free program binds an identity, once, of the declared kind. */
  lemma {:induction false} OwnedSurvivesIff(machine: Machine, run: seq<Journal>, i: nat, name: string, observed: Identity)
    requires History(machine, run) && i < |run|
    ensures var j := run[i];
            Apply(machine, j, RecordOwned(name, observed)) ==
              if && machine == DependencyFree && j.state != Committed && j.state != Recovered
                 && name in j.owned
                 && (j.owned[name].identity == None || j.owned[name].identity == Some(observed))
                 && Binds(j.owned[name].kind, observed)
              then Some(j.(owned := j.owned[name := j.owned[name].(identity := Some(observed))]))
              else None
  {
    HistoryIsOrdered(machine, run, i);
    var j := run[i];
    OwnedIsExact(machine, j, name, observed);
    if name in j.owned {
      assert WellRecorded(j.owned[name]);
      WellBoundIff(j.owned[name], observed);
    }
  }

  lemma {:induction false} OwnedIsExact(machine: Machine, j: Journal, name: string, observed: Identity)
    requires Loads(machine, j)
    ensures Apply(machine, j, RecordOwned(name, observed)) ==
              if && machine == DependencyFree && !Terminal(j.state) && name in j.owned
                 && (j.owned[name].identity == None || j.owned[name].identity == Some(observed))
                 && WellRecorded(j.owned[name].(identity := Some(observed)))
              then Some(j.(owned := j.owned[name := j.owned[name].(identity := Some(observed))]))
              else None
  {
    if name in j.owned {
      BindingKeepsOwned(machine, j.owned, name, observed);
    }
  }

  lemma {:induction false} BindingKeepsOwned(machine: Machine, owned: map<string, Owned>, name: string, observed: Identity)
    requires OwnedAccepted(machine, owned) && name in owned
    ensures var item := owned[name].(identity := Some(observed));
            OwnedAccepted(machine, owned[name := item]) <==> WellRecorded(item)
  {
    var bound := owned[name := owned[name].(identity := Some(observed))];
    assert bound.Keys == owned.Keys;
    assert |bound| == |bound.Keys| && |owned| == |owned.Keys|;
    assert name in bound;
  }

  /** An unfinished journal ends in `recovered`, naming the state it was left in: by the
      dependency-free discard of a full transaction before migration, or by the packaged
      completion. */
  lemma {:induction false} RecoverySurvivesIff(machine: Machine, run: seq<Journal>, i: nat)
    requires History(machine, run) && i < |run|
    ensures var j := run[i];
            && Apply(machine, j, DiscardOwned) ==
                 (if machine == DependencyFree && j.mode == Full
                     && j.state !in {MigrationStarted, Migrated, Starting, ServiceVerified, Committed, Recovered}
                  then Some(j.(state := Recovered, recoveredFrom := Some(j.state))) else None)
            && Apply(machine, j, CompleteRecovery) ==
                 (if machine == Packaged && j.state != Committed && j.state != Recovered
                  then Some(j.(state := Recovered, recoveredFrom := Some(j.state))) else None)
  {
    HistoryIsOrdered(machine, run, i);
    HistoryIsSettled(machine, run, i);
    RecoveryIsByState(machine, run, i);
    RecoveredLoads(machine, run[i]);
  }

  lemma RecoveredLoads(machine: Machine, j: Journal)
    requires Loads(machine, j)
    ensures Loads(machine, j.(state := Recovered, recoveredFrom := Some(j.state)))
  {
  }
}
