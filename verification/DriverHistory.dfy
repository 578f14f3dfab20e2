/**
 The journal along whole runs of the replacement driver, crashes and recoveries included: it
 passes every state in the script's order, and nothing on the host changes before the worker
 was fenced.
 */
module DriverHistory {
  import opened Objects
  import J = Journals
  import F = FiveLinks
  import R = RepositoryExchange
  import opened Driver

  /** The order of the script; `starting` is passed only where the service restarts. */
  function Rank(state: J.State): nat {
    match state
    case Locked => 0
    case Inspected => 1
    case Preparing => 2
    case Prepared => 3
    case Fencing => 4
    case Fenced => 5
    case Activating => 6
    case Activated => 7
    case MigrationStarted => 8
    case Migrated => 9
    case Starting => 10
    case ServiceVerified => 11
    case Committed => 12
    case _ => 13
  }

  predicate NextState(from: J.State, to: J.State) {
    Rank(to) <= 12 && (Rank(to) == Rank(from) + 1 || (from == J.Migrated && to == J.ServiceVerified))
  }

  /** What one instruction or crash makes of the journal on disk. */
  predicate Moves(before: Option<J.Journal>, after: Option<J.Journal>) {
    || after == before
    || (before.None? && after.Some? && after.value.state == J.Locked)
    || (&& before.Some? && after.Some?
        && (|| after.value.state == before.value.state
            || NextState(before.value.state, after.value.state)
            || (after.value.state == J.Recovered && after.value.recoveredFrom == Some(before.value.state)))
        && (after.value.state != J.Recovered || before.value.state != J.Recovered))
  }

  lemma {:induction false} StepMovesTheJournal(tx: Transaction, s: State, choice: Choice)
    requires Planned(tx) && Invariant(tx, s)
    ensures Moves(s.disk.journal, Step(tx, s, choice).disk.journal)
  {
    match s.pc
    case Create =>
    case Reach(state) =>
      ReachFollows(tx, s);
      AdvanceMoves(s, state, tx.fingerprint, After(state, choice.restarts));
    case RecordManifest =>
      RecordMoves(s, tx.manifest, Reach(J.Prepared));
    case Complete =>
      CompleteMoves(s);
    case _ =>
      OtherKeepsTheJournal(tx, s, choice);
  }

  lemma ReachFollows(tx: Transaction, s: State)
    requires Planned(tx) && Invariant(tx, s) && s.pc.Reach?
    ensures s.disk.journal.Some? && Precedes(s.disk.journal.value.state, s.pc.state)
  {
  }

  lemma AdvanceMoves(s: State, state: J.State, generation: string, next: Pc)
    requires s.disk.journal.Some? && Precedes(s.disk.journal.value.state, state)
    ensures Moves(s.disk.journal, Journaled(s, J.Advance(state, generation), next).disk.journal)
  {
  }

  lemma RecordMoves(s: State, identity: string, next: Pc)
    ensures Moves(s.disk.journal, Journaled(s, J.RecordPhase(MANIFEST_PHASE, identity), next).disk.journal)
  {
  }

  lemma CompleteMoves(s: State)
    requires s.disk.journal.Some? && s.disk.journal.value.recoveredFrom.Some? ==> J.Terminal(s.disk.journal.value.state)
    ensures Moves(s.disk.journal, Journaled(s, J.CompleteRecovery, Finished).disk.journal)
  {
  }

  lemma OtherKeepsTheJournal(tx: Transaction, s: State, choice: Choice)
    requires F.Shaped(tx.plan) && |s.disk.links| == F.LINKS
    requires !s.pc.Create? && !s.pc.Reach? && !s.pc.RecordManifest? && !s.pc.Complete?
    ensures Step(tx, s, choice).disk.journal == s.disk.journal
  {
  }

  ghost predicate MovesAt(run: seq<State>, i: nat)
    requires 0 < i < |run|
  {
    Moves(run[i - 1].disk.journal, run[i].disk.journal)
  }

  lemma {:induction false} RunMovesTheJournal(tx: Transaction, run: seq<State>, i: nat)
    requires Planned(tx) && Run(tx, run) && 0 < i < |run|
    ensures MovesAt(run, i)
  {
    RunKeepsInvariant(tx, run, i - 1);
    assert NextAt(tx, run, i);
    var s, s' := run[i - 1], run[i];
    if Executes(tx, s, s') {
      var choice :| Fresh(s, choice) && s' == Step(tx, s, choice);
      StepMovesTheJournal(tx, s, choice);
    } else {
      assert Crashes(s, s');
    }
  }

  predicate InState(s: State, state: J.State) { s.disk.journal.Some? && s.disk.journal.value.state == state }

  /** A recorded state, or the one a recovered journal was left in. */
  predicate Reached(s: State, state: J.State) {
    s.disk.journal.Some? && (s.disk.journal.value.state == state
                             || (s.disk.journal.value.state == J.Recovered && s.disk.journal.value.recoveredFrom == Some(state)))
  }

  /** A journal that reached a state passed every earlier state of the script, in order of time. */
  lemma {:induction false} EveryStateIsPassed(tx: Transaction, run: seq<State>, i: nat, reached: J.State, earlier: J.State)
    returns (k: nat)
    requires Planned(tx) && Run(tx, run) && i < |run|
    requires Reached(run[i], reached) && Rank(reached) <= 12
    requires Rank(earlier) < Rank(reached) && earlier != J.Starting
    ensures k < i && InState(run[k], earlier)
  {
    k := 0;
    RunMovesTheJournal(tx, run, i);
    var before := run[i - 1].disk.journal;
    if Reached(run[i - 1], reached) {
      k := EveryStateIsPassed(tx, run, i - 1, reached, earlier);
    } else {
      assert before.Some? && NextState(before.value.state, reached);
      if before.value.state == earlier {
        k := i - 1;
      } else {
        k := EveryStateIsPassed(tx, run, i - 1, before.value.state, earlier);
      }
    }
  }

  /** A recovered journal names the state that was on disk. */
  lemma {:induction false} RecoveredFromIsRanked(tx: Transaction, run: seq<State>, i: nat)
    requires Planned(tx) && Run(tx, run) && i < |run| && InState(run[i], J.Recovered)
    ensures var from := run[i].disk.journal.value.recoveredFrom; from.Some? && Rank(from.value) <= 12
  {
    RunMovesTheJournal(tx, run, i);
    if InState(run[i - 1], J.Recovered) {
      RecoveredFromIsRanked(tx, run, i - 1);
    } else {
      RunKeepsInvariant(tx, run, i - 1);
    }
  }

  /** Nothing on the host differs from what was captured unless, earlier in the run, the journal
      said `fenced` while the host was still as captured. */
  lemma {:induction false} MutationsAreFenced(tx: Transaction, run: seq<State>, i: nat) returns (k: nat)
    requires Planned(tx) && Run(tx, run) && i < |run|
    requires !AsCaptured(tx, run[i].disk)
    ensures k < i && InState(run[k], J.Fenced) && AsCaptured(tx, run[k].disk)
  {
    CapturedUnlessActivated(tx, run, i);
    var j := run[i].disk.journal.value;
    if j.state == J.Recovered {
      RecoveredFromIsRanked(tx, run, i);
    }
    var reached := if j.state == J.Recovered then j.recoveredFrom.value else j.state;
    k := EveryStateIsPassed(tx, run, i, reached, J.Fenced);
    CapturedWhileFenced(tx, run, k);
  }

  lemma {:induction false} CapturedUnlessActivated(tx: Transaction, run: seq<State>, i: nat)
    requires Planned(tx) && Run(tx, run) && i < |run| && !AsCaptured(tx, run[i].disk)
    ensures run[i].disk.journal.Some?
    ensures var j := run[i].disk.journal.value;
            if j.state == J.Recovered then j.recoveredFrom.Some? && !BeforeActivation(j.recoveredFrom.value)
            else !BeforeActivation(j.state) && Rank(j.state) <= 12
  {
    RunKeepsInvariant(tx, run, i);
  }

  lemma {:induction false} CapturedWhileFenced(tx: Transaction, run: seq<State>, k: nat)
    requires Planned(tx) && Run(tx, run) && k < |run| && InState(run[k], J.Fenced)
    ensures AsCaptured(tx, run[k].disk)
  {
    RunKeepsInvariant(tx, run, k);
  }

  /** The checks the driver makes of a disk, whatever the disk holds. */
  lemma EveryCheckIsMade(tx: Transaction, s: State, choice: Choice)
    requires |tx.plan.befores| == 5 && |tx.plan.targets| == 5 && |s.disk.links| == 5
    ensures s.pc.VerifyLinks? ==>
              (Step(tx, s, choice).pc.Stopped? <==>
                 exists i :: 1 <= i <= 4 && (s.disk.links[i].live.None? || s.disk.links[i].live.value.body != Link(tx.plan.targets[i])))
    ensures s.pc.VerifyCurrent? ==>
              (Step(tx, s, choice).pc.Stopped? <==>
                 s.disk.links[0].live.None? || s.disk.links[0].live.value.body != Link(tx.plan.targets[0]))
    ensures s.pc.Dispatch? && s.disk.journal.Some? && J.Loads(J.Packaged, s.disk.journal.value) ==>
              var j := s.disk.journal.value;
              match j.state
              case Committed | Recovered => Step(tx, s, choice).pc.Finished?
              case MigrationStarted | Migrated | Starting | ServiceVerified => Step(tx, s, choice).pc.VerifyCurrent?
              case Activating | Activated =>
                (Step(tx, s, choice).pc.Activate? <==>
                   && j.irreversible && j.prepared == Some(tx.fingerprint)
                   && MANIFEST_PHASE in j.phases && j.phases[MANIFEST_PHASE] == tx.manifest)
              case _ => !j.irreversible ==> Step(tx, s, choice).pc.Complete?
  {
  }
}
