/**
 The replacement driver (relay-only and component-upgrade transactions) from the creation
 of its journal to the commit, composed with the link and repository protocols, with a
 crash possible before every instruction and the recovery dispatch that follows it.
 The write-ahead discipline is what makes every crash state recoverable.
 */
module Driver {
  import opened Objects
  import opened Identifiers
  import L = LinkExchange
  import F = FiveLinks
  import P = Repositories
  import R = RepositoryExchange
  import J = Journals

  /** What one transaction persists before it starts: its plan and its identities. */
  datatype Transaction = Transaction(
    plan: F.Plan,
    repository: R.Host,
    original: R.RepoFile,
    invocation: string,
    fingerprint: string,
    manifest: string,
    mode: J.Mode)

  /** Everything that survives a crash. */
  datatype Disk = Disk(journal: Option<J.Journal>, links: seq<L.Pair>, repos: R.Pair)

  datatype Pc =
    | Create
    | Reach(state: J.State)
    | RecordManifest
    | Activate(index: nat, link: L.Pc, recovering: bool)
    | Register(repo: R.Pc, recovering: bool)
    | VerifyLinks(recovering: bool)
    | Dispatch
    | VerifyCurrent
    | Complete
    | Finished
    | Stopped

  datatype State = State(disk: Disk, pc: Pc)

  datatype Choice = Choice(link: L.Choice, repo: R.Choice, restarts: bool)

  const MANIFEST_PHASE: string := "prepared_manifest"

  /** What planning establishes: a captured plan, and a `repos.yaml` that it could read. Whether
      that file converges is not checked before activation. */
  ghost predicate Planned(tx: Transaction) {
    && F.Captured(tx.plan)
    && R.Readied(tx.repository, tx.original)
    && (tx.mode == J.RelayOnly || tx.mode == J.ComponentUpgrade)
    && IsIdentifier(tx.invocation) && IsSha256(tx.fingerprint) && IsSha256(tx.manifest)
  }

  /** The registration can be finished: no previous path is registered twice, and the converged
      file stays within the read bound. */
  ghost predicate Completable(tx: Transaction) { R.Completable(tx.repository, tx.original) }

  /** A host that was captured: every link present, leading through an older generation. */
  function SomeLink(inode: nat, target: string): Option<Object> {
    Some(Object(1, inode, 0, |target|, 0, 0, Link(target)))
  }

  function SomePlan(): F.Plan {
    F.Plan([SomeLink(11, "old"), SomeLink(12, "r"), SomeLink(13, "c"), SomeLink(14, "j"), SomeLink(15, "m")],
           ["new", "r", "c", "j", "m"], {"old", "new"})
  }

  lemma SomePlanIsCaptured()
    ensures F.Captured(SomePlan())
  {
    var plan := SomePlan();
    forall i | 0 <= i < F.LINKS
      ensures L.Recoverable(F.Settled(plan, i))
    {
      assert plan.befores[i].Some? && CleanText(plan.targets[i]);
    }
  }

  const SOME_CONTEXT: P.Context := P.Context("/managed", {"/managed"}, None, {}, map["/p" := "/p"], {})

  function SomeTransaction(repos: seq<string>): Transaction {
    var digest, text := seq(64, _ => 'a'), seq(64, _ => 'x');
    var original := R.RepoFile(1, 1, 0, 0, 0, P.Yaml(P.Document(P.Strings(repos), ""), P.Handwritten(text)));
    Transaction(SomePlan(), R.HostOf(SOME_CONTEXT, R.REPOSITORIES_MAXIMUM), original, "run-1", digest, digest, J.RelayOnly)
  }

  /** A transaction that changes both its links and `repos.yaml`, and can be finished. */
  lemma SomeTransactionFinishes()
    ensures var tx := SomeTransaction(["/operator", "/p"]);
            && Planned(tx) && P.Inspected(SOME_CONTEXT, tx.original.payload)
            && Completable(tx) && R.Changes(tx.repository, tx.original)
  {
    var repos := ["/operator", "/p"];
    SomePlanIsCaptured();
    R.HostIsLawful(SOME_CONTEXT, R.REPOSITORIES_MAXIMUM);
    assert repos[1..] == ["/p"] && repos[2..] == [] && ["/p"][1..] == [];
    assert P.Matches({"/managed"}, repos) == [];
    assert P.Registrations(SOME_CONTEXT, "/p", repos) == 1;
    assert P.Operators(SOME_CONTEXT, repos) == ["/operator"];
    assert P.Updated(SOME_CONTEXT, repos) == ["/managed", "/operator"];
    assert ["/managed", "/operator"][1..] == ["/operator"] && ["/operator"][1..] == [];
    assert P.ListSize(["/managed", "/operator"]) == 23;
  }

  /** The input that planning accepts and registration refuses: a superseded path listed twice. */
  lemma SomeTransactionNeverFinishes()
    ensures var tx := SomeTransaction(["/p", "/p"]);
            Planned(tx) && P.Inspected(SOME_CONTEXT, tx.original.payload) && !Completable(tx)
  {
    var repos := ["/p", "/p"];
    SomePlanIsCaptured();
    R.HostIsLawful(SOME_CONTEXT, R.REPOSITORIES_MAXIMUM);
    assert repos[1..] == ["/p"] && ["/p"][1..] == [];
    assert P.Matches({"/managed"}, repos) == [];
    assert P.Registrations(SOME_CONTEXT, "/p", repos) == 2;
    assert "/p" in SOME_CONTEXT.previous.Values;
  }

  function Opening(tx: Transaction): Disk
    requires F.Shaped(tx.plan)
  {
    Disk(None, F.Original(tx.plan), R.Pair(Some(tx.original), None))
  }

  function NewJournal(tx: Transaction): J.Journal {
    J.Journal(tx.invocation, tx.fingerprint, tx.mode, J.Locked, None, None, false, map[],
              map["locked" := tx.fingerprint])
  }

  /** The journal write that follows `state` in the script. */
  function After(state: J.State, restarts: bool): Pc {
    match state
    case Inspected => Reach(J.Preparing)
    case Preparing => RecordManifest
    case Prepared => Reach(J.Fencing)
    case Fencing => Reach(J.Fenced)
    case Fenced => Reach(J.Activating)
    case Activating => Activate(0, L.Probe, false)
    case Activated => Reach(J.MigrationStarted)
    case MigrationStarted => Reach(J.Migrated)
    case Migrated => if restarts then Reach(J.Starting) else Reach(J.ServiceVerified)
    case Starting => Reach(J.ServiceVerified)
    case ServiceVerified => Reach(J.Committed)
    case Committed => Finished
    case _ => Stopped
  }

  /** Load, step, persist; the packaged program does not validate what it writes. */
  function Journaled(s: State, event: J.Event, next: Pc): State {
    if s.disk.journal.None? || !J.Loads(J.Packaged, s.disk.journal.value) then s.(pc := Stopped)
    else
      var stepped := J.Stepped(J.Packaged, s.disk.journal.value, event);
      if stepped.None? then s.(pc := Stopped) else State(s.disk.(journal := stepped), next)
  }

  predicate StableLinks(tx: Transaction, disk: Disk)
    requires F.Shaped(tx.plan) && |disk.links| == F.LINKS
  {
    forall i :: 0 < i < F.LINKS ==> L.Names(disk.links[i].live, tx.plan.targets[i])
  }

  /** States past activation: the active generation itself is the evidence. */
  predicate PostActivation(state: J.State) {
    state in {J.MigrationStarted, J.Migrated, J.Starting, J.ServiceVerified}
  }

  function Recover(tx: Transaction, disk: Disk): Pc {
    if disk.journal.None? then Create
    else if !J.Loads(J.Packaged, disk.journal.value) then Stopped
    else
      var j := disk.journal.value;
      match J.RecoveryMode(j)
      case NoRecovery => Finished
      case Discard => Complete
      case Rollback => Stopped
      case Forward =>
        if PostActivation(j.state) then VerifyCurrent
        else if j.prepared == Some(tx.fingerprint)
                && MANIFEST_PHASE in j.phases && j.phases[MANIFEST_PHASE] == tx.manifest
        then Activate(0, L.Probe, true)
        else Stopped
  }

  /** One instruction of the driver or of the recovery it starts with. */
  function Step(tx: Transaction, s: State, choice: Choice): State
    requires F.Shaped(tx.plan) && |s.disk.links| == F.LINKS
  {
    var disk := s.disk;
    match s.pc
    case Create => State(disk.(journal := Some(NewJournal(tx))), Reach(J.Inspected))
    case Reach(state) => Journaled(s, J.Advance(state, tx.fingerprint), After(state, choice.restarts))
    case RecordManifest => Journaled(s, J.RecordPhase(MANIFEST_PHASE, tx.manifest), Reach(J.Prepared))
    case Activate(index, link, recovering) =>
      if index >= F.LINKS then s.(pc := Register(R.ReadFile, recovering))
      else if L.Terminal(link) then s.(pc := Stopped)
      else
        var a := F.Advance(tx.plan, F.Activation(disk.links, index, link), choice.link);
        State(disk.(links := a.pairs), Activate(a.index, a.pc, recovering))
    case Register(repo, recovering) =>
      if repo.Done? then s.(pc := VerifyLinks(recovering))
      else if repo.Refused? then s.(pc := Stopped)
      else
        var r := R.Step(tx.repository, R.State(disk.repos, repo), choice.repo);
        State(disk.(repos := r.pair), Register(r.pc, recovering))
    case VerifyLinks(recovering) =>
      s.(pc := if !StableLinks(tx, disk) then Stopped
               else if recovering then Complete else Reach(J.Activated))
    case Dispatch => s.(pc := Recover(tx, disk))
    case VerifyCurrent =>
      s.(pc := if L.Names(disk.links[F.CURRENT].live, tx.plan.targets[F.CURRENT]) then Complete else Stopped)
    case Complete => Journaled(s, J.CompleteRecovery, Finished)
    case Finished => s
    case Stopped => s
  }

  predicate Fresh(s: State, choice: Choice) {
    match s.pc
    case Activate(index, _, _) => index < |s.disk.links| ==> L.Fresh(s.disk.links[index], choice.link)
    case Register(_, _) => R.Fresh(s.disk.repos, choice.repo)
    case _ => true
  }

  /** Power loss or any failing command: the next invocation starts with the dispatch. Bytes of
      the exchange file that were not yet synced may be torn. */
  function Crash(s: State, torn: P.Payload): State {
    var repos := if s.pc.Register? then R.Crash(R.State(s.disk.repos, s.pc.repo), torn).pair else s.disk.repos;
    State(s.disk.(repos := repos), Dispatch)
  }

  ghost predicate Executes(tx: Transaction, s: State, s': State)
    requires F.Shaped(tx.plan)
  {
    |s.disk.links| == F.LINKS && exists choice :: Fresh(s, choice) && s' == Step(tx, s, choice)
  }

  ghost predicate Crashes(s: State, s': State) {
    exists torn :: s' == Crash(s, torn)
  }

  ghost predicate Run(tx: Transaction, run: seq<State>)
    requires F.Shaped(tx.plan)
  {
    && |run| > 0
    && run[0] == State(Opening(tx), Dispatch)
    && forall i: nat :: 0 < i < |run| ==> NextAt(tx, run, i)
  }

  ghost predicate NextAt(tx: Transaction, run: seq<State>, i: nat)
    requires F.Shaped(tx.plan) && 0 < i < |run|
  {
    Executes(tx, run[i - 1], run[i]) || Crashes(run[i - 1], run[i])
  }

  /** From `i` to `k` nothing is interrupted. */
  ghost predicate Uninterrupted(tx: Transaction, run: seq<State>, i: nat, k: nat)
    requires F.Shaped(tx.plan) && k < |run|
  {
    forall m: nat :: i < m <= k ==> ExecutesAt(tx, run, m)
  }

  ghost predicate ExecutesAt(tx: Transaction, run: seq<State>, m: nat)
    requires F.Shaped(tx.plan) && 0 < m < |run|
  {
    Executes(tx, run[m - 1], run[m])
  }

  /* ---------- the invariant of the disk ---------- */

  predicate AsCaptured(tx: Transaction, disk: Disk)
    requires F.Shaped(tx.plan)
  {
    disk.links == F.Original(tx.plan) && disk.repos == R.Pair(Some(tx.original), None)
  }

  ghost predicate AllDesired(tx: Transaction, disk: Disk)
    requires Planned(tx)
  {
    && |disk.links| == F.LINKS
    && (forall i :: 0 <= i < F.LINKS ==> L.Published(F.Settled(tx.plan, i), disk.links[i]))
    && Completable(tx) && R.Installed(tx.repository, tx.original, disk.repos)
  }

  ghost predicate Underway(tx: Transaction, disk: Disk)
    requires Planned(tx)
  {
    && |disk.links| == F.LINKS
    && (forall i :: 0 <= i < F.LINKS ==> L.Durable(F.Settled(tx.plan, i), disk.links[i]))
    && R.Durable(tx.repository, tx.original, disk.repos)
  }

  /** The recovery evidence the journal must carry before the first mutation. */
  predicate Evidenced(tx: Transaction, j: J.Journal) {
    && j.prepared == Some(tx.fingerprint)
    && MANIFEST_PHASE in j.phases && j.phases[MANIFEST_PHASE] == tx.manifest
    && j.irreversible
  }

  predicate BeforeActivation(state: J.State) {
    state in {J.Locked, J.Inspected, J.Preparing, J.Prepared, J.Fencing, J.Fenced}
  }

  /** What the journal record is, whatever its state. */
  predicate Bookkept(tx: Transaction, j: J.Journal) {
    && j.invocation == tx.invocation && j.fingerprint == tx.fingerprint && j.mode == tx.mode
    && j.owned == map[]
    && (j.prepared.Some? ==> j.prepared == Some(tx.fingerprint))
    && "locked" in j.phases && j.phases["locked"] == tx.fingerprint
    && (forall name :: name in j.phases ==> name == "locked" || name == MANIFEST_PHASE)
    && (MANIFEST_PHASE in j.phases ==> j.phases[MANIFEST_PHASE] == tx.manifest)
  }

  ghost predicate JournalMatches(tx: Transaction, j: J.Journal, disk: Disk)
    requires Planned(tx)
  {
    && Bookkept(tx, j)
    && (BeforeActivation(j.state) ==> AsCaptured(tx, disk) && !j.irreversible && j.recoveredFrom.None?)
    && (j.state == J.Prepared || j.state == J.Fencing || j.state == J.Fenced ==>
          j.prepared.Some? && MANIFEST_PHASE in j.phases)
    && (j.state == J.Activating ==> Underway(tx, disk) && Evidenced(tx, j) && j.recoveredFrom.None?)
    && (j.state == J.Activated || PostActivation(j.state) || j.state == J.Committed ==>
          AllDesired(tx, disk) && Evidenced(tx, j) && j.recoveredFrom.None?)
    && (j.state == J.Recovered ==>
          && j.recoveredFrom.Some?
          && if BeforeActivation(j.recoveredFrom.value) then AsCaptured(tx, disk) && !j.irreversible
             else AllDesired(tx, disk) && j.irreversible)
    && j.state != J.Recovering && j.state != J.NoopVerified
  }

  /** The invariant a crash keeps. */
  ghost predicate Safe(tx: Transaction, disk: Disk)
    requires Planned(tx)
  {
    && |disk.links| == F.LINKS
    && if disk.journal.None? then AsCaptured(tx, disk) else JournalMatches(tx, disk.journal.value, disk)
  }

  /* ---------- the invariant of the program ---------- */

  /** The state the journal is in when the script is about to write `state`. */
  predicate Precedes(from: J.State, state: J.State) {
    match state
    case Inspected => from == J.Locked
    case Preparing => from == J.Inspected
    case Prepared => from == J.Preparing
    case Fencing => from == J.Prepared
    case Fenced => from == J.Fencing
    case Activating => from == J.Fenced
    case Activated => from == J.Activating
    case MigrationStarted => from == J.Activated
    case Migrated => from == J.MigrationStarted
    case Starting => from == J.Migrated
    case ServiceVerified => from == J.Migrated || from == J.Starting
    case Committed => from == J.ServiceVerified
    case _ => false
  }

  /** Activation runs while the journal says activating; a recovery may also repeat it over a
      finished activation, where every protocol only reads. */
  predicate ActivationStates(state: J.State, recovering: bool) {
    state == J.Activating || (recovering && state == J.Activated)
  }

  predicate LinkIdle(pc: L.Pc) { pc.Probe? || pc.ReuseCheck? }

  predicate RepoIdle(pc: R.Pc) { pc.ReadFile? || pc.Probe? || pc.ReuseCheck? || pc.Done? }

  ghost predicate LinksPublished(tx: Transaction, disk: Disk)
    requires Planned(tx)
  {
    && |disk.links| == F.LINKS
    && forall i :: 0 <= i < F.LINKS ==> L.Published(F.Settled(tx.plan, i), disk.links[i])
  }

  ghost predicate AtPc(tx: Transaction, disk: Disk, j: J.Journal, pc: Pc)
    requires Planned(tx)
  {
    match pc
    case Create => false
    case Reach(state) =>
      && Precedes(j.state, state)
      && (state == J.Prepared ==> MANIFEST_PHASE in j.phases)
      && (state == J.Activated ==> AllDesired(tx, disk))
    case RecordManifest => j.state == J.Preparing
    case Activate(index, link, recovering) =>
      && ActivationStates(j.state, recovering)
      && F.Consistent(tx.plan, F.Activation(disk.links, index, link))
      && (index < F.LINKS ==> !L.Terminal(link))
      && (j.state == J.Activated ==> LinkIdle(link))
    case Register(repo, recovering) =>
      && ActivationStates(j.state, recovering)
      && LinksPublished(tx, disk)
      && R.Invariant(tx.repository, tx.original, R.State(disk.repos, repo))
      && (j.state == J.Activated ==> RepoIdle(repo))
    case VerifyLinks(recovering) => ActivationStates(j.state, recovering) && AllDesired(tx, disk)
    case Dispatch => true
    case VerifyCurrent => PostActivation(j.state)
    case Complete =>
      || BeforeActivation(j.state)
      || ((ActivationStates(j.state, true) || PostActivation(j.state)) && AllDesired(tx, disk))
    case Finished => J.Terminal(j.state)
    case Stopped => j.state == J.Activating && R.Blocked(tx.repository, tx.original, disk.repos)
  }

  ghost predicate Invariant(tx: Transaction, s: State)
    requires Planned(tx)
  {
    && Safe(tx, s.disk)
    && if s.disk.journal.None? then s.pc.Create? || s.pc.Dispatch? else AtPc(tx, s.disk, s.disk.journal.value, s.pc)
  }

  /** A record the driver keeps is one the packaged journal loads. */
  lemma BookkeptLoads(tx: Transaction, j: J.Journal)
    requires Planned(tx) && Bookkept(tx, j)
    requires J.NeedsGeneration(j.state) ==> j.prepared.Some?
    requires J.NeedsBoundary(j.state) ==> j.irreversible
    ensures J.Loads(J.Packaged, j)
  {
    assert IsIdentifier("locked");
    assert IsIdentifier(MANIFEST_PHASE);
  }

  lemma SafeLoads(tx: Transaction, disk: Disk)
    requires Planned(tx) && Safe(tx, disk) && disk.journal.Some?
    ensures J.Loads(J.Packaged, disk.journal.value)
  {
    BookkeptLoads(tx, disk.journal.value);
  }

  lemma CapturedIsUnderway(tx: Transaction, disk: Disk)
    requires Planned(tx) && AsCaptured(tx, disk)
    ensures Underway(tx, disk)
  {
    forall i | 0 <= i < F.LINKS
      ensures L.Durable(F.Settled(tx.plan, i), disk.links[i])
    {
      assert L.Untouched(F.Settled(tx.plan, i), disk.links[i]);
    }
  }

  /** What the disk predicates say does not depend on the journal. */
  lemma JournalIsApart(tx: Transaction, disk: Disk, journal: Option<J.Journal>)
    requires Planned(tx)
    ensures var disk' := disk.(journal := journal);
            && (AsCaptured(tx, disk) <==> AsCaptured(tx, disk'))
            && (AllDesired(tx, disk) <==> AllDesired(tx, disk'))
            && (Underway(tx, disk) <==> Underway(tx, disk'))
  {
  }

  /** The write the script makes next: a legal transition that keeps the record. */
  lemma ReachStep(tx: Transaction, s: State, choice: Choice) returns (j': J.Journal)
    requires Planned(tx) && Invariant(tx, s) && s.pc.Reach?
    ensures var j, state := s.disk.journal.value, s.pc.state;
            && j' == j.(state := state,
                        prepared := if state == J.Prepared then Some(tx.fingerprint) else j.prepared,
                        irreversible := j.irreversible || J.Crosses(J.Packaged, tx.mode, state))
            && Bookkept(tx, j')
            && Step(tx, s, choice) == State(s.disk.(journal := Some(j')), After(state, choice.restarts))
  {
    SafeLoads(tx, s.disk);
    assert s.pc.state in J.Transitions(s.disk.journal.value.state);
    j' := J.Stepped(J.Packaged, s.disk.journal.value, J.Advance(s.pc.state, tx.fingerprint)).value;
  }

  lemma {:induction false} ReachKeeps(tx: Transaction, s: State, choice: Choice)
    requires Planned(tx) && Invariant(tx, s) && s.pc.Reach?
    ensures Invariant(tx, Step(tx, s, choice))
  {
    if BeforeActivation(s.pc.state) {
      ReachBefore(tx, s, choice);
    } else if s.pc.state == J.Activating {
      ReachActivating(tx, s, choice);
    } else {
      ReachAfter(tx, s, choice);
    }
  }

  lemma {:induction false} ReachBefore(tx: Transaction, s: State, choice: Choice)
    requires Planned(tx) && Invariant(tx, s) && s.pc.Reach? && BeforeActivation(s.pc.state)
    ensures Invariant(tx, Step(tx, s, choice))
  {
    var j' := ReachStep(tx, s, choice);
    BeforeMatches(tx, s.disk.journal.value, j', s.disk);
  }

  lemma {:induction false} BeforeMatches(tx: Transaction, j: J.Journal, j': J.Journal, disk: Disk)
    requires Planned(tx) && JournalMatches(tx, j, disk) && Precedes(j.state, j'.state) && BeforeActivation(j'.state)
    requires Bookkept(tx, j') && !j'.irreversible && j'.recoveredFrom.None? && j'.phases == j.phases
    requires j'.state == J.Prepared ==> MANIFEST_PHASE in j.phases
    requires j'.prepared == if j'.state == J.Prepared then Some(tx.fingerprint) else j.prepared
    ensures JournalMatches(tx, j', disk.(journal := Some(j')))
  {
    JournalIsApart(tx, disk, Some(j'));
  }

  lemma {:induction false} ReachActivating(tx: Transaction, s: State, choice: Choice)
    requires Planned(tx) && Invariant(tx, s) && s.pc == Reach(J.Activating)
    ensures Invariant(tx, Step(tx, s, choice))
  {
    var j' := ReachStep(tx, s, choice);
    ActivatingMatches(tx, s.disk.journal.value, j', s.disk);
  }

  lemma {:induction false} ActivatingMatches(tx: Transaction, j: J.Journal, j': J.Journal, disk: Disk)
    requires Planned(tx) && JournalMatches(tx, j, disk) && j.state == J.Fenced
    requires j' == j.(state := J.Activating, irreversible := true) && Bookkept(tx, j')
    ensures JournalMatches(tx, j', disk.(journal := Some(j')))
    ensures F.Consistent(tx.plan, F.Activation(disk.links, 0, L.Probe))
  {
    CapturedIsUnderway(tx, disk);
    JournalIsApart(tx, disk, Some(j'));
  }

  lemma {:induction false} ReachAfter(tx: Transaction, s: State, choice: Choice)
    requires Planned(tx) && Invariant(tx, s) && s.pc.Reach?
    requires !BeforeActivation(s.pc.state) && s.pc.state != J.Activating
    ensures Invariant(tx, Step(tx, s, choice))
  {
    var j' := ReachStep(tx, s, choice);
    AfterMatches(tx, s.disk.journal.value, j', s.disk);
  }

  lemma {:induction false} AfterMatches(tx: Transaction, j: J.Journal, j': J.Journal, disk: Disk)
    requires Planned(tx) && JournalMatches(tx, j, disk) && Precedes(j.state, j'.state)
    requires !BeforeActivation(j'.state) && j'.state != J.Activating
    requires j'.state == J.Activated ==> AllDesired(tx, disk)
    requires Bookkept(tx, j') && j' == j.(state := j'.state)
    ensures JournalMatches(tx, j', disk.(journal := Some(j')))
  {
    JournalIsApart(tx, disk, Some(j'));
  }

  lemma RecordStep(tx: Transaction, s: State, choice: Choice) returns (j': J.Journal)
    requires Planned(tx) && Invariant(tx, s) && s.pc.RecordManifest?
    ensures var j := s.disk.journal.value;
            && j' == j.(phases := j.phases[MANIFEST_PHASE := tx.manifest])
            && J.Stepped(J.Packaged, j, J.RecordPhase(MANIFEST_PHASE, tx.manifest)) == Some(j')
            && Bookkept(tx, j')
            && Step(tx, s, choice) == State(s.disk.(journal := Some(j')), Reach(J.Prepared))
  {
    SafeLoads(tx, s.disk);
    assert IsIdentifier(MANIFEST_PHASE);
    var j := s.disk.journal.value;
    j' := j.(phases := j.phases[MANIFEST_PHASE := tx.manifest]);
    assert J.Stepped(J.Packaged, j, J.RecordPhase(MANIFEST_PHASE, tx.manifest)) == Some(j');
  }

  lemma {:induction false} RecordKeeps(tx: Transaction, s: State, choice: Choice)
    requires Planned(tx) && Invariant(tx, s) && s.pc.RecordManifest?
    ensures Invariant(tx, Step(tx, s, choice))
  {
    var j' := RecordStep(tx, s, choice);
    JournalIsApart(tx, s.disk, Some(j'));
    assert j'.state == J.Preparing;
    assert Safe(tx, s.disk.(journal := Some(j')));
  }

  lemma {:induction false} CompleteKeeps(tx: Transaction, s: State, choice: Choice)
    requires Planned(tx) && Invariant(tx, s) && s.pc.Complete?
    ensures Invariant(tx, Step(tx, s, choice))
  {
    var j := s.disk.journal.value;
    RecoveredMatches(tx, j, s.disk);
    SafeLoads(tx, s.disk);
    CompleteStep(tx, s, choice);
  }

  lemma CompleteStep(tx: Transaction, s: State, choice: Choice)
    requires F.Shaped(tx.plan) && |s.disk.links| == F.LINKS && s.pc.Complete?
    requires s.disk.journal.Some? && J.Loads(J.Packaged, s.disk.journal.value)
    requires !J.Terminal(s.disk.journal.value.state) && s.disk.journal.value.recoveredFrom.None?
    ensures var j := s.disk.journal.value;
            Step(tx, s, choice)
            == State(s.disk.(journal := Some(j.(state := J.Recovered, recoveredFrom := Some(j.state)))), Finished)
  {
  }

  lemma RecoveredMatches(tx: Transaction, j: J.Journal, disk: Disk)
    requires Planned(tx) && JournalMatches(tx, j, disk) && AtPc(tx, disk, j, Complete)
    ensures j.recoveredFrom.None? && !J.Terminal(j.state)
    ensures var j' := j.(state := J.Recovered, recoveredFrom := Some(j.state));
            JournalMatches(tx, j', disk.(journal := Some(j')))
  {
    var j' := j.(state := J.Recovered, recoveredFrom := Some(j.state));
    JournalIsApart(tx, disk, Some(j'));
    assert Bookkept(tx, j');
    if BeforeActivation(j.state) {
      assert AsCaptured(tx, disk.(journal := Some(j')));
    } else {
      assert AllDesired(tx, disk.(journal := Some(j')));
    }
  }

  /** The links of an activation that is still underway stay durable; a finished one is only read. */
  lemma {:induction false} ActivateKeeps(tx: Transaction, s: State, choice: Choice)
    requires Planned(tx) && Invariant(tx, s) && s.pc.Activate? && Fresh(s, choice)
    ensures Invariant(tx, Step(tx, s, choice))
  {
    if s.pc.index < F.LINKS {
      var a := F.Activation(s.disk.links, s.pc.index, s.pc.link);
      var a' := F.Advance(tx.plan, a, choice.link);
      F.AdvanceKeepsConsistent(tx.plan, a, choice.link);
      F.AdvanceIsNeverRefused(tx.plan, a, choice.link);
      if s.disk.journal.value.state == J.Activated {
        PublishedIsOnlyRead(tx, a, choice.link);
      }
      MovedKeeps(tx, s, a');
    }
  }

  /** The disk after an activation step, given what the step keeps. */
  lemma MovedKeeps(tx: Transaction, s: State, a': F.Activation)
    requires Planned(tx) && Invariant(tx, s) && s.pc.Activate?
    requires F.Consistent(tx.plan, a') && (a'.index < F.LINKS ==> !L.Terminal(a'.pc))
    requires s.disk.journal.value.state == J.Activated ==> a'.pairs == s.disk.links && LinkIdle(a'.pc)
    ensures Invariant(tx, State(s.disk.(links := a'.pairs), Activate(a'.index, a'.pc, s.pc.recovering)))
  {
    var j := s.disk.journal.value;
    var disk := s.disk.(links := a'.pairs);
    if j.state == J.Activated {
      assert disk == s.disk;
    } else {
      assert Underway(tx, disk);
      assert JournalMatches(tx, j, disk);
    }
  }

  lemma PublishedIsOnlyRead(tx: Transaction, a: F.Activation, choice: L.Choice)
    requires Planned(tx) && F.Consistent(tx.plan, a) && a.index < F.LINKS && LinkIdle(a.pc)
    requires L.Published(F.Settled(tx.plan, a.index), a.pairs[a.index])
    ensures var a' := F.Advance(tx.plan, a, choice); a'.pairs == a.pairs && LinkIdle(a'.pc)
  {
    F.SettledRequest(tx.plan, a);
  }

  lemma {:induction false} RegisterKeeps(tx: Transaction, s: State, choice: Choice)
    requires Planned(tx) && Invariant(tx, s) && s.pc.Register? && Fresh(s, choice)
    ensures Invariant(tx, Step(tx, s, choice))
  {
    var r := R.State(s.disk.repos, s.pc.repo);
    if !R.Terminal(r.pc) {
      R.StepKeepsInvariant(tx.repository, tx.original, r, choice.repo);
      var r' := R.Step(tx.repository, r, choice.repo);
      R.InvariantIsDurable(tx.repository, tx.original, r');
      if s.disk.journal.value.state == J.Activated {
        InstalledIsOnlyRead(tx, r, choice.repo);
      }
    }
  }

  lemma InstalledIsOnlyRead(tx: Transaction, r: R.State, choice: R.Choice)
    requires Planned(tx) && R.Invariant(tx.repository, tx.original, r) && R.Fresh(r.pair, choice)
    requires Completable(tx) && R.Installed(tx.repository, tx.original, r.pair) && RepoIdle(r.pc)
    ensures var r' := R.Step(tx.repository, r, choice); r'.pair == r.pair && RepoIdle(r'.pc)
  {
    R.TargetIsFixed(tx.repository, tx.original);
  }

  lemma {:induction false} DispatchKeeps(tx: Transaction, s: State, choice: Choice)
    requires Planned(tx) && Invariant(tx, s) && s.pc.Dispatch?
    ensures Invariant(tx, Step(tx, s, choice))
  {
    if s.disk.journal.Some? {
      SafeLoads(tx, s.disk);
      RecoverIsRight(tx, s.disk, s.disk.journal.value);
    }
  }

  /** The dispatch picks an entry point whose invariant holds. */
  lemma RecoverIsRight(tx: Transaction, disk: Disk, j: J.Journal)
    requires Planned(tx) && |disk.links| == F.LINKS && disk.journal == Some(j)
    requires JournalMatches(tx, j, disk) && J.Loads(J.Packaged, j)
    ensures AtPc(tx, disk, j, Recover(tx, disk))
  {
    if ActivationStates(j.state, true) {
      ActivationIsRepeated(tx, disk, j);
    } else {
      RecoverElsewhere(tx, disk, j);
      if PostActivation(j.state) || BeforeActivation(j.state) || J.Terminal(j.state) {
        assert AtPc(tx, disk, j, Recover(tx, disk));
      }
    }
  }

  lemma RecoverElsewhere(tx: Transaction, disk: Disk, j: J.Journal)
    requires disk.journal == Some(j) && J.Loads(J.Packaged, j) && tx.mode != J.Full && j.mode == tx.mode
    requires BeforeActivation(j.state) ==> !j.irreversible
    requires PostActivation(j.state) ==> j.irreversible
    ensures BeforeActivation(j.state) ==> Recover(tx, disk) == Complete
    ensures PostActivation(j.state) ==> Recover(tx, disk) == VerifyCurrent
    ensures J.Terminal(j.state) ==> Recover(tx, disk) == Finished
  {
  }

  lemma ActivationIsRepeated(tx: Transaction, disk: Disk, j: J.Journal)
    requires Planned(tx) && |disk.links| == F.LINKS && disk.journal == Some(j)
    requires JournalMatches(tx, j, disk) && J.Loads(J.Packaged, j) && ActivationStates(j.state, true)
    ensures AtPc(tx, disk, j, Recover(tx, disk))
  {
    if j.state == J.Activated {
      DesiredIsUnderway(tx, disk);
    }
    assert Recover(tx, disk) == Activate(0, L.Probe, true);
    assert F.Consistent(tx.plan, F.Activation(disk.links, 0, L.Probe));
  }

  lemma DesiredIsUnderway(tx: Transaction, disk: Disk)
    requires Planned(tx) && AllDesired(tx, disk)
    ensures Underway(tx, disk)
  {
    forall i | 0 <= i < F.LINKS
      ensures L.Durable(F.Settled(tx.plan, i), disk.links[i])
    {
      assert L.Published(F.Settled(tx.plan, i), disk.links[i]);
    }
  }

  lemma {:induction false} StepKeepsInvariant(tx: Transaction, s: State, choice: Choice)
    requires Planned(tx) && Invariant(tx, s) && Fresh(s, choice)
    ensures Invariant(tx, Step(tx, s, choice))
  {
    match s.pc
    case Create => CreateKeeps(tx, s, choice);
    case Reach(_) => ReachKeeps(tx, s, choice);
    case RecordManifest => RecordKeeps(tx, s, choice);
    case Activate(_, _, _) => ActivateKeeps(tx, s, choice);
    case Register(_, _) => RegisterKeeps(tx, s, choice);
    case VerifyLinks(_) =>
    case Dispatch => DispatchKeeps(tx, s, choice);
    case VerifyCurrent =>
    case Complete => CompleteKeeps(tx, s, choice);
    case Finished =>
    case Stopped =>
  }

  lemma CreateKeeps(tx: Transaction, s: State, choice: Choice)
    requires Planned(tx) && Invariant(tx, s) && s.pc.Create?
    ensures Invariant(tx, Step(tx, s, choice))
  {
  }

  lemma {:induction false} CrashKeepsInvariant(tx: Transaction, s: State, torn: P.Payload)
    requires Planned(tx) && Invariant(tx, s)
    ensures Invariant(tx, Crash(s, torn))
  {
    if s.pc.Register? {
      var r := R.State(s.disk.repos, s.pc.repo);
      R.InvariantIsDurable(tx.repository, tx.original, r);
    }
  }

  lemma {:induction false} RunKeepsInvariant(tx: Transaction, run: seq<State>, i: nat)
    requires Planned(tx) && Run(tx, run) && i < |run|
    ensures Invariant(tx, run[i])
  {
    if i > 0 {
      RunKeepsInvariant(tx, run, i - 1);
      assert NextAt(tx, run, i);
      var s, s' := run[i - 1], run[i];
      if Executes(tx, s, s') {
        var choice :| Fresh(s, choice) && s' == Step(tx, s, choice);
        StepKeepsInvariant(tx, s, choice);
      } else {
        assert Crashes(s, s');
        var torn :| s' == Crash(s, torn);
        CrashKeepsInvariant(tx, s, torn);
      }
    }
  }

  /* ---------- the theorems ---------- */

  /** Write-ahead over whole runs: at every instant at which a stable link or `repos.yaml`
      differs from its captured value, or an exchange name exists, the persisted journal says
      forward recovery, or the transaction is over and everything is as desired. */
  lemma {:induction false} MutationsAreWrittenAhead(tx: Transaction, run: seq<State>, i: nat)
    requires Planned(tx) && Run(tx, run) && i < |run|
    ensures |run[i].disk.links| == 5
    ensures (exists k :: 0 <= k < 5 && (run[i].disk.links[k].live != tx.plan.befores[k] || run[i].disk.links[k].exch != None))
            || run[i].disk.repos.live != Some(tx.original) || run[i].disk.repos.temp != None ==>
              && run[i].disk.journal.Some?
              && (J.RecoveryMode(run[i].disk.journal.value) == J.Forward
                  || (J.Terminal(run[i].disk.journal.value.state) && AllDesired(tx, run[i].disk)))
  {
    RunKeepsInvariant(tx, run, i);
  }

  /** A journal that says discard, and a transaction that was discarded, both leave every link
      and `repos.yaml` exactly as captured; a rollback is never asked for. */
  lemma {:induction false} DiscardLeavesTheHostAsCaptured(tx: Transaction, run: seq<State>, i: nat)
    requires Planned(tx) && Run(tx, run) && i < |run| && run[i].disk.journal.Some?
    ensures var j, disk := run[i].disk.journal.value, run[i].disk;
            && J.Loads(J.Packaged, j)
            && J.RecoveryMode(j) != J.Rollback
            && (j.state == J.Recovered ==> j.recoveredFrom.Some?)
            && (J.RecoveryMode(j) == J.Discard || (j.state == J.Recovered && !j.irreversible) ==>
                  && |disk.links| == 5
                  && (forall k :: 0 <= k < 5 ==> disk.links[k].live == tx.plan.befores[k] && disk.links[k].exch == None)
                  && disk.repos.live == Some(tx.original) && disk.repos.temp == None)
  {
    RunKeepsInvariant(tx, run, i);
    SafeLoads(tx, run[i].disk);
  }

  /** A terminal journal that is committed, or recovered past its boundary, has every link and
      `repos.yaml` in the desired state with no exchange name left. */
  lemma {:induction false} TerminalMeansDesired(tx: Transaction, run: seq<State>, i: nat, k: nat)
    requires Planned(tx) && Run(tx, run) && i < |run| && run[i].disk.journal.Some? && k < F.LINKS
    requires var j := run[i].disk.journal.value;
             j.state == J.Committed || (j.state == J.Recovered && j.irreversible)
    ensures |run[i].disk.links| == F.LINKS && Completable(tx)
    ensures L.Names(run[i].disk.links[k].live, tx.plan.targets[k]) && run[i].disk.links[k].exch.None?
    ensures run[i].disk.repos.temp.None? && run[i].disk.repos.live.Some?
    ensures run[i].disk.repos.live.value.payload == R.Target(tx.repository, tx.original.payload)
  {
    RunKeepsInvariant(tx, run, i);
    assert AllDesired(tx, run[i].disk);
    assert L.Published(F.Settled(tx.plan, k), run[i].disk.links[k]);
  }

  /** No check of the driver or of its recovery ever refuses a reachable state, but for the
      registration of the repositories: a previous path registered twice, a torn exchange file,
      or a converged file that cannot be read back. The journal then says forward. */
  lemma {:induction false} OnlyRepositoriesStopTheDriver(tx: Transaction, run: seq<State>, i: nat)
    requires Planned(tx) && Run(tx, run) && i < |run| && run[i].pc == Stopped
    ensures R.Blocked(tx.repository, tx.original, run[i].disk.repos)
    ensures !R.Oversized(tx.repository, tx.original) ==> run[i].disk.repos.live == Some(tx.original)
    ensures run[i].disk.journal.Some? && J.RecoveryMode(run[i].disk.journal.value) == J.Forward
  {
    RunKeepsInvariant(tx, run, i);
  }

  /* ---------- completion ---------- */

  function Writes(state: J.State): nat {
    match state
    case Inspected => 12
    case Preparing => 11
    case Prepared => 9
    case Fencing => 8
    case Fenced => 7
    case Activating => 6
    case Activated => 6
    case MigrationStarted => 5
    case Migrated => 4
    case Starting => 3
    case ServiceVerified => 2
    case Committed => 1
    case _ => 0
  }

  /** An upper bound on the instructions left to an invocation that is not interrupted. */
  function Left(pc: Pc): nat {
    match pc
    case Dispatch => 130
    case Create => 129
    case Reach(state) => if state in {J.Inspected, J.Preparing, J.Prepared, J.Fencing, J.Fenced, J.Activating}
                         then Writes(state) + 106 else Writes(state)
    case RecordManifest => 10 + 106
    case Activate(index, link, _) =>
      25 + F.Left(F.Activation([], index, link))
    case Register(repo, _) => 8 + R.Remaining(repo)
    case VerifyLinks(_) => 7
    case VerifyCurrent => 2
    case Complete => 1
    case Finished => 0
    case Stopped => 0
  }

  lemma {:induction false} StepMakesProgress(tx: Transaction, s: State, choice: Choice)
    requires Planned(tx) && Invariant(tx, s) && Fresh(s, choice)
    requires s.pc != Finished && s.pc != Stopped
    ensures Left(Step(tx, s, choice).pc) < Left(s.pc)
  {
    match s.pc
    case Activate(_, _, _) => ActivateMakesProgress(tx, s, choice);
    case Register(_, _) => RegisterMakesProgress(tx, s, choice);
    case Reach(_) => ReachMakesProgress(tx, s, choice);
    case Dispatch => DispatchMakesProgress(tx, s.disk);
    case _ => OtherMakesProgress(tx, s, choice);
  }

  lemma DispatchMakesProgress(tx: Transaction, disk: Disk)
    ensures Left(Recover(tx, disk)) < Left(Dispatch)
  {
    assert F.Left(F.Activation([], 0, L.Probe)) == 80;
  }

  lemma OtherMakesProgress(tx: Transaction, s: State, choice: Choice)
    requires Planned(tx) && |s.disk.links| == F.LINKS
    requires s.pc in {Create, RecordManifest, VerifyLinks(true), VerifyLinks(false), VerifyCurrent, Complete}
    ensures Left(Step(tx, s, choice).pc) < Left(s.pc)
  {
  }

  lemma ReachMakesProgress(tx: Transaction, s: State, choice: Choice)
    requires Planned(tx) && Invariant(tx, s) && s.pc.Reach?
    ensures Left(Step(tx, s, choice).pc) < Left(s.pc)
  {
    var _ := ReachStep(tx, s, choice);
    assert Precedes(s.disk.journal.value.state, s.pc.state);
    AfterIsCloser(s.disk.journal.value.state, s.pc.state, choice.restarts);
  }

  lemma AfterIsCloser(from: J.State, state: J.State, restarts: bool)
    requires Precedes(from, state)
    ensures Left(After(state, restarts)) < Left(Reach(state))
  {
    assert F.Left(F.Activation([], 0, L.Probe)) == 80;
  }

  lemma ActivateMakesProgress(tx: Transaction, s: State, choice: Choice)
    requires Planned(tx) && Invariant(tx, s) && Fresh(s, choice) && s.pc.Activate?
    ensures Left(Step(tx, s, choice).pc) < Left(s.pc)
  {
    var a := F.Activation(s.disk.links, s.pc.index, s.pc.link);
    if a.index < F.LINKS {
      var a' := F.Advance(tx.plan, a, choice.link);
      assert F.Moves(tx.plan, a, a');
      F.MoveMakesProgress(tx.plan, a, a');
    }
  }

  lemma RegisterMakesProgress(tx: Transaction, s: State, choice: Choice)
    requires Planned(tx) && |s.disk.links| == F.LINKS && s.pc.Register?
    ensures Left(Step(tx, s, choice).pc) < Left(s.pc)
  {
    var r := R.State(s.disk.repos, s.pc.repo);
    assert R.Terminal(r.pc) || R.Remaining(R.Step(tx.repository, r, choice.repo).pc) < R.Remaining(r.pc);
  }

  /** Whether an invocation that is not interrupted is going to end its transaction. */
  ghost predicate Promising(tx: Transaction, s: State) {
    var clear := Completable(tx) && !R.Torn(tx.repository, tx.original, s.disk.repos);
    match s.pc
    case Create => Completable(tx)
    case Reach(state) => BeforeActivation(state) || state == J.Activating ==> Completable(tx)
    case RecordManifest => Completable(tx)
    case Activate(_, _, _) => clear
    case Register(repo, _) => R.Verdict(tx.repository, tx.original, R.State(s.disk.repos, repo)).Some?
    case Dispatch => MayFinish(tx, s.disk)
    case Stopped => false
    case _ => true
  }

  /** The disk an invocation can finish: no journal or an activation under way ask for a file
      that converges within the bound and no torn exchange file; any other journal for nothing. */
  ghost predicate MayFinish(tx: Transaction, disk: Disk) {
    (disk.journal.None? || disk.journal.value.state == J.Activating) ==>
      Completable(tx) && !R.Torn(tx.repository, tx.original, disk.repos)
  }

  lemma {:induction false} DispatchKeepsPromise(tx: Transaction, s: State, choice: Choice)
    requires Planned(tx) && Invariant(tx, s) && s.pc.Dispatch?
    ensures Promising(tx, Step(tx, s, choice)) <==> Promising(tx, s)
  {
    if s.disk.journal.Some? {
      SafeLoads(tx, s.disk);
      RecoverKeepsPromise(tx, s.disk, s.disk.journal.value);
    }
  }

  lemma {:induction false} RecoverKeepsPromise(tx: Transaction, disk: Disk, j: J.Journal)
    requires Planned(tx) && |disk.links| == F.LINKS && disk.journal == Some(j)
    requires JournalMatches(tx, j, disk) && J.Loads(J.Packaged, j)
    ensures Promising(tx, State(disk, Recover(tx, disk))) <==> MayFinish(tx, disk)
  {
    if ActivationStates(j.state, true) {
      assert Recover(tx, disk) == Activate(0, L.Probe, true);
    } else {
      RecoverElsewhere(tx, disk, j);
    }
  }

  lemma {:induction false} RegisterKeepsPromise(tx: Transaction, s: State, choice: Choice)
    requires Planned(tx) && Invariant(tx, s) && s.pc.Register? && Fresh(s, choice)
    ensures Promising(tx, Step(tx, s, choice)) <==> Promising(tx, s)
  {
    var r := R.State(s.disk.repos, s.pc.repo);
    if !R.Terminal(r.pc) {
      R.StepKeepsVerdict(tx.repository, tx.original, r, choice.repo);
    }
  }

  lemma {:induction false} ReachKeepsPromise(tx: Transaction, s: State, choice: Choice)
    requires Planned(tx) && Invariant(tx, s) && s.pc.Reach?
    ensures Promising(tx, Step(tx, s, choice)) <==> Promising(tx, s)
  {
    var _ := ReachStep(tx, s, choice);
  }

  lemma {:induction false} StepKeepsPromise(tx: Transaction, s: State, choice: Choice)
    requires Planned(tx) && Invariant(tx, s) && Fresh(s, choice)
    ensures Promising(tx, Step(tx, s, choice)) <==> Promising(tx, s)
  {
    match s.pc
    case Dispatch => DispatchKeepsPromise(tx, s, choice);
    case Register(_, _) => RegisterKeepsPromise(tx, s, choice);
    case Reach(_) => ReachKeepsPromise(tx, s, choice);
    case RecordManifest => var _ := RecordStep(tx, s, choice);
    case Complete => CompleteKeeps(tx, s, choice);
    case _ => OtherKeepsPromise(tx, s, choice);
  }

  lemma {:induction false} OtherKeepsPromise(tx: Transaction, s: State, choice: Choice)
    requires Planned(tx) && Invariant(tx, s) && Fresh(s, choice)
    requires s.pc.Create? || s.pc.Activate? || s.pc.VerifyLinks? || s.pc.VerifyCurrent? || s.pc.Finished? || s.pc.Stopped?
    ensures Promising(tx, Step(tx, s, choice)) <==> Promising(tx, s)
  {
  }

  lemma {:induction false} UninterruptedKeepsPromise(tx: Transaction, run: seq<State>, i: nat, k: nat)
    requires Planned(tx) && Run(tx, run) && i <= k < |run|
    requires Uninterrupted(tx, run, i, k)
    ensures Promising(tx, run[k]) <==> Promising(tx, run[i])
  {
    if i < k {
      UninterruptedKeepsPromise(tx, run, i, k - 1);
      RunKeepsInvariant(tx, run, k - 1);
      assert ExecutesAt(tx, run, k);
      var choice :| Fresh(run[k - 1], choice) && run[k] == Step(tx, run[k - 1], choice);
      StepKeepsPromise(tx, run[k - 1], choice);
    }
  }

  /** Progress, exactly: an invocation that starts on whatever any crash schedule left and is
      then left alone for 130 instructions ends with a terminal journal if and only if, where
      activation is still ahead, no previous path is registered twice, the converged file is
      within the read bound and the exchange file is not torn. */
  lemma {:induction false} InvocationEndsIff(tx: Transaction, run: seq<State>, i: nat, k: nat)
    requires Planned(tx) && Run(tx, run) && i + 130 <= k < |run| && run[i].pc == Dispatch
    requires Uninterrupted(tx, run, i, k)
    ensures run[k].disk.journal.Some? && J.Terminal(run[k].disk.journal.value.state) <==> MayFinish(tx, run[i].disk)
    ensures !MayFinish(tx, run[i].disk) ==> run[k].pc == Stopped
  {
    RunKeepsInvariant(tx, run, k);
    LeftShrinks(tx, run, i, k);
    UninterruptedKeepsPromise(tx, run, i, k);
    assert Left(run[k].pc) > 0 || run[k].pc == Finished || run[k].pc == Stopped;
  }

  lemma {:induction false} ExecutionShrinks(tx: Transaction, s: State, s': State)
    requires Planned(tx) && Invariant(tx, s) && Executes(tx, s, s')
    ensures if s.pc == Finished || s.pc == Stopped then s' == s else Left(s'.pc) < Left(s.pc)
  {
    var choice :| Fresh(s, choice) && s' == Step(tx, s, choice);
    if s.pc != Finished && s.pc != Stopped {
      StepMakesProgress(tx, s, choice);
    }
  }

  lemma {:induction false} LeftShrinks(tx: Transaction, run: seq<State>, i: nat, k: nat)
    requires Planned(tx) && Run(tx, run) && i <= k < |run|
    requires Uninterrupted(tx, run, i, k)
    ensures run[k].pc == Finished || run[k].pc == Stopped || Left(run[k].pc) + (k - i) <= 130
  {
    if i == k {
      RunKeepsInvariant(tx, run, i);
      LeftIsBounded(tx, run[i]);
    } else {
      LeftShrinks(tx, run, i, k - 1);
      RunKeepsInvariant(tx, run, k - 1);
      assert ExecutesAt(tx, run, k);
      ExecutionShrinks(tx, run[k - 1], run[k]);
    }
  }

  lemma LeftIsBounded(tx: Transaction, s: State)
    requires Planned(tx) && Invariant(tx, s)
    ensures Left(s.pc) <= 130
  {
  }
}
