/**
 The replacement script and its recovery in the program's own form: commands that rewrite
 the journal file, publish the five links and reconcile `repos.yaml` in place. Each command
 keeps the invariant of `Driver`, so whatever command the script dies in, the recovery
 finds a disk it can finish.
 */
module ReplacementScript {
  import opened Objects
  import opened Driver
  import L = LinkExchange
  import F = FiveLinks
  import R = RepositoryExchange
  import J = Journals
  import JournalStore
  import LinkPublication
  import RepositoryPublication

  ghost function Snapshot(
    file: JournalStore.JournalFile, links: seq<LinkPublication.Pathnames>, repos: RepositoryPublication.RepositoryFiles)
    : Disk
    reads file, links, repos
  {
    Disk(Some(file.stored), Pairs(links), repos.Here())
  }

  ghost function Pairs(links: seq<LinkPublication.Pathnames>): seq<L.Pair>
    reads links
  {
    seq(|links|, i requires 0 <= i < |links| reads links => links[i].Here())
  }

  ghost predicate Separate(links: seq<LinkPublication.Pathnames>) {
    |links| == F.LINKS && forall i, j :: 0 <= i < j < F.LINKS ==> links[i] != links[j]
  }

  ghost predicate KernelsFresh(
    links: seq<LinkPublication.Pathnames>, repos: RepositoryPublication.RepositoryFiles,
    kernels: seq<L.Kernel>, kernel: R.Kernel)
    requires Separate(links)
    reads links, repos
  {
    && |kernels| == F.LINKS
    && (forall i :: 0 <= i < F.LINKS ==> L.AlwaysFresh(links[i].Here(), kernels[i]))
    && R.AlwaysFresh(repos.Here(), kernel)
  }

  /** `finish-activation`: the five links in order, then the exact repository registration. From
      any state a crash can leave it publishes all five links, and it succeeds, with everything
      desired, if and only if the registration can be finished and no exchange file is torn. */
  method FinishActivation(
    tx: Transaction, links: seq<LinkPublication.Pathnames>, repos: RepositoryPublication.RepositoryFiles,
    kernels: seq<L.Kernel>, kernel: R.Kernel)
    returns (ok: bool)
    requires Planned(tx) && Separate(links) && KernelsFresh(links, repos, kernels, kernel)
    modifies links, repos
    ensures old(Underway(tx, Disk(None, Pairs(links), repos.Here()))) ==>
              && LinksPublished(tx, Disk(None, Pairs(links), repos.Here()))
              && (ok <==> Completable(tx) && !R.Torn(tx.repository, tx.original, old(repos.Here())))
              && (if ok then AllDesired(tx, Disk(None, Pairs(links), repos.Here()))
                  else R.Durable(tx.repository, tx.original, repos.Here()))
  {
    ghost var underway := Underway(tx, Disk(None, Pairs(links), repos.Here()));
    assert underway ==> forall i :: 0 <= i < F.LINKS ==> L.Durable(F.Settled(tx.plan, i), links[i].Here()) by {
      forall i | underway && 0 <= i < F.LINKS
        ensures L.Durable(F.Settled(tx.plan, i), links[i].Here())
      {
        assert Pairs(links)[i] == links[i].Here();
      }
    }
    var reached := F.ReconcileLinks(tx.plan, links, kernels);
    if reached < F.LINKS {
      return false;
    }
    var outcome := repos.Reconcile(tx.repository, kernel, map[]);
    ok := outcome.Reconciled?;
    if underway {
      assert RepositoryPublication.AfterCrash(tx.repository, tx.original, old(repos.Here()), kernel);
    }
  }

  /** `journal-advance state`: the write the script makes next always succeeds. */
  method Reach(
    tx: Transaction, file: JournalStore.JournalFile, state: J.State, restarts: bool, ghost disk: Disk)
    requires Planned(tx) && disk.journal == Some(file.stored) && Invariant(tx, Driver.State(disk, Pc.Reach(state)))
    modifies file
    ensures file.stored.state == state
    ensures Invariant(tx, Driver.State(disk.(journal := Some(file.stored)), After(state, restarts)))
  {
    ghost var s := Driver.State(disk, Pc.Reach(state));
    ghost var choice := Choice(L.Choice(0, 0, 0, 0, 0, 0), R.Choice(0, 0, 0, 0, 0, 0, 0), restarts);
    ghost var j' := ReachStep(tx, s, choice);
    SafeLoads(tx, disk);
    ReachKeeps(tx, s, choice);
    var ok := JournalStore.JournalAdvance(file, state, tx.fingerprint);
    assert ok && file.stored == j';
  }

  /** `journal-phase prepared_manifest`: recorded before the generation is declared prepared. */
  method RecordManifestPhase(tx: Transaction, file: JournalStore.JournalFile, ghost disk: Disk)
    requires Planned(tx) && disk.journal == Some(file.stored) && Invariant(tx, Driver.State(disk, RecordManifest))
    modifies file
    ensures file.stored.state == J.Preparing
    ensures Invariant(tx, Driver.State(disk.(journal := Some(file.stored)), Pc.Reach(J.Prepared)))
  {
    ghost var s := Driver.State(disk, RecordManifest);
    ghost var choice := Choice(L.Choice(0, 0, 0, 0, 0, 0), R.Choice(0, 0, 0, 0, 0, 0, 0), false);
    SafeLoads(tx, disk);
    ghost var j' := RecordStep(tx, s, choice);
    RecordKeeps(tx, s, choice);
    var journal := new JournalStore.TransactionJournal.Load(file);
    var ok := journal.Record(MANIFEST_PHASE, tx.manifest);
    assert ok && journal.Value() == j';
    journal.Persist(file);
  }

  /** From the creation of the journal to the fence: nothing but the journal changes. */
  method Prepare(tx: Transaction, ghost disk: Disk) returns (file: JournalStore.JournalFile)
    requires Planned(tx) && disk.journal.None? && Safe(tx, disk)
    ensures fresh(file)
    ensures Invariant(tx, Driver.State(disk.(journal := Some(file.stored)), Pc.Reach(J.Activating)))
  {
    ghost var choice := Choice(L.Choice(0, 0, 0, 0, 0, 0), R.Choice(0, 0, 0, 0, 0, 0, 0), false);
    CreateKeeps(tx, Driver.State(disk, Create), choice);
    file := new JournalStore.JournalFile(NewJournal(tx));
    Reach(tx, file, J.Inspected, false, disk.(journal := Some(file.stored)));
    Reach(tx, file, J.Preparing, false, disk.(journal := Some(file.stored)));
    RecordManifestPhase(tx, file, disk.(journal := Some(file.stored)));
    Reach(tx, file, J.Prepared, false, disk.(journal := Some(file.stored)));
    Reach(tx, file, J.Fencing, false, disk.(journal := Some(file.stored)));
    Reach(tx, file, J.Fenced, false, disk.(journal := Some(file.stored)));
  }

  /** From the migration to the commit: the files are already as desired. */
  method Commit(tx: Transaction, file: JournalStore.JournalFile, restarts: bool, ghost disk: Disk)
    requires Planned(tx) && disk.journal == Some(file.stored)
    requires Invariant(tx, Driver.State(disk, Pc.Reach(J.MigrationStarted)))
    modifies file
    ensures file.stored.state == J.Committed
    ensures Safe(tx, disk.(journal := Some(file.stored))) && AllDesired(tx, disk.(journal := Some(file.stored)))
  {
    Reach(tx, file, J.MigrationStarted, restarts, disk.(journal := Some(file.stored)));
    Reach(tx, file, J.Migrated, restarts, disk.(journal := Some(file.stored)));
    VerifyAndCommit(tx, file, restarts, disk.(journal := Some(file.stored)));
  }

  method VerifyAndCommit(tx: Transaction, file: JournalStore.JournalFile, restarts: bool, ghost disk: Disk)
    requires Planned(tx) && disk.journal == Some(file.stored)
    requires Invariant(tx, Driver.State(disk, After(J.Migrated, restarts)))
    modifies file
    ensures file.stored.state == J.Committed
    ensures Safe(tx, disk.(journal := Some(file.stored))) && AllDesired(tx, disk.(journal := Some(file.stored)))
  {
    if restarts {
      Reach(tx, file, J.Starting, restarts, disk.(journal := Some(file.stored)));
    }
    Reach(tx, file, J.ServiceVerified, restarts, disk.(journal := Some(file.stored)));
    Reach(tx, file, J.Committed, restarts, disk.(journal := Some(file.stored)));
  }

  /** The whole script on a host as captured: it commits with everything desired if and only if
      the registration can be finished, and otherwise stops with the journal at `activating`. */
  method Replace(
    tx: Transaction, links: seq<LinkPublication.Pathnames>, repos: RepositoryPublication.RepositoryFiles,
    kernels: seq<L.Kernel>, kernel: R.Kernel, restarts: bool)
    returns (file: JournalStore.JournalFile, ok: bool)
    requires Planned(tx) && Separate(links) && KernelsFresh(links, repos, kernels, kernel)
    requires Safe(tx, Disk(None, Pairs(links), repos.Here()))
    modifies links, repos
    ensures fresh(file)
    ensures Safe(tx, Snapshot(file, links, repos))
    ensures ok <==> Completable(tx)
    ensures file.stored.state == if ok then J.Committed else J.Activating
    ensures ok ==> AllDesired(tx, Snapshot(file, links, repos))
  {
    ghost var start := Disk(None, Pairs(links), repos.Here());
    file := BeginActivation(tx, restarts, start);
    ok := ActivatePrepared(tx, file, links, repos, kernels, kernel, restarts);
    if ok {
      Commit(tx, file, restarts, Snapshot(file, links, repos));
    }
  }

  /** Up to the write that precedes the first mutation. */
  method BeginActivation(tx: Transaction, restarts: bool, ghost disk: Disk) returns (file: JournalStore.JournalFile)
    requires Planned(tx) && disk.journal.None? && Safe(tx, disk)
    ensures fresh(file)
    ensures file.stored.state == J.Activating && Safe(tx, disk.(journal := Some(file.stored)))
    ensures !R.Torn(tx.repository, tx.original, disk.repos)
  {
    assert AsCaptured(tx, disk);
    file := Prepare(tx, disk);
    Reach(tx, file, J.Activating, restarts, disk.(journal := Some(file.stored)));
  }

  /** From `activating` to `activated` on files without a torn exchange. */
  method ActivatePrepared(
    tx: Transaction, file: JournalStore.JournalFile, links: seq<LinkPublication.Pathnames>,
    repos: RepositoryPublication.RepositoryFiles, kernels: seq<L.Kernel>, kernel: R.Kernel, restarts: bool)
    returns (ok: bool)
    requires Planned(tx) && Separate(links) && KernelsFresh(links, repos, kernels, kernel)
    requires Safe(tx, Snapshot(file, links, repos)) && file.stored.state == J.Activating
    requires !R.Torn(tx.repository, tx.original, repos.Here())
    modifies file, links, repos
    ensures ok <==> Completable(tx)
    ensures ok ==> Invariant(tx, Driver.State(Snapshot(file, links, repos), Pc.Reach(J.MigrationStarted)))
    ensures ok ==> AllDesired(tx, Snapshot(file, links, repos))
    ensures !ok ==> file.stored.state == J.Activating && Safe(tx, Snapshot(file, links, repos))
  {
    ghost var before := Snapshot(file, links, repos);
    JournalIsApart(tx, before, None);
    ok := FinishActivation(tx, links, repos, kernels, kernel);
    ghost var disk := Snapshot(file, links, repos);
    JournalIsApart(tx, disk, None);
    if !ok {
      PublishedIsUnderway(tx, disk);
      return;
    }
    ActivationIsDone(tx, before, disk);
    Reach(tx, file, J.Activated, restarts, disk);
    JournalIsApart(tx, disk, Some(file.stored));
  }

  /** When activation finishes, the script may journal `activated`. */
  lemma ActivationIsDone(tx: Transaction, before: Disk, disk: Disk)
    requires Planned(tx) && Safe(tx, before) && disk.journal == before.journal && disk.journal.Some?
    requires disk.journal.value.state == J.Activating && AllDesired(tx, disk)
    ensures Invariant(tx, Driver.State(disk, Pc.Reach(J.Activated)))
  {
    DesiredIsUnderway(tx, disk);
  }

  /** The recovery every invocation starts with, on whatever disk a crash left behind: it ends
      with a terminal journal, everything desired past the boundary and everything as captured
      before it, if and only if the disk may be finished; otherwise the journal stays as it is. */
  method RecoverPreviousTransaction(
    tx: Transaction, file: JournalStore.JournalFile, links: seq<LinkPublication.Pathnames>,
    repos: RepositoryPublication.RepositoryFiles, kernels: seq<L.Kernel>, kernel: R.Kernel)
    returns (ok: bool)
    requires Planned(tx) && Separate(links) && KernelsFresh(links, repos, kernels, kernel)
    requires Safe(tx, Snapshot(file, links, repos))
    modifies file, links, repos
    ensures ok <==> old(MayFinish(tx, Snapshot(file, links, repos)))
    ensures Safe(tx, Snapshot(file, links, repos))
    ensures ok ==> J.Terminal(file.stored.state) && file.stored.irreversible == old(file.stored.irreversible)
    ensures !ok ==> file.stored == old(file.stored)
  {
    ghost var before := Snapshot(file, links, repos);
    var journal := file.stored;
    RecoveryCases(tx, before, journal);
    match J.RecoveryMode(journal) {
      case NoRecovery =>
        ok := true;
      case Discard =>
        CompleteRecovery(tx, file, before);
        ok := true;
      case Rollback =>
        assert false;
      case Forward =>
        assert Evidenced(tx, journal);
        ok := RecoverForward(tx, file, links, repos, kernels, kernel);
    }
  }

  /** Forward: the active generation is the evidence, or activation is repeated. */
  method RecoverForward(
    tx: Transaction, file: JournalStore.JournalFile, links: seq<LinkPublication.Pathnames>,
    repos: RepositoryPublication.RepositoryFiles, kernels: seq<L.Kernel>, kernel: R.Kernel)
    returns (ok: bool)
    requires Planned(tx) && Separate(links) && KernelsFresh(links, repos, kernels, kernel)
    requires Safe(tx, Snapshot(file, links, repos))
    requires PostActivation(file.stored.state) || ActivationStates(file.stored.state, true)
    modifies file, links, repos
    ensures ok <==> old(MayFinish(tx, Snapshot(file, links, repos)))
    ensures Safe(tx, Snapshot(file, links, repos))
    ensures ok ==> J.Terminal(file.stored.state) && file.stored.irreversible == old(file.stored.irreversible)
    ensures !ok ==> file.stored == old(file.stored)
  {
    ghost var before := Snapshot(file, links, repos);
    RecoveryCases(tx, before, file.stored);
    ok := true;
    if PostActivation(file.stored.state) {
      assert L.Names(before.links[F.CURRENT].live, tx.plan.targets[F.CURRENT]);
    } else {
      ok := RepeatActivation(tx, file, links, repos, kernels, kernel);
      if !ok {
        return;
      }
    }
    CompleteRecovery(tx, file, Snapshot(file, links, repos));
  }

  /** What each recovery direction finds on the disk. */
  lemma RecoveryCases(tx: Transaction, disk: Disk, j: J.Journal)
    requires Planned(tx) && Safe(tx, disk) && disk.journal == Some(j)
    ensures J.RecoveryMode(j) != J.Rollback
    ensures J.RecoveryMode(j) == J.NoRecovery ==> J.Terminal(j.state)
    ensures J.RecoveryMode(j) == J.Discard ==> AtPc(tx, disk, j, Complete)
    ensures J.RecoveryMode(j) == J.Forward ==>
              Evidenced(tx, j) && (PostActivation(j.state) || ActivationStates(j.state, true))
    ensures PostActivation(j.state) ==>
              && AtPc(tx, disk, j, Complete)
              && L.Names(disk.links[F.CURRENT].live, tx.plan.targets[F.CURRENT])
    ensures j.state != J.Activating ==> !R.Torn(tx.repository, tx.original, disk.repos)
  {
    if PostActivation(j.state) {
      assert L.Published(F.Settled(tx.plan, F.CURRENT), disk.links[F.CURRENT]);
    }
  }

  /** The staged generation is recorded, so activation is simply finished again. */
  method RepeatActivation(
    tx: Transaction, file: JournalStore.JournalFile, links: seq<LinkPublication.Pathnames>,
    repos: RepositoryPublication.RepositoryFiles, kernels: seq<L.Kernel>, kernel: R.Kernel)
    returns (ok: bool)
    requires Planned(tx) && Separate(links) && KernelsFresh(links, repos, kernels, kernel)
    requires Safe(tx, Snapshot(file, links, repos)) && ActivationStates(file.stored.state, true)
    modifies links, repos
    ensures ok <==> old(MayFinish(tx, Snapshot(file, links, repos)))
    ensures Safe(tx, Snapshot(file, links, repos))
    ensures ok ==> AtPc(tx, Snapshot(file, links, repos), file.stored, Complete)
  {
    ghost var before := Snapshot(file, links, repos);
    if file.stored.state == J.Activated {
      DesiredIsUnderway(tx, before);
    }
    JournalIsApart(tx, before, None);
    ok := FinishActivation(tx, links, repos, kernels, kernel);
    ghost var after := Snapshot(file, links, repos);
    JournalIsApart(tx, after, None);
    if ok {
      DesiredIsUnderway(tx, after);
    } else {
      PublishedIsUnderway(tx, after);
    }
  }

  lemma PublishedIsUnderway(tx: Transaction, after: Disk)
    requires Planned(tx) && R.Durable(tx.repository, tx.original, after.repos)
    requires LinksPublished(tx, after.(journal := None))
    ensures Underway(tx, after)
  {
    forall i | 0 <= i < F.LINKS
      ensures L.Durable(F.Settled(tx.plan, i), after.links[i])
    {
      assert L.Published(F.Settled(tx.plan, i), after.links[i]);
    }
  }

  /** `recovery-complete` */
  method CompleteRecovery(tx: Transaction, file: JournalStore.JournalFile, ghost disk: Disk)
    requires Planned(tx) && disk.journal == Some(file.stored)
    requires Safe(tx, disk) && AtPc(tx, disk, file.stored, Complete)
    modifies file
    ensures file.stored.state == J.Recovered && file.stored.irreversible == old(file.stored.irreversible)
    ensures Safe(tx, disk.(journal := Some(file.stored)))
  {
    SafeLoads(tx, disk);
    RecoveredMatches(tx, file.stored, disk);
    ghost var j' := RecoveryIsAccepted(tx, file.stored);
    var ok := JournalStore.RecoveryComplete(file);
    assert ok && file.stored == j';
  }

  lemma RecoveryIsAccepted(tx: Transaction, j: J.Journal) returns (j': J.Journal)
    requires Planned(tx) && Bookkept(tx, j) && J.Loads(J.Packaged, j)
    requires j.recoveredFrom.None? && !J.Terminal(j.state)
    ensures j' == j.(state := J.Recovered, recoveredFrom := Some(j.state))
    ensures J.Apply(J.Packaged, j, J.CompleteRecovery) == Some(j')
  {
    j' := j.(state := J.Recovered, recoveredFrom := Some(j.state));
    BookkeptLoads(tx, j');
  }
}
