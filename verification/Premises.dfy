/**
 What the theorems over schedules assume, over the fields themselves: when a kernel choice is
 fresh, what a crash keeps, which requests, transactions and journals are covered, and what
 another writer may put at a path.
 */
module Premises {
  import opened Objects
  import L = LinkExchange
  import B = BindingRepair
  import W = ForeignWriter
  import F = FiveLinks
  import P = Repositories
  import R = RepositoryExchange
  import X = ForeignRepository
  import J = Journals
  import D = Driver
  import opened Identifiers
  import opened OwnedPaths
  import opened PosixPaths

  /* ---------- links ---------- */

  predicate Elsewhere(entry: Option<Object>, device: nat, inode: nat) {
    entry.None? || entry.value.device != device || entry.value.inode != inode
  }

  predicate NewFor(pair: L.Pair, choice: L.Choice) {
    Elsewhere(pair.live, choice.device, choice.inode) && Elsewhere(pair.exch, choice.device, choice.inode)
  }

  /** One instruction with a new inode, or a crash that keeps the two pathnames and nothing else. */
  ghost predicate LinkMove(request: L.Request, run: seq<L.State>, i: nat)
    requires 0 < i < |run|
  {
    var s, s' := run[i - 1], run[i];
    || (s'.pair == s.pair && s'.pc == L.Probe)
    || exists choice: L.Choice ::
         NewFor(s.pair, choice) && s' == L.Step(request, s, choice)
  }

  lemma LinkStepIff(request: L.Request, run: seq<L.State>, i: nat)
    requires 0 < i < |run|
    ensures L.NextAt(request, run, i) <==> LinkMove(request, run, i)
  {
    var s, s' := run[i - 1], run[i];
    if L.Executes(request, s, s') {
      var choice :| L.Fresh(s.pair, choice) && s' == L.Step(request, s, choice);
      assert NewFor(s.pair, choice);
    }
    if choice: L.Choice :| NewFor(s.pair, choice) && s' == L.Step(request, s, choice) {
      assert L.Fresh(s.pair, choice);
    }
  }

  lemma LinkScheduleIff(request: L.Request, run: seq<L.State>)
    ensures L.Run(request, run) <==> |run| > 0 && forall i: nat :: 0 < i < |run| ==> LinkMove(request, run, i)
  {
    forall i: nat | 0 < i < |run|
      ensures L.NextAt(request, run, i) <==> LinkMove(request, run, i)
    {
      LinkStepIff(request, run, i);
    }
  }

  /** The requests that crash convergence covers. */
  lemma RecoverableIff(request: L.Request)
    ensures L.Recoverable(request) <==>
              && L.OneLine(request.target) && request.target in request.aliases
              && (request.before.Some? ==>
                    || (request.before.value.body.Link? && L.OneLine(request.before.value.body.target) && request.kind != FileKind)
                    || (&& request.before.value.body.Regular? && 1 <= request.before.value.size <= 4194304
                        && request.kind == FileOrSymlinkKind))
    ensures B.Repairable(request) <==> L.Recoverable(request) && request.kind == SymlinkKind
  {
  }

  /** A foreign replacement: any object of another inode that is not the snapshot. */
  lemma LinkIntruderIff(request: L.Request, s: L.State, intruder: Object)
    ensures W.Intrudes(request, s, intruder) <==>
              && Elsewhere(s.pair.live, intruder.device, intruder.inode)
              && Elsewhere(s.pair.exch, intruder.device, intruder.inode)
              && (request.before.None? || intruder.(ctime := request.before.value.ctime) != request.before.value)
    ensures W.Replace(s, intruder) == L.State(L.Pair(Some(intruder), s.pair.exch), s.pc)
    ensures W.AtPath(s, intruder) <==> s.pair.live.Some? && s.pair.live.value.(ctime := intruder.ctime) == intruder
    ensures W.AtExchangeName(s, intruder) <==> s.pair.exch.Some? && s.pair.exch.value.(ctime := intruder.ctime) == intruder
  {
  }

  /** One instruction of the five publications, or a crash that keeps all ten pathnames and
      starts over with the first link. */
  lemma ActivationScheduleIff(plan: F.Plan, run: seq<F.Activation>)
    requires F.Shaped(plan)
    ensures F.Schedule(plan, run) <==>
              |run| > 0 && forall i: nat :: 0 < i < |run| ==>
                F.MovesAt(plan, run, i) || (run[i].pairs == run[i - 1].pairs && run[i].index == 0 && run[i].pc == L.Probe)
  {
    forall i: nat | 0 < i < |run|
      ensures F.NextAt(plan, run, i) <==>
                F.MovesAt(plan, run, i) || (run[i].pairs == run[i - 1].pairs && run[i].index == 0 && run[i].pc == L.Probe)
    {
    }
  }

  /* ---------- repos.yaml ---------- */

  predicate FileElsewhere(entry: Option<R.RepoFile>, device: nat, inode: nat) {
    entry.None? || entry.value.device != device || entry.value.inode != inode
  }

  predicate NewFileFor(pair: R.Pair, choice: R.Choice) {
    FileElsewhere(pair.live, choice.device, choice.inode) && FileElsewhere(pair.temp, choice.device, choice.inode)
  }

  /** A crash keeps the two pathnames, except that one during the write may leave any bytes. */
  predicate RepositoryCrash(s: R.State, s': R.State) {
    && s'.pc == R.ReadFile
    && s'.pair.live == s.pair.live
    && if s.pc.Write? && s.pair.temp.Some?
       then s'.pair.temp.Some? && s'.pair.temp.value.(payload := s.pair.temp.value.payload) == s.pair.temp.value
       else s'.pair.temp == s.pair.temp
  }

  ghost predicate RepositoryMove(host: R.Host, run: seq<R.State>, i: nat)
    requires 0 < i < |run|
  {
    var s, s' := run[i - 1], run[i];
    || RepositoryCrash(s, s')
    || exists choice: R.Choice ::
         NewFileFor(s.pair, choice) && s' == R.Step(host, s, choice)
  }

  lemma CrashIff(s: R.State, s': R.State)
    ensures (exists torn :: s' == R.Crash(s, torn)) <==> RepositoryCrash(s, s')
  {
    if RepositoryCrash(s, s') {
      var torn := if s'.pair.temp.Some? then s'.pair.temp.value.payload else P.Malformed("");
      assert s' == R.Crash(s, torn);
    }
  }

  lemma RepositoryStepIff(host: R.Host, run: seq<R.State>, i: nat)
    requires 0 < i < |run|
    ensures R.NextAt(host, run, i) <==> RepositoryMove(host, run, i)
  {
    var s, s' := run[i - 1], run[i];
    CrashIff(s, s');
    if R.Executes(host, s, s') {
      var choice :| R.Fresh(s.pair, choice) && s' == R.Step(host, s, choice);
      assert NewFileFor(s.pair, choice);
    }
    if choice: R.Choice :| NewFileFor(s.pair, choice) && s' == R.Step(host, s, choice) {
      assert R.Fresh(s.pair, choice);
    }
  }

  lemma RepositoryScheduleIff(host: R.Host, run: seq<R.State>)
    ensures R.Run(host, run) <==> |run| > 0 && forall i: nat :: 0 < i < |run| ==> RepositoryMove(host, run, i)
  {
    forall i: nat | 0 < i < |run|
      ensures R.NextAt(host, run, i) <==> RepositoryMove(host, run, i)
    {
      RepositoryStepIff(host, run, i);
    }
  }

  /** A foreign file: any file of an inode that is neither the original nor at a pathname. */
  lemma RepositoryIntruderIff(original: R.RepoFile, s: R.State, intruder: R.RepoFile)
    ensures X.Intrudes(original, s, intruder) <==>
              && FileElsewhere(Some(original), intruder.device, intruder.inode)
              && FileElsewhere(s.pair.live, intruder.device, intruder.inode)
              && FileElsewhere(s.pair.temp, intruder.device, intruder.inode)
    ensures X.Replace(s, intruder) == R.State(R.Pair(Some(intruder), s.pair.temp), s.pc)
    ensures X.AtPath(s, intruder) <==> s.pair.live.Some? && s.pair.live.value.(ctime := intruder.ctime) == intruder
    ensures X.AtExchangeName(s, intruder) <==> s.pair.temp.Some? && s.pair.temp.value.(ctime := intruder.ctime) == intruder
  {
  }

  /** Why a call is refused: the transformation is undefined, the exchange file holds other bytes
      than its result, or that result is too long and the path is no longer untouched. */
  lemma BlockedIff(host: R.Host, original: R.RepoFile, pair: R.Pair)
    ensures R.Blocked(host, original, pair) <==>
              if host.f(original.payload).None? then pair == R.Pair(Some(original), None)
              else
                var target := host.f(original.payload).value.payload;
                || (&& target != original.payload && pair.live == Some(original) && pair.temp.Some?
                    && FileElsewhere(Some(original), pair.temp.value.device, pair.temp.value.inode)
                    && pair.temp.value.payload != target)
                || (P.Size(target) > host.maximum && pair != R.Pair(Some(original), None) && R.Durable(host, original, pair))
  {
  }

  /* ---------- journals and transactions ---------- */

  /** A journal as it is created, for any mode and any owned paths, and when it loads. */
  lemma NewJournalLoadsIff(
    machine: J.Machine, invocation: string, fingerprint: string, mode: J.Mode, owned: map<string, Owned>)
    requires forall name :: name in owned ==> owned[name].identity == None
    ensures var j := J.Journal(invocation, fingerprint, mode, J.Locked, None, None, false, owned, map["locked" := fingerprint]);
            && J.Created(j)
            && (J.Loads(machine, j) <==>
                  && IsIdentifier(invocation) && IsSha256(fingerprint)
                  && (machine == J.DependencyFree ==>
                        && |invocation| <= 160 && |owned| <= 128
                        && forall name :: name in owned ==> IsIdentifier(name) && |name| <= 160)
                  && (forall name :: name in owned ==>
                        ".." !in owned[name].path && forall part :: part in owned[name].path ==> Component(part))
                  && (forall a, b :: a in owned && b in owned && a != b ==> owned[a].path != owned[b].path))
  {
    forall name | name in owned
      ensures WellRecorded(owned[name]) <==>
                ".." !in owned[name].path && forall part :: part in owned[name].path ==> Component(part)
    {
      NormalIff(owned[name].path);
    }
    var phases := map["locked" := fingerprint];
    assert "locked" in phases;
    assert IsIdentifier("locked");
    assert |phases| == 1;
  }

  /** When a journal on disk loads at all, by its fields. */
  lemma LoadsIff(machine: J.Machine, j: J.Journal)
    ensures J.Loads(machine, j) <==>
              && IsIdentifier(j.invocation) && IsSha256(j.fingerprint)
              && (forall name :: name in j.phases ==> IsIdentifier(name) && IsSha256(j.phases[name]))
              && (forall name :: name in j.owned ==> WellRecorded(j.owned[name]))
              && (forall a, b :: a in j.owned && b in j.owned && a != b ==> j.owned[a].path != j.owned[b].path)
              && (machine == J.DependencyFree ==>
                    && |j.invocation| <= 160 && |j.owned| <= 128 && |j.phases| > 0
                    && (forall name :: name in j.phases ==> |name| <= 160)
                    && (forall name :: name in j.owned ==> IsIdentifier(name) && |name| <= 160)
                    && (j.prepared != None ==> IsSha256(j.prepared.value)))
              && (match j.state
                  case Prepared | Activating | Activated => j.prepared != None && j.prepared != Some("")
                  case MigrationStarted | Migrated | Starting | ServiceVerified | Committed =>
                    j.prepared != None && j.prepared != Some("") && j.irreversible
                  case _ => true)
  {
  }

  lemma NormalIff(path: Path)
    ensures Normal(path) <==> forall part :: part in path ==> Component(part)
  {
    forall i | 0 <= i < |path|
      ensures path[i] in path
    {
    }
  }

  /** The events of the bisimulation. */
  lemma SharedIff(event: J.Event)
    ensures J.Shared(event) <==>
              || (event.Advance? && |event.generation| == 64 && forall c :: c in event.generation ==> c in "0123456789abcdef")
              || (event.RecordPhase? && |event.phase| <= 160)
  {
    if event.Advance? {
      Sha256Iff(event.generation);
    }
  }

  /** The transactions that the driver's theorems cover. */
  lemma PlannedIff(tx: D.Transaction)
    ensures D.Planned(tx) <==>
              && F.Captured(tx.plan) && R.Lawful(tx.repository)
              && 1 <= P.Size(tx.original.payload) <= tx.repository.maximum
              && tx.mode in {J.RelayOnly, J.ComponentUpgrade}
              && IsIdentifier(tx.invocation) && IsSha256(tx.fingerprint) && IsSha256(tx.manifest)
  {
  }

  /** A crash of the driver keeps the disk, except the bytes of a torn write, and the next
      invocation starts from the journal. */
  lemma DriverCrashIff(s: D.State, s': D.State)
    ensures D.Crashes(s, s') <==>
              && s'.pc == D.Dispatch
              && s'.disk.journal == s.disk.journal && s'.disk.links == s.disk.links
              && if s.pc.Register?
                 then RepositoryCrash(R.State(s.disk.repos, s.pc.repo), R.State(s'.disk.repos, R.ReadFile))
                 else s'.disk.repos == s.disk.repos
  {
    if s.pc.Register? {
      var before := R.State(s.disk.repos, s.pc.repo);
      CrashIff(before, R.State(s'.disk.repos, R.ReadFile));
      if torn :| R.State(s'.disk.repos, R.ReadFile) == R.Crash(before, torn) {
        assert s'.pc == D.Dispatch && s'.disk.journal == s.disk.journal && s'.disk.links == s.disk.links ==>
            s' == D.Crash(s, torn);
      }
      if torn :| s' == D.Crash(s, torn) {
        assert R.State(s'.disk.repos, R.ReadFile) == R.Crash(before, torn);
      }
    } else {
      assert s' == D.Crash(s, P.Malformed("")) <==>
             s'.pc == D.Dispatch && s'.disk.journal == s.disk.journal && s'.disk.links == s.disk.links && s'.disk.repos == s.disk.repos;
    }
  }
}
