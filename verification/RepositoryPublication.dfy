/**
 The `repos.yaml` reconciliation in the program's own form: code over two mutable
 pathnames with an `exchanged` flag and an unwinding handler, calling the transformation
 and meeting other writers between instructions. Its result is the outcome of the
 instruction machine of `RepositoryExchange`.
 */
module RepositoryPublication {
  import opened Objects
  import opened Repositories
  import opened RepositoryExchange

  datatype Outcome = Reconciled(evidence: Evidence) | ConfigurationError

  function OutcomeOf(pc: Pc): Outcome {
    if pc.Done? then Reconciled(pc.evidence) else ConfigurationError
  }

  /** Writes of other processes to `repos.yaml`, keyed by the rank of the instruction they precede. */
  type Storm = map<nat, RepoFile>

  function Struck(s: State, storm: Storm): State {
    if Remaining(s.pc) in storm then s.(pair := s.pair.(live := Some(storm[Remaining(s.pc)]))) else s
  }

  function FinishAmid(host: Host, s: State, kernel: Kernel, storm: Storm): State
    decreases Remaining(s.pc)
  {
    if Terminal(s.pc) then s
    else
      TickIsCloser(host, Struck(s, storm), kernel);
      FinishAmid(host, Tick(host, Struck(s, storm), kernel), kernel, storm)
  }

  /** Execute one instruction of the machine that shadows the code. */
  lemma {:induction false} Advance(host: Host, s: State, kernel: Kernel, storm: Storm) returns (s': State)
    requires !Terminal(s.pc)
    ensures s' == Tick(host, Struck(s, storm), kernel)
    ensures FinishAmid(host, s, kernel, storm) == FinishAmid(host, s', kernel, storm)
  {
    s' := Tick(host, Struck(s, storm), kernel);
  }

  lemma {:induction false} CalmFinish(host: Host, s: State, kernel: Kernel)
    ensures FinishAmid(host, s, kernel, map[]) == Finish(host, s, kernel)
    decreases Remaining(s.pc)
  {
    if !Terminal(s.pc) {
      TickIsCloser(host, s, kernel);
      FinishStep(host, s, kernel);
      var s' := Advance(host, s, kernel, map[]);
      CalmFinish(host, s', kernel);
    }
  }

  /** Where the machine stands when the guarded block ends. */
  function Unwound(host: Host, raw: RepoFile, failed: bool, exchanged: bool): Pc
    requires host.f(raw.payload).Some?
  {
    if !failed then Done(UpdateEvidence(host, raw.payload, Target(host, raw.payload)))
    else if exchanged then Refused
    else Abandon
  }

  /** What any crash of earlier calls may have left of `original`. */
  ghost predicate AfterCrash(host: Host, original: RepoFile, pair: Pair, kernel: Kernel) {
    Readied(host, original) && Durable(host, original, pair) && AlwaysFresh(pair, kernel)
  }

  /** How a call ends on what earlier calls may have left. */
  predicate Ends(host: Host, original: RepoFile, pair: Pair, end: State) {
    && Durable(host, original, end.pair)
    && (end.pc.Done? <==> Completable(host, original) && !Torn(host, original, pair))
    && (end.pc.Done? ==>
          && Installed(host, original, end.pair)
          && var record := end.pc.evidence;
             && record.after == end.pair.live.value.payload
             && (record.updated <==> !Installed(host, original, pair))
             && (if record.updated
                 then && record.before == original.payload && record.before != record.after
                      && record.added == host.f(original.payload).value.added
                      && record.removed == host.f(original.payload).value.removed
                 else record.before == record.after && record.added == [] && record.removed == []))
    && (!end.pc.Done? && !Oversized(host, original) ==> end.pair == pair)
  }

  lemma {:induction false} RefusalTouchesNothing(host: Host, original: RepoFile, pair: Pair, kernel: Kernel)
    requires AfterCrash(host, original, pair, kernel) && !Oversized(host, original)
    ensures var end := Finish(host, Start(pair), kernel);
            end.pc.Done? || end.pair == pair
  {
    CallCompletesIff(host, original, pair, kernel);
    if Torn(host, original, pair) {
      TornIsRefused(host, original, pair, kernel);
    } else if !Converges(host, original) {
      FinishStep(host, Start(pair), kernel);
    }
  }

  class RepositoryFiles {
    var live: Option<RepoFile>
    var temp: Option<RepoFile>

    constructor (live: Option<RepoFile>, temp: Option<RepoFile>)
      ensures Here() == Pair(live, temp)
    {
      this.live, this.temp := live, temp;
    }

    ghost function Here(): Pair
      reads this
    {
      Pair(live, temp)
    }

    method Strike(storm: Storm, rank: nat)
      modifies this
      ensures Here() == old(Here()).(live := if rank in storm then Some(storm[rank]) else old(live))
    {
      if rank in storm {
        live := Some(storm[rank]);
      }
    }

    method AtomicExchange(choice: Choice)
      requires live.Some? && temp.Some?
      modifies this
      ensures Here() == Exchange(old(Here()), choice)
    {
      live, temp := Some(temp.value.(ctime := choice.ctime)), Some(live.value.(ctime := choice.ctime'));
    }

    /** Verify the displaced bytes and the installed bytes; swap back what is not ours. */
    method VerifyExchange(
      host: Host, kernel: Kernel, storm: Storm, raw: RepoFile, desired: RepoFile)
      returns (failed: bool, exchanged: bool)
      requires live.Some? && temp.Some? && host.f(raw.payload).Some?
      modifies this
      ensures
        FinishAmid(host, State(old(Here()), ReadSwapped(raw, desired)), kernel, storm)
        == FinishAmid(host, State(Here(), Unwound(host, raw, failed, exchanged)), kernel, storm)
    {
      ghost var s := State(Here(), ReadSwapped(raw, desired));
      Strike(storm, 6);
      s := Advance(host, s, kernel, storm);
      if !Readable(host, temp) || !Same(raw, temp.value) {
        assert s == State(Here(), CheckRestorable(raw, desired));
        failed, exchanged := RestoreDisplaced(host, kernel, storm, raw, desired);
        return;
      }
      assert s == State(Here(), ReadActive(raw, desired));
      failed, exchanged := VerifyActive(host, kernel, storm, raw, desired);
    }

    method VerifyActive(
      host: Host, kernel: Kernel, storm: Storm, raw: RepoFile, desired: RepoFile)
      returns (failed: bool, exchanged: bool)
      requires live.Some? && temp.Some? && host.f(raw.payload).Some?
      modifies this
      ensures
        FinishAmid(host, State(old(Here()), ReadActive(raw, desired)), kernel, storm)
        == FinishAmid(host, State(Here(), Unwound(host, raw, failed, exchanged)), kernel, storm)
    {
      ghost var s := State(Here(), ReadActive(raw, desired));
      exchanged := false;
      Strike(storm, 3);
      s := Advance(host, s, kernel, storm);
      failed := !Readable(host, live) || !Same(desired, live.value);
      if failed {
        assert s == State(Here(), DropChanged);
        UnlinkChanged(host, kernel, storm);
      } else {
        assert s == State(Here(), DropOriginal(raw));
        Strike(storm, 1);
        temp := None;
        s := Advance(host, s, kernel, storm);
      }
    }

    method UnlinkChanged(host: Host, kernel: Kernel, storm: Storm)
      modifies this
      ensures FinishAmid(host, State(old(Here()), DropChanged), kernel, storm)
              == FinishAmid(host, State(Here(), Abandon), kernel, storm)
    {
      ghost var s := State(Here(), DropChanged);
      Strike(storm, 1);
      temp := None;
      s := Advance(host, s, kernel, storm);
      ghost var _ := Advance(host, State(Here(), Abandon), kernel, storm);
    }

    /** The displaced file is not the one read: put it back if the path still holds ours. */
    method RestoreDisplaced(
      host: Host, kernel: Kernel, storm: Storm, raw: RepoFile, desired: RepoFile)
      returns (failed: bool, exchanged: bool)
      requires live.Some? && temp.Some? && host.f(raw.payload).Some?
      modifies this
      ensures failed
      ensures
        FinishAmid(host, State(old(Here()), CheckRestorable(raw, desired)), kernel, storm)
        == FinishAmid(host, State(Here(), Unwound(host, raw, failed, exchanged)), kernel, storm)
    {
      ghost var s := State(Here(), CheckRestorable(raw, desired));
      failed, exchanged := true, true;
      Strike(storm, 3);
      s := Advance(host, s, kernel, storm);
      if !Readable(host, live) || !Same(desired, live.value) {
        return;
      }
      assert s == State(Here(), SwapBack);
      Strike(storm, 2);
      AtomicExchange(kernel(2));
      s := Advance(host, s, kernel, storm);
      exchanged := false;
    }

    /** Write the new bytes beside the file, exchange, verify; unwind unless exchanged. */
    method Install(host: Host, kernel: Kernel, storm: Storm, raw: RepoFile, converged: Converged)
      returns (outcome: Outcome)
      requires host.f(raw.payload) == Some(converged)
      modifies this
      ensures var end := FinishAmid(host, State(old(Here()), Create(raw)), kernel, storm);
              Here() == end.pair && outcome == OutcomeOf(end.pc)
    {
      ghost var s := State(Here(), Create(raw));
      Strike(storm, 10);
      s := Advance(host, s, kernel, storm);
      if temp.Some? {
        Unwind(host, kernel, storm);
        return ConfigurationError;
      }
      var choice := kernel(10);
      temp := Some(RepoFile(choice.device, choice.inode, choice.mode, choice.mtime, choice.ctime, EMPTY));
      assert s == State(Here(), Write(raw));
      Strike(storm, 9);
      temp := Some(temp.value.(payload := converged.payload, mtime := kernel(9).mtime'));
      s := Advance(host, s, kernel, storm);
      assert s == State(Here(), Identify(raw));
      var failed, exchanged := ExchangeStaged(host, kernel, storm, raw);
      if !failed {
        return Reconciled(Evidence(true, converged.added, converged.removed, raw.payload, converged.payload));
      }
      if !exchanged {
        Unwind(host, kernel, storm);
      }
      return ConfigurationError;
    }

    /** The handler: remove the exchange file unless it may hold what was displaced. */
    method Unwind(host: Host, kernel: Kernel, storm: Storm)
      modifies this
      ensures FinishAmid(host, State(old(Here()), Abandon), kernel, storm) == State(Here(), Refused)
    {
      ghost var _ := Advance(host, State(Here(), Abandon), kernel, storm);
      Strike(storm, 1);
      temp := None;
    }

    method ExchangeStaged(host: Host, kernel: Kernel, storm: Storm, raw: RepoFile)
      returns (failed: bool, exchanged: bool)
      requires temp.Some? && host.f(raw.payload).Some?
      modifies this
      ensures var end := FinishAmid(host, State(old(Here()), Identify(raw)), kernel, storm);
              end == FinishAmid(host, State(Here(), Unwound(host, raw, failed, exchanged)), kernel, storm)
    {
      ghost var s := State(Here(), Identify(raw));
      failed, exchanged := true, true;
      Strike(storm, 8);
      var desired := temp.value;
      s := Advance(host, s, kernel, storm);
      assert s == State(Here(), Swap(raw, desired));
      Strike(storm, 7);
      s := Advance(host, s, kernel, storm);
      if live.None? {
        return;
      }
      AtomicExchange(kernel(7));
      failed, exchanged := VerifyExchange(host, kernel, storm, raw, desired);
    }

    /** Register the exact relay-owned repositories, or report what an earlier call did. */
    method Reconcile(host: Host, kernel: Kernel, storm: Storm) returns (outcome: Outcome)
      modifies this
      ensures var end := FinishAmid(host, Start(old(Here())), kernel, storm);
              Here() == end.pair && outcome == OutcomeOf(end.pc)
      ensures forall original :: storm == map[] && AfterCrash(host, original, old(Here()), kernel) ==>
                && Durable(host, original, Here())
                && (outcome.Reconciled? <==> Completable(host, original) && !Torn(host, original, old(Here())))
                && (outcome.Reconciled? ==>
                      && Installed(host, original, Here())
                      && var record := outcome.evidence;
                         && record.after == live.value.payload
                         && (record.updated <==> !Installed(host, original, old(Here())))
                         && (if record.updated
                             then && record.before == original.payload && record.before != record.after
                                  && record.added == host.f(original.payload).value.added
                                  && record.removed == host.f(original.payload).value.removed
                             else record.before == record.after && record.added == [] && record.removed == []))
                && (!outcome.Reconciled? && !Oversized(host, original) ==> Here() == old(Here()))
    {
      forall original | storm == map[] && AfterCrash(host, original, Here(), kernel)
        ensures Ends(host, original, Here(), FinishAmid(host, Start(Here()), kernel, storm))
      {
        CalmFinish(host, Start(Here()), kernel);
        CallCompletesIff(host, original, Here(), kernel);
        if !Oversized(host, original) {
          RefusalTouchesNothing(host, original, Here(), kernel);
        }
      }
      outcome := Execute(host, kernel, storm);
    }

    /** The program: read, converge, recover an interrupted exchange, reuse or install. */
    method Execute(host: Host, kernel: Kernel, storm: Storm)
      returns (outcome: Outcome)
      modifies this
      ensures var end := FinishAmid(host, Start(old(Here())), kernel, storm);
              Here() == end.pair && outcome == OutcomeOf(end.pc)
    {
      ghost var s := Start(Here());
      Strike(storm, 15);
      s := Advance(host, s, kernel, storm);
      if !Readable(host, live) {
        return ConfigurationError;
      }
      var raw := live.value;
      var converged := host.f(raw.payload);
      if converged.None? {
        return ConfigurationError;
      }
      assert s == State(Here(), Probe(raw));
      Strike(storm, 14);
      s := Advance(host, s, kernel, storm);
      if temp.Some? {
        assert s == State(Here(), ReadDisplaced(raw));
        var decided := RecoverExchange(host, kernel, storm, raw, converged.value);
        if decided.Some? {
          return decided.value;
        }
      }
      outcome := ReuseOrInstall(host, kernel, storm, raw, converged.value);
    }

    method ReuseOrInstall(host: Host, kernel: Kernel, storm: Storm, raw: RepoFile, converged: Converged)
      returns (outcome: Outcome)
      requires host.f(raw.payload) == Some(converged)
      modifies this
      ensures var end := FinishAmid(host, State(old(Here()), ReuseCheck(raw)), kernel, storm);
              Here() == end.pair && outcome == OutcomeOf(end.pc)
    {
      ghost var s := State(Here(), ReuseCheck(raw));
      Strike(storm, 11);
      s := Advance(host, s, kernel, storm);
      if converged.payload == raw.payload {
        return Reconciled(Evidence(false, [], [], raw.payload, raw.payload));
      }
      assert s == State(Here(), Create(raw));
      outcome := Install(host, kernel, storm, raw, converged);
    }

    /** An exchange file exists: ask which file is the converged form of the other. */
    method RecoverExchange(
      host: Host, kernel: Kernel, storm: Storm, raw: RepoFile, converged: Converged)
      returns (decided: Option<Outcome>)
      requires temp.Some? && host.f(raw.payload) == Some(converged)
      modifies this
      ensures var end := FinishAmid(host, State(old(Here()), ReadDisplaced(raw)), kernel, storm);
              if decided.Some? then end.pair == Here() && OutcomeOf(end.pc) == decided.value
              else end == FinishAmid(host, State(Here(), ReuseCheck(raw)), kernel, storm)
    {
      ghost var s := State(Here(), ReadDisplaced(raw));
      Strike(storm, 13);
      s := Advance(host, s, kernel, storm);
      if !Readable(host, temp) {
        return Some(ConfigurationError);
      }
      var displaced := temp.value.payload;
      var reconverged := host.f(displaced);
      if reconverged.None? {
        return Some(ConfigurationError);
      }
      if displaced != reconverged.value.payload && reconverged.value.payload == raw.payload {
        var evidence :=
          Evidence(true, reconverged.value.added, reconverged.value.removed, displaced, raw.payload);
        assert s == State(Here(), DropRecovered(evidence));
        UnlinkRecovered(host, kernel, storm, evidence);
        return Some(Reconciled(evidence));
      }
      if raw.payload != converged.payload && converged.payload == displaced {
        assert s == State(Here(), DropStaged(raw));
        UnlinkStaged(host, kernel, storm, raw);
        return None;
      }
      return Some(ConfigurationError);
    }

    method UnlinkRecovered(host: Host, kernel: Kernel, storm: Storm, evidence: Evidence)
      modifies this
      ensures FinishAmid(host, State(old(Here()), DropRecovered(evidence)), kernel, storm) == State(Here(), Done(evidence))
    {
      ghost var s := State(Here(), DropRecovered(evidence));
      Strike(storm, 1);
      temp := None;
      s := Advance(host, s, kernel, storm);
    }

    method UnlinkStaged(host: Host, kernel: Kernel, storm: Storm, raw: RepoFile)
      modifies this
      ensures FinishAmid(host, State(old(Here()), DropStaged(raw)), kernel, storm)
              == FinishAmid(host, State(Here(), ReuseCheck(raw)), kernel, storm)
    {
      ghost var s := State(Here(), DropStaged(raw));
      Strike(storm, 12);
      temp := None;
      s := Advance(host, s, kernel, storm);
    }
  }
}
