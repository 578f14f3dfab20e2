/**
 One non-cooperating writer against a `repos.yaml` reconciliation: it replaces the file once,
 after the call has read it. The theorems say exactly when its file is at the path at the
 end, and exactly when a later recovery deletes it.
 */
module ForeignRepository {
  import opened Objects
  import opened Repositories
  import opened RepositoryExchange

  function Replace(s: State, intruder: RepoFile): State {
    s.(pair := s.pair.(live := Some(intruder)))
  }

  /** The writer's file coexists with what it replaces, so it has an inode of its own. */
  predicate Intrudes(original: RepoFile, s: State, intruder: RepoFile) {
    && !SameInode(original, intruder)
    && (s.pair.live.Some? ==> !SameInode(s.pair.live.value, intruder))
    && (s.pair.temp.Some? ==> !SameInode(s.pair.temp.value, intruder))
  }

  predicate AtPath(s: State, intruder: RepoFile) { s.pair.live.Some? && Same(intruder, s.pair.live.value) }

  predicate AtExchangeName(s: State, intruder: RepoFile) { s.pair.temp.Some? && Same(intruder, s.pair.temp.value) }

  /** The call is going to install a converged form that it cannot read back. */
  predicate Overreaches(host: Host, raw: RepoFile) {
    && host.f(raw.payload).Some?
    && Target(host, raw.payload) != raw.payload
    && Size(Target(host, raw.payload)) > host.maximum
  }

  /** The writer's file is at the path of a call that read another one. */
  predicate Holding(host: Host, s: State, intruder: RepoFile) {
    && AtPath(s, intruder)
    && (s.pair.temp.Some? ==> !SameInode(s.pair.temp.value, intruder))
    && match s.pc
       case Probe(raw) => Reads(host, raw, intruder)
       case ReadDisplaced(raw) => Reads(host, raw, intruder) && s.pair.temp.Some?
       case DropStaged(raw) => Reads(host, raw, intruder) && Size(Target(host, raw.payload)) <= host.maximum
       case ReuseCheck(raw) => Reads(host, raw, intruder) && s.pair.temp.None?
       case Create(raw) => Reads(host, raw, intruder) && Target(host, raw.payload) != raw.payload && s.pair.temp.None?
       case Write(raw) => Reads(host, raw, intruder) && Target(host, raw.payload) != raw.payload && s.pair.temp.Some?
       case Identify(raw) => Reads(host, raw, intruder) && WritesTarget(host, raw, s.pair.temp)
       case Swap(raw, desired) =>
         Reads(host, raw, intruder) && WritesTarget(host, raw, s.pair.temp) && s.pair.temp == Some(desired)
       case ReadSwapped(_, desired) => !SameInode(desired, intruder)
       case ReadActive(_, desired) => !SameInode(desired, intruder)
       case CheckRestorable(_, desired) => !SameInode(desired, intruder)
       case SwapBack => false
       case ReadFile => false
       case _ => true
  }

  predicate Reads(host: Host, raw: RepoFile, intruder: RepoFile) {
    !SameInode(raw, intruder) && host.f(raw.payload).Some?
  }

  predicate WritesTarget(host: Host, raw: RepoFile, temp: Option<RepoFile>)
    requires host.f(raw.payload).Some?
  {
    && Target(host, raw.payload) != raw.payload
    && temp.Some? && temp.value.payload == Target(host, raw.payload) && 1 <= Size(temp.value.payload)
  }

  /** It was swapped out, and the call compares what it displaced with what it read. */
  predicate Displaced(host: Host, s: State, intruder: RepoFile) {
    && AtExchangeName(s, intruder)
    && s.pair.live.Some? && !SameInode(s.pair.live.value, intruder)
    && match s.pc
       case ReadSwapped(raw, desired) => !SameInode(raw, intruder) && Same(desired, s.pair.live.value) && Size(desired.payload) >= 1
       case CheckRestorable(_, desired) => Same(desired, s.pair.live.value) && Size(desired.payload) >= 1
       case SwapBack => Size(s.pair.live.value.payload) <= host.maximum
       case Refused => true
       case _ => false
  }

  /** Where the running call is going to leave the writer's file: at the exchange name? */
  predicate Stranding(host: Host, s: State, intruder: RepoFile) {
    match s.pc
    case Probe(raw) => Overreaches(host, raw) && s.pair.temp.None?
    case ReuseCheck(raw) => Overreaches(host, raw)
    case Create(raw) => Overreaches(host, raw)
    case Write(raw) => Overreaches(host, raw)
    case Identify(raw) => Overreaches(host, raw)
    case Swap(raw, _) => Overreaches(host, raw)
    case ReadSwapped(_, desired) => AtExchangeName(s, intruder) && Size(desired.payload) > host.maximum
    case CheckRestorable(_, desired) => AtExchangeName(s, intruder) && Size(desired.payload) > host.maximum
    case Refused => AtExchangeName(s, intruder)
    case _ => false
  }

  predicate Tracked(host: Host, s: State, intruder: RepoFile) {
    Holding(host, s, intruder) || Displaced(host, s, intruder)
  }

  lemma {:induction false} HoldingStep(host: Host, s: State, choice: Choice, intruder: RepoFile)
    requires Lawful(host) && Holding(host, s, intruder) && !Terminal(s.pc)
    requires s.pc.Create? ==> (choice.device, choice.inode) != (intruder.device, intruder.inode)
    ensures var s' := Step(host, s, choice);
            Tracked(host, s', intruder) && (Stranding(host, s', intruder) <==> Stranding(host, s, intruder))
  {
    if s.pc.Probe? || s.pc.ReadDisplaced? || s.pc.DropStaged? || s.pc.ReuseCheck? {
      ReadingStep(host, s, choice, intruder);
    } else if s.pc.Create? || s.pc.Write? || s.pc.Identify? || s.pc.Swap? {
      WritingStep(host, s, choice, intruder);
    } else {
      VerifyingStep(host, s, choice, intruder);
    }
  }

  lemma {:induction false} ReadingStep(host: Host, s: State, choice: Choice, intruder: RepoFile)
    requires Lawful(host) && Holding(host, s, intruder) && !Terminal(s.pc)
    requires s.pc.Create? ==> (choice.device, choice.inode) != (intruder.device, intruder.inode)
    requires s.pc.Probe? || s.pc.ReadDisplaced? || s.pc.DropStaged? || s.pc.ReuseCheck?
    ensures var s' := Step(host, s, choice);
            Tracked(host, s', intruder) && (Stranding(host, s', intruder) <==> Stranding(host, s, intruder))
  {
  }

  lemma {:induction false} WritingStep(host: Host, s: State, choice: Choice, intruder: RepoFile)
    requires Lawful(host) && Holding(host, s, intruder) && !Terminal(s.pc)
    requires s.pc.Create? ==> (choice.device, choice.inode) != (intruder.device, intruder.inode)
    requires s.pc.Create? || s.pc.Write? || s.pc.Identify? || s.pc.Swap?
    ensures var s' := Step(host, s, choice);
            Tracked(host, s', intruder) && (Stranding(host, s', intruder) <==> Stranding(host, s, intruder))
  {
    if s.pc.Write? {
      TargetIsWritten(host, s.pc.raw);
    }
  }

  lemma {:induction false} VerifyingStep(host: Host, s: State, choice: Choice, intruder: RepoFile)
    requires Lawful(host) && Holding(host, s, intruder) && !Terminal(s.pc)
    requires s.pc.Create? ==> (choice.device, choice.inode) != (intruder.device, intruder.inode)
    requires Remaining(s.pc) <= 6
    ensures var s' := Step(host, s, choice);
            Tracked(host, s', intruder) && (Stranding(host, s', intruder) <==> Stranding(host, s, intruder))
  {
  }

  lemma TargetIsWritten(host: Host, raw: RepoFile)
    requires Lawful(host) && host.f(raw.payload).Some? && Target(host, raw.payload) != raw.payload
    ensures Size(Target(host, raw.payload)) >= 1
  {
    assert LawfulAt(host, raw.payload);
  }

  lemma {:induction false} DisplacedStep(host: Host, s: State, choice: Choice, intruder: RepoFile)
    requires Displaced(host, s, intruder) && !Terminal(s.pc)
    ensures var s' := Step(host, s, choice);
            Tracked(host, s', intruder) && (Stranding(host, s', intruder) <==> Stranding(host, s, intruder))
  {
  }

  lemma {:induction false} FinishTracks(host: Host, s: State, kernel: Kernel, intruder: RepoFile)
    requires Lawful(host) && Tracked(host, s, intruder)
    requires (kernel(10).device, kernel(10).inode) != (intruder.device, intruder.inode)
    ensures var end := Finish(host, s, kernel);
            && Tracked(host, end, intruder)
            && (end.pc.Refused? && AtExchangeName(end, intruder) <==> Stranding(host, s, intruder))
            && (AtPath(end, intruder) <==> !Stranding(host, s, intruder))
    decreases Remaining(s.pc)
  {
    if !Terminal(s.pc) {
      TickIsCloser(host, s, kernel);
      FinishStep(host, s, kernel);
      if Holding(host, s, intruder) {
        HoldingStep(host, s, kernel(Remaining(s.pc)), intruder);
      } else {
        DisplacedStep(host, s, kernel(Remaining(s.pc)), intruder);
      }
      FinishTracks(host, Tick(host, s, kernel), kernel, intruder);
    }
  }

  /** Instants at which the call that read the file is still going to exchange it. */
  predicate BeforeTheExchange(s: State) {
    match s.pc
    case Probe(_) => s.pair.temp.None?
    case ReuseCheck(_) => true
    case Create(_) => true
    case Write(_) => true
    case Identify(_) => true
    case Swap(_, _) => true
    case _ => false
  }

  /** One replacement at any instant after the read of any crash schedule, with the struck call
      left alone: the writer's file is at the path when the call ends, unless the call is about
      to install bytes it cannot read back; then, and only then, it is left at the exchange
      name. It is never deleted. */
  lemma {:induction false} ForeignFileIsLiveAtTheEndIff(
    host: Host, original: RepoFile, s: State, kernel: Kernel, intruder: RepoFile)
    requires Readied(host, original) && Invariant(host, original, s) && !s.pc.ReadFile?
    requires Intrudes(original, s, intruder)
    requires (kernel(10).device, kernel(10).inode) != (intruder.device, intruder.inode)
    ensures var end := Finish(host, Replace(s, intruder), kernel);
            && (AtPath(end, intruder) <==> !(Oversized(host, original) && BeforeTheExchange(s)))
            && (AtPath(end, intruder) || AtExchangeName(end, intruder))
  {
    StruckIsHeld(host, original, s, intruder);
    FinishTracks(host, Replace(s, intruder), kernel, intruder);
  }

  lemma {:induction false} StruckIsHeld(host: Host, original: RepoFile, s: State, intruder: RepoFile)
    requires Readied(host, original) && Invariant(host, original, s) && !s.pc.ReadFile?
    requires Intrudes(original, s, intruder)
    ensures Holding(host, Replace(s, intruder), intruder)
    ensures Stranding(host, Replace(s, intruder), intruder) <==> Oversized(host, original) && BeforeTheExchange(s)
  {
    if Converges(host, original) {
      TargetIsFixed(host, original);
    }
  }

  /* ---------- a crash while the file is displaced ---------- */

  /** Power is lost while the writer's file stands at the exchange name and the installed form
      of the file that was read is live. The next call deletes the writer's file if and only if
      it reads both, and the live file is what the writer's file converges to; otherwise it is
      refused and both files stay. */
  lemma {:induction false} RecoveryDeletesForeignFileIff(
    host: Host, original: RepoFile, pair: Pair, kernel: Kernel)
    requires Readied(host, original) && Converges(host, original)
    requires pair.live.Some? && pair.live.value.payload == Target(host, original.payload) && pair.temp.Some?
    ensures var end, foreign := Finish(host, Start(pair), kernel), pair.temp.value.payload;
            && (end.pair.temp.None? <==>
                  && Completable(host, original)
                  && Readable(host, pair.temp)
                  && host.f(foreign).Some?
                  && foreign != Target(host, foreign)
                  && Target(host, foreign) == pair.live.value.payload)
            && (end.pair.temp.Some? ==> end == State(pair, Refused))
  {
    TargetIsFixed(host, original);
    FinishStep(host, Start(pair), kernel);
    var s1 := Tick(host, Start(pair), kernel);
    if s1.pc.Probe? {
      FinishStep(host, s1, kernel);
      var s2 := Tick(host, s1, kernel);
      FinishStep(host, s2, kernel);
      var s3 := Tick(host, s2, kernel);
      assert !s3.pc.DropStaged?;
      if s3.pc.DropRecovered? {
        FinishStep(host, s3, kernel);
      }
    }
  }
}
