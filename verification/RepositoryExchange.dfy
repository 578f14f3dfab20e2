/**
 The crash protocol that installs a converged `repos.yaml`: write the new bytes beside the
 file, exchange the two pathnames atomically, verify what was displaced, unlink it. A rerun
 decides where an earlier call died by asking whether one file's converged form is the
 other file, so its correctness rests on the fixpoint law of the transformation.
 */
module RepositoryExchange {
  import opened Objects
  import opened Repositories

  datatype RepoFile = RepoFile(device: nat, inode: nat, mode: nat, mtime: nat, ctime: nat, payload: Payload)

  /** `repos.yaml` and its exchange name. */
  datatype Pair = Pair(live: Option<RepoFile>, temp: Option<RepoFile>)

  /** The transformation of the call, with its paths fixed, and the size up to which files are
      read. The protocol uses nothing of the transformation but its laws. */
  datatype Host = Host(f: Payload -> Option<Converged>, maximum: nat)

  /** f(f(x)) = f(x), defined whenever f(x) is and reporting nothing; and f writes no empty file. */
  predicate LawfulAt(host: Host, x: Payload) {
    host.f(x).Some? ==>
      var target := host.f(x).value.payload;
      host.f(target) == Some(Converged(target, [], [])) && (target == x || Size(target) >= 1)
  }

  ghost predicate Lawful(host: Host) { forall x :: LawfulAt(host, x) }

  /** The repository transformation is such an operator. */
  function HostOf(context: Context, maximum: nat): Host { Host(payload => Converge(context, payload), maximum) }

  lemma HostIsLawful(context: Context, maximum: nat)
    requires WellFormed(context)
    ensures Lawful(HostOf(context, maximum))
  {
    forall x
      ensures LawfulAt(HostOf(context, maximum), x)
    {
      if Converge(context, x).Some? {
        ConvergeIsFixpoint(context, x);
      }
    }
  }

  const REPOSITORIES_MAXIMUM: nat := 4 * 1024 * 1024

  /** The record a call returns; hashing is injective, so it carries the bytes themselves. */
  datatype Evidence = Evidence(
    updated: bool, added: seq<string>, removed: seq<string>, before: Payload, after: Payload)

  datatype Pc =
    | ReadFile
    | Probe(raw: RepoFile)
    | ReadDisplaced(raw: RepoFile)
    | DropRecovered(evidence: Evidence)
    | DropStaged(raw: RepoFile)
    | ReuseCheck(raw: RepoFile)
    | Create(raw: RepoFile)
    | Write(raw: RepoFile)
    | Identify(raw: RepoFile)
    | Swap(raw: RepoFile, desired: RepoFile)
    | ReadSwapped(raw: RepoFile, desired: RepoFile)
    | CheckRestorable(raw: RepoFile, desired: RepoFile)
    | SwapBack
    | Abandon
    | ReadActive(raw: RepoFile, desired: RepoFile)
    | DropChanged
    | DropOriginal(raw: RepoFile)
    | Done(evidence: Evidence)
    | Refused

  datatype State = State(pair: Pair, pc: Pc)

  datatype Choice = Choice(device: nat, inode: nat, mode: nat, mtime: nat, mtime': nat, ctime: nat, ctime': nat)

  predicate Terminal(pc: Pc) { pc.Done? || pc.Refused? }

  const EMPTY: Payload := Malformed("")

  /** A bounded read accepts a non-empty regular file within the size bound. */
  predicate Readable(host: Host, entry: Option<RepoFile>) {
    entry.Some? && 1 <= Size(entry.value.payload) <= host.maximum
  }

  /** Same file and same bytes, whatever the ctime. */
  predicate Same(a: RepoFile, b: RepoFile) { a.(ctime := b.ctime) == b }

  predicate SameInode(a: RepoFile, b: RepoFile) { a.device == b.device && a.inode == b.inode }

  function Target(host: Host, payload: Payload): Payload
    requires host.f(payload).Some?
  {
    host.f(payload).value.payload
  }

  function UpdateEvidence(host: Host, before: Payload, after: Payload): Evidence
    requires host.f(before).Some?
  {
    var converged := host.f(before).value;
    Evidence(true, converged.added, converged.removed, before, after)
  }

  function Exchange(pair: Pair, choice: Choice): Pair
    requires pair.live.Some? && pair.temp.Some?
  {
    Pair(Some(pair.temp.value.(ctime := choice.ctime)), Some(pair.live.value.(ctime := choice.ctime')))
  }

  function Start(pair: Pair): State { State(pair, ReadFile) }

  /** One instruction of the reconciliation. */
  function Step(host: Host, s: State, choice: Choice): State {
    var pair := s.pair;
    match s.pc
    case ReadFile =>
      s.(pc := if Readable(host, pair.live) && host.f(pair.live.value.payload).Some?
               then Probe(pair.live.value) else Refused)
    case Probe(raw) =>
      s.(pc := if pair.temp.None? then ReuseCheck(raw) else ReadDisplaced(raw))
    case ReadDisplaced(raw) =>
      if !Readable(host, pair.temp) || host.f(pair.temp.value.payload).None?
         || host.f(raw.payload).None?
      then s.(pc := Refused)
      else
        var displaced := pair.temp.value.payload;
        s.(pc :=
          if displaced != Target(host, displaced) && Target(host, displaced) == raw.payload
          then DropRecovered(UpdateEvidence(host, displaced, raw.payload))
          else if raw.payload != Target(host, raw.payload) && Target(host, raw.payload) == displaced
          then DropStaged(raw)
          else Refused)
    case DropRecovered(evidence) => State(pair.(temp := None), Done(evidence))
    case DropStaged(raw) => State(pair.(temp := None), ReuseCheck(raw))
    case ReuseCheck(raw) =>
      s.(pc := if host.f(raw.payload).None? then Refused
               else if Target(host, raw.payload) == raw.payload
               then Done(Evidence(false, [], [], raw.payload, raw.payload))
               else Create(raw))
    case Create(raw) =>
      if pair.temp.Some? then s.(pc := Abandon)
      else State(pair.(temp := Some(RepoFile(choice.device, choice.inode, choice.mode, choice.mtime, choice.ctime, EMPTY))),
                 Write(raw))
    case Write(raw) =>
      if pair.temp.None? || host.f(raw.payload).None? then s.(pc := Refused)
      else State(pair.(temp := Some(pair.temp.value.(payload := Target(host, raw.payload), mtime := choice.mtime'))),
                 Identify(raw))
    case Identify(raw) =>
      s.(pc := if pair.temp.Some? then Swap(raw, pair.temp.value) else Abandon)
    case Swap(raw, desired) =>
      if pair.live.None? || pair.temp.None? then s.(pc := Refused)
      else State(Exchange(pair, choice), ReadSwapped(raw, desired))
    case ReadSwapped(raw, desired) =>
      s.(pc := if Readable(host, pair.temp) && Same(raw, pair.temp.value) then ReadActive(raw, desired)
               else CheckRestorable(raw, desired))
    case CheckRestorable(raw, desired) =>
      s.(pc := if Readable(host, pair.live) && Same(desired, pair.live.value) then SwapBack else Refused)
    case SwapBack =>
      if pair.live.None? || pair.temp.None? then s.(pc := Refused)
      else State(Exchange(pair, choice), Abandon)
    case Abandon => State(pair.(temp := None), Refused)
    case ReadActive(raw, desired) =>
      s.(pc := if Readable(host, pair.live) && Same(desired, pair.live.value) then DropOriginal(raw) else DropChanged)
    case DropChanged => State(pair.(temp := None), Refused)
    case DropOriginal(raw) =>
      if host.f(raw.payload).None? then s.(pc := Refused)
      else State(pair.(temp := None), Done(UpdateEvidence(host, raw.payload, Target(host, raw.payload))))
    case Done(_) => s
    case Refused => s
  }

  /** A crash restarts the call on the two pathnames. Until the new bytes are synced, the
      exchange name may be left holding anything at all. */
  function Crash(s: State, torn: Payload): State {
    if s.pc.Write? && s.pair.temp.Some?
    then Start(s.pair.(temp := Some(s.pair.temp.value.(payload := torn))))
    else Start(s.pair)
  }

  predicate Fresh(pair: Pair, choice: Choice) {
    && (pair.live.Some? ==> (pair.live.value.device, pair.live.value.inode) != (choice.device, choice.inode))
    && (pair.temp.Some? ==> (pair.temp.value.device, pair.temp.value.inode) != (choice.device, choice.inode))
  }

  ghost predicate Executes(host: Host, s: State, s': State) {
    exists choice :: Fresh(s.pair, choice) && s' == Step(host, s, choice)
  }

  ghost predicate Next(host: Host, s: State, s': State) {
    Executes(host, s, s') || exists torn :: s' == Crash(s, torn)
  }

  ghost predicate Run(host: Host, run: seq<State>) {
    |run| > 0 && forall i: nat :: 0 < i < |run| ==> NextAt(host, run, i)
  }

  ghost predicate NextAt(host: Host, run: seq<State>, i: nat)
    requires 0 < i < |run|
  {
    Next(host, run[i - 1], run[i])
  }

  /* ---------- the five durable phases ---------- */

  /** The file exists within the read bound; whether it converges is not known. */
  ghost predicate Readied(host: Host, original: RepoFile) {
    Lawful(host) && Readable(host, Some(original))
  }

  predicate Converges(host: Host, original: RepoFile) { host.f(original.payload).Some? }

  /** The converged form is defined and can itself be read back. */
  predicate Completable(host: Host, original: RepoFile) {
    Converges(host, original) && Size(Target(host, original.payload)) <= host.maximum
  }

  /** The converged form is defined but too long to be read back. */
  predicate Oversized(host: Host, original: RepoFile) {
    Converges(host, original) && Size(Target(host, original.payload)) > host.maximum
  }

  predicate Changes(host: Host, original: RepoFile)
    requires Converges(host, original)
  {
    Target(host, original.payload) != original.payload
  }

  predicate Untouched(original: RepoFile, pair: Pair) { pair == Pair(Some(original), None) }

  predicate Beside(host: Host, original: RepoFile, pair: Pair) {
    && Converges(host, original) && Changes(host, original)
    && pair.live == Some(original)
    && pair.temp.Some?
    && !SameInode(original, pair.temp.value)
  }

  predicate Torn(host: Host, original: RepoFile, pair: Pair) {
    Beside(host, original, pair) && pair.temp.value.payload != Target(host, original.payload)
  }

  predicate Staged(host: Host, original: RepoFile, pair: Pair) {
    Beside(host, original, pair) && pair.temp.value.payload == Target(host, original.payload)
  }

  predicate Swapped(host: Host, original: RepoFile, pair: Pair) {
    && Converges(host, original) && Changes(host, original)
    && pair.live.Some? && pair.live.value.payload == Target(host, original.payload)
    && pair.temp.Some? && Same(original, pair.temp.value)
  }

  predicate Installed(host: Host, original: RepoFile, pair: Pair) {
    && Converges(host, original)
    && pair.live.Some? && pair.live.value.payload == Target(host, original.payload)
    && pair.temp.None?
  }

  predicate Durable(host: Host, original: RepoFile, pair: Pair) {
    || Untouched(original, pair)
    || Torn(host, original, pair)
    || Staged(host, original, pair)
    || Swapped(host, original, pair)
    || Installed(host, original, pair)
  }

  /** Why a call may be refused: no converged form, a torn exchange file, or a converged form
      that is too long to be read back. */
  predicate Blocked(host: Host, original: RepoFile, pair: Pair) {
    || (!Converges(host, original) && Untouched(original, pair))
    || Torn(host, original, pair)
    || (Oversized(host, original) && !Untouched(original, pair) && Durable(host, original, pair))
  }

  /** The two records a completed call may return. */
  predicate Truthful(host: Host, original: RepoFile, evidence: Evidence)
    requires Converges(host, original)
  {
    || (Changes(host, original) && evidence == Updating(host, original))
    || evidence == Reusing(host, original)
  }

  function Updating(host: Host, original: RepoFile): Evidence
    requires Converges(host, original)
  {
    UpdateEvidence(host, original.payload, Target(host, original.payload))
  }

  function Reusing(host: Host, original: RepoFile): Evidence
    requires Converges(host, original)
  {
    var target := Target(host, original.payload);
    Evidence(false, [], [], target, target)
  }

  predicate Invariant(host: Host, original: RepoFile, s: State) {
    var pair := s.pair;
    match s.pc
    case ReadFile => Durable(host, original, pair)
    case Probe(raw) =>
      Durable(host, original, pair) && Converges(host, original) && pair.live == Some(raw) && Readable(host, pair.live)
    case ReadDisplaced(raw) =>
      && (Torn(host, original, pair) || Staged(host, original, pair) || Swapped(host, original, pair))
      && pair.live == Some(raw) && Readable(host, pair.live)
    case DropRecovered(evidence) =>
      Swapped(host, original, pair) && Completable(host, original) && evidence == Updating(host, original)
    case DropStaged(raw) => Staged(host, original, pair) && Completable(host, original) && raw == original
    case ReuseCheck(raw) =>
      && Converges(host, original)
      && (Untouched(original, pair) || Installed(host, original, pair))
      && pair.live == Some(raw) && Readable(host, pair.live)
    case Create(raw) =>
      Converges(host, original) && Untouched(original, pair) && raw == original && Changes(host, original)
    case Write(raw) => Beside(host, original, pair) && raw == original
    case Identify(raw) => Staged(host, original, pair) && raw == original
    case Swap(raw, desired) => Staged(host, original, pair) && raw == original && pair.temp == Some(desired)
    case ReadSwapped(raw, desired) =>
      Swapped(host, original, pair) && raw == original && Same(desired, pair.live.value)
    case ReadActive(raw, desired) =>
      Swapped(host, original, pair) && raw == original && Same(desired, pair.live.value)
    case DropOriginal(raw) => Swapped(host, original, pair) && Completable(host, original) && raw == original
    case DropChanged => Swapped(host, original, pair) && Oversized(host, original)
    case Done(evidence) =>
      Installed(host, original, pair) && Completable(host, original) && Truthful(host, original, evidence)
    case Refused => Blocked(host, original, pair)
    case _ => false
  }

  lemma {:induction false} InvariantIsDurable(host: Host, original: RepoFile, s: State)
    requires Invariant(host, original, s)
    ensures Durable(host, original, s.pair)
  {
  }

  /** A torn exchange file is never mistaken for the displaced original: if its converged
      form were the live file, the live file would be a fixpoint, and it is not. */
  lemma TornIsNotDisplaced(host: Host, original: RepoFile, torn: Payload)
    requires Lawful(host)
    requires Converges(host, original) && Changes(host, original)
    requires host.f(torn).Some?
    ensures Target(host, torn) != original.payload
  {
    assert LawfulAt(host, torn);
  }

  lemma TargetIsFixed(host: Host, original: RepoFile)
    requires Lawful(host) && Converges(host, original)
    ensures var target := Target(host, original.payload);
            && host.f(target) == Some(Converged(target, [], []))
            && (Readable(host, Some(original)) ==> Size(target) >= 1)
            && (Readable(host, Some(original)) && !Changes(host, original) ==> Completable(host, original))
  {
    assert LawfulAt(host, original.payload);
  }

  lemma {:induction false} StepKeepsInvariant(host: Host, original: RepoFile, s: State, choice: Choice)
    requires Readied(host, original) && Invariant(host, original, s)
    requires s.pc.Create? ==> Fresh(s.pair, choice)
    ensures Invariant(host, original, Step(host, s, choice))
  {
    if Converges(host, original) {
      TargetIsFixed(host, original);
    }
    if s.pc.ReadDisplaced? {
      DisplacedIsRecognized(host, original, s, choice);
    } else if !s.pc.ReadFile? && !s.pc.Refused? {
      OrdinaryStepKeepsInvariant(host, original, s, choice);
    }
  }

  lemma {:induction false} DisplacedIsRecognized(host: Host, original: RepoFile, s: State, choice: Choice)
    requires Readied(host, original) && Invariant(host, original, s) && s.pc.ReadDisplaced?
    ensures Invariant(host, original, Step(host, s, choice))
    ensures var s' := Step(host, s, choice);
            && s'.pair == s.pair
            && s'.pc == if Swapped(host, original, s.pair) then DropRecovered(Updating(host, original))
                        else if Staged(host, original, s.pair) && Completable(host, original) then DropStaged(original)
                        else Refused
  {
    TargetIsFixed(host, original);
    if !Swapped(host, original, s.pair) {
      BesideIsRecognized(host, original, s, choice);
    }
  }

  lemma {:induction false} BesideIsRecognized(host: Host, original: RepoFile, s: State, choice: Choice)
    requires Readied(host, original) && s.pc == ReadDisplaced(original) && Beside(host, original, s.pair)
    ensures var staged := Staged(host, original, s.pair) && Completable(host, original);
            Step(host, s, choice).pc == if staged then DropStaged(original) else Refused
  {
    TargetIsFixed(host, original);
    if host.f(s.pair.temp.value.payload).Some? {
      TornIsNotDisplaced(host, original, s.pair.temp.value.payload);
    }
  }

  lemma {:induction false} OrdinaryStepKeepsInvariant(host: Host, original: RepoFile, s: State, choice: Choice)
    requires Readied(host, original) && Invariant(host, original, s)
    requires s.pc.Create? ==> Fresh(s.pair, choice)
    requires !s.pc.ReadDisplaced? && !s.pc.ReadFile? && Converges(host, original)
    requires var target := Target(host, original.payload);
             && host.f(target) == Some(Converged(target, [], []))
             && Size(target) >= 1
    ensures Invariant(host, original, Step(host, s, choice))
  {
  }

  lemma NextKeepsInvariant(host: Host, original: RepoFile, s: State, s': State)
    requires Readied(host, original) && Invariant(host, original, s) && Next(host, s, s')
    ensures Invariant(host, original, s')
  {
    if Executes(host, s, s') {
      var choice :| Fresh(s.pair, choice) && s' == Step(host, s, choice);
      StepKeepsInvariant(host, original, s, choice);
    } else {
      InvariantIsDurable(host, original, s);
    }
  }

  lemma {:induction false} RunKeepsInvariant(host: Host, original: RepoFile, run: seq<State>, i: nat)
    requires Readied(host, original) && Run(host, run) && Invariant(host, original, run[0]) && i < |run|
    ensures Invariant(host, original, run[i])
  {
    if i > 0 {
      RunKeepsInvariant(host, original, run, i - 1);
      assert NextAt(host, run, i);
      NextKeepsInvariant(host, original, run[i - 1], run[i]);
    }
  }

  /** Every schedule of crashes, over every readable file: `repos.yaml` always holds the original
      file or the bytes f(original). A call that completes has installed f(original), left no
      exchange file, and its record says so field by field; a call is refused only when f(original)
      is undefined, over a torn exchange file, or when f(original) is too long to be read back. */
  lemma {:induction false} ReconciliationIsCrashSafe(host: Host, original: RepoFile, run: seq<State>, i: nat)
    requires Readied(host, original)
    requires Run(host, run) && run[0] == Start(Pair(Some(original), None))
    requires i < |run|
    ensures var pair := run[i].pair;
            && pair.live.Some?
            && (pair.live == Some(original)
                || (Converges(host, original) && pair.live.value.payload == Target(host, original.payload)))
            && (run[i].pc.Done? ==>
                  && Completable(host, original) && Installed(host, original, pair)
                  && var record := run[i].pc.evidence;
                     && record.after == pair.live.value.payload
                     && (record.updated <==> record.before != record.after)
                     && (record.updated ==>
                           && record.before == original.payload
                           && record.added == host.f(original.payload).value.added
                           && record.removed == host.f(original.payload).value.removed)
                     && (!record.updated ==> record.added == [] && record.removed == []))
            && (run[i].pc.Refused? ==> Blocked(host, original, pair))
            && (!Oversized(host, original) && run[i].pc.Refused? ==> pair.live == Some(original))
  {
    RunKeepsInvariant(host, original, run, i);
    InvariantIsDurable(host, original, run[i]);
  }

  /* ---------- completion ---------- */

  function Remaining(pc: Pc): nat {
    match pc
    case ReadFile => 15
    case Probe(_) => 14
    case ReadDisplaced(_) => 13
    case DropRecovered(_) => 1
    case DropStaged(_) => 12
    case ReuseCheck(_) => 11
    case Create(_) => 10
    case Write(_) => 9
    case Identify(_) => 8
    case Swap(_, _) => 7
    case ReadSwapped(_, _) => 6
    case CheckRestorable(_, _) => 3
    case SwapBack => 2
    case Abandon => 1
    case ReadActive(_, _) => 3
    case DropChanged => 1
    case DropOriginal(_) => 1
    case Done(_) => 0
    case Refused => 0
  }

  /** What the kernel decides at each instruction of a call, keyed by the instruction's rank. */
  type Kernel = nat -> Choice

  ghost predicate AlwaysFresh(pair: Pair, kernel: Kernel) { forall rank :: Fresh(pair, kernel(rank)) }

  /** The next instruction of an uninterrupted call. */
  function Tick(host: Host, s: State, kernel: Kernel): State {
    Step(host, s, kernel(Remaining(s.pc)))
  }

  lemma {:induction false} TickIsCloser(host: Host, s: State, kernel: Kernel)
    requires !Terminal(s.pc)
    ensures Remaining(Tick(host, s, kernel).pc) < Remaining(s.pc)
  {
    var s' := Tick(host, s, kernel);
    assert s.pc.ReadDisplaced? ==> s'.pc.Refused? || s'.pc.DropRecovered? || s'.pc.DropStaged?;
  }

  /** The outcome of an uninterrupted call. */
  function Finish(host: Host, s: State, kernel: Kernel): State
    decreases Remaining(s.pc)
  {
    if Terminal(s.pc) then s
    else
      TickIsCloser(host, s, kernel);
      Finish(host, Tick(host, s, kernel), kernel)
  }

  lemma {:induction false} FinishStep(host: Host, s: State, kernel: Kernel)
    requires !Terminal(s.pc)
    ensures Finish(host, s, kernel) == Finish(host, Tick(host, s, kernel), kernel)
  {
  }

  /** The record the running call is going to return; `None` when it is going to be refused. */
  function Verdict(host: Host, original: RepoFile, s: State): Option<Evidence> {
    match s.pc
    case Done(evidence) => Some(evidence)
    case Refused => None
    case DropRecovered(evidence) => Some(evidence)
    case _ =>
      if !Completable(host, original) then None
      else if (s.pc.ReadFile? || s.pc.Probe? || s.pc.ReadDisplaced?) && Torn(host, original, s.pair) then None
      else if Installed(host, original, s.pair) then Some(Reusing(host, original))
      else Some(Updating(host, original))
  }

  lemma {:induction false} StepKeepsVerdict(host: Host, original: RepoFile, s: State, choice: Choice)
    requires Readied(host, original) && Invariant(host, original, s)
    requires s.pc.Create? ==> Fresh(s.pair, choice)
    ensures Verdict(host, original, Step(host, s, choice)) == Verdict(host, original, s)
  {
    if Converges(host, original) {
      TargetIsFixed(host, original);
    }
    if s.pc.ReadDisplaced? {
      DisplacedIsRecognized(host, original, s, choice);
    } else if !s.pc.ReadFile? && !s.pc.Refused? {
      OrdinaryStepKeepsVerdict(host, original, s, choice);
    }
  }

  lemma {:induction false} OrdinaryStepKeepsVerdict(host: Host, original: RepoFile, s: State, choice: Choice)
    requires Readied(host, original) && Invariant(host, original, s)
    requires !s.pc.ReadDisplaced? && !s.pc.ReadFile? && Converges(host, original)
    requires var target := Target(host, original.payload);
             && host.f(target) == Some(Converged(target, [], []))
             && Size(target) >= 1
    ensures Verdict(host, original, Step(host, s, choice)) == Verdict(host, original, s)
  {
  }

  /** New files get inodes that neither name holds. */
  predicate Allocates(s: State, kernel: Kernel) {
    Remaining(s.pc) >= 10 ==> Fresh(s.pair, kernel(10))
  }

  lemma {:induction false} FinishGivesVerdict(host: Host, original: RepoFile, s: State, kernel: Kernel)
    requires Readied(host, original) && Invariant(host, original, s) && Allocates(s, kernel)
    ensures var end := Finish(host, s, kernel);
            && Invariant(host, original, end)
            && end.pc == match Verdict(host, original, s) case Some(evidence) => Done(evidence) case None => Refused
    decreases Remaining(s.pc)
  {
    if !Terminal(s.pc) {
      TickIsCloser(host, s, kernel);
      FinishStep(host, s, kernel);
      StepKeepsInvariant(host, original, s, kernel(Remaining(s.pc)));
      StepKeepsVerdict(host, original, s, kernel(Remaining(s.pc)));
      assert Allocates(Tick(host, s, kernel), kernel);
      FinishGivesVerdict(host, original, Tick(host, s, kernel), kernel);
    }
  }

  /** From every crash point of every readable file: an uninterrupted call completes if and only
      if f(original) is defined, short enough to be read back, and no exchange file is torn. It
      then has installed f(original) with no exchange file left, and a crash that did not get
      past the swap's unlink yields the very record of an uncrashed call. */
  lemma {:induction false} CallCompletesIff(host: Host, original: RepoFile, pair: Pair, kernel: Kernel)
    requires Readied(host, original) && Durable(host, original, pair) && AlwaysFresh(pair, kernel)
    ensures var end := Finish(host, Start(pair), kernel);
            && Durable(host, original, end.pair)
            && (end.pc.Done? <==> Completable(host, original) && !Torn(host, original, pair))
            && (end.pc.Done? ==>
                  && Installed(host, original, end.pair)
                  && var record := end.pc.evidence;
                     && record.after == end.pair.live.value.payload
                     && (record.updated <==> !Installed(host, original, pair))
                     && (if record.updated
                         then && record.before == original.payload && record.before != record.after
                              && record.added == host.f(original.payload).value.added
                              && record.removed == host.f(original.payload).value.removed
                         else record.before == record.after && record.added == [] && record.removed == []))
            && (!end.pc.Done? ==> end.pc.Refused? && Blocked(host, original, end.pair))
  {
    FinishGivesVerdict(host, original, Start(pair), kernel);
    InvariantIsDurable(host, original, Finish(host, Start(pair), kernel));
  }

  /** A torn exchange file is refused and nothing is touched, whatever its bytes are. */
  lemma {:induction false} TornIsRefused(host: Host, original: RepoFile, pair: Pair, kernel: Kernel)
    requires Readied(host, original) && Torn(host, original, pair)
    ensures Finish(host, Start(pair), kernel) == State(pair, Refused)
  {
    FinishStep(host, Start(pair), kernel);
    var s1 := Tick(host, Start(pair), kernel);
    FinishStep(host, s1, kernel);
    var s2 := Tick(host, s1, kernel);
    FinishStep(host, s2, kernel);
    BesideIsRecognized(host, original, s2, kernel(13));
  }

  /* ---------- what an oversized rewrite loses ---------- */

  /** The original file is at one of the two names. */
  predicate Present(original: RepoFile, pair: Pair) {
    (pair.live.Some? && Same(original, pair.live.value)) || (pair.temp.Some? && Same(original, pair.temp.value))
  }

  /** The running call is going to be refused with the original at neither name. */
  predicate Losing(host: Host, original: RepoFile, s: State) {
    match s.pc
    case ReadFile => Oversized(host, original) && (Untouched(original, s.pair) || Installed(host, original, s.pair))
    case Probe(_) => Oversized(host, original) && s.pair.temp.None?
    case ReadDisplaced(_) => false
    case DropRecovered(_) => false
    case DropStaged(_) => false
    case Done(_) => false
    case Refused => !Present(original, s.pair)
    case _ => Oversized(host, original)
  }

  lemma {:induction false} StepKeepsLosing(host: Host, original: RepoFile, s: State, choice: Choice)
    requires Readied(host, original) && Invariant(host, original, s)
    requires s.pc.Create? ==> Fresh(s.pair, choice)
    ensures Losing(host, original, Step(host, s, choice)) <==> Losing(host, original, s)
  {
    if Converges(host, original) {
      TargetIsFixed(host, original);
    }
    if s.pc.ReadDisplaced? {
      DisplacedIsRecognized(host, original, s, choice);
    }
  }

  lemma {:induction false} FinishLosesIff(host: Host, original: RepoFile, s: State, kernel: Kernel)
    requires Readied(host, original) && Invariant(host, original, s) && Allocates(s, kernel)
    ensures var end := Finish(host, s, kernel);
            end.pc.Refused? && !Present(original, end.pair) <==> Losing(host, original, s)
    decreases Remaining(s.pc)
  {
    if !Terminal(s.pc) {
      TickIsCloser(host, s, kernel);
      FinishStep(host, s, kernel);
      StepKeepsInvariant(host, original, s, kernel(Remaining(s.pc)));
      StepKeepsLosing(host, original, s, kernel(Remaining(s.pc)));
      assert Allocates(Tick(host, s, kernel), kernel);
      FinishLosesIff(host, original, Tick(host, s, kernel), kernel);
    }
  }

  /** From every crash point that still has the original: a call is refused with the original
      deleted if and only if f(original) is too long to be read back and nothing was staged. */
  lemma {:induction false} OversizedRewriteLosesTheOriginalIff(
    host: Host, original: RepoFile, pair: Pair, kernel: Kernel)
    requires Readied(host, original) && Durable(host, original, pair) && Present(original, pair)
    requires AlwaysFresh(pair, kernel)
    ensures var end := Finish(host, Start(pair), kernel);
            end.pc.Refused? && !Present(original, end.pair)
            <==> Oversized(host, original) && Untouched(original, pair)
  {
    FinishLosesIff(host, original, Start(pair), kernel);
  }

  /** Such files exist: one just under the bound, which the managed entry pushes over it. */
  lemma SomeRewriteIsOversized() returns (context: Context, original: RepoFile)
    ensures WellFormed(context) && Inspected(context, original.payload)
    ensures var host := HostOf(context, 4194304);
            Readied(host, original) && Oversized(host, original)
  {
    context := Context("/managed", {"/managed"}, None, {}, map[], {});
    var document := Document(Strings([]), seq(REPOSITORIES_MAXIMUM - 8, _ => 'x'));
    original := RepoFile(1, 1, 0, 0, 0, Yaml(document, Handwritten(seq(REPOSITORIES_MAXIMUM, _ => 'x'))));
    HostIsLawful(context, REPOSITORIES_MAXIMUM);
    NothingAmbiguous(context, []);
    assert Updated(context, []) == ["/managed"];
    assert ["/managed"][1..] == [];
    assert ListSize(["/managed"]) == 11;
  }

  /** What the repository transformation can finish, given what an inspection checks. */
  lemma CompletableIff(context: Context, maximum: nat, original: RepoFile)
    requires Inspected(context, original.payload)
    ensures Completable(HostOf(context, maximum), original) <==>
              && !PreviousAmbiguous(context, Registered(original.payload))
              && Size(Converge(context, original.payload).value.payload) <= maximum
  {
  }
}
