/**
 Publication of one stable activation link through a deterministic `.exchange` name.

 Every durable or observing instruction of the publication is one step of a small
 machine; a crash keeps the two pathnames and restarts the call with the same
 persisted snapshot. The theorems quantify over every schedule of steps and crashes.
 */
module LinkExchange {
  import opened Objects

  /** The inputs of one publication. `aliases` are the link texts that resolve to the
      object `target` resolves to; the target itself resolves when it is one of them. */
  datatype Request = Request(
    kind: Kind,
    before: Option<Object>,
    target: string,
    aliases: set<string>)

  /** The live path and its exchange name. */
  datatype Pair = Pair(live: Option<Object>, exch: Option<Object>)

  datatype Action = Created | Retargeted | Reused

  datatype Pc =
    | Probe
    | ReadActive
    | ReadDisplaced(active: Object)
    | VerifyRecovered
    | UnlinkRecovered
    | DropStaged
    | ReuseCheck
    | Observe
    | CreateAbsent
    | Stage
    | CaptureDesired
    | Recheck(desired: Object)
    | Swap(desired: Object)
    | ReadSwapped(desired: Object)
    | CheckRestorable(desired: Object)
    | SwapBack(desired: Object)
    | ReadLive(desired: Object)
    | DropChanged
    | DropDisplaced
    | Abandon
    | VerifyFinal
    | Done(action: Action)
    | Refused

  datatype State = State(pair: Pair, pc: Pc)

  /** What the kernel decides: the identity of a new link and the ctimes of a rename. */
  datatype Choice = Choice(device: nat, inode: nat, mode: nat, mtime: nat, ctime: nat, ctime': nat)

  predicate Terminal(pc: Pc) { pc.Done? || pc.Refused? }

  predicate Names(entry: Option<Object>, target: string) {
    entry.Some? && entry.value.body == Link(target)
  }

  predicate IsBefore(request: Request, entity: Object) {
    request.before.Some? && SameObject(request.before.value, entity)
  }

  predicate Resolves(request: Request) { request.target in request.aliases }

  /** `_verify_stable_symlink`: a link that resolves to what the target resolves to. */
  predicate Verified(request: Request, entry: Option<Object>) {
    && entry.Some?
    && entry.value.body.Link?
    && entry.value.body.target in request.aliases
    && Resolves(request)
  }

  function PlannedAction(request: Request): Action {
    if request.before.None? then Created else Retargeted
  }

  function NewLink(request: Request, choice: Choice): Object {
    Object(choice.device, choice.inode, choice.mode, |request.target|, choice.mtime, choice.ctime,
           Link(request.target))
  }

  function Exchange(pair: Pair, choice: Choice): Pair
    requires pair.live.Some? && pair.exch.Some?
  {
    Pair(Some(pair.exch.value.(ctime := choice.ctime)), Some(pair.live.value.(ctime := choice.ctime')))
  }

  /** A new link gets an inode no existing object holds. */
  predicate Fresh(pair: Pair, choice: Choice) {
    && (pair.live.Some? ==> (pair.live.value.device, pair.live.value.inode) != (choice.device, choice.inode))
    && (pair.exch.Some? ==> (pair.exch.value.device, pair.exch.value.inode) != (choice.device, choice.inode))
  }

  function Start(pair: Pair): State { State(pair, Probe) }

  /** One instruction of the publication. */
  function Step(request: Request, s: State, choice: Choice): State {
    var pair := s.pair;
    match s.pc
    case Probe =>
      s.(pc := if pair.exch.None? then ReuseCheck else ReadActive)
    case ReadActive =>
      var active := Capture(request.kind, ACTIVATION_MAXIMUM, pair.live);
      s.(pc := if active.Some? then ReadDisplaced(active.value) else Refused)
    case ReadDisplaced(active) =>
      var displaced := Capture(request.kind, ACTIVATION_MAXIMUM, pair.exch);
      s.(pc :=
        if displaced.None? then Refused
        else if active.body == Link(request.target) && IsBefore(request, displaced.value) then VerifyRecovered
        else if IsBefore(request, active) && displaced.value.body == Link(request.target) then DropStaged
        else Refused)
    case VerifyRecovered =>
      s.(pc := if Verified(request, pair.live) then UnlinkRecovered else Refused)
    case UnlinkRecovered =>
      if pair.exch.None? then s.(pc := Refused)
      else State(pair.(exch := None), Done(PlannedAction(request)))
    case DropStaged =>
      if pair.exch.None? then s.(pc := Refused) else State(pair.(exch := None), ReuseCheck)
    case ReuseCheck =>
      s.(pc := if Names(pair.live, request.target) && Verified(request, pair.live) then Done(Reused) else Observe)
    case Observe =>
      s.(pc :=
        if request.before.None? then (if pair.live.None? then CreateAbsent else Refused)
        else if Capture(request.kind, ACTIVATION_MAXIMUM, pair.live) == request.before then Stage
        else Refused)
    case CreateAbsent =>
      if pair.live.Some? then s.(pc := Refused)
      else State(pair.(live := Some(NewLink(request, choice))), VerifyFinal)
    case Stage =>
      if pair.exch.Some? then s.(pc := Abandon)
      else State(pair.(exch := Some(NewLink(request, choice))), CaptureDesired)
    case CaptureDesired =>
      var desired := Capture(SymlinkKind, LINK_MAXIMUM, pair.exch);
      s.(pc := if desired.Some? then Recheck(desired.value) else Abandon)
    case Recheck(desired) =>
      s.(pc := if Capture(request.kind, ACTIVATION_MAXIMUM, pair.live) == request.before && request.before.Some?
               then Swap(desired) else Abandon)
    case Swap(desired) =>
      if pair.live.None? || pair.exch.None? then s.(pc := Refused)
      else State(Exchange(pair, choice), ReadSwapped(desired))
    case ReadSwapped(desired) =>
      var displaced := Capture(request.kind, ACTIVATION_MAXIMUM, pair.exch);
      s.(pc := if displaced.Some? && IsBefore(request, displaced.value) then ReadLive(desired)
               else CheckRestorable(desired))
    case CheckRestorable(desired) =>
      var active := Capture(SymlinkKind, LINK_MAXIMUM, pair.live);
      s.(pc := if active.Some? && SameObject(desired, active.value) then SwapBack(desired) else Refused)
    case SwapBack(desired) =>
      if pair.live.None? || pair.exch.None? then s.(pc := Refused)
      else State(Exchange(pair, choice), Abandon)
    case ReadLive(desired) =>
      var active := Capture(SymlinkKind, LINK_MAXIMUM, pair.live);
      s.(pc := if active.Some? && SameObject(desired, active.value) then DropDisplaced else DropChanged)
    case DropChanged =>
      State(pair.(exch := None), Refused)
    case DropDisplaced =>
      State(pair.(exch := None), VerifyFinal)
    case Abandon =>
      State(pair.(exch := None), Refused)
    case VerifyFinal =>
      s.(pc := if Verified(request, pair.live) && Names(pair.live, request.target)
               then Done(PlannedAction(request)) else Refused)
    case Done(_) => s
    case Refused => s
  }

  /** Power loss, or any abrupt end: only the two pathnames survive, and the call restarts. */
  function Crash(s: State): State { Start(s.pair) }

  /** One instruction under some kernel choice. */
  ghost predicate Executes(request: Request, s: State, s': State) {
    exists choice :: Fresh(s.pair, choice) && s' == Step(request, s, choice)
  }

  ghost predicate Next(request: Request, s: State, s': State) {
    Executes(request, s, s') || s' == Crash(s)
  }

  /** A schedule: any interleaving of instructions and crashes. */
  ghost predicate Run(request: Request, run: seq<State>) {
    |run| > 0 && forall i: nat :: 0 < i < |run| ==> NextAt(request, run, i)
  }

  ghost predicate NextAt(request: Request, run: seq<State>, i: nat)
    requires 0 < i < |run|
  {
    Next(request, run[i - 1], run[i])
  }

  /** What the plan guarantees of a snapshot: it was captured under its own contract,
      the target text is one line, and the staged generation resolves. */
  predicate Planned(request: Request) {
    && CleanText(request.target)
    && Resolves(request)
    && (request.before.Some? ==> Capturable(request.kind, ACTIVATION_MAXIMUM, request.before.value))
  }

  /** A snapshot of an existing path can be recovered only if its contract admits links. */
  predicate Recoverable(request: Request) {
    Planned(request) && (request.before.Some? ==> request.kind != FileKind)
  }

  /* ---------- the four durable phases ---------- */

  predicate Untouched(request: Request, pair: Pair) { pair == Pair(request.before, None) }

  predicate Staged(request: Request, pair: Pair) {
    && request.before.Some?
    && pair.live == request.before
    && Names(pair.exch, request.target)
    && !SameFile(request.before.value, pair.exch.value)
  }

  predicate Swapped(request: Request, pair: Pair) {
    && request.before.Some?
    && Names(pair.live, request.target)
    && pair.exch.Some?
    && SameObject(request.before.value, pair.exch.value)
    && !SameFile(request.before.value, pair.live.value)
  }

  predicate Published(request: Request, pair: Pair) {
    Names(pair.live, request.target) && pair.exch.None?
  }

  predicate Durable(request: Request, pair: Pair) {
    || Untouched(request, pair)
    || Staged(request, pair)
    || Swapped(request, pair)
    || Published(request, pair)
  }

  /** The inductive invariant: which durable phase each instruction runs in. */
  predicate Invariant(request: Request, s: State) {
    var pair := s.pair;
    match s.pc
    case Probe => Durable(request, pair)
    case ReadActive => Staged(request, pair) || Swapped(request, pair)
    case ReadDisplaced(active) => (Staged(request, pair) || Swapped(request, pair)) && pair.live == Some(active)
    case VerifyRecovered => Swapped(request, pair)
    case UnlinkRecovered => Swapped(request, pair)
    case DropStaged => Staged(request, pair)
    case ReuseCheck => Untouched(request, pair) || Published(request, pair)
    case Observe => Untouched(request, pair)
    case CreateAbsent => Untouched(request, pair) && request.before.None?
    case Stage => Untouched(request, pair) && request.before.Some?
    case CaptureDesired => Staged(request, pair)
    case Recheck(desired) => Staged(request, pair) && pair.exch == Some(desired)
    case Swap(desired) => Staged(request, pair) && pair.exch == Some(desired)
    case ReadSwapped(desired) => Swapped(request, pair) && SameObject(desired, pair.live.value)
    case ReadLive(desired) => Swapped(request, pair) && SameObject(desired, pair.live.value)
    case DropDisplaced => Swapped(request, pair)
    case VerifyFinal => Published(request, pair)
    case Done(_) => Published(request, pair)
    case _ => false
  }

  lemma InvariantIsDurable(request: Request, s: State)
    requires Invariant(request, s)
    ensures Durable(request, s.pair)
  {
  }

  lemma StepKeepsInvariant(request: Request, s: State, choice: Choice)
    requires Recoverable(request) && Invariant(request, s) && Fresh(s.pair, choice)
    ensures Invariant(request, Step(request, s, choice))
  {
  }

  lemma NextKeepsInvariant(request: Request, s: State, s': State)
    requires Recoverable(request) && Invariant(request, s) && Next(request, s, s')
    ensures Invariant(request, s')
  {
    if s' == Crash(s) {
      InvariantIsDurable(request, s);
    } else {
      var choice :| Fresh(s.pair, choice) && s' == Step(request, s, choice);
      StepKeepsInvariant(request, s, choice);
    }
  }

  lemma {:induction false} RunKeepsInvariant(request: Request, run: seq<State>, i: nat)
    requires Recoverable(request) && Run(request, run) && Invariant(request, run[0]) && i < |run|
    ensures Invariant(request, run[i])
  {
    if i > 0 {
      RunKeepsInvariant(request, run, i - 1);
      assert NextAt(request, run, i);
      NextKeepsInvariant(request, run[i - 1], run[i]);
    }
  }

  /** Crash convergence, safety half. Under every schedule of crashes and restarts with
      one snapshot: a path that was present is never absent and names either the snapshot
      object, unchanged, or the desired link; no reachable state is refused; and every call
      that completes leaves the desired link live and the exchange name gone. */
  lemma {:induction false} PublicationIsCrashConvergent(request: Request, run: seq<State>, i: nat)
    requires Recoverable(request)
    requires Run(request, run) && run[0] == Start(Pair(request.before, None))
    requires i < |run|
    ensures request.before.Some? ==> run[i].pair.live.Some?
    ensures run[i].pair.live == request.before || Names(run[i].pair.live, request.target)
    ensures run[i].pc != Refused
    ensures run[i].pc.Done? ==> Names(run[i].pair.live, request.target) && run[i].pair.exch.None?
    ensures run[i].pair.exch.Some? ==>
              IsBefore(request, run[i].pair.exch.value) || Names(run[i].pair.exch, request.target)
  {
    RunKeepsInvariant(request, run, i);
    InvariantIsDurable(request, run[i]);
  }

  /* ---------- completion ---------- */

  /** An upper bound on the instructions an uninterrupted call still executes. */
  function Remaining(pc: Pc): nat {
    match pc
    case Probe => 15
    case ReadActive => 14
    case ReadDisplaced(_) => 13
    case VerifyRecovered => 2
    case UnlinkRecovered => 1
    case DropStaged => 12
    case ReuseCheck => 11
    case Observe => 10
    case CreateAbsent => 2
    case Stage => 9
    case CaptureDesired => 8
    case Recheck(_) => 7
    case Swap(_) => 6
    case ReadSwapped(_) => 5
    case CheckRestorable(_) => 3
    case SwapBack(_) => 2
    case ReadLive(_) => 3
    case DropChanged => 1
    case DropDisplaced => 2
    case Abandon => 1
    case VerifyFinal => 1
    case Done(_) => 0
    case Refused => 0
  }

  /** Execute instructions without a crash, one kernel choice each. */
  ghost predicate Uninterrupted(request: Request, run: seq<State>) {
    |run| > 0 && forall i: nat :: 0 < i < |run| ==> ExecutesAt(request, run, i)
  }

  ghost predicate ExecutesAt(request: Request, run: seq<State>, i: nat)
    requires 0 < i < |run|
  {
    Executes(request, run[i - 1], run[i])
  }

  lemma StepMakesProgress(request: Request, s: State, s': State)
    requires Executes(request, s, s')
    ensures if Terminal(s.pc) then s' == s else Remaining(s'.pc) < Remaining(s.pc)
  {
  }

  lemma {:induction false} UninterruptedSteps(request: Request, run: seq<State>, i: nat)
    requires Uninterrupted(request, run) && i < |run|
    ensures Terminal(run[i].pc) || Remaining(run[i].pc) + i <= Remaining(run[0].pc)
  {
    if i > 0 {
      UninterruptedSteps(request, run, i - 1);
      assert ExecutesAt(request, run, i);
      StepMakesProgress(request, run[i - 1], run[i]);
    }
  }

  /** Crash convergence, progress half. After any schedule of crashes, one call that is
      left alone for fifteen instructions has published the link. */
  lemma {:induction false} InterruptedPublicationCompletes(
      request: Request, run: seq<State>, rerun: seq<State>)
    requires Recoverable(request)
    requires Run(request, run) && run[0] == Start(Pair(request.before, None))
    requires Uninterrupted(request, rerun) && rerun[0] == Crash(run[|run| - 1])
    requires |rerun| > 15
    ensures rerun[|rerun| - 1].pc.Done?
    ensures Published(request, rerun[|rerun| - 1].pair)
  {
    RunKeepsInvariant(request, run, |run| - 1);
    InvariantIsDurable(request, run[|run| - 1]);
    forall i: nat | 0 < i < |rerun|
      ensures NextAt(request, rerun, i)
    {
      assert ExecutesAt(request, rerun, i);
    }
    RunKeepsInvariant(request, rerun, |rerun| - 1);
    UninterruptedSteps(request, rerun, |rerun| - 1);
  }

  /* ---------- where convergence fails ---------- */

  /** What the kernel decides at each instruction of a call, keyed by the instruction's rank. */
  type Kernel = nat -> Choice

  ghost predicate AlwaysFresh(pair: Pair, kernel: Kernel) { forall rank :: Fresh(pair, kernel(rank)) }

  /** The next instruction of an uninterrupted call. */
  function Tick(request: Request, s: State, kernel: Kernel): State {
    Step(request, s, kernel(Remaining(s.pc)))
  }

  lemma {:induction false} TickIsCloser(request: Request, s: State, kernel: Kernel)
    requires !Terminal(s.pc)
    ensures Remaining(Tick(request, s, kernel).pc) < Remaining(s.pc)
  {
  }

  /** The outcome of an uninterrupted call. */
  function Finish(request: Request, s: State, kernel: Kernel): State
    decreases Remaining(s.pc)
  {
    if Terminal(s.pc) then s
    else
      TickIsCloser(request, s, kernel);
      Finish(request, Tick(request, s, kernel), kernel)
  }

  lemma {:induction false} FinishStep(request: Request, s: State, kernel: Kernel)
    requires !Terminal(s.pc)
    ensures Finish(request, s, kernel) == Finish(request, Tick(request, s, kernel), kernel)
  {
  }

  /** From the exchange onwards a call with no other writer completes. */
  lemma {:induction false} FinishSwap(request: Request, s: State, kernel: Kernel)
    requires Planned(request) && s.pc.Swap? && Invariant(request, s)
    ensures Finish(request, s, kernel).pc.Done? && Published(request, Finish(request, s, kernel).pair)
  {
    var s1 := Tick(request, s, kernel);
    var s2 := Tick(request, s1, kernel);
    var s3 := Tick(request, s2, kernel);
    var s4 := Tick(request, s3, kernel);
    FinishStep(request, s, kernel);
    FinishStep(request, s1, kernel);
    FinishStep(request, s2, kernel);
    FinishStep(request, s3, kernel);
    FinishStep(request, s4, kernel);
  }

  /** With no exchange name in the way, a call publishes from the desired link or from the
      snapshot object, exact to the ctime, and refuses anything else untouched. */
  lemma {:induction false} FinishFresh(request: Request, pair: Pair, kernel: Kernel)
    requires Planned(request) && pair.exch.None? && AlwaysFresh(pair, kernel)
    ensures var end := Finish(request, State(pair, ReuseCheck), kernel);
            if Names(pair.live, request.target) || pair.live == request.before
            then end.pc.Done? && Published(request, end.pair)
            else end == State(pair, Refused)
  {
    var s0 := State(pair, ReuseCheck);
    var s1 := Tick(request, s0, kernel);
    FinishStep(request, s0, kernel);
    if s1.pc == Observe {
      var s2 := Tick(request, s1, kernel);
      FinishStep(request, s1, kernel);
      if s2.pc == CreateAbsent {
        var s3 := Tick(request, s2, kernel);
        FinishStep(request, s2, kernel);
        FinishStep(request, s3, kernel);
      } else if s2.pc == Stage {
        var s3 := Tick(request, s2, kernel);
        var s4 := Tick(request, s3, kernel);
        var s5 := Tick(request, s4, kernel);
        FinishStep(request, s2, kernel);
        FinishStep(request, s3, kernel);
        FinishStep(request, s4, kernel);
        FinishSwap(request, s5, kernel);
      }
    }
  }

  /** The pathname states a call accepts, whatever put them there. */
  predicate Accepts(request: Request, pair: Pair) {
    if pair.exch.None? then Names(pair.live, request.target) || pair.live == request.before
    else
      && pair.live.Some?
      && Capturable(request.kind, ACTIVATION_MAXIMUM, pair.live.value)
      && Capturable(request.kind, ACTIVATION_MAXIMUM, pair.exch.value)
      && (|| (Names(pair.live, request.target) && IsBefore(request, pair.exch.value))
          || (Names(pair.exch, request.target) && IsBefore(request, pair.live.value)
              && (Names(pair.live, request.target) || pair.live == request.before)))
  }

  /** Compare before replace, for every pair of pathnames: a call either publishes, and then
      exactly from an accepted state, or it refuses and leaves the live path as it found it. */
  lemma {:induction false} CallPublishesIff(request: Request, pair: Pair, kernel: Kernel)
    requires Recoverable(request) && AlwaysFresh(pair, kernel)
    ensures var end := Finish(request, Start(pair), kernel);
            if Accepts(request, pair)
            then end.pc.Done? && Published(request, end.pair)
            else end.pc.Refused? && end.pair.live == pair.live
  {
    var s0 := Start(pair);
    var s1 := Tick(request, s0, kernel);
    FinishStep(request, s0, kernel);
    if pair.exch.None? {
      FinishFresh(request, pair, kernel);
    } else {
      var s2 := Tick(request, s1, kernel);
      FinishStep(request, s1, kernel);
      if !s2.pc.Refused? {
        var s3 := Tick(request, s2, kernel);
        FinishStep(request, s2, kernel);
        if s3.pc == VerifyRecovered {
          FinishStep(request, s3, kernel);
          FinishStep(request, Tick(request, s3, kernel), kernel);
        } else if s3.pc == DropStaged {
          FinishStep(request, s3, kernel);
          FinishFresh(request, pair.(exch := None), kernel);
        }
      }
    }
  }

  /** A crash between the swap and the unlink is recovered exactly when the snapshot's
      contract admits symbolic links: under the plain-file contract the rerun cannot
      capture the link it published itself, and it keeps both objects. */
  lemma SwappedCrashIsRecoveredIff(request: Request, pair: Pair, kernel: Kernel)
    requires Planned(request) && Swapped(request, pair)
    ensures Finish(request, Start(pair), kernel).pc.Done? <==> request.kind != FileKind
    ensures request.kind == FileKind ==> Finish(request, Start(pair), kernel) == State(pair, Refused)
  {
    FinishStep(request, Start(pair), kernel);
    var s1 := Tick(request, Start(pair), kernel);
    FinishStep(request, s1, kernel);
    var s2 := Tick(request, s1, kernel);
    if request.kind != FileKind {
      FinishStep(request, s2, kernel);
      var s3 := Tick(request, s2, kernel);
      FinishStep(request, s3, kernel);
      var s4 := Tick(request, s3, kernel);
      assert s4.pc == UnlinkRecovered;
      FinishStep(request, s4, kernel);
    }
  }

  /* ---------- what a call accepts, spelled out ---------- */

  /** One line of text. */
  predicate OneLine(text: string) {
    |text| > 0 && forall k :: 0 <= k < |text| ==> text[k] != '\0' && text[k] != '\r' && text[k] != '\n'
  }

  /** An uninterrupted call that finds exactly its snapshot, under a one-line target that
      resolves. It publishes over an absent path, over a link of one line unless the contract is
      for files only, and over a regular file of 1 byte to 4 MiB unless the contract is for links
      only; it says so; and it refuses any other object untouched. */
  lemma {:induction false} SnapshotIsPublishedIff(request: Request, kernel: Kernel)
    requires OneLine(request.target) && request.target in request.aliases
    requires AlwaysFresh(Pair(request.before, None), kernel)
    ensures var pair := Pair(request.before, None);
            var end := Finish(request, Start(pair), kernel);
            if pair.live.Some? && pair.live.value.body == Link(request.target) then end == State(pair, Done(Reused))
            else if
              || pair.live.None?
              || (pair.live.value.body.Link? && OneLine(pair.live.value.body.target) && request.kind != FileKind)
              || (pair.live.value.body.Regular? && 1 <= pair.live.value.size <= 4194304 && request.kind != SymlinkKind)
            then
              && end.pc == Done(if pair.live.None? then Created else Retargeted)
              && end.pair.live.Some? && end.pair.live.value.body == Link(request.target)
              && end.pair.exch.None?
            else end == State(pair, Refused)
  {
    var pair := Pair(request.before, None);
    FinishStep(request, Start(pair), kernel);
    var s := Tick(request, Start(pair), kernel);
    assert s == State(pair, ReuseCheck);
    FinishStep(request, s, kernel);
    if pair.live.None? || !pair.live.value.body.Link? || pair.live.value.body.target != request.target {
      if Planned(request) {
        FinishFresh(request, pair, kernel);
        FreshAction(request, s, kernel);
      } else {
        var s1 := Tick(request, s, kernel);
        assert s1.pc == Observe;
        FinishStep(request, s1, kernel);
      }
    }
  }

  /** Past the reuse check, a call that completes reports what it planned. */
  lemma {:induction false} FreshAction(request: Request, s: State, kernel: Kernel)
    requires !s.pc.Probe? && !s.pc.ReadActive? && !s.pc.ReadDisplaced? && !s.pc.DropStaged?
    requires s.pc.ReuseCheck? ==> !Names(s.pair.live, request.target)
    requires s.pc.Done? ==> s.pc.action == PlannedAction(request)
    ensures var end := Finish(request, s, kernel); end.pc.Done? ==> end.pc.action == PlannedAction(request)
    decreases Remaining(s.pc)
  {
    if !Terminal(s.pc) {
      TickIsCloser(request, s, kernel);
      FinishStep(request, s, kernel);
      FreshAction(request, Tick(request, s, kernel), kernel);
    }
  }

  /** A target that does not resolve is never reported as published, whatever stands at the two
      names. */
  lemma {:induction false} DanglingTargetIsRefused(request: Request, pair: Pair, kernel: Kernel)
    requires request.target !in request.aliases
    ensures Finish(request, Start(pair), kernel).pc.Refused?
  {
    DanglingFinish(request, Start(pair), kernel);
  }

  lemma {:induction false} DanglingFinish(request: Request, s: State, kernel: Kernel)
    requires request.target !in request.aliases && !s.pc.Done? && !s.pc.UnlinkRecovered?
    ensures Finish(request, s, kernel).pc.Refused?
    decreases Remaining(s.pc)
  {
    if !Terminal(s.pc) {
      TickIsCloser(request, s, kernel);
      FinishStep(request, s, kernel);
      DanglingFinish(request, Tick(request, s, kernel), kernel);
    }
  }

  /** A call ends only over a link that leads where the target leads: one that names the target
      and resolves, or, when an earlier swap is recovered, any link that does. */
  lemma DoneWasVerified(request: Request, s: State, choice: Choice)
    requires !Terminal(s.pc)
    ensures Step(request, s, choice).pc.Done? && !s.pc.UnlinkRecovered? ==>
              && s.pair.live.Some? && s.pair.live.value.body == Link(request.target)
              && request.target in request.aliases
    ensures Step(request, s, choice).pc.UnlinkRecovered? <==>
              && s.pc.VerifyRecovered?
              && s.pair.live.Some? && s.pair.live.value.body.Link?
              && s.pair.live.value.body.target in request.aliases && request.target in request.aliases
  {
  }
}
