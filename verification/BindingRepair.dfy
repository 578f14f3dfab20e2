/**
 The binding repair publishes the managed-repository link without a persisted plan: every
 run captures its snapshot anew. A crash therefore restarts the publication with whatever
 is live as its "before", and the theorems say exactly which crashes that survives.
 */
module BindingRepair {
  import opened Objects
  import opened LinkExchange

  /** The snapshot of the running call, and where its publication stands. */
  datatype Repair = Repair(before: Option<Object>, state: State)

  /** What the running call was asked: `request.before` is what the first run found. */
  function Asked(request: Request, r: Repair): Request { request.(before := r.before) }

  /** Capture the link, absent or symbolic, and start; anything else is an error. */
  function Begin(pair: Pair): Repair {
    if pair.live.None? || Capturable(SymlinkKind, LINK_MAXIMUM, pair.live.value)
    then Repair(pair.live, Start(pair))
    else Repair(None, State(pair, Refused))
  }

  /** The repair takes an absent path or a link of one line for its snapshot, and nothing else. */
  lemma RepairBeginsIff(pair: Pair)
    ensures var taken := pair.live.None? || (pair.live.value.body.Link? && OneLine(pair.live.value.body.target));
            Begin(pair) == if taken then Repair(pair.live, State(pair, Probe)) else Repair(None, State(pair, Refused))
  {
  }

  ghost predicate Executes(request: Request, r: Repair, r': Repair) {
    exists choice :: Fresh(r.state.pair, choice) && r' == r.(state := Step(Asked(request, r), r.state, choice))
  }

  /** A schedule of the repair: instructions, and crashes after which it captures again. */
  ghost predicate RepairRun(request: Request, run: seq<Repair>) {
    && |run| > 0
    && run[0] == Begin(Pair(request.before, None))
    && forall i: nat :: 0 < i < |run| ==> NextAt(request, run, i)
  }

  ghost predicate NextAt(request: Request, run: seq<Repair>, i: nat)
    requires 0 < i < |run|
  {
    Executes(request, run[i - 1], run[i]) || run[i] == Begin(run[i - 1].state.pair)
  }

  predicate Repairable(request: Request) { Recoverable(request) && request.kind == SymlinkKind }

  /** Between the swap and the unlink of what it displaced. */
  predicate Exposed(pc: Pc) { pc.ReadSwapped? || pc.ReadLive? || pc.DropDisplaced? }

  /** The crash after step `j` fell between the swap and the unlink. */
  predicate CrashedExposed(run: seq<Repair>, j: nat)
    requires j + 1 < |run|
  {
    Exposed(run[j].state.pc) && run[j + 1].state.pc.Probe?
  }

  ghost predicate NeverExposed(run: seq<Repair>, i: nat)
    requires i < |run|
  {
    forall j :: 0 <= j < i ==> !CrashedExposed(run, j)
  }

  /** The running call works from the first snapshot and has not been wedged. */
  predicate FirstSnapshot(request: Request, r: Repair) {
    && r.before == request.before
    && Invariant(request, r.state)
    && (Untouched(request, r.state.pair) || Published(request, r.state.pair) || !Names(request.before, request.target))
    && match r.state.pc
       case Probe => Untouched(request, r.state.pair) || Staged(request, r.state.pair)
       case ReadActive => Staged(request, r.state.pair)
       case ReadDisplaced(_) => Staged(request, r.state.pair)
       case VerifyRecovered => false
       case UnlinkRecovered => false
       case Observe => !Names(request.before, request.target)
       case CreateAbsent => !Names(request.before, request.target)
       case Stage => !Names(request.before, request.target)
       case _ => true
  }

  /** A rerun found the desired link published and only reads it. */
  predicate Settled(request: Request, r: Repair) {
    && Published(request, r.state.pair)
    && r.before == r.state.pair.live
    && (r.state.pc.Probe? || r.state.pc.ReuseCheck? || r.state.pc.Done?)
  }

  /** The published link is now the snapshot, so the displaced object is nobody's. */
  predicate Wedged(request: Request, r: Repair) {
    && Swapped(request, r.state.pair)
    && !Names(request.before, request.target)
    && r.before == r.state.pair.live
    && match r.state.pc
       case Probe => true
       case ReadActive => true
       case ReadDisplaced(active) => r.state.pair.live == Some(active)
       case Refused => true
       case _ => false
  }

  lemma {:induction false} FirstSnapshotStep(request: Request, r: Repair, choice: Choice)
    requires Repairable(request) && FirstSnapshot(request, r) && Fresh(r.state.pair, choice)
    ensures FirstSnapshot(request, r.(state := Step(Asked(request, r), r.state, choice)))
  {
    assert Asked(request, r) == request;
    StepKeepsInvariant(request, r.state, choice);
  }

  lemma {:induction false} SettledStep(request: Request, r: Repair, choice: Choice)
    requires Repairable(request) && Settled(request, r)
    ensures Settled(request, r.(state := Step(Asked(request, r), r.state, choice)))
  {
  }

  lemma {:induction false} WedgedStep(request: Request, r: Repair, choice: Choice)
    requires Repairable(request) && Wedged(request, r)
    ensures Wedged(request, r.(state := Step(Asked(request, r), r.state, choice)))
  {
  }

  /** A crash wedges the repair exactly between the swap and the unlink. */
  lemma {:induction false} CrashWedgesIff(request: Request, r: Repair)
    requires Repairable(request) && (FirstSnapshot(request, r) || Settled(request, r))
    ensures var r' := Begin(r.state.pair);
            && r'.state.pc.Probe?
            && if Exposed(r.state.pc) then Wedged(request, r')
               else FirstSnapshot(request, r') || Settled(request, r')
  {
    if FirstSnapshot(request, r) {
      InvariantIsDurable(request, r.state);
    }
  }

  lemma {:induction false} RepairIsWedgedIff(request: Request, run: seq<Repair>, i: nat)
    requires Repairable(request) && RepairRun(request, run) && i < |run|
    ensures if NeverExposed(run, i) then FirstSnapshot(request, run[i]) || Settled(request, run[i])
            else Wedged(request, run[i])
  {
    if i > 0 {
      RepairIsWedgedIff(request, run, i - 1);
      assert NextAt(request, run, i);
      var r, r' := run[i - 1], run[i];
      assert NeverExposed(run, i) <==> NeverExposed(run, i - 1) && !CrashedExposed(run, i - 1);
      if Executes(request, r, r') {
        ExecutedStep(request, r, r');
      } else {
        assert r' == Begin(r.state.pair);
        if NeverExposed(run, i - 1) {
          CrashWedgesIff(request, r);
        }
      }
    }
  }

  lemma {:induction false} ExecutedStep(request: Request, r: Repair, r': Repair)
    requires Repairable(request) && Executes(request, r, r')
    requires FirstSnapshot(request, r) || Settled(request, r) || Wedged(request, r)
    ensures FirstSnapshot(request, r) || Settled(request, r) ==> FirstSnapshot(request, r') || Settled(request, r')
    ensures Wedged(request, r) ==> Wedged(request, r')
    ensures Exposed(r.state.pc) ==> !r'.state.pc.Probe?
  {
    var choice :| Fresh(r.state.pair, choice) && r' == r.(state := Step(Asked(request, r), r.state, choice));
    if FirstSnapshot(request, r) {
      FirstSnapshotStep(request, r, choice);
    } else if Settled(request, r) {
      SettledStep(request, r, choice);
    }
    if Wedged(request, r) {
      WedgedStep(request, r, choice);
    }
  }

  /** The repair over every schedule: a run that has just started completes if and only if no
      crash so far fell between a swap and the unlink of what it displaced. When it does not,
      it is refused and keeps both objects. */
  lemma {:induction false} RepairCompletesIff(request: Request, run: seq<Repair>, i: nat, kernel: Kernel)
    requires Repairable(request) && RepairRun(request, run) && i < |run|
    requires run[i].state.pc.Probe? && AlwaysFresh(run[i].state.pair, kernel)
    ensures var end := Finish(Asked(request, run[i]), run[i].state, kernel);
            if NeverExposed(run, i) then end.pc.Done? && Published(request, end.pair)
            else end.pc.Refused? && end.pair == run[i].state.pair
  {
    RepairIsWedgedIff(request, run, i);
    var r := run[i];
    assert Recoverable(Asked(request, r));
    CallPublishesIff(Asked(request, r), r.state.pair, kernel);
    if Wedged(request, r) {
      FinishWedged(request, r, kernel);
    }
  }

  lemma {:induction false} FinishWedged(request: Request, r: Repair, kernel: Kernel)
    requires Repairable(request) && Wedged(request, r)
    ensures Finish(Asked(request, r), r.state, kernel) == State(r.state.pair, Refused)
    decreases Remaining(r.state.pc)
  {
    var asked := Asked(request, r);
    if !r.state.pc.Refused? {
      TickIsCloser(asked, r.state, kernel);
      FinishStep(asked, r.state, kernel);
      WedgedStep(request, r, kernel(Remaining(r.state.pc)));
      var r' := r.(state := Tick(asked, r.state, kernel));
      assert r'.state.pair == r.state.pair;
      FinishWedged(request, r', kernel);
    }
  }

  /** No run is refused for any other reason. */
  lemma {:induction false} OnlyExposedCrashesRefuse(request: Request, run: seq<Repair>, i: nat)
    requires Repairable(request) && RepairRun(request, run) && i < |run| && run[i].state.pc.Refused?
    ensures !NeverExposed(run, i)
  {
    RepairIsWedgedIff(request, run, i);
  }

  /* ---------- a reachable refusal ---------- */

  lemma {:induction false} Extended(request: Request, run: seq<Repair>, choice: Choice) returns (longer: seq<Repair>)
    requires RepairRun(request, run) && Fresh(run[|run| - 1].state.pair, choice)
    ensures RepairRun(request, longer) && |longer| == |run| + 1 && longer[..|run|] == run
    ensures var r := run[|run| - 1];
            longer[|run|] == r.(state := Step(Asked(request, r), r.state, choice))
  {
    var r := run[|run| - 1];
    var r' := r.(state := Step(Asked(request, r), r.state, choice));
    longer := run + [r'];
    assert Executes(request, r, r');
    forall i: nat | 0 < i < |longer|
      ensures NextAt(request, longer, i)
    {
      if i < |run| {
        assert NextAt(request, run, i);
      }
    }
  }

  /** A kernel choice with an inode that neither name holds. */
  function Unused(pair: Pair): (choice: Choice)
    ensures Fresh(pair, choice)
  {
    var live := if pair.live.Some? then pair.live.value.inode else 0;
    var exch := if pair.exch.Some? then pair.exch.value.inode else 0;
    Choice(0, live + exch + 1, 0, 0, 0, 0)
  }

  /** On the way from the start of a run to the swap of an existing link. */
  predicate Heading(request: Request, r: Repair) {
    && FirstSnapshot(request, r)
    && request.before.Some? && !Names(request.before, request.target)
    && match r.state.pc
       case Probe => Untouched(request, r.state.pair)
       case ReuseCheck => Untouched(request, r.state.pair)
       case Observe => true
       case Stage => true
       case CaptureDesired => true
       case Recheck(_) => true
       case Swap(_) => true
       case ReadSwapped(_) => true
       case _ => false
  }

  lemma {:induction false} HeadingStep(request: Request, r: Repair, choice: Choice)
    requires Repairable(request) && Heading(request, r) && Fresh(r.state.pair, choice) && !r.state.pc.ReadSwapped?
    ensures var r' := r.(state := Step(Asked(request, r), r.state, choice));
            Heading(request, r') && Remaining(r'.state.pc) < Remaining(r.state.pc)
  {
    FirstSnapshotStep(request, r, choice);
  }

  lemma {:induction false} RunToTheSwap(request: Request, run: seq<Repair>) returns (longer: seq<Repair>)
    requires Repairable(request) && RepairRun(request, run) && Heading(request, run[|run| - 1])
    ensures RepairRun(request, longer)
    ensures Heading(request, longer[|longer| - 1]) && longer[|longer| - 1].state.pc.ReadSwapped?
    decreases Remaining(run[|run| - 1].state.pc)
  {
    var r := run[|run| - 1];
    longer := run;
    if !r.state.pc.ReadSwapped? {
      HeadingStep(request, r, Unused(r.state.pair));
      longer := Extended(request, run, Unused(r.state.pair));
      longer := RunToTheSwap(request, longer);
    }
  }

  lemma {:induction false} WedgedRunEnds(request: Request, run: seq<Repair>) returns (longer: seq<Repair>)
    requires Repairable(request) && RepairRun(request, run) && Wedged(request, run[|run| - 1])
    ensures RepairRun(request, longer) && longer[|longer| - 1].state.pc.Refused?
    decreases Remaining(run[|run| - 1].state.pc)
  {
    var r := run[|run| - 1];
    longer := run;
    if !r.state.pc.Refused? {
      WedgedStep(request, r, Unused(r.state.pair));
      longer := Extended(request, run, Unused(r.state.pair));
      longer := WedgedRunEnds(request, longer);
    }
  }

  lemma {:induction false} Crashed(request: Request, run: seq<Repair>) returns (longer: seq<Repair>)
    requires RepairRun(request, run)
    ensures RepairRun(request, longer) && longer == run + [Begin(run[|run| - 1].state.pair)]
  {
    longer := run + [Begin(run[|run| - 1].state.pair)];
    forall i: nat | 0 < i < |longer|
      ensures NextAt(request, longer, i)
    {
      if i < |run| {
        assert NextAt(request, run, i);
      }
    }
  }

  /** Whenever there was a link to displace, some schedule ends refused: power is lost right
      after the swap, and the next run is asked to start from the link it published. */
  lemma {:induction false} SomeCrashIsRefused(request: Request) returns (run: seq<Repair>)
    requires Repairable(request) && request.before.Some? && !Names(request.before, request.target)
    ensures RepairRun(request, run) && run[|run| - 1].state.pc.Refused?
  {
    run := RunToTheSwap(request, [Begin(Pair(request.before, None))]);
    CrashWedgesIff(request, run[|run| - 1]);
    run := Crashed(request, run);
    run := WedgedRunEnds(request, run);
  }
}
