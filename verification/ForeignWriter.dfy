/**
 One non-cooperating writer against a link publication: it replaces the live path once,
 at any instant, with an object of its own. The theorems say where that object is at
 every later instant of every schedule.
 */
module ForeignWriter {
  import opened Objects
  import opened LinkExchange

  /** The writer puts its own object at the live path. */
  function Replace(s: State, intruder: Object): State {
    s.(pair := s.pair.(live := Some(intruder)))
  }

  /** The writer's object coexists with what it replaces, so it has its own inode, and it
      is not the object recorded in the snapshot. */
  predicate Intrudes(request: Request, s: State, intruder: Object) {
    && (s.pair.live.Some? ==> !SameFile(s.pair.live.value, intruder))
    && (s.pair.exch.Some? ==> !SameFile(s.pair.exch.value, intruder))
    && !IsBefore(request, intruder)
  }

  predicate AtPath(s: State, intruder: Object) {
    s.pair.live.Some? && SameObject(intruder, s.pair.live.value)
  }

  predicate AtExchangeName(s: State, intruder: Object) {
    s.pair.exch.Some? && SameObject(intruder, s.pair.exch.value)
  }

  /** The writer's object is at the path; an instruction that could still move it away knows
      a desired link that is a different object. */
  predicate Holding(request: Request, s: State, intruder: Object) {
    && AtPath(s, intruder)
    && !AtExchangeName(s, intruder)
    && match s.pc
       case Recheck(desired) => !SameObject(desired, intruder)
       case Swap(desired) => Displacing(request, s.pair.exch, desired, intruder)
       case ReadSwapped(desired) => !SameObject(desired, intruder)
       case ReadLive(desired) => !SameObject(desired, intruder)
       case CheckRestorable(desired) => !SameObject(desired, intruder)
       case SwapBack(_) => false
       case _ => true
  }

  /** The link about to become live, or already live, is the one staged by this call. */
  predicate Displacing(request: Request, entry: Option<Object>, desired: Object, intruder: Object) {
    && entry.Some?
    && SameObject(desired, entry.value)
    && desired.body == Link(request.target)
    && !IsBefore(request, desired)
    && !SameObject(desired, intruder)
  }

  /** The writer's object was swapped out and this call is about to put it back. */
  predicate Restoring(request: Request, s: State, intruder: Object) {
    && AtExchangeName(s, intruder)
    && match s.pc
       case ReadSwapped(desired) => Displacing(request, s.pair.live, desired, intruder)
       case CheckRestorable(desired) => Displacing(request, s.pair.live, desired, intruder)
       case SwapBack(desired) => Displacing(request, s.pair.live, desired, intruder)
       case _ => false
  }

  /** A crash hit while the writer's object was swapped out: reruns refuse and keep it. */
  predicate Retained(request: Request, s: State, intruder: Object) {
    && AtExchangeName(s, intruder)
    && s.pair.live.Some?
    && !IsBefore(request, s.pair.live.value)
    && match s.pc
       case Probe => true
       case ReadActive => true
       case ReadDisplaced(active) => !IsBefore(request, active)
       case Refused => true
       case _ => false
  }

  lemma ReplacementIsHeld(request: Request, s: State, intruder: Object)
    requires Recoverable(request) && Invariant(request, s) && Intrudes(request, s, intruder)
    ensures Holding(request, Replace(s, intruder), intruder)
  {
  }

  lemma HoldingStep(request: Request, s: State, choice: Choice, intruder: Object)
    requires Recoverable(request) && !IsBefore(request, intruder) && Fresh(s.pair, choice)
    requires Holding(request, s, intruder)
    ensures var s' := Step(request, s, choice);
            Holding(request, s', intruder) || Restoring(request, s', intruder)
  {
  }

  lemma RestoringStep(request: Request, s: State, choice: Choice, intruder: Object)
    requires Recoverable(request) && !IsBefore(request, intruder)
    requires Restoring(request, s, intruder)
    ensures var s' := Step(request, s, choice);
            Restoring(request, s', intruder) || (s'.pc == Abandon && Holding(request, s', intruder))
  {
  }

  lemma RetainedStep(request: Request, s: State, choice: Choice, intruder: Object)
    requires !IsBefore(request, intruder) && Retained(request, s, intruder)
    ensures Retained(request, Step(request, s, choice), intruder)
  {
  }

  predicate Kept(request: Request, s: State, intruder: Object) {
    || Holding(request, s, intruder)
    || Restoring(request, s, intruder)
    || Retained(request, s, intruder)
  }

  lemma NextKeeps(request: Request, s: State, s': State, intruder: Object)
    requires Recoverable(request) && !IsBefore(request, intruder)
    requires Kept(request, s, intruder) && Next(request, s, s')
    ensures Kept(request, s', intruder)
  {
    if s' != Crash(s) {
      var choice :| Fresh(s.pair, choice) && s' == Step(request, s, choice);
      if Holding(request, s, intruder) {
        HoldingStep(request, s, choice, intruder);
      } else if Restoring(request, s, intruder) {
        RestoringStep(request, s, choice, intruder);
      } else {
        RetainedStep(request, s, choice, intruder);
      }
    }
  }

  lemma {:induction false} RunKeeps(request: Request, run: seq<State>, i: nat, intruder: Object)
    requires Recoverable(request) && !IsBefore(request, intruder)
    requires Run(request, run) && Kept(request, run[0], intruder) && i < |run|
    ensures Kept(request, run[i], intruder)
  {
    if i > 0 {
      RunKeeps(request, run, i - 1, intruder);
      assert NextAt(request, run, i);
      NextKeeps(request, run[i - 1], run[i], intruder);
    }
  }

  /** Whatever the schedule of crashes before and after the replacement, the writer's object
      is never deleted: it is always at the path or at the exchange name. */
  lemma ForeignObjectIsNeverDeleted(
      request: Request, run: seq<State>, intruder: Object, rest: seq<State>, i: nat)
    requires Recoverable(request)
    requires Run(request, run) && run[0] == Start(Pair(request.before, None))
    requires Intrudes(request, run[|run| - 1], intruder)
    requires Run(request, rest) && rest[0] == Replace(run[|run| - 1], intruder)
    requires i < |rest|
    ensures AtPath(rest[i], intruder) || AtExchangeName(rest[i], intruder)
  {
    RunKeepsInvariant(request, run, |run| - 1);
    ReplacementIsHeld(request, run[|run| - 1], intruder);
    RunKeeps(request, rest, i, intruder);
  }

  lemma {:induction false} UninterruptedKeeps(request: Request, run: seq<State>, i: nat, intruder: Object)
    requires Recoverable(request) && !IsBefore(request, intruder)
    requires Uninterrupted(request, run) && Holding(request, run[0], intruder) && i < |run|
    ensures Holding(request, run[i], intruder) || Restoring(request, run[i], intruder)
  {
    if i > 0 {
      UninterruptedKeeps(request, run, i - 1, intruder);
      assert ExecutesAt(request, run, i);
      var choice :| Fresh(run[i - 1].pair, choice) && run[i] == Step(request, run[i - 1], choice);
      if Holding(request, run[i - 1], intruder) {
        HoldingStep(request, run[i - 1], choice, intruder);
      } else {
        RestoringStep(request, run[i - 1], choice, intruder);
      }
    }
  }

  /** If the call that was running when the writer struck is not itself interrupted, then
      the writer's object is at the path when that call ends, successfully or not. */
  lemma ForeignObjectIsLiveAtTheEnd(
      request: Request, run: seq<State>, intruder: Object, rest: seq<State>)
    requires Recoverable(request)
    requires Run(request, run) && run[0] == Start(Pair(request.before, None))
    requires Intrudes(request, run[|run| - 1], intruder)
    requires Uninterrupted(request, rest) && rest[0] == Replace(run[|run| - 1], intruder)
    requires Terminal(rest[|rest| - 1].pc)
    ensures AtPath(rest[|rest| - 1], intruder)
  {
    RunKeepsInvariant(request, run, |run| - 1);
    ReplacementIsHeld(request, run[|run| - 1], intruder);
    UninterruptedKeeps(request, rest, |rest| - 1, intruder);
  }

  /** A replacement that lands between the last check and the exchange is swapped back and
      reported, and the staged link is removed: exactly the writer's object remains. */
  lemma {:induction false} RaceBeforeTheSwapIsUndone(request: Request, s: State, intruder: Object, kernel: Kernel)
    requires Recoverable(request) && Invariant(request, s) && s.pc.Swap?
    requires Intrudes(request, s, intruder)
    ensures var end := Finish(request, Replace(s, intruder), kernel);
            end == State(Pair(Some(intruder.(ctime := kernel(2).ctime)), None), Refused)
  {
    var s0 := Replace(s, intruder);
    var s1 := Tick(request, s0, kernel);
    var s2 := Tick(request, s1, kernel);
    var s3 := Tick(request, s2, kernel);
    var s4 := Tick(request, s3, kernel);
    FinishStep(request, s0, kernel);
    FinishStep(request, s1, kernel);
    assert s2.pc.CheckRestorable?;
    FinishStep(request, s2, kernel);
    FinishStep(request, s3, kernel);
    FinishStep(request, s4, kernel);
  }
}
