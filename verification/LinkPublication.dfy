/**
 The link publication in the program's own form: straight-line code over two mutable
 pathnames with an `exchanged` flag and an unwinding handler, while another writer may
 replace the live path before any instruction. Its result is the outcome of the
 instruction machine of `LinkExchange`, so every theorem about that machine, at every
 crash point, is about this code.
 */
module LinkPublication {
  import opened Objects
  import opened LinkExchange

  datatype Outcome = Published(action: Action) | ConfigurationError

  function OutcomeOf(pc: Pc): Outcome {
    if pc.Done? then Outcome.Published(pc.action) else ConfigurationError
  }

  /** Writes of other processes, keyed by the instruction (its rank) they precede. */
  type Storm = map<nat, Object>

  function Struck(s: State, storm: Storm): State {
    if Remaining(s.pc) in storm then s.(pair := s.pair.(live := Some(storm[Remaining(s.pc)]))) else s
  }

  /** The outcome of an uninterrupted call amid the other writes. */
  function FinishAmid(request: Request, s: State, kernel: Kernel, storm: Storm): State
    decreases Remaining(s.pc)
  {
    if Terminal(s.pc) then s
    else
      TickIsCloser(request, Struck(s, storm), kernel);
      FinishAmid(request, Tick(request, Struck(s, storm), kernel), kernel, storm)
  }

  /** Execute one instruction of the machine that shadows the code. */
  lemma {:induction false} Advance(request: Request, s: State, kernel: Kernel, storm: Storm) returns (s': State)
    requires !Terminal(s.pc)
    ensures s' == Tick(request, Struck(s, storm), kernel)
    ensures FinishAmid(request, s, kernel, storm) == FinishAmid(request, s', kernel, storm)
  {
    s' := Tick(request, Struck(s, storm), kernel);
  }

  lemma {:induction false} CalmFinish(request: Request, s: State, kernel: Kernel)
    ensures FinishAmid(request, s, kernel, map[]) == Finish(request, s, kernel)
    decreases Remaining(s.pc)
  {
    if !Terminal(s.pc) {
      TickIsCloser(request, s, kernel);
      FinishStep(request, s, kernel);
      var s' := Advance(request, s, kernel, map[]);
      CalmFinish(request, s', kernel);
    }
  }

  /** Where the machine stands when the guarded block ends. */
  function Unwound(failed: bool, exchanged: bool): Pc {
    if !failed then VerifyFinal else if exchanged then Refused else Abandon
  }

  class Pathnames {
    var live: Option<Object>
    var exch: Option<Object>

    constructor (live: Option<Object>, exch: Option<Object>)
      ensures Here() == Pair(live, exch)
    {
      this.live, this.exch := live, exch;
    }

    ghost function Here(): Pair
      reads this
    {
      Pair(live, exch)
    }

    /** Another writer may strike before the instruction of the given rank. */
    method Strike(storm: Storm, rank: nat)
      modifies this
      ensures Here() == old(Here()).(live := if rank in storm then Some(storm[rank]) else old(live))
    {
      if rank in storm {
        live := Some(storm[rank]);
      }
    }

    method AtomicExchange(choice: Choice)
      requires live.Some? && exch.Some?
      modifies this
      ensures Here() == Exchange(old(Here()), choice)
    {
      live, exch := Some(exch.value.(ctime := choice.ctime)), Some(live.value.(ctime := choice.ctime'));
    }

    /** After the exchange: verify what was displaced, then unlink or swap back. */
    method VerifyExchange(
      request: Request, kernel: Kernel, storm: Storm, desired: Object)
      returns (failed: bool, exchanged: bool)
      requires live.Some? && exch.Some?
      modifies this
      ensures
        FinishAmid(request, State(old(Here()), ReadSwapped(desired)), kernel, storm)
        == FinishAmid(request, State(Here(), Unwound(failed, exchanged)), kernel, storm)
    {
      ghost var s := State(Here(), ReadSwapped(desired));
      Strike(storm, 5);
      var displaced := Capture(request.kind, ACTIVATION_MAXIMUM, exch);
      s := Advance(request, s, kernel, storm);
      if displaced.None? || !IsBefore(request, displaced.value) {
        assert s == State(Here(), CheckRestorable(desired));
        failed, exchanged := RestoreDisplaced(request, kernel, storm, desired);
        return;
      }
      assert s == State(Here(), ReadLive(desired));
      failed, exchanged := VerifyActive(request, kernel, storm, desired);
    }

    method VerifyActive(request: Request, kernel: Kernel, storm: Storm, desired: Object)
      returns (failed: bool, exchanged: bool)
      requires live.Some? && exch.Some?
      modifies this
      ensures
        FinishAmid(request, State(old(Here()), ReadLive(desired)), kernel, storm)
        == FinishAmid(request, State(Here(), Unwound(failed, exchanged)), kernel, storm)
    {
      ghost var s := State(Here(), ReadLive(desired));
      Strike(storm, 3);
      var active := Capture(SymlinkKind, LINK_MAXIMUM, live);
      s := Advance(request, s, kernel, storm);
      exchanged := false;
      failed := active.None? || !SameObject(desired, active.value);
      if failed {
        assert s == State(Here(), DropChanged);
        UnlinkChanged(request, kernel, storm);
      } else {
        assert s == State(Here(), DropDisplaced);
        Strike(storm, 2);
        exch := None;
        s := Advance(request, s, kernel, storm);
      }
    }

    method UnlinkChanged(request: Request, kernel: Kernel, storm: Storm)
      modifies this
      ensures
        FinishAmid(request, State(old(Here()), DropChanged), kernel, storm)
        == FinishAmid(request, State(Here(), Abandon), kernel, storm)
    {
      ghost var s := State(Here(), DropChanged);
      Strike(storm, 1);
      exch := None;
      s := Advance(request, s, kernel, storm);
      ghost var _ := Advance(request, State(Here(), Abandon), kernel, storm);
    }

    /** The displaced object is not the snapshot: put it back if the path still holds ours. */
    method RestoreDisplaced(
      request: Request, kernel: Kernel, storm: Storm, desired: Object)
      returns (failed: bool, exchanged: bool)
      requires live.Some? && exch.Some?
      modifies this
      ensures failed
      ensures
        FinishAmid(request, State(old(Here()), CheckRestorable(desired)), kernel, storm)
        == FinishAmid(request, State(Here(), Unwound(failed, exchanged)), kernel, storm)
    {
      ghost var s := State(Here(), CheckRestorable(desired));
      failed, exchanged := true, true;
      Strike(storm, 3);
      var active := Capture(SymlinkKind, LINK_MAXIMUM, live);
      s := Advance(request, s, kernel, storm);
      if active.None? || !SameObject(desired, active.value) {
        return;
      }
      assert s == State(Here(), SwapBack(desired));
      Strike(storm, 2);
      AtomicExchange(kernel(2));
      s := Advance(request, s, kernel, storm);
      exchanged := false;
    }

    /** The guarded block: stage, recheck, exchange, verify, unlink. `failed` stands for a
        raised exception and `exchanged` for the flag the handler reads. */
    method StageAndExchange(request: Request, kernel: Kernel, storm: Storm)
      returns (failed: bool, exchanged: bool)
      requires request.before.Some?
      modifies this
      ensures
        FinishAmid(request, State(old(Here()), Stage), kernel, storm)
        == FinishAmid(request, State(Here(), Unwound(failed, exchanged)), kernel, storm)
    {
      ghost var s := State(Here(), Stage);
      failed, exchanged := true, false;
      Strike(storm, 9);
      s := Advance(request, s, kernel, storm);
      if exch.Some? {
        return;
      }
      exch := Some(NewLink(request, kernel(9)));
      assert s == State(Here(), CaptureDesired);
      Strike(storm, 8);
      var desired := Capture(SymlinkKind, LINK_MAXIMUM, exch);
      s := Advance(request, s, kernel, storm);
      if desired.None? {
        return;
      }
      assert s == State(Here(), Recheck(desired.value));
      failed, exchanged := RecheckAndExchange(request, kernel, storm, desired.value);
    }

    /** The path must still hold the snapshot, to the ctime, before the exchange. */
    method RecheckAndExchange(request: Request, kernel: Kernel, storm: Storm, desired: Object)
      returns (failed: bool, exchanged: bool)
      requires request.before.Some? && exch.Some?
      modifies this
      ensures
        FinishAmid(request, State(old(Here()), Recheck(desired)), kernel, storm)
        == FinishAmid(request, State(Here(), Unwound(failed, exchanged)), kernel, storm)
    {
      ghost var s := State(Here(), Recheck(desired));
      Strike(storm, 7);
      s := Advance(request, s, kernel, storm);
      if Capture(request.kind, ACTIVATION_MAXIMUM, live) != request.before {
        return true, false;
      }
      assert s == State(Here(), Swap(desired));
      failed, exchanged := ExchangeAndVerify(request, kernel, storm, desired);
    }

    method ExchangeAndVerify(request: Request, kernel: Kernel, storm: Storm, desired: Object)
      returns (failed: bool, exchanged: bool)
      requires live.Some? && exch.Some?
      modifies this
      ensures
        FinishAmid(request, State(old(Here()), Swap(desired)), kernel, storm)
        == FinishAmid(request, State(Here(), Unwound(failed, exchanged)), kernel, storm)
    {
      ghost var s := State(Here(), Swap(desired));
      Strike(storm, 6);
      AtomicExchange(kernel(6));
      s := Advance(request, s, kernel, storm);
      assert s == State(Here(), ReadSwapped(desired));
      failed, exchanged := VerifyExchange(request, kernel, storm, desired);
    }

    /** An exchange name exists: decide from the two pathnames where an earlier call died. */
    method RecoverExchange(request: Request, kernel: Kernel, storm: Storm)
      returns (decided: Option<Outcome>)
      requires exch.Some?
      modifies this
      ensures var end := FinishAmid(request, State(old(Here()), ReadActive), kernel, storm);
              if decided.Some? then end.pair == Here() && OutcomeOf(end.pc) == decided.value
              else end == FinishAmid(request, State(Here(), ReuseCheck), kernel, storm)
    {
      ghost var s := State(Here(), ReadActive);
      Strike(storm, 14);
      var active := Capture(request.kind, ACTIVATION_MAXIMUM, live);
      s := Advance(request, s, kernel, storm);
      if active.None? {
        return Some(ConfigurationError);
      }
      assert s == State(Here(), ReadDisplaced(active.value));
      decided := CompareDisplaced(request, kernel, storm, active.value);
    }

    method CompareDisplaced(request: Request, kernel: Kernel, storm: Storm, active: Object)
      returns (decided: Option<Outcome>)
      requires exch.Some?
      modifies this
      ensures var end := FinishAmid(request, State(old(Here()), ReadDisplaced(active)), kernel, storm);
              if decided.Some? then end.pair == Here() && OutcomeOf(end.pc) == decided.value
              else end == FinishAmid(request, State(Here(), ReuseCheck), kernel, storm)
    {
      ghost var s := State(Here(), ReadDisplaced(active));
      Strike(storm, 13);
      var displaced := Capture(request.kind, ACTIVATION_MAXIMUM, exch);
      s := Advance(request, s, kernel, storm);
      if displaced.None? {
        return Some(ConfigurationError);
      }
      var activeIsDesired := active.body == Link(request.target);
      var displacedIsDesired := displaced.value.body == Link(request.target);
      if activeIsDesired && IsBefore(request, displaced.value) {
        assert s == State(Here(), VerifyRecovered);
        var outcome := UnlinkRecovered(request, kernel, storm);
        return Some(outcome);
      }
      if IsBefore(request, active) && displacedIsDesired {
        assert s == State(Here(), DropStaged);
        UnlinkStaged(request, kernel, storm);
        return None;
      }
      return Some(ConfigurationError);
    }

    /** The earlier call died between the swap and the unlink: finish it. */
    method UnlinkRecovered(request: Request, kernel: Kernel, storm: Storm) returns (outcome: Outcome)
      requires exch.Some?
      modifies this
      ensures var end := FinishAmid(request, State(old(Here()), VerifyRecovered), kernel, storm);
              Here() == end.pair && outcome == OutcomeOf(end.pc)
    {
      ghost var s := State(Here(), VerifyRecovered);
      Strike(storm, 2);
      s := Advance(request, s, kernel, storm);
      if !Verified(request, live) {
        return ConfigurationError;
      }
      assert s == State(Here(), Pc.UnlinkRecovered);
      Strike(storm, 1);
      exch := None;
      s := Advance(request, s, kernel, storm);
      return Outcome.Published(PlannedAction(request));
    }

    /** The earlier call died before the swap: start over. */
    method UnlinkStaged(request: Request, kernel: Kernel, storm: Storm)
      requires exch.Some?
      modifies this
      ensures FinishAmid(request, State(old(Here()), DropStaged), kernel, storm)
              == FinishAmid(request, State(Here(), ReuseCheck), kernel, storm)
    {
      ghost var s := State(Here(), DropStaged);
      Strike(storm, 12);
      exch := None;
      s := Advance(request, s, kernel, storm);
    }

    /** The exchange name is free: reuse, create or retarget the live path. */
    method PublishFresh(request: Request, kernel: Kernel, storm: Storm)
      returns (outcome: Outcome)
      modifies this
      ensures var end := FinishAmid(request, State(old(Here()), ReuseCheck), kernel, storm);
              Here() == end.pair && outcome == OutcomeOf(end.pc)
    {
      ghost var s := State(Here(), ReuseCheck);
      Strike(storm, 11);
      s := Advance(request, s, kernel, storm);
      if Names(live, request.target) && Verified(request, live) {
        return Outcome.Published(Reused);
      }
      assert s == State(Here(), Observe);
      outcome := PublishObserved(request, kernel, storm);
    }

    method PublishObserved(request: Request, kernel: Kernel, storm: Storm) returns (outcome: Outcome)
      modifies this
      ensures var end := FinishAmid(request, State(old(Here()), Observe), kernel, storm);
              Here() == end.pair && outcome == OutcomeOf(end.pc)
    {
      ghost var s := State(Here(), Observe);
      Strike(storm, 10);
      var observed := Capture(request.kind, ACTIVATION_MAXIMUM, live);
      s := Advance(request, s, kernel, storm);
      if request.before.None? {
        if live.Some? {
          return ConfigurationError;
        }
        assert s == State(Here(), CreateAbsent);
        Strike(storm, 2);
        s := Advance(request, s, kernel, storm);
        if live.Some? {
          return ConfigurationError;
        }
        live := Some(NewLink(request, kernel(2)));
      } else {
        if observed != request.before {
          return ConfigurationError;
        }
        assert s == State(Here(), Stage);
        var failed, exchanged := StageAndExchange(request, kernel, storm);
        s := State(Here(), Unwound(failed, exchanged));
        if failed {
          if !exchanged {
            Unwind(request, kernel, storm);
          }
          return ConfigurationError;
        }
      }
      assert s == State(Here(), VerifyFinal);
      outcome := VerifyPublished(request, kernel, storm);
    }

    /** The handler: remove the exchange name unless it may hold what was displaced. */
    method Unwind(request: Request, kernel: Kernel, storm: Storm)
      modifies this
      ensures FinishAmid(request, State(old(Here()), Abandon), kernel, storm) == State(Here(), Refused)
    {
      ghost var _ := Advance(request, State(Here(), Abandon), kernel, storm);
      Strike(storm, 1);
      exch := None;
    }

    method VerifyPublished(request: Request, kernel: Kernel, storm: Storm) returns (outcome: Outcome)
      modifies this
      ensures var end := FinishAmid(request, State(old(Here()), VerifyFinal), kernel, storm);
              Here() == end.pair && outcome == OutcomeOf(end.pc)
    {
      ghost var s := State(Here(), VerifyFinal);
      Strike(storm, 1);
      s := Advance(request, s, kernel, storm);
      outcome := if Verified(request, live) && Names(live, request.target)
                 then Outcome.Published(PlannedAction(request)) else ConfigurationError;
    }

    /** The program: recover an interrupted exchange if there is one, then publish. */
    method Execute(request: Request, kernel: Kernel, storm: Storm)
      returns (outcome: Outcome)
      modifies this
      ensures var end := FinishAmid(request, Start(old(Here())), kernel, storm);
              Here() == end.pair && outcome == OutcomeOf(end.pc)
    {
      ghost var s := Start(Here());
      Strike(storm, 15);
      s := Advance(request, s, kernel, storm);
      if exch.Some? {
        assert s == State(Here(), ReadActive);
        var decided := RecoverExchange(request, kernel, storm);
        if decided.Some? {
          return decided.value;
        }
      }
      outcome := PublishFresh(request, kernel, storm);
    }

    /** Publish the link from either the snapshot or the desired state. */
    method Reconcile(request: Request, kernel: Kernel, storm: Storm) returns (outcome: Outcome)
      modifies this
      ensures var end := FinishAmid(request, Start(old(Here())), kernel, storm);
              Here() == end.pair && outcome == OutcomeOf(end.pc)
      ensures storm == map[] && Recoverable(request) && AlwaysFresh(old(Here()), kernel) ==>
                (outcome.Published? <==> Accepts(request, old(Here())))
      ensures storm == map[] && Recoverable(request) && AlwaysFresh(old(Here()), kernel) ==>
                if outcome.Published?
                then Names(live, request.target) && exch.None?
                else live == old(live)
    {
      if storm == map[] && Recoverable(request) && AlwaysFresh(Here(), kernel) {
        CalmFinish(request, Start(Here()), kernel);
        CallPublishesIff(request, Here(), kernel);
      }
      outcome := Execute(request, kernel, storm);
    }
  }
}
