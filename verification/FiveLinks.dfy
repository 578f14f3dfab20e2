/**
 The five stable links of one generation activation, published in a fixed order:
 `current`, the install receipt, the two launchers and the managed repository. The
 last four name constant text through `current`, so they resolve only through it.
 */
module FiveLinks {
  import opened Objects
  import opened LinkExchange
  import LinkPublication

  const LINKS: nat := 5
  const CURRENT: nat := 0

  /** The contract under which each link is captured. */
  function SlotKind(i: nat): Kind {
    if i == CURRENT || i == LINKS - 1 then SymlinkKind else FileOrSymlinkKind
  }

  /** Snapshots and target texts of the five links, and the generation directories that
      exist in full. `targets[CURRENT]` is the generation being activated. */
  datatype Plan = Plan(befores: seq<Option<Object>>, targets: seq<string>, installed: set<string>)

  datatype Activation = Activation(pairs: seq<Pair>, index: nat, pc: Pc)

  predicate Shaped(plan: Plan) { |plan.befores| == |plan.targets| == LINKS }

  /** Text through `current` resolves when `current` is a link to an installed generation. */
  predicate CurrentResolves(plan: Plan, current: Option<Object>) {
    current.Some? && current.value.body.Link? && current.value.body.target in plan.installed
  }

  predicate TargetResolves(plan: Plan, current: Option<Object>, i: nat)
    requires Shaped(plan) && i < LINKS
  {
    if i == CURRENT then plan.targets[CURRENT] in plan.installed else CurrentResolves(plan, current)
  }

  function RequestFor(plan: Plan, current: Option<Object>, i: nat): Request
    requires Shaped(plan) && i < LINKS
  {
    Request(SlotKind(i), plan.befores[i], plan.targets[i],
            if TargetResolves(plan, current, i) then {plan.targets[i]} else {})
  }

  /** The request of link `i` once `current` resolves. */
  function Settled(plan: Plan, i: nat): Request
    requires Shaped(plan) && i < LINKS
  {
    Request(SlotKind(i), plan.befores[i], plan.targets[i], {plan.targets[i]})
  }

  /** The plan was captured path by path and names a generation that was prepared in full. */
  predicate Captured(plan: Plan) {
    && Shaped(plan)
    && plan.targets[CURRENT] in plan.installed
    && forall i :: 0 <= i < LINKS ==> Recoverable(Settled(plan, i))
  }

  /** What a captured plan is, spelled out: five one-line targets, the first of them an installed
      generation; `current` and the managed repository absent or links of one line; the receipt
      and the launchers absent, such links, or regular files of 1 byte to 4 MiB. */
  lemma CapturedIff(plan: Plan)
    ensures Captured(plan) <==>
              && |plan.befores| == 5 && |plan.targets| == 5 && plan.targets[0] in plan.installed
              && (forall i :: 0 <= i < 5 ==> OneLine(plan.targets[i]))
              && forall i :: 0 <= i < 5 && plan.befores[i].Some? ==>
                   var body := plan.befores[i].value.body;
                   || (body.Link? && OneLine(body.target))
                   || (1 <= i <= 3 && body.Regular? && 1 <= plan.befores[i].value.size <= 4194304)
  {
    if Shaped(plan) {
      forall i | 0 <= i < LINKS
        ensures Recoverable(Settled(plan, i)) <==>
                  && OneLine(plan.targets[i])
                  && (plan.befores[i].Some? ==>
                        var body := plan.befores[i].value.body;
                        || (body.Link? && OneLine(body.target))
                        || (1 <= i <= 3 && body.Regular? && 1 <= plan.befores[i].value.size <= 4194304))
      {
      }
    }
  }

  /** Any other link is published only while `current` leads to an installed generation. */
  lemma DanglingCurrentIsRefused(plan: Plan, current: Option<Object>, i: nat, pair: Pair, kernel: Kernel)
    requires Shaped(plan) && 0 < i < LINKS
    ensures plan.targets[i] in RequestFor(plan, current, i).aliases <==>
              current.Some? && exists text :: text in plan.installed && current.value.body == Link(text)
    ensures (current.None? || forall text :: text in plan.installed ==> current.value.body != Link(text)) ==>
              Finish(RequestFor(plan, current, i), Start(pair), kernel).pc.Refused?
  {
    var request := RequestFor(plan, current, i);
    if request.target !in request.aliases {
      DanglingTargetIsRefused(request, pair, kernel);
    } else {
      assert current.value.body == Link(current.value.body.target);
    }
  }

  function Begin(pairs: seq<Pair>): Activation { Activation(pairs, 0, Probe) }

  function Original(plan: Plan): seq<Pair>
    requires Shaped(plan)
  {
    seq(LINKS, i requires 0 <= i < LINKS => Pair(plan.befores[i], None))
  }

  /** One instruction: of the current publication, or the start of the next one. */
  function Advance(plan: Plan, a: Activation, choice: Choice): Activation
    requires Shaped(plan) && |a.pairs| == LINKS
  {
    if a.index >= LINKS then a
    else
      var request := RequestFor(plan, a.pairs[CURRENT].live, a.index);
      var s := Step(request, State(a.pairs[a.index], a.pc), choice);
      var pairs := a.pairs[a.index := s.pair];
      if s.pc.Done? then Activation(pairs, a.index + 1, Probe) else Activation(pairs, a.index, s.pc)
  }

  ghost predicate Moves(plan: Plan, a: Activation, a': Activation)
    requires Shaped(plan)
  {
    && |a.pairs| == LINKS
    && exists choice :: (a.index < LINKS ==> Fresh(a.pairs[a.index], choice)) && a' == Advance(plan, a, choice)
  }

  ghost predicate Schedule(plan: Plan, run: seq<Activation>)
    requires Shaped(plan)
  {
    |run| > 0 && forall i: nat :: 0 < i < |run| ==> NextAt(plan, run, i)
  }

  ghost predicate NextAt(plan: Plan, run: seq<Activation>, i: nat)
    requires Shaped(plan) && 0 < i < |run|
  {
    Moves(plan, run[i - 1], run[i]) || run[i] == Begin(run[i - 1].pairs)
  }

  /** A schedule without crashes. */
  ghost predicate Uninterrupted(plan: Plan, run: seq<Activation>)
    requires Shaped(plan)
  {
    |run| > 0 && forall i: nat :: 0 < i < |run| ==> MovesAt(plan, run, i)
  }

  ghost predicate MovesAt(plan: Plan, run: seq<Activation>, i: nat)
    requires Shaped(plan) && 0 < i < |run|
  {
    Moves(plan, run[i - 1], run[i])
  }

  predicate Consistent(plan: Plan, a: Activation)
    requires Shaped(plan)
  {
    && |a.pairs| == LINKS
    && a.index <= LINKS
    && (forall j :: 0 <= j < LINKS ==> Durable(Settled(plan, j), a.pairs[j]))
    && (forall j :: 0 <= j < a.index ==> Published(Settled(plan, j), a.pairs[j]))
    && (a.index < LINKS ==> Invariant(Settled(plan, a.index), State(a.pairs[a.index], a.pc)))
  }

  lemma SettledRequest(plan: Plan, a: Activation)
    requires Captured(plan) && Consistent(plan, a) && a.index < LINKS
    ensures RequestFor(plan, a.pairs[CURRENT].live, a.index) == Settled(plan, a.index)
  {
    if a.index > 0 {
      assert Published(Settled(plan, CURRENT), a.pairs[CURRENT]);
    }
  }

  lemma AdvanceKeepsConsistent(plan: Plan, a: Activation, choice: Choice)
    requires Captured(plan) && Consistent(plan, a)
    requires a.index < LINKS ==> Fresh(a.pairs[a.index], choice)
    ensures Consistent(plan, Advance(plan, a, choice))
  {
    if a.index < LINKS {
      SettledRequest(plan, a);
      var request := Settled(plan, a.index);
      var s := State(a.pairs[a.index], a.pc);
      assert Recoverable(request);
      StepKeepsInvariant(request, s, choice);
      var s' := Step(request, s, choice);
      InvariantIsDurable(request, s');
      var a' := Advance(plan, a, choice);
      forall j | 0 <= j < LINKS
        ensures Durable(Settled(plan, j), a'.pairs[j])
      {
        assert j != a.index ==> a'.pairs[j] == a.pairs[j];
      }
    }
  }

  /** No reachable step of an activation is refused. */
  lemma AdvanceIsNeverRefused(plan: Plan, a: Activation, choice: Choice)
    requires Captured(plan) && Consistent(plan, a) && a.index < LINKS && !Terminal(a.pc)
    requires Fresh(a.pairs[a.index], choice)
    ensures var a' := Advance(plan, a, choice); a'.index < LINKS ==> !Terminal(a'.pc)
  {
    AdvanceKeepsConsistent(plan, a, choice);
    var a' := Advance(plan, a, choice);
    if a'.index < LINKS {
      assert Invariant(Settled(plan, a'.index), State(a'.pairs[a'.index], a'.pc));
    }
  }

  lemma {:induction false} ScheduleKeepsConsistent(plan: Plan, run: seq<Activation>, i: nat)
    requires Captured(plan) && Schedule(plan, run) && Consistent(plan, run[0]) && i < |run|
    ensures Consistent(plan, run[i])
  {
    if i > 0 {
      ScheduleKeepsConsistent(plan, run, i - 1);
      assert NextAt(plan, run, i);
      if run[i] != Begin(run[i - 1].pairs) {
        MoveKeepsConsistent(plan, run[i - 1], run[i]);
      }
    }
  }

  lemma {:induction false} MoveKeepsConsistent(plan: Plan, a: Activation, a': Activation)
    requires Captured(plan) && Consistent(plan, a) && Moves(plan, a, a')
    ensures Consistent(plan, a')
  {
    var choice :| (a.index < LINKS ==> Fresh(a.pairs[a.index], choice)) && a' == Advance(plan, a, choice);
    AdvanceKeepsConsistent(plan, a, choice);
  }

  /** Every schedule of crashes: no link is ever refused or lost, each names its snapshot
      object or its desired text, and an activation that completes has all five published. */
  lemma {:induction false} ActivationIsCrashConvergent(plan: Plan, run: seq<Activation>, i: nat, j: nat)
    requires Captured(plan) && Schedule(plan, run) && run[0] == Begin(Original(plan))
    requires i < |run| && j < LINKS
    ensures |run[i].pairs| == LINKS
    ensures run[i].pairs[j].live == plan.befores[j] || Names(run[i].pairs[j].live, plan.targets[j])
    ensures run[i].pc != Refused
    ensures run[i].index >= LINKS ==>
              Names(run[i].pairs[j].live, plan.targets[j]) && run[i].pairs[j].exch.None?
  {
    forall k | 0 <= k < LINKS
      ensures Durable(Settled(plan, k), run[0].pairs[k])
    {
      assert Untouched(Settled(plan, k), run[0].pairs[k]);
    }
    ScheduleKeepsConsistent(plan, run, i);
    assert Durable(Settled(plan, j), run[i].pairs[j]);
    if run[i].index < LINKS {
      assert Invariant(Settled(plan, run[i].index), State(run[i].pairs[run[i].index], run[i].pc));
    } else if i > 0 {
      FinishedIsAtProbe(plan, run, i);
    }
  }

  lemma {:induction false} FinishedIsAtProbe(plan: Plan, run: seq<Activation>, i: nat)
    requires Captured(plan) && Schedule(plan, run) && run[0] == Begin(Original(plan)) && i < |run|
    ensures run[i].index >= LINKS ==> run[i].pc == Probe
  {
    if i > 0 {
      FinishedIsAtProbe(plan, run, i - 1);
      assert NextAt(plan, run, i);
    }
  }

  /* ---------- completion ---------- */

  function Left(a: Activation): nat {
    if a.index >= LINKS then 0 else (LINKS - 1 - a.index) * 16 + Remaining(a.pc) + 1
  }

  lemma MoveMakesProgress(plan: Plan, a: Activation, a': Activation)
    requires Captured(plan) && Consistent(plan, a) && Moves(plan, a, a') && a.index < LINKS
    requires !Terminal(a.pc)
    ensures Left(a') < Left(a)
  {
    SettledRequest(plan, a);
    var choice :| (a.index < LINKS ==> Fresh(a.pairs[a.index], choice)) && a' == Advance(plan, a, choice);
    var s := State(a.pairs[a.index], a.pc);
    StepMakesProgress(Settled(plan, a.index), s, Step(Settled(plan, a.index), s, choice));
  }

  /** An activation that is left alone for eighty instructions has published all five links,
      from whatever state the crashes before it left behind. */
  lemma {:induction false} ActivationCompletes(plan: Plan, run: seq<Activation>, i: nat)
    requires Captured(plan) && Uninterrupted(plan, run)
    requires Consistent(plan, run[0]) && run[0] == Begin(run[0].pairs)
    requires i < |run|
    ensures Consistent(plan, run[i])
    ensures run[i].index >= LINKS || Left(run[i]) + i <= 80
    ensures i >= 80 ==> forall j :: 0 <= j < LINKS ==> Published(Settled(plan, j), run[i].pairs[j])
  {
    if i > 0 {
      ActivationCompletes(plan, run, i - 1);
      assert MovesAt(plan, run, i);
      if run[i - 1].index < LINKS {
        NotTerminal(plan, run, i - 1);
      }
      MoveGoesOn(plan, run[i - 1], run[i]);
    }
  }

  lemma MoveGoesOn(plan: Plan, a: Activation, a': Activation)
    requires Captured(plan) && Consistent(plan, a) && Moves(plan, a, a')
    requires a.index < LINKS ==> !Terminal(a.pc)
    ensures Consistent(plan, a')
    ensures a.index < LINKS ==> Left(a') < Left(a)
    ensures a.index >= LINKS ==> a' == a
  {
    var choice :| (a.index < LINKS ==> Fresh(a.pairs[a.index], choice)) && a' == Advance(plan, a, choice);
    AdvanceKeepsConsistent(plan, a, choice);
    if a.index < LINKS {
      MoveMakesProgress(plan, a, a');
    }
  }

  lemma {:induction false} NotTerminal(plan: Plan, run: seq<Activation>, i: nat)
    requires Captured(plan) && Uninterrupted(plan, run)
    requires Consistent(plan, run[0]) && run[0] == Begin(run[0].pairs)
    requires i < |run| && Consistent(plan, run[i]) && run[i].index < LINKS
    ensures !Terminal(run[i].pc)
  {
    assert Invariant(Settled(plan, run[i].index), State(run[i].pairs[run[i].index], run[i].pc));
    if i > 0 {
      assert MovesAt(plan, run, i);
    }
  }

  /* ---------- one generation at every instant ---------- */

  /** The generation a stable link leads into at this instant. */
  function LeadsInto(plan: Plan, pairs: seq<Pair>, j: nat): Option<string>
    requires Shaped(plan) && |pairs| == LINKS && j < LINKS
  {
    if Names(pairs[j].live, plan.targets[j]) && CurrentResolves(plan, pairs[CURRENT].live)
    then Some(pairs[CURRENT].live.value.body.target)
    else None
  }

  /** A host already on generations: `current` names one, and the other four links already
      carry their text through it. */
  predicate OnGenerations(plan: Plan)
    requires Shaped(plan)
  {
    && CurrentResolves(plan, plan.befores[CURRENT])
    && forall j :: 0 < j < LINKS ==> Names(plan.befores[j], plan.targets[j])
  }

  /** On such a host the receipt, both launchers and the repository lead into one and the same
      generation at every instant of every schedule: the old one or the new one, in full. */
  lemma {:induction false} OneGenerationAtEveryInstant(plan: Plan, run: seq<Activation>, i: nat, j: nat)
    requires Captured(plan) && OnGenerations(plan)
    requires Schedule(plan, run) && run[0] == Begin(Original(plan))
    requires i < |run| && 0 < j < LINKS
    ensures |run[i].pairs| == LINKS
    ensures LeadsInto(plan, run[i].pairs, j).Some?
    ensures LeadsInto(plan, run[i].pairs, j) == LeadsInto(plan, run[i].pairs, 1)
    ensures LeadsInto(plan, run[i].pairs, j).value in
              {plan.befores[CURRENT].value.body.target, plan.targets[CURRENT]}
  {
    ActivationIsCrashConvergent(plan, run, i, CURRENT);
    ActivationIsCrashConvergent(plan, run, i, 1);
    ActivationIsCrashConvergent(plan, run, i, j);
  }

  /* ---------- a stale manifest ---------- */

  /** A link that is neither its recorded snapshot nor the desired link, as when the manifest
      was written by an earlier transaction and the link has changed since. */
  predicate Stale(plan: Plan, pairs: seq<Pair>, j: nat)
    requires Shaped(plan) && |pairs| == LINKS && j < LINKS
  {
    pairs[j].exch.None? && pairs[j].live != plan.befores[j] && !Names(pairs[j].live, plan.targets[j])
  }

  predicate Stuck(plan: Plan, a: Activation, pairs: seq<Pair>, j: nat)
    requires |pairs| == LINKS && j < LINKS
  {
    && |a.pairs| == LINKS && a.pairs[j] == pairs[j] && a.index <= j
    && (a.index == j ==> a.pc == Probe || a.pc == ReuseCheck || a.pc == Observe || a.pc == Refused)
  }

  /** Such a link is refused on every rerun: whatever the schedule, no activation gets past it
      and it is never touched. */
  lemma {:induction false} StaleManifestIsRefusedForever(plan: Plan, run: seq<Activation>, j: nat, i: nat)
    requires Shaped(plan) && Schedule(plan, run) && |run[0].pairs| == LINKS && run[0] == Begin(run[0].pairs)
    requires j < LINKS && Stale(plan, run[0].pairs, j) && i < |run|
    ensures Stuck(plan, run[i], run[0].pairs, j)
    ensures |run[i].pairs| == 5 && run[i].pairs[j] == run[0].pairs[j] && run[i].index <= j
  {
    if i > 0 {
      StaleManifestIsRefusedForever(plan, run, j, i - 1);
      assert NextAt(plan, run, i);
      var a, a' := run[i - 1], run[i];
      if a' != Begin(a.pairs) {
        assert Moves(plan, a, a');
        var choice :| (a.index < LINKS ==> Fresh(a.pairs[a.index], choice)) && a' == Advance(plan, a, choice);
      }
    }
  }

  /** And that is the only way to be refused from names without exchange files. */
  lemma CurrentManifestIsAccepted(plan: Plan, pairs: seq<Pair>)
    requires Captured(plan) && |pairs| == LINKS
    requires forall j :: 0 <= j < LINKS ==> pairs[j].exch.None?
    ensures (forall j :: 0 <= j < LINKS ==> Accepts(Settled(plan, j), pairs[j]))
            <==> (forall j :: 0 <= j < LINKS ==> !Stale(plan, pairs, j))
  {
    forall j | 0 <= j < LINKS
      ensures Accepts(Settled(plan, j), pairs[j]) <==> !Stale(plan, pairs, j)
    {
      assert pairs[j].exch.None?;
    }
  }

  /* ---------- the loop over the five names ---------- */

  lemma DurableIsAccepted(request: Request, pair: Pair)
    requires Recoverable(request) && Durable(request, pair)
    ensures Accepts(request, pair)
  {
  }

  /** Publish the five links in order, stopping at the first refusal. `reached` counts the
      links published; later links are not touched. Any state a crash can leave is accepted. */
  method ReconcileLinks(plan: Plan, links: seq<LinkPublication.Pathnames>, kernels: seq<Kernel>)
    returns (reached: nat)
    requires Captured(plan) && |links| == |kernels| == LINKS
    requires forall i, j :: 0 <= i < j < LINKS ==> links[i] != links[j]
    requires forall i :: 0 <= i < LINKS ==> AlwaysFresh(links[i].Here(), kernels[i])
    modifies links
    ensures reached <= LINKS
    ensures forall j :: 0 <= j < reached ==> Published(Settled(plan, j), links[j].Here())
    ensures reached < LINKS ==> links[reached].live == old(links[reached].live)
    ensures reached < LINKS ==> !Accepts(Settled(plan, reached), old(links[reached].Here()))
    ensures forall j :: reached < j < LINKS ==> links[j].Here() == old(links[j].Here())
    ensures reached == LINKS <==> old(forall j :: 0 <= j < LINKS ==> Accepts(Settled(plan, j), links[j].Here()))
    ensures old(forall j :: 0 <= j < LINKS ==> Durable(Settled(plan, j), links[j].Here())) ==> reached == LINKS
  {
    forall j | 0 <= j < LINKS && Durable(Settled(plan, j), links[j].Here())
      ensures Accepts(Settled(plan, j), links[j].Here())
    {
      DurableIsAccepted(Settled(plan, j), links[j].Here());
    }
    reached := 0;
    while reached < LINKS
      invariant reached <= LINKS
      invariant forall j :: 0 <= j < reached ==> Accepts(Settled(plan, j), old(links[j].Here()))
      invariant forall j :: 0 <= j < reached ==> Published(Settled(plan, j), links[j].Here())
      invariant forall j :: reached <= j < LINKS ==> links[j].Here() == old(links[j].Here())
    {
      var request := RequestFor(plan, links[CURRENT].live, reached);
      assert request == Settled(plan, reached) by {
        if reached > 0 {
          assert Published(Settled(plan, CURRENT), links[CURRENT].Here());
        }
      }
      assert Recoverable(request);
      assert AlwaysFresh(links[reached].Here(), kernels[reached]);
      var outcome := links[reached].Reconcile(request, kernels[reached], map[]);
      if outcome.ConfigurationError? {
        return;
      }
      reached := reached + 1;
    }
  }
}
