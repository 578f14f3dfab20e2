/**
 The `repos.yaml` transformation: register the relay-managed repository and the stable
 builtin slot by exact path, drop proven previous registrations, and leave every
 operator entry alone. The transformation is also the crash protocol's evidence, so
 what matters most is that it is a fixpoint operator.
 */
module Repositories {
  import opened Objects
  import opened Ordering

  /** The `repos` value of the document; anything but a list of strings is rejected. */
  datatype Value = Strings(items: seq<string>) | NotStrings

  datatype Document = Document(repos: Value, others: string)

  /** How a document is written down: as the program dumps it, or as somebody else did. */
  datatype Formatting = Canonical | Handwritten(text: string)

  /** File bytes: a document in some formatting, or bytes that do not parse to a mapping. */
  datatype Payload = Yaml(document: Document, formatting: Formatting) | Malformed(bytes: string)

  function Parse(payload: Payload): Option<Document> {
    if payload.Yaml? then Some(payload.document) else None
  }

  /** The registered repositories of a file that lists any. */
  function Registered(payload: Payload): seq<string> {
    if payload.Yaml? && payload.document.repos.Strings? then payload.document.repos.items else []
  }

  function Dump(document: Document): Payload { Yaml(document, Canonical) }

  /** One line `- entry` for each repository. */
  function ListSize(repos: seq<string>): nat {
    if repos == [] then 0 else |repos[0]| + 3 + ListSize(repos[1..])
  }

  /** How many bytes the file has. */
  function Size(payload: Payload): nat {
    match payload
    case Malformed(bytes) => |bytes|
    case Yaml(_, Handwritten(text)) => |text|
    case Yaml(document, Canonical) =>
      |"repos:\n"| + |document.others| + if document.repos.Strings? then ListSize(document.repos.items) else 0
  }

  /** The exact paths the transformation may add or remove, with their aliases. `previous`
      maps every alias of a proven previous registration to its canonical path. */
  datatype Context = Context(
    managed: string,
    managedAliases: set<string>,
    builtin: Option<string>,
    builtinAliases: set<string>,
    previous: map<string, string>,
    previousBuiltin: set<string>)

  datatype Converged = Converged(payload: Payload, added: seq<string>, removed: seq<string>)

  /** The three alias families name different paths. */
  ghost predicate WellFormed(context: Context) {
    && context.managed != "" && context.managed in context.managedAliases
    && (context.builtin.Some? ==> context.builtin.value != "" && context.builtin.value in context.builtinAliases)
    && (context.builtin.None? ==> context.builtinAliases == {})
    && context.managedAliases !! context.builtinAliases
    && context.previous.Keys !! context.managedAliases + context.builtinAliases
    && context.previousBuiltin <= context.previous.Keys
  }

  /* ---------- specification ---------- */

  predicate OwnedByRelay(context: Context, repo: string) {
    || repo in context.managedAliases
    || repo in context.builtinAliases
    || repo in context.previous
  }

  /** The entries registered through one family of aliases, in order. */
  function Matches(aliases: set<string>, repos: seq<string>): seq<string> {
    if repos == [] then []
    else (if repos[0] in aliases then [repos[0]] else []) + Matches(aliases, repos[1..])
  }

  /** The operator's own entries, in order and with multiplicity. */
  function Operators(context: Context, repos: seq<string>): seq<string> {
    if repos == [] then []
    else (if OwnedByRelay(context, repos[0]) then [] else [repos[0]]) + Operators(context, repos[1..])
  }

  /** How often a proven previous path is registered, through any alias. */
  function Registrations(context: Context, path: string, repos: seq<string>): nat {
    if repos == [] then 0
    else
      (if repos[0] in context.previous && context.previous[repos[0]] == path then 1 else 0)
      + Registrations(context, path, repos[1..])
  }

  /** Some proven previous path is registered through more than one entry. */
  predicate PreviousAmbiguous(context: Context, repos: seq<string>) {
    exists path :: path in context.previous.Values && Registrations(context, path, repos) > 1
  }

  /** The proven previous paths that are registered, increasing and without repetition. */
  function RemovedPrevious(context: Context, repos: seq<string>): seq<string> {
    if repos == [] then []
    else
      var last := |repos| - 1;
      var before := RemovedPrevious(context, repos[..last]);
      if repos[last] in context.previous then Insert(context.previous[repos[last]], before) else before
  }

  function FirstIn(aliases: set<string>, repos: seq<string>): Option<nat> {
    if repos == [] then None
    else if repos[0] in aliases then Some(0)
    else var rest := FirstIn(aliases, repos[1..]); if rest.None? then None else Some(rest.value + 1)
  }

  /** Where the builtin registration was: its own entry, else the first previous builtin. */
  function Anchor(context: Context, repos: seq<string>): Option<nat> {
    if Matches(context.builtinAliases, repos) != [] then FirstIn(context.builtinAliases, repos)
    else FirstIn(context.previousBuiltin, repos)
  }

  lemma {:induction false} FirstInIsFirst(aliases: set<string>, repos: seq<string>)
    ensures var first := FirstIn(aliases, repos);
            if first.Some? then
              && first.value < |repos|
              && repos[first.value] in aliases
              && forall i :: 0 <= i < first.value ==> repos[i] !in aliases
            else forall i :: 0 <= i < |repos| ==> repos[i] !in aliases
    ensures FirstIn(aliases, repos).None? <==> Matches(aliases, repos) == []
  {
    if repos != [] {
      FirstInIsFirst(aliases, repos[1..]);
      forall i | 0 < i < |repos|
        ensures repos[i] == repos[1..][i - 1]
      {
      }
    }
  }

  function SlotPosition(context: Context, repos: seq<string>): nat {
    FirstInIsFirst(context.builtinAliases, repos);
    FirstInIsFirst(context.previousBuiltin, repos);
    var anchor := Anchor(context, repos);
    |Operators(context, if anchor.Some? then repos[..anchor.value] else repos)|
  }

  function Updated(context: Context, repos: seq<string>): seq<string> {
    var operators := Operators(context, repos);
    if context.builtin.None? then [context.managed] + operators
    else
      OperatorsOfPrefix(context, repos);
      var at := SlotPosition(context, repos);
      [context.managed] + operators[..at] + [context.builtin.value] + operators[at..]
  }

  /** Every relay-owned registration is already exact. */
  predicate Settled(context: Context, repos: seq<string>) {
    && Matches(context.managedAliases, repos) == [context.managed]
    && (context.builtin.Some? ==> Matches(context.builtinAliases, repos) == [context.builtin.value])
    && RemovedPrevious(context, repos) == []
  }

  function Added(context: Context, repos: seq<string>): seq<string> {
    if context.builtin.None? then
      if Matches(context.managedAliases, repos) != [context.managed] then [context.managed] else []
    else
      (if repos == [] || repos[0] != context.managed then [context.managed] else [])
      + (if Matches(context.builtinAliases, repos) != [context.builtin.value] then [context.builtin.value] else [])
  }

  /** What an inspection of the file checks, before any previous registration is known. */
  predicate Inspected(context: Context, payload: Payload) {
    && payload.Yaml?
    && payload.document.repos.Strings?
    && var repos := payload.document.repos.items;
       && "" !in repos
       && |Matches(context.managedAliases, repos)| <= 1
       && |Matches(context.builtinAliases, repos)| <= 1
  }

  predicate Acceptable(context: Context, payload: Payload) {
    Inspected(context, payload) && !PreviousAmbiguous(context, payload.document.repos.items)
  }

  /** The converged bytes and the mutation evidence; `None` is the ConfigurationError. */
  function Converge(context: Context, payload: Payload): Option<Converged> {
    if !Acceptable(context, payload) then None
    else
      var document := payload.document;
      var repos := document.repos.items;
      if Settled(context, repos) then Some(Converged(payload, [], []))
      else Some(Converged(
        Dump(document.(repos := Strings(Updated(context, repos)))),
        Added(context, repos),
        RemovedPrevious(context, repos)))
  }

  /* ---------- list lemmas ---------- */

  lemma {:induction false} MatchesOfAppend(aliases: set<string>, a: seq<string>, b: seq<string>)
    ensures Matches(aliases, a + b) == Matches(aliases, a) + Matches(aliases, b)
  {
    if a == [] {
      assert a + b == b;
    } else {
      assert (a + b)[0] == a[0] && (a + b)[1..] == a[1..] + b;
      MatchesOfAppend(aliases, a[1..], b);
      var first := if a[0] in aliases then [a[0]] else [];
      assert first + (Matches(aliases, a[1..]) + Matches(aliases, b)) == first + Matches(aliases, a[1..]) + Matches(aliases, b);
    }
  }

  lemma {:induction false} OperatorsOfAppend(context: Context, a: seq<string>, b: seq<string>)
    ensures Operators(context, a + b) == Operators(context, a) + Operators(context, b)
  {
    if a == [] {
      assert a + b == b;
    } else {
      assert (a + b)[1..] == a[1..] + b;
      OperatorsOfAppend(context, a[1..], b);
    }
  }

  lemma {:induction false} RegistrationsOfAppend(context: Context, path: string, a: seq<string>, b: seq<string>)
    ensures Registrations(context, path, a + b) == Registrations(context, path, a) + Registrations(context, path, b)
  {
    if a == [] {
      assert a + b == b;
    } else {
      assert (a + b)[1..] == a[1..] + b;
      RegistrationsOfAppend(context, path, a[1..], b);
    }
  }

  lemma OperatorsOfPrefix(context: Context, repos: seq<string>)
    ensures SlotPosition(context, repos) <= |Operators(context, repos)|
  {
    FirstInIsFirst(context.builtinAliases, repos);
    FirstInIsFirst(context.previousBuiltin, repos);
    var anchor := Anchor(context, repos);
    if anchor.Some? {
      FewerBeforeThanInAll(context, repos, anchor.value);
    }
  }

  lemma FewerBeforeThanInAll(context: Context, repos: seq<string>, at: nat)
    requires at <= |repos|
    ensures |Operators(context, repos[..at])| <= |Operators(context, repos)|
  {
    OperatorsOfAppend(context, repos[..at], repos[at..]);
    assert repos[..at] + repos[at..] == repos;
  }

  /** Operator entries belong to no family. */
  lemma {:induction false} OperatorsAreForeign(context: Context, repos: seq<string>)
    ensures forall v :: v in Operators(context, repos) ==> v in repos && !OwnedByRelay(context, v)
  {
    if repos != [] {
      OperatorsAreForeign(context, repos[1..]);
      assert forall v :: v in repos[1..] ==> v in repos;
    }
  }

  lemma {:induction false} OperatorsOfForeign(context: Context, repos: seq<string>)
    requires forall v :: v in repos ==> !OwnedByRelay(context, v)
    ensures Operators(context, repos) == repos
  {
    if repos != [] {
      assert repos[0] in repos;
      assert forall v :: v in repos[1..] ==> v in repos;
      OperatorsOfForeign(context, repos[1..]);
    }
  }

  lemma {:induction false} RemovedIsExact(context: Context, repos: seq<string>)
    ensures Increasing(RemovedPrevious(context, repos))
    ensures forall path :: path in RemovedPrevious(context, repos)
              <==> exists v :: v in repos && v in context.previous && context.previous[v] == path
  {
    if repos != [] {
      var last := |repos| - 1;
      var front := repos[..last];
      RemovedIsExact(context, front);
      assert repos == front + [repos[last]];
      assert forall v :: v in repos <==> v in front || v == repos[last];
      if repos[last] in context.previous {
        InsertKeepsIncreasing(context.previous[repos[last]], RemovedPrevious(context, front));
      }
    }
  }

  lemma {:induction false} NoRegistrations(context: Context, path: string, repos: seq<string>)
    requires forall v :: v in repos ==> v !in context.previous
    ensures Registrations(context, path, repos) == 0
  {
    if repos != [] {
      assert forall v :: v in repos[1..] ==> v in repos;
      NoRegistrations(context, path, repos[1..]);
    }
  }

  lemma {:induction false} NothingRemoved(context: Context, repos: seq<string>)
    requires forall v :: v in repos ==> v !in context.previous
    ensures RemovedPrevious(context, repos) == []
  {
    if repos != [] {
      var last := |repos| - 1;
      assert repos[last] in repos;
      assert forall v :: v in repos[..last] ==> v in repos;
      NothingRemoved(context, repos[..last]);
    }
  }

  lemma NothingAmbiguous(context: Context, repos: seq<string>)
    requires forall v :: v in repos ==> v !in context.previous
    ensures !PreviousAmbiguous(context, repos)
  {
    forall path
      ensures Registrations(context, path, repos) == 0
    {
      NoRegistrations(context, path, repos);
    }
  }

  /* ---------- the rewritten list ---------- */

  lemma {:induction false} UpdatedParts(context: Context, repos: seq<string>) returns (front: seq<string>, back: seq<string>)
    ensures front + back == Operators(context, repos)
    ensures context.builtin.None? ==> back == [] && Updated(context, repos) == [context.managed] + front
    ensures context.builtin.Some? ==>
              |front| == SlotPosition(context, repos)
              && Updated(context, repos) == [context.managed] + front + [context.builtin.value] + back
  {
    var operators := Operators(context, repos);
    if context.builtin.None? {
      front, back := operators, [];
    } else {
      OperatorsOfPrefix(context, repos);
      var at := SlotPosition(context, repos);
      front, back := operators[..at], operators[at..];
    }
  }

  /** The rewritten list, cut at its four parts. */
  lemma UpdatedCut(context: Context, repos: seq<string>)
    returns (head: seq<string>, front: seq<string>, slot: seq<string>, back: seq<string>)
    ensures Updated(context, repos) == head + front + slot + back
    ensures head == [context.managed]
    ensures slot == if context.builtin.None? then [] else [context.builtin.value]
    ensures front + back == Operators(context, repos)
    ensures context.builtin.Some? ==> |front| == SlotPosition(context, repos)
    ensures forall v :: v in front || v in back ==> v in repos && !OwnedByRelay(context, v)
  {
    front, back := UpdatedParts(context, repos);
    head := [context.managed];
    slot := if context.builtin.None? then [] else [context.builtin.value];
    OperatorsAreForeign(context, repos);
    var operators := Operators(context, repos);
    assert forall v :: v in front ==> v in operators;
    assert forall v :: v in back ==> v in operators;
  }

  lemma FourMatches(aliases: set<string>, a: seq<string>, b: seq<string>, c: seq<string>, d: seq<string>)
    ensures Matches(aliases, a + b + c + d)
            == Matches(aliases, a) + Matches(aliases, b) + Matches(aliases, c) + Matches(aliases, d)
  {
    MatchesOfAppend(aliases, a + b + c, d);
    MatchesOfAppend(aliases, a + b, c);
    MatchesOfAppend(aliases, a, b);
  }

  lemma FourOperators(context: Context, a: seq<string>, b: seq<string>, c: seq<string>, d: seq<string>)
    ensures Operators(context, a + b + c + d)
            == Operators(context, a) + Operators(context, b) + Operators(context, c) + Operators(context, d)
  {
    OperatorsOfAppend(context, a + b + c, d);
    OperatorsOfAppend(context, a + b, c);
    OperatorsOfAppend(context, a, b);
  }

  ghost predicate IsCut(context: Context, head: seq<string>, front: seq<string>, slot: seq<string>, back: seq<string>) {
    && head == [context.managed]
    && slot == (if context.builtin.None? then [] else [context.builtin.value])
    && forall v :: v in front || v in back ==> !OwnedByRelay(context, v)
  }

  lemma CutIsSettled(context: Context, head: seq<string>, front: seq<string>, slot: seq<string>, back: seq<string>)
    requires WellFormed(context) && IsCut(context, head, front, slot, back)
    ensures var updated := head + front + slot + back;
            && Settled(context, updated)
            && |Matches(context.builtinAliases, updated)| <= 1
            && forall v :: v in updated ==> v !in context.previous
  {
    var updated := head + front + slot + back;
    CutMatches(context, head, front, slot, back);
    forall v | v in updated
      ensures v !in context.previous
    {
      assert v in head || v in front || v in slot || v in back;
    }
    NothingRemoved(context, updated);
  }

  lemma CutMatches(context: Context, head: seq<string>, front: seq<string>, slot: seq<string>, back: seq<string>)
    requires WellFormed(context) && IsCut(context, head, front, slot, back)
    ensures Matches(context.managedAliases, head + front + slot + back) == head
    ensures Matches(context.builtinAliases, head + front + slot + back) == slot
  {
    ForeignMatches(context, front);
    ForeignMatches(context, back);
    OneMatch(context, context.managed);
    if context.builtin.Some? {
      OneMatch(context, context.builtin.value);
    }
    FourMatches(context.managedAliases, head, front, slot, back);
    FourMatches(context.builtinAliases, head, front, slot, back);
  }

  lemma OneMatch(context: Context, repo: string)
    ensures Matches(context.managedAliases, [repo]) == if repo in context.managedAliases then [repo] else []
    ensures Matches(context.builtinAliases, [repo]) == if repo in context.builtinAliases then [repo] else []
  {
    assert [repo][1..] == [];
  }

  lemma CutKeepsOperators(context: Context, head: seq<string>, front: seq<string>, slot: seq<string>, back: seq<string>)
    requires WellFormed(context) && IsCut(context, head, front, slot, back)
    ensures Operators(context, head + front + slot + back) == front + back
    ensures Operators(context, head + front) == front
  {
    NoOperator(context, context.managed);
    if context.builtin.Some? {
      NoOperator(context, context.builtin.value);
    }
    OperatorsOfForeign(context, front);
    OperatorsOfForeign(context, back);
    JoinedOperators(context, head, front, slot, back);
  }

  lemma JoinedOperators(context: Context, head: seq<string>, front: seq<string>, slot: seq<string>, back: seq<string>)
    requires Operators(context, head) == [] && Operators(context, slot) == []
    requires Operators(context, front) == front && Operators(context, back) == back
    ensures Operators(context, head + front + slot + back) == front + back
    ensures Operators(context, head + front) == front
  {
    FourOperators(context, head, front, slot, back);
    OperatorsOfAppend(context, head, front);
    AppendedToNothing(front, back);
  }

  lemma AppendedToNothing(front: seq<string>, back: seq<string>)
    ensures [] + front + [] + back == front + back && [] + front == front
  {
  }

  lemma NoOperator(context: Context, repo: string)
    requires OwnedByRelay(context, repo)
    ensures Operators(context, [repo]) == []
  {
    assert [repo][1..] == [];
  }

  lemma UpdatedIsSettled(context: Context, repos: seq<string>)
    requires WellFormed(context)
    ensures Settled(context, Updated(context, repos))
    ensures |Matches(context.builtinAliases, Updated(context, repos))| <= 1
    ensures forall v :: v in Updated(context, repos) ==> v !in context.previous
    ensures "" !in repos ==> "" !in Updated(context, repos)
  {
    var head, front, slot, back := UpdatedCut(context, repos);
    CutIsSettled(context, head, front, slot, back);
  }

  /** When the transformation rewrites: the managed repository comes first, the builtin slot
      is registered exactly once, no proven previous path remains, and the operator's entries
      keep their order and multiplicity. */
  lemma UpdatedIsExact(context: Context, repos: seq<string>)
    requires WellFormed(context)
    ensures Updated(context, repos)[0] == context.managed
    ensures Matches(context.managedAliases, Updated(context, repos)) == [context.managed]
    ensures context.builtin.Some? ==>
              Matches(context.builtinAliases, Updated(context, repos)) == [context.builtin.value]
    ensures forall v :: v in Updated(context, repos) ==> v !in context.previous
    ensures Operators(context, Updated(context, repos)) == Operators(context, repos)
  {
    UpdatedIsSettled(context, repos);
    var head, front, slot, back := UpdatedCut(context, repos);
    CutKeepsOperators(context, head, front, slot, back);
  }

  lemma {:induction false} ForeignMatches(context: Context, repos: seq<string>)
    requires forall v :: v in repos ==> !OwnedByRelay(context, v)
    ensures Matches(context.managedAliases, repos) == []
    ensures Matches(context.builtinAliases, repos) == []
  {
    if repos != [] {
      assert repos[0] in repos;
      assert forall v :: v in repos[1..] ==> v in repos;
      ForeignMatches(context, repos[1..]);
    }
  }

  /** The builtin slot stands after exactly as many operator entries as its anchor did, or
      after all of them when there was no anchor. */
  lemma SlotKeepsItsPlace(context: Context, repos: seq<string>, at: nat)
    requires WellFormed(context) && context.builtin.Some?
    requires at < |Updated(context, repos)| && Updated(context, repos)[at] == context.builtin.value
    ensures var anchor := Anchor(context, repos);
            (anchor.Some? ==> anchor.value <= |repos|)
            && |Operators(context, Updated(context, repos)[..at])|
               == |Operators(context, if anchor.Some? then repos[..anchor.value] else repos)|
  {
    FirstInIsFirst(context.builtinAliases, repos);
    FirstInIsFirst(context.previousBuiltin, repos);
    var head, front, slot, back := UpdatedCut(context, repos);
    SlotIsWhereItIs(context, head, front, back, at);
    assert Updated(context, repos)[..at] == head + front;
    CutKeepsOperators(context, head, front, slot, back);
  }

  lemma SlotIsWhereItIs(context: Context, head: seq<string>, front: seq<string>, back: seq<string>, at: nat)
    requires WellFormed(context) && context.builtin.Some? && head == [context.managed]
    requires forall v :: v in front || v in back ==> !OwnedByRelay(context, v)
    requires var updated := head + front + [context.builtin.value] + back;
             at < |updated| && updated[at] == context.builtin.value
    ensures at == 1 + |front|
  {
    var updated := head + front + [context.builtin.value] + back;
    forall k | 0 <= k < |updated| && k != 1 + |front|
      ensures updated[k] != context.builtin.value
    {
      if 0 < k < 1 + |front| {
        assert updated[k] == front[k - 1] && front[k - 1] in front;
      } else if k > 1 + |front| {
        assert updated[k] == back[k - 2 - |front|] && back[k - 2 - |front|] in back;
      }
    }
  }

  /* ---------- the fixpoint law ---------- */

  /** f(f(x)) = f(x), defined whenever f(x) is, and the second application reports nothing. */
  lemma ConvergeIsFixpoint(context: Context, payload: Payload)
    requires WellFormed(context) && Converge(context, payload).Some?
    ensures var once := Converge(context, payload).value.payload;
            Converge(context, once) == Some(Converged(once, [], []))
  {
    var repos := payload.document.repos.items;
    if !Settled(context, repos) {
      UpdatedIsSettled(context, repos);
      NothingAmbiguous(context, Updated(context, repos));
    }
  }

  /** A change is always reported: bytes that change carry at least one addition or removal. */
  lemma ChangeIsReported(context: Context, payload: Payload)
    requires WellFormed(context) && Converge(context, payload).Some?
    ensures var once := Converge(context, payload).value;
            once.payload != payload ==> once.added != [] || once.removed != []
  {
    var repos := payload.document.repos.items;
    if Matches(context.managedAliases, repos) != [context.managed] && repos != [] && repos[0] == context.managed {
      assert Matches(context.managedAliases, repos) == [context.managed] + Matches(context.managedAliases, repos[1..]);
      assert |Matches(context.managedAliases, repos[1..])| == 0;
    }
  }

  /* ---------- the transformation, spelled out over the entries ---------- */

  /** What counts as the operator's: entry by entry, whatever is in none of the three families. */
  lemma OperatorsByEntry(context: Context, repos: seq<string>, k: nat)
    requires k < |repos|
    ensures Operators(context, repos[..0]) == []
    ensures Operators(context, repos[..k + 1]) ==
              Operators(context, repos[..k])
              + if repos[k] in context.managedAliases || repos[k] in context.builtinAliases || repos[k] in context.previous
                then [] else [repos[k]]
  {
    assert repos[..k + 1] == repos[..k] + [repos[k]];
    OperatorsOfAppend(context, repos[..k], [repos[k]]);
    assert [repos[k]][1..] == [];
  }

  /** Where the slot goes, by index: after the operators before the first builtin alias; else
      before the first alias of a previous builtin; else after all of them. */
  lemma SlotIsPlacedByEntry(context: Context, repos: seq<string>, at: nat, k: nat)
    requires WellFormed(context) && context.builtin.Some?
    requires at < |Updated(context, repos)| && Updated(context, repos)[at] == context.builtin.value
    requires k <= |repos|
    requires || (k < |repos| && repos[k] in context.builtinAliases
                 && forall i :: 0 <= i < k ==> repos[i] !in context.builtinAliases)
             || (k < |repos| && repos[k] in context.previousBuiltin
                 && (forall i :: 0 <= i < |repos| ==> repos[i] !in context.builtinAliases)
                 && forall i :: 0 <= i < k ==> repos[i] !in context.previousBuiltin)
             || (k == |repos|
                 && forall i :: 0 <= i < |repos| ==>
                      repos[i] !in context.builtinAliases && repos[i] !in context.previousBuiltin)
    ensures |Operators(context, Updated(context, repos)[..at])| == |Operators(context, repos[..k])|
  {
    FirstInIsFirst(context.builtinAliases, repos);
    FirstInIsFirst(context.previousBuiltin, repos);
    SlotKeepsItsPlace(context, repos, at);
    assert k == |repos| ==> repos[..k] == repos;
  }

  lemma {:induction false} MatchesIff(aliases: set<string>, repos: seq<string>)
    ensures |Matches(aliases, repos)| == 0 <==> forall i :: 0 <= i < |repos| ==> repos[i] !in aliases
    ensures |Matches(aliases, repos)| <= 1 <==>
              forall i, j :: 0 <= i < j < |repos| ==> !(repos[i] in aliases && repos[j] in aliases)
    ensures forall v :: v in Matches(aliases, repos) <==> v in repos && v in aliases
  {
    if repos != [] {
      MatchesIff(aliases, repos[1..]);
      var rest := repos[1..];
      assert forall i :: 0 <= i < |rest| ==> rest[i] == repos[i + 1];
      assert forall i :: 0 < i < |repos| ==> repos[i] == rest[i - 1];
    }
  }

  lemma {:induction false} RegistrationsIff(context: Context, path: string, repos: seq<string>)
    ensures Registrations(context, path, repos) == 0 <==>
              forall i :: 0 <= i < |repos| ==> !(repos[i] in context.previous && context.previous[repos[i]] == path)
    ensures Registrations(context, path, repos) <= 1 <==>
              forall i, j :: 0 <= i < j < |repos| ==>
                !(&& repos[i] in context.previous && context.previous[repos[i]] == path
                  && repos[j] in context.previous && context.previous[repos[j]] == path)
  {
    if repos != [] {
      RegistrationsIff(context, path, repos[1..]);
      var rest := repos[1..];
      assert forall i :: 0 <= i < |rest| ==> rest[i] == repos[i + 1];
      assert forall i :: 0 < i < |repos| ==> repos[i] == rest[i - 1];
    }
  }

  lemma AmbiguousIff(context: Context, repos: seq<string>)
    ensures PreviousAmbiguous(context, repos) <==>
              exists i, j :: 0 <= i < j < |repos| && repos[i] in context.previous && repos[j] in context.previous
                             && context.previous[repos[i]] == context.previous[repos[j]]
  {
    forall path
      ensures Registrations(context, path, repos) <= 1 <==>
                forall i, j :: 0 <= i < j < |repos| ==>
                  !(&& repos[i] in context.previous && context.previous[repos[i]] == path
                    && repos[j] in context.previous && context.previous[repos[j]] == path)
    {
      RegistrationsIff(context, path, repos);
    }
    if i, j :| 0 <= i < j < |repos| && repos[i] in context.previous && repos[j] in context.previous
               && context.previous[repos[i]] == context.previous[repos[j]] {
      assert Registrations(context, context.previous[repos[i]], repos) > 1;
    }
  }

  /** The files the transformation is defined on: a list of non-empty strings in which no two
      entries name the same relay-owned path. */
  lemma ConvergesIff(context: Context, payload: Payload)
    ensures Converge(context, payload).Some? <==>
              && payload.Yaml? && payload.document.repos.Strings?
              && var repos := payload.document.repos.items;
                 && (forall i :: 0 <= i < |repos| ==> |repos[i]| > 0)
                 && forall i, j :: 0 <= i < j < |repos| ==>
                      && !(repos[i] in context.managedAliases && repos[j] in context.managedAliases)
                      && !(repos[i] in context.builtinAliases && repos[j] in context.builtinAliases)
                      && !(&& repos[i] in context.previous && repos[j] in context.previous
                           && context.previous[repos[i]] == context.previous[repos[j]])
  {
    if payload.Yaml? && payload.document.repos.Strings? {
      var repos := payload.document.repos.items;
      MatchesIff(context.managedAliases, repos);
      MatchesIff(context.builtinAliases, repos);
      AmbiguousIff(context, repos);
    }
  }

  /** A file that lists every relay-owned path by its exact text and no previous one is returned
      as it is, with nothing reported. Any other is rewritten with only its list changed, and what
      is reported as added is what did not stand there: the managed
      path by its exact text (or, where there is a slot, not first), and the slot by its own. */
  lemma ConvergeIsSpelledOut(context: Context, payload: Payload)
    requires WellFormed(context) && Converge(context, payload).Some?
    ensures var repos, result := payload.document.repos.items, Converge(context, payload).value;
            if && context.managed in repos
               && (context.builtin.Some? ==> context.builtin.value in repos)
               && (forall i :: 0 <= i < |repos| ==> repos[i] !in context.previous)
            then result == Converged(payload, [], [])
            else
              && result.payload == Yaml(Document(Strings(Updated(context, repos)), payload.document.others), Canonical)
              && result.removed == RemovedPrevious(context, repos)
              && result.added ==
                   (if (if context.builtin.None? then context.managed !in repos
                        else |repos| == 0 || repos[0] != context.managed)
                    then [context.managed] else [])
                   + (if context.builtin.Some? && context.builtin.value !in repos then [context.builtin.value] else [])
  {
    var repos := payload.document.repos.items;
    ExactMatch(context.managedAliases, repos, context.managed);
    if context.builtin.Some? {
      ExactMatch(context.builtinAliases, repos, context.builtin.value);
    }
    NothingRemovedIff(context, repos);
  }

  lemma NothingRemovedIff(context: Context, repos: seq<string>)
    ensures RemovedPrevious(context, repos) == [] <==> forall i :: 0 <= i < |repos| ==> repos[i] !in context.previous
  {
    RemovedIsExact(context, repos);
    if i :| 0 <= i < |repos| && repos[i] in context.previous {
      assert context.previous[repos[i]] in RemovedPrevious(context, repos);
    } else {
      NothingRemoved(context, repos);
    }
  }

  /** With at most one alias registered, it is the exact one if and only if that text is listed. */
  lemma ExactMatch(aliases: set<string>, repos: seq<string>, exact: string)
    requires exact in aliases && |Matches(aliases, repos)| <= 1
    ensures Matches(aliases, repos) == [exact] <==> exact in repos
  {
    MatchesIff(aliases, repos);
    if exact in repos {
      assert exact in Matches(aliases, repos);
    }
    if Matches(aliases, repos) == [exact] {
      assert exact in Matches(aliases, repos);
    }
  }

  /* ---------- the program ---------- */

  lemma MatchesStep(aliases: set<string>, repos: seq<string>, i: nat)
    requires i < |repos|
    ensures Matches(aliases, repos[..i + 1])
            == Matches(aliases, repos[..i]) + (if repos[i] in aliases then [repos[i]] else [])
  {
    assert repos[..i + 1] == repos[..i] + [repos[i]];
    MatchesOfAppend(aliases, repos[..i], [repos[i]]);
  }

  method CollectMatches(aliases: set<string>, repos: seq<string>) returns (matches: seq<string>)
    ensures matches == Matches(aliases, repos)
  {
    matches := [];
    for i := 0 to |repos|
      invariant matches == Matches(aliases, repos[..i])
    {
      MatchesStep(aliases, repos, i);
      if repos[i] in aliases {
        matches := matches + [repos[i]];
      }
    }
    assert repos[..|repos|] == repos;
  }

  /** Group the registered previous paths by canonical path. */
  method CollectPrevious(context: Context, repos: seq<string>) returns (ambiguous: bool, removed: seq<string>)
    ensures ambiguous == PreviousAmbiguous(context, repos)
    ensures removed == RemovedPrevious(context, repos)
  {
    var counts: map<string, nat> := map[];
    ambiguous, removed := false, [];
    for i := 0 to |repos|
      invariant removed == RemovedPrevious(context, repos[..i])
      invariant forall path :: Registrations(context, path, repos[..i]) == if path in counts then counts[path] else 0
      invariant counts.Keys <= context.previous.Values
      invariant ambiguous <==> exists path :: path in context.previous.Values && Registrations(context, path, repos[..i]) > 1
    {
      var repo := repos[i];
      assert repos[..i + 1][..i] == repos[..i];
      forall path
        ensures Registrations(context, path, repos[..i + 1])
                == Registrations(context, path, repos[..i])
                   + if repo in context.previous && context.previous[repo] == path then 1 else 0
      {
        assert repos[..i + 1] == repos[..i] + [repo];
        RegistrationsOfAppend(context, path, repos[..i], [repo]);
        assert [repo][1..] == [];
      }
      if repo in context.previous {
        var path := context.previous[repo];
        assert Registrations(context, path, repos[..i]) == if path in counts then counts[path] else 0;
        counts := counts[path := 1 + if path in counts then counts[path] else 0];
        removed := Insert(path, removed);
        if counts[path] > 1 {
          ambiguous := true;
          assert Registrations(context, path, repos[..i + 1]) > 1;
        }
      }
    }
    assert repos[..|repos|] == repos;
  }

  /** Separate the operator entries and note how many precede the anchor. */
  method PlaceSlot(context: Context, repos: seq<string>, anchor: Option<nat>)
    returns (operators: seq<string>, position: nat)
    requires anchor.Some? ==> anchor.value < |repos|
    ensures operators == Operators(context, repos)
    ensures position == |Operators(context, if anchor.Some? then repos[..anchor.value] else repos)|
  {
    operators := [];
    var found: Option<nat> := None;
    for i := 0 to |repos|
      invariant operators == Operators(context, repos[..i])
      invariant found == if anchor.Some? && anchor.value < i
                         then Some(|Operators(context, repos[..anchor.value])|) else None
    {
      if anchor == Some(i) {
        found := Some(|operators|);
      }
      assert repos[..i + 1] == repos[..i] + [repos[i]];
      OperatorsOfAppend(context, repos[..i], [repos[i]]);
      if !OwnedByRelay(context, repos[i]) {
        operators := operators + [repos[i]];
      }
    }
    assert repos[..|repos|] == repos;
    position := if found.Some? then found.value else |operators|;
  }

  /** Build the list with the managed repository first and the builtin slot in its place. */
  method RewriteWithSlot(context: Context, repos: seq<string>, builtinMatches: seq<string>)
    returns (updated: seq<string>, added: seq<string>)
    requires context.builtin.Some? && builtinMatches == Matches(context.builtinAliases, repos)
    ensures updated == Updated(context, repos)
    ensures added == Added(context, repos)
  {
    var builtin := context.builtin.value;
    FirstInIsFirst(context.builtinAliases, repos);
    FirstInIsFirst(context.previousBuiltin, repos);
    var anchor := if builtinMatches != [] then FirstIn(context.builtinAliases, repos)
                  else FirstIn(context.previousBuiltin, repos);
    var operators, position := PlaceSlot(context, repos, anchor);
    OperatorsOfPrefix(context, repos);
    updated := [context.managed] + operators[..position] + [builtin] + operators[position..];
    added := [];
    if repos == [] || repos[0] != context.managed {
      added := added + [context.managed];
    }
    if builtinMatches != [builtin] {
      added := added + [builtin];
    }
  }

  /** Return the exact converged bytes and the mutation evidence. */
  method ManagedRepositoryPayload(context: Context, raw: Payload) returns (result: Option<Converged>)
    requires WellFormed(context)
    ensures result == Converge(context, raw)
  {
    var document := Parse(raw);
    if document.None? || document.value.repos.NotStrings? || "" in document.value.repos.items {
      return None;
    }
    var repos := document.value.repos.items;
    var managedMatches := CollectMatches(context.managedAliases, repos);
    var builtinMatches := CollectMatches(context.builtinAliases, repos);
    var ambiguous, removed := CollectPrevious(context, repos);
    if |managedMatches| > 1 || |builtinMatches| > 1 || ambiguous {
      return None;
    }
    var updated, added;
    if context.builtin.None? {
      if managedMatches == [context.managed] && removed == [] {
        return Some(Converged(raw, [], []));
      }
      var operators, _ := PlaceSlot(context, repos, None);
      updated := [context.managed] + operators;
      added := if managedMatches != [context.managed] then [context.managed] else [];
    } else {
      if managedMatches == [context.managed] && builtinMatches == [context.builtin.value] && removed == [] {
        return Some(Converged(raw, [], []));
      }
      updated, added := RewriteWithSlot(context, repos, builtinMatches);
      if repos == updated && removed == [] {
        UpdatedIsSettled(context, repos);
        assert false;
      }
    }
    return Some(Converged(Dump(document.value.(repos := Strings(updated))), added, removed));
  }
}
