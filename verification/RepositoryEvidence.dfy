/**
 Agreement between the record a repository reconciliation returns and the host-side
 receipt validator that later judges it. The validator sees only text, so it re-derives
 the home directory and re-parses every removed path.
 */
module RepositoryEvidence {
  import opened Objects
  import opened Ordering
  import opened Identifiers
  import opened PosixPaths
  import opened Repositories
  import opened RepositoryExchange

  /* ---------- the context of a call ---------- */

  /** `canon` resolves every component but the last, so it is idempotent and keeps the name. A
      path whose parent cannot be resolved is `lost`, and stands for itself. */
  ghost predicate Resolver(canon: string -> string, lost: set<string>) {
    && (forall p :: canon(canon(p)) == canon(p) && FinalName(canon(p)) == FinalName(p))
    && (forall p :: p in lost ==> canon(p) == p)
  }

  predicate Superseded(canon: string -> string, owned: set<string>, previous: seq<string>, alias: string) {
    exists i :: 0 <= i < |previous| && canon(previous[i]) !in owned
                && (alias == previous[i] || alias == canon(previous[i]))
  }

  /** Derive the alias families from the paths of the call; `slot` is the builtin slot of the
      directory that holds `repos.yaml`. `None` is the ConfigurationError. */
  method BuildContext(
    canon: string -> string, lost: set<string>,
    managed: string, builtin: Option<string>, slot: string, previous: seq<string>)
    returns (context: Option<Context>)
    requires Resolver(canon, lost) && FinalName(slot) == "builtin"
    ensures context.Some? <==>
              && FinalName(managed) == "clio_relay" && managed !in lost
              && (builtin.Some? ==> builtin.value == slot && slot !in lost)
    ensures context.Some? ==>
              var c := context.value;
              && (managed != "" && (builtin.Some? ==> builtin.value != "") ==> WellFormed(c))
              && c.managed == managed && c.builtin == builtin
              && c.managedAliases == {managed, canon(managed)}
              && c.builtinAliases == (if builtin.None? then {} else {builtin.value, canon(builtin.value)})
              && (forall k :: k in c.previous
                    <==> Superseded(canon, c.managedAliases + c.builtinAliases, previous, k))
              && (forall k :: k in c.previous ==> c.previous[k] == canon(k))
              && (forall k :: k in c.previousBuiltin <==> k in c.previous && FinalName(k) == "builtin")
  {
    if FinalName(managed) != "clio_relay" || managed in lost {
      return None;
    }
    if builtin.Some? && (slot in lost || builtin.value != slot || canon(builtin.value) != canon(slot)) {
      return None;
    }
    var managedAliases := {managed, canon(managed)};
    var builtinAliases := if builtin.None? then {} else {builtin.value, canon(builtin.value)};
    var owned := managedAliases + builtinAliases;
    var aliases: map<string, string> := map[];
    var builtins: set<string> := {};
    for i := 0 to |previous|
      invariant Families(canon, owned, previous[..i], aliases, builtins)
    {
      var canonical := canon(previous[i]);
      FamiliesStep(canon, lost, owned, previous, i, aliases, builtins);
      if canonical !in owned {
        aliases := aliases[previous[i] := canonical][canonical := canonical];
        if FinalName(canonical) == "builtin" {
          builtins := builtins + {previous[i], canonical};
        }
      }
    }
    assert previous[..|previous|] == previous;
    context := Some(Context(managed, managedAliases, builtin, builtinAliases, aliases, builtins));
  }

  /** The aliases of the superseded paths, and those among them named `builtin`. */
  ghost predicate Families(
    canon: string -> string, owned: set<string>, previous: seq<string>, aliases: map<string, string>, builtins: set<string>)
  {
    && (forall k :: k in aliases <==> Superseded(canon, owned, previous, k))
    && (forall k :: k in aliases ==> aliases[k] == canon(k) && canon(k) !in owned)
    && (forall k :: k in builtins <==> k in aliases && FinalName(k) == "builtin")
  }

  lemma FamiliesStep(
    canon: string -> string, lost: set<string>, owned: set<string>, previous: seq<string>, i: nat,
    aliases: map<string, string>, builtins: set<string>)
    requires Resolver(canon, lost) && i < |previous| && Families(canon, owned, previous[..i], aliases, builtins)
    ensures var path, canonical := previous[i], canon(previous[i]);
            if canonical in owned then Families(canon, owned, previous[..i + 1], aliases, builtins)
            else Families(canon, owned, previous[..i + 1], aliases[path := canonical][canonical := canonical],
                          if FinalName(canonical) == "builtin" then builtins + {path, canonical} else builtins)
  {
    SupersededStep(canon, owned, previous, i);
    var path, canonical := previous[i], canon(previous[i]);
    if canonical !in owned {
      assert canon(canonical) == canonical && FinalName(canonical) == FinalName(path);
      FamiliesGrow(canon, owned, previous[..i], previous[..i + 1], path, aliases, builtins);
    }
  }

  lemma FamiliesGrow(
    canon: string -> string, owned: set<string>, was: seq<string>, now: seq<string>, path: string,
    aliases: map<string, string>, builtins: set<string>)
    requires canon(canon(path)) == canon(path) && FinalName(canon(path)) == FinalName(path)
    requires Families(canon, owned, was, aliases, builtins) && canon(path) !in owned
    requires forall k :: Superseded(canon, owned, now, k) <==>
               Superseded(canon, owned, was, k) || k == path || k == canon(path)
    ensures Families(canon, owned, now, aliases[path := canon(path)][canon(path) := canon(path)],
                     if FinalName(canon(path)) == "builtin" then builtins + {path, canon(path)} else builtins)
  {
    var grown := aliases[path := canon(path)][canon(path) := canon(path)];
    forall k
      ensures k in grown <==> Superseded(canon, owned, now, k)
    {
    }
    forall k | k in grown
      ensures grown[k] == canon(k) && canon(k) !in owned
    {
    }
  }

  lemma SupersededStep(canon: string -> string, owned: set<string>, previous: seq<string>, i: nat)
    requires i < |previous|
    ensures forall k :: Superseded(canon, owned, previous[..i + 1], k) <==>
              || Superseded(canon, owned, previous[..i], k)
              || (canon(previous[i]) !in owned && (k == previous[i] || k == canon(previous[i])))
  {
    forall k
      ensures Superseded(canon, owned, previous[..i + 1], k) <==>
                || Superseded(canon, owned, previous[..i], k)
                || (canon(previous[i]) !in owned && (k == previous[i] || k == canon(previous[i])))
    {
      var now, was := previous[..i + 1], previous[..i];
      assert now[i] == previous[i];
      forall j | 0 <= j < i
        ensures now[j] == was[j]
      {
      }
      if Superseded(canon, owned, now, k) {
        var j :| 0 <= j < |now| && canon(now[j]) !in owned && (k == now[j] || k == canon(now[j]));
        if j < i {
          assert canon(was[j]) !in owned;
        }
      }
      if Superseded(canon, owned, was, k) {
        var j :| 0 <= j < |was| && canon(was[j]) !in owned && (k == was[j] || k == canon(was[j]));
        assert canon(now[j]) !in owned;
      }
    }
  }

  /* ---------- the paths the relay owns ---------- */

  const RELAY_ROOT: Path := [".local", "share", "clio-relay"]
  const MANAGED: Path := RELAY_ROOT + ["clio_relay"]
  const LEGACY: Path := RELAY_ROOT + ["managed-jarvis-repo"]
  const PREVIOUS: Path := [".local", "src", "clio-relay", "jarvis-packages", "clio_relay"]
  const BUILTIN_SLOT: Path := [".ppi-jarvis", "builtin"]

  predicate Digits(text: string) {
    text != "" && forall i :: 0 <= i < |text| ==> '0' <= text[i] <= '9'
  }

  function FirstDot(text: string): (n: nat)
    ensures n <= |text|
    ensures n < |text| ==> text[n] == '.'
  {
    if text == "" || text[0] == '.' then 0 else 1 + FirstDot(text[1..])
  }

  /** `python<major>.<minor>` */
  predicate PythonLibrary(name: string) {
    && |name| > 6 && name[..6] == "python"
    && var version := name[6..];
       var dot := FirstDot(version);
       dot < |version| && Digits(version[..dot]) && Digits(version[dot + 1..])
  }

  predicate RelayVenv(path: Path) {
    || path == ["jarvis-venv"]
    || (|path| == 3 && path[0] == "generations" && IsSha256(path[1]) && path[2] == "jarvis-venv")
  }

  predicate PosixSite(path: Path) {
    && |path| == 3
    && (path[0] == "lib" || path[0] == "lib64")
    && PythonLibrary(path[1])
    && path[2] == "site-packages"
  }

  predicate WindowsSite(path: Path) { path == ["Lib", "site-packages"] }

  function BuiltinIn(home: Path, venv: Path, site: Path): Path {
    home + RELAY_ROOT + venv + site + ["builtin"]
  }

  ghost predicate PosixBuiltin(home: Path, value: string) {
    exists venv, site :: RelayVenv(venv) && PosixSite(site) && value == Text(BuiltinIn(home, venv, site))
  }

  ghost predicate WindowsBuiltin(home: Path, value: string) {
    exists venv, site :: RelayVenv(venv) && WindowsSite(site) && value == Text(BuiltinIn(home, venv, site))
  }

  /* ---------- the validator ---------- */

  predicate OneLine(text: string) { '\0' !in text && '\r' !in text && '\n' !in text }

  function Kept(path: Path): Path {
    if path == [] then []
    else (if path[0] == "" || path[0] == "." then [] else [path[0]]) + Kept(path[1..])
  }

  predicate BuiltinBelow(parts: Path, prefix: Path) {
    && |parts| == |prefix| + 4
    && parts[..|prefix|] == prefix
    && PosixSite(parts[|prefix|..|prefix| + 3])
    && parts[|prefix| + 3] == "builtin"
  }

  /** The validator's recognizer, over the text of a removed path and of the home directory. */
  predicate RelayOwnedBuiltin(value: string, home: string) {
    && OneLine(value)
    && Absolute(value) && Absolute(home)
    && Kept(Split(value)) == Split(value)
    && var root := Kept(Split(home)) + RELAY_ROOT;
       var parts := Split(value);
       OwnedBelow(root, parts)
  }

  predicate OwnedBelow(root: Path, parts: Path) {
    |root| <= |parts| && parts[..|root|] == root && OwnedRelative(parts[|root|..])
  }

  predicate OwnedRelative(relative: Path) {
    || BuiltinBelow(relative, ["jarvis-venv"])
    || (|relative| >= 3 && IsSha256(relative[1])
        && BuiltinBelow(relative, ["generations", relative[1], "jarvis-venv"]))
  }

  predicate RemovalsProven(values: seq<string>, home: string) {
    && Increasing(values)
    && forall i :: 0 <= i < |values| ==>
         values[i] == home + Text(PREVIOUS) || values[i] == home + Text(LEGACY) || RelayOwnedBuiltin(values[i], home)
  }

  predicate AdditionsProven(values: seq<string>, managed: string, builtin: string) {
    && |values| <= 2
    && (forall i, j :: 0 <= i < j < |values| ==> values[i] != values[j])
    && (forall i :: 0 <= i < |values| ==> values[i] == managed || values[i] == builtin)
    && values == (if managed in values then [managed] else []) + (if builtin in values then [builtin] else [])
  }

  /** The repository part of the validator's `repaired` and `reconciled` branches. */
  predicate Validated(managed: string, evidence: Evidence) {
    && Absolute(managed) && OneLine(managed)
    && var suffix := Text(MANAGED);
       && |suffix| <= |managed| && managed[|managed| - |suffix|..] == suffix
       && ValidatedBelow(managed[..|managed| - |suffix|], managed, evidence)
  }

  predicate ValidatedBelow(home: string, managed: string, evidence: Evidence) {
    if !evidence.updated
    then evidence.before == evidence.after && evidence.added == [] && evidence.removed == []
    else
      && evidence.before != evidence.after
      && AdditionsProven(evidence.added, managed, home + Text(BUILTIN_SLOT))
      && RemovalsProven(evidence.removed, home)
      && (evidence.added != [] || evidence.removed != [])
  }

  /* ---------- what the recognizer recognizes ---------- */

  lemma {:induction false} KeptOfNormal(path: Path)
    requires Normal(path)
    ensures Kept(path) == path
  {
    if path != [] {
      KeptOfNormal(path[1..]);
    }
  }

  lemma VersionIsComponent(name: string)
    requires PythonLibrary(name)
    ensures Component(name) && OneLine(name)
  {
    var version := name[6..];
    var dot := FirstDot(version);
    forall i | 0 <= i < |name|
      ensures name[i] !in {'/', '\0', '\r', '\n'}
    {
      if i < 6 {
        assert name[i] == "python"[i];
      } else if i - 6 < dot {
        assert name[i] == version[..dot][i - 6];
      } else if i - 6 > dot {
        assert name[i] == version[dot + 1..][i - 7 - dot];
      }
    }
  }

  lemma BuiltinIsNormal(home: Path, venv: Path, site: Path)
    requires Normal(home) && RelayVenv(venv) && (PosixSite(site) || WindowsSite(site))
    ensures Normal(BuiltinIn(home, venv, site))
  {
    assert Normal(RELAY_ROOT);
    assert Normal(venv);
    if PosixSite(site) {
      VersionIsComponent(site[1]);
    }
    assert Normal(site);
  }

  /** On a normal home, the validator's recognizer accepts exactly the one-line POSIX builtin
      paths of relay-owned environments, and nothing at all when home is the root. */
  lemma {:induction false} RecognizerIsExact(home: Path, value: string)
    requires Normal(home)
    ensures RelayOwnedBuiltin(value, Text(home)) <==> OneLine(value) && home != [] && PosixBuiltin(home, value)
  {
    TextIsAbsolute(home);
    if home != [] {
      SplitAfterText(home);
      KeptOfNormal(home);
      if OneLine(value) && PosixBuiltin(home, value) {
        PosixIsRecognized(home, value);
      }
      if RelayOwnedBuiltin(value, Text(home)) {
        RecognizedIsPosix(home, value);
      }
    }
  }

  lemma {:induction false} PosixIsRecognized(home: Path, value: string)
    requires Normal(home) && home != [] && Absolute(Text(home)) && Kept(Split(Text(home))) == home
    requires OneLine(value) && PosixBuiltin(home, value)
    ensures RelayOwnedBuiltin(value, Text(home))
  {
    var venv, site :| RelayVenv(venv) && PosixSite(site) && value == Text(BuiltinIn(home, venv, site));
    var parts := BuiltinIn(home, venv, site);
    BuiltinIsNormal(home, venv, site);
    SplitAfterText(parts);
    KeptOfNormal(parts);
    TextIsAbsolute(parts);
    BelowIsRecognized(home + RELAY_ROOT, venv, site);
  }

  lemma BelowIsRecognized(root: Path, venv: Path, site: Path)
    requires RelayVenv(venv) && PosixSite(site)
    ensures OwnedBelow(root, root + venv + site + ["builtin"])
  {
    var parts := root + venv + site + ["builtin"];
    assert parts[..|root|] == root;
    assert parts[|root|..] == venv + site + ["builtin"];
    VenvIsRecognized(venv, site);
  }

  lemma VenvIsRecognized(venv: Path, site: Path)
    requires RelayVenv(venv) && PosixSite(site)
    ensures OwnedRelative(venv + site + ["builtin"])
  {
    var relative := venv + site + ["builtin"];
    assert relative[..|venv|] == venv;
    assert relative[|venv|..|venv| + 3] == site;
    if |venv| == 3 {
      assert venv == ["generations", relative[1], "jarvis-venv"];
    }
  }

  lemma RecognizedIsVenv(relative: Path) returns (venv: Path, site: Path)
    requires OwnedRelative(relative)
    ensures RelayVenv(venv) && PosixSite(site) && relative == venv + site + ["builtin"]
  {
    if BuiltinBelow(relative, ["jarvis-venv"]) {
      venv := ["jarvis-venv"];
    } else {
      venv := ["generations", relative[1], "jarvis-venv"];
    }
    site := relative[|venv|..|venv| + 3];
    assert relative == venv + site + ["builtin"];
  }

  lemma {:induction false} RecognizedIsPosix(home: Path, value: string)
    requires Normal(home) && Absolute(Text(home)) && Kept(Split(Text(home))) == home
    requires RelayOwnedBuiltin(value, Text(home))
    ensures PosixBuiltin(home, value)
  {
    var parts := Split(value);
    TextAfterSplit(value);
    assert OwnedBelow(Kept(Split(Text(home))) + RELAY_ROOT, parts);
    var venv, site := RecognizedIsBelow(home + RELAY_ROOT, parts);
    assert parts == BuiltinIn(home, venv, site);
  }

  lemma RecognizedIsBelow(root: Path, parts: Path) returns (venv: Path, site: Path)
    requires OwnedBelow(root, parts)
    ensures RelayVenv(venv) && PosixSite(site) && parts == root + venv + site + ["builtin"]
  {
    venv, site := RecognizedIsVenv(parts[|root|..]);
    assert parts == root + parts[|root|..];
  }

  /** The Windows shape is never the POSIX shape: the component counts differ. */
  lemma {:induction false} WindowsIsNotPosix(home: Path, value: string)
    requires Normal(home) && WindowsBuiltin(home, value)
    ensures !PosixBuiltin(home, value)
  {
    var venv, site :| RelayVenv(venv) && WindowsSite(site) && value == Text(BuiltinIn(home, venv, site));
    BuiltinIsNormal(home, venv, site);
    SplitAfterText(BuiltinIn(home, venv, site));
    forall venv', site' | RelayVenv(venv') && PosixSite(site')
      ensures value != Text(BuiltinIn(home, venv', site'))
    {
      BuiltinIsNormal(home, venv', site');
      SplitAfterText(BuiltinIn(home, venv', site'));
      assert |BuiltinIn(home, venv, site)| != |BuiltinIn(home, venv', site')|;
    }
  }

  /** A builtin the reconciler proves and removes, and the validator then refuses. */
  lemma WindowsLayoutIsRefused()
    ensures var home := ["home", "relay"];
            var value := Text(BuiltinIn(home, ["jarvis-venv"], ["Lib", "site-packages"]));
            WindowsBuiltin(home, value) && !RelayOwnedBuiltin(value, Text(home))
  {
    var home := ["home", "relay"];
    var value := Text(BuiltinIn(home, ["jarvis-venv"], ["Lib", "site-packages"]));
    RecognizerIsExact(home, value);
    WindowsIsNotPosix(home, value);
  }

  /* ---------- agreement ---------- */

  /** A context over a home directory, as it is written down; its previous registrations may
      resolve anywhere. */
  ghost predicate OverHome(context: Context, home: Path) {
    && Normal(home)
    && WellFormed(context)
    && context.managed == Text(home + MANAGED)
    && context.builtin == Some(Text(home + BUILTIN_SLOT))
  }

  /** The previous registrations of a home that is its own canonical form. */
  ghost predicate Removable(home: Path, path: string) {
    || path == Text(home + PREVIOUS)
    || path == Text(home + LEGACY)
    || PosixBuiltin(home, path)
    || WindowsBuiltin(home, path)
  }

  lemma NameOf(home: Path, path: Path)
    requires Normal(path) && path != []
    ensures FinalName(Text(home + path)) == path[|path| - 1]
    ensures Text(home + path) != ""
  {
    var last := |path| - 1;
    var front := home + path[..last];
    assert front + [path[last]] == home + path;
    TextOfAppend(front, [path[last]]);
    assert Text([path[last]]) == "/" + path[last];
    assert Text(front) + "/" + path[last] == Text(home + path);
    FinalNameOf(Text(front), path[last]);
  }

  lemma NamesBelow(home: Path)
    ensures FinalName(Text(home + MANAGED)) == "clio_relay" && Text(home + MANAGED) != ""
    ensures FinalName(Text(home + BUILTIN_SLOT)) == "builtin" && Text(home + BUILTIN_SLOT) != ""
  {
    NameOf(home, MANAGED);
    NameOf(home, BUILTIN_SLOT);
  }

  /** The context of an activation, whatever its previous registrations resolve to. */
  method StagedContext(
    canon: string -> string, lost: set<string>, home: Path, managed: string, slot: string, previous: seq<string>)
    returns (context: Option<Context>)
    requires Resolver(canon, lost) && Normal(home)
    requires managed == Text(home + MANAGED) && slot == Text(home + BUILTIN_SLOT)
    ensures context.Some? <==> managed !in lost && slot !in lost
    ensures context.Some? ==> OverHome(context.value, home)
    ensures context.Some? ==> forall k :: k in context.value.previous ==> context.value.previous[k] == canon(k)
  {
    NamesBelow(home);
    context := BuildContext(canon, lost, managed, Some(slot), slot, previous);
  }

  /** What the validator can recognize among the registrations a call removes. */
  ghost predicate Recognizable(home: Path, path: string) {
    || path == Text(home + PREVIOUS)
    || path == Text(home + LEGACY)
    || (home != [] && OneLine(path) && PosixBuiltin(home, path))
  }

  lemma {:induction false} OneLineParts(a: string, b: string)
    ensures OneLine(a + b) <==> OneLine(a) && OneLine(b)
  {
    var s := a + b;
    assert forall c :: c in s <==> c in a || c in b;
  }

  lemma ManagedHasHome(home: Path)
    ensures var managed, suffix := Text(home + MANAGED), Text(MANAGED);
            && Absolute(managed) && |suffix| <= |managed|
            && managed[|managed| - |suffix|..] == suffix
            && managed[..|managed| - |suffix|] == Text(home)
            && (OneLine(managed) <==> OneLine(Text(home)))
  {
    TextOfAppend(home, MANAGED);
    TextIsAbsolute(home + MANAGED);
    OneLineParts(Text(home), Text(MANAGED));
    TextOfOneLines(MANAGED);
  }

  lemma {:induction false} TextOfOneLines(path: Path)
    requires OneLines(path)
    ensures OneLine(Text(path))
  {
    if path != [] {
      TextOfOneLines(path[1..]);
      OneLineParts("/", path[0]);
      OneLineParts("/" + path[0], Text(path[1..]));
    }
  }

  /** The additions of any change are those the validator allows, in its order. */
  lemma AdditionsAreProven(context: Context, repos: seq<string>)
    requires WellFormed(context) && context.builtin.Some?
    ensures AdditionsProven(Added(context, repos), context.managed, context.builtin.value)
  {
  }

  predicate Proven(home: Path, path: string) {
    path == Text(home) + Text(PREVIOUS) || path == Text(home) + Text(LEGACY) || RelayOwnedBuiltin(path, Text(home))
  }

  lemma RemovalIsProven(home: Path, path: string)
    requires Normal(home)
    ensures Proven(home, path) <==> Recognizable(home, path)
  {
    TextOfAppend(home, PREVIOUS);
    TextOfAppend(home, LEGACY);
    RecognizerIsExact(home, path);
  }

  /** Below a one-line home that is its own canonical form, the validator misses exactly the
      Windows layout, and every builtin when home is the root directory. */
  lemma RecognizableAtHomeIff(home: Path, path: string)
    requires Normal(home) && OneLine(Text(home)) && Removable(home, path)
    ensures Recognizable(home, path) <==>
              || path == Text(home + PREVIOUS) || path == Text(home + LEGACY)
              || (home != [] && !WindowsBuiltin(home, path))
  {
    RemovedIsOneLine(home, path);
    if WindowsBuiltin(home, path) {
      WindowsIsNotPosix(home, path);
    }
  }

  /** A home reached through a symbolic link: the record names the registrations by their
      canonical paths, below the real home, and the validator recognizes none of them. */
  lemma {:induction false} AliasedHomeIsNeverRecognized(home: Path, actual: Path, path: string)
    requires Normal(home) && Normal(actual) && home != actual && Removable(actual, path)
    ensures !Recognizable(home, path)
  {
    var parts := RemovableParts(actual, path);
    forall other: Path | Normal(other) && path == Text(other)
      ensures other == parts
    {
      SplitAfterText(other);
      SplitAfterText(parts);
    }
    HistoricalIsNormal(home);
    if path == Text(home + PREVIOUS) {
      LastsAgree(home, actual, parts, PREVIOUS);
    }
    if path == Text(home + LEGACY) {
      LastsAgree(home, actual, parts, LEGACY);
    }
    forall venv, site | RelayVenv(venv) && PosixSite(site)
      ensures path != Text(BuiltinIn(home, venv, site))
    {
      BuiltinIsNormal(home, venv, site);
      if path == Text(BuiltinIn(home, venv, site)) {
        PosixIsElsewhere(home, actual, parts, venv, site);
      }
    }
  }

  lemma PosixIsElsewhere(home: Path, actual: Path, parts: Path, venv: Path, site: Path)
    requires RemovableAs(actual, parts) && RelayVenv(venv) && PosixSite(site) && parts == BuiltinIn(home, venv, site)
    ensures home == actual
  {
    assert parts[|parts| - 1] == "builtin";
    if venv', site' :| RelayVenv(venv') && (PosixSite(site') || WindowsSite(site')) && parts == BuiltinIn(actual, venv', site') {
      BuiltinsAgree(home, actual, venv, site, venv', site');
    }
  }

  /** The components of a removable path. */
  ghost predicate RemovableAs(actual: Path, parts: Path) {
    || parts == actual + PREVIOUS
    || parts == actual + LEGACY
    || exists venv, site :: RelayVenv(venv) && (PosixSite(site) || WindowsSite(site)) && parts == BuiltinIn(actual, venv, site)
  }

  lemma {:induction false} RemovableParts(actual: Path, path: string) returns (parts: Path)
    requires Normal(actual) && Removable(actual, path)
    ensures Normal(parts) && path == Text(parts) && RemovableAs(actual, parts)
  {
    HistoricalIsNormal(actual);
    if path == Text(actual + PREVIOUS) {
      parts := actual + PREVIOUS;
    } else if path == Text(actual + LEGACY) {
      parts := actual + LEGACY;
    } else {
      var venv, site :|
        RelayVenv(venv) && (PosixSite(site) || WindowsSite(site)) && path == Text(BuiltinIn(actual, venv, site));
      BuiltinIsNormal(actual, venv, site);
      parts := BuiltinIn(actual, venv, site);
    }
  }

  lemma HistoricalIsNormal(home: Path)
    requires Normal(home)
    ensures Normal(home + PREVIOUS) && Normal(home + LEGACY)
  {
    assert Normal(PREVIOUS) && Normal(LEGACY);
  }

  /** A historical path of one home is a removable path of that home only. */
  lemma LastsAgree(home: Path, actual: Path, parts: Path, tail: Path)
    requires RemovableAs(actual, parts) && (tail == PREVIOUS || tail == LEGACY) && parts == home + tail
    ensures home == actual
  {
    assert parts[|parts| - 1] == tail[|tail| - 1];
    assert parts[|parts| - 2] == tail[|tail| - 2];
    assert home == parts[..|parts| - |tail|];
    if parts == actual + tail {
      assert actual == parts[..|parts| - |tail|];
    }
  }

  /** And so is a POSIX builtin path. */
  lemma BuiltinsAgree(home: Path, actual: Path, venv: Path, site: Path, venv': Path, site': Path)
    requires RelayVenv(venv) && PosixSite(site) && RelayVenv(venv') && (PosixSite(site') || WindowsSite(site'))
    requires BuiltinIn(home, venv, site) == BuiltinIn(actual, venv', site')
    ensures home == actual
  {
    var parts := BuiltinIn(home, venv, site);
    var n := |parts|;
    assert parts[n - 3] == site[1];
    assert parts[n - 3] == site'[|site'| - 2];
    assert parts[n - 6] == if |venv| == 1 then RELAY_ROOT[2] else venv[1];
    assert |site'| == 3;
    assert parts[n - 6] == if |venv'| == 1 then RELAY_ROOT[2] else venv'[1];
    assert |RELAY_ROOT[2]| == 10;
    assert |venv| == |venv'|;
    assert home == parts[..n - 7 - |venv|];
    assert actual == parts[..n - 7 - |venv|];
  }

  /** Every path below a one-line home that the relay removes is one line. */
  lemma RemovedIsOneLine(home: Path, path: string)
    requires OneLine(Text(home))
    requires Removable(home, path)
    ensures OneLine(path)
  {
    if PosixBuiltin(home, path) || WindowsBuiltin(home, path) {
      var venv, site :|
        RelayVenv(venv) && (PosixSite(site) || WindowsSite(site)) && path == Text(BuiltinIn(home, venv, site));
      BuiltinTextIsOneLine(home, venv, site);
    } else {
      HistoricalIsOneLine(home);
    }
  }

  lemma HistoricalIsOneLine(home: Path)
    requires OneLine(Text(home))
    ensures OneLine(Text(home + PREVIOUS)) && OneLine(Text(home + LEGACY))
  {
    HistoricalNamesAreOneLine();
    BelowIsOneLine(home, PREVIOUS);
    BelowIsOneLine(home, LEGACY);
  }

  lemma HistoricalNamesAreOneLine()
    ensures OneLines(PREVIOUS) && OneLines(LEGACY)
  {
  }

  lemma BuiltinTextIsOneLine(home: Path, venv: Path, site: Path)
    requires OneLine(Text(home)) && RelayVenv(venv) && (PosixSite(site) || WindowsSite(site))
    ensures OneLine(Text(BuiltinIn(home, venv, site)))
  {
    var rest := RELAY_ROOT + venv + site + ["builtin"];
    BuiltinIsOneLine(venv, site);
    assert home + rest == BuiltinIn(home, venv, site);
    BelowIsOneLine(home, rest);
  }

  lemma BelowIsOneLine(home: Path, rest: Path)
    requires OneLine(Text(home)) && OneLines(rest)
    ensures OneLine(Text(home + rest))
  {
    TextOfOneLines(rest);
    TextOfAppend(home, rest);
    OneLineParts(Text(home), Text(rest));
  }

  predicate OneLines(path: Path) { forall i :: 0 <= i < |path| ==> OneLine(path[i]) }

  lemma BuiltinIsOneLine(venv: Path, site: Path)
    requires RelayVenv(venv) && (PosixSite(site) || WindowsSite(site))
    ensures OneLines(RELAY_ROOT + venv + site + ["builtin"])
  {
    RelayRootIsOneLine();
    VenvIsOneLine(venv);
    SiteIsOneLine(site);
    AppendedOneLines(RELAY_ROOT, venv, site, ["builtin"]);
  }

  lemma RelayRootIsOneLine()
    ensures OneLines(RELAY_ROOT) && OneLines(["builtin"])
  {
  }

  lemma VenvIsOneLine(venv: Path)
    requires RelayVenv(venv)
    ensures OneLines(venv)
  {
  }

  lemma SiteIsOneLine(site: Path)
    requires PosixSite(site) || WindowsSite(site)
    ensures OneLines(site)
  {
    if PosixSite(site) {
      VersionIsComponent(site[1]);
    }
  }

  lemma AppendedOneLines(a: Path, b: Path, c: Path, d: Path)
    requires OneLines(a) && OneLines(b) && OneLines(c) && OneLines(d)
    ensures OneLines(a + b + c + d)
  {
  }

  /** Agreement over every run, wherever previous registrations resolve: a record that any crash
      schedule can return is accepted by the validator if and only if home is one line and, when
      the record reports a change, every previous registration of the original file resolves to
      a path the validator recognizes below that home. */
  lemma {:induction false} RecordIsAcceptedIff(
    context: Context, maximum: nat, home: Path, original: RepoFile, run: seq<State>, i: nat)
    requires var host := HostOf(context, maximum);
             && OverHome(context, home) && Readable(host, Some(original))
             && Run(host, run) && run[0] == Start(Pair(Some(original), None))
    requires i < |run| && run[i].pc.Done?
    ensures Validated(context.managed, run[i].pc.evidence) <==>
              && OneLine(Text(home))
              && (run[i].pc.evidence.updated ==>
                    forall repo :: repo in Registered(original.payload) && repo in context.previous
                                   ==> Recognizable(home, context.previous[repo]))
  {
    var host := HostOf(context, maximum);
    HostIsLawful(context, maximum);
    ReconciliationIsCrashSafe(host, original, run, i);
    ManagedHasHome(home);
    if OneLine(Text(home)) && run[i].pc.evidence.updated {
      UpdateIsAcceptedIff(context, maximum, home, original);
    }
  }

  lemma {:induction false} UpdateIsAcceptedIff(context: Context, maximum: nat, home: Path, original: RepoFile)
    requires var host := HostOf(context, maximum);
             OverHome(context, home) && Converges(host, original) && Changes(host, original)
    requires OneLine(Text(home))
    ensures Validated(context.managed, Updating(HostOf(context, maximum), original)) <==>
              forall repo :: repo in Registered(original.payload) && repo in context.previous
                             ==> Recognizable(home, context.previous[repo])
  {
    var repos := original.payload.document.repos.items;
    ValidatedAtHome(home, Updating(HostOf(context, maximum), original));
    AdditionsAreProven(context, repos);
    TextOfAppend(home, BUILTIN_SLOT);
    ChangeIsReported(context, original.payload);
    RemovalsAreProvenIff(context, home, repos);
  }

  lemma {:induction false} RemovalsAreProvenIff(context: Context, home: Path, repos: seq<string>)
    requires OverHome(context, home) && OneLine(Text(home))
    ensures RemovalsProven(RemovedPrevious(context, repos), Text(home)) <==>
              forall repo :: repo in repos && repo in context.previous ==> Recognizable(home, context.previous[repo])
  {
    var removed := RemovedPrevious(context, repos);
    RemovedIsExact(context, repos);
    forall repo | repo in context.previous
      ensures Proven(home, context.previous[repo]) <==> Recognizable(home, context.previous[repo])
    {
      RemovalIsProven(home, context.previous[repo]);
    }
    if forall repo :: repo in repos && repo in context.previous ==> Recognizable(home, context.previous[repo]) {
      forall i | 0 <= i < |removed|
        ensures Proven(home, removed[i])
      {
        assert removed[i] in removed;
      }
    }
    if RemovalsProven(removed, Text(home)) {
      forall repo | repo in repos && repo in context.previous
        ensures Recognizable(home, context.previous[repo])
      {
        assert context.previous[repo] in removed;
        var i :| 0 <= i < |removed| && removed[i] == context.previous[repo];
        assert Proven(home, removed[i]);
      }
    }
  }

  /* ---------- the shapes, spelled ---------- */

  lemma {:induction false} FirstDotIs(major: string, minor: string)
    requires '.' !in major
    ensures FirstDot(major + "." + minor) == |major|
  {
    var text := major + "." + minor;
    if major != "" {
      assert text[1..] == major[1..] + "." + minor;
      FirstDotIs(major[1..], minor);
    }
  }

  predicate Decimal(text: string) { |text| > 0 && forall c :: c in text ==> c in "0123456789" }

  lemma DigitsIff(text: string)
    ensures Digits(text) <==> Decimal(text)
  {
    forall i | 0 <= i < |text|
      ensures text[i] in text && ('0' <= text[i] <= '9' <==> text[i] in "0123456789")
    {
    }
  }

  /** A version directory is `python`, a run of digits, a dot and a run of digits. */
  lemma PythonLibraryIff(name: string)
    ensures PythonLibrary(name) <==>
              exists major, minor :: Decimal(major) && Decimal(minor) && name == "python" + major + "." + minor
  {
    if PythonLibrary(name) {
      var version := name[6..];
      var dot := FirstDot(version);
      DigitsIff(version[..dot]);
      DigitsIff(version[dot + 1..]);
      assert name == "python" + version[..dot] + "." + version[dot + 1..];
    }
    if major, minor :| Decimal(major) && Decimal(minor) && name == "python" + major + "." + minor {
      assert name[6..] == major + "." + minor;
      DigitsIff(major);
      DigitsIff(minor);
      FirstDotIs(major, minor);
      assert name[6..][..|major|] == major && name[6..][|major| + 1..] == minor;
    }
  }

  /** The environments of the relay: the one beside the generations, and one in each. */
  predicate Environment(venv: Path) {
    || venv == ["jarvis-venv"]
    || (&& |venv| == 3 && venv == ["generations", venv[1], "jarvis-venv"]
        && |venv[1]| == 64 && forall c :: c in venv[1] ==> c in "0123456789abcdef")
  }

  ghost predicate BuiltinAt(home: Path, value: string, venv: Path, lib: string, major: string, minor: string) {
    && Environment(venv) && lib in {"lib", "lib64"} && Decimal(major) && Decimal(minor)
    && value == Text(home + [".local", "share", "clio-relay"] + venv
                     + [lib, "python" + major + "." + minor, "site-packages"] + ["builtin"])
  }

  /** The POSIX builtin paths, component by component. */
  lemma PosixBuiltinIff(home: Path, value: string)
    ensures PosixBuiltin(home, value) <==> exists venv, lib, major, minor :: BuiltinAt(home, value, venv, lib, major, minor)
  {
    if PosixBuiltin(home, value) {
      var venv, site :| RelayVenv(venv) && PosixSite(site) && value == Text(BuiltinIn(home, venv, site));
      EnvironmentIff(venv);
      PythonLibraryIff(site[1]);
      var major, minor :| Decimal(major) && Decimal(minor) && site[1] == "python" + major + "." + minor;
      assert site == [site[0], "python" + major + "." + minor, "site-packages"];
      assert BuiltinAt(home, value, venv, site[0], major, minor);
    }
    if venv, lib, major, minor :| BuiltinAt(home, value, venv, lib, major, minor) {
      EnvironmentIff(venv);
      PythonLibraryIff("python" + major + "." + minor);
      assert PosixSite([lib, "python" + major + "." + minor, "site-packages"]);
      assert value == Text(BuiltinIn(home, venv, [lib, "python" + major + "." + minor, "site-packages"]));
    }
  }

  lemma EnvironmentIff(venv: Path)
    ensures RelayVenv(venv) <==> Environment(venv)
  {
    if |venv| == 3 {
      Sha256Iff(venv[1]);
      assert venv == [venv[0], venv[1], venv[2]];
    }
  }

  lemma PathsAreSpelled(home: Path)
    ensures var root := Text(home) + ("/" + ".local" + "/" + "share" + "/" + "clio-relay");
            && Text(home + MANAGED) == root + ("/" + "clio_relay")
            && Text(home + LEGACY) == root + ("/" + "managed-jarvis-repo")
    ensures Text(home + PREVIOUS) ==
              Text(home) + ("/" + ".local" + "/" + "src" + "/" + "clio-relay") + ("/" + "jarvis-packages" + "/" + "clio_relay")
    ensures Text(home + BUILTIN_SLOT) == Text(home) + ("/" + ".ppi-jarvis" + "/" + "builtin")
  {
    Below(home, RELAY_ROOT, ["clio_relay"]);
    Below(home, RELAY_ROOT, ["managed-jarvis-repo"]);
    Below(home, SOURCE_ROOT, ["jarvis-packages", "clio_relay"]);
    TextOfAppend(home, BUILTIN_SLOT);
    PreviousIsBelow();
    TextOfThree(".local", "share", "clio-relay");
    TextOfThree(".local", "src", "clio-relay");
    TextOfOne("clio_relay");
    TextOfOne("managed-jarvis-repo");
    TextOfTwo("jarvis-packages", "clio_relay");
    TextOfTwo(".ppi-jarvis", "builtin");
  }

  const SOURCE_ROOT: Path := [".local", "src", "clio-relay"]

  lemma PreviousIsBelow()
    ensures PREVIOUS == SOURCE_ROOT + ["jarvis-packages", "clio_relay"]
  {
  }

  lemma TextOfOne(a: string)
    ensures Text([a]) == "/" + a
  {
  }

  lemma Below(home: Path, middle: Path, last: Path)
    ensures Text(home + (middle + last)) == Text(home) + Text(middle) + Text(last)
  {
    TextOfAppend(home, middle + last);
    TextOfAppend(middle, last);
  }

  lemma TextOfTwo(a: string, b: string)
    ensures Text([a, b]) == "/" + a + "/" + b
  {
    assert [a, b][1..] == [b];
    assert [b][1..] == [];
    assert Text([b]) == "/" + b;
  }

  lemma TextOfThree(a: string, b: string, c: string)
    ensures Text([a, b, c]) == "/" + a + "/" + b + "/" + c
  {
    TextOfTwo(b, c);
    assert [a, b, c][1..] == [b, c];
    assert Text([a, b, c]) == "/" + a + Text([b, c]);
  }

  /** What the validator accepts of any record whatsoever, over the components of home. */
  lemma {:induction false} ValidatedIff(home: Path, evidence: Evidence)
    requires Normal(home)
    ensures var managed, slot := Text(home + MANAGED), Text(home + BUILTIN_SLOT);
            Validated(managed, evidence) <==>
              && (forall c :: c in Text(home) ==> c != '\0' && c != '\r' && c != '\n')
              && if evidence.updated
                 then && evidence.before != evidence.after
                      && evidence.added in {[], [managed], [slot], [managed, slot]}
                      && (forall path :: path in evidence.removed ==> Recognizable(home, path))
                      && (forall i, j :: 0 <= i < j < |evidence.removed| ==> Less(evidence.removed[i], evidence.removed[j]))
                      && (evidence.added != [] || evidence.removed != [])
                 else evidence.before == evidence.after && evidence.added == [] && evidence.removed == []
  {
    var managed, slot := Text(home + MANAGED), Text(home + BUILTIN_SLOT);
    ValidatedAtHome(home, evidence);
    SlotIsNotManaged(home);
    AdditionsIff(evidence.added, managed, slot);
    RemovalsIff(home, evidence.removed);
  }

  lemma ValidatedAtHome(home: Path, evidence: Evidence)
    ensures Validated(Text(home + MANAGED), evidence)
            <==> OneLine(Text(home)) && ValidatedBelow(Text(home), Text(home + MANAGED), evidence)
  {
    ManagedHasHome(home);
  }

  lemma SlotIsNotManaged(home: Path)
    ensures Text(home + MANAGED) != Text(home + BUILTIN_SLOT) == Text(home) + Text(BUILTIN_SLOT)
  {
    NamesBelow(home);
    TextOfAppend(home, BUILTIN_SLOT);
  }

  lemma AdditionsIff(values: seq<string>, managed: string, slot: string)
    requires managed != slot
    ensures AdditionsProven(values, managed, slot) <==> values in {[], [managed], [slot], [managed, slot]}
  {
    if |values| == 1 {
      assert values == [values[0]];
    } else if |values| == 2 {
      assert values == [values[0], values[1]];
    }
    assert [managed][0] == managed && [slot][0] == slot;
    assert [managed, slot][0] == managed && [managed, slot][1] == slot;
    assert [managed] + [slot] == [managed, slot];
    assert [managed] + [] == [managed] && [] + [slot] == [slot];
  }

  lemma RemovalsIff(home: Path, values: seq<string>)
    requires Normal(home)
    ensures RemovalsProven(values, Text(home)) <==>
              && (forall path :: path in values ==> Recognizable(home, path))
              && (forall i, j :: 0 <= i < j < |values| ==> Less(values[i], values[j]))
  {
    forall path
      ensures Proven(home, path) <==> Recognizable(home, path)
    {
      RemovalIsProven(home, path);
    }
    assert RemovalsProven(values, Text(home)) <==> Increasing(values) && forall i :: 0 <= i < |values| ==> Proven(home, values[i]);
    forall i | 0 <= i < |values|
      ensures values[i] in values
    {
    }
  }
}
