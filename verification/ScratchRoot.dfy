/**
 The private scratch root of a bootstrap: one `active` directory inside a fixed parent,
 moved aside under a quarantine name before it is deleted, so that a crash never leaves a
 half-deleted `active`. Preparing and cleaning up both survive power loss at any step.
 */
module ScratchRoot {
  import opened PosixPaths
  import opened Tree

  datatype Action = Prepare | Cleanup

  function Active(parent: Path): Path { parent + ["active"] }

  function Quarantine(parent: Path): Path { parent + [".active.quarantine"] }

  predicate Scratch(parent: Path, path: Path) { Prefix(Active(parent), path) || Prefix(Quarantine(parent), path) }

  /** Everything but the scratch root and its quarantine is as it was. */
  ghost predicate OthersKept(before: Files, after: Files, parent: Path) {
    forall p :: !Scratch(parent, p) ==>
      (p in before <==> p in after) && (p in before && p in after ==> SameEntry(before[p], after[p]))
  }

  /** A name is absent, or a directory of directories, regular files and links. */
  predicate Removable(files: Files, path: Path) {
    path in files ==> files[path].node.Directory? && NoSpecial(files, path)
  }

  predicate Clean(files: Files, parent: Path) {
    Removable(files, Active(parent)) && Removable(files, Quarantine(parent))
  }

  predicate Standing(files: Files, parent: Path) {
    WellFormed(files) && parent in files && files[parent].node.Directory?
  }

  /** The tree after `from` and all below it were renamed to `to`. */
  function Moved(files: Files, from: Path, to: Path): Files {
    (map p | p in files && !Prefix(from, p) :: files[p])
    + (map q | q in MovedNames(files, from, to) && from + q[|to|..] in files :: files[from + q[|to|..]])
  }

  function MovedNames(files: Files, from: Path, to: Path): (names: set<Path>)
    ensures forall q :: q in names ==> |q| >= |to|
  {
    set p | p in files && Prefix(from, p) :: to + p[|from|..]
  }

  /** What a rename makes of one name. */
  predicate RenamedAt(files: Files, moved: Files, from: Path, to: Path, q: Path) {
    && (Prefix(to, q) ==> (q in moved <==> from + q[|to|..] in files))
    && (Prefix(to, q) && q in moved && from + q[|to|..] in files ==> moved[q] == files[from + q[|to|..]])
    && (!Prefix(to, q) ==> (q in moved <==> q in files && !Prefix(from, q)))
    && (!Prefix(to, q) && q in moved && q in files ==> moved[q] == files[q])
  }

  lemma MovedAt(files: Files, from: Path, to: Path, q: Path)
    requires WellFormed(files) && to !in files
    ensures RenamedAt(files, Moved(files, from, to), from, to, q)
  {
    if Prefix(to, q) {
      if q in files {
        NotBelowAbsent(files, q, to);
      }
      var p := from + q[|to|..];
      assert p[..|from|] == from;
      assert to + p[|from|..] == q;
    }
    forall p | p in files && Prefix(from, p)
      ensures Prefix(to, to + p[|from|..])
    {
    }
  }

  ghost predicate Renaming(files: Files, moved: Files, parent: Path) {
    forall q :: RenamedAt(files, moved, Active(parent), Quarantine(parent), q)
  }

  predicate Quarantinable(files: Files, parent: Path) {
    && Standing(files, parent)
    && Active(parent) in files && files[Active(parent)].node.Directory?
    && Quarantine(parent) !in files
  }

  /** A quarantined tree is the active tree under another name. */
  lemma MovedAside(files: Files, parent: Path)
    requires Quarantinable(files, parent)
    ensures var moved := Moved(files, Active(parent), Quarantine(parent));
            && WellFormed(moved) && OthersKept(files, moved, parent)
            && Active(parent) !in moved
            && Quarantine(parent) in moved && moved[Quarantine(parent)].node.Directory?
            && (NoSpecial(moved, Quarantine(parent)) <==> NoSpecial(files, Active(parent)))
  {
    var from, to := Active(parent), Quarantine(parent);
    var moved := Moved(files, from, to);
    forall q
      ensures RenamedAt(files, moved, from, to, q)
    {
      MovedAt(files, from, to, q);
    }
    RenamedNames(files, moved, parent);
    forall q | q in moved && q != []
      ensures Parent(q) in moved && moved[Parent(q)].node.Directory?
    {
      RenamedParent(files, parent, moved, q);
    }
    RenamedSpecials(files, moved, parent);
  }

  lemma RenamedNames(files: Files, moved: Files, parent: Path)
    requires Quarantinable(files, parent) && Renaming(files, moved, parent)
    ensures Active(parent) !in moved
    ensures Quarantine(parent) in moved && moved[Quarantine(parent)] == files[Active(parent)]
    ensures OthersKept(files, moved, parent)
  {
    var from, to := Active(parent), Quarantine(parent);
    Apart(parent);
    assert RenamedAt(files, moved, from, to, from);
    assert RenamedAt(files, moved, from, to, to);
    assert to[..|to|] == to && from[..|from|] == from;
    assert from + to[|to|..] == from;
    forall p | !Scratch(parent, p)
      ensures (p in files <==> p in moved) && (p in files && p in moved ==> SameEntry(files[p], moved[p]))
    {
      assert RenamedAt(files, moved, from, to, p);
    }
  }

  lemma RenamedSpecials(files: Files, moved: Files, parent: Path)
    requires Quarantinable(files, parent) && Renaming(files, moved, parent)
    ensures NoSpecial(moved, Quarantine(parent)) <==> NoSpecial(files, Active(parent))
  {
    var from, to := Active(parent), Quarantine(parent);
    if NoSpecial(moved, to) {
      forall p | p in files && Prefix(from, p)
        ensures !files[p].node.Special?
      {
        var q := to + p[|from|..];
        assert q[..|to|] == to;
        assert from + q[|to|..] == p;
        assert RenamedAt(files, moved, from, to, q);
      }
    }
    if NoSpecial(files, from) {
      forall q | q in moved && Prefix(to, q)
        ensures !moved[q].node.Special?
      {
        assert RenamedAt(files, moved, from, to, q);
        var p := from + q[|to|..];
        assert p[..|from|] == from;
      }
    }
  }

  lemma Apart(parent: Path)
    ensures !Prefix(Active(parent), Quarantine(parent)) && !Prefix(Quarantine(parent), Active(parent))
    ensures Active(parent) != [] && Quarantine(parent) != []
    ensures !Scratch(parent, parent)
  {
    assert Active(parent)[|parent|] != Quarantine(parent)[|parent|];
  }

  lemma RenamedParent(files: Files, parent: Path, moved: Files, q: Path)
    requires Quarantinable(files, parent) && Renaming(files, moved, parent)
    requires q in moved && q != []
    ensures Parent(q) in moved && moved[Parent(q)].node.Directory?
  {
    var from, to := Active(parent), Quarantine(parent);
    Apart(parent);
    if Prefix(to, q) && |q| > |to| {
      ParentBelowQuarantine(files, parent, moved, q);
    } else if Prefix(to, q) {
      assert RenamedAt(files, moved, from, to, parent);
      assert Parent(q) == parent;
    } else {
      ParentElsewhere(files, parent, moved, q);
    }
  }

  lemma ParentBelowQuarantine(files: Files, parent: Path, moved: Files, q: Path)
    requires Quarantinable(files, parent) && Renaming(files, moved, parent)
    requires q in moved && Prefix(Quarantine(parent), q) && |q| > |Quarantine(parent)|
    ensures Parent(q) in moved && moved[Parent(q)].node.Directory?
  {
    var from, to := Active(parent), Quarantine(parent);
    assert RenamedAt(files, moved, from, to, q);
    assert RenamedAt(files, moved, from, to, Parent(q));
    var p := from + q[|to|..];
    assert Parent(p) == from + Parent(q)[|to|..];
    assert Parent(q)[..|to|] == q[..|to|];
  }

  lemma ParentElsewhere(files: Files, parent: Path, moved: Files, q: Path)
    requires Quarantinable(files, parent) && Renaming(files, moved, parent)
    requires q in moved && q != [] && !Prefix(Quarantine(parent), q)
    ensures Parent(q) in moved && moved[Parent(q)].node.Directory?
  {
    var from, to := Active(parent), Quarantine(parent);
    assert RenamedAt(files, moved, from, to, q);
    assert RenamedAt(files, moved, from, to, Parent(q));
    if Prefix(from, Parent(q)) {
      PrefixOfParent(from, q);
    }
    if Prefix(to, Parent(q)) {
      PrefixOfParent(to, q);
    }
  }

  lemma PrefixOfParent(root: Path, q: Path)
    requires q != [] && Prefix(root, Parent(q))
    ensures Prefix(root, q)
  {
    assert q[..|root|] == Parent(q)[..|root|];
  }

  lemma ErasedOutside(before: Files, after: Files, parent: Path, path: Path)
    requires Shrunk(before, after, {path}) && Scratch(parent, path)
    requires path == Active(parent) || path == Quarantine(parent)
    ensures OthersKept(before, after, parent)
  {
  }

  /** Deleting at the quarantine changes nothing about `active`. */
  lemma ActiveIsApart(before: Files, after: Files, parent: Path)
    requires Shrunk(before, after, {Quarantine(parent)})
    ensures Active(parent) in before <==> Active(parent) in after
    ensures Removable(before, Active(parent)) <==> Removable(after, Active(parent))
  {
    forall p | Prefix(Active(parent), p)
      ensures !Prefix(Quarantine(parent), p)
    {
      assert p[|parent|] == "active";
    }
    Apart(parent);
    assert forall p :: p in before && Prefix(Active(parent), p) ==> p in after;
  }

  /* ---------- how much power a call needs ---------- */

  /** At most `extra` more steps were taken than entries are gone. */
  predicate Charged(before: Files, budget: nat, after: Files, left: nat, extra: nat) {
    budget - left <= |before| - |after| + extra
  }

  ghost function ScratchEntries(files: Files, parent: Path): set<Path> {
    set p | p in files && Scratch(parent, p)
  }

  /** One deletion for each entry at or below the two names, a rename and a mkdir. */
  ghost function Needs(files: Files, parent: Path): nat { |ScratchEntries(files, parent)| + 2 }

  ghost function OtherEntries(files: Files, parent: Path): set<Path> {
    set p | p in files && !Scratch(parent, p)
  }

  lemma EntriesAreSplit(files: Files, parent: Path)
    ensures |files| == |OtherEntries(files, parent)| + |ScratchEntries(files, parent)|
  {
    var others, scratch := OtherEntries(files, parent), ScratchEntries(files, parent);
    assert files.Keys == others + scratch && others !! scratch;
    assert |files| == |files.Keys|;
  }

  /** What changed in number changed at or below the two names. */
  lemma ScratchIsCounted(before: Files, after: Files, parent: Path)
    requires OthersKept(before, after, parent)
    ensures |before| - |after| == |ScratchEntries(before, parent)| - |ScratchEntries(after, parent)|
  {
    EntriesAreSplit(before, parent);
    EntriesAreSplit(after, parent);
    assert OtherEntries(before, parent) == OtherEntries(after, parent);
  }

  function Renames(names: set<Path>, from: Path, to: Path): set<Path> {
    set p | p in names && Prefix(from, p) :: to + p[|from|..]
  }

  lemma {:induction false} RenamesAreNoMore(names: set<Path>, from: Path, to: Path)
    requires forall p :: p in names ==> Prefix(from, p)
    ensures |Renames(names, from, to)| <= |names|
  {
    if names != {} {
      var p :| p in names;
      RenamesAreNoMore(names - {p}, from, to);
      assert Renames(names, from, to) == Renames(names - {p}, from, to) + {to + p[|from|..]};
    }
  }

  lemma MovedKeysAre(files: Files, from: Path, to: Path)
    requires WellFormed(files) && to !in files
    ensures Moved(files, from, to).Keys <= (files.Keys - Subtree(files, from)) + Renames(Subtree(files, from), from, to)
  {
    forall q | q in Moved(files, from, to)
      ensures q in (files.Keys - Subtree(files, from)) + Renames(Subtree(files, from), from, to)
    {
      MovedAt(files, from, to, q);
      if Prefix(to, q) {
        var p := from + q[|to|..];
        assert p[..|from|] == from && to + p[|from|..] == q;
      }
    }
  }

  lemma UnionIsNoLarger(all: set<Path>, part: set<Path>, image: set<Path>, moved: set<Path>)
    requires part <= all && |image| <= |part| && moved <= (all - part) + image
    ensures |moved| <= |all|
  {
    assert all == (all - part) + part;
    SubsetIsNoLarger(moved, (all - part) + image);
  }

  lemma MovedIsNoLarger(files: Files, from: Path, to: Path)
    requires WellFormed(files) && to !in files
    ensures |Moved(files, from, to)| <= |files|
  {
    MovedKeysAre(files, from, to);
    RenamesAreNoMore(Subtree(files, from), from, to);
    UnionIsNoLarger(files.Keys, Subtree(files, from), Renames(Subtree(files, from), from, to), Moved(files, from, to).Keys);
    SameSize(files);
    SameSize(Moved(files, from, to));
  }

  lemma SameSize(files: Files)
    ensures |files| == |files.Keys|
  {
  }

  /** Delete the quarantine if there is one. */
  method RemoveQuarantine(disk: FileTree, parent: Path) returns (outcome: Outcome)
    requires Standing(disk.files, parent)
    modifies disk
    ensures Standing(disk.files, parent) && OthersKept(old(disk.files), disk.files, parent)
    ensures Active(parent) in disk.files <==> Active(parent) in old(disk.files)
    ensures Removable(disk.files, Active(parent)) <==> Removable(old(disk.files), Active(parent))
    ensures Removable(disk.files, Quarantine(parent)) <==> Removable(old(disk.files), Quarantine(parent))
    ensures outcome.Done? ==> Quarantine(parent) !in disk.files
    ensures outcome.Refused? ==> !Removable(old(disk.files), Quarantine(parent))
    ensures Charged(old(disk.files), old(disk.power), disk.files, disk.power, 0) && |disk.files| <= |old(disk.files)|
    ensures outcome.PowerLoss? ==> disk.power == 0
  {
    var path := Quarantine(parent);
    if path !in disk.files {
      return Done;
    }
    if !disk.files[path].node.Directory? {
      return Refused;
    }
    ghost var before := disk.files;
    outcome := disk.RemoveEntry(path);
    Apart(parent);
    assert Prefix(path, path);
    ErasedOutside(before, disk.files, parent, path);
    ShrunkIsNoLarger(before, disk.files, path);
    ActiveIsApart(before, disk.files, parent);
    RemovableIsKept(before, disk.files, path);
  }

  lemma ShrunkIsNoLarger(before: Files, after: Files, path: Path)
    requires Shrunk(before, after, {path})
    ensures |after| <= |before|
  {
    assert |before| == |before.Keys| && |after| == |after.Keys|;
    SubsetIsNoLarger(after.Keys, before.Keys);
  }

  lemma RemovableIsKept(before: Files, after: Files, path: Path)
    requires WellFormed(after) && Shrunk(before, after, {path}) && path in before && before[path].node.Directory?
    ensures Removable(before, path) <==> Removable(after, path)
  {
    if !Removable(before, path) {
      var p :| p in before && Prefix(path, p) && before[p].node.Special?;
      assert p in after;
      AncestorIsPresent(after, p, |path|);
    }
  }

  /** What a call that ended has left behind. */
  ghost predicate Prepared(files: Files, parent: Path, action: Action) {
    && Quarantine(parent) !in files
    && (action.Cleanup? ==> Active(parent) !in files)
    && (action.Prepare? ==>
          && Active(parent) in files && files[Active(parent)].node.Directory?
          && forall p :: p in files && Prefix(Active(parent), p) ==> p == Active(parent))
  }

  /** The scratch program. However often it is cut short, a call that ends has left an empty
      `active` (or none, for a cleanup), no quarantine, and every other entry as it was. With
      power for the two subtrees, a rename and a mkdir it ends if and only if both names are
      absent or removable directories, and is refused otherwise. */
  method RunScratch(disk: FileTree, parent: Path, action: Action) returns (outcome: Outcome)
    requires Standing(disk.files, parent)
    modifies disk
    ensures Standing(disk.files, parent) && OthersKept(old(disk.files), disk.files, parent)
    ensures Clean(disk.files, parent) <==> Clean(old(disk.files), parent)
    ensures outcome.Done? ==> Clean(disk.files, parent) && Prepared(disk.files, parent, action)
    ensures outcome.Refused? ==> !Clean(disk.files, parent)
    ensures outcome.PowerLoss? ==> Needs(disk.files, parent) <= Needs(old(disk.files), parent)
    ensures old(disk.power) >= Needs(old(disk.files), parent) ==> !outcome.PowerLoss?
  {
    ghost var start := disk.files;
    outcome := RunSteps(disk, parent, action);
    ScratchIsCounted(start, disk.files, parent);
  }

  method RunSteps(disk: FileTree, parent: Path, action: Action) returns (outcome: Outcome)
    requires Standing(disk.files, parent)
    modifies disk
    ensures Standing(disk.files, parent) && OthersKept(old(disk.files), disk.files, parent)
    ensures Clean(disk.files, parent) <==> Clean(old(disk.files), parent)
    ensures outcome.Done? ==> Clean(disk.files, parent) && Prepared(disk.files, parent, action)
    ensures outcome.Refused? ==> !Clean(disk.files, parent)
    ensures outcome.PowerLoss? ==>
              && disk.power == 0 && |disk.files| <= |old(disk.files)|
              && Charged(old(disk.files), old(disk.power), disk.files, disk.power, 1)
  {
    ghost var start := disk.files;
    outcome := ClearBoth(disk, parent);
    if !outcome.Done? {
      return;
    }
    NamesAreGone(disk.files, parent);
    if action.Cleanup? {
      return;
    }
    ghost var cleared := disk.files;
    outcome := MakeActive(disk, parent);
    OthersCompose(start, cleared, disk.files, parent);
  }

  lemma NamesAreGone(files: Files, parent: Path)
    requires Active(parent) !in files && Quarantine(parent) !in files
    ensures Clean(files, parent) && Prepared(files, parent, Cleanup)
  {
  }

  /** Remove the quarantine, then `active` by way of the quarantine. */
  method ClearBoth(disk: FileTree, parent: Path) returns (outcome: Outcome)
    requires Standing(disk.files, parent)
    modifies disk
    ensures Standing(disk.files, parent) && OthersKept(old(disk.files), disk.files, parent)
    ensures Clean(disk.files, parent) <==> Clean(old(disk.files), parent)
    ensures outcome.Done? ==> Active(parent) !in disk.files && Quarantine(parent) !in disk.files
    ensures outcome.Refused? ==> !Clean(disk.files, parent)
    ensures Charged(old(disk.files), old(disk.power), disk.files, disk.power, 1) && |disk.files| <= |old(disk.files)|
    ensures outcome.PowerLoss? ==> disk.power == 0
  {
    ghost var start := disk.files;
    outcome := RemoveQuarantine(disk, parent);
    if !outcome.Done? || Active(parent) !in disk.files {
      return;
    }
    if !disk.files[Active(parent)].node.Directory? {
      return Refused;
    }
    ghost var cleared := disk.files;
    outcome := DropActive(disk, parent);
    OthersCompose(start, cleared, disk.files, parent);
  }

  /** Move `active` aside and delete it there. */
  method DropActive(disk: FileTree, parent: Path) returns (outcome: Outcome)
    requires Quarantinable(disk.files, parent)
    modifies disk
    ensures Standing(disk.files, parent) && OthersKept(old(disk.files), disk.files, parent)
    ensures Clean(disk.files, parent) <==> Clean(old(disk.files), parent)
    ensures outcome.Done? ==> Active(parent) !in disk.files && Quarantine(parent) !in disk.files
    ensures outcome.Refused? ==> !Clean(disk.files, parent)
    ensures Charged(old(disk.files), old(disk.power), disk.files, disk.power, 1) && |disk.files| <= |old(disk.files)|
    ensures outcome.PowerLoss? ==> disk.power == 0
  {
    ghost var start := disk.files;
    var alive := SetAside(disk, parent);
    if !alive {
      return PowerLoss;
    }
    ghost var aside := disk.files;
    outcome := RemoveQuarantine(disk, parent);
    OthersCompose(start, aside, disk.files, parent);
  }

  /** Rename `active` to the quarantine name. */
  method SetAside(disk: FileTree, parent: Path) returns (alive: bool)
    requires Quarantinable(disk.files, parent)
    modifies disk
    ensures Standing(disk.files, parent) && OthersKept(old(disk.files), disk.files, parent)
    ensures Clean(disk.files, parent) <==> Clean(old(disk.files), parent)
    ensures alive ==> Active(parent) !in disk.files
    ensures |disk.files| <= |old(disk.files)|
    ensures if alive then disk.power == old(disk.power) - 1 else disk.power == 0 && disk.files == old(disk.files)
    ensures alive <==> old(disk.power) > 0
  {
    if disk.power == 0 {
      return false;
    }
    disk.power := disk.power - 1;
    AsideKeepsAll(disk.files, parent);
    disk.files := Moved(disk.files, Active(parent), Quarantine(parent));
    return true;
  }

  lemma AsideKeepsAll(files: Files, parent: Path)
    requires Quarantinable(files, parent)
    ensures var moved := Moved(files, Active(parent), Quarantine(parent));
            && Standing(moved, parent) && OthersKept(files, moved, parent)
            && (Clean(moved, parent) <==> Clean(files, parent))
            && Active(parent) !in moved
            && |moved| <= |files|
  {
    MovedAside(files, parent);
    MovedIsNoLarger(files, Active(parent), Quarantine(parent));
    Apart(parent);
  }

  lemma OthersCompose(a: Files, b: Files, c: Files, parent: Path)
    requires OthersKept(a, b, parent) && OthersKept(b, c, parent)
    ensures OthersKept(a, c, parent)
  {
  }

  method MakeActive(disk: FileTree, parent: Path) returns (outcome: Outcome)
    requires Standing(disk.files, parent)
    requires Active(parent) !in disk.files && Quarantine(parent) !in disk.files
    modifies disk
    ensures Standing(disk.files, parent) && OthersKept(old(disk.files), disk.files, parent)
    ensures Clean(disk.files, parent)
    ensures outcome.Done? ==> Prepared(disk.files, parent, Prepare)
    ensures if old(disk.power) > 0 then outcome.Done? else outcome.PowerLoss? && disk.power == 0 && disk.files == old(disk.files)
  {
    if disk.power == 0 {
      return PowerLoss;
    }
    disk.power := disk.power - 1;
    var device: nat, inode: nat, changed: nat, size: nat := *, *, *, *;
    ghost var was := disk.files;
    var active := Active(parent);
    Apart(parent);
    disk.files := disk.files[active := Entry(device, inode, Directory, changed, size)];
    forall p | p in was
      ensures !Prefix(active, p)
    {
      NotBelowAbsent(was, p, active);
    }
    assert Parent(active) == parent;
    forall p | p in disk.files && p != []
      ensures Parent(p) in disk.files && disk.files[Parent(p)].node.Directory?
    {
      assert p != active ==> p in was && Parent(p) in was;
    }
    outcome := Done;
  }

  /** What any number of interrupted calls have come to. */
  ghost predicate Settling(start: Files, now: Files, parent: Path, action: Action, outcome: Outcome) {
    && Standing(now, parent) && OthersKept(start, now, parent)
    && (Clean(now, parent) <==> Clean(start, parent))
    && (outcome.Done? ==> Clean(start, parent) && Prepared(now, parent, action))
    && (outcome.Refused? ==> !Clean(start, parent))
    && (outcome.PowerLoss? ==> Needs(now, parent) <= Needs(start, parent))
  }

  /** Run the program again after each of any number of power losses: one call with enough power
      ends it, successfully if and only if both names were removable at the start. */
  method RunAfterCrashes(disk: FileTree, parent: Path, action: Action, powers: seq<nat>) returns (outcome: Outcome)
    requires Standing(disk.files, parent)
    modifies disk
    ensures OthersKept(old(disk.files), disk.files, parent)
    ensures outcome.Done? ==> Clean(old(disk.files), parent) && Prepared(disk.files, parent, action)
    ensures outcome.Refused? ==> !Clean(old(disk.files), parent)
    ensures outcome.PowerLoss? ==> Starved(powers, |powers|, Needs(old(disk.files), parent))
  {
    ghost var start := disk.files;
    ghost var needs := Needs(start, parent);
    outcome := PowerLoss;
    var i := 0;
    while i < |powers| && outcome.PowerLoss?
      invariant 0 <= i <= |powers|
      invariant Settling(start, disk.files, parent, action, outcome)
      invariant outcome.PowerLoss? ==> Starved(powers, i, needs)
    {
      outcome := RunAgain(disk, parent, action, powers[i], start, needs);
      if outcome.PowerLoss? {
        StillStarved(powers, i, needs);
      }
      i := i + 1;
    }
  }

  /** One more call, on what the earlier ones left of `start`. */
  method RunAgain(disk: FileTree, parent: Path, action: Action, power: nat, ghost start: Files, ghost needs: nat)
    returns (outcome: Outcome)
    requires Settling(start, disk.files, parent, action, PowerLoss) && needs == Needs(start, parent)
    modifies disk
    ensures Settling(start, disk.files, parent, action, outcome)
    ensures outcome.PowerLoss? ==> power < needs
  {
    ghost var before := disk.files;
    disk.power := power;
    outcome := RunScratch(disk, parent, action);
    OthersCompose(start, before, disk.files, parent);
  }

  /* ---------- the names and the end states, spelled ---------- */

  /** An entry at or below one of the two names. */
  predicate Within(parent: Path, path: Path) {
    |path| > |parent| && path[..|parent|] == parent && (path[|parent|] == "active" || path[|parent|] == ".active.quarantine")
  }

  lemma ScratchIff(parent: Path, path: Path)
    ensures Scratch(parent, path) <==> Within(parent, path)
  {
    PrefixOfChild(parent, "active", path);
    PrefixOfChild(parent, ".active.quarantine", path);
  }

  lemma PrefixOfChild(parent: Path, name: string, path: Path)
    ensures Prefix(parent + [name], path) <==> |path| > |parent| && path[..|parent|] == parent && path[|parent|] == name
  {
    if |path| > |parent| {
      assert path[..|parent| + 1] == path[..|parent|] + [path[|parent|]];
    }
  }

  /** Preparing ends with an empty directory `active` as the only scratch entry, cleaning up with
      none. */
  lemma PreparedIff(files: Files, parent: Path, action: Action)
    requires Standing(files, parent)
    ensures Prepared(files, parent, action) <==>
              && (forall p :: p in files && Within(parent, p) ==>
                    action == Prepare && p == parent + ["active"] && files[p].node == Directory)
              && (action == Prepare ==> parent + ["active"] in files)
  {
    forall p | p in files
      ensures Scratch(parent, p) <==> Within(parent, p)
      ensures Prefix(Active(parent), p) ==> Active(parent) in files
      ensures Prefix(Quarantine(parent), p) ==> Quarantine(parent) in files
    {
      ScratchIff(parent, p);
      if Active(parent) !in files {
        NotBelowAbsent(files, p, Active(parent));
      }
      if Quarantine(parent) !in files {
        NotBelowAbsent(files, p, Quarantine(parent));
      }
    }
    NamesDiffer(parent);
  }

  lemma NamesDiffer(parent: Path)
    ensures Active(parent) != Quarantine(parent)
    ensures Within(parent, Quarantine(parent)) && Within(parent, Active(parent))
    ensures Active(parent) == parent + ["active"] && !Prefix(Quarantine(parent), Active(parent))
  {
    assert Active(parent)[|parent|] == "active" && Quarantine(parent)[|parent|] == ".active.quarantine";
    assert Quarantine(parent)[..|parent|] == parent == Active(parent)[..|parent|];
  }

  /** Outside the two names every entry stands as it did; a directory may have changed in time
      and size. */
  lemma OthersKeptIff(before: Files, after: Files, parent: Path)
    ensures OthersKept(before, after, parent) <==>
              forall p :: !Within(parent, p) ==>
                && (p in before <==> p in after)
                && (p in before && p in after ==>
                      var was, now := before[p], after[p];
                      && now.device == was.device && now.inode == was.inode && now.node == was.node
                      && (was.node == Directory || (now.changed == was.changed && now.size == was.size)))
  {
    forall p
      ensures Scratch(parent, p) <==> Within(parent, p)
    {
      ScratchIff(parent, p);
    }
  }
}
